/** Loading a new index from the documents that are there (tissdb/storage/collection.cpp:61-75). */
module IndexLoading {
  import opened Options
  import opened Documents
  import opened ValueTree
  import opened Stacks
  import opened StackLaws
  import J = Json
  import JL = JsonLaws
  import opened Indexes
  import opened IndexLists
  import opened IndexSteps

  /** What the loop of `create_index` makes of one index; it stops where updating throws. */
  function Loaded(f: Format, data: Docs, ix: Index, ids: seq<string>): (r: Index)
    ensures r.name == ix.name && r.fields == ix.fields
    decreases ids
  {
    if ids == [] then ix
    else if !IsLive(data, ids[0]) then Loaded(f, data, ix, ids[1..])
    else match Update(f, ix, ids[0], data[ids[0]].value)
      case None => ix
      case Some(next) => Loaded(f, data, next, ids[1..])
  }

  lemma {:induction false} LoadedFlat(f: Format, data: Docs, ix: Index, ids: seq<string>)
    ensures Flat(Loaded(f, data, ix, ids).tree) ==> Flat(ix.tree)
    decreases ids
  {
    hide Update, Flat;
    if ids != [] {
      if !IsLive(data, ids[0]) {
        LoadedFlat(f, data, ix, ids[1..]);
      } else {
        UpdateFlat(f, ix, ids[0], data[ids[0]].value);
        var next := Update(f, ix, ids[0], data[ids[0]].value);
        if next.Some? {
          LoadedFlat(f, data, next.value, ids[1..]);
        }
      }
    }
  }

  /** Every live document is in the index or has no key in it. */
  ghost predicate Settled(f: Format, data: Docs, ix: Index) {
    forall id | IsLive(data, id) :: Update(f, ix, id, data[id].value) == Some(ix)
  }

  lemma GoodSettled(f: Format, data: Docs, ix: Index, crowd: Crowd)
    requires Good(f, data, ix, crowd)
    ensures Settled(f, data, ix)
  {
    hide Good, Update;
    forall id | IsLive(data, id) ensures Update(f, ix, id, data[id].value) == Some(ix) {
      UpdateAgain(f, data, ix, crowd, id);
    }
  }

  lemma {:induction false} UpdateAllAt(f: Format, data: Docs, ixs: seq<Index>, j: nat, id: string)
    requires j < |ixs| && IsLive(data, id)
    requires forall i | 0 <= i < |ixs| && i != j :: Settled(f, data, ixs[i])
    ensures UpdateAll(f, ixs, id, data[id].value) ==
            (ixs[j := Updated(f, ixs[j], id, data[id].value)], Update(f, ixs[j], id, data[id].value).Some?)
  {
    hide Update;
    if j == 0 {
      if Update(f, ixs[0], id, data[id].value).Some? {
        UpdateAllSettled(f, data, ixs[1..], id);
      }
      var u := Updated(f, ixs[0], id, data[id].value);
      assert ixs[0 := u] == [u] + ixs[1..];
      assert ixs[0 := ixs[0]] == ixs;
    } else {
      UpdateAllAt(f, data, ixs[1..], j - 1, id);
      var u := Updated(f, ixs[j], id, data[id].value);
      assert ixs[j := u] == [ixs[0]] + ixs[1..][j - 1 := u];
    }
  }

  lemma {:induction false} UpdateAllSettled(f: Format, data: Docs, ixs: seq<Index>, id: string)
    requires IsLive(data, id) && forall i | 0 <= i < |ixs| :: Settled(f, data, ixs[i])
    ensures UpdateAll(f, ixs, id, data[id].value) == (ixs, true)
  {
    hide Update;
    if ixs != [] {
      UpdateAllSettled(f, data, ixs[1..], id);
      assert ixs == [ixs[0]] + ixs[1..];
    }
  }

  /** Loading changes no index but the new one. */
  lemma {:induction false} LoadAt(f: Format, data: Docs, ixs: seq<Index>, j: nat, ids: seq<string>)
    requires j < |ixs| && forall i | 0 <= i < |ixs| && i != j :: Settled(f, data, ixs[i])
    ensures Load(f, data, ixs, ids).0 == ixs[j := Loaded(f, data, ixs[j], ids)]
    decreases ids
  {
    hide UpdateAll, Update, Settled;
    if ids == [] {
      assert ixs[j := ixs[j]] == ixs;
    } else if IsLive(data, ids[0]) {
      UpdateAllAt(f, data, ixs, j, ids[0]);
      var (ixs', ok) := UpdateAll(f, ixs, ids[0], data[ids[0]].value);
      if ok {
        LoadAt(f, data, ixs', j, ids[1..]);
      }
      assert ixs'[j := Loaded(f, data, ixs'[j], ids[1..])] == ixs[j := Loaded(f, data, ixs'[j], ids[1..])];
    } else {
      LoadAt(f, data, ixs, j, ids[1..]);
    }
  }

  lemma {:induction false} LoadSettled(f: Format, data: Docs, ixs: seq<Index>, ids: seq<string>)
    requires forall i | 0 <= i < |ixs| :: Settled(f, data, ixs[i])
    ensures Load(f, data, ixs, ids) == (ixs, true)
    decreases ids
  {
    hide UpdateAll, Settled;
    if ids != [] {
      if IsLive(data, ids[0]) {
        UpdateAllSettled(f, data, ixs, ids[0]);
      }
      LoadSettled(f, data, ixs, ids[1..]);
    }
  }

  // ---------- plain ids ----------

  /** The live documents among the ids. */
  ghost function Among(data: Docs, ids: set<string>): Docs { map id | id in data && id in ids && data[id].Some? :: data[id] }

  /** Every id whose document has a key is plain. */
  predicate FineLoad(f: Format, fields: seq<string>, data: Docs) {
    forall id <- data | IsLive(data, id) :: CompositeKey(f.printer, fields, data[id].value) == "" || JL.Plain(id)
  }

  ghost function LoadCrowd(f: Format, fields: seq<string>, data: Docs): Crowd { NextCrowd(f, fields, iset{}, data) }

  /** Adding a document only adds to the shared keys. */
  lemma CrowdGrows(f: Format, fields: seq<string>, data: Docs, id: string, doc: Document)
    requires !IsLive(data, id)
    ensures NextCrowd(f, fields, LoadCrowd(f, fields, data), data[id := Some(doc)]) == LoadCrowd(f, fields, data[id := Some(doc)])
  {
    hide CompositeKey;
    var data' := data[id := Some(doc)];
    forall k, x ensures HasKey(f.printer, fields, data, x, k) ==> HasKey(f.printer, fields, data', x, k) {
    }
    forall k | Shared(f.printer, fields, data, k) ensures Shared(f.printer, fields, data', k) {
      var a, b :| a != b && HasKey(f.printer, fields, data, a, k) && HasKey(f.printer, fields, data, b, k);
      assert HasKey(f.printer, fields, data', a, k) && HasKey(f.printer, fields, data', b, k);
    }
  }

  lemma FirstId(done: set<string>, ids: seq<string>)
    requires ids != [] && NoRepeats(ids) && forall id <- ids :: id !in done
    ensures NoRepeats(ids[1..]) && ids[0] !in done && forall id <- ids[1..] :: id !in done + {ids[0]}
    ensures done + (set id <- ids) == done + {ids[0]} + (set id <- ids[1..])
  {
    assert forall i | 0 <= i < |ids[1..]| :: ids[1..][i] == ids[i + 1];
    assert ids == [ids[0]] + ids[1..];
  }

  lemma AmongNext(data: Docs, done: set<string>, id: string)
    requires id !in done
    ensures Among(data, done + {id}) == if IsLive(data, id) then Among(data, done)[id := data[id]] else Among(data, done)
    ensures !IsLive(Among(data, done), id)
  {
  }

  lemma {:induction false} LoadGood(f: Format, data: Docs, done: set<string>, ix: Index, ids: seq<string>)
    requires FineLoad(f, ix.fields, data) && NoRepeats(ids) && forall id <- ids :: id !in done
    requires Good(f, Among(data, done), ix, LoadCrowd(f, ix.fields, Among(data, done)))
    ensures var r := Loaded(f, data, ix, ids);
            var all := Among(data, done + (set id <- ids));
            Flat(r.tree) ==> Good(f, all, r, LoadCrowd(f, ix.fields, all))
    decreases ids
  {
    hide Good, Update, LoadCrowd, FineLoad, CompositeKey, JL.Plain, Flat, Among;
    if ids == [] {
      assert done + (set id <- ids) == done;
    } else {
      var id, part := ids[0], Among(data, done);
      var rest := ids[1..];
      FirstId(done, ids);
      AmongNext(data, done, id);
      if IsLive(data, id) {
        var doc := data[id].value;
        assert CompositeKey(f.printer, ix.fields, doc) == "" || JL.Plain(id) by { FineAt(f, ix.fields, data, id); }
        UpdateGood(f, part, ix, LoadCrowd(f, ix.fields, part), id, doc);
        CrowdGrows(f, ix.fields, part, id, doc);
        var next := Update(f, ix, id, doc).value;
        LoadedFlat(f, data, next, rest);
        if Flat(next.tree) {
          LoadGood(f, data, done + {id}, next, rest);
        }
      } else {
        LoadGood(f, data, done + {id}, ix, rest);
      }
    }
  }

  lemma FineAt(f: Format, fields: seq<string>, data: Docs, id: string)
    requires FineLoad(f, fields, data) && IsLive(data, id)
    ensures CompositeKey(f.printer, fields, data[id].value) == "" || JL.Plain(id)
  {
    hide CompositeKey, JL.Plain;
  }

  // ---------- other ids ----------

  /** The quotes around ids, and `k` for every quote and backslash in them. */
  function Marked(ids: seq<string>, k: nat): nat {
    if ids == [] then 0 else 2 + k * JL.Marks(ids[0]) + Marked(ids[1..], k)
  }

  /** The same for those ids whose documents have the key. */
  function KeyedMarks(f: Format, fields: seq<string>, data: Docs, key: string, ids: seq<string>): nat {
    if ids == [] then 0
    else (if HasKey(f.printer, fields, data, ids[0], key) then 2 + JL.Marks(ids[0]) else 0) + KeyedMarks(f, fields, data, key, ids[1..])
  }

  lemma {:induction false} MarkedAppend(a: seq<string>, b: seq<string>, k: nat)
    ensures Marked(a + b, k) == Marked(a, k) + Marked(b, k)
  {
    hide JL.Marks;
    if a == [] {
      assert a + b == b;
    } else {
      assert (a + b)[0] == a[0] && (a + b)[1..] == a[1..] + b;
      MarkedAppend(a[1..], b, k);
    }
  }

  /** A list that has every one of the ids with the key has their quotes and backslashes. */
  lemma {:induction false} Covering(f: Format, fields: seq<string>, data: Docs, key: string, ids: seq<string>, found: seq<string>)
    requires NoRepeats(ids) && forall id <- ids :: HasKey(f.printer, fields, data, id, key) ==> id in found
    ensures KeyedMarks(f, fields, data, key, ids) <= Marked(found, 1)
    decreases ids
  {
    hide HasKey, JL.Marks;
    if ids != [] {
      var id, rest := ids[0], ids[1..];
      assert forall i | 0 <= i < |rest| :: rest[i] == ids[i + 1];
      assert ids == [id] + rest;
      if HasKey(f.printer, fields, data, id, key) {
        var i :| 0 <= i < |found| && found[i] == id;
        var others := found[..i] + found[i + 1..];
        assert found == found[..i] + ([id] + found[i + 1..]);
        forall x | x in rest && HasKey(f.printer, fields, data, x, key) ensures x in others {
          assert x in found && x != id;
        }
        MarkedAppend(found[..i], [id] + found[i + 1..], 1);
        MarkedAppend(found[..i], found[i + 1..], 1);
        Covering(f, fields, data, key, rest, others);
      } else {
        Covering(f, fields, data, key, rest, found);
      }
    }
  }

  /** Counting once or twice comes to the same only where there are no quotes and backslashes. */
  lemma {:induction false} MarkedOnce(ids: seq<string>)
    ensures Marked(ids, 1) <= Marked(ids, 2) && (Marked(ids, 2) <= Marked(ids, 1) ==> PlainIds(ids))
  {
    hide JL.Marks, JL.Plain;
    if ids != [] {
      JL.NoMarks(ids[0]);
      MarkedOnce(ids[1..]);
      assert ids == [ids[0]] + ids[1..];
    }
  }

  lemma {:induction false} LeadingMarked(items: seq<J.Json>)
    ensures Marked(LeadingIds(items), 2) <= JL.InsideItems(items, 2)
  {
    hide JL.Marks;
    if items != [] {
      LeadingMarked(items[1..]);
    }
  }

  lemma {:induction false} FoundStrings(items: seq<J.Json>, id: string)
    requires SearchFor(items, id) == Missing
    ensures AllStrings(items)
  {
    if items != [] {
      FoundStrings(items[1..], id);
    }
  }

  /** The text of a list and one more id has the quotes and backslashes of both. */
  lemma TextMarks(f: Format, items: seq<J.Json>, id: string)
    requires AllStrings(items)
    ensures JL.Marks(J.Show(f.doubles, J.Array(items + [J.Str(id)]))) == JL.InsideItems(items, 1) + 2 + JL.Marks(id)
  {
    hide JL.InsideItems, J.ShowItems, JL.Marks;
    var more := items + [J.Str(id)];
    assert JL.Regular(f.doubles, J.Array(more)) by {
      forall i | 0 <= i < |more| ensures JL.Regular(f.doubles, more[i]) {
        assert i < |items| ==> items[i] in items;
      }
    }
    JL.ShownMarks(f.doubles, J.Array(more));
    JL.InsideAppend(items, [J.Str(id)], 1);
    JL.OneInside(J.Str(id), 1);
  }

  lemma ListMarks(f: Format, text: string)
    ensures JL.InsideItems(ListIn(f, text), 2) <= JL.Marks(text)
    ensures JL.InsideItems(ListIn(f, text), 1) <= JL.Marks(text)
  {
    hide J.Parse, JL.InsideItems, JL.Marks;
    JL.NothingInside();
    if J.Parse(f.doubles, text).Some? {
      JL.ReadMarks(f.doubles, text);
    }
    JL.OnceOrTwiceItems(ListIn(f, text));
  }

  /** A map or a leaf in which the text at a key has at most so many quotes and backslashes. */
  ghost predicate Short(f: Format, ix: Index, key: string, n: nat) {
    && OfKind(ix.tree, f.inserts) && Ordered(ix.tree)
    && (Find(ix.tree, key).Some? ==> JL.Marks(Find(ix.tree, key).value) <= n)
  }

  lemma InsertFinds(f: Format, tree: Tree, key: string, text: string, k: string)
    requires OfKind(tree, f.inserts) && Ordered(tree) && Flat(Insert(tree, key, text))
    ensures OfKind(Insert(tree, key, text), f.inserts) && Ordered(Insert(tree, key, text))
    ensures Find(Insert(tree, key, text), k) == if k == key then Some(text) else Find(tree, k)
  {
    hide Insert, Find, Kept;
    InsertPushes(f.inserts, tree, key, text);
    FindTop(tree, k);
    FindTop(Insert(tree, key, text), k);
  }

  lemma UpdateShort(f: Format, ix: Index, id: string, doc: Document, key: string, n: nat)
    requires Short(f, ix, key, n) && key != ""
    requires Update(f, ix, id, doc).Some? && Flat(Update(f, ix, id, doc).value.tree)
    ensures Short(f, Update(f, ix, id, doc).value, key, n + if CompositeKey(f.printer, ix.fields, doc) == key then 2 + JL.Marks(id) else 0)
  {
    hide CompositeKey, SearchFor, J.Show, ListIn, JL.InsideItems, JL.Marks, Insert, Find, Ordered;
    var key' := CompositeKey(f.printer, ix.fields, doc);
    if key' != "" {
      var items := ItemsAt(f, ix.tree, key');
      if SearchFor(items, id) == Missing {
        FoundStrings(items, id);
        TextMarks(f, items, id);
        InsertFinds(f, ix.tree, key', J.Show(f.doubles, J.Array(items + [J.Str(id)])), key);
        if Find(ix.tree, key').Some? {
          ListMarks(f, Find(ix.tree, key').value);
        } else {
          assert JL.InsideItems([], 1) == 0 by { NothingOnce(); }
        }
      }
    }
  }

  lemma NothingOnce()
    ensures JL.InsideItems([], 1) == 0
  {
  }

  lemma {:induction false} LoadShort(f: Format, data: Docs, ix: Index, ids: seq<string>, key: string, n: nat)
    requires Short(f, ix, key, n) && key != "" && Flat(Loaded(f, data, ix, ids).tree)
    ensures Short(f, Loaded(f, data, ix, ids), key, n + KeyedMarks(f, ix.fields, data, key, ids))
    decreases ids
  {
    hide Update, Short, CompositeKey, Flat, JL.Marks;
    if ids != [] {
      if IsLive(data, ids[0]) {
        var doc := data[ids[0]].value;
        var next := Update(f, ix, ids[0], doc);
        if next.Some? {
          LoadedFlat(f, data, next.value, ids[1..]);
          UpdateShort(f, ix, ids[0], doc, key, n);
          assert next.value.fields == ix.fields by { UpdateFields(f, ix, ids[0], doc); }
          LoadShort(f, data, next.value, ids[1..], key, n + if CompositeKey(f.printer, ix.fields, doc) == key then 2 + JL.Marks(ids[0]) else 0);
        } else {
          ShortMore(f, ix, key, n, n + KeyedMarks(f, ix.fields, data, key, ids));
        }
      } else {
        LoadShort(f, data, ix, ids[1..], key, n);
      }
    }
  }

  lemma UpdateFields(f: Format, ix: Index, id: string, doc: Document)
    ensures Update(f, ix, id, doc).Some? ==> Update(f, ix, id, doc).value.fields == ix.fields
  {
    hide J.Show, CompositeKey, ItemsAt, SearchFor, Insert;
  }

  lemma ShortMore(f: Format, ix: Index, key: string, n: nat, m: nat)
    requires Short(f, ix, key, n) && n <= m
    ensures Short(f, ix, key, m)
  {
    hide Find, Ordered, JL.Marks;
  }

  /** If a live id with a key holds a quote or a backslash, loading does not make a new index exact. */
  lemma LoadRuined(f: Format, data: Docs, name: string, fields: seq<string>, ids: seq<string>, id: string)
    requires NoRepeats(ids) && IsLive(data, id) && !JL.Plain(id)
    requires CompositeKey(f.printer, fields, data[id].value) != ""
    requires Flat(Loaded(f, data, Index(name, fields, Empty(f.inserts)), ids).tree)
    ensures !ExactIndex(f, data, Loaded(f, data, Index(name, fields, Empty(f.inserts)), ids))
  {
    hide Loaded, CompositeKey, JL.Plain, JL.InsideItems, JL.Marks, ListIn, LeadingIds, NoRepeats, Find, Ordered, Marked;
    var new0 := Index(name, fields, Empty(f.inserts));
    var key := CompositeKey(f.printer, fields, data[id].value);
    var r := Loaded(f, data, new0, ids);
    assert Short(f, new0, key, 0) by { NewShort(f, name, fields, key); }
    LoadShort(f, data, new0, ids, key, 0);
    if ExactIndex(f, data, r) {
      assert ExactAt(f, data, r, key);
      var items := ItemsAt(f, r.tree, key);
      var found := LeadingIds(items);
      assert found == Lookup(f, r, key);
      assert HasKey(f.printer, fields, data, id, key);
      assert id in found;
      LeadingAmong(items, id);
      assert items != [];
      var text := Find(r.tree, key).value;
      Covering(f, fields, data, key, ids, found);
      LeadingMarked(items);
      ListMarks(f, text);
      MarkedOnce(found);
    }
  }

  lemma NewShort(f: Format, name: string, fields: seq<string>, key: string)
    ensures Short(f, Index(name, fields, Empty(f.inserts)), key, 0)
  {
  }
}
