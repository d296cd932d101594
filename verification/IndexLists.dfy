/** One index: the lists of ids behind its texts, and when adding or removing an id keeps them exact. */
module IndexLists {
  import opened Options
  import opened Documents
  import opened ValueTree
  import opened Stacks
  import opened StackLaws
  import J = Json
  import JL = JsonLaws
  import opened Indexes

  // ---------- lists of ids ----------

  function Drop(ids: seq<string>, id: string): seq<string> {
    if ids == [] then [] else (if ids[0] == id then [] else [ids[0]]) + Drop(ids[1..], id)
  }

  predicate NoRepeats(ids: seq<string>) { forall i, j :: 0 <= i < j < |ids| ==> ids[i] != ids[j] }

  lemma {:induction false} DropIs(ids: seq<string>, id: string)
    requires NoRepeats(ids)
    ensures NoRepeats(Drop(ids, id)) && forall x :: x in Drop(ids, id) <==> x in ids && x != id
  {
    if ids != [] {
      var rest := ids[1..];
      assert NoRepeats(rest) by { assert forall i | 0 <= i < |rest| :: rest[i] == ids[i + 1]; }
      DropIs(rest, id);
      assert ids == [ids[0]] + rest;
      assert ids[0] !in rest by { assert forall i | 0 <= i < |rest| :: rest[i] == ids[i + 1] && ids[i + 1] != ids[0]; }
    }
  }

  /** For every key a stack of lists, the newest first. */
  type Lists = Stacks<seq<string>>

  function At(lists: Lists, key: string): seq<string> { if key in lists && lists[key] != [] then lists[key][0] else [] }

  function Height(lists: Lists, key: string): nat { if key in lists then |lists[key]| else 0 }

  function AddId(inserts: Inserts, lists: Lists, key: string, id: string): Lists {
    if key == "" || id in At(lists, key) then lists else Push(inserts, lists, key, At(lists, key) + [id])
  }

  function DropId(inserts: Inserts, lists: Lists, key: string, id: string): Lists {
    if key == "" || id !in At(lists, key) then lists
    else if Drop(At(lists, key), id) == [] then Pop(lists, key)
    else Push(inserts, lists, key, Drop(At(lists, key), id))
  }

  // ---------- lists as texts ----------

  predicate PlainIds(ids: seq<string>) { forall id <- ids :: JL.Plain(id) }

  function ListText(f: Format, ids: seq<string>): string { J.Show(f.doubles, J.Array(JL.Strings(ids))) }

  predicate EncodesStack(f: Format, texts: seq<string>, stack: seq<seq<string>>) {
    |texts| == |stack| && forall i | 0 <= i < |stack| :: PlainIds(stack[i]) && texts[i] == ListText(f, stack[i])
  }

  predicate EncodesStacks(f: Format, texts: Stacks<string>, lists: Lists) {
    texts.Keys == lists.Keys && forall k <- lists :: EncodesStack(f, texts[k], lists[k])
  }

  /** The tree is a map or one leaf, and holds the texts of these lists. */
  ghost predicate Encodes(f: Format, tree: Tree, lists: Lists) {
    Flat(tree) && OfKind(tree, f.inserts) && Ordered(tree) && EncodesStacks(f, Kept(tree), lists)
  }

  lemma ListBack(f: Format, ids: seq<string>)
    requires PlainIds(ids)
    ensures Readable(f, ListText(f, ids)) && ListIn(f, ListText(f, ids)) == JL.Strings(ids)
  {
    hide J.Parse, J.Show, JL.Strings, JL.Plain;
    JL.StringsRoundTrip(f.doubles, ids);
  }

  lemma {:induction false} FindStrings(ids: seq<string>, id: string)
    ensures SearchFor(JL.Strings(ids), id) == (if id in ids then Present else Missing)
    ensures AllStrings(JL.Strings(ids)) && LeadingIds(JL.Strings(ids)) == ids
    ensures J.Str(id) in JL.Strings(ids) <==> id in ids
    ensures Without(JL.Strings(ids), id) == JL.Strings(Drop(ids, id))
  {
    if ids != [] {
      var items := JL.Strings(ids);
      FindStrings(ids[1..], id);
      assert items[0] == J.Str(ids[0]) && items[1..] == JL.Strings(ids[1..]);
      assert ids == [ids[0]] + ids[1..] && items == [items[0]] + items[1..];
      JL.StringsAppend([ids[0]], Drop(ids[1..], id));
      JL.OneString(ids[0]);
      assert [] + Drop(ids[1..], id) == Drop(ids[1..], id) && [] + JL.Strings(Drop(ids[1..], id)) == JL.Strings(Drop(ids[1..], id));
    }
  }

  lemma DropPlain(ids: seq<string>, id: string)
    requires PlainIds(ids)
    ensures PlainIds(Drop(ids, id))
  {
    hide JL.Plain;
    if ids != [] {
      DropPlain(ids[1..], id);
    }
  }

  lemma NoStrings()
    ensures JL.Strings([]) == []
  {
  }

  /** The items that are read at a key are those of its list. */
  lemma ItemsAre(f: Format, tree: Tree, lists: Lists, key: string)
    requires Encodes(f, tree, lists)
    ensures PlainIds(At(lists, key)) && ItemsAt(f, tree, key) == JL.Strings(At(lists, key))
    ensures At(lists, key) != [] ==> ReadableAt(f, tree, key)
  {
    hide J.Show, JL.Plain, JL.Strings, ListIn, Readable, ListText, Kept, Find;
    NoStrings();
    FindTop(tree, key);
    if key in lists && lists[key] != [] {
      assert EncodesStack(f, Kept(tree)[key], lists[key]);
      ListBack(f, lists[key][0]);
    }
  }

  lemma PushEncodes(f: Format, tree: Tree, lists: Lists, key: string, ids: seq<string>)
    requires Encodes(f, tree, lists) && PlainIds(ids) && Flat(Insert(tree, key, ListText(f, ids)))
    ensures Encodes(f, Insert(tree, key, ListText(f, ids)), Push(f.inserts, lists, key, ids))
  {
    hide ListText, JL.Plain, Kept, Insert;
    InsertPushes(f.inserts, tree, key, ListText(f, ids));
  }

  lemma PopEncodes(f: Format, tree: Tree, lists: Lists, key: string)
    requires Encodes(f, tree, lists)
    ensures Encodes(f, Erase(tree, key), Pop(lists, key))
  {
    hide ListText, JL.Plain, Kept, Erase;
    EraseBelongs(f.inserts, tree, key);
  }

  /** Updating an index whose texts are lists of plain ids does not throw, and adds the id to its list if there is room. */
  lemma UpdateEncodes(f: Format, ix: Index, lists: Lists, id: string, doc: Document)
    requires Encodes(f, ix.tree, lists) && JL.Plain(id)
    ensures var key := CompositeKey(f.printer, ix.fields, doc);
            var r := Update(f, ix, id, doc);
            r.Some? && r.value.name == ix.name && r.value.fields == ix.fields
            && (Flat(r.value.tree) ==> Encodes(f, r.value.tree, AddId(f.inserts, lists, key, id)))
  {
    hide J.Show, JL.Plain, JL.Strings, CompositeKey, ItemsAt, SearchFor, Encodes, Push, Insert;
    var key := CompositeKey(f.printer, ix.fields, doc);
    var ids := At(lists, key);
    if key != "" {
      ItemsAre(f, ix.tree, lists, key);
      FindStrings(ids, id);
      if id !in ids {
        JL.StringsAppend(ids, [id]);
        JL.OneString(id);
        if Flat(Insert(ix.tree, key, ListText(f, ids + [id]))) {
          PushEncodes(f, ix.tree, lists, key, ids + [id]);
        }
      }
    }
  }

  /** An id that is there already, or has no key, changes nothing. */
  lemma UpdateIdle(f: Format, ix: Index, lists: Lists, id: string, doc: Document)
    requires Encodes(f, ix.tree, lists)
    requires var key := CompositeKey(f.printer, ix.fields, doc); key == "" || id in At(lists, key)
    ensures Update(f, ix, id, doc) == Some(ix)
  {
    hide JL.Strings, CompositeKey, ItemsAt, SearchFor, Encodes;
    var key := CompositeKey(f.printer, ix.fields, doc);
    if key != "" {
      ItemsAre(f, ix.tree, lists, key);
      FindStrings(At(lists, key), id);
    }
  }

  /**
   Putting an id that is not there under a nonempty key: the list that is read afterwards holds it if and only
   if it has no quote and no backslash.
   */
  lemma PlainNeeded(f: Format, ix: Index, lists: Lists, id: string, doc: Document)
    requires Encodes(f, ix.tree, lists)
    requires var key := CompositeKey(f.printer, ix.fields, doc); key != "" && id !in At(lists, key)
    ensures var r := Update(f, ix, id, doc);
            && r.Some? && r.value.name == ix.name && r.value.fields == ix.fields
            && (Flat(r.value.tree) ==> (J.Str(id) in ItemsAt(f, r.value.tree, CompositeKey(f.printer, ix.fields, doc)) <==> JL.Plain(id)))
  {
    hide J.Show, J.Parse, JL.Plain, JL.Strings, CompositeKey, SearchFor, EncodesStacks, Insert, Find, Kept;
    var key := CompositeKey(f.printer, ix.fields, doc);
    var ids := At(lists, key);
    ItemsAre(f, ix.tree, lists, key);
    FindStrings(ids, id);
    JL.LastRead(f.doubles, ids, id);
    hide ItemsAt, ListIn;
    assert ItemsAt(f, ix.tree, key) == JL.Strings(ids);
    var text := J.Show(f.doubles, J.Array(JL.Strings(ids) + [J.Str(id)]));
    assert Update(f, ix, id, doc) == Some(ix.(tree := Insert(ix.tree, key, text)));
    if Flat(Insert(ix.tree, key, text)) {
      ReadInserted(f, ix.tree, key, text);
    }
  }

  lemma ReadInserted(f: Format, tree: Tree, key: string, text: string)
    requires OfKind(tree, f.inserts) && Ordered(tree) && Flat(Insert(tree, key, text))
    ensures ItemsAt(f, Insert(tree, key, text), key) == ListIn(f, text)
    ensures forall id :: J.Str(id) in ListIn(f, text) <==>
              var r := J.Parse(f.doubles, text); r.Some? && r.value.Array? && J.Str(id) in r.value.items
  {
    hide J.Parse, Insert, Find, Kept;
    InsertPushes(f.inserts, tree, key, text);
    FindTop(Insert(tree, key, text), key);
  }

  lemma RemoveEncodes(f: Format, ix: Index, lists: Lists, id: string, doc: Document)
    requires Encodes(f, ix.tree, lists)
    ensures var key := CompositeKey(f.printer, ix.fields, doc);
            var r := Remove(f, ix, id, doc);
            r.name == ix.name && r.fields == ix.fields && (Flat(r.tree) ==> Encodes(f, r.tree, DropId(f.inserts, lists, key, id)))
  {
    hide J.Show, JL.Plain, JL.Strings, CompositeKey, ItemsAt, ReadableAt, Without, AllStrings, Encodes, Push, Pop, Insert, Erase;
    var key := CompositeKey(f.printer, ix.fields, doc);
    var ids := At(lists, key);
    ItemsAre(f, ix.tree, lists, key);
    FindStrings(ids, id);
    DropPlain(ids, id);
    NoStrings();
    JL.StringsLength(Drop(ids, id));
    if Flat(Insert(ix.tree, key, ListText(f, Drop(ids, id)))) {
      PushEncodes(f, ix.tree, lists, key, Drop(ids, id));
    }
    PopEncodes(f, ix.tree, lists, key);
  }

  lemma LookupIs(f: Format, ix: Index, lists: Lists, key: string)
    requires Encodes(f, ix.tree, lists)
    ensures Lookup(f, ix, key) == At(lists, key)
  {
    hide JL.Strings, ItemsAt, LeadingIds;
    ItemsAre(f, ix.tree, lists, key);
    FindStrings(At(lists, key), "");
  }

  // ---------- exact lists ----------

  /** A live document's key. */
  predicate HasKey(p: Printer, fields: seq<string>, data: Docs, id: string, key: string) {
    IsLive(data, id) && CompositeKey(p, fields, data[id].value) == key
  }

  ghost predicate Held(p: Printer, fields: seq<string>, data: Docs, key: string) {
    exists id :: HasKey(p, fields, data, id, key)
  }

  /** Two live documents have the key. */
  ghost predicate Shared(p: Printer, fields: seq<string>, data: Docs, key: string) {
    exists a, b :: a != b && HasKey(p, fields, data, a, key) && HasKey(p, fields, data, b, key)
  }

  /** Keys that two live documents have shared since no live document last had them. */
  type Crowd = iset<string>

  /** The crowd once the documents have become `data`; a map whose insert replaces has none. */
  ghost function NextCrowd(f: Format, fields: seq<string>, crowd: Crowd, data: Docs): Crowd {
    iset key: string | f.inserts.Stacking? && key != "" && Held(f.printer, fields, data, key) &&
                       (key in crowd || Shared(f.printer, fields, data, key))
  }

  /** `id` is the last live document with its key, and the key is crowded. */
  ghost predicate TakesLast(f: Format, fields: seq<string>, crowd: Crowd, data: Docs, id: string)
    requires IsLive(data, id)
  {
    var key := CompositeKey(f.printer, fields, data[id].value);
    key in crowd && forall x :: HasKey(f.printer, fields, data, x, key) ==> x == id
  }

  predicate NeatStack(stack: seq<seq<string>>) {
    && stack != []
    && (forall i | 0 <= i < |stack| :: stack[i] != [] && NoRepeats(stack[i]))
    && forall i | 0 < i < |stack| :: stack[i - 1] != stack[i]
  }

  /** No list is empty or repeats an id, and no list is the one below it. */
  predicate Neat(lists: Lists) { "" !in lists && forall k <- lists :: NeatStack(lists[k]) }

  /** At every key the newest list has the live documents with that key. */
  ghost predicate Exact(p: Printer, fields: seq<string>, data: Docs, lists: Lists) {
    forall k, id :: k != "" ==> (id in At(lists, k) <==> HasKey(p, fields, data, id, k))
  }

  /** More than one list stands at exactly the crowded keys. */
  ghost predicate Heights(inserts: Inserts, lists: Lists, crowd: Crowd) {
    && (forall k :: k in crowd <==> Height(lists, k) > 1)
    && (inserts.Stacking? ==> forall k :: |At(lists, k)| > 1 ==> Height(lists, k) > 1)
    && (inserts.Replacing? ==> forall k :: Height(lists, k) <= 1)
  }

  lemma NeatAt(lists: Lists, k: string)
    requires Neat(lists)
    ensures NoRepeats(At(lists, k)) && (At(lists, k) != [] <==> k in lists) && (k in lists <==> Height(lists, k) > 0)
  {
    if k in lists {
      assert NeatStack(lists[k]);
    }
  }

  /** Which keys are crowded, read off the lists. */
  lemma CrowdIs(f: Format, fields: seq<string>, crowd: Crowd, data: Docs, lists: Lists, k: string)
    requires Neat(lists) && Exact(f.printer, fields, data, lists)
    ensures k in NextCrowd(f, fields, crowd, data) <==>
            f.inserts.Stacking? && k != "" && At(lists, k) != [] && (k in crowd || |At(lists, k)| > 1)
  {
    hide CompositeKey, HasKey, At;
    NeatAt(lists, k);
    var ids := At(lists, k);
    if k != "" {
      if ids != [] {
        assert ids[0] in ids;
        assert HasKey(f.printer, fields, data, ids[0], k);
      }
      if |ids| > 1 {
        assert ids[0] in ids && ids[1] in ids && ids[0] != ids[1];
        assert HasKey(f.printer, fields, data, ids[1], k);
      }
      assert Held(f.printer, fields, data, k) ==> ids != [];
      if Shared(f.printer, fields, data, k) {
        var a, b :| a != b && HasKey(f.printer, fields, data, a, k) && HasKey(f.printer, fields, data, b, k);
        assert a in ids && b in ids;
      }
    }
  }

  lemma AddExact(f: Format, fields: seq<string>, data: Docs, lists: Lists, id: string, doc: Document)
    requires Neat(lists) && Exact(f.printer, fields, data, lists) && !IsLive(data, id)
    ensures var key := CompositeKey(f.printer, fields, doc);
            var lists' := AddId(f.inserts, lists, key, id);
            && (key != "" ==> id !in At(lists, key))
            && Neat(lists') && Exact(f.printer, fields, data[id := Some(doc)], lists')
            && forall k :: k != key || key == "" ==> At(lists', k) == At(lists, k) && Height(lists', k) == Height(lists, k)
  {
    hide CompositeKey;
    var key := CompositeKey(f.printer, fields, doc);
    var data', lists' := data[id := Some(doc)], AddId(f.inserts, lists, key, id);
    if key != "" {
      assert !HasKey(f.printer, fields, data, id, key);
      assert id !in At(lists, key);
      NeatAt(lists, key);
      assert NeatStack(lists'[key]) by { PushNeat(f.inserts, lists, key, At(lists, key) + [id]); }
    }
    forall k, x | k != "" ensures x in At(lists', k) <==> HasKey(f.printer, fields, data', x, k) {
      assert x in At(lists, k) <==> HasKey(f.printer, fields, data, x, k);
      if k == key {
        assert At(lists', k) == At(lists, k) + [id];
      }
    }
  }

  lemma PushNeat(inserts: Inserts, lists: Lists, key: string, ids: seq<string>)
    requires Neat(lists) && ids != [] && NoRepeats(ids) && ids != At(lists, key)
    ensures NeatStack(Push(inserts, lists, key, ids)[key])
  {
    var stack := Push(inserts, lists, key, ids)[key];
    if key in lists && inserts.Stacking? {
      assert NeatStack(lists[key]);
      assert forall i | 0 < i < |stack| :: stack[i] == lists[key][i - 1];
    }
  }

  lemma AddHeights(f: Format, fields: seq<string>, data: Docs, lists: Lists, crowd: Crowd, id: string, doc: Document)
    requires Neat(lists) && Exact(f.printer, fields, data, lists) && Heights(f.inserts, lists, crowd) && !IsLive(data, id)
    ensures Heights(f.inserts, AddId(f.inserts, lists, CompositeKey(f.printer, fields, doc), id),
                    NextCrowd(f, fields, crowd, data[id := Some(doc)]))
  {
    hide CompositeKey, Neat, Exact, NextCrowd, NoRepeats;
    AddExact(f, fields, data, lists, id, doc);
    var key := CompositeKey(f.printer, fields, doc);
    var data' := data[id := Some(doc)];
    var lists', crowd' := AddId(f.inserts, lists, key, id), NextCrowd(f, fields, crowd, data');
    forall k
      ensures k in crowd' <==> Height(lists', k) > 1
      ensures f.inserts.Stacking? && |At(lists', k)| > 1 ==> Height(lists', k) > 1
      ensures f.inserts.Replacing? ==> Height(lists', k) <= 1
    {
      NeatAt(lists, k);
      CrowdIs(f, fields, crowd, data', lists', k);
      NoKey(lists);
    }
  }

  lemma NoKey(lists: Lists)
    requires Neat(lists)
    ensures Height(lists, "") == 0
  {
  }

  lemma DropExact(f: Format, fields: seq<string>, data: Docs, lists: Lists, id: string)
    requires Neat(lists) && Exact(f.printer, fields, data, lists) && IsLive(data, id)
    requires var key := CompositeKey(f.printer, fields, data[id].value); Height(lists, key) > 1 ==> At(lists, key) != [id]
    ensures var key := CompositeKey(f.printer, fields, data[id].value);
            var lists' := DropId(f.inserts, lists, key, id);
            && (key != "" ==> id in At(lists, key) && At(lists', key) == Drop(At(lists, key), id))
            && Neat(lists') && Exact(f.printer, fields, data[id := None], lists')
            && forall k :: k != key || key == "" ==> At(lists', k) == At(lists, k) && Height(lists', k) == Height(lists, k)
  {
    hide CompositeKey, Drop;
    var key := CompositeKey(f.printer, fields, data[id].value);
    var data', lists' := data[id := None], DropId(f.inserts, lists, key, id);
    if key != "" {
      assert HasKey(f.printer, fields, data, id, key);
      assert id in At(lists, key);
      NeatAt(lists, key);
      var kept := Drop(At(lists, key), id);
      DropIs(At(lists, key), id);
      if kept == [] {
        OnlyOne(At(lists, key), id);
        assert lists' == lists - {key};
      } else {
        PushNeat(f.inserts, lists, key, kept);
      }
      assert At(lists', key) == kept;
    }
    forall k, x | k != "" ensures x in At(lists', k) <==> HasKey(f.printer, fields, data', x, k) {
      assert x in At(lists, k) <==> HasKey(f.printer, fields, data, x, k);
    }
  }

  lemma OnlyOne(ids: seq<string>, id: string)
    requires NoRepeats(ids) && id in ids && Drop(ids, id) == []
    ensures ids == [id]
  {
    DropIs(ids, id);
    assert forall i | 0 <= i < |ids| :: ids[i] in ids && ids[i] == id;
  }

  lemma DropHeights(f: Format, fields: seq<string>, data: Docs, lists: Lists, crowd: Crowd, id: string)
    requires Neat(lists) && Exact(f.printer, fields, data, lists) && Heights(f.inserts, lists, crowd) && IsLive(data, id)
    requires var key := CompositeKey(f.printer, fields, data[id].value); Height(lists, key) > 1 ==> At(lists, key) != [id]
    ensures Heights(f.inserts, DropId(f.inserts, lists, CompositeKey(f.printer, fields, data[id].value), id),
                    NextCrowd(f, fields, crowd, data[id := None]))
  {
    hide CompositeKey, Neat, Exact, NextCrowd, NoRepeats, Drop;
    DropExact(f, fields, data, lists, id);
    var key := CompositeKey(f.printer, fields, data[id].value);
    var data' := data[id := None];
    var lists', crowd' := DropId(f.inserts, lists, key, id), NextCrowd(f, fields, crowd, data');
    forall k
      ensures k in crowd' <==> Height(lists', k) > 1
      ensures f.inserts.Stacking? && |At(lists', k)| > 1 ==> Height(lists', k) > 1
      ensures f.inserts.Replacing? ==> Height(lists', k) <= 1
    {
      NeatAt(lists, k);
      NeatAt(lists', k);
      CrowdIs(f, fields, crowd, data', lists', k);
      NoKey(lists);
      if k == key && k != "" {
        NeatAt(lists, key);
        SomeKept(At(lists, key), id);
      }
    }
  }

  lemma SomeKept(ids: seq<string>, id: string)
    requires NoRepeats(ids) && id in ids
    ensures Drop(ids, id) == [] <==> ids == [id]
    ensures |ids| > 1 <==> ids != [id]
  {
    DropIs(ids, id);
    if Drop(ids, id) == [] {
      OnlyOne(ids, id);
    }
    if ids == [id] && Drop(ids, id) != [] {
      assert Drop(ids, id)[0] in Drop(ids, id);
    }
  }

  /** Popping a list of one id uncovers another id. */
  lemma PopUncovers(lists: Lists, key: string, id: string) returns (other: string)
    requires Neat(lists) && Height(lists, key) > 1 && At(lists, key) == [id]
    ensures other != id && other in At(Pop(lists, key), key)
  {
    var stack := lists[key];
    assert NeatStack(stack);
    var below := stack[1];
    assert stack[0] != stack[1];
    assert At(Pop(lists, key), key) == below;
    if below[0] == id {
      assert |below| > 1;
      other := below[1];
    } else {
      other := below[0];
    }
  }
}
