/** What a put, a delete and loading do to one exact index, and exactly when they leave it exact. */
module IndexSteps {
  import opened Options
  import opened Documents
  import opened ValueTree
  import opened Stacks
  import opened StackLaws
  import J = Json
  import JL = JsonLaws
  import opened Indexes
  import opened IndexLists

  /** Looking up the key gives, without repeats, the ids of the live documents with it. */
  ghost predicate ExactAt(f: Format, data: Docs, ix: Index, key: string) {
    NoRepeats(Lookup(f, ix, key)) && forall id :: id in Lookup(f, ix, key) <==> HasKey(f.printer, ix.fields, data, id, key)
  }

  /** The empty key, which stands for no key, finds nothing. */
  ghost predicate ExactIndex(f: Format, data: Docs, ix: Index) {
    Lookup(f, ix, "") == [] && forall key :: key != "" ==> ExactAt(f, data, ix, key)
  }

  /** The texts of an exact index with this crowd are those of `lists`. */
  ghost predicate GoodBy(f: Format, data: Docs, ix: Index, crowd: Crowd, lists: Lists) {
    Encodes(f, ix.tree, lists) && Neat(lists) && Exact(f.printer, ix.fields, data, lists) && Heights(f.inserts, lists, crowd)
  }

  ghost predicate Good(f: Format, data: Docs, ix: Index, crowd: Crowd) {
    exists lists: Lists :: GoodBy(f, data, ix, crowd, lists)
  }

  lemma GoodExact(f: Format, data: Docs, ix: Index, crowd: Crowd)
    requires Good(f, data, ix, crowd)
    ensures ExactIndex(f, data, ix)
  {
    hide Lookup, CompositeKey, Encodes, Neat, NoRepeats;
    var lists: Lists :| GoodBy(f, data, ix, crowd, lists);
    LookupIs(f, ix, lists, "");
    NeatAt(lists, "");
    NoKey(lists);
    forall key | key != "" ensures ExactAt(f, data, ix, key) {
      LookupIs(f, ix, lists, key);
      NeatAt(lists, key);
    }
  }

  lemma NewGood(f: Format, data: Docs, name: string, fields: seq<string>)
    requires forall id :: !IsLive(data, id)
    ensures Good(f, data, Index(name, fields, Empty(f.inserts)), iset{})
  {
    hide Kept;
    var lists: Lists := map[];
    EmptyKept(f.inserts);
    assert GoodBy(f, data, Index(name, fields, Empty(f.inserts)), iset{}, lists);
  }

  /** Only live documents matter. */
  lemma GoodSame(f: Format, data: Docs, data': Docs, ix: Index, crowd: Crowd)
    requires Good(f, data, ix, crowd)
    requires forall id :: IsLive(data, id) <==> IsLive(data', id)
    requires forall id :: IsLive(data, id) && IsLive(data', id) ==> data[id] == data'[id]
    ensures Good(f, data', ix, crowd)
  {
    hide CompositeKey, Encodes, Neat, Heights;
    var lists: Lists :| GoodBy(f, data, ix, crowd, lists);
    assert forall k, id :: HasKey(f.printer, ix.fields, data, id, k) <==> HasKey(f.printer, ix.fields, data', id, k);
    assert GoodBy(f, data', ix, crowd, lists);
  }

  // ---------- adding ----------

  /** What is left of the index if updating it throws. */
  function Updated(f: Format, ix: Index, id: string, doc: Document): Index {
    match Update(f, ix, id, doc) { case None => ix case Some(next) => next }
  }

  lemma UpdateGood(f: Format, data: Docs, ix: Index, crowd: Crowd, id: string, doc: Document)
    requires Good(f, data, ix, crowd) && !IsLive(data, id)
    requires CompositeKey(f.printer, ix.fields, doc) == "" || JL.Plain(id)
    ensures var r := Update(f, ix, id, doc);
            && r.Some? && r.value.name == ix.name && r.value.fields == ix.fields
            && (Flat(r.value.tree) ==> Good(f, data[id := Some(doc)], r.value, NextCrowd(f, ix.fields, crowd, data[id := Some(doc)])))
  {
    hide Encodes, Exact, Neat, Heights, Update, JL.Plain, AddId, CompositeKey, NextCrowd;
    var lists: Lists :| GoodBy(f, data, ix, crowd, lists);
    var key := CompositeKey(f.printer, ix.fields, doc);
    var lists' := AddId(f.inserts, lists, key, id);
    AddExact(f, ix.fields, data, lists, id, doc);
    AddHeights(f, ix.fields, data, lists, crowd, id, doc);
    if key == "" {
      UpdateIdle(f, ix, lists, id, doc);
      assert lists' == lists by { AddNothing(f.inserts, lists, id); }
    } else {
      UpdateEncodes(f, ix, lists, id, doc);
    }
    var next := Update(f, ix, id, doc).value;
    assert Flat(next.tree) ==> GoodBy(f, data[id := Some(doc)], next, NextCrowd(f, ix.fields, crowd, data[id := Some(doc)]), lists');
  }

  lemma AddNothing(inserts: Inserts, lists: Lists, id: string)
    ensures AddId(inserts, lists, "", id) == lists
  {
  }

  /** An id with a quote or a backslash is not found under its key. */
  lemma UpdateRuins(f: Format, data: Docs, ix: Index, crowd: Crowd, id: string, doc: Document)
    requires Good(f, data, ix, crowd) && !IsLive(data, id)
    requires CompositeKey(f.printer, ix.fields, doc) != "" && !JL.Plain(id)
    ensures var r := Update(f, ix, id, doc);
            && r.Some? && r.value.name == ix.name && r.value.fields == ix.fields
            && (Flat(r.value.tree) ==> !ExactIndex(f, data[id := Some(doc)], r.value))
  {
    hide Encodes, Exact, Neat, Heights, Update, JL.Plain, CompositeKey, ItemsAt, LeadingIds, NoRepeats;
    var lists: Lists :| GoodBy(f, data, ix, crowd, lists);
    var key := CompositeKey(f.printer, ix.fields, doc);
    AddExact(f, ix.fields, data, lists, id, doc);
    PlainNeeded(f, ix, lists, id, doc);
    var ix' := Update(f, ix, id, doc).value;
    LeadingAmong(ItemsAt(f, ix'.tree, key), id);
    assert HasKey(f.printer, ix'.fields, data[id := Some(doc)], id, key);
    assert Flat(ix'.tree) ==> !ExactAt(f, data[id := Some(doc)], ix', key);
  }

  lemma {:induction false} LeadingAmong(items: seq<J.Json>, id: string)
    ensures id in LeadingIds(items) ==> J.Str(id) in items
  {
    if items != [] {
      LeadingAmong(items[1..], id);
    }
  }

  /** A document that is indexed already is skipped. */
  lemma UpdateAgain(f: Format, data: Docs, ix: Index, crowd: Crowd, id: string)
    requires Good(f, data, ix, crowd) && IsLive(data, id)
    ensures Update(f, ix, id, data[id].value) == Some(ix)
  {
    hide Encodes, Neat, Heights, Update, CompositeKey, At;
    var lists: Lists :| GoodBy(f, data, ix, crowd, lists);
    var key := CompositeKey(f.printer, ix.fields, data[id].value);
    assert HasKey(f.printer, ix.fields, data, id, key);
    UpdateIdle(f, ix, lists, id, data[id].value);
  }

  // ---------- removing ----------

  /** The condition on lists behind `TakesLast`. */
  lemma TakesLastIs(f: Format, data: Docs, ix: Index, crowd: Crowd, lists: Lists, id: string)
    requires GoodBy(f, data, ix, crowd, lists) && IsLive(data, id)
    ensures var key := CompositeKey(f.printer, ix.fields, data[id].value);
            TakesLast(f, ix.fields, crowd, data, id) <==> Height(lists, key) > 1 && At(lists, key) == [id]
  {
    hide CompositeKey, Encodes, Neat, At, Height;
    var key := CompositeKey(f.printer, ix.fields, data[id].value);
    NeatAt(lists, key);
    assert key in crowd <==> Height(lists, key) > 1;
    assert HasKey(f.printer, ix.fields, data, id, key);
    if key in crowd {
      assert key != "" by { NoKey(lists); }
      var ids := At(lists, key);
      assert id in ids;
      forall x ensures x in ids <==> HasKey(f.printer, ix.fields, data, x, key) {
      }
      if forall x :: HasKey(f.printer, ix.fields, data, x, key) ==> x == id {
        OneMember(ids, id);
      }
    }
  }

  lemma OneMember(ids: seq<string>, id: string)
    requires NoRepeats(ids) && id in ids && forall x <- ids :: x == id
    ensures ids == [id]
  {
    hide Drop;
    DropIs(ids, id);
    if Drop(ids, id) != [] {
      assert Drop(ids, id)[0] in Drop(ids, id);
    }
    OnlyOne(ids, id);
  }

  lemma RemoveGood(f: Format, data: Docs, ix: Index, crowd: Crowd, id: string)
    requires Good(f, data, ix, crowd) && IsLive(data, id) && !TakesLast(f, ix.fields, crowd, data, id)
    ensures var r := Remove(f, ix, id, data[id].value);
            && r.name == ix.name && r.fields == ix.fields
            && (Flat(r.tree) ==> Good(f, data[id := None], r, NextCrowd(f, ix.fields, crowd, data[id := None])))
  {
    hide Encodes, Exact, Neat, Heights, Remove, TakesLast, CompositeKey, DropId, NextCrowd, At, Height;
    var lists: Lists :| GoodBy(f, data, ix, crowd, lists);
    TakesLastIs(f, data, ix, crowd, lists, id);
    RemoveEncodes(f, ix, lists, id, data[id].value);
    DropExact(f, ix.fields, data, lists, id);
    DropHeights(f, ix.fields, data, lists, crowd, id);
    var r := Remove(f, ix, id, data[id].value);
    assert Flat(r.tree) ==> GoodBy(f, data[id := None], r, NextCrowd(f, ix.fields, crowd, data[id := None]),
                                   DropId(f.inserts, lists, CompositeKey(f.printer, ix.fields, data[id].value), id));
  }

  /**
   Removing the last document of a crowded key uncovers an older list with the id of another document, and
   putting the document back, under this key or another, does not cover that list with an exact one.
   */
  lemma RemoveUncovers(f: Format, data: Docs, ix: Index, crowd: Crowd, id: string)
    requires Good(f, data, ix, crowd) && IsLive(data, id) && TakesLast(f, ix.fields, crowd, data, id)
    ensures JL.Plain(id)
    ensures var r := Remove(f, ix, id, data[id].value);
            && r.name == ix.name && r.fields == ix.fields && Flat(r.tree)
            && !ExactIndex(f, data[id := None], r)
            && forall doc ::
                 var next := Update(f, r, id, doc);
                 && next.Some? && next.value.name == ix.name && next.value.fields == ix.fields
                 && (Flat(next.value.tree) ==> !ExactIndex(f, data[id := Some(doc)], next.value))
  {
    hide Encodes, Exact, Neat, Heights, Remove, Update, CompositeKey, At, Height, JL.Plain, ExactIndex, HasKey;
    var lists: Lists :| GoodBy(f, data, ix, crowd, lists);
    var key := CompositeKey(f.printer, ix.fields, data[id].value);
    TakesLastIs(f, data, ix, crowd, lists, id);
    var other := PopUncovers(lists, key, id);
    var lists' := DropId(f.inserts, lists, key, id);
    assert key != "" by { NoKey(lists); }
    assert Drop([id], id) == [] by { DropOnly(id); }
    assert lists' == Pop(lists, key);
    RemovePops(f, ix, lists, id, data[id].value);
    RemoveEncodes(f, ix, lists, id, data[id].value);
    ItemsAre(f, ix.tree, lists, key);
    assert id in [id];
    assert PlainIds([id]) && JL.Plain(id);
    var r := Remove(f, ix, id, data[id].value);
    StaysInexact(f, data, data[id := None], r, lists', key, id, other);
    forall doc
      ensures var next := Update(f, r, id, doc);
              && next.Some? && next.value.name == ix.name && next.value.fields == ix.fields
              && (Flat(next.value.tree) ==> !ExactIndex(f, data[id := Some(doc)], next.value))
    {
      UpdateEncodes(f, r, lists', id, doc);
      var key', next := CompositeKey(f.printer, r.fields, doc), Update(f, r, id, doc).value;
      AddKeeps(f.inserts, lists', key', id, key, other);
      if Flat(next.tree) {
        StaysInexact(f, data, data[id := Some(doc)], next, AddId(f.inserts, lists', key', id), key, id, other);
      }
    }
  }

  /** Removing the only id of the newest list erases its copy of the key. */
  lemma RemovePops(f: Format, ix: Index, lists: Lists, id: string, doc: Document)
    requires Encodes(f, ix.tree, lists)
    requires At(lists, CompositeKey(f.printer, ix.fields, doc)) == [id]
    ensures Flat(Remove(f, ix, id, doc).tree)
  {
    hide J.Show, JL.Plain, JL.Strings, CompositeKey, ItemsAt, ReadableAt, Without, AllStrings, EncodesStacks, Insert, Erase, Kept;
    var key := CompositeKey(f.printer, ix.fields, doc);
    ItemsAre(f, ix.tree, lists, key);
    FindStrings([id], id);
    DropOnly(id);
    NoStrings();
    EraseBelongs(f.inserts, ix.tree, key);
  }

  lemma DropOnly(id: string)
    ensures Drop([id], id) == []
  {
    assert [id][1..] == [];
  }

  lemma AddKeeps(inserts: Inserts, lists: Lists, key: string, id: string, k: string, other: string)
    requires other in At(lists, k)
    ensures other in At(AddId(inserts, lists, key, id), k)
  {
  }

  /** A list with an id that does not have the key is not exact. */
  lemma StaysInexact(f: Format, data: Docs, data': Docs, ix: Index, lists: Lists, key: string, id: string, other: string)
    requires Encodes(f, ix.tree, lists) && key != "" && other in At(lists, key) && other != id
    requires forall x :: x != id ==> (x in data <==> x in data') && (x in data ==> data[x] == data'[x])
    requires forall x :: HasKey(f.printer, ix.fields, data, x, key) ==> x == id
    ensures !ExactIndex(f, data', ix)
  {
    hide Encodes, CompositeKey, Lookup, NoRepeats, At;
    LookupIs(f, ix, lists, key);
    assert !HasKey(f.printer, ix.fields, data, other, key);
    assert !HasKey(f.printer, ix.fields, data', other, key);
    assert !ExactAt(f, data', ix, key);
  }

  // ---------- one step ----------

  function Without1(data: Docs, id: string): Docs { if IsLive(data, id) then data[id := None] else data }

  function Removed(f: Format, ix: Index, data: Docs, id: string): Index {
    if IsLive(data, id) then Remove(f, ix, id, data[id].value) else ix
  }

  /** The crowd after the old document has gone and the new one has come. */
  ghost function PutCrowd(f: Format, fields: seq<string>, crowd: Crowd, data: Docs, id: string, doc: Document): Crowd {
    NextCrowd(f, fields, DelCrowd(f, fields, crowd, data, id), data[id := Some(doc)])
  }

  ghost function DelCrowd(f: Format, fields: seq<string>, crowd: Crowd, data: Docs, id: string): Crowd {
    if IsLive(data, id) then NextCrowd(f, fields, crowd, data[id := None]) else crowd
  }

  ghost predicate FineDel(f: Format, fields: seq<string>, crowd: Crowd, data: Docs, id: string) {
    IsLive(data, id) ==> !TakesLast(f, fields, crowd, data, id)
  }

  ghost predicate FinePut(f: Format, fields: seq<string>, crowd: Crowd, data: Docs, id: string, doc: Document) {
    FineDel(f, fields, crowd, data, id) && (CompositeKey(f.printer, fields, doc) == "" || JL.Plain(id))
  }

  /** A tree that is a map or one leaf after an update or a removal was one before. */
  lemma UpdateFlat(f: Format, ix: Index, id: string, doc: Document)
    ensures Update(f, ix, id, doc).Some? && Flat(Update(f, ix, id, doc).value.tree) ==> Flat(ix.tree)
  {
    hide J.Show, CompositeKey, ItemsAt, SearchFor, InsertNonFull, Added, SplitChild;
  }

  lemma DelOne(f: Format, data: Docs, ix: Index, crowd: Crowd, id: string)
    requires Good(f, data, ix, crowd) && IsLive(data, id)
    ensures var r := Removed(f, ix, data, id);
            && r.name == ix.name && r.fields == ix.fields
            && (Flat(r.tree) ==>
                 if FineDel(f, ix.fields, crowd, data, id) then Good(f, data[id := None], r, DelCrowd(f, ix.fields, crowd, data, id))
                 else !ExactIndex(f, data[id := None], r))
  {
    hide Good, TakesLast, Remove, NextCrowd, ExactIndex;
    if FineDel(f, ix.fields, crowd, data, id) {
      RemoveGood(f, data, ix, crowd, id);
    } else {
      RemoveUncovers(f, data, ix, crowd, id);
    }
  }

  lemma PutOne(f: Format, data: Docs, ix: Index, crowd: Crowd, id: string, doc: Document)
    requires Good(f, data, ix, crowd) && Flat(Removed(f, ix, data, id).tree)
    ensures var r := Update(f, Removed(f, ix, data, id), id, doc);
            && r.Some? && r.value.name == ix.name && r.value.fields == ix.fields
            && (Flat(r.value.tree) ==>
                 if FinePut(f, ix.fields, crowd, data, id, doc)
                 then Good(f, data[id := Some(doc)], r.value, PutCrowd(f, ix.fields, crowd, data, id, doc))
                 else !ExactIndex(f, data[id := Some(doc)], r.value))
  {
    hide Good, TakesLast, Remove, Update, NextCrowd, ExactIndex, CompositeKey, JL.Plain;
    var mid, data' := Without1(data, id), data[id := Some(doc)];
    assert mid[id := Some(doc)] == data';
    var ix' := Removed(f, ix, data, id);
    var crowd' := DelCrowd(f, ix.fields, crowd, data, id);
    if FineDel(f, ix.fields, crowd, data, id) {
      if IsLive(data, id) {
        RemoveGood(f, data, ix, crowd, id);
      }
      assert Good(f, mid, ix', crowd') && ix'.fields == ix.fields && !IsLive(mid, id);
      if CompositeKey(f.printer, ix.fields, doc) == "" || JL.Plain(id) {
        UpdateGood(f, mid, ix', crowd', id, doc);
      } else {
        UpdateRuins(f, mid, ix', crowd', id, doc);
      }
    } else {
      RemoveUncovers(f, data, ix, crowd, id);
      assert Update(f, ix', id, doc).Some?;
    }
  }
}
