/** Four calls after which a lookup gives the ids of two deleted documents, and twenty after which it gives ten ids. */
module IndexGaps {
  import opened Options
  import opened Documents
  import opened TextOrder
  import opened ValueTree
  import opened Stacks
  import J = Json
  import JL = JsonLaws
  import opened Indexes
  import opened IndexLists
  import opened IndexSteps
  import opened IndexLaws
  import opened IndexRoom

  // ---------- deleted documents ----------

  const A := "a"
  const B := "b"

  /** The lists at the key after putting "a", putting "b", deleting "b" and deleting "a". */
  lemma ListsAfter(key: string)
    requires key != ""
    ensures var one := AddId(Stacking, map[], key, A);
            var two := AddId(Stacking, one, key, B);
            var three := DropId(Stacking, two, key, B);
            var four := DropId(Stacking, three, key, A);
            two == map[key := [[A, B], [A]]] && three == map[key := [[A], [A, B], [A]]] && four == map[key := [[A, B], [A]]]
  {
    hide Push, Drop;
    var none: Lists := map[];
    DropTwo();
    assert [] + [A] == [A] && [A] + [B] == [A, B];
    assert [[A]] + [] == [[A]] && [[A, B]] + [[A]] == [[A, B], [A]] && [[A]] + [[A, B], [A]] == [[A], [A, B], [A]];
    PushOn(none, key, [A]);
    PushOn(map[key := [[A]]], key, [A, B]);
    PushOn(map[key := [[A, B], [A]]], key, [A]);
    assert AddId(Stacking, none, key, A) == map[key := [[A]]];
    assert [[A], [A, B], [A]][1..] == [[A, B], [A]];
  }

  lemma DropTwo()
    ensures Drop([A, B], B) == [A] && Drop([A], A) == []
  {
    assert [A, B][1..] == [B] && [B][1..] == [] && [A][1..] == [];
    assert Drop([], B) == [] && Drop([B], B) == [] + [] && Drop([A, B], B) == [A] + [];
  }

  lemma PushOn(lists: Lists, key: string, ids: seq<string>)
    requires lists.Keys <= {key}
    ensures Push(Stacking, lists, key, ids) == map[key := [ids] + if key in lists then lists[key] else []]
  {
  }

  /** The collection has these documents and one index, over the field, of at most `n` lists. */
  ghost predicate Holds(f: Format, s: State, data: Docs, field: string, lists: Lists, n: nat) {
    && s.data == data && |s.indexes| == 1 && s.indexes[0].fields == [field] && s.indexes[0].name == IndexName([field])
    && Encodes(f, s.indexes[0].tree, lists) && AllWithin(s.indexes, n)
  }

  lemma PutHolds(f: Format, s: State, data: Docs, field: string, lists: Lists, n: nat, id: string, doc: Document, key: string)
    requires f.inserts.Stacking? && Holds(f, s, data, field, lists, n) && n < ROOM
    requires !IsLive(data, id) && JL.Plain(id) && key == CompositeKey(f.printer, [field], doc)
    ensures Holds(f, Step(f, s, Put(id, doc)), data[id := Some(doc)], field, AddId(f.inserts, lists, key, id), n + 1)
  {
    var ix := s.indexes[0];
    StepWithin(f, s, Put(id, doc), n);
    hide Encodes, Update, CompositeKey, AddId, JL.Plain, Flat, Within;
    assert s.indexes == [ix] && [ix][1..] == [];
    assert UpdateAll(f, [], id, doc) == ([], true);
    UpdateEncodes(f, ix, lists, id, doc);
    var t := Step(f, s, Put(id, doc));
    assert t.indexes == [Update(f, ix, id, doc).value] + [];
    WithinFlat(t, n + 1);
    assert t.indexes[0] in t.indexes;
  }

  lemma DelHolds(f: Format, s: State, data: Docs, field: string, lists: Lists, n: nat, id: string, key: string)
    requires f.inserts.Stacking? && Holds(f, s, data, field, lists, n) && n < ROOM
    requires IsLive(data, id) && key == CompositeKey(f.printer, [field], data[id].value)
    ensures Holds(f, Step(f, s, Del(id)), data[id := None], field, DropId(f.inserts, lists, key, id), n + 1)
  {
    var ix := s.indexes[0];
    StepWithin(f, s, Del(id), n);
    hide Encodes, Remove, CompositeKey, DropId, Flat, Within;
    assert s.indexes == [ix] && [ix][1..] == [];
    assert RemoveAll(f, [], id, data[id].value) == [];
    RemoveEncodes(f, ix, lists, id, data[id].value);
    var t := Step(f, s, Del(id));
    assert t.indexes == [Remove(f, ix, id, data[id].value)] + [];
    WithinFlat(t, n + 1);
    assert t.indexes[0] in t.indexes;
  }

  lemma Created(f: Format, field: string)
    requires f.inserts.Stacking?
    ensures Holds(f, Step(f, EMPTY, CreateIndex([field], [])), map[], field, map[], 0)
  {
    assert AddIndex([], Index(IndexName([field]), [field], Empty(Stacking))) == [Index(IndexName([field]), [field], Empty(Stacking))] + [];
  }

  /**
   Two documents with one key that are put and then deleted, the later one first, leave the key with both their
   ids: the list that the last removal uncovers is older than both deletes.
   */
  lemma TombstonesUncovered(f: Format, field: string, doc: Document)
    requires f.inserts.Stacking? && CompositeKey(f.printer, [field], doc) != ""
    ensures var s := Run(f, EMPTY, [CreateIndex([field], []), Put(A, doc), Put(B, doc), Del(B), Del(A)]);
            && s.data == map[A := None, B := None]
            && |s.indexes| == 1 && s.indexes[0].fields == [field] && s.indexes[0].name == IndexName([field])
            && Lookup(f, s.indexes[0], CompositeKey(f.printer, [field], doc)) == [A, B]
  {
    hide Encodes, CompositeKey, AddId, DropId, Lookup, Step, AllWithin;
    var key := CompositeKey(f.printer, [field], doc);
    var s0 := Step(f, EMPTY, CreateIndex([field], []));
    var none: Lists := map[];
    var noDocs: Docs := map[];
    Created(f, field);
    assert JL.Plain(A) && JL.Plain(B);
    var one, d1 := AddId(Stacking, none, key, A), noDocs[A := Some(doc)];
    PutHolds(f, s0, noDocs, field, none, 0, A, doc, key);
    var s1 := Step(f, s0, Put(A, doc));
    var two, d2 := AddId(Stacking, one, key, B), d1[B := Some(doc)];
    PutHolds(f, s1, d1, field, one, 1, B, doc, key);
    var s2 := Step(f, s1, Put(B, doc));
    var three, d3 := DropId(Stacking, two, key, B), d2[B := None];
    DelHolds(f, s2, d2, field, two, 2, B, key);
    var s3 := Step(f, s2, Del(B));
    DelHolds(f, s3, d3, field, three, 3, A, key);
    var s4 := Step(f, s3, Del(A));
    ListsAfter(key);
    LookupIs(f, s4.indexes[0], DropId(Stacking, three, key, A), key);
    FiveSteps(f, CreateIndex([field], []), Put(A, doc), Put(B, doc), Del(B), Del(A));
    assert d3[A := None] == map[A := None, B := None];
  }

  lemma FiveSteps(f: Format, a: Op, b: Op, c: Op, d: Op, e: Op)
    ensures Run(f, EMPTY, [a, b, c, d, e]) == Step(f, Step(f, Step(f, Step(f, Step(f, EMPTY, a), b), c), d), e)
  {
    hide Step;
    var ops := [a, b, c, d, e];
    assert ops[1..] == [b, c, d, e] && ops[1..][1..] == [c, d, e] && ops[1..][1..][1..] == [d, e];
    assert ops[1..][1..][1..][1..] == [e] && ops[1..][1..][1..][1..][1..] == [];
    var s := Step(f, EMPTY, a);
    assert Run(f, EMPTY, ops) == Run(f, s, ops[1..]);
    assert Run(f, s, [b, c, d, e]) == Run(f, Step(f, s, b), [c, d, e]) by { assert [b, c, d, e][1..] == [c, d, e]; }
    assert Run(f, Step(f, s, b), [c, d, e]) == Run(f, Step(f, Step(f, s, b), c), [d, e]) by { assert [c, d, e][1..] == [d, e]; }
    var t := Step(f, Step(f, s, b), c);
    assert Run(f, t, [d, e]) == Run(f, Step(f, t, d), [e]) by { assert [d, e][1..] == [e]; }
    assert Run(f, Step(f, t, d), [e]) == Run(f, Step(f, Step(f, t, d), e), []) by { assert [e][1..] == []; }
  }

  // ---------- beyond one leaf ----------

  /** Making an index and putting documents of one content under these ids. */
  function Puts(ids: seq<string>, doc: Document): seq<Op> {
    if ids == [] then [] else Puts(ids[..|ids| - 1], doc) + [Put(ids[|ids| - 1], doc)]
  }

  function Calls(field: string, ids: seq<string>, doc: Document): seq<Op> { [CreateIndex([field], [])] + Puts(ids, doc) }

  /** The leaf after the first `n` puts: the newest list first, and every older one behind it. */
  ghost function PrefixLists(f: Format, key: string, ids: seq<string>, n: nat): Entries
    requires n <= |ids|
  {
    seq(n, i requires 0 <= i < n => Entry(key, ListText(f, ids[..n - i])))
  }

  /** Putting the next id inserts the list of one id more. */
  lemma NextList(f: Format, ix: Index, ids: seq<string>, n: nat, doc: Document, key: string)
    requires n < |ids| && NoRepeats(ids) && PlainIds(ids) && key != "" && key == CompositeKey(f.printer, ix.fields, doc)
    requires Find(ix.tree, key) == if n == 0 then None else Some(ListText(f, ids[..n]))
    ensures Update(f, ix, ids[n], doc) == Some(ix.(tree := Insert(ix.tree, key, ListText(f, ids[..n + 1]))))
  {
    hide J.Show, JL.Plain, JL.Strings, CompositeKey, SearchFor, Insert, Find, ListIn, Readable;
    assert PlainIds(ids[..n]) && ids[n] !in ids[..n];
    NoStrings();
    ListBack(f, ids[..n]);
    FindStrings(ids[..n], ids[n]);
    assert ids[..n + 1] == ids[..n] + [ids[n]] && ids[..0] == [];
    JL.StringsAppend(ids[..n], [ids[n]]);
    JL.OneString(ids[n]);
  }

  /** In a leaf of one key the next list goes to the front. */
  lemma FrontList(f: Format, key: string, ids: seq<string>, n: nat)
    requires n < |ids|
    ensures Bound(PrefixLists(f, key, ids, n), key) == 0
    ensures Added(PrefixLists(f, key, ids, n), key, ListText(f, ids[..n + 1])) == PrefixLists(f, key, ids, n + 1)
    ensures Find(OneLeaf(PrefixLists(f, key, ids, n)), key) == if n == 0 then None else Some(ListText(f, ids[..n]))
  {
    hide ListText;
    LessIrreflexive(key);
  }

  /** The collection after the first `n` puts, at most nineteen. */
  ghost predicate Filled(f: Format, s: State, field: string, key: string, ids: seq<string>, n: nat, doc: Document)
    requires n <= |ids|
  {
    && s.indexes == [Index(IndexName([field]), [field], OneLeaf(PrefixLists(f, key, ids, n)))]
    && forall id :: (id in s.data <==> id in ids[..n]) && (id in s.data ==> s.data[id] == Some(doc))
  }

  lemma FillOne(f: Format, s: State, field: string, key: string, ids: seq<string>, n: nat, doc: Document)
    requires n < |ids| && NoRepeats(ids) && PlainIds(ids) && key != "" && key == CompositeKey(f.printer, [field], doc)
    requires Filled(f, s, field, key, ids, n, doc)
    ensures var t := Step(f, s, Put(ids[n], doc));
            && t.indexes == [s.indexes[0].(tree := Insert(s.indexes[0].tree, key, ListText(f, ids[..n + 1])))]
            && t.data == s.data[ids[n] := Some(doc)]
    ensures n < ROOM ==> Filled(f, Step(f, s, Put(ids[n], doc)), field, key, ids, n + 1, doc)
  {
    hide ListText, CompositeKey, Update, Bound, JL.Plain;
    var ix := s.indexes[0];
    FrontList(f, key, ids, n);
    NextList(f, ix, ids, n, doc, key);
    assert !IsLive(s.data, ids[n]);
    assert [ix][1..] == [] && UpdateAll(f, [], ids[n], doc) == ([], true);
    assert ids[..n + 1] == ids[..n] + [ids[n]];
  }

  lemma {:induction false} RunAppend(f: Format, s: State, a: seq<Op>, op: Op)
    ensures Run(f, s, a + [op]) == Step(f, Run(f, s, a), op)
    decreases a
  {
    hide Step;
    if a == [] {
      assert a + [op] == [op] && [op][1..] == [];
    } else {
      assert (a + [op])[0] == a[0] && (a + [op])[1..] == a[1..] + [op];
      RunAppend(f, Step(f, s, a[0]), a[1..], op);
    }
  }

  lemma CallsNext(field: string, ids: seq<string>, n: nat, doc: Document)
    requires n < |ids|
    ensures Calls(field, ids[..n + 1], doc) == Calls(field, ids[..n], doc) + [Put(ids[n], doc)]
  {
    assert ids[..n + 1][..n] == ids[..n] && ids[..n + 1][n] == ids[n];
    var first := [CreateIndex([field], [])];
    assert first + (Puts(ids[..n], doc) + [Put(ids[n], doc)]) == first + Puts(ids[..n], doc) + [Put(ids[n], doc)];
  }

  lemma {:induction false} FillAll(f: Format, field: string, key: string, ids: seq<string>, n: nat, doc: Document)
    requires f.inserts.Stacking? && n <= |ids| && n <= ROOM && NoRepeats(ids) && PlainIds(ids)
    requires key != "" && key == CompositeKey(f.printer, [field], doc)
    ensures Filled(f, Run(f, EMPTY, Calls(field, ids[..n], doc)), field, key, ids, n, doc)
    decreases n
  {
    hide CompositeKey, Step, PrefixLists, JL.Plain;
    if n == 0 {
      Created0(f, field, key, ids, doc);
    } else {
      FillAll(f, field, key, ids, n - 1, doc);
      CallsNext(field, ids, n - 1, doc);
      RunAppend(f, EMPTY, Calls(field, ids[..n - 1], doc), Put(ids[n - 1], doc));
      FillOne(f, Run(f, EMPTY, Calls(field, ids[..n - 1], doc)), field, key, ids, n - 1, doc);
    }
  }

  lemma Created0(f: Format, field: string, key: string, ids: seq<string>, doc: Document)
    requires f.inserts.Stacking?
    ensures Filled(f, Run(f, EMPTY, Calls(field, ids[..0], doc)), field, key, ids, 0, doc)
  {
    var op := CreateIndex([field], []);
    assert ids[..0] == [] && Calls(field, [], doc) == [op] && [op][1..] == [];
    assert Run(f, EMPTY, [op]) == Run(f, Step(f, EMPTY, op), []) == Step(f, EMPTY, op);
    assert AddIndex([], Index(IndexName([field]), [field], Empty(Stacking))) == [Index(IndexName([field]), [field], Empty(Stacking))] + [];
    assert PrefixLists(f, key, ids, 0) == [];
  }

  /** Puts of fresh plain ids are fine. */
  lemma {:induction false} FreshFine(f: Format, v: View, ops: seq<Op>)
    requires forall op <- ops :: op.Put? && JL.Plain(op.id) && !IsLive(v.data, op.id)
    requires forall i, j :: 0 <= i < j < |ops| ==> ops[i].Put? && ops[j].Put? && ops[i].id != ops[j].id
    ensures AllFine(f, v, ops)
    decreases ops
  {
    hide JL.Plain, NextCrowd, CompositeKey, TakesLast;
    if ops != [] {
      var op, rest := ops[0], ops[1..];
      assert op in ops;
      forall o | o in rest ensures o.Put? && JL.Plain(o.id) && !IsLive(ViewStep(f, v, op).data, o.id) {
        var i :| 0 <= i < |rest| && rest[i] == o;
        assert ops[i + 1] == o && o in ops;
      }
      FreshFine(f, ViewStep(f, v, op), rest);
    }
  }

  lemma {:induction false} PutsAre(ids: seq<string>, doc: Document)
    ensures |Puts(ids, doc)| == |ids| && forall i | 0 <= i < |ids| :: Puts(ids, doc)[i] == Put(ids[i], doc)
  {
    if ids != [] {
      PutsAre(ids[..|ids| - 1], doc);
    }
  }

  lemma CallsFine(f: Format, field: string, ids: seq<string>, doc: Document)
    requires NoRepeats(ids) && PlainIds(ids)
    ensures AllFine(f, NOTHING, Calls(field, ids, doc))
  {
    hide JL.Plain, AllFine, Join;
    var ops := Calls(field, ids, doc);
    PutsAre(ids, doc);
    assert ops[0] == CreateIndex([field], []) && ops[1..] == Puts(ids, doc);
    forall op | op in Puts(ids, doc) ensures op.Put? && JL.Plain(op.id) {
      var i :| 0 <= i < |ids| && Puts(ids, doc)[i] == op;
      assert ids[i] in ids;
    }
    var v := ViewStep(f, NOTHING, ops[0]);
    FreshFine(f, v, ops[1..]);
    assert Fine(f, NOTHING, ops[0]);
    FineFirst(f, NOTHING, ops);
  }

  lemma FineFirst(f: Format, v: View, ops: seq<Op>)
    requires ops != [] && Fine(f, v, ops[0]) && AllFine(f, ViewStep(f, v, ops[0]), ops[1..])
    ensures AllFine(f, v, ops)
  {
    hide Fine, ViewStep;
  }

  lemma {:induction false} CostAppend(f: Format, s: State, a: seq<Op>, op: Op)
    ensures MostLists(f, s, a + [op]) == MostLists(f, s, a) + Cost(Run(f, s, a).data, op)
    decreases a
  {
    hide Step, Cost;
    if a == [] {
      assert a + [op] == [op] && [op][1..] == [];
    } else {
      assert (a + [op])[0] == a[0] && (a + [op])[1..] == a[1..] + [op];
      CostAppend(f, Step(f, s, a[0]), a[1..], op);
    }
  }

  /** Every put costs one list. */
  lemma {:induction false} CallsCost(f: Format, field: string, key: string, ids: seq<string>, n: nat, doc: Document)
    requires f.inserts.Stacking? && n <= |ids| && n <= ROOM + 1 && NoRepeats(ids) && PlainIds(ids)
    requires key != "" && key == CompositeKey(f.printer, [field], doc)
    ensures MostLists(f, EMPTY, Calls(field, ids[..n], doc)) == n
    decreases n
  {
    hide CompositeKey, Step, PrefixLists, JL.Plain;
    if n == 0 {
      assert ids[..0] == [] && Calls(field, [], doc) == [CreateIndex([field], [])];
      CostAppend(f, EMPTY, [], CreateIndex([field], []));
      assert [] + [CreateIndex([field], [])] == [CreateIndex([field], [])];
    } else {
      CallsCost(f, field, key, ids, n - 1, doc);
      CallsNext(field, ids, n - 1, doc);
      CostAppend(f, EMPTY, Calls(field, ids[..n - 1], doc), Put(ids[n - 1], doc));
      FillAll(f, field, key, ids, n - 1, doc);
      assert ids[n - 1] !in ids[..n - 1];
    }
  }

  /**
   Twenty puts under one key, of one list each. Nineteen keep within the bound and leave one leaf; with the
   twentieth, though every put is fine, only ten documents are found.
   */
  lemma TwentiethUnseen(f: Format, field: string, ids: seq<string>, doc: Document)
    requires f.inserts.Stacking? && |ids| == 20 && NoRepeats(ids) && PlainIds(ids)
    requires CompositeKey(f.printer, [field], doc) != ""
    ensures AllFine(f, NOTHING, Calls(field, ids, doc))
    ensures MostLists(f, EMPTY, Calls(field, ids[..19], doc)) == 19 && MostLists(f, EMPTY, Calls(field, ids, doc)) == 20
    ensures AllFlat(f, EMPTY, Calls(field, ids[..19], doc))
    ensures var key := CompositeKey(f.printer, [field], doc);
            var s := Run(f, EMPTY, Calls(field, ids, doc));
            && |s.indexes| == 1 && Lookup(f, s.indexes[0], key) == ids[..10]
            && HasKey(f.printer, [field], s.data, ids[19], key) && !ExactState(f, s)
  {
    hide CompositeKey, JL.Plain, AllFine, AllFlat, MostLists, Step, Lookup, Bound, NoRepeats, ListText;
    var key := CompositeKey(f.printer, [field], doc);
    CallsFine(f, field, ids, doc);
    CallsCost(f, field, key, ids, ROOM, doc);
    CallsCost(f, field, key, ids, ROOM + 1, doc);
    RoomEnough(f, Calls(field, ids[..ROOM], doc));
    FillAll(f, field, key, ids, ROOM, doc);
    var s := Run(f, EMPTY, Calls(field, ids[..ROOM], doc));
    CallsNext(field, ids, ROOM, doc);
    assert ids[..ROOM + 1] == ids;
    RunAppend(f, EMPTY, Calls(field, ids[..ROOM], doc), Put(ids[ROOM], doc));
    FillOne(f, s, field, key, ids, ROOM, doc);
    var t := Step(f, s, Put(ids[ROOM], doc));
    var ix := t.indexes[0];
    SplitReads(f, key, ids);
    assert Lookup(f, ix, key) == ids[..ORDER] by { LookupText(f, ix, key, ids[..ORDER]); }
    assert ids[ROOM] !in ids[..ORDER] by { Fresh(ids); }
    assert HasKey(f.printer, [field], t.data, ids[ROOM], key);
    assert !ExactAt(f, t.data, ix, key) && ix in t.indexes;
  }

  lemma Fresh(ids: seq<string>)
    requires |ids| == ROOM + 1 && NoRepeats(ids)
    ensures ids[ROOM] !in ids[..ORDER]
  {
  }

  /** The insert into a full leaf of one key puts the list of the first ten into the root. */
  lemma SplitReads(f: Format, key: string, ids: seq<string>)
    requires |ids| == ROOM + 1
    ensures Find(Insert(OneLeaf(PrefixLists(f, key, ids, ROOM)), key, ListText(f, ids[..ROOM + 1])), key) == Some(ListText(f, ids[..ORDER]))
  {
    hide ListText, Added;
    LessIrreflexive(key);
    var es := PrefixLists(f, key, ids, ROOM);
    assert es[ORDER - 1] == Entry(key, ListText(f, ids[..ORDER]));
    var (root, leaves) := SplitChild([], [es], 0);
    assert root == [es[ORDER - 1]];
    assert leaves[0] == es[..ORDER - 1];
  }

  lemma LookupText(f: Format, ix: Index, key: string, ids: seq<string>)
    requires Find(ix.tree, key) == Some(ListText(f, ids)) && PlainIds(ids)
    ensures Lookup(f, ix, key) == ids
  {
    hide ListIn, JL.Strings, LeadingIds, Find, JL.Plain;
    ListBack(f, ids);
    FindStrings(ids, "");
  }
}
