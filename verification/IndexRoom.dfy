/** A bound on calls under which every index stays one leaf. */
module IndexRoom {
  import opened Options
  import opened Documents
  import opened ValueTree
  import J = Json
  import opened Indexes
  import opened IndexLists
  import opened IndexLaws

  /** One leaf of at most `n` lists. */
  predicate Within(ix: Index, n: nat) { ix.tree.OneLeaf? && |ix.tree.entries| <= n }

  predicate AllWithin(ixs: seq<Index>, n: nat) { forall ix <- ixs :: Within(ix, n) }

  function LiveAmong(data: Docs, ids: seq<string>): nat {
    if ids == [] then 0 else (if IsLive(data, ids[0]) then 1 else 0) + LiveAmong(data, ids[1..])
  }

  /**
   How many lists a call adds to an index at most: a put one, or two over a live document, a delete of a live
   document one, and the making of an index one for each document it is loaded with.
   */
  function Cost(data: Docs, op: Op): nat {
    match op
    case Put(id, _) => if IsLive(data, id) then 2 else 1
    case Del(id) => if IsLive(data, id) then 1 else 0
    case CreateIndex(_, order) => LiveAmong(data, order)
  }

  function MostLists(f: Format, s: State, ops: seq<Op>): nat
    decreases ops
  {
    if ops == [] then 0 else Cost(s.data, ops[0]) + MostLists(f, Step(f, s, ops[0]), ops[1..])
  }

  lemma UpdateWithin(f: Format, ix: Index, id: string, doc: Document, n: nat)
    requires Within(ix, n) && n < ROOM
    ensures Update(f, ix, id, doc).Some? ==> Within(Update(f, ix, id, doc).value, n + 1)
    ensures Within(Remove(f, ix, id, doc), n + 1)
  {
    hide J.Show, CompositeKey, ItemsAt, SearchFor, ReadableAt, Without, AllStrings, Added, Bound;
  }

  lemma {:induction false} AllUpdatesWithin(f: Format, ixs: seq<Index>, id: string, doc: Document, n: nat)
    requires AllWithin(ixs, n) && n < ROOM
    ensures AllWithin(UpdateAll(f, ixs, id, doc).0, n + 1) && AllWithin(RemoveAll(f, ixs, id, doc), n + 1)
  {
    hide Update, Remove;
    if ixs != [] {
      UpdateWithin(f, ixs[0], id, doc, n);
      AllUpdatesWithin(f, ixs[1..], id, doc, n);
      assert ixs == [ixs[0]] + ixs[1..];
    }
  }

  lemma {:induction false} LoadWithin(f: Format, data: Docs, ixs: seq<Index>, ids: seq<string>, n: nat)
    requires AllWithin(ixs, n) && n + LiveAmong(data, ids) <= ROOM
    ensures AllWithin(Load(f, data, ixs, ids).0, n + LiveAmong(data, ids))
    decreases ids
  {
    hide UpdateAll;
    if ids != [] {
      if IsLive(data, ids[0]) {
        AllUpdatesWithin(f, ixs, ids[0], data[ids[0]].value, n);
        LoadWithin(f, data, UpdateAll(f, ixs, ids[0], data[ids[0]].value).0, ids[1..], n + 1);
      } else {
        LoadWithin(f, data, ixs, ids[1..], n);
      }
    }
  }

  lemma StepWithin(f: Format, s: State, op: Op, n: nat)
    requires f.inserts.Stacking? && AllWithin(s.indexes, n) && n + Cost(s.data, op) <= ROOM
    ensures AllWithin(Step(f, s, op).indexes, n + Cost(s.data, op))
  {
    hide UpdateAll, RemoveAll, Load, Join, AddIndex, HasName, LiveAmong;
    match op {
      case Put(id, doc) =>
        if IsLive(s.data, id) {
          AllUpdatesWithin(f, s.indexes, id, s.data[id].value, n);
          AllUpdatesWithin(f, RemoveAll(f, s.indexes, id, s.data[id].value), id, doc, n + 1);
        } else {
          AllUpdatesWithin(f, s.indexes, id, doc, n);
        }
      case Del(id) =>
        if IsLive(s.data, id) {
          AllUpdatesWithin(f, s.indexes, id, s.data[id].value, n);
        }
      case CreateIndex(fields, order) =>
        var ix := Index(IndexName(fields), fields, Empty(f.inserts));
        AddIndexHas(s.indexes, ix);
        LoadWithin(f, s.data, if HasName(s.indexes, ix.name) then s.indexes else AddIndex(s.indexes, ix), order, n);
    }
  }

  lemma {:induction false} RunWithin(f: Format, s: State, ops: seq<Op>, n: nat)
    requires f.inserts.Stacking? && AllWithin(s.indexes, n) && n + MostLists(f, s, ops) <= ROOM
    ensures AllFlat(f, s, ops) && AllWithin(Run(f, s, ops).indexes, n + MostLists(f, s, ops))
    decreases ops
  {
    hide Step, Within, Cost;
    if ops != [] {
      var t := Step(f, s, ops[0]);
      StepWithin(f, s, ops[0], n);
      WithinFlat(t, n + Cost(s.data, ops[0]));
      RunWithin(f, t, ops[1..], n + Cost(s.data, ops[0]));
    }
  }

  lemma WithinFlat(s: State, n: nat)
    requires AllWithin(s.indexes, n)
    ensures FlatState(s)
  {
  }

  /** Calls that add at most nineteen lists leave every index one leaf. */
  lemma RoomEnough(f: Format, ops: seq<Op>)
    requires f.inserts.Stacking? && MostLists(f, EMPTY, ops) <= ROOM
    ensures AllFlat(f, EMPTY, ops)
  {
    hide MostLists, AllFlat;
    RunWithin(f, EMPTY, ops, 0);
  }

  /** With so few calls, lookups are exact throughout if and only if every call is fine. */
  lemma FewCallsIff(f: Format, ops: seq<Op>)
    requires f.inserts.Stacking? && AllListed(f, EMPTY, ops) && MostLists(f, EMPTY, ops) <= ROOM
    ensures AlwaysExact(f, EMPTY, ops) <==> AllFine(f, NOTHING, ops)
  {
    hide MostLists, AllFlat, AllListed, AlwaysExact, AllFine;
    RoomEnough(f, ops);
    ExactIff(f, ops);
  }
}
