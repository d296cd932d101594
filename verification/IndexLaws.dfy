/**
 After exactly which runs of put, del and create_index looking up a key gives exactly the live documents with
 that key, as long as every index is one leaf, or over a map whose insert replaces.
 */
module IndexLaws {
  import opened Options
  import opened TextOrder
  import opened Documents
  import opened ValueTree
  import J = Json
  import JL = JsonLaws
  import opened Indexes
  import opened IndexLists
  import opened IndexSteps
  import opened IndexLoading

  lemma {:induction false} AddIndexHas(ixs: seq<Index>, ix: Index)
    ensures forall x <- AddIndex(ixs, ix) :: x in ixs || x == ix
    ensures ix in AddIndex(ixs, ix) && forall x <- ixs :: x in AddIndex(ixs, ix)
  {
    hide Less;
    if ixs != [] && !Less(ix.name, ixs[0].name) {
      AddIndexHas(ixs[1..], ix);
      assert ixs == [ixs[0]] + ixs[1..];
    }
  }

  // ---------- names ----------

  /** Every index is named after its fields, and no two share a name. */
  predicate WellNamed(ixs: seq<Index>) {
    && (forall i | 0 <= i < |ixs| :: ixs[i].name == IndexName(ixs[i].fields))
    && forall i, j :: 0 <= i < j < |ixs| ==> ixs[i].name != ixs[j].name
  }

  /** The same indexes up to their trees. */
  predicate SameNames(a: seq<Index>, b: seq<Index>) {
    |a| == |b| && forall i | 0 <= i < |a| :: a[i].name == b[i].name && a[i].fields == b[i].fields
  }

  lemma {:induction false} UpdateAllNames(f: Format, ixs: seq<Index>, id: string, doc: Document)
    ensures SameNames(ixs, UpdateAll(f, ixs, id, doc).0)
  {
    hide CompositeKey, ItemsAt, SearchFor, Insert;
    if ixs != [] {
      UpdateAllNames(f, ixs[1..], id, doc);
    }
  }

  lemma {:induction false} RemoveAllNames(f: Format, ixs: seq<Index>, id: string, doc: Document)
    ensures SameNames(ixs, RemoveAll(f, ixs, id, doc))
  {
    hide CompositeKey, ItemsAt, ReadableAt, Without, AllStrings, Insert, Erase;
    if ixs != [] {
      RemoveAllNames(f, ixs[1..], id, doc);
    }
  }

  lemma {:induction false} LoadNames(f: Format, data: Docs, ixs: seq<Index>, ids: seq<string>)
    ensures SameNames(ixs, Load(f, data, ixs, ids).0)
    decreases ids
  {
    hide UpdateAll;
    if ids != [] {
      if IsLive(data, ids[0]) {
        UpdateAllNames(f, ixs, ids[0], data[ids[0]].value);
        LoadNames(f, data, UpdateAll(f, ixs, ids[0], data[ids[0]].value).0, ids[1..]);
      } else {
        LoadNames(f, data, ixs, ids[1..]);
      }
    }
  }

  lemma {:induction false} AddIndexNamed(ixs: seq<Index>, ix: Index)
    requires WellNamed(ixs) && !HasName(ixs, ix.name) && ix.name == IndexName(ix.fields)
    ensures WellNamed(AddIndex(ixs, ix))
  {
    hide Less, Join;
    if ixs != [] && !Less(ix.name, ixs[0].name) {
      var rest := ixs[1..];
      assert forall i | 0 <= i < |rest| :: rest[i] == ixs[i + 1];
      assert forall x <- rest :: x in ixs;
      AddIndexNamed(rest, ix);
      AddIndexHas(rest, ix);
      var added := AddIndex(rest, ix);
      assert ixs[0] in ixs;
      forall x <- added ensures x.name != ixs[0].name {
        if x in rest {
          var i :| 0 <= i < |rest| && rest[i] == x;
          assert ixs[i + 1] == x;
        }
      }
    }
  }

  lemma StepNamed(f: Format, s: State, op: Op)
    requires WellNamed(s.indexes)
    ensures WellNamed(Step(f, s, op).indexes)
  {
    hide UpdateAll, RemoveAll, Load, Join, HasName;
    match op {
      case Put(id, doc) =>
        var cleared := if IsLive(s.data, id) then RemoveAll(f, s.indexes, id, s.data[id].value) else s.indexes;
        if IsLive(s.data, id) {
          RemoveAllNames(f, s.indexes, id, s.data[id].value);
        }
        UpdateAllNames(f, cleared, id, doc);
      case Del(id) =>
        if IsLive(s.data, id) {
          RemoveAllNames(f, s.indexes, id, s.data[id].value);
        }
      case CreateIndex(fields, order) =>
        var ix := Index(IndexName(fields), fields, Empty(f.inserts));
        if HasName(s.indexes, ix.name) {
          LoadNames(f, s.data, s.indexes, order);
        } else {
          AddIndexNamed(s.indexes, ix);
          LoadNames(f, s.data, AddIndex(s.indexes, ix), order);
        }
    }
  }

  lemma {:induction false} RunNamed(f: Format, s: State, ops: seq<Op>)
    requires WellNamed(s.indexes)
    ensures WellNamed(Run(f, s, ops).indexes)
    decreases ops
  {
    hide WellNamed, Step;
    if ops != [] {
      StepNamed(f, s, ops[0]);
      RunNamed(f, Step(f, s, ops[0]), ops[1..]);
    }
  }

  // ---------- what a caller knows ----------

  /** The fields of an index, and the keys that have been crowded since the index was made. */
  datatype Watch = Watch(fields: seq<string>, crowd: Crowd)

  /** The documents, and what is watched of every index by its name; nothing of the trees. */
  datatype View = View(data: Docs, watches: map<string, Watch>)

  const NOTHING: View := View(map[], map[])

  ghost function ViewStep(f: Format, v: View, op: Op): View {
    match op
    case Put(id, doc) =>
      View(v.data[id := Some(doc)],
           map n | n in v.watches :: v.watches[n].(crowd := PutCrowd(f, v.watches[n].fields, v.watches[n].crowd, v.data, id, doc)))
    case Del(id) =>
      if !IsLive(v.data, id) then v
      else View(v.data[id := None],
                map n | n in v.watches :: v.watches[n].(crowd := DelCrowd(f, v.watches[n].fields, v.watches[n].crowd, v.data, id)))
    case CreateIndex(fields, _) =>
      if IndexName(fields) in v.watches then v
      else v.(watches := v.watches[IndexName(fields) := Watch(fields, LoadCrowd(f, fields, v.data))])
  }

  /**
   A step that no index suffers from: no put or delete takes the last live document off a crowded key, and no
   document whose id holds a quote or a backslash gets a key.
   */
  ghost predicate Fine(f: Format, v: View, op: Op) {
    match op
    case Put(id, doc) => forall n <- v.watches :: FinePut(f, v.watches[n].fields, v.watches[n].crowd, v.data, id, doc)
    case Del(id) => forall n <- v.watches :: FineDel(f, v.watches[n].fields, v.watches[n].crowd, v.data, id)
    case CreateIndex(fields, _) => IndexName(fields) in v.watches || FineLoad(f, fields, v.data)
  }

  ghost predicate AllFine(f: Format, v: View, ops: seq<Op>)
    decreases ops
  {
    ops == [] || (Fine(f, v, ops[0]) && AllFine(f, ViewStep(f, v, ops[0]), ops[1..]))
  }

  /** A new index is loaded from every key of the map, once. */
  ghost predicate Listed(data: Docs, op: Op) {
    op.CreateIndex? ==> (forall id :: id in op.order <==> id in data) && NoRepeats(op.order)
  }

  ghost predicate AllListed(f: Format, s: State, ops: seq<Op>)
    decreases ops
  {
    ops == [] || (Listed(s.data, ops[0]) && AllListed(f, Step(f, s, ops[0]), ops[1..]))
  }

  // ---------- room ----------

  /** Every index is a map or one leaf. */
  predicate FlatState(s: State) { forall ix <- s.indexes :: Flat(ix.tree) }

  /** It is so after every step of the run. */
  predicate AllFlat(f: Format, s: State, ops: seq<Op>)
    decreases ops
  {
    ops == [] || (FlatState(Step(f, s, ops[0])) && AllFlat(f, Step(f, s, ops[0]), ops[1..]))
  }

  /** What is one leaf after an update was one leaf before. */
  lemma {:induction false} UpdateAllFlat(f: Format, ixs: seq<Index>, id: string, doc: Document)
    ensures forall i | 0 <= i < |ixs| :: Flat(UpdateAll(f, ixs, id, doc).0[i].tree) ==> Flat(ixs[i].tree)
  {
    hide Update, Flat;
    if ixs != [] {
      UpdateFlat(f, ixs[0], id, doc);
      UpdateAllFlat(f, ixs[1..], id, doc);
    }
  }

  // ---------- one step ----------

  ghost predicate ExactState(f: Format, s: State) { forall ix <- s.indexes :: ExactIndex(f, s.data, ix) }

  ghost predicate Watched(f: Format, v: View, ix: Index) {
    ix.name in v.watches && v.watches[ix.name].fields == ix.fields && Good(f, v.data, ix, v.watches[ix.name].crowd)
  }

  /** The store as the caller sees it, with every index exact. */
  ghost predicate Sound(f: Format, s: State, v: View) {
    && s.data == v.data && WellNamed(s.indexes)
    && (forall i | 0 <= i < |s.indexes| :: Watched(f, v, s.indexes[i]))
    && forall n <- v.watches :: HasName(s.indexes, n)
  }

  lemma SoundExact(f: Format, s: State, v: View)
    requires Sound(f, s, v)
    ensures ExactState(f, s)
  {
    hide Good, ExactIndex, WellNamed;
    forall ix | ix in s.indexes ensures ExactIndex(f, s.data, ix) {
      var i :| 0 <= i < |s.indexes| && s.indexes[i] == ix;
      assert Watched(f, v, s.indexes[i]);
      GoodExact(f, s.data, ix, v.watches[ix.name].crowd);
    }
  }

  lemma {:induction false} RemoveAllAt(f: Format, ixs: seq<Index>, id: string, doc: Document, i: nat)
    requires i < |ixs|
    ensures RemoveAll(f, ixs, id, doc)[i] == Remove(f, ixs[i], id, doc)
  {
    hide Remove;
    if i > 0 {
      RemoveAllAt(f, ixs[1..], id, doc, i - 1);
    }
  }

  /** If no index throws, every one is updated. */
  lemma {:induction false} UpdateAllEach(f: Format, ixs: seq<Index>, id: string, doc: Document)
    requires forall i | 0 <= i < |ixs| :: Update(f, ixs[i], id, doc).Some?
    ensures UpdateAll(f, ixs, id, doc).1
    ensures forall i | 0 <= i < |ixs| :: UpdateAll(f, ixs, id, doc).0[i] == Update(f, ixs[i], id, doc).value
  {
    hide Update;
    if ixs != [] {
      UpdateAllEach(f, ixs[1..], id, doc);
    }
  }

  lemma WatchedAt(f: Format, s: State, v: View, i: nat)
    requires Sound(f, s, v) && i < |s.indexes|
    ensures var ix := s.indexes[i];
            ix.name in v.watches && v.watches[ix.name].fields == ix.fields && Good(f, s.data, ix, v.watches[ix.name].crowd)
  {
    hide Good, WellNamed;
    assert Watched(f, v, s.indexes[i]);
  }

  lemma NamedIndex(f: Format, s: State, v: View, n: string) returns (i: nat)
    requires Sound(f, s, v) && n in v.watches
    ensures i < |s.indexes| && s.indexes[i].name == n
  {
    hide Good, WellNamed, Watched;
    assert HasName(s.indexes, n);
    var ix :| ix in s.indexes && ix.name == n;
    i :| 0 <= i < |s.indexes| && s.indexes[i] == ix;
  }

  /** A put changes index number `i` as it would change it alone. */
  lemma PutAt(f: Format, s: State, v: View, id: string, doc: Document)
    requires Sound(f, s, v) && FlatState(PutStep(f, s, id, doc).0)
    ensures var (t, ok) := PutStep(f, s, id, doc);
            && ok && t.data == s.data[id := Some(doc)] && |t.indexes| == |s.indexes|
            && forall i | 0 <= i < |s.indexes| ::
                 && Flat(Removed(f, s.indexes[i], s.data, id).tree)
                 && Update(f, Removed(f, s.indexes[i], s.data, id), id, doc) == Some(t.indexes[i])
  {
    hide Good, Update, Remove, Sound, FinePut, ExactIndex, NextCrowd, Flat;
    var cleared := if IsLive(s.data, id) then RemoveAll(f, s.indexes, id, s.data[id].value) else s.indexes;
    forall i | 0 <= i < |s.indexes|
      ensures cleared[i] == Removed(f, s.indexes[i], s.data, id) && Flat(cleared[i].tree) && Update(f, cleared[i], id, doc).Some?
    {
      UpdateAllFlat(f, cleared, id, doc);
      var t := PutStep(f, s, id, doc).0;
      assert t.indexes[i] in t.indexes;
      WatchedAt(f, s, v, i);
      if IsLive(s.data, id) {
        RemoveAllAt(f, s.indexes, id, s.data[id].value, i);
      }
      PutOne(f, s.data, s.indexes[i], v.watches[s.indexes[i].name].crowd, id, doc);
    }
    UpdateAllEach(f, cleared, id, doc);
  }

  lemma PutIff(f: Format, s: State, v: View, id: string, doc: Document)
    requires Sound(f, s, v) && FlatState(PutStep(f, s, id, doc).0)
    ensures PutStep(f, s, id, doc).1
    ensures var t := PutStep(f, s, id, doc).0;
            if Fine(f, v, Put(id, doc)) then Sound(f, t, ViewStep(f, v, Put(id, doc))) else !ExactState(f, t)
  {
    hide Good, Update, Remove, PutStep, FinePut, ExactIndex, PutCrowd, WellNamed, Watched, Removed;
    var t, op := PutStep(f, s, id, doc).0, Put(id, doc);
    PutAt(f, s, v, id, doc);
    StepNamed(f, s, op);
    if Fine(f, v, op) {
      var v' := ViewStep(f, v, op);
      forall i | 0 <= i < |t.indexes| ensures Watched(f, v', t.indexes[i]) && t.indexes[i].name == s.indexes[i].name {
        WatchedAt(f, s, v, i);
        assert t.indexes[i] in t.indexes;
        PutOne(f, s.data, s.indexes[i], v.watches[s.indexes[i].name].crowd, id, doc);
        WatchedIs(f, v', t.indexes[i]);
      }
      SameHas(s.indexes, t.indexes);
    } else {
      var n :| n in v.watches && !FinePut(f, v.watches[n].fields, v.watches[n].crowd, v.data, id, doc);
      var i := NamedIndex(f, s, v, n);
      WatchedAt(f, s, v, i);
      assert t.indexes[i] in t.indexes;
      PutOne(f, s.data, s.indexes[i], v.watches[n].crowd, id, doc);
    }
  }

  lemma WatchedIs(f: Format, v: View, ix: Index)
    requires ix.name in v.watches && v.watches[ix.name].fields == ix.fields && Good(f, v.data, ix, v.watches[ix.name].crowd)
    ensures Watched(f, v, ix)
  {
    hide Good;
  }

  lemma SameHas(a: seq<Index>, b: seq<Index>)
    requires |a| == |b| && forall i | 0 <= i < |a| :: a[i].name == b[i].name
    ensures forall n :: HasName(a, n) ==> HasName(b, n)
  {
    forall n | HasName(a, n) ensures HasName(b, n) {
      var ix :| ix in a && ix.name == n;
      var i :| 0 <= i < |a| && a[i] == ix;
      assert b[i] in b;
    }
  }

  lemma DelIff(f: Format, s: State, v: View, id: string)
    requires Sound(f, s, v) && FlatState(DelStep(f, s, id).0)
    ensures var t := DelStep(f, s, id).0;
            if Fine(f, v, Del(id)) then Sound(f, t, ViewStep(f, v, Del(id))) else !ExactState(f, t)
  {
    hide Good, Remove, ExactIndex, DelCrowd, WellNamed, Watched, TakesLast;
    var t, op := DelStep(f, s, id).0, Del(id);
    if IsLive(s.data, id) {
      StepNamed(f, s, op);
      forall i | 0 <= i < |s.indexes| ensures t.indexes[i] == Removed(f, s.indexes[i], s.data, id) {
        RemoveAllAt(f, s.indexes, id, s.data[id].value, i);
      }
      if Fine(f, v, op) {
        var v' := ViewStep(f, v, op);
        forall i | 0 <= i < |t.indexes| ensures Watched(f, v', t.indexes[i]) && t.indexes[i].name == s.indexes[i].name {
          WatchedAt(f, s, v, i);
          assert t.indexes[i] in t.indexes;
          DelOne(f, s.data, s.indexes[i], v.watches[s.indexes[i].name].crowd, id);
          WatchedIs(f, v', t.indexes[i]);
        }
        SameHas(s.indexes, t.indexes);
      } else {
        var n :| n in v.watches && !FineDel(f, v.watches[n].fields, v.watches[n].crowd, v.data, id);
        var i := NamedIndex(f, s, v, n);
        WatchedAt(f, s, v, i);
        assert t.indexes[i] in t.indexes;
        DelOne(f, s.data, s.indexes[i], v.watches[n].crowd, id);
      }
    } else {
      assert Fine(f, v, op);
    }
  }

  lemma {:induction false} AddIndexAt(ixs: seq<Index>, ix: Index) returns (j: nat)
    ensures j <= |ixs| && AddIndex(ixs, ix) == ixs[..j] + [ix] + ixs[j..]
  {
    hide Less;
    if ixs == [] || Less(ix.name, ixs[0].name) {
      j := 0;
    } else {
      var k := AddIndexAt(ixs[1..], ix);
      j := k + 1;
      assert ixs == [ixs[0]] + ixs[1..];
      assert ixs[..j] == [ixs[0]] + ixs[1..][..k] && ixs[j..] == ixs[1..][k..];
    }
  }

  /** A new index, loaded, stands among the old ones, which stay as they are. */
  lemma CreateNew(f: Format, s: State, v: View, fields: seq<string>, order: seq<string>) returns (j: nat)
    requires Sound(f, s, v) && !HasName(s.indexes, IndexName(fields))
    ensures j <= |s.indexes|
    ensures CreateStep(f, s, fields, order).0 ==
            State(s.data, s.indexes[..j] + [Loaded(f, s.data, Index(IndexName(fields), fields, Empty(f.inserts)), order)] + s.indexes[j..])
  {
    hide Good, Loaded, Settled, Join, WellNamed, HasName, Sound, Load, AddIndex;
    var new0 := Index(IndexName(fields), fields, Empty(f.inserts));
    j := AddIndexAt(s.indexes, new0);
    var ixs := AddIndex(s.indexes, new0);
    forall i | 0 <= i < |ixs| && i != j ensures Settled(f, s.data, ixs[i]) {
      var k := if i < j then i else i - 1;
      assert ixs[i] == s.indexes[k];
      WatchedAt(f, s, v, k);
      GoodSettled(f, s.data, s.indexes[k], v.watches[s.indexes[k].name].crowd);
    }
    LoadAt(f, s.data, ixs, j, order);
    assert ixs[j] == new0;
    assert ixs[j := Loaded(f, s.data, new0, order)] == s.indexes[..j] + [Loaded(f, s.data, new0, order)] + s.indexes[j..];
  }

  lemma CreateOld(f: Format, s: State, v: View, fields: seq<string>, order: seq<string>)
    requires Sound(f, s, v) && HasName(s.indexes, IndexName(fields))
    ensures CreateStep(f, s, fields, order) == (s, true)
  {
    hide Good, Settled, Join, WellNamed, HasName, Sound, Load;
    forall i | 0 <= i < |s.indexes| ensures Settled(f, s.data, s.indexes[i]) {
      WatchedAt(f, s, v, i);
      GoodSettled(f, s.data, s.indexes[i], v.watches[s.indexes[i].name].crowd);
    }
    LoadSettled(f, s.data, s.indexes, order);
  }

  lemma LoadedGood(f: Format, data: Docs, fields: seq<string>, order: seq<string>)
    requires FineLoad(f, fields, data) && NoRepeats(order) && forall id :: id in order <==> id in data
    ensures var r := Loaded(f, data, Index(IndexName(fields), fields, Empty(f.inserts)), order);
            Flat(r.tree) ==> Good(f, data, r, LoadCrowd(f, fields, data))
  {
    hide Good, Loaded, FineLoad, Join, NoRepeats, CompositeKey;
    var ix := Index(IndexName(fields), fields, Empty(f.inserts));
    var none, all := Among(data, {}), Among(data, {} + (set id <- order));
    NewGood(f, none, ix.name, fields);
    assert LoadCrowd(f, fields, none) == iset{} by { NoCrowd(f, fields, none); }
    LoadGood(f, data, {}, ix, order);
    SameCrowd(f, fields, all, data);
    if Flat(Loaded(f, data, ix, order).tree) {
      GoodSame(f, all, data, Loaded(f, data, ix, order), LoadCrowd(f, fields, data));
    }
  }

  lemma NoCrowd(f: Format, fields: seq<string>, data: Docs)
    requires data == map[]
    ensures LoadCrowd(f, fields, data) == iset{}
  {
  }

  lemma SameCrowd(f: Format, fields: seq<string>, a: Docs, b: Docs)
    requires forall id :: IsLive(a, id) <==> IsLive(b, id)
    requires forall id :: IsLive(a, id) && IsLive(b, id) ==> a[id] == b[id]
    ensures LoadCrowd(f, fields, a) == LoadCrowd(f, fields, b)
  {
    hide CompositeKey;
    assert forall k, x :: HasKey(f.printer, fields, a, x, k) <==> HasKey(f.printer, fields, b, x, k);
    assert forall k :: Held(f.printer, fields, a, k) <==> Held(f.printer, fields, b, k);
    assert forall k :: Shared(f.printer, fields, a, k) <==> Shared(f.printer, fields, b, k);
  }

  lemma CreateIff(f: Format, s: State, v: View, fields: seq<string>, order: seq<string>)
    requires Sound(f, s, v) && Listed(s.data, CreateIndex(fields, order)) && FlatState(CreateStep(f, s, fields, order).0)
    ensures var t := CreateStep(f, s, fields, order).0;
            if Fine(f, v, CreateIndex(fields, order)) then Sound(f, t, ViewStep(f, v, CreateIndex(fields, order))) else !ExactState(f, t)
  {
    hide Good, Loaded, FineLoad, Join, NoRepeats, CompositeKey, CreateStep, WellNamed, ExactIndex, Watched, LoadCrowd, Load;
    var t, op, name := CreateStep(f, s, fields, order).0, CreateIndex(fields, order), IndexName(fields);
    if name in v.watches {
      CreateOld(f, s, v, fields, order);
    } else {
      assert !HasName(s.indexes, name) by {
        if HasName(s.indexes, name) {
          var ix :| ix in s.indexes && ix.name == name;
          var i :| 0 <= i < |s.indexes| && s.indexes[i] == ix;
          WatchedAt(f, s, v, i);
        }
      }
      var j := CreateNew(f, s, v, fields, order);
      var fresh0 := Loaded(f, s.data, Index(name, fields, Empty(f.inserts)), order);
      assert t.indexes[j] == fresh0 && fresh0 in t.indexes;
      if FineLoad(f, fields, v.data) {
        LoadedGood(f, s.data, fields, order);
        StepNamed(f, s, op);
        assert WellNamed(t.indexes) by { assert t == Step(f, s, op); }
        CreatedSound(f, s, v, fields, j, fresh0, t);
      } else {
        var id := Ruining(f, fields, v.data);
        LoadRuined(f, s.data, name, fields, order, id);
      }
    }
  }

  lemma Ruining(f: Format, fields: seq<string>, data: Docs) returns (id: string)
    requires !FineLoad(f, fields, data)
    ensures IsLive(data, id) && CompositeKey(f.printer, fields, data[id].value) != "" && !JL.Plain(id)
  {
    hide CompositeKey, JL.Plain;
    id :| id in data && IsLive(data, id) && !(CompositeKey(f.printer, fields, data[id].value) == "" || JL.Plain(id));
  }

  lemma CreatedSound(f: Format, s: State, v: View, fields: seq<string>, j: nat, fresh0: Index, t: State)
    requires Sound(f, s, v) && IndexName(fields) !in v.watches && j <= |s.indexes|
    requires fresh0.name == IndexName(fields) && fresh0.fields == fields && Good(f, s.data, fresh0, LoadCrowd(f, fields, s.data))
    requires t == State(s.data, s.indexes[..j] + [fresh0] + s.indexes[j..]) && WellNamed(t.indexes)
    ensures Sound(f, t, v.(watches := v.watches[IndexName(fields) := Watch(fields, LoadCrowd(f, fields, v.data))]))
  {
    hide Good, Join, WellNamed, LoadCrowd, Watched;
    var name := IndexName(fields);
    var v' := v.(watches := v.watches[name := Watch(fields, LoadCrowd(f, fields, v.data))]);
    forall i | 0 <= i < |t.indexes| ensures Watched(f, v', t.indexes[i]) {
      if i != j {
        var k := if i < j then i else i - 1;
        assert t.indexes[i] == s.indexes[k];
        WatchedAt(f, s, v, k);
      }
      WatchedIs(f, v', t.indexes[i]);
    }
    assert fresh0 in t.indexes;
    forall n | n in v'.watches ensures HasName(t.indexes, n) {
      if n != name {
        assert HasName(s.indexes, n);
        var ix :| ix in s.indexes && ix.name == n;
        assert s.indexes == s.indexes[..j] + s.indexes[j..];
        assert ix in t.indexes;
      } else {
        assert HasName(t.indexes, n);
      }
    }
  }

  /**
   From exact indexes, a step that leaves every index one leaf leads to exact ones if and only if it is fine; a
   put never throws.
   */
  lemma StepIff(f: Format, s: State, v: View, op: Op)
    requires Sound(f, s, v) && Listed(s.data, op) && FlatState(Step(f, s, op))
    ensures if Fine(f, v, op) then Sound(f, Step(f, s, op), ViewStep(f, v, op)) else !ExactState(f, Step(f, s, op))
    ensures op.Put? ==> PutStep(f, s, op.id, op.doc).1
  {
    hide Sound, Fine, ViewStep, ExactState, PutStep, DelStep, CreateStep, FlatState;
    match op {
      case Put(id, doc) => PutIff(f, s, v, id, doc);
      case Del(id) => DelIff(f, s, v, id);
      case CreateIndex(fields, order) => CreateIff(f, s, v, fields, order);
    }
  }

  // ---------- runs ----------

  /** The indexes are exact before and after every step. */
  ghost predicate AlwaysExact(f: Format, s: State, ops: seq<Op>)
    decreases ops
  {
    ExactState(f, s) && (ops == [] || AlwaysExact(f, Step(f, s, ops[0]), ops[1..]))
  }

  ghost function ViewRun(f: Format, v: View, ops: seq<Op>): View
    decreases ops
  {
    if ops == [] then v else ViewRun(f, ViewStep(f, v, ops[0]), ops[1..])
  }

  lemma {:induction false} RunIff(f: Format, s: State, v: View, ops: seq<Op>)
    requires Sound(f, s, v) && AllListed(f, s, ops) && AllFlat(f, s, ops)
    ensures AlwaysExact(f, s, ops) <==> AllFine(f, v, ops)
    ensures AllFine(f, v, ops) ==> Sound(f, Run(f, s, ops), ViewRun(f, v, ops))
    decreases ops
  {
    hide Sound, Step, ViewStep, Fine, ExactState, Listed, FlatState;
    SoundExact(f, s, v);
    if ops != [] {
      StepIff(f, s, v, ops[0]);
      if Fine(f, v, ops[0]) {
        RunIff(f, Step(f, s, ops[0]), ViewStep(f, v, ops[0]), ops[1..]);
      } else {
        NotAlways(f, Step(f, s, ops[0]), ops[1..]);
      }
    }
  }

  lemma NotAlways(f: Format, s: State, ops: seq<Op>)
    requires !ExactState(f, s)
    ensures !AlwaysExact(f, s, ops)
  {
    hide ExactState;
  }

  lemma EmptySound(f: Format)
    ensures Sound(f, EMPTY, NOTHING)
  {
  }

  /**
   Over every run from an empty collection that leaves every index one leaf, or over maps, looking up keys gives
   exactly the live documents throughout if and only if no put or delete takes the last live document off a
   crowded key, and no document whose id holds a quote or a backslash gets a key.
   */
  lemma ExactIff(f: Format, ops: seq<Op>)
    requires AllListed(f, EMPTY, ops) && AllFlat(f, EMPTY, ops)
    ensures AlwaysExact(f, EMPTY, ops) <==> AllFine(f, NOTHING, ops)
  {
    hide AlwaysExact, AllFine, AllListed, AllFlat;
    EmptySound(f);
    RunIff(f, EMPTY, NOTHING, ops);
  }

  lemma RunSound(f: Format, ops: seq<Op>)
    requires AllListed(f, EMPTY, ops) && AllFlat(f, EMPTY, ops) && AllFine(f, NOTHING, ops)
    ensures Sound(f, Run(f, EMPTY, ops), ViewRun(f, NOTHING, ops))
  {
    hide AlwaysExact, AllFine, AllListed, AllFlat, Sound, Run, ViewRun;
    EmptySound(f);
    RunIff(f, EMPTY, NOTHING, ops);
  }

  /**
   After such a run, looking up a nonempty key in any index gives, without repeats, exactly the ids of the live
   documents with that key: never the id of a tombstone.
   */
  lemma LookupExact(f: Format, ops: seq<Op>, ix: Index, key: string)
    requires AllListed(f, EMPTY, ops) && AllFlat(f, EMPTY, ops) && AllFine(f, NOTHING, ops)
    requires ix in Run(f, EMPTY, ops).indexes && key != ""
    ensures ExactAt(f, Run(f, EMPTY, ops).data, ix, key)
  {
    hide AllFine, AllListed, AllFlat, Sound, Run, ViewRun, ExactAt;
    RunSound(f, ops);
    SoundExact(f, Run(f, EMPTY, ops), ViewRun(f, NOTHING, ops));
    assert ExactIndex(f, Run(f, EMPTY, ops).data, ix);
  }

  // ---------- over a map ----------

  ghost predicate Maps(s: State) { forall ix <- s.indexes :: ix.tree.Mapped? }

  lemma UpdateMap(f: Format, ix: Index, id: string, doc: Document)
    requires ix.tree.Mapped?
    ensures Update(f, ix, id, doc).Some? ==> Update(f, ix, id, doc).value.tree.Mapped?
    ensures Remove(f, ix, id, doc).tree.Mapped?
  {
    hide J.Show, CompositeKey, ItemsAt, SearchFor, ReadableAt, Without, AllStrings;
  }

  lemma {:induction false} UpdateAllMaps(f: Format, ixs: seq<Index>, id: string, doc: Document)
    requires forall ix <- ixs :: ix.tree.Mapped?
    ensures forall ix <- UpdateAll(f, ixs, id, doc).0 :: ix.tree.Mapped?
    ensures forall ix <- RemoveAll(f, ixs, id, doc) :: ix.tree.Mapped?
  {
    hide Update, Remove;
    if ixs != [] {
      UpdateMap(f, ixs[0], id, doc);
      UpdateAllMaps(f, ixs[1..], id, doc);
      assert ixs == [ixs[0]] + ixs[1..];
    }
  }

  lemma {:induction false} LoadMaps(f: Format, data: Docs, ixs: seq<Index>, ids: seq<string>)
    requires forall ix <- ixs :: ix.tree.Mapped?
    ensures forall ix <- Load(f, data, ixs, ids).0 :: ix.tree.Mapped?
    decreases ids
  {
    hide UpdateAll;
    if ids != [] {
      if IsLive(data, ids[0]) {
        UpdateAllMaps(f, ixs, ids[0], data[ids[0]].value);
        LoadMaps(f, data, UpdateAll(f, ixs, ids[0], data[ids[0]].value).0, ids[1..]);
      } else {
        LoadMaps(f, data, ixs, ids[1..]);
      }
    }
  }

  lemma StepMaps(f: Format, s: State, op: Op)
    requires f.inserts.Replacing? && Maps(s)
    ensures Maps(Step(f, s, op)) && FlatState(Step(f, s, op))
  {
    hide UpdateAll, RemoveAll, Load, Join, AddIndex, HasName;
    match op {
      case Put(id, doc) =>
        var cleared := if IsLive(s.data, id) then RemoveAll(f, s.indexes, id, s.data[id].value) else s.indexes;
        if IsLive(s.data, id) {
          UpdateAllMaps(f, s.indexes, id, s.data[id].value);
        }
        UpdateAllMaps(f, cleared, id, doc);
      case Del(id) =>
        if IsLive(s.data, id) {
          UpdateAllMaps(f, s.indexes, id, s.data[id].value);
        }
      case CreateIndex(fields, order) =>
        var ix := Index(IndexName(fields), fields, Empty(f.inserts));
        AddIndexHas(s.indexes, ix);
        LoadMaps(f, s.data, if HasName(s.indexes, ix.name) then s.indexes else AddIndex(s.indexes, ix), order);
    }
  }

  /** Over maps every run leaves room. */
  lemma {:induction false} MapsFlat(f: Format, s: State, ops: seq<Op>)
    requires f.inserts.Replacing? && Maps(s)
    ensures AllFlat(f, s, ops)
    decreases ops
  {
    hide Maps, Step, FlatState;
    if ops != [] {
      StepMaps(f, s, ops[0]);
      MapsFlat(f, Step(f, s, ops[0]), ops[1..]);
    }
  }

  predicate PlainPut(op: Op) { op.Put? ==> JL.Plain(op.id) }

  /** No key is crowded, and all ids are plain. */
  ghost predicate Calm(v: View) {
    (forall id <- v.data :: JL.Plain(id)) && forall n <- v.watches :: v.watches[n].crowd == iset{}
  }

  lemma CalmStep(f: Format, v: View, op: Op)
    requires f.inserts.Replacing? && Calm(v) && PlainPut(op)
    ensures Fine(f, v, op) && Calm(ViewStep(f, v, op))
  {
    hide CompositeKey, JL.Plain;
  }

  lemma {:induction false} CalmRun(f: Format, v: View, ops: seq<Op>)
    requires f.inserts.Replacing? && Calm(v) && forall op <- ops :: PlainPut(op)
    ensures AllFine(f, v, ops)
    decreases ops
  {
    hide Calm, Fine, ViewStep, PlainPut;
    if ops != [] {
      CalmStep(f, v, ops[0]);
      CalmRun(f, ViewStep(f, v, ops[0]), ops[1..]);
    }
  }

  /** Over maps whose insert replaces, the equivalence holds for every run, and every run over plain ids is exact. */
  lemma ReplacingExact(f: Format, ops: seq<Op>)
    requires f.inserts.Replacing? && AllListed(f, EMPTY, ops)
    ensures AlwaysExact(f, EMPTY, ops) <==> AllFine(f, NOTHING, ops)
    ensures (forall op <- ops :: PlainPut(op)) ==> AlwaysExact(f, EMPTY, ops)
  {
    hide AlwaysExact, AllFine, AllListed, AllFlat, PlainPut;
    assert Calm(NOTHING) && Maps(EMPTY);
    MapsFlat(f, EMPTY, ops);
    ExactIff(f, ops);
    if forall op <- ops :: PlainPut(op) {
      CalmRun(f, NOTHING, ops);
    }
  }
}
