/**
 Distinct keys in a root over leaves: until an inner node is split, every key is read with the value inserted
 for it.
 */
module TwoLevelLaws {
  import opened Options
  import opened TextOrder
  import opened ValueTree

  // ---------- all entries, in order ----------

  function Weave(root: Entries, leaves: seq<Entries>): Entries
    requires |leaves| == |root| + 1
  {
    if root == [] then leaves[0] else leaves[0] + ([root[0]] + Weave(root[1..], leaves[1..]))
  }

  function All(t: Tree): Entries {
    match t
    case OneLeaf(es) => es
    case TwoLevels(root, leaves) => Weave(root, leaves)
    case _ => []
  }

  /** What stands before and behind leaf number `i`. */
  function Front(root: Entries, leaves: seq<Entries>, i: nat): Entries
    requires |leaves| == |root| + 1 && i < |leaves|
  {
    if i == 0 then [] else leaves[0] + ([root[0]] + Front(root[1..], leaves[1..], i - 1))
  }

  function Back(root: Entries, leaves: seq<Entries>, i: nat): Entries
    requires |leaves| == |root| + 1 && i < |leaves|
  {
    if i == |root| then [] else [root[i]] + Weave(root[i + 1..], leaves[i + 1..])
  }

  lemma {:induction false} WeaveIs(root: Entries, leaves: seq<Entries>, i: nat)
    requires |leaves| == |root| + 1 && i < |leaves|
    ensures Weave(root, leaves) == Front(root, leaves, i) + leaves[i] + Back(root, leaves, i)
    decreases i
  {
    if i == 0 {
      assert root != [] ==> root[1..] == root[0 + 1..] && leaves[1..] == leaves[0 + 1..];
      assert [] + leaves[0] + Back(root, leaves, 0) == leaves[0] + Back(root, leaves, 0);
      assert leaves[0] + [] == leaves[0];
    } else {
      hide Back;
      WeaveIs(root[1..], leaves[1..], i - 1);
      BackTail(root, leaves, i);
      var f, b := Front(root[1..], leaves[1..], i - 1), Back(root, leaves, i);
      assert leaves[0] + ([root[0]] + (f + leaves[i] + b)) == (leaves[0] + ([root[0]] + f)) + leaves[i] + b;
    }
  }

  lemma BackTail(root: Entries, leaves: seq<Entries>, i: nat)
    requires |leaves| == |root| + 1 && 0 < i < |leaves|
    ensures Back(root, leaves, i) == Back(root[1..], leaves[1..], i - 1)
  {
    if i < |root| {
      assert root[1..][i..] == root[i + 1..] && leaves[1..][i..] == leaves[i + 1..];
    }
  }

  /** What stands around a leaf does not depend on it. */
  lemma {:induction false} SameAround(root: Entries, leaves: seq<Entries>, i: nat, leaf: Entries)
    requires |leaves| == |root| + 1 && i < |leaves|
    ensures Front(root, leaves[i := leaf], i) == Front(root, leaves, i) && Back(root, leaves[i := leaf], i) == Back(root, leaves, i)
    decreases i
  {
    if i < |root| {
      assert leaves[i := leaf][i + 1..] == leaves[i + 1..];
    }
    if i > 0 {
      assert leaves[i := leaf][1..] == leaves[1..][i - 1 := leaf];
      SameAround(root[1..], leaves[1..], i - 1, leaf);
    }
  }

  lemma WeaveAt(root: Entries, leaves: seq<Entries>, i: nat, leaf: Entries)
    requires |leaves| == |root| + 1 && i < |leaves|
    ensures Weave(root, leaves[i := leaf]) == Front(root, leaves, i) + leaf + Back(root, leaves, i)
    ensures Weave(root, leaves) == Front(root, leaves, i) + leaves[i] + Back(root, leaves, i)
  {
    hide Weave, Front, Back;
    WeaveIs(root, leaves, i);
    WeaveIs(root, leaves[i := leaf], i);
    SameAround(root, leaves, i, leaf);
  }

  /** Splitting a leaf moves nothing out of order. */
  lemma {:induction false} SplitWeave(root: Entries, leaves: seq<Entries>, i: nat)
    requires |leaves| == |root| + 1 && i < |leaves| && |leaves[i]| == ROOM
    ensures var (r, l) := SplitChild(root, leaves, i); Weave(r, l) == Weave(root, leaves)
    decreases i
  {
    var (r, l) := SplitChild(root, leaves, i);
    if i == 0 {
      var leaf := leaves[0];
      assert r[1..] == root && l[1..] == [leaf[ORDER..]] + leaves[1..];
      var tail := if root == [] then [] else [root[0]] + Weave(root[1..], leaves[1..]);
      assert l[1..][1..] == leaves[1..];
      assert Weave(root, l[1..]) == leaf[ORDER..] + tail;
      assert Weave(root, leaves) == leaf + tail;
      assert leaf == leaf[..ORDER - 1] + [leaf[ORDER - 1]] + leaf[ORDER..];
      assert leaf[..ORDER - 1] + ([leaf[ORDER - 1]] + (leaf[ORDER..] + tail)) == leaf + tail;
    } else {
      SplitWeave(root[1..], leaves[1..], i - 1);
      var (r1, l1) := SplitChild(root[1..], leaves[1..], i - 1);
      assert r[1..] == r1 && l[1..] == l1;
    }
  }

  // ---------- ascending entries ----------

  /** Keys ascend, none twice. */
  ghost predicate Rising(es: Entries) { forall i, j :: 0 <= i < j < |es| ==> Less(es[i].key, es[j].key) }

  lemma BoundPart(a: Entries, leaf: Entries, b: Entries, key: string)
    requires (forall e <- a :: Less(e.key, key)) && (b != [] ==> !Less(b[0].key, key))
    ensures Bound(a + leaf + b, key) == |a| + Bound(leaf, key)
    ensures forall value :: a + Added(leaf, key, value) + b == Added(a + leaf + b, key, value)
  {
    var es, i := a + leaf + b, Bound(leaf, key);
    forall j | 0 <= j < |a| + i ensures Less(es[j].key, key) {
      if j < |a| {
        assert es[j] == a[j] && a[j] in a;
      } else {
        assert es[j] == leaf[j - |a|];
      }
    }
    BoundIs(es, key, |a| + i);
    assert es[..|a| + i] == a + leaf[..i] && es[|a| + i..] == leaf[i..] + b;
    forall value ensures a + Added(leaf, key, value) + b == Added(es, key, value) {
      Regroup(a, leaf[..i], Entry(key, value), leaf[i..], b);
    }
  }

  lemma Regroup(a: Entries, l: Entries, e: Entry, r: Entries, b: Entries)
    ensures a + (l + [e] + r) + b == (a + l) + [e] + (r + b)
  {
  }

  /** Where the key belongs, everything before is smaller and nothing right behind is. */
  lemma BoundAround(root: Entries, leaves: seq<Entries>, key: string)
    requires |leaves| == |root| + 1 && Rising(Weave(root, leaves))
    ensures var i := Bound(root, key);
            && (forall e <- Front(root, leaves, i) :: Less(e.key, key))
            && (Back(root, leaves, i) != [] ==> !Less(Back(root, leaves, i)[0].key, key))
  {
    var i := Bound(root, key);
    WeaveAt(root, leaves, i, leaves[i]);
    if i > 0 {
      var f := Front(root, leaves, i);
      FrontLast(root, leaves, i);
      forall e | e in f ensures Less(e.key, key) {
        var j :| 0 <= j < |f| && f[j] == e;
        assert Weave(root, leaves)[j] == e && Weave(root, leaves)[|f| - 1] == root[i - 1];
        if j < |f| - 1 {
          LessTrans(e.key, root[i - 1].key, key);
        }
      }
    }
  }

  lemma {:induction false} FrontLast(root: Entries, leaves: seq<Entries>, i: nat)
    requires |leaves| == |root| + 1 && 0 < i < |leaves|
    ensures Front(root, leaves, i) != [] && Front(root, leaves, i)[|Front(root, leaves, i)| - 1] == root[i - 1]
    decreases i
  {
    if i > 1 {
      FrontLast(root[1..], leaves[1..], i - 1);
    } else {
      assert Front(root[1..], leaves[1..], 0) == [];
    }
  }

  // ---------- insert and find ----------

  lemma InsertedWeave(root: Entries, leaves: seq<Entries>, key: string, value: string)
    requires |leaves| == |root| + 1 && Rising(Weave(root, leaves))
    ensures All(InsertNonFull(root, leaves, key, value)) == Added(Weave(root, leaves), key, value)
  {
    hide Weave, Front, Back, Added, Rising;
    var i := Bound(root, key);
    if |leaves[i]| == ROOM {
      var (r, l) := SplitChild(root, leaves, i);
      SplitWeave(root, leaves, i);
      var j := if Less(r[i].key, key) then i + 1 else i;
      BoundIs(r, key, j);
      PlacedWeave(r, l, key, value);
    } else {
      PlacedWeave(root, leaves, key, value);
    }
  }

  lemma PlacedWeave(root: Entries, leaves: seq<Entries>, key: string, value: string)
    requires |leaves| == |root| + 1 && Rising(Weave(root, leaves))
    ensures var i := Bound(root, key);
            Weave(root, leaves[i := Added(leaves[i], key, value)]) == Added(Weave(root, leaves), key, value)
  {
    hide Weave, Front, Back, Added, Rising;
    var i := Bound(root, key);
    WeaveAt(root, leaves, i, Added(leaves[i], key, value));
    BoundAround(root, leaves, key);
    BoundPart(Front(root, leaves, i), leaves[i], Back(root, leaves, i), key);
  }

  /** Every insert that stays within two levels adds its entry in order. */
  lemma InsertAdds(t: Tree, key: string, value: string)
    requires !t.Mapped? && Rising(All(t)) && Insert(t, key, value) != Beyond
    ensures All(Insert(t, key, value)) == Added(All(t), key, value)
  {
    hide Weave, Added, InsertNonFull, SplitChild, Rising;
    match t {
      case OneLeaf(es) =>
        if |es| == ROOM {
          SplitWeave([], [es], 0);
          assert Weave([], [es]) == es by { OneWeave(es); }
          var (root, leaves) := SplitChild([], [es], 0);
          InsertedWeave(root, leaves, key, value);
        }
      case TwoLevels(root, leaves) => InsertedWeave(root, leaves, key, value);
      case Beyond =>
    }
  }

  lemma OneWeave(es: Entries)
    ensures Weave([], [es]) == es
  {
  }

  lemma FindReads(t: Tree, key: string)
    requires (t.OneLeaf? || t.TwoLevels?) && Rising(All(t))
    ensures Find(t, key) == Read(All(t), key)
  {
    hide Weave, Front, Rising;
    if t.TwoLevels? {
      var i := Bound(t.root, key);
      var leaf, f, b := t.leaves[i], Front(t.root, t.leaves, i), Back(t.root, t.leaves, i);
      WeaveAt(t.root, t.leaves, i, leaf);
      BoundAround(t.root, t.leaves, key);
      BoundPart(f, leaf, b, key);
      if i < |t.root| && t.root[i].key == key {
        RisingPart(f, leaf, b, key);
      }
    }
  }

  lemma RisingPart(f: Entries, leaf: Entries, b: Entries, key: string)
    requires Rising(f + leaf + b) && b != [] && b[0].key == key
    ensures Bound(leaf, key) == |leaf|
  {
    var es := f + leaf + b;
    forall j | 0 <= j < |leaf| ensures Less(leaf[j].key, key) {
      assert es[|f| + j] == leaf[j] && es[|f| + |leaf|] == b[0];
    }
    BoundIs(leaf, key, |leaf|);
  }

  lemma AddedRising(es: Entries, key: string, value: string)
    requires Rising(es) && forall e <- es :: e.key != key
    ensures Rising(Added(es, key, value))
    ensures forall e :: e in Added(es, key, value) <==> e in es || e == Entry(key, value)
  {
    hide Rising;
    var i := Bound(es, key);
    assert Rising(es[..i]) && Rising(es[i..]) by { RisingCut(es, i); }
    if i < |es| {
      assert es[i] in es;
      LessTotal(es[i].key, key);
    }
    RisingJoin(es[..i], Entry(key, value), es[i..]);
    assert es == es[..i] + es[i..];
  }

  lemma RisingCut(es: Entries, i: nat)
    requires Rising(es) && i <= |es|
    ensures Rising(es[..i]) && Rising(es[i..])
  {
  }

  lemma RisingJoin(a: Entries, e: Entry, b: Entries)
    requires Rising(a) && Rising(b) && (forall j | 0 <= j < |a| :: Less(a[j].key, e.key)) && (b != [] ==> Less(e.key, b[0].key))
    ensures Rising(a + [e] + b)
  {
    var r := a + [e] + b;
    forall j, k | 0 <= j < k < |r| ensures Less(r[j].key, r[k].key) {
      var k' := k - |a| - 1;
      if k' > 0 {
        LessTrans(e.key, b[0].key, b[k'].key);
      }
      if j < |a| < k {
        LessTrans(a[j].key, e.key, b[k'].key);
      }
    }
  }

  lemma ReadIs(es: Entries, key: string)
    requires Rising(es)
    ensures (forall e <- es :: e.key != key) ==> Read(es, key) == None
    ensures forall e <- es :: e.key == key ==> Read(es, key) == Some(e.value)
  {
    var i := Bound(es, key);
    assert i < |es| ==> es[i] in es;
    LessIrreflexive(key);
    forall e | e in es && e.key == key ensures Read(es, key) == Some(e.value) {
      var j :| 0 <= j < |es| && es[j] == e;
      BoundIs(es, key, j);
    }
  }

  // ---------- runs ----------

  function InsertAll(t: Tree, es: Entries): Tree {
    if es == [] then t else Insert(InsertAll(t, es[..|es| - 1]), es[|es| - 1].key, es[|es| - 1].value)
  }

  ghost predicate Distinct(es: Entries) { forall i, j :: 0 <= i < j < |es| ==> es[i].key != es[j].key }

  /** The tree after distinct inserts that stay within two levels has exactly their entries, in order. */
  lemma {:induction false} InsertedAll(es: Entries)
    requires Distinct(es) && InsertAll(OneLeaf([]), es) != Beyond
    ensures var t := InsertAll(OneLeaf([]), es);
            (t.OneLeaf? || t.TwoLevels?) && Rising(All(t)) && |All(t)| == |es| && forall e :: e in All(t) <==> e in es
  {
    hide Insert, Added, All;
    if es == [] {
      assert All(OneLeaf([])) == [] by { NoEntries(); }
    } else {
      var before, last := es[..|es| - 1], es[|es| - 1];
      var t := InsertAll(OneLeaf([]), before);
      assert t != Beyond by { BeyondStays(last.key, last.value); }
      InsertedAll(before);
      InsertAdds(t, last.key, last.value);
      assert es == before + [last];
      forall e | e in All(t) ensures e.key != last.key {
        assert e in before;
      }
      AddedRising(All(t), last.key, last.value);
      InsertKind(t, last.key, last.value);
    }
  }

  lemma NoEntries()
    ensures All(OneLeaf([])) == []
  {
  }

  lemma BeyondStays(key: string, value: string)
    ensures Insert(Beyond, key, value) == Beyond
  {
  }

  lemma InsertKind(t: Tree, key: string, value: string)
    ensures Insert(t, key, value).Mapped? <==> t.Mapped?
  {
    hide InsertNonFull, SplitChild;
  }

  /**
   After inserts of distinct keys that stay within two levels, every key is found with its value and no other
   key is found.
   */
  lemma DistinctFound(es: Entries, key: string)
    requires Distinct(es) && InsertAll(OneLeaf([]), es) != Beyond
    ensures var t := InsertAll(OneLeaf([]), es);
            && ((forall e <- es :: e.key != key) ==> Find(t, key) == None)
            && forall e <- es :: e.key == key ==> Find(t, key) == Some(e.value)
  {
    hide Find, All, Read, InsertAll;
    var t := InsertAll(OneLeaf([]), es);
    InsertedAll(es);
    FindReads(t, key);
    ReadIs(All(t), key);
  }

  // ---------- how many fit ----------

  /** Every leaf of a root is at least half full. */
  predicate Half(t: Tree) { t.TwoLevels? ==> forall leaf <- t.leaves :: |leaf| >= ORDER - 1 }

  lemma InsertHalf(t: Tree, key: string, value: string)
    requires Half(t)
    ensures Half(Insert(t, key, value))
  {
    hide Added, Bound;
    match t {
      case OneLeaf(es) =>
        if |es| == ROOM {
          var (root, leaves) := SplitChild([], [es], 0);
          assert leaves == [es[..ORDER - 1], es[ORDER..]];
          HalfNonFull(root, leaves, key, value);
        }
      case TwoLevels(root, leaves) =>
        if |root| != ROOM {
          HalfNonFull(root, leaves, key, value);
        }
      case _ =>
    }
  }

  lemma HalfNonFull(root: Entries, leaves: seq<Entries>, key: string, value: string)
    requires |leaves| == |root| + 1 && forall leaf <- leaves :: |leaf| >= ORDER - 1
    ensures Half(InsertNonFull(root, leaves, key, value))
  {
    hide Added;
    var i := Bound(root, key);
    if |leaves[i]| == ROOM {
      var (r, l) := SplitChild(root, leaves, i);
      assert forall leaf <- l :: |leaf| >= ORDER - 1;
      var j := if Less(r[i].key, key) then i + 1 else i;
      SwapHalf(l, j, Added(l[j], key, value));
    } else {
      SwapHalf(leaves, i, Added(leaves[i], key, value));
    }
  }

  lemma SwapHalf(leaves: seq<Entries>, i: nat, leaf: Entries)
    requires i < |leaves| && |leaf| >= ORDER - 1 && forall leaf <- leaves :: |leaf| >= ORDER - 1
    ensures forall x <- leaves[i := leaf] :: |x| >= ORDER - 1
  {
  }

  lemma {:induction false} WeaveHalf(root: Entries, leaves: seq<Entries>)
    requires |leaves| == |root| + 1 && forall leaf <- leaves :: |leaf| >= ORDER - 1
    ensures |Weave(root, leaves)| >= ORDER - 1 + |root| * ORDER
  {
    assert leaves[0] in leaves;
    if root != [] {
      WeaveHalf(root[1..], leaves[1..]);
    }
  }

  /** A third level takes two hundred keys. */
  const TWO_LEVELS: nat := ORDER - 1 + ROOM * ORDER

  lemma {:induction false} DistinctFit(es: Entries)
    requires Distinct(es) && |es| <= TWO_LEVELS
    ensures InsertAll(OneLeaf([]), es) != Beyond && Half(InsertAll(OneLeaf([]), es))
  {
    hide Half;
    if es == [] {
      assert Half(OneLeaf([])) by { LeafHalf(); }
    } else {
      var before, last := es[..|es| - 1], es[|es| - 1];
      var t := InsertAll(OneLeaf([]), before);
      DistinctFit(before);
      InsertedAll(before);
      if t.TwoLevels? {
        assert forall leaf <- t.leaves :: |leaf| >= ORDER - 1 by { HalfLeaves(t); }
        WeaveHalf(t.root, t.leaves);
        assert |t.root| < ROOM;
      }
      InsertHalf(t, last.key, last.value);
    }
  }

  lemma LeafHalf()
    ensures Half(OneLeaf([]))
  {
  }

  lemma HalfLeaves(t: Tree)
    requires t.TwoLevels? && Half(t)
    ensures forall leaf <- t.leaves :: |leaf| >= ORDER - 1
  {
  }
}
