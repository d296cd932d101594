/**
 The key-level meaning of `BTree` (tissdb/storage/native_b_tree.cpp) as operations on tree values.
 A `unique_ptr` tree owns its children, so a node is worth the tree below it. Every operation of
 the source is given here as a function from trees to trees; `BTreeHeap.dfy` refines each of them
 in place, and `BTreeLaws.dfy` proves what they promise.
 */
module BTreeSpec {

  datatype Tree = Tree(leaf: bool, keys: seq<int>, kids: seq<Tree>)

  // ---------- in-order contents ----------

  /** Keys `ks` each followed by the matching run of `ss`. */
  ghost function Right(ks: seq<int>, ss: seq<seq<int>>): seq<int>
    requires |ks| == |ss|
  {
    if ks == [] then [] else [ks[0]] + ss[0] + Right(ks[1..], ss[1..])
  }

  /** Keys `ks` each preceded by the matching run of `ss`. */
  ghost function Left(ks: seq<int>, ss: seq<seq<int>>): seq<int>
    requires |ks| == |ss|
  {
    if ks == [] then [] else ss[0] + [ks[0]] + Left(ks[1..], ss[1..])
  }

  ghost function Flats(ts: seq<Tree>): (r: seq<seq<int>>)
    ensures |r| == |ts|
    ensures forall i :: 0 <= i < |ts| ==> r[i] == Flat(ts[i])
  {
    seq(|ts|, i requires 0 <= i < |ts| => Flat(ts[i]))
  }

  /** The keys of a tree from left to right. */
  ghost function Flat(n: Tree): seq<int> {
    if n.leaf || |n.kids| != |n.keys| + 1 then n.keys
    else Flat(n.kids[0]) + Right(n.keys, Flats(n.kids[1..]))
  }

  ghost predicate Sorted(s: seq<int>) {
    forall i, j :: 0 <= i < j < |s| ==> s[i] <= s[j]
  }

  // ---------- shape ----------

  /** Height `h`, at most 2t-1 keys everywhere, at least t-1 below the root of this subtree. */
  ghost predicate Shape(t: nat, h: nat, n: Tree)
    decreases h
  {
    && (n.leaf <==> h == 0)
    && |n.keys| <= 2 * t - 1
    && if h == 0 then n.kids == []
       else |n.kids| == |n.keys| + 1
            && forall i :: 0 <= i < |n.kids| ==> Shape(t, h - 1, n.kids[i]) && t - 1 <= |n.kids[i].keys|
  }

  ghost predicate RootShape(t: nat, h: nat, n: Tree) {
    2 <= t && Shape(t, h, n) && (0 < h ==> 1 <= |n.keys|)
  }

  ghost predicate KidShape(t: nat, h: nat, n: Tree)
  {
    Shape(t, h, n) && t - 1 <= |n.keys|
  }

  // ---------- insertion ----------

  /** `std::lower_bound`: how many leading keys are smaller than `k`. */
  function LowerBound(ks: seq<int>, k: int): (i: nat)
    ensures i <= |ks|
    ensures forall j :: 0 <= j < i ==> ks[j] < k
    ensures i < |ks| ==> k <= ks[i]
  {
    if ks == [] || k <= ks[0] then 0 else 1 + LowerBound(ks[1..], k)
  }

  /** The two halves of a full node around its median key. */
  function LowerHalf(t: nat, c: Tree): Tree
    requires 1 <= t && |c.keys| == 2 * t - 1 && (!c.leaf ==> |c.kids| == 2 * t)
  {
    Tree(c.leaf, c.keys[..t - 1], if c.leaf then c.kids else c.kids[..t])
  }

  function UpperHalf(t: nat, c: Tree): Tree
    requires 1 <= t && |c.keys| == 2 * t - 1 && (!c.leaf ==> |c.kids| == 2 * t)
  {
    Tree(c.leaf, c.keys[t..], if c.leaf then [] else c.kids[t..])
  }

  function SplitChild(t: nat, p: Tree, i: nat): Tree
    requires 1 <= t && i <= |p.keys| && |p.kids| == |p.keys| + 1
    requires |p.kids[i].keys| == 2 * t - 1
    requires !p.kids[i].leaf ==> |p.kids[i].kids| == 2 * t
  {
    var c := p.kids[i];
    Tree(p.leaf,
         p.keys[..i] + [c.keys[t - 1]] + p.keys[i..],
         p.kids[..i] + [LowerHalf(t, c), UpperHalf(t, c)] + p.kids[i + 1..])
  }

  ghost function InsertNonFull(t: nat, h: nat, n: Tree, k: int): (r: Tree)
    requires 2 <= t && Shape(t, h, n) && |n.keys| < 2 * t - 1
    ensures Shape(t, h, r) && |n.keys| <= |r.keys| <= |n.keys| + 1
    decreases h, 1
  {
    var i := LowerBound(n.keys, k);
    if h == 0 then Tree(true, n.keys[..i] + [k] + n.keys[i..], n.kids)
    else if |n.kids[i].keys| == 2 * t - 1 then
      SplitShape(t, h, n, i);
      var n' := SplitChild(t, n, i);
      InsertBelow(t, h, n', if k > n'.keys[i] then i + 1 else i, k)
    else
      assert KidShape(t, h - 1, n.kids[i]);
      InsertBelow(t, h, n, i, k)
  }

  ghost function InsertBelow(t: nat, h: nat, n: Tree, j: nat, k: int): (r: Tree)
    requires 2 <= t && 0 < h && Shape(t, h, n) && j <= |n.keys| && |n.kids[j].keys| < 2 * t - 1
    ensures Shape(t, h, r) && |r.keys| == |n.keys|
    decreases h, 0
  {
    Tree(false, n.keys, n.kids[j := InsertNonFull(t, h - 1, n.kids[j], k)])
  }

  lemma SplitShape(t: nat, h: nat, p: Tree, i: nat)
    requires 2 <= t && 0 < h && Shape(t, h, p) && |p.keys| < 2 * t - 1
    requires i <= |p.keys| && |p.kids[i].keys| == 2 * t - 1
    ensures KidShape(t, h - 1, p.kids[i])
    ensures Shape(t, h, SplitChild(t, p, i))
    ensures |SplitChild(t, p, i).keys| == |p.keys| + 1 && |SplitChild(t, p, i).kids| == |p.kids| + 1
    ensures |SplitChild(t, p, i).kids[i].keys| == t - 1 == |SplitChild(t, p, i).kids[i + 1].keys|
  {
    var c := p.kids[i];
    assert KidShape(t, h - 1, c);
    assert KidShape(t, h - 1, LowerHalf(t, c));
    assert KidShape(t, h - 1, UpperHalf(t, c));
  }

  /** The height once `insert` has split a full root under a new one. */
  ghost function InsertHeight(t: nat, h: nat, n: Tree): nat {
    if |n.keys| == 2 * t - 1 then h + 1 else h
  }

  /** A full root becomes the two halves below a new one. */
  ghost function Grown(t: nat, h: nat, n: Tree): (r: Tree)
    requires RootShape(t, h, n) && |n.keys| == 2 * t - 1
    ensures Shape(t, h + 1, r) && |r.keys| == 1
  {
    GrownShape(t, h, n);
    SplitChild(t, Tree(false, [], [n]), 0)
  }

  lemma GrownShape(t: nat, h: nat, n: Tree)
    requires RootShape(t, h, n) && |n.keys| == 2 * t - 1
    ensures !n.leaf ==> |n.kids| == 2 * t
    ensures Shape(t, h + 1, SplitChild(t, Tree(false, [], [n]), 0))
  {
    var p := Tree(false, [], [n]);
    assert Shape(t, h + 1, p);
    SplitShape(t, h + 1, p, 0);
  }

  ghost function Insert(t: nat, h: nat, n: Tree, k: int): (r: Tree)
    requires RootShape(t, h, n)
    ensures RootShape(t, InsertHeight(t, h, n), r)
  {
    if |n.keys| == 2 * t - 1 then InsertNonFull(t, h + 1, Grown(t, h, n), k) else InsertNonFull(t, h, n, k)
  }

  // ---------- deletion ----------

  ghost predicate Whole(n: Tree) {
    if n.leaf then n.kids == [] else |n.kids| == |n.keys| + 1
  }

  /** Two nodes of one kind on either side of `keys[i]`. */
  ghost predicate Adjacent(n: Tree, i: nat) {
    && !n.leaf && i < |n.keys| && |n.kids| == |n.keys| + 1
    && Whole(n.kids[i]) && Whole(n.kids[i + 1]) && n.kids[i].leaf == n.kids[i + 1].leaf
  }

  /** `s` without its last key and what hangs behind it. */
  ghost function WithoutLast(s: Tree): Tree
    requires Whole(s) && s.keys != []
  {
    Tree(s.leaf, s.keys[..|s.keys| - 1], if s.leaf then [] else s.kids[..|s.keys|])
  }

  ghost function WithoutFirst(s: Tree): Tree
    requires Whole(s) && s.keys != []
  {
    Tree(s.leaf, s.keys[1..], if s.leaf then [] else s.kids[1..])
  }

  /** `c` with the separator `k` and the last child of `s` in front. */
  ghost function Prepended(s: Tree, k: int, c: Tree): Tree
    requires Whole(s) && s.keys != []
  {
    Tree(c.leaf, [k] + c.keys, if s.leaf then [] else [s.kids[|s.keys|]] + c.kids)
  }

  ghost function Appended(c: Tree, k: int, s: Tree): Tree
    requires Whole(s) && s.keys != []
  {
    Tree(c.leaf, c.keys + [k], if s.leaf then [] else c.kids + [s.kids[0]])
  }

  /** Two nodes of one height around a key. */
  ghost function Join(a: Tree, k: int, b: Tree): Tree {
    Tree(a.leaf, a.keys + [k] + b.keys, if a.leaf then [] else a.kids + b.kids)
  }

  /** Child `i` receives its separator, which is replaced by the last key of child `i-1`. */
  ghost function BorrowFromPrev(n: Tree, i: nat): (r: Tree)
    requires 0 < i && Adjacent(n, i - 1) && n.kids[i - 1].keys != []
  {
    var c, s := n.kids[i], n.kids[i - 1];
    Tree(false, n.keys[i - 1 := s.keys[|s.keys| - 1]],
         n.kids[i - 1 := WithoutLast(s)][i := Prepended(s, n.keys[i - 1], c)])
  }

  ghost function BorrowFromNext(n: Tree, i: nat): (r: Tree)
    requires Adjacent(n, i) && n.kids[i + 1].keys != []
  {
    var c, s := n.kids[i], n.kids[i + 1];
    Tree(false, n.keys[i := s.keys[0]], n.kids[i := Appended(c, n.keys[i], s)][i + 1 := WithoutFirst(s)])
  }

  /** Children `i` and `i+1` become one around their separator. */
  ghost function Merge(n: Tree, i: nat): (r: Tree)
    requires Adjacent(n, i)
  {
    Tree(false, n.keys[..i] + n.keys[i + 1..],
         n.kids[..i] + [Join(n.kids[i], n.keys[i], n.kids[i + 1])] + n.kids[i + 2..])
  }

  lemma KidsAdjacent(t: nat, h: nat, n: Tree, i: nat)
    requires 2 <= t && 0 < h && Shape(t, h, n) && i < |n.keys|
    ensures Adjacent(n, i) && n.kids[i].keys != [] && n.kids[i + 1].keys != []
  {
    assert KidShape(t, h - 1, n.kids[i]) && KidShape(t, h - 1, n.kids[i + 1]);
  }

  /** An inner node over children that are all well shaped. */
  lemma ShapeOver(t: nat, h: nat, n: Tree)
    requires 0 < h && !n.leaf && |n.keys| <= 2 * t - 1 && |n.kids| == |n.keys| + 1
    requires forall j :: 0 <= j < |n.kids| ==> KidShape(t, h - 1, n.kids[j])
    ensures Shape(t, h, n)
  {
    forall j | 0 <= j < |n.kids| ensures Shape(t, h - 1, n.kids[j]) && t - 1 <= |n.kids[j].keys| {
      assert KidShape(t, h - 1, n.kids[j]);
    }
  }

  lemma KidsShape(t: nat, h: nat, n: Tree)
    requires 0 < h && Shape(t, h, n)
    ensures !n.leaf && |n.keys| <= 2 * t - 1 && |n.kids| == |n.keys| + 1
    ensures forall j :: 0 <= j < |n.kids| ==> KidShape(t, h - 1, n.kids[j])
  {
  }

  lemma PrevShape(t: nat, h: nat, n: Tree, i: nat)
    requires 2 <= t && 0 < h && Shape(t, h, n) && 0 < i <= |n.keys|
    requires t <= |n.kids[i - 1].keys| && |n.kids[i].keys| < t
    ensures Adjacent(n, i - 1) && n.kids[i - 1].keys != []
    ensures var r := BorrowFromPrev(n, i);
            Shape(t, h, r) && |r.keys| == |n.keys| && |r.kids[i].keys| == |n.kids[i].keys| + 1
  {
    hide Shape, KidShape;
    KidsAdjacent(t, h, n, i - 1);
    KidsShape(t, h, n);
    PrependedShape(t, h - 1, n.kids[i - 1], n.keys[i - 1], n.kids[i]);
    ShapeOver(t, h, BorrowFromPrev(n, i));
  }

  lemma PrependedShape(t: nat, h: nat, s: Tree, k: int, c: Tree)
    requires 2 <= t && KidShape(t, h, s) && KidShape(t, h, c) && t <= |s.keys| && |c.keys| < t
    ensures Whole(s) && Whole(c) && s.leaf == c.leaf && s.keys != []
    ensures KidShape(t, h, Prepended(s, k, c)) && KidShape(t, h, WithoutLast(s))
  {
  }

  lemma NextShape(t: nat, h: nat, n: Tree, i: nat)
    requires 2 <= t && 0 < h && Shape(t, h, n) && i < |n.keys|
    requires t <= |n.kids[i + 1].keys| && |n.kids[i].keys| < t
    ensures Adjacent(n, i) && n.kids[i + 1].keys != []
    ensures var r := BorrowFromNext(n, i);
            Shape(t, h, r) && |r.keys| == |n.keys| && |r.kids[i].keys| == |n.kids[i].keys| + 1
  {
    KidsAdjacent(t, h, n, i);
    KidsShape(t, h, n);
    var c, s := n.kids[i], n.kids[i + 1];
    assert KidShape(t, h - 1, c) && KidShape(t, h - 1, s);
    assert KidShape(t, h - 1, Appended(c, n.keys[i], s)) && KidShape(t, h - 1, WithoutFirst(s));
    hide Shape, KidShape;
    ShapeOver(t, h, BorrowFromNext(n, i));
  }

  lemma MergeShape(t: nat, h: nat, n: Tree, i: nat)
    requires 2 <= t && 0 < h && Shape(t, h, n) && i < |n.keys|
    requires |n.kids[i].keys| < t && |n.kids[i + 1].keys| < t
    ensures Adjacent(n, i)
    ensures var r := Merge(n, i);
            Shape(t, h, r) && |r.keys| == |n.keys| - 1 && |r.kids[i].keys| == 2 * t - 1
  {
    KidsAdjacent(t, h, n, i);
    assert KidShape(t, h - 1, n.kids[i]) && KidShape(t, h - 1, n.kids[i + 1]);
    assert KidShape(t, h - 1, Join(n.kids[i], n.keys[i], n.kids[i + 1]));
  }

  ghost predicate NeedsFill(t: nat, h: nat, n: Tree, i: nat) {
    && 2 <= t && 0 < h && Shape(t, h, n) && i <= |n.keys| && 1 <= |n.keys| && |n.kids[i].keys| < t
  }

  ghost predicate PrevLends(t: nat, n: Tree, i: nat)
    requires i <= |n.keys| < |n.kids|
  {
    i != 0 && t <= |n.kids[i - 1].keys|
  }

  ghost predicate NextLends(t: nat, n: Tree, i: nat)
    requires i <= |n.keys| < |n.kids|
  {
    i != |n.keys| && t <= |n.kids[i + 1].keys|
  }

  /** Where the child that `fill` was asked to fill ends up. */
  ghost function FilledAt(t: nat, n: Tree, i: nat): nat
    requires i <= |n.keys| < |n.kids| && 1 <= |n.keys|
  {
    if !PrevLends(t, n, i) && !NextLends(t, n, i) && i == |n.keys| then i - 1 else i
  }

  ghost function Fill(t: nat, h: nat, n: Tree, i: nat): (r: Tree)
    requires NeedsFill(t, h, n, i)
    ensures Shape(t, h, r) && |r.keys| == |n.keys| - if PrevLends(t, n, i) || NextLends(t, n, i) then 0 else 1
    ensures FilledAt(t, n, i) <= |r.keys| && t <= |r.kids[FilledAt(t, n, i)].keys|
  {
    if PrevLends(t, n, i) then
      PrevShape(t, h, n, i);
      BorrowFromPrev(n, i)
    else if NextLends(t, n, i) then
      NextShape(t, h, n, i);
      BorrowFromNext(n, i)
    else if i != |n.keys| then
      MergeShape(t, h, n, i);
      Merge(n, i)
    else
      MergeShape(t, h, n, i - 1);
      Merge(n, i - 1)
  }

  ghost function MaxKey(t: nat, h: nat, n: Tree): int
    requires 2 <= t && KidShape(t, h, n)
    decreases h
  {
    if h == 0 then n.keys[|n.keys| - 1] else MaxKey(t, h - 1, n.kids[|n.keys|])
  }

  ghost function MinKey(t: nat, h: nat, n: Tree): int
    requires 2 <= t && KidShape(t, h, n)
    decreases h
  {
    if h == 0 then n.keys[0] else MinKey(t, h - 1, n.kids[0])
  }

  /** `erase_recursive` below the root is only entered with a key to spare. */
  ghost function Erase(t: nat, h: nat, n: Tree, k: int): (r: Tree)
    requires 2 <= t && Shape(t, h, n) && (0 < h ==> 1 <= |n.keys|)
    ensures Shape(t, h, r) && |n.keys| - 1 <= |r.keys| <= |n.keys|
    decreases h, 2
  {
    var i := LowerBound(n.keys, k);
    if h == 0 then Tree(true, if i < |n.keys| && n.keys[i] == k then n.keys[..i] + n.keys[i + 1..] else n.keys, [])
    else if i < |n.keys| && n.keys[i] == k then EraseHere(t, h, n, i)
    else
      assert KidShape(t, h - 1, n.kids[i]);
      if |n.kids[i].keys| < t then EraseBelow(t, h, Fill(t, h, n, i), FilledAt(t, n, i), k)
      else EraseBelow(t, h, n, i, k)
  }

  /** `remove_from_non_leaf`: the key `keys[i]` of an internal node. */
  ghost function EraseHere(t: nat, h: nat, n: Tree, i: nat): (r: Tree)
    requires 2 <= t && 0 < h && Shape(t, h, n) && i < |n.keys|
    ensures Shape(t, h, r) && |n.keys| - 1 <= |r.keys| <= |n.keys|
    decreases h, 1
  {
    assert KidShape(t, h - 1, n.kids[i]) && KidShape(t, h - 1, n.kids[i + 1]);
    if t <= |n.kids[i].keys| then
      var p := MaxKey(t, h - 1, n.kids[i]);
      Tree(false, n.keys[i := p], n.kids[i := Erase(t, h - 1, n.kids[i], p)])
    else if t <= |n.kids[i + 1].keys| then
      var s := MinKey(t, h - 1, n.kids[i + 1]);
      Tree(false, n.keys[i := s], n.kids[i + 1 := Erase(t, h - 1, n.kids[i + 1], s)])
    else
      MergeShape(t, h, n, i);
      EraseBelow(t, h, Merge(n, i), i, n.keys[i])
  }

  ghost function EraseBelow(t: nat, h: nat, n: Tree, i: nat, k: int): (r: Tree)
    requires 2 <= t && 0 < h && Shape(t, h, n) && i <= |n.keys| && t <= |n.kids[i].keys|
    ensures Shape(t, h, r) && |r.keys| == |n.keys|
    decreases h, 0
  {
    Tree(false, n.keys, n.kids[i := Erase(t, h - 1, n.kids[i], k)])
  }

  /** `erase`: an internal root left without keys gives way to its only child. */
  ghost function EraseRoot(t: nat, h: nat, n: Tree, k: int): (r: Tree)
    requires RootShape(t, h, n)
    ensures RootShape(t, EraseHeight(t, h, n, k), r)
  {
    var n' := Erase(t, h, n, k);
    if n'.keys == [] && !n'.leaf then n'.kids[0] else n'
  }

  ghost function EraseHeight(t: nat, h: nat, n: Tree, k: int): nat
    requires RootShape(t, h, n)
  {
    if Erase(t, h, n, k).keys == [] && 0 < h then h - 1 else h
  }
}
