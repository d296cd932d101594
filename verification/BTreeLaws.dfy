/**
 What the operations of `BTreeSpec` promise: insertion adds one copy of its key, deletion removes
 one, both keep the in-order keys sorted, and runs of them stay in step with a plain multiset.
 */
module BTreeLaws {
  import opened BTreeSpec

  // ---------- cutting and joining the in-order sequence ----------

  lemma {:induction false} RightAppend(k1: seq<int>, s1: seq<seq<int>>, k2: seq<int>, s2: seq<seq<int>>)
    requires |k1| == |s1| && |k2| == |s2|
    ensures Right(k1 + k2, s1 + s2) == Right(k1, s1) + Right(k2, s2)
  {
    if k1 == [] {
      assert k1 + k2 == k2 && s1 + s2 == s2;
    } else {
      assert (k1 + k2)[1..] == k1[1..] + k2 && (s1 + s2)[1..] == s1[1..] + s2;
      RightAppend(k1[1..], s1[1..], k2, s2);
    }
  }

  /** The in-order keys before and after child `i`. */
  ghost function Before(n: Tree, i: nat): seq<int>
    requires i <= |n.keys| && |n.kids| == |n.keys| + 1
  {
    Left(n.keys[..i], Flats(n.kids[..i]))
  }

  ghost function After(n: Tree, i: nat): seq<int>
    requires i <= |n.keys| && |n.kids| == |n.keys| + 1
  {
    Right(n.keys[i..], Flats(n.kids[i + 1..]))
  }

  lemma Focus(n: Tree, i: nat)
    requires !n.leaf && i <= |n.keys| && |n.kids| == |n.keys| + 1
    ensures Flat(n) == Before(n, i) + Flat(n.kids[i]) + After(n, i)
  {
    hide Left, Right;
    var s1, s2 := Flats(n.kids[..i]), Flats(n.kids[i + 1..]);
    WeaveFocus(n.keys[..i], s1, Flat(n.kids[i]), n.keys[i..], s2);
    var ss := s1 + [Flat(n.kids[i])] + s2;
    assert ss[1..] == Flats(n.kids[1..]) && n.keys == n.keys[..i] + n.keys[i..];
  }

  lemma {:induction false} WeaveFocus(k1: seq<int>, s1: seq<seq<int>>, x: seq<int>, k2: seq<int>, s2: seq<seq<int>>)
    requires |k1| == |s1| && |k2| == |s2|
    ensures var ss := s1 + [x] + s2; ss[0] + Right(k1 + k2, ss[1..]) == Left(k1, s1) + x + Right(k2, s2)
  {
    var ss := s1 + [x] + s2;
    if k1 == [] {
      assert k1 + k2 == k2 && ss[1..] == s2;
    } else {
      var rest := s1[1..] + [x] + s2;
      WeaveFocus(k1[1..], s1[1..], x, k2, s2);
      assert ss[1..] == rest && (k1 + k2)[1..] == k1[1..] + k2;
      assert ss[0] + Right(k1 + k2, ss[1..]) == s1[0] + [k1[0]] + (rest[0] + Right(k1[1..] + k2, rest[1..]));
    }
  }

  lemma Focus2(n: Tree, i: nat)
    requires !n.leaf && i < |n.keys| && |n.kids| == |n.keys| + 1
    ensures Flat(n) == Before(n, i) + (Flat(n.kids[i]) + [n.keys[i]] + Flat(n.kids[i + 1])) + After(n, i + 1)
  {
    hide Flat, Before, After;
    Focus(n, i);
    AfterStep(n, i);
  }

  /** A node cut at one of its keys. */
  lemma FlatCut(leaf: bool, keys: seq<int>, kids: seq<Tree>, m: nat)
    requires m < |keys| && (if leaf then kids == [] else |kids| == |keys| + 1)
    ensures Flat(Tree(leaf, keys, kids)) ==
            Flat(Tree(leaf, keys[..m], if leaf then [] else kids[..m + 1])) + [keys[m]] +
            Flat(Tree(leaf, keys[m + 1..], if leaf then [] else kids[m + 1..]))
  {
    if !leaf {
      var ss := Flats(kids[1..]);
      assert ss == Flats(kids[..m + 1][1..]) + Flats(kids[m + 1..]);
      assert keys == keys[..m] + keys[m..];
      RightAppend(keys[..m], Flats(kids[..m + 1][1..]), keys[m..], Flats(kids[m + 1..]));
      assert Flats(kids[m + 1..])[1..] == Flats(kids[m + 1..][1..]);
      assert keys[m..][1..] == keys[m + 1..];
    }
  }

  lemma FlatLeaf(n: Tree)
    requires n.leaf
    ensures Flat(n) == n.keys
  {
  }

  // ---------- restructuring changes no key ----------

  /** Trees that agree left of child `i` of one and child `j` of the other, and right of them. */
  lemma SameSides(n: Tree, i: nat, i': nat, m: Tree, j: nat)
    requires |n.kids| == |n.keys| + 1 && |m.kids| == |m.keys| + 1
    requires i <= i' <= |n.keys| && j <= |m.keys| && i' - i + |m.keys| - j == |n.keys| - i
    requires i <= |m.keys| && n.keys[..i] == m.keys[..i] && n.kids[..i] == m.kids[..i]
    requires n.keys[i'..] == m.keys[j..] && n.kids[i' + 1..] == m.kids[j + 1..]
    ensures Before(n, i) == Before(m, i) && After(n, i') == After(m, j)
  {
  }

  /** A child exchanged for two around a key, with the same keys in order. */
  lemma OneForTwo(p: Tree, i: nat, q: Tree)
    requires !p.leaf && i <= |p.keys| && |p.kids| == |p.keys| + 1
    requires !q.leaf && |q.keys| == |p.keys| + 1 && |q.kids| == |q.keys| + 1
    requires q.keys[..i] == p.keys[..i] && q.kids[..i] == p.kids[..i]
    requires q.keys[i + 1..] == p.keys[i..] && q.kids[i + 2..] == p.kids[i + 1..]
    requires Flat(p.kids[i]) == Flat(q.kids[i]) + [q.keys[i]] + Flat(q.kids[i + 1])
    ensures Flat(q) == Flat(p)
  {
    Focus(p, i);
    Focus2(q, i);
    SameSides(q, i, i + 1, p, i);
  }

  lemma SplitFlat(t: nat, p: Tree, i: nat)
    requires 1 <= t && !p.leaf && i <= |p.keys| && |p.kids| == |p.keys| + 1
    requires var c := p.kids[i]; |c.keys| == 2 * t - 1 && if c.leaf then c.kids == [] else |c.kids| == 2 * t
    ensures Flat(SplitChild(t, p, i)) == Flat(p)
  {
    hide Flat;
    var c := p.kids[i];
    FlatCut(c.leaf, c.keys, c.kids, t - 1);
    OneForTwo(p, i, SplitChild(t, p, i));
  }

  /** `Merge` read from right to left. */
  lemma TwoForTwo(p: Tree, q: Tree, i: nat)
    requires !p.leaf && i < |p.keys| && |p.kids| == |p.keys| + 1
    requires !q.leaf && |q.keys| == |p.keys| && |q.kids| == |q.keys| + 1
    requires q.keys[..i] == p.keys[..i] && q.kids[..i] == p.kids[..i]
    requires q.keys[i + 1..] == p.keys[i + 1..] && q.kids[i + 2..] == p.kids[i + 2..]
    requires Flat(p.kids[i]) + [p.keys[i]] + Flat(p.kids[i + 1]) == Flat(q.kids[i]) + [q.keys[i]] + Flat(q.kids[i + 1])
    ensures Flat(q) == Flat(p)
    ensures Before(q, i) == Before(p, i) && After(q, i + 1) == After(p, i + 1)
  {
    Focus2(p, i);
    Focus2(q, i);
    SameSides(q, i, i + 1, p, i + 1);
  }

  /** A child exchanged for another. */
  lemma OneForOne(p: Tree, q: Tree, i: nat)
    requires !p.leaf && i <= |p.keys| && |p.kids| == |p.keys| + 1
    requires !q.leaf && q.keys == p.keys && |q.kids| == |p.kids|
    requires q.kids[..i] == p.kids[..i] && q.kids[i + 1..] == p.kids[i + 1..]
    ensures Flat(q) == Before(p, i) + Flat(q.kids[i]) + After(p, i)
  {
    Focus(q, i);
    SameSides(q, i, i, p, i);
  }

  lemma JoinFlat(a: Tree, k: int, b: Tree)
    requires Whole(a) && Whole(b) && a.leaf == b.leaf
    ensures Flat(Join(a, k, b)) == Flat(a) + [k] + Flat(b)
  {
    var j := Join(a, k, b);
    FlatCut(j.leaf, j.keys, j.kids, |a.keys|);
    assert j.keys[..|a.keys|] == a.keys && j.keys[|a.keys| + 1..] == b.keys;
    if !j.leaf {
      assert j.kids[..|a.keys| + 1] == a.kids && j.kids[|a.keys| + 1..] == b.kids;
    }
    assert a == Tree(a.leaf, a.keys, a.kids) && b == Tree(b.leaf, b.keys, b.kids);
  }

  lemma LastApart(a: Tree)
    requires Whole(a) && a.keys != []
    ensures Whole(WithoutLast(a)) && Flat(WithoutLast(a)) + [a.keys[|a.keys| - 1]] <= Flat(a)
  {
    FlatCut(a.leaf, a.keys, a.kids, |a.keys| - 1);
    assert a == Tree(a.leaf, a.keys, a.kids);
  }

  lemma FirstApart(a: Tree)
    requires Whole(a) && a.keys != []
    ensures Whole(WithoutFirst(a)) && |Flat(WithoutFirst(a))| < |Flat(a)|
  {
    FlatCut(a.leaf, a.keys, a.kids, 0);
    assert a == Tree(a.leaf, a.keys, a.kids);
  }

  lemma SameJoin(a: Tree, k: int, b: Tree)
    requires Whole(a) && Whole(b) && a.leaf == b.leaf && a.keys != []
    ensures Join(a, k, b) == Join(WithoutLast(a), a.keys[|a.keys| - 1], Prepended(a, k, b))
    ensures Whole(WithoutLast(a)) && Whole(Prepended(a, k, b))
  {
    MoveLast(a.keys, [k] + b.keys);
    assert a.keys + [k] + b.keys == a.keys + ([k] + b.keys);
    if !a.leaf {
      MoveLast(a.kids, b.kids);
    }
  }

  lemma MoveLast<T>(a: seq<T>, b: seq<T>)
    requires a != []
    ensures a + b == a[..|a| - 1] + ([a[|a| - 1]] + b) == a[..|a| - 1] + [a[|a| - 1]] + b
  {
  }

  lemma SameJoinLeft(a: Tree, k: int, b: Tree)
    requires Whole(a) && Whole(b) && a.leaf == b.leaf && b.keys != []
    ensures Join(a, k, b) == Join(Appended(a, k, b), b.keys[0], WithoutFirst(b))
    ensures Whole(WithoutFirst(b)) && Whole(Appended(a, k, b))
  {
    MoveFirst(a.keys + [k], b.keys);
    if !a.leaf {
      MoveFirst(a.kids, b.kids);
    }
  }

  lemma MoveFirst<T>(a: seq<T>, b: seq<T>)
    requires b != []
    ensures a + b == (a + [b[0]]) + b[1..]
  {
  }

  /** Moving a key across its separator. */
  lemma ShiftRight(a: Tree, k: int, b: Tree)
    requires Whole(a) && Whole(b) && a.leaf == b.leaf && a.keys != []
    ensures Flat(a) + [k] + Flat(b) == Flat(WithoutLast(a)) + [a.keys[|a.keys| - 1]] + Flat(Prepended(a, k, b))
  {
    SameJoin(a, k, b);
    JoinFlat(a, k, b);
    JoinFlat(WithoutLast(a), a.keys[|a.keys| - 1], Prepended(a, k, b));
  }

  lemma ShiftLeft(a: Tree, k: int, b: Tree)
    requires Whole(a) && Whole(b) && a.leaf == b.leaf && b.keys != []
    ensures Flat(a) + [k] + Flat(b) == Flat(Appended(a, k, b)) + [b.keys[0]] + Flat(WithoutFirst(b))
  {
    SameJoinLeft(a, k, b);
    JoinFlat(a, k, b);
    JoinFlat(Appended(a, k, b), b.keys[0], WithoutFirst(b));
  }

  lemma {:induction false} LeftAppend(k1: seq<int>, s1: seq<seq<int>>, k2: seq<int>, s2: seq<seq<int>>)
    requires |k1| == |s1| && |k2| == |s2|
    ensures Left(k1 + k2, s1 + s2) == Left(k1, s1) + Left(k2, s2)
  {
    if k1 == [] {
      assert k1 + k2 == k2 && s1 + s2 == s2;
    } else {
      assert (k1 + k2)[1..] == k1[1..] + k2 && (s1 + s2)[1..] == s1[1..] + s2;
      LeftAppend(k1[1..], s1[1..], k2, s2);
    }
  }

  lemma BeforeStep(n: Tree, i: nat)
    requires i < |n.keys| && |n.kids| == |n.keys| + 1
    ensures Before(n, i + 1) == Before(n, i) + (Flat(n.kids[i]) + [n.keys[i]])
  {
    var k2, s2 := [n.keys[i]], [Flat(n.kids[i])];
    assert n.keys[..i + 1] == n.keys[..i] + k2;
    assert Flats(n.kids[..i + 1]) == Flats(n.kids[..i]) + s2;
    LeftAppend(n.keys[..i], Flats(n.kids[..i]), k2, s2);
    assert Left(k2, s2) == s2[0] + [k2[0]] + Left([], []);
  }

  lemma AfterStep(n: Tree, i: nat)
    requires i < |n.keys| && |n.kids| == |n.keys| + 1
    ensures After(n, i) == [n.keys[i]] + Flat(n.kids[i + 1]) + After(n, i + 1)
  {
    assert Flats(n.kids[i + 1..])[1..] == Flats(n.kids[i + 2..]);
    assert n.keys[i..][1..] == n.keys[i + 1..];
  }

  ghost predicate Inside(a: seq<int>, b: seq<int>) {
    forall x :: x in a ==> x in b
  }

  /** Whatever is left or right of child `f` of `r` was left or right of child `i` of `n`. */
  ghost predicate SidesShrink(n: Tree, i: nat, r: Tree, f: nat)
    requires |n.kids| == |n.keys| + 1 && |r.kids| == |r.keys| + 1 && i <= |n.keys| && f <= |r.keys|
  {
    Inside(Before(r, f), Before(n, i)) && Inside(After(r, f), After(n, i))
  }

  lemma PrevLaw(n: Tree, i: nat)
    requires 0 < i && Adjacent(n, i - 1) && n.kids[i - 1].keys != []
    ensures Flat(BorrowFromPrev(n, i)) == Flat(n) && SidesShrink(n, i, BorrowFromPrev(n, i), i)
  {
    hide Flat, Before, After, Prepended;
    var r, m := BorrowFromPrev(n, i), i - 1;
    ShiftRight(n.kids[m], n.keys[m], n.kids[i]);
    TwoForTwo(n, r, m);
    BorrowedSides(n, r, m);
  }

  lemma BorrowedSides(n: Tree, r: Tree, m: nat)
    requires m < |n.keys| && |n.kids| == |n.keys| + 1 && m < |r.keys| && |r.kids| == |r.keys| + 1
    requires Whole(n.kids[m]) && n.kids[m].keys != []
    requires r.kids[m] == WithoutLast(n.kids[m]) && r.keys[m] == n.kids[m].keys[|n.kids[m].keys| - 1]
    requires Before(r, m) == Before(n, m)
    ensures Inside(Before(r, m + 1), Before(n, m + 1))
  {
    BeforeStep(n, m);
    BeforeStep(r, m);
    LastApart(n.kids[m]);
  }

  lemma NextLaw(n: Tree, i: nat)
    requires Adjacent(n, i) && n.kids[i + 1].keys != []
    ensures Flat(BorrowFromNext(n, i)) == Flat(n) && SidesShrink(n, i, BorrowFromNext(n, i), i)
  {
    hide Flat, Before, After, Appended;
    var r := BorrowFromNext(n, i);
    ShiftLeft(n.kids[i], n.keys[i], n.kids[i + 1]);
    TwoForTwo(n, r, i);
    AfterStep(n, i);
    AfterStep(r, i);
    FirstApart(n.kids[i + 1]);
    Focus(n, i);
    Focus(r, i);
    SuffixInside(Flat(n), Before(n, i) + Flat(n.kids[i]), After(n, i), Before(r, i) + Flat(r.kids[i]), After(r, i));
  }

  lemma SuffixInside(w: seq<int>, p: seq<int>, a: seq<int>, q: seq<int>, b: seq<int>)
    requires w == p + a == q + b && |b| <= |a|
    ensures Inside(b, a)
  {
    assert b == w[|w| - |b|..] == a[|a| - |b|..];
  }

  lemma MergeLaw(n: Tree, i: nat)
    requires Adjacent(n, i)
    ensures Flat(Merge(n, i)) == Flat(n) && n.keys[i] in Flat(Merge(n, i).kids[i])
    ensures SidesShrink(n, i, Merge(n, i), i) && SidesShrink(n, i + 1, Merge(n, i), i)
  {
    hide Flat, Before, After;
    var r := Merge(n, i);
    JoinFlat(n.kids[i], n.keys[i], n.kids[i + 1]);
    OneForTwo(r, i, n);
    SameSides(n, i, i + 1, r, i);
    BeforeStep(n, i);
    AfterStep(n, i);
  }

  lemma FillLaw(t: nat, h: nat, n: Tree, i: nat)
    requires NeedsFill(t, h, n, i)
    ensures Flat(Fill(t, h, n, i)) == Flat(n)
    ensures SidesShrink(n, i, Fill(t, h, n, i), FilledAt(t, n, i))
  {
    hide Flat, SidesShrink, BorrowFromPrev, BorrowFromNext, Merge;
    if PrevLends(t, n, i) {
      KidsAdjacent(t, h, n, i - 1);
      PrevLaw(n, i);
    } else if NextLends(t, n, i) {
      KidsAdjacent(t, h, n, i);
      NextLaw(n, i);
    } else {
      KidsAdjacent(t, h, n, if i != |n.keys| then i else i - 1);
      MergeLaw(n, if i != |n.keys| then i else i - 1);
    }
  }

  /**
   Who gives: the left sibling if it has a key to spare, else the right one, and then the other siblings stay as they
   are; if neither has, there is one child less.
   */
  lemma Lender(t: nat, h: nat, n: Tree, i: nat)
    requires NeedsFill(t, h, n, i)
    ensures var r, left, right := Fill(t, h, n, i), 0 < i && t <= |n.kids[i - 1].keys|, i < |n.keys| && t <= |n.kids[i + 1].keys|;
            && (left ==> Gave(n, r, i - 1, i)) && (!left && right ==> Gave(n, r, i + 1, i))
            && (!left && !right ==> |r.kids| == |n.kids| - 1)
  {
  }

  /** One child has a key less, one a key more, and the others are as they were. */
  ghost predicate Gave(n: Tree, r: Tree, from: nat, to: nat) {
    && |r.kids| == |n.kids| && from < |n.kids| && to < |n.kids|
    && |r.kids[from].keys| == |n.kids[from].keys| - 1 && |r.kids[to].keys| == |n.kids[to].keys| + 1
    && forall j | 0 <= j < |n.kids| && j != from && j != to :: r.kids[j] == n.kids[j]
  }

  /**
   What takes the place of a key of an inner node: the largest key before it if the child there has one to spare, else
   the smallest behind it, and then the other child stays as it is; if neither has, the two are merged.
   */
  lemma Replacement(t: nat, h: nat, n: Tree, i: nat)
    requires 2 <= t && 0 < h && Shape(t, h, n) && i < |n.keys|
    ensures var r, x, y := EraseHere(t, h, n, i), n.kids[i], n.kids[i + 1];
            && (t <= |x.keys| ==> r.kids[i + 1] == y && Flat(x) != [] && r.keys == n.keys[i := Flat(x)[|Flat(x)| - 1]])
            && (|x.keys| < t <= |y.keys| ==> r.kids[i] == x && Flat(y) != [] && r.keys == n.keys[i := Flat(y)[0]])
            && (|x.keys| < t && |y.keys| < t ==> r.keys == n.keys[..i] + n.keys[i + 1..])
  {
    hide Flat, MaxKey, MinKey, Erase;
    var x, y := n.kids[i], n.kids[i + 1];
    assert KidShape(t, h - 1, x) && KidShape(t, h - 1, y);
    MaxKeyLast(t, h - 1, x);
    MinKeyFirst(t, h - 1, y);
  }

  // ---------- sorted sequences ----------

  ghost predicate Adds(s: seq<int>, s': seq<int>, k: int) {
    Sorted(s') && multiset(s') == multiset(s) + multiset{k}
  }

  ghost predicate Drops(s: seq<int>, s': seq<int>, k: int) {
    Sorted(s') && multiset(s') == multiset(s) - multiset{k}
  }

  lemma HeadIsLeast(a: seq<int>, b: seq<int>)
    requires Sorted(a) && a != [] && b != [] && multiset(a) == multiset(b)
    ensures a[0] <= b[0]
  {
    assert b[0] in multiset(a);
    var i :| 0 <= i < |a| && a[i] == b[0];
  }

  lemma {:induction false} SortedUnique(a: seq<int>, b: seq<int>)
    requires Sorted(a) && Sorted(b) && multiset(a) == multiset(b)
    ensures a == b
  {
    assert |a| == |multiset(a)| == |b|;
    if a != [] {
      HeadIsLeast(a, b);
      HeadIsLeast(b, a);
      assert a == [a[0]] + a[1..] && b == [b[0]] + b[1..];
      assert multiset(a[1..]) == multiset(a) - multiset{a[0]};
      assert multiset(b[1..]) == multiset(b) - multiset{b[0]};
      SortedUnique(a[1..], b[1..]);
    }
  }

  /** A sorted sequence around a part that may be exchanged for another in the same range. */
  lemma SortedSwap(p: seq<int>, c: seq<int>, c': seq<int>, s: seq<int>, k: int)
    requires Sorted(p + c + s) && Sorted(c')
    requires forall x :: x in c' ==> x in c || (x == k && (forall y :: y in p ==> y <= k) && (forall y :: y in s ==> k <= y))
    ensures Sorted(p + c' + s)
  {
    var w, w' := p + c + s, p + c' + s;
    forall x, y | x in p && y in c
      ensures x <= y
    {
      var i :| 0 <= i < |p| && p[i] == x;
      var j :| 0 <= j < |c| && c[j] == y;
      assert w[i] == x && w[|p| + j] == y;
    }
    forall x, y | x in c && y in s
      ensures x <= y
    {
      var i :| 0 <= i < |c| && c[i] == x;
      var j :| 0 <= j < |s| && s[j] == y;
      assert w[|p| + i] == x && w[|p| + |c| + j] == y;
    }
    forall i, j | 0 <= i < j < |w'|
      ensures w'[i] <= w'[j]
    {
      if j < |p| {
        assert w[i] == w'[i] && w[j] == w'[j];
      } else if i < |p| && j < |p| + |c'| {
        assert w'[i] in p && w'[j] in c';
      } else if i < |p| {
        assert w[i] == w'[i] && w[j - |c'| + |c|] == w'[j];
      } else if j < |p| + |c'| {
        assert w'[i] == c'[i - |p|] && w'[j] == c'[j - |p|];
      } else if i < |p| + |c'| {
        assert w'[i] in c' && w'[j] in s;
      } else {
        assert w[i - |c'| + |c|] == w'[i] && w[j - |c'| + |c|] == w'[j];
      }
    }
  }

  // ---------- what descending to a child means for the whole node ----------

  lemma SidesBound(n: Tree, i: nat)
    requires !n.leaf && i <= |n.keys| && |n.kids| == |n.keys| + 1 && Sorted(Flat(n))
    ensures Sorted(Flat(n.kids[i]))
    ensures forall x :: x in Before(n, i) ==> 0 < i && x <= n.keys[i - 1]
    ensures forall x :: x in After(n, i) ==> i < |n.keys| && n.keys[i] <= x
  {
    hide Flat, Before, After, Sorted;
    var b, c, a := Before(n, i), Flat(n.kids[i]), After(n, i);
    assert Flat(n) == b + c + a by { Focus(n, i); }
    SortedParts(b, c, a);
    SidesMeet(n, i);
    if 0 < i {
      SortedEnds(b);
    }
    if i < |n.keys| {
      SortedEnds(a);
    }
  }

  lemma SidesMeet(n: Tree, i: nat)
    requires !n.leaf && i <= |n.keys| && |n.kids| == |n.keys| + 1
    ensures if 0 < i then Before(n, i) != [] && Before(n, i)[|Before(n, i)| - 1] == n.keys[i - 1] else Before(n, i) == []
    ensures if i < |n.keys| then After(n, i) != [] && After(n, i)[0] == n.keys[i] else After(n, i) == []
  {
    if 0 < i {
      BeforeStep(n, i - 1);
    }
    if i < |n.keys| {
      AfterStep(n, i);
    }
  }

  lemma SortedEnds(s: seq<int>)
    requires Sorted(s) && s != []
    ensures forall x :: x in s ==> s[0] <= x <= s[|s| - 1]
  {
  }

  lemma SortedParts(b: seq<int>, c: seq<int>, a: seq<int>)
    requires Sorted(b + c + a)
    ensures Sorted(b) && Sorted(c) && Sorted(a)
  {
    var w := b + c + a;
    assert b == w[..|b|] && c == w[|b|..|b| + |c|] && a == w[|b| + |c|..];
  }

  lemma AddBelow(n: Tree, i: nat, c: Tree, k: int)
    requires !n.leaf && i <= |n.keys| && |n.kids| == |n.keys| + 1 && Sorted(Flat(n))
    requires (0 < i ==> n.keys[i - 1] <= k) && (i < |n.keys| ==> k <= n.keys[i])
    requires Adds(Flat(n.kids[i]), Flat(c), k)
    ensures Adds(Flat(n), Flat(Tree(false, n.keys, n.kids[i := c])), k)
  {
    hide Flat, Sorted, Before, After;
    var q := Tree(false, n.keys, n.kids[i := c]);
    Focus(n, i);
    OneForOne(n, q, i);
    SidesBound(n, i);
    InsideOf(Flat(c), Flat(n.kids[i]), k);
    SortedSwap(Before(n, i), Flat(n.kids[i]), Flat(c), After(n, i), k);
  }

  lemma InsideOf(s': seq<int>, s: seq<int>, k: int)
    requires multiset(s') <= multiset(s) + multiset{k}
    ensures forall x :: x in s' ==> x in s || x == k
  {
    forall x | x in s'
      ensures x in s || x == k
    {
      assert x in multiset(s');
    }
  }

  lemma DropBelow(n: Tree, i: nat, c: Tree, k: int)
    requires !n.leaf && i <= |n.keys| && |n.kids| == |n.keys| + 1 && Sorted(Flat(n))
    requires (k !in Before(n, i) && k !in After(n, i)) || k in Flat(n.kids[i])
    requires Drops(Flat(n.kids[i]), Flat(c), k)
    ensures Drops(Flat(n), Flat(Tree(false, n.keys, n.kids[i := c])), k)
  {
    hide Flat, Sorted, Before, After;
    var q := Tree(false, n.keys, n.kids[i := c]);
    var x := Flat(n.kids[i]);
    Focus(n, i);
    OneForOne(n, q, i);
    forall y | y in Flat(c)
      ensures y in x
    {
      assert y in multiset(Flat(c));
      assert y in multiset(x);
    }
    SortedSwap(Before(n, i), x, Flat(c), After(n, i), k);
    if k in x {
      assert k in multiset(x);
    } else {
      assert k !in multiset(x) && k !in multiset(Before(n, i)) && k !in multiset(After(n, i));
    }
  }

  // ---------- insertion and deletion ----------

  lemma InsertLeaf(t: nat, n: Tree, k: int)
    requires 2 <= t && Shape(t, 0, n) && |n.keys| < 2 * t - 1 && Sorted(Flat(n))
    ensures Adds(Flat(n), Flat(InsertNonFull(t, 0, n, k)), k)
  {
    var ks, i := n.keys, LowerBound(n.keys, k);
    assert ks == ks[..i] + [] + ks[i..];
    SortedSwap(ks[..i], [], [k], ks[i..], k);
  }

  /** Making room on the way down moves no key, and leaves the key's place in the chosen child. */
  lemma MakeRoom(t: nat, h: nat, n: Tree, i: nat)
    requires 2 <= t && 0 < h && Shape(t, h, n) && |n.keys| < 2 * t - 1
    requires i <= |n.keys| && |n.kids[i].keys| == 2 * t - 1
    ensures KidShape(t, h - 1, n.kids[i])
    ensures Shape(t, h, SplitChild(t, n, i)) && Flat(SplitChild(t, n, i)) == Flat(n)
    ensures var n' := SplitChild(t, n, i);
            && |n'.keys| == |n.keys| + 1 && (0 < i ==> n'.keys[i - 1] == n.keys[i - 1])
            && (i < |n.keys| ==> n'.keys[i + 1] == n.keys[i])
            && |n'.kids| == |n.kids| + 1 && |n'.kids[i].keys| == |n'.kids[i + 1].keys| == t - 1
  {
    SplitShape(t, h, n, i);
    SplitFlat(t, n, i);
  }

  lemma {:induction false} InsertNonFullLaw(t: nat, h: nat, n: Tree, k: int)
    requires 2 <= t && Shape(t, h, n) && |n.keys| < 2 * t - 1 && Sorted(Flat(n))
    ensures Adds(Flat(n), Flat(InsertNonFull(t, h, n, k)), k)
    decreases h, 1
  {
    hide Flat, Sorted, Adds, SplitChild, InsertBelow;
    var i := LowerBound(n.keys, k);
    if h == 0 {
      InsertLeaf(t, n, k);
    } else {
      assert KidShape(t, h - 1, n.kids[i]);
      if |n.kids[i].keys| == 2 * t - 1 {
        MakeRoom(t, h, n, i);
        var n' := SplitChild(t, n, i);
        InsertBelowLaw(t, h, n', if k > n'.keys[i] then i + 1 else i, k);
      } else {
        InsertBelowLaw(t, h, n, i, k);
      }
    }
  }

  lemma InsertBelowLaw(t: nat, h: nat, n: Tree, j: nat, k: int)
    requires 2 <= t && 0 < h && Shape(t, h, n) && j <= |n.keys| && |n.kids[j].keys| < 2 * t - 1 && Sorted(Flat(n))
    requires (0 < j ==> n.keys[j - 1] <= k) && (j < |n.keys| ==> k <= n.keys[j])
    ensures Adds(Flat(n), Flat(InsertBelow(t, h, n, j, k)), k)
    decreases h, 0
  {
    hide InsertNonFull, Flat, Sorted, Adds;
    SidesBound(n, j);
    InsertNonFullLaw(t, h - 1, n.kids[j], k);
    AddBelow(n, j, InsertNonFull(t, h - 1, n.kids[j], k), k);
  }

  /** Every insertion into a tree adds exactly one copy of its key, in order. */
  lemma InsertLaw(t: nat, h: nat, n: Tree, k: int)
    requires RootShape(t, h, n) && Sorted(Flat(n))
    ensures Adds(Flat(n), Flat(Insert(t, h, n, k)), k)
  {
    hide InsertNonFull, Flat, Sorted, Adds;
    if |n.keys| == 2 * t - 1 {
      FullRootLaw(t, h, n, k);
    } else {
      InsertNonFullLaw(t, h, n, k);
    }
  }

  lemma FullRootLaw(t: nat, h: nat, n: Tree, k: int)
    requires 2 <= t && Shape(t, h, n) && |n.keys| == 2 * t - 1 && Sorted(Flat(n))
    ensures Shape(t, h, n) && Adds(Flat(n), Flat(Insert(t, h, n, k)), k)
  {
    hide InsertNonFull, Flat, Sorted, Adds, Shape, SplitChild;
    SplitRoot(t, h, n);
    InsertNonFullLaw(t, h + 1, SplitChild(t, Tree(false, [], [n]), 0), k);
  }

  lemma SplitRoot(t: nat, h: nat, n: Tree)
    requires 2 <= t && Shape(t, h, n) && |n.keys| == 2 * t - 1
    ensures Shape(t, h + 1, Tree(false, [], [n]))
    ensures KidShape(t, h, n) && (!n.leaf ==> |n.kids| == 2 * t)
    ensures Shape(t, h + 1, SplitChild(t, Tree(false, [], [n]), 0)) && |SplitChild(t, Tree(false, [], [n]), 0).keys| == 1
    ensures Flat(SplitChild(t, Tree(false, [], [n]), 0)) == Flat(n)
  {
    var p := Tree(false, [], [n]);
    assert Shape(t, h + 1, p) by { assert KidShape(t, h, n); }
    MakeRoom(t, h + 1, p, 0);
    FlatSingle(n);
  }

  lemma FlatSingle(n: Tree)
    ensures Flat(Tree(false, [], [n])) == Flat(n)
  {
    assert Flat(Tree(false, [], [n])) == Flat(n) + Right([], Flats([]));
  }

  lemma {:induction false} MaxKeyLast(t: nat, h: nat, n: Tree)
    requires 2 <= t && KidShape(t, h, n)
    ensures Flat(n) != [] && Flat(n)[|Flat(n)| - 1] == MaxKey(t, h, n)
    decreases h
  {
    if 0 < h {
      var i := |n.keys|;
      assert KidShape(t, h - 1, n.kids[i]);
      MaxKeyLast(t, h - 1, n.kids[i]);
      Focus(n, i);
      assert After(n, i) == [];
    }
  }

  lemma {:induction false} MinKeyFirst(t: nat, h: nat, n: Tree)
    requires 2 <= t && KidShape(t, h, n)
    ensures Flat(n) != [] && Flat(n)[0] == MinKey(t, h, n)
    decreases h
  {
    if 0 < h {
      assert KidShape(t, h - 1, n.kids[0]);
      MinKeyFirst(t, h - 1, n.kids[0]);
    }
  }

  /** Taking the separator `keys[i]` out of the sequence around it. */
  lemma SeparatorDropped(n: Tree, q: Tree, i: nat)
    requires !n.leaf && i < |n.keys| && |n.kids| == |n.keys| + 1 && Sorted(Flat(n))
    requires !q.leaf && |q.keys| == |n.keys| && |q.kids| == |n.kids|
    requires q.keys[..i] == n.keys[..i] && q.kids[..i] == n.kids[..i]
    requires q.keys[i + 1..] == n.keys[i + 1..] && q.kids[i + 2..] == n.kids[i + 2..]
    requires Flat(q.kids[i]) + [q.keys[i]] + Flat(q.kids[i + 1]) == Flat(n.kids[i]) + Flat(n.kids[i + 1])
    ensures Drops(Flat(n), Flat(q), n.keys[i])
  {
    Focus2(n, i);
    Focus2(q, i);
    SameSides(q, i, i + 1, n, i + 1);
    var b, x, y, a := Before(n, i), Flat(n.kids[i]), Flat(n.kids[i + 1]), After(n, i + 1);
    assert Flat(n) == b + (x + [n.keys[i]] + y) + a;
    assert Flat(q) == b + (x + y) + a;
    SortedParts(b, x + [n.keys[i]] + y, a);
    SortedCut(x, n.keys[i], y);
    SortedSwap(b, x + [n.keys[i]] + y, x + y, a, n.keys[i]);
  }

  lemma SortedCut(x: seq<int>, k: int, y: seq<int>)
    requires Sorted(x + [k] + y)
    ensures Sorted(x + y)
  {
    var w, v := x + [k] + y, x + y;
    assert forall i :: 0 <= i < |v| ==> v[i] == w[if i < |x| then i else i + 1];
  }

  /** A key taken out at the far end of a sorted sequence leaves the rest as it was. */
  lemma DropLast(s: seq<int>, s': seq<int>)
    requires s != [] && Sorted(s) && Drops(s, s', s[|s| - 1])
    ensures s' == s[..|s| - 1]
  {
    assert s == s[..|s| - 1] + [s[|s| - 1]];
    assert multiset(s[..|s| - 1]) == multiset(s) - multiset{s[|s| - 1]};
    SortedUnique(s', s[..|s| - 1]);
  }

  lemma DropFirst(s: seq<int>, s': seq<int>)
    requires s != [] && Sorted(s) && Drops(s, s', s[0])
    ensures s' == s[1..]
  {
    assert s == [s[0]] + s[1..];
    assert multiset(s[1..]) == multiset(s) - multiset{s[0]};
    SortedUnique(s', s[1..]);
  }

  /** Every deletion takes out exactly one copy of its key if there is one, and keeps the order. */
  lemma {:induction false} EraseLaw(t: nat, h: nat, n: Tree, k: int)
    requires 2 <= t && Shape(t, h, n) && (0 < h ==> 1 <= |n.keys|) && Sorted(Flat(n))
    ensures Drops(Flat(n), Flat(Erase(t, h, n, k)), k)
    decreases h, 4
  {
    hide EraseHere, EraseBelow, Sorted, Drops;
    var i := LowerBound(n.keys, k);
    if h == 0 {
      EraseLeaf(n.keys, i, k);
    } else if i < |n.keys| && n.keys[i] == k {
      EraseHereLaw(t, h, n, i);
    } else {
      EraseNotHere(t, h, n, i, k);
    }
  }

  lemma DropAt(a: seq<int>, k: int, b: seq<int>)
    requires Sorted(a + [k] + b)
    ensures Drops(a + [k] + b, a + b, k)
  {
    SortedCut(a, k, b);
  }

  lemma DropAbsent(s: seq<int>, k: int)
    requires Sorted(s) && k !in s
    ensures Drops(s, s, k)
  {
    assert k !in multiset(s);
  }

  lemma EraseLeaf(ks: seq<int>, i: nat, k: int)
    requires Sorted(ks) && i == LowerBound(ks, k)
    ensures Drops(ks, if i < |ks| && ks[i] == k then ks[..i] + ks[i + 1..] else ks, k)
  {
    if i < |ks| && ks[i] == k {
      assert ks == ks[..i] + [k] + ks[i + 1..];
      DropAt(ks[..i], k, ks[i + 1..]);
    } else {
      DropAbsent(ks, k);
    }
  }

  lemma EraseBelowLaw(t: nat, h: nat, n: Tree, i: nat, k: int)
    requires 2 <= t && 0 < h && Shape(t, h, n) && i <= |n.keys| && t <= |n.kids[i].keys| && Sorted(Flat(n))
    requires (k !in Before(n, i) && k !in After(n, i)) || k in Flat(n.kids[i])
    ensures Drops(Flat(n), Flat(EraseBelow(t, h, n, i, k)), k)
    decreases h, 0
  {
    hide Erase, Flat, Sorted, Drops, Before, After;
    Focus(n, i);
    SortedParts(Before(n, i), Flat(n.kids[i]), After(n, i));
    EraseLaw(t, h - 1, n.kids[i], k);
    DropBelow(n, i, Erase(t, h - 1, n.kids[i], k), k);
  }

  lemma EraseNotHere(t: nat, h: nat, n: Tree, i: nat, k: int)
    requires 2 <= t && 0 < h && Shape(t, h, n) && 1 <= |n.keys| && Sorted(Flat(n))
    requires i == LowerBound(n.keys, k) && (i < |n.keys| ==> n.keys[i] != k)
    ensures Drops(Flat(n), Flat(Erase(t, h, n, k)), k)
    decreases h, 3
  {
    hide EraseBelow, EraseHere, Fill, Flat, Sorted, Drops, Before, After;
    SidesBound(n, i);
    assert k !in Before(n, i) && k !in After(n, i);
    assert KidShape(t, h - 1, n.kids[i]);
    if |n.kids[i].keys| < t {
      FillLaw(t, h, n, i);
      EraseBelowLaw(t, h, Fill(t, h, n, i), FilledAt(t, n, i), k);
    } else {
      EraseBelowLaw(t, h, n, i, k);
    }
  }

  lemma EraseHereLaw(t: nat, h: nat, n: Tree, i: nat)
    requires 2 <= t && 0 < h && Shape(t, h, n) && i < |n.keys| && Sorted(Flat(n))
    ensures Drops(Flat(n), Flat(EraseHere(t, h, n, i)), n.keys[i])
    decreases h, 3
  {
    hide Erase, EraseBelow, Flat, Sorted, Drops, Before, After, MaxKey, MinKey, Merge;
    var k := n.keys[i];
    var x, y := n.kids[i], n.kids[i + 1];
    assert KidShape(t, h - 1, x) && KidShape(t, h - 1, y);
    Focus2(n, i);
    SortedParts(Before(n, i), Flat(x) + [k] + Flat(y), After(n, i + 1));
    SortedParts(Flat(x), [k], Flat(y));
    if t <= |x.keys| {
      EraseMax(t, h - 1, x);
      SeparatorFromLeft(n, i, Erase(t, h - 1, x, MaxKey(t, h - 1, x)), MaxKey(t, h - 1, x));
    } else if t <= |y.keys| {
      EraseMin(t, h - 1, y);
      SeparatorFromRight(n, i, Erase(t, h - 1, y, MinKey(t, h - 1, y)), MinKey(t, h - 1, y));
    } else {
      MergeShape(t, h, n, i);
      MergeLaw(n, i);
      EraseBelowLaw(t, h, Merge(n, i), i, k);
    }
  }

  lemma EraseMax(t: nat, h: nat, x: Tree)
    requires 2 <= t && KidShape(t, h, x) && Sorted(Flat(x))
    ensures var s := Flat(x); s != [] && MaxKey(t, h, x) == s[|s| - 1] && Flat(Erase(t, h, x, MaxKey(t, h, x))) == s[..|s| - 1]
    decreases h, 5
  {
    hide Erase, MaxKey, Flat, Shape, Drops, Sorted;
    MaxKeyLast(t, h, x);
    EraseLaw(t, h, x, MaxKey(t, h, x));
    DropLast(Flat(x), Flat(Erase(t, h, x, MaxKey(t, h, x))));
  }

  lemma SeparatorFromLeft(n: Tree, i: nat, x: Tree, p: int)
    requires !n.leaf && i < |n.keys| && |n.kids| == |n.keys| + 1 && Sorted(Flat(n))
    requires Flat(n.kids[i]) != [] && var s := Flat(n.kids[i]); p == s[|s| - 1] && Flat(x) == s[..|s| - 1]
    ensures Drops(Flat(n), Flat(Tree(false, n.keys[i := p], n.kids[i := x])), n.keys[i])
  {
    assert Flat(n.kids[i]) == Flat(x) + [p];
    SeparatorDropped(n, Tree(false, n.keys[i := p], n.kids[i := x]), i);
  }

  lemma EraseMin(t: nat, h: nat, y: Tree)
    requires 2 <= t && KidShape(t, h, y) && Sorted(Flat(y))
    ensures var s := Flat(y); s != [] && MinKey(t, h, y) == s[0] && Flat(Erase(t, h, y, MinKey(t, h, y))) == s[1..]
    decreases h, 5
  {
    hide Erase, MinKey, Flat, Shape, Drops, Sorted;
    MinKeyFirst(t, h, y);
    EraseLaw(t, h, y, MinKey(t, h, y));
    DropFirst(Flat(y), Flat(Erase(t, h, y, MinKey(t, h, y))));
  }

  lemma SeparatorFromRight(n: Tree, i: nat, y: Tree, s: int)
    requires !n.leaf && i < |n.keys| && |n.kids| == |n.keys| + 1 && Sorted(Flat(n))
    requires Flat(n.kids[i + 1]) != [] && var w := Flat(n.kids[i + 1]); s == w[0] && Flat(y) == w[1..]
    ensures Drops(Flat(n), Flat(Tree(false, n.keys[i := s], n.kids[i + 1 := y])), n.keys[i])
  {
    assert Flat(n.kids[i + 1]) == [s] + Flat(y);
    SeparatorDropped(n, Tree(false, n.keys[i := s], n.kids[i + 1 := y]), i);
  }

  // ---------- lookups ----------

  /** The keys of `s` from `lo` to `hi`, in order. */
  ghost function InRange(s: seq<int>, lo: int, hi: int): seq<int> {
    if s == [] then []
    else (if lo <= s[0] <= hi then [s[0]] else []) + InRange(s[1..], lo, hi)
  }

  lemma {:induction false} InRangeCount(s: seq<int>, lo: int, hi: int, x: int)
    ensures multiset(InRange(s, lo, hi))[x] == if lo <= x <= hi then multiset(s)[x] else 0
  {
    if s != [] {
      assert s == [s[0]] + s[1..];
      InRangeCount(s[1..], lo, hi, x);
    }
  }

  lemma {:induction false} InRangeSorted(s: seq<int>, lo: int, hi: int)
    requires Sorted(s)
    ensures Sorted(InRange(s, lo, hi))
  {
    if s != [] {
      var r := InRange(s[1..], lo, hi);
      InRangeSorted(s[1..], lo, hi);
      forall j | 0 <= j < |r| ensures s[0] <= r[j] {
        InRangeCount(s[1..], lo, hi, r[j]);
        assert r[j] in multiset(r);
        SortedFirst(s, r[j]);
      }
    }
  }

  lemma SortedFirst(s: seq<int>, x: int)
    requires s != [] && Sorted(s) && x in multiset(s[1..])
    ensures s[0] <= x
  {
  }

  /** Every key in the range, as often as it is there, and in order. */
  lemma InRangeIs(s: seq<int>, lo: int, hi: int)
    requires Sorted(s)
    ensures Sorted(InRange(s, lo, hi))
    ensures forall x :: multiset(InRange(s, lo, hi))[x] == if lo <= x <= hi then multiset(s)[x] else 0
  {
    InRangeSorted(s, lo, hi);
    forall x ensures multiset(InRange(s, lo, hi))[x] == if lo <= x <= hi then multiset(s)[x] else 0 {
      InRangeCount(s, lo, hi, x);
    }
  }

  lemma {:induction false} InRangeAppend(a: seq<int>, b: seq<int>, lo: int, hi: int)
    ensures InRange(a + b, lo, hi) == InRange(a, lo, hi) + InRange(b, lo, hi)
  {
    if a == [] {
      assert a + b == b;
    } else {
      assert (a + b)[1..] == a[1..] + b;
      InRangeAppend(a[1..], b, lo, hi);
    }
  }

  lemma {:induction false} OutOfRange(s: seq<int>, lo: int, hi: int)
    requires forall x :: x in s ==> x < lo || hi < x
    ensures InRange(s, lo, hi) == []
  {
    if s != [] {
      assert s[0] in s && forall x :: x in s[1..] ==> x in s;
      OutOfRange(s[1..], lo, hi);
    }
  }

  /** In a sorted tree a key that is not in the node itself can only be below the child `lower_bound` selects. */
  lemma FindLaw(n: Tree, k: int)
    requires Whole(n) && Sorted(Flat(n))
    ensures var i := LowerBound(n.keys, k);
            k in Flat(n) <==> (i < |n.keys| && n.keys[i] == k) || (!n.leaf && k in Flat(n.kids[i]))
  {
    var i := LowerBound(n.keys, k);
    if !n.leaf {
      Focus(n, i);
      SidesBound(n, i);
      if i < |n.keys| {
        AfterStep(n, i);
      }
    }
  }

  /** Where a range scan stands after child `i`. */
  lemma RangeStart(n: Tree, i: nat, lo: int, hi: int)
    requires !n.leaf && Whole(n) && Sorted(Flat(n)) && i <= |n.keys|
    requires (0 < i ==> n.keys[i - 1] < lo) && (i < |n.keys| ==> lo <= n.keys[i])
    ensures InRange(Before(n, i) + Flat(n.kids[i]), lo, hi) == InRange(Flat(n.kids[i]), lo, hi)
  {
    SidesBound(n, i);
    InRangeAppend(Before(n, i), Flat(n.kids[i]), lo, hi);
    OutOfRange(Before(n, i), lo, hi);
  }

  lemma RangeStep(n: Tree, i: nat, lo: int, hi: int)
    requires !n.leaf && Whole(n) && i < |n.keys| && lo <= n.keys[i] <= hi
    ensures InRange(Before(n, i + 1) + Flat(n.kids[i + 1]), lo, hi) ==
            InRange(Before(n, i) + Flat(n.kids[i]), lo, hi) + [n.keys[i]] + InRange(Flat(n.kids[i + 1]), lo, hi)
  {
    hide Flat, Before;
    var b, k := Before(n, i) + Flat(n.kids[i]), [n.keys[i]];
    BeforeStep(n, i);
    assert Before(n, i + 1) == b + k;
    InRangeAppend(b + k, Flat(n.kids[i + 1]), lo, hi);
    InRangeAppend(b, k, lo, hi);
    assert InRange(k, lo, hi) == k + InRange([], lo, hi);
  }

  lemma RangeEnd(n: Tree, i: nat, lo: int, hi: int)
    requires !n.leaf && Whole(n) && Sorted(Flat(n)) && i <= |n.keys| && (i < |n.keys| ==> hi < n.keys[i])
    ensures InRange(Flat(n), lo, hi) == InRange(Before(n, i) + Flat(n.kids[i]), lo, hi)
  {
    Focus(n, i);
    InRangeAppend(Before(n, i) + Flat(n.kids[i]), After(n, i), lo, hi);
    forall x | x in After(n, i)
      ensures hi < x
    {
      if i < |n.keys| {
        AfterStep(n, i);
        SortedParts(Before(n, i), Flat(n.kids[i]), After(n, i));
        var j :| 0 <= j < |After(n, i)| && After(n, i)[j] == x;
        assert After(n, i)[0] <= After(n, i)[j];
      }
    }
    OutOfRange(After(n, i), lo, hi);
  }

  lemma KeysSorted(n: Tree, i: nat)
    requires !n.leaf && Whole(n) && Sorted(Flat(n)) && i < |n.keys|
    ensures i + 1 < |n.keys| ==> n.keys[i] <= n.keys[i + 1]
  {
    if i + 1 < |n.keys| {
      Focus2(n, i);
      AfterStep(n, i + 1);
      var a := Before(n, i) + Flat(n.kids[i]);
      assert Flat(n)[|a|] == n.keys[i] && Flat(n)[|a| + 1 + |Flat(n.kids[i + 1])|] == n.keys[i + 1];
    }
  }

  lemma LeafRange(ks: seq<int>, a: nat, b: nat, lo: int, hi: int)
    requires Sorted(ks) && a <= b <= |ks|
    requires (0 < a ==> ks[a - 1] < lo) && (b < |ks| ==> hi < ks[b])
    requires forall j :: a <= j < b ==> lo <= ks[j] <= hi
    ensures InRange(ks, lo, hi) == ks[a..b]
  {
    hide InRange, Sorted;
    var x, y, z := ks[..a], ks[a..b], ks[b..];
    assert ks == x + y + z;
    SortedParts(x, y, z);
    RangeBetween(x, y, z, lo, hi) by {
      if 0 < a {
        SortedEnds(x);
      }
      if b < |ks| {
        SortedEnds(z);
      }
    }
  }

  lemma RangeBetween(x: seq<int>, y: seq<int>, z: seq<int>, lo: int, hi: int)
    requires forall i :: 0 <= i < |x| ==> x[i] < lo
    requires forall i :: 0 <= i < |y| ==> lo <= y[i] <= hi
    requires forall i :: 0 <= i < |z| ==> hi < z[i]
    ensures InRange(x + y + z, lo, hi) == y
  {
    hide InRange;
    AllInRange(y, lo, hi);
    OutOfRange(x, lo, hi);
    OutOfRange(z, lo, hi);
    InRangeAppend(x + y, z, lo, hi);
    InRangeAppend(x, y, lo, hi);
  }

  lemma {:induction false} AllInRange(s: seq<int>, lo: int, hi: int)
    requires forall j :: 0 <= j < |s| ==> lo <= s[j] <= hi
    ensures InRange(s, lo, hi) == s
  {
    if s != [] {
      AllInRange(s[1..], lo, hi);
    }
  }

  // ---------- whole runs ----------

  datatype Op = Ins(key: int) | Del(key: int)

  /** The keys a multiset of them would hold after the operations. */
  ghost function Bag(ops: seq<Op>): multiset<int> {
    if ops == [] then multiset{}
    else
      var b := Bag(ops[..|ops| - 1]);
      match ops[|ops| - 1]
      case Ins(k) => b + multiset{k}
      case Del(k) => b - multiset{k}
  }

  datatype State = State(h: nat, root: Tree)

  ghost predicate Good(t: nat, s: State) {
    RootShape(t, s.h, s.root) && Sorted(Flat(s.root))
  }

  ghost function Step(t: nat, s: State, op: Op): State
    requires Good(t, s)
  {
    match op
    case Ins(k) => State(InsertHeight(t, s.h, s.root), Insert(t, s.h, s.root, k))
    case Del(k) => State(EraseHeight(t, s.h, s.root, k), EraseRoot(t, s.h, s.root, k))
  }

  lemma StepLaw(t: nat, s: State, op: Op)
    requires Good(t, s)
    ensures Good(t, Step(t, s, op))
    ensures multiset(Flat(Step(t, s, op).root)) ==
            match op case Ins(k) => multiset(Flat(s.root)) + multiset{k}
                     case Del(k) => multiset(Flat(s.root)) - multiset{k}
  {
    hide Flat, Sorted, Insert, Erase, Shape;
    match op
    case Ins(k) => InsertLaw(t, s.h, s.root, k);
    case Del(k) => EraseRootLaw(t, s.h, s.root, k);
  }

  lemma EraseRootLaw(t: nat, h: nat, n: Tree, k: int)
    requires RootShape(t, h, n) && Sorted(Flat(n))
    ensures Drops(Flat(n), Flat(EraseRoot(t, h, n, k)), k)
  {
    hide Erase, Drops, Sorted;
    EraseLaw(t, h, n, k);
    var n' := Erase(t, h, n, k);
    if n'.keys == [] && 0 < h {
      assert n' == Tree(false, [], [n'.kids[0]]);
      FlatSingle(n'.kids[0]);
    }
  }

  ghost function Run(t: nat, ops: seq<Op>): (s: State)
    requires 2 <= t
    ensures Good(t, s)
  {
    if ops == [] then State(0, Tree(true, [], []))
    else
      var s := Run(t, ops[..|ops| - 1]);
      StepLaw(t, s, ops[|ops| - 1]);
      Step(t, s, ops[|ops| - 1])
  }

  /** From the empty tree, every run leads to a well-shaped tree with exactly the expected keys in order. */
  lemma {:induction false} RunLaw(t: nat, ops: seq<Op>)
    requires 2 <= t
    ensures Good(t, Run(t, ops)) && multiset(Flat(Run(t, ops).root)) == Bag(ops)
  {
    if ops != [] {
      RunLaw(t, ops[..|ops| - 1]);
      StepLaw(t, Run(t, ops[..|ops| - 1]), ops[|ops| - 1]);
    }
  }

  /** What a tree holds depends neither on the order of the operations nor on the node size. */
  lemma RunsAgree(t1: nat, ops1: seq<Op>, t2: nat, ops2: seq<Op>)
    requires 2 <= t1 && 2 <= t2 && Bag(ops1) == Bag(ops2)
    ensures Flat(Run(t1, ops1).root) == Flat(Run(t2, ops2).root)
  {
    RunLaw(t1, ops1);
    RunLaw(t2, ops2);
    SortedUnique(Flat(Run(t1, ops1).root), Flat(Run(t2, ops2).root));
  }
}
