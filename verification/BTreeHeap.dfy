/**
 The B-tree of tissdb/storage/native_b_tree.cpp on the heap: nodes whose key and child vectors are
 changed in place. Every method is tied to the tree function of `BTreeSpec` it carries out.
 */
module BTreeHeap {
  import opened BTreeSpec
  import opened BTreeLaws

  /** All objects below a row of nodes. */
  ghost function ReprOf(cs: seq<Node>): (r: set<object>)
    reads cs
    ensures forall i :: 0 <= i < |cs| ==> cs[i].Repr <= r
  {
    set i, o | 0 <= i < |cs| && o in cs[i].Repr :: o
  }

  ghost predicate Apart(cs: seq<Node>)
    reads cs
  {
    forall i, j :: 0 <= i < j < |cs| ==> cs[i].Repr !! cs[j].Repr
  }

  /** A row of nodes, each owning its own objects, that stand for the trees `ts`. */
  ghost predicate Forest(cs: seq<Node>, ts: seq<Tree>)
    reads cs, ReprOf(cs)
    decreases ReprOf(cs), 2
  {
    |cs| == |ts| && Apart(cs) && forall i :: 0 <= i < |cs| ==> cs[i].Repr <= ReprOf(cs) && StandsFor(cs[i], ts[i])
  }

  ghost predicate StandsFor(n: Node, t: Tree)
    reads n, n.Repr
    decreases n.Repr, 1
  {
    n in n.Repr && n.Valid() && n.tree == t
  }

  lemma ReprJoin(a: seq<Node>, b: seq<Node>)
    ensures ReprOf(a + b) == ReprOf(a) + ReprOf(b)
  {
    var c := a + b;
    forall o | o in ReprOf(a) + ReprOf(b)
      ensures o in ReprOf(c)
    {
      if o in ReprOf(a) {
        var i :| 0 <= i < |a| && o in a[i].Repr;
        assert o in c[i].Repr;
      } else {
        var i :| 0 <= i < |b| && o in b[i].Repr;
        assert o in c[|a| + i].Repr;
      }
    }
  }

  lemma ReprApart(a: seq<Node>, b: seq<Node>)
    requires forall i, j :: 0 <= i < |a| && 0 <= j < |b| ==> a[i].Repr !! b[j].Repr
    ensures ReprOf(a) !! ReprOf(b)
  {
    forall o | o in ReprOf(a)
      ensures o !in ReprOf(b)
    {
      var i :| 0 <= i < |a| && o in a[i].Repr;
      forall j | 0 <= j < |b|
        ensures o !in b[j].Repr
      {
        assert a[i].Repr !! b[j].Repr;
      }
    }
  }

  lemma ForestOne(n: Node)
    requires n.Valid()
    ensures Forest([n], [n.tree]) && ReprOf([n]) == n.Repr
  {
    assert forall o :: o in n.Repr ==> o in [n][0].Repr;
  }

  lemma ForestJoin(a: seq<Node>, ta: seq<Tree>, b: seq<Node>, tb: seq<Tree>)
    requires Forest(a, ta) && Forest(b, tb) && ReprOf(a) !! ReprOf(b)
    ensures Forest(a + b, ta + tb) && ReprOf(a + b) == ReprOf(a) + ReprOf(b)
  {
    hide StandsFor;
    ReprJoin(a, b);
    var c, tc := a + b, ta + tb;
    forall i, j | 0 <= i < j < |c|
      ensures c[i].Repr !! c[j].Repr
    {
      if j < |a| {
        assert c[i] == a[i] && c[j] == a[j];
      } else if i < |a| {
        assert c[i] == a[i] && c[j] == b[j - |a|];
        assert a[i].Repr <= ReprOf(a) && b[j - |a|].Repr <= ReprOf(b);
      } else {
        assert c[i] == b[i - |a|] && c[j] == b[j - |a|];
      }
    }
    forall i | 0 <= i < |c|
      ensures StandsFor(c[i], tc[i])
    {
      if i < |a| {
        assert StandsFor(a[i], ta[i]);
      } else {
        assert StandsFor(b[i - |a|], tb[i - |a|]);
      }
    }
  }

  ghost predicate Rooted(cs: seq<Node>)
    reads cs
  {
    forall i :: 0 <= i < |cs| ==> cs[i] in ReprOf(cs)
  }

  lemma RootsWithin(cs: seq<Node>, ts: seq<Tree>)
    requires Forest(cs, ts)
    ensures |cs| == |ts| && Rooted(cs)
  {
    forall i | 0 <= i < |cs|
      ensures cs[i] in ReprOf(cs)
    {
      assert StandsFor(cs[i], ts[i]) && cs[i].Repr <= ReprOf(cs);
    }
  }

  lemma ForestCut(c: seq<Node>, tc: seq<Tree>, m: nat)
    requires Forest(c, tc) && m <= |c|
    ensures |tc| == |c|
    ensures Forest(c[..m], tc[..m]) && Forest(c[m..], tc[m..])
    ensures ReprOf(c[..m]) !! ReprOf(c[m..]) && ReprOf(c) == ReprOf(c[..m]) + ReprOf(c[m..])
  {
    hide StandsFor, ReprOf;
    var a, b := c[..m], c[m..];
    assert c == a + b;
    ReprJoin(a, b);
    ReprApart(a, b);
    assert Apart(a) && Apart(b) by {
      assert forall i :: 0 <= i < |b| ==> b[i] == c[m + i];
    }
    forall i | 0 <= i < |b|
      ensures StandsFor(b[i], tc[m..][i])
    {
      assert StandsFor(c[m + i], tc[m + i]);
    }
  }

  /** A row seen around one of its nodes. */
  lemma ForestFocus(c: seq<Node>, tc: seq<Tree>, i: nat)
    requires Forest(c, tc) && i < |c|
    ensures |tc| == |c|
    ensures Forest(c[..i], tc[..i]) && Forest(c[i + 1..], tc[i + 1..])
    ensures c[i].Valid() && c[i].tree == tc[i]
    ensures ReprOf(c[..i]) !! c[i].Repr !! ReprOf(c[i + 1..])
    ensures ReprOf(c) == ReprOf(c[..i]) + c[i].Repr + ReprOf(c[i + 1..])
    ensures Rooted(c[..i]) && c[i] in c[i].Repr && Rooted(c[i + 1..])
  {
    RootsWithin(c[..i], tc[..i]) by { ForestCut(c, tc, i); }
    RootsWithin(c[i + 1..], tc[i + 1..]) by { ForestCut(c, tc, i + 1); }
    ForestCut(c, tc, i);
    ForestCut(c[i..], tc[i..], 1);
    assert c[i..][..1] == [c[i]] && c[i..][1..] == c[i + 1..] && tc[i..][1..] == tc[i + 1..];
    assert StandsFor(c[i], tc[i]);
    ForestOne(c[i]);
  }

  /** A row seen around two neighbours. */
  lemma ForestFocus2(c: seq<Node>, tc: seq<Tree>, i: nat)
    requires Forest(c, tc) && i + 1 < |c|
    ensures |tc| == |c|
    ensures Forest(c[..i], tc[..i]) && Forest(c[i + 2..], tc[i + 2..])
    ensures c[i].Valid() && c[i].tree == tc[i] && c[i + 1].Valid() && c[i + 1].tree == tc[i + 1]
    ensures ReprOf(c[..i]) !! c[i].Repr !! c[i + 1].Repr !! ReprOf(c[i + 2..])
    ensures ReprOf(c) == ReprOf(c[..i]) + c[i].Repr + c[i + 1].Repr + ReprOf(c[i + 2..])
    ensures Rooted(c[..i]) && c[i] in c[i].Repr && c[i + 1] in c[i + 1].Repr && Rooted(c[i + 2..])
  {
    hide Forest, Node.Valid, ReprOf, StandsFor, Rooted;
    ForestFocus(c, tc, i);
    var b, tb := c[i + 1..], tc[i + 1..];
    ForestFocus(b, tb, 0);
    assert b[..0] == [];
    EmptyRow();
    assert b[0] == c[i + 1] && b[1..] == c[i + 2..] && tb[1..] == tc[i + 2..];
  }

  lemma ForestAround(a: seq<Node>, ta: seq<Tree>, n: Node, b: seq<Node>, tb: seq<Tree>)
    requires Forest(a, ta) && n.Valid() && Forest(b, tb) && ReprOf(a) !! n.Repr !! ReprOf(b)
    ensures Forest(a + [n] + b, ta + [n.tree] + tb)
    ensures ReprOf(a + [n] + b) == ReprOf(a) + n.Repr + ReprOf(b)
  {
    hide Forest, Node.Valid, ReprOf;
    ForestOne(n);
    ForestJoin(a, ta, [n], [n.tree]);
    ForestJoin(a + [n], ta + [n.tree], b, tb);
  }

  lemma SplitParts(t: nat, n: Tree, i: nat)
    requires 1 <= t && i <= |n.keys| && |n.kids| == |n.keys| + 1 && |n.kids[i].keys| == 2 * t - 1
    requires !n.kids[i].leaf ==> |n.kids[i].kids| == 2 * t
    ensures var (r, c) := (BTreeSpec.SplitChild(t, n, i), n.kids[i]);
            && r.leaf == n.leaf && r.keys == n.keys[..i] + [c.keys[t - 1]] + n.keys[i..]
            && r.kids == n.kids[..i] + [LowerHalf(t, c), UpperHalf(t, c)] + n.kids[i + 1..]
  {
  }

  lemma ForestAround2(a: seq<Node>, ta: seq<Tree>, x: Node, y: Node, b: seq<Node>, tb: seq<Tree>)
    requires Forest(a, ta) && x.Valid() && y.Valid() && Forest(b, tb) && ReprOf(a) !! x.Repr !! y.Repr !! ReprOf(b)
    ensures Forest(a + [x, y] + b, ta + [x.tree, y.tree] + tb)
    ensures ReprOf(a + [x, y] + b) == ReprOf(a) + x.Repr + y.Repr + ReprOf(b)
  {
    hide Forest, Node.Valid, ReprOf;
    ForestOne(x);
    ForestJoin(a, ta, [x], [x.tree]);
    ForestAround(a + [x], ta + [x.tree], y, b, tb);
    assert a + [x] + [y] + b == a + [x, y] + b;
    assert ta + [x.tree] + [y.tree] + tb == ta + [x.tree, y.tree] + tb;
  }

  class Node {
    var isLeaf: bool
    var keys: seq<int>
    var children: seq<Node>
    ghost var tree: Tree           // the tree below this node
    ghost var Repr: set<object>    // this node and every node below it

    ghost predicate Valid()
      reads this, Repr
      decreases Repr, 0
    {
      && this in Repr && (forall i :: 0 <= i < |children| ==> children[i] in Repr)
      && this !in ReprOf(children) && Repr == {this} + ReprOf(children)
      && tree.leaf == isLeaf && tree.keys == keys && |tree.kids| == |children|
      && Forest(children, tree.kids)
    }

    constructor (leaf: bool)
      ensures Valid() && tree == Tree(leaf, [], []) && Repr == {this}
    {
      isLeaf, keys, children := leaf, [], [];
      tree, Repr := Tree(leaf, [], []), {this};
    }

    /** The upper half of a full node moves to a new one. */
    method SplitOff(t: nat) returns (upper: Node)
      requires Valid() && 1 <= t && |keys| == 2 * t - 1
      requires if isLeaf then children == [] else |children| == 2 * t
      modifies this
      ensures Valid() && upper.Valid() && fresh(upper)
      ensures tree == LowerHalf(t, old(tree)) && upper.tree == UpperHalf(t, old(tree))
      ensures Repr !! upper.Repr && Repr + upper.Repr == old(Repr) + {upper}
    {
      hide Forest, StandsFor, ReprOf;
      ghost var was, m := tree, if isLeaf then 0 else t;
      ForestCut(children, tree.kids, m);
      RootsWithin(children[..m], tree.kids[..m]);
      RootsWithin(children[m..], tree.kids[m..]);
      upper := new Node(isLeaf);
      upper.keys, keys := keys[t..], keys[..t - 1];
      if !isLeaf {
        upper.children, children := children[t..], children[..t];
      }
      upper.tree, upper.Repr := UpperHalf(t, was), {upper} + ReprOf(upper.children);
      tree, Repr := LowerHalf(t, was), {this} + ReprOf(children);
      assert Forest(children, tree.kids) && Forest(upper.children, upper.tree.kids);
    }

    /** `split_child` */
    method SplitChild(t: nat, i: nat)
      requires Valid() && 1 <= t && i <= |keys| && |tree.kids| == |keys| + 1
      requires |tree.kids[i].keys| == 2 * t - 1 && if tree.kids[i].leaf then tree.kids[i].kids == [] else |tree.kids[i].kids| == 2 * t
      modifies Repr
      ensures Valid() && fresh(Repr - old(Repr))
      ensures isLeaf == old(isLeaf) && tree == BTreeSpec.SplitChild(t, old(tree), i)
    {
      hide Forest, StandsFor, ReprOf, LowerHalf, UpperHalf, BTreeSpec.SplitChild;
      ghost var was, a, b := tree, children[..i], children[i + 1..];
      ForestFocus(children, tree.kids, i);
      var child := children[i];
      var median := child.keys[t - 1];
      var newChild := child.SplitOff(t);
      ForestAround2(a, was.kids[..i], child, newChild, b, was.kids[i + 1..]);
      keys := keys[..i] + [median] + keys[i..];
      children := children[..i + 1] + [newChild] + children[i + 1..];
      assert children == a + [child, newChild] + b;
      SplitParts(t, was, i);
      tree, Repr := BTreeSpec.SplitChild(t, was, i), Repr + {newChild};
      RootsWithin(children, tree.kids);
    }

    /** After a change below child `j`, what this node stands for and owns. */
    ghost method KidChanged(j: nat)
      requires j < |children| == |tree.kids| && this in Repr && tree.leaf == isLeaf && tree.keys == keys
      requires Forest(children[..j], tree.kids[..j]) && Forest(children[j + 1..], tree.kids[j + 1..])
      requires children[j].Valid() && ReprOf(children[..j]) !! children[j].Repr !! ReprOf(children[j + 1..])
      requires this !in ReprOf(children[..j]) + children[j].Repr + ReprOf(children[j + 1..])
      modifies `tree, `Repr
      ensures Valid() && tree == old(Tree(tree.leaf, tree.keys, tree.kids[j := children[j].tree]))
      ensures Repr == {this} + ReprOf(children[..j]) + children[j].Repr + ReprOf(children[j + 1..])
    {
      hide Forest, StandsFor, ReprOf;
      ghost var a, b, ta, tb := children[..j], children[j + 1..], tree.kids[..j], tree.kids[j + 1..];
      ForestAround(a, ta, children[j], b, tb);
      assert children == a + [children[j]] + b;
      tree := Tree(tree.leaf, tree.keys, tree.kids[j := children[j].tree]);
      assert tree.kids == ta + [children[j].tree] + tb;
      Repr := {this} + ReprOf(children);
      RootsWithin(children, tree.kids);
    }

    /** `insert_non_full` */
    method InsertNonFull(t: nat, ghost h: nat, key: int)
      requires Valid() && 2 <= t && Shape(t, h, tree) && |keys| < 2 * t - 1
      modifies Repr
      ensures Valid() && fresh(Repr - old(Repr))
      ensures tree == BTreeSpec.InsertNonFull(t, h, old(tree), key)
      decreases h, 1
    {
      hide Forest, StandsFor, ReprOf, Rooted, BTreeSpec.InsertBelow, BTreeSpec.SplitChild;
      ghost var was := tree;
      var i := LowerBound(keys, key);
      if isLeaf {
        keys := keys[..i] + [key] + keys[i..];
        tree := Tree(true, keys, tree.kids);
      } else {
        KidIs(i);
        assert KidShape(t, h - 1, tree.kids[i]);
        if |children[i].keys| == 2 * t - 1 {
          SplitShape(t, h, was, i);
          SplitChild(t, i);
          if key > keys[i] {
            i := i + 1;
          }
        }
        InsertBelow(t, h, i, key);
      }
    }

    method InsertBelow(t: nat, ghost h: nat, j: nat, key: int)
      requires Valid() && 2 <= t && 0 < h && Shape(t, h, tree) && j <= |keys| && |tree.kids[j].keys| < 2 * t - 1
      modifies Repr
      ensures Valid() && fresh(Repr - old(Repr))
      ensures tree == BTreeSpec.InsertBelow(t, h, old(tree), j, key)
      decreases h, 0
    {
      hide Forest, StandsFor, ReprOf;
      ForestFocus(children, tree.kids, j);
      children[j].InsertNonFull(t, h - 1, key);
      KidChanged(j);
    }

    /** The last key leaves, together with the child behind it. */
    method PopLast() returns (key: int, kid: Node?)
      requires Valid() && Whole(tree) && keys != []
      modifies this
      ensures Valid() && tree == WithoutLast(old(tree)) && key == old(keys[|keys| - 1])
      ensures kid == null <==> isLeaf
      ensures kid == null ==> Repr == old(Repr)
      ensures kid != null ==>
                kid.Valid() && kid.tree == old(tree.kids[|keys|]) && Repr !! kid.Repr && Repr + kid.Repr == old(Repr)
    {
      hide Forest, StandsFor, ReprOf;
      ghost var was := tree;
      var m := |keys|;
      key, kid := keys[|keys| - 1], null;
      if !isLeaf {
        ForestFocus(children, tree.kids, m);
        kid := children[m];
        assert children[m + 1..] == [];
        EmptyRow();
        children := children[..m];
      }
      keys := keys[..|keys| - 1];
      tree, Repr := WithoutLast(was), {this} + ReprOf(children);
    }

    /** A key arrives in front, together with the child before it. */
    method PushFirst(key: int, kid: Node?)
      requires Valid() && Whole(tree) && (kid == null <==> isLeaf)
      requires kid != null ==> kid.Valid() && kid.Repr !! Repr
      modifies this
      ensures Valid() && isLeaf == old(isLeaf)
      ensures tree == Tree(old(tree.leaf), [key] + old(tree.keys), if kid == null then [] else [kid.tree] + old(tree.kids))
      ensures Repr == old(Repr) + if kid == null then {} else kid.Repr
    {
      hide Forest, StandsFor, ReprOf;
      keys := [key] + keys;
      if kid != null {
        ForestOne(kid);
        ForestJoin([kid], [kid.tree], children, tree.kids);
        children := [kid] + children;
      }
      tree := Tree(tree.leaf, keys, if kid == null then [] else [kid.tree] + tree.kids);
      Repr := {this} + ReprOf(children);
      RootsWithin(children, tree.kids);
    }

    method PopFirst() returns (key: int, kid: Node?)
      requires Valid() && Whole(tree) && keys != []
      modifies this
      ensures Valid() && tree == WithoutFirst(old(tree)) && key == old(keys[0])
      ensures kid == null <==> isLeaf
      ensures kid == null ==> Repr == old(Repr)
      ensures kid != null ==>
                kid.Valid() && kid.tree == old(tree.kids[0]) && Repr !! kid.Repr && Repr + kid.Repr == old(Repr)
    {
      hide Forest, StandsFor, ReprOf;
      ghost var was := tree;
      key, kid := keys[0], null;
      if !isLeaf {
        ForestFocus(children, tree.kids, 0);
        kid := children[0];
        assert children[..0] == [];
        EmptyRow();
        children := children[1..];
      }
      keys := keys[1..];
      tree, Repr := WithoutFirst(was), {this} + ReprOf(children);
    }

    method PushLast(key: int, kid: Node?)
      requires Valid() && Whole(tree) && (kid == null <==> isLeaf)
      requires kid != null ==> kid.Valid() && kid.Repr !! Repr
      modifies this
      ensures Valid() && isLeaf == old(isLeaf)
      ensures tree == Tree(old(tree.leaf), old(tree.keys) + [key], if kid == null then [] else old(tree.kids) + [kid.tree])
      ensures Repr == old(Repr) + if kid == null then {} else kid.Repr
    {
      hide Forest, StandsFor, ReprOf;
      keys := keys + [key];
      if kid != null {
        ForestOne(kid);
        ForestJoin(children, tree.kids, [kid], [kid.tree]);
        children := children + [kid];
      }
      tree := Tree(tree.leaf, keys, if kid == null then [] else tree.kids + [kid.tree]);
      Repr := {this} + ReprOf(children);
      RootsWithin(children, tree.kids);
    }

    /** A separator and everything in the right sibling move here. */
    method Absorb(key: int, sibling: Node)
      requires Valid() && sibling.Valid() && Repr !! sibling.Repr && Whole(tree) && Whole(sibling.tree)
      requires isLeaf == sibling.isLeaf
      modifies this
      ensures Valid() && tree == Join(old(tree), key, sibling.tree)
      ensures Repr == old(Repr) + (sibling.Repr - {sibling})
    {
      hide Forest, StandsFor, ReprOf;
      keys := keys + [key] + sibling.keys;
      ForestJoin(children, tree.kids, sibling.children, sibling.tree.kids);
      children := children + sibling.children;
      tree := Join(tree, key, sibling.tree);
      Repr := {this} + ReprOf(children);
      RootsWithin(children, tree.kids);
    }

    /** After a change of children `j` and `j+1`, what this node stands for and owns. */
    ghost method KidsChanged(j: nat)
      requires j + 1 < |children| == |tree.kids| && this in Repr && tree.leaf == isLeaf
      requires Forest(children[..j], tree.kids[..j]) && Forest(children[j + 2..], tree.kids[j + 2..])
      requires var x, y := children[j], children[j + 1];
               x.Valid() && y.Valid() && ReprOf(children[..j]) !! x.Repr !! y.Repr !! ReprOf(children[j + 2..])
      requires this !in ReprOf(children[..j]) + children[j].Repr + children[j + 1].Repr + ReprOf(children[j + 2..])
      modifies `tree, `Repr
      ensures Valid()
      ensures tree == old(Tree(tree.leaf, keys, tree.kids[j := children[j].tree][j + 1 := children[j + 1].tree]))
      ensures Repr == {this} + ReprOf(children[..j]) + children[j].Repr + children[j + 1].Repr + ReprOf(children[j + 2..])
    {
      hide Forest, StandsFor, ReprOf;
      ghost var a, b, ta, tb := children[..j], children[j + 2..], tree.kids[..j], tree.kids[j + 2..];
      ghost var x, y := children[j], children[j + 1];
      ForestAround2(a, ta, x, y, b, tb);
      assert children == a + [x, y] + b;
      tree := Tree(tree.leaf, keys, tree.kids[j := x.tree][j + 1 := y.tree]);
      assert tree.kids == ta + [x.tree, y.tree] + tb;
      Repr := {this} + ReprOf(children);
      RootsWithin(children, tree.kids);
    }

    /** After children `j` and `j+1` have become one, what this node stands for and owns. */
    ghost method KidsJoined(j: nat)
      requires j < |children| && |children| + 1 == |tree.kids| && this in Repr && tree.leaf == isLeaf
      requires Forest(children[..j], tree.kids[..j]) && Forest(children[j + 1..], tree.kids[j + 2..])
      requires children[j].Valid() && ReprOf(children[..j]) !! children[j].Repr !! ReprOf(children[j + 1..])
      requires this !in ReprOf(children[..j]) + children[j].Repr + ReprOf(children[j + 1..])
      modifies `tree, `Repr
      ensures Valid()
      ensures tree == old(Tree(tree.leaf, keys, tree.kids[..j] + [children[j].tree] + tree.kids[j + 2..]))
      ensures Repr == {this} + ReprOf(children[..j]) + children[j].Repr + ReprOf(children[j + 1..])
    {
      hide Forest, StandsFor, ReprOf;
      ghost var a, b, ta, tb := children[..j], children[j + 1..], tree.kids[..j], tree.kids[j + 2..];
      ghost var child := children[j];
      ForestAround(a, ta, child, b, tb);
      assert children == a + [child] + b;
      tree := Tree(tree.leaf, keys, ta + [child.tree] + tb);
      Repr := {this} + ReprOf(children);
      RootsWithin(children, tree.kids);
    }

    /** The last key and child of `left` move in front of this node; the separator goes round. */
    method TakeLastOf(left: Node, key: int) returns (up: int)
      requires Valid() && left.Valid() && Repr !! left.Repr && Whole(tree) && Whole(left.tree)
      requires isLeaf == left.isLeaf && left.keys != []
      modifies this, left
      ensures Valid() && left.Valid() && Repr !! left.Repr && Repr + left.Repr == old(Repr + left.Repr)
      ensures tree == Prepended(old(left.tree), key, old(tree)) && left.tree == WithoutLast(old(left.tree))
      ensures up == old(left.keys[|left.keys| - 1])
    {
      hide Forest, StandsFor, ReprOf, Rooted;
      var kid;
      up, kid := left.PopLast();
      PushFirst(key, kid);
    }

    method TakeFirstOf(right: Node, key: int) returns (up: int)
      requires Valid() && right.Valid() && Repr !! right.Repr && Whole(tree) && Whole(right.tree)
      requires isLeaf == right.isLeaf && right.keys != []
      modifies this, right
      ensures Valid() && right.Valid() && Repr !! right.Repr && Repr + right.Repr == old(Repr + right.Repr)
      ensures tree == Appended(old(tree), key, old(right.tree)) && right.tree == WithoutFirst(old(right.tree))
      ensures up == old(right.keys[0])
    {
      hide Forest, StandsFor, ReprOf, Rooted;
      var kid;
      up, kid := right.PopFirst();
      PushLast(key, kid);
    }

    /** `borrow_from_prev` */
    method BorrowFromPrev(i: nat)
      requires Valid() && 0 < i && Adjacent(tree, i - 1) && tree.kids[i - 1].keys != []
      modifies Repr
      ensures Valid() && Repr == old(Repr) && tree == BTreeSpec.BorrowFromPrev(old(tree), i)
    {
      hide Forest, StandsFor, ReprOf, Rooted, Prepended, WithoutLast;
      ForestFocus2(children, tree.kids, i - 1);
      var child, sibling := children[i], children[i - 1];
      assert child.isLeaf == sibling.isLeaf && sibling.keys == tree.kids[i - 1].keys;
      hide Node.Valid;
      var up := child.TakeLastOf(sibling, keys[i - 1]);
      keys := keys[i - 1 := up];
      KidsChanged(i - 1);
    }

    /** `borrow_from_next` */
    method BorrowFromNext(i: nat)
      requires Valid() && Adjacent(tree, i) && tree.kids[i + 1].keys != []
      modifies Repr
      ensures Valid() && Repr == old(Repr) && tree == BTreeSpec.BorrowFromNext(old(tree), i)
    {
      hide Forest, StandsFor, ReprOf, Rooted, Appended, WithoutFirst;
      ForestFocus2(children, tree.kids, i);
      var child, sibling := children[i], children[i + 1];
      assert child.isLeaf == sibling.isLeaf && sibling.keys == tree.kids[i + 1].keys;
      hide Node.Valid;
      var up := child.TakeFirstOf(sibling, keys[i]);
      keys := keys[i := up];
      KidsChanged(i);
    }

    /** `merge` */
    method Merge(i: nat)
      requires Valid() && Adjacent(tree, i)
      modifies Repr
      ensures Valid() && Repr <= old(Repr) && tree == BTreeSpec.Merge(old(tree), i)
    {
      hide Forest, StandsFor, ReprOf, Rooted, Join;
      ForestFocus2(children, tree.kids, i);
      var child, sibling := children[i], children[i + 1];
      assert child.isLeaf == child.tree.leaf == sibling.isLeaf && sibling in sibling.Repr;
      hide Node.Valid;
      ghost var a, b := children[..i], children[i + 2..];
      child.Absorb(keys[i], sibling);
      keys := keys[..i] + keys[i + 1..];
      children := children[..i + 1] + children[i + 2..];
      assert children[i] == child && children[..i] == a && children[i + 1..] == b;
      KidsJoined(i);
    }

    /** What a child holds, as the parent's tree tells it. */
    lemma KidIs(i: nat)
      requires Valid() && i < |children|
      ensures |children| == |tree.kids|
      ensures children[i].Valid() && children[i].tree == tree.kids[i] && children[i].keys == tree.kids[i].keys
      ensures children[i].isLeaf == tree.kids[i].leaf && children[i].Repr < Repr
    {
      hide StandsFor;
      ForestFocus(children, tree.kids, i);
    }

    /** `fill` */
    method Fill(t: nat, ghost h: nat, i: nat)
      requires Valid() && NeedsFill(t, h, tree, i)
      modifies Repr
      ensures Valid() && Repr <= old(Repr) && tree == BTreeSpec.Fill(t, h, old(tree), i)
    {
      hide Forest, StandsFor, ReprOf, Rooted, BTreeSpec.BorrowFromPrev, BTreeSpec.BorrowFromNext, BTreeSpec.Merge;
      if i != 0 { KidIs(i - 1); KidsAdjacent(t, h, tree, i - 1); }
      if i != |keys| { KidIs(i + 1); KidsAdjacent(t, h, tree, i); }
      if i != 0 && |children[i - 1].keys| >= t {
        BorrowFromPrev(i);
      } else if i != |keys| && |children[i + 1].keys| >= t {
        BorrowFromNext(i);
      } else if i != |keys| {
        Merge(i);
      } else {
        Merge(i - 1);
      }
    }

    /** `get_predecessor` */
    method GetPredecessor(ghost t: nat, ghost h: nat, i: nat) returns (key: int)
      requires Valid() && 2 <= t && 0 < h && Shape(t, h, tree) && i < |tree.kids|
      ensures KidShape(t, h - 1, tree.kids[i]) && key == MaxKey(t, h - 1, tree.kids[i])
    {
      hide Forest, StandsFor, ReprOf, Rooted;
      KidIs(i);
      assert KidShape(t, h - 1, tree.kids[i]);
      var current := children[i];
      ghost var d: nat := h - 1;
      while !current.isLeaf
        invariant current.Valid() && KidShape(t, d, current.tree)
        invariant MaxKey(t, d, current.tree) == MaxKey(t, h - 1, tree.kids[i])
        decreases d
      {
        current.KidIs(|current.keys|);
        assert KidShape(t, d - 1, current.tree.kids[|current.keys|]);
        current, d := current.children[|current.children| - 1], d - 1;
      }
      key := current.keys[|current.keys| - 1];
    }

    /** `get_successor`, where `i` is the child right of the key. */
    method GetSuccessor(ghost t: nat, ghost h: nat, i: nat) returns (key: int)
      requires Valid() && 2 <= t && 0 < h && Shape(t, h, tree) && i < |tree.kids|
      ensures KidShape(t, h - 1, tree.kids[i]) && key == MinKey(t, h - 1, tree.kids[i])
    {
      hide Forest, StandsFor, ReprOf, Rooted;
      KidIs(i);
      assert KidShape(t, h - 1, tree.kids[i]);
      var current := children[i];
      ghost var d: nat := h - 1;
      while !current.isLeaf
        invariant current.Valid() && KidShape(t, d, current.tree)
        invariant MinKey(t, d, current.tree) == MinKey(t, h - 1, tree.kids[i])
        decreases d
      {
        current.KidIs(0);
        assert KidShape(t, d - 1, current.tree.kids[0]);
        current, d := current.children[0], d - 1;
      }
      key := current.keys[0];
    }

    /** `erase_recursive` */
    method Erase(t: nat, ghost h: nat, key: int)
      requires Valid() && 2 <= t && Shape(t, h, tree) && (0 < h ==> 1 <= |tree.keys|)
      modifies Repr
      ensures Valid() && Repr <= old(Repr) && tree == BTreeSpec.Erase(t, h, old(tree), key)
      decreases h, 3
    {
      hide Forest, StandsFor, ReprOf, Rooted, BTreeSpec.EraseBelow, BTreeSpec.EraseHere, BTreeSpec.Fill;
      var i := LowerBound(keys, key);
      if i < |keys| && keys[i] == key {
        if isLeaf {
          keys := keys[..i] + keys[i + 1..];
          tree := Tree(true, keys, []);
        } else {
          EraseHere(t, h, i);
        }
      } else if !isLeaf {
        var flag := i == |keys|;
        KidIs(i);
        if |children[i].keys| < t {
          Fill(t, h, i);
        }
        if flag && i > |keys| {
          EraseBelow(t, h, i - 1, key);
        } else {
          EraseBelow(t, h, i, key);
        }
      }
    }

    method EraseBelow(t: nat, ghost h: nat, i: nat, key: int)
      requires Valid() && 2 <= t && 0 < h && Shape(t, h, tree) && i <= |tree.keys| && t <= |tree.kids[i].keys|
      modifies Repr
      ensures Valid() && Repr <= old(Repr) && tree == BTreeSpec.EraseBelow(t, h, old(tree), i, key)
      decreases h, 0
    {
      hide Forest, StandsFor, ReprOf, BTreeSpec.Erase;
      ForestFocus(children, tree.kids, i);
      children[i].Erase(t, h - 1, key);
      KidChanged(i);
    }

    /** `remove_from_non_leaf` */
    method EraseHere(t: nat, ghost h: nat, i: nat)
      requires Valid() && 2 <= t && 0 < h && Shape(t, h, tree) && i < |tree.keys|
      modifies Repr
      ensures Valid() && Repr <= old(Repr) && tree == BTreeSpec.EraseHere(t, h, old(tree), i)
      decreases h, 2
    {
      hide Forest, StandsFor, ReprOf, Rooted, BTreeSpec.Erase, BTreeSpec.Merge;
      var key := keys[i];
      KidIs(i);
      KidIs(i + 1);
      assert KidShape(t, h - 1, tree.kids[i]) && KidShape(t, h - 1, tree.kids[i + 1]);
      if |children[i].keys| >= t {
        var pred := GetPredecessor(t, h, i);
        Replace(t, h, i, i, pred);
      } else if |children[i + 1].keys| >= t {
        var succ := GetSuccessor(t, h, i + 1);
        Replace(t, h, i, i + 1, succ);
      } else {
        MergeShape(t, h, tree, i);
        Merge(i);
        EraseBelow(t, h, i, key);
      }
    }

    /** The key at `i` gives way to `key`, which is erased from child `j`. */
    method Replace(t: nat, ghost h: nat, i: nat, j: nat, key: int)
      requires Valid() && 2 <= t && 0 < h && Shape(t, h, tree) && i < |tree.keys| && j <= |tree.keys|
      requires Shape(t, h - 1, tree.kids[j]) && t - 1 <= |tree.kids[j].keys|
      modifies Repr
      ensures Valid() && Repr <= old(Repr)
      ensures tree == old(Tree(false, tree.keys[i := key], tree.kids[j := BTreeSpec.Erase(t, h - 1, tree.kids[j], key)]))
      decreases h, 1
    {
      hide Forest, StandsFor, ReprOf, BTreeSpec.Erase;
      keys := keys[i := key];
      tree := Tree(tree.leaf, keys, tree.kids);
      ForestFocus(children, tree.kids, j);
      children[j].Erase(t, h - 1, key);
      KidChanged(j);
    }

    /** `find_recursive` at key level. */
    method Find(ghost t: nat, ghost h: nat, key: int) returns (found: bool)
      requires Valid() && 2 <= t && Shape(t, h, tree) && Sorted(Flat(tree))
      ensures found <==> key in Flat(tree)
      decreases h
    {
      hide Forest, StandsFor, ReprOf, Rooted, Flat, Sorted;
      var i := LowerBound(keys, key);
      FindLaw(tree, key);
      if i < |keys| && keys[i] == key {
        return true;
      }
      if isLeaf {
        return false;
      }
      KidIs(i);
      SidesBound(tree, i);
      found := children[i].Find(t, h - 1, key);
    }

    /** `find_range_recursive`: what it appends to the result vector. */
    method FindRange(ghost t: nat, ghost h: nat, lo: int, hi: int, result: seq<int>) returns (r: seq<int>)
      requires Valid() && 2 <= t && Shape(t, h, tree) && Sorted(Flat(tree))
      ensures r == result + InRange(Flat(tree), lo, hi)
      decreases h
    {
      hide Forest, StandsFor, ReprOf, Rooted, Flat, Sorted, InRange, Before;
      var i := 0;
      while i < |keys| && keys[i] < lo
        invariant i <= |keys| && (0 < i ==> keys[i - 1] < lo)
      {
        i := i + 1;
      }
      r := result;
      if isLeaf {
        FlatLeaf(tree);
        r := LeafScan(t, i, lo, hi, result);
        return;
      }
      r := ScanKid(t, h, i, lo, hi, r);
      RangeStart(tree, i, lo, hi);
      while i < |keys| && keys[i] <= hi
        invariant i <= |keys| && (i < |keys| ==> lo <= keys[i])
        invariant r == result + InRange(Before(tree, i) + Flat(tree.kids[i]), lo, hi)
      {
        r := r + [keys[i]];
        r := ScanKid(t, h, i + 1, lo, hi, r);
        RangeStep(tree, i, lo, hi);
        KeysSorted(tree, i);
        i := i + 1;
      }
      RangeEnd(tree, i, lo, hi);
    }

    method ScanKid(ghost t: nat, ghost h: nat, i: nat, lo: int, hi: int, result: seq<int>) returns (r: seq<int>)
      requires Valid() && 2 <= t && 0 < h && Shape(t, h, tree) && Sorted(Flat(tree)) && i <= |keys|
      ensures r == result + InRange(Flat(tree.kids[i]), lo, hi)
      decreases h, 0
    {
      hide Forest, StandsFor, ReprOf, Rooted, Flat, Sorted, InRange;
      KidIs(i);
      Focus(tree, i);
      SortedParts(Before(tree, i), Flat(tree.kids[i]), After(tree, i));
      r := children[i].FindRange(t, h - 1, lo, hi, result);
    }

    method LeafScan(ghost t: nat, start: nat, lo: int, hi: int, result: seq<int>) returns (r: seq<int>)
      requires Valid() && isLeaf && Sorted(keys) && start <= |keys|
      requires (0 < start ==> keys[start - 1] < lo) && (start < |keys| ==> lo <= keys[start])
      ensures r == result + InRange(keys, lo, hi)
    {
      var i := start;
      r := result;
      while i < |keys| && keys[i] <= hi
        invariant start <= i <= |keys| && r == result + keys[start..i]
        invariant forall j :: start <= j < i ==> lo <= keys[j] <= hi
      {
        r := r + [keys[i]];
        i := i + 1;
      }
      LeafRange(keys, start, i, lo, hi);
    }
  }

  /** `BTree`: the root and the minimum degree, which the source instantiates at 10. */
  class BTree {
    var root: Node
    const order: nat
    ghost var height: nat

    ghost predicate Valid()
      reads this, root, root.Repr
    {
      root.Valid() && this !in root.Repr && RootShape(order, height, root.tree) && Sorted(Flat(root.tree))
    }

    /** The keys held, in order. */
    ghost function Contents(): seq<int>
      reads this, root
    {
      Flat(root.tree)
    }

    constructor (order: nat := 10)
      requires 2 <= order
      ensures Valid() && Contents() == [] && fresh(root) && fresh(root.Repr) && this.order == order
    {
      this.order, height := order, 0;
      root := new Node(true);
    }

    method Insert(key: int)
      requires Valid()
      modifies this, root.Repr
      ensures Valid() && fresh(root.Repr - old(root.Repr))
      ensures Adds(old(Contents()), Contents(), key)
      ensures root.tree == BTreeSpec.Insert(order, old(height), old(root.tree), key)
    {
      hide Flat, Sorted, Forest, StandsFor, ReprOf, BTreeSpec.InsertNonFull, Shape, BTreeSpec.SplitChild;
      InsertLaw(order, height, root.tree, key);
      AtMostFull(order, height, root.tree);
      if |root.keys| == 2 * order - 1 {
        root := MakeRoot(order, height, root);
        height := height + 1;
      }
      root.InsertNonFull(order, height, key);
    }

    method Erase(key: int)
      requires Valid()
      modifies this, root.Repr
      ensures Valid() && root.Repr <= old(root.Repr)
      ensures Drops(old(Contents()), Contents(), key)
      ensures root.tree == EraseRoot(order, old(height), old(root.tree), key)
    {
      hide Flat, Sorted, BTreeSpec.Erase, Forest, StandsFor, ReprOf;
      ghost var was, wasHeight := root.tree, height;
      EraseRootLaw(order, height, root.tree, key);
      root.Erase(order, height, key);
      if root.keys == [] && !root.isLeaf {
        root.KidIs(0);
        root := root.children[0];
        height := height - 1;
      }
    }

    method Find(key: int) returns (found: bool)
      requires Valid()
      ensures found <==> key in Contents()
    {
      found := root.Find(order, height, key);
    }

    method FindRange(lo: int, hi: int) returns (r: seq<int>)
      requires Valid()
      ensures r == InRange(Contents(), lo, hi) && Sorted(r)
      ensures forall x :: multiset(r)[x] == if lo <= x <= hi then multiset(Contents())[x] else 0
    {
      hide InRange;
      InRangeIs(Contents(), lo, hi);
      r := root.FindRange(order, height, lo, hi, []);
    }
  }

  lemma AtMostFull(t: nat, h: nat, n: Tree)
    requires Shape(t, h, n)
    ensures |n.keys| <= 2 * t - 1
  {
  }

  /** A full root goes below a new one and is split. */
  method MakeRoot(t: nat, ghost h: nat, root: Node) returns (r: Node)
    requires root.Valid() && 2 <= t && Shape(t, h, root.tree) && |root.keys| == 2 * t - 1
    modifies root.Repr
    ensures r.Valid() && fresh(r.Repr - old(root.Repr))
    ensures Shape(t, h + 1, r.tree) && |r.keys| == 1
    ensures KidShape(t, h, old(root.tree)) && r.tree == BTreeSpec.SplitChild(t, Tree(false, [], [old(root.tree)]), 0)
  {
    hide Forest, StandsFor, ReprOf, Shape, BTreeSpec.SplitChild;
    ghost var p := Tree(false, [], [root.tree]);
    SplitRoot(t, h, root.tree);
    KidSplittable(t, h, root.tree);
    r := Above(root);
    r.SplitChild(t, 0);
  }

  method Above(root: Node) returns (r: Node)
    requires root.Valid()
    ensures r.Valid() && fresh(r) && r.Repr == {r} + root.Repr && r.tree == Tree(false, [], [root.tree])
  {
    hide Forest, StandsFor, ReprOf;
    r := new Node(false);
    r.children := [root];
    r.tree := Tree(false, [], [root.tree]);
    ForestOne(root);
    r.Repr := {r} + ReprOf(r.children);
  }

  lemma KidSplittable(t: nat, h: nat, n: Tree)
    requires 2 <= t && Shape(t, h, n) && |n.keys| == 2 * t - 1
    ensures if n.leaf then n.kids == [] else |n.kids| == 2 * t
  {
  }

  lemma EmptyRow()
    ensures ReprOf([]) == {}
  {
  }
}
