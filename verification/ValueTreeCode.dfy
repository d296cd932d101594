/** The nodes of tissdb/storage/native_b_tree.cpp with their values, changed in place, up to two levels. */
module ValueTreeCode {
  import opened Options
  import opened TextOrder
  import V = ValueTree

  /** The entries of parallel lists of keys and values. */
  function Zip(keys: seq<string>, values: seq<string>): (es: V.Entries)
    requires |keys| == |values|
    ensures |es| == |keys|
  {
    seq(|keys|, i requires 0 <= i < |keys| => V.Entry(keys[i], values[i]))
  }

  class Node {
    var keys: seq<string>
    var values: seq<string>
    var children: seq<Node>

    constructor ()
      ensures keys == [] && values == [] && children == []
    {
      keys, values, children := [], [], [];
    }

    ghost predicate Paired()
      reads this
    {
      |keys| == |values|
    }

    ghost function Entries(): V.Entries
      reads this
    {
      if Paired() then Zip(keys, values) else []
    }

    /** `std::lower_bound` */
    method LowerBound(key: string) returns (i: nat)
      requires Paired()
      ensures i == V.Bound(Entries(), key)
    {
      i := 0;
      while i < |keys| && Less(keys[i], key)
        invariant i <= |keys| && forall j | 0 <= j < i :: Less(keys[j], key)
      {
        i := i + 1;
      }
      V.BoundIs(Entries(), key, i);
    }

    /** The key and its value go in at an index. */
    method InsertAt(i: nat, key: string, value: string)
      requires Paired() && i <= |keys|
      modifies this`keys, this`values
      ensures Paired() && Entries() == old(Entries()[..i]) + [V.Entry(key, value)] + old(Entries()[i..])
    {
      keys, values := keys[..i] + [key] + keys[i..], values[..i] + [value] + values[i..];
    }

    /** A full leaf keeps the entries before its median; a new one takes those behind it. */
    method Halve() returns (key: string, value: string, newChild: Node)
      requires Paired() && |keys| == V.ROOM
      modifies this`keys, this`values
      ensures Paired() && newChild.Paired() && newChild.children == [] && fresh(newChild)
      ensures V.Entry(key, value) == old(Entries())[V.ORDER - 1]
      ensures Entries() == old(Entries())[..V.ORDER - 1] && newChild.Entries() == old(Entries())[V.ORDER..]
    {
      key, value := keys[V.ORDER - 1], values[V.ORDER - 1];
      newChild := new Node();
      newChild.keys, newChild.values := keys[V.ORDER..], values[V.ORDER..];
      keys, values := keys[..V.ORDER - 1], values[..V.ORDER - 1];
    }

    method EraseAt(i: nat)
      requires Paired() && i < |keys|
      modifies this`keys, this`values
      ensures Paired() && Entries() == old(Entries()[..i]) + old(Entries()[i + 1..])
    {
      keys, values := keys[..i] + keys[i + 1..], values[..i] + values[i + 1..];
    }
  }

  ghost function EntriesOf(nodes: seq<Node>): (r: seq<V.Entries>)
    reads nodes
    ensures |r| == |nodes|
  {
    if nodes == [] then [] else [nodes[0].Entries()] + EntriesOf(nodes[1..])
  }

  /** Leaves below a root. */
  ghost predicate Fit(root: Node, nodes: seq<Node>)
    reads nodes
  {
    forall c <- nodes :: c != root && c.children == [] && c.Paired()
  }

  /** No node twice. */
  ghost predicate Different(nodes: seq<Node>) { forall i, j :: 0 <= i < j < |nodes| ==> nodes[i] != nodes[j] }

  lemma {:induction false} EntriesAppend(a: seq<Node>, b: seq<Node>)
    ensures EntriesOf(a + b) == EntriesOf(a) + EntriesOf(b)
  {
    if a == [] {
      assert a + b == b;
    } else {
      assert (a + b)[0] == a[0] && (a + b)[1..] == a[1..] + b;
      EntriesAppend(a[1..], b);
    }
  }

  lemma {:induction false} EntryAt(nodes: seq<Node>, i: nat)
    requires i < |nodes|
    ensures EntriesOf(nodes)[i] == nodes[i].Entries() && nodes[i] in nodes
    decreases nodes
  {
    if i > 0 {
      EntryAt(nodes[1..], i - 1);
    }
  }

  lemma NoEntries()
    ensures EntriesOf([]) == []
  {
  }

  lemma OneNode(root: Node, leaf: Node)
    requires leaf != root && leaf.children == [] && leaf.Paired()
    ensures Fit(root, [leaf]) && Different([leaf]) && EntriesOf([leaf]) == [leaf.Entries()]
  {
    assert [leaf][1..] == [] && EntriesOf([]) == [] && [leaf.Entries()] + [] == [leaf.Entries()];
  }

  lemma NothingFits(root: Node)
    ensures Fit(root, [])
  {
  }

  lemma EntriesAround(front: seq<Node>, n: Node, behind: seq<Node>)
    ensures EntriesOf(front + [n] + behind) == EntriesOf(front) + [n.Entries()] + EntriesOf(behind)
  {
    EntriesAppend(front + [n], behind);
    EntriesAppend(front, [n]);
    assert [n][1..] == [] && EntriesOf([n]) == [n.Entries()] + [];
  }

  lemma FitAround(root: Node, front: seq<Node>, n: Node, behind: seq<Node>)
    ensures Fit(root, front + [n] + behind) <==> Fit(root, front) && Fit(root, behind) && n != root && n.children == [] && n.Paired()
  {
    var all := front + [n] + behind;
    assert forall c :: c in all <==> c in front || c == n || c in behind;
    if Fit(root, all) {
      assert n in all && forall c <- front :: c in all;
      assert forall c <- behind :: c in all;
    }
  }

  lemma FitAt(root: Node, nodes: seq<Node>, i: nat)
    requires Fit(root, nodes) && i < |nodes|
    ensures nodes[i] in nodes && nodes[i].Paired() && |EntriesOf(nodes)[i]| == |nodes[i].keys|
  {
    EntryAt(nodes, i);
  }

  /** A node between others. */
  lemma Around(root: Node, nodes: seq<Node>, i: nat)
    requires Different(nodes) && Fit(root, nodes) && i < |nodes|
    ensures nodes == nodes[..i] + [nodes[i]] + nodes[i + 1..] && nodes[i] in nodes && root !in nodes
    ensures nodes[i] !in nodes[..i] && nodes[i] !in nodes[i + 1..]
    ensures (forall c <- nodes[..i] :: c in nodes) && forall c <- nodes[i + 1..] :: c in nodes
  {
  }

  lemma DifferentInsert(nodes: seq<Node>, i: nat, n: Node)
    requires Different(nodes) && i <= |nodes| && n !in nodes
    ensures var more := nodes[..i] + [n] + nodes[i..]; Different(more) && forall c :: c in more <==> c == n || c in nodes
  {
    var more := nodes[..i] + [n] + nodes[i..];
    assert nodes == nodes[..i] + nodes[i..];
    forall k | 0 <= k < |more| ensures more[k] == if k < i then nodes[k] else if k == i then n else nodes[k - 1] {
    }
  }

  lemma SplitIs(root: V.Entries, f: seq<V.Entries>, leaf: V.Entries, b: seq<V.Entries>)
    requires |f| + 1 + |b| == |root| + 1 && |leaf| == V.ROOM
    ensures V.SplitChild(root, f + [leaf] + b, |f|) ==
            (root[..|f|] + [leaf[V.ORDER - 1]] + root[|f|..], (f + [leaf[..V.ORDER - 1]]) + [leaf[V.ORDER..]] + b)
  {
    assert (f + [leaf] + b)[|f|] == leaf && (f + [leaf] + b)[..|f|] == f && (f + [leaf] + b)[|f| + 1..] == b;
    assert f + [leaf[..V.ORDER - 1], leaf[V.ORDER..]] + b == (f + [leaf[..V.ORDER - 1]]) + [leaf[V.ORDER..]] + b;
  }

  class BTree {
    var root: Node

    /** A leaf, or a root over different leaves. */
    ghost predicate Valid()
      reads this, root, root.children
    {
      && root.Paired()
      && (root.children == [] || |root.children| == |root.keys| + 1)
      && Fit(root, root.children) && Different(root.children)
    }

    ghost function Leaves(): (r: seq<V.Entries>)
      reads this, root, root.children
      ensures |r| == |root.children|
    {
      EntriesOf(root.children)
    }

    ghost function Now(): V.Tree
      requires Valid()
      reads this, root, root.children
    {
      if root.children == [] then V.OneLeaf(root.Entries()) else V.TwoLevels(root.Entries(), Leaves())
    }

    constructor ()
      ensures Valid() && Now() == V.OneLeaf([]) && fresh(root)
    {
      root := new Node();
    }

    /** `split_child` of the root. */
    method SplitChild(index: nat)
      requires Valid() && index < |root.children| && |root.children[index].keys| == V.ROOM
      modifies root, root.children
      ensures Valid() && root == old(root) && |root.children| == old(|root.children|) + 1
      ensures forall i | 0 <= i < |root.children| :: root.children[i] in old(root.children) || fresh(root.children[i])
      ensures |old(Leaves())[index]| == V.ROOM
      ensures (root.Entries(), Leaves()) == V.SplitChild(old(root.Entries()), old(Leaves()), index)
    {
      hide Zip, EntriesOf, Different, Fit, V.SplitChild;
      var child := root.children[index];
      ghost var nodes, front, behind := root.children, root.children[..index], root.children[index + 1..];
      ghost var f, leaf, b, entries := EntriesOf(front), child.Entries(), EntriesOf(behind), root.Entries();
      Around(root, nodes, index);
      EntriesAround(front, child, behind);
      FitAround(root, front, child, behind);
      SplitIs(entries, f, leaf, b);
      var key, value, newChild := child.Halve();
      root.InsertAt(index, key, value);
      root.children := root.children[..index + 1] + [newChild] + root.children[index + 1..];
      DifferentInsert(nodes, index + 1, newChild);
      assert nodes[..index + 1] == front + [child];
      FitAround(root, front, child, []);
      assert front + [child] + [] == front + [child] && Fit(root, []) by { NothingFits(root); }
      FitAround(root, front + [child], newChild, behind);
      EntriesAround(front, child, []);
      EntriesAround(front + [child], newChild, behind);
      assert EntriesOf([]) == [] by { NoEntries(); }
      assert f + [child.Entries()] + [] == f + [child.Entries()];
    }

    /** `insert_non_full` on the root. */
    method InsertNonFull(key: string, value: string)
      requires Valid() && root.children != []
      modifies root, root.children
      ensures Valid() && root == old(root) && root.children != []
      ensures forall i | 0 <= i < |root.children| :: root.children[i] in old(root.children) || fresh(root.children[i])
      ensures Now() == V.InsertNonFull(old(root.Entries()), old(Leaves()), key, value)
    {
      hide V.Added, V.SplitChild, EntriesOf, Different, Fit;
      var i := root.LowerBound(key);
      FitAt(root, root.children, i);
      if |root.children[i].keys| == V.ROOM {
        SplitChild(i);
        if Less(root.keys[i], key) {
          i := i + 1;
        }
      }
      assert root.children[i] in root.children;
      InsertBelow(i, key, value);
    }

    /** The key goes into a leaf, at its lower bound. */
    method InsertBelow(i: nat, key: string, value: string)
      requires Valid() && i < |root.children|
      modifies root.children[i]
      ensures Valid() && root == old(root) && root.children == old(root.children) && root.Entries() == old(root.Entries())
      ensures Leaves() == old(Leaves())[i := V.Added(old(Leaves())[i], key, value)]
    {
      hide Zip, EntriesOf, Different, Fit, V.Added;
      var leaf := root.children[i];
      ghost var nodes, front, behind := root.children, root.children[..i], root.children[i + 1..];
      ghost var f, b, entries := EntriesOf(front), EntriesOf(behind), leaf.Entries();
      Around(root, nodes, i);
      EntriesAround(front, leaf, behind);
      FitAround(root, front, leaf, behind);
      var at := leaf.LowerBound(key);
      leaf.InsertAt(at, key, value);
      AddedIs(entries, key, value);
      FitAround(root, front, leaf, behind);
      EntriesAround(front, leaf, behind);
      assert (f + [entries] + b)[i := leaf.Entries()] == f + [leaf.Entries()] + b;
    }

    /** A full leaf becomes the two halves below a new root. */
    method GrowRoot()
      requires Valid() && root.children == [] && |root.keys| == V.ROOM
      modifies this, root
      ensures Valid() && fresh(root) && root.children != []
      ensures forall i | 0 <= i < |root.children| :: root.children[i] == old(root) || fresh(root.children[i])
      ensures |old(root.Entries())| == V.ROOM
      ensures (root.Entries(), Leaves()) == V.SplitChild([], [old(root.Entries())], 0)
    {
      hide V.SplitChild, Different, Fit, EntriesOf;
      var leaf := root;
      var newRoot := new Node();
      newRoot.children := [leaf];
      root := newRoot;
      OneNode(newRoot, leaf);
      assert root.children[0] == leaf;
      SplitChild(0);
    }

    /** `insert`, short of the split of an inner root. */
    method Insert(key: string, value: string)
      requires Valid() && (root.children == [] || |root.keys| < V.ROOM)
      modifies this, root, root.children
      ensures Valid() && (root == old(root) || fresh(root))
      ensures forall i | 0 <= i < |root.children| ::
                root.children[i] in old(root.children) || root.children[i] == old(root) || fresh(root.children[i])
      ensures Now() == V.Insert(old(Now()), key, value)
    {
      hide V.Added, V.SplitChild, V.InsertNonFull, Different, Fit, EntriesOf;
      if root.children != [] {
        InsertNonFull(key, value);
      } else if |root.keys| == V.ROOM {
        GrowRoot();
        InsertNonFull(key, value);
      } else {
        var i := root.LowerBound(key);
        AddedIs(root.Entries(), key, value);
        root.InsertAt(i, key, value);
      }
    }

    method Find(key: string) returns (value: Option<string>)
      requires Valid()
      ensures value == V.Find(Now(), key)
    {
      var i := root.LowerBound(key);
      if i < |root.keys| && root.keys[i] == key {
        return Some(root.values[i]);
      }
      if root.children == [] {
        return None;
      }
      var leaf := root.children[i];
      assert leaf in root.children && Leaves()[i] == leaf.Entries() by { EntryAt(root.children, i); }
      var j := leaf.LowerBound(key);
      if j < |leaf.keys| && leaf.keys[j] == key {
        return Some(leaf.values[j]);
      }
      return None;
    }

    /** `erase` in a tree of one leaf. */
    method Erase(key: string)
      requires Valid() && root.children == []
      modifies root
      ensures Valid() && root == old(root) && Now() == V.Erase(old(Now()), key)
    {
      var i := root.LowerBound(key);
      if i < |root.keys| && root.keys[i] == key {
        root.EraseAt(i);
      }
    }
  }

  lemma AddedIs(es: V.Entries, key: string, value: string)
    ensures V.Added(es, key, value) == es[..V.Bound(es, key)] + [V.Entry(key, value)] + es[V.Bound(es, key)..]
  {
  }
}
