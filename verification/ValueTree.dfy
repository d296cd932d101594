/**
 The B-tree of tissdb/storage/native_b_tree.cpp with its values, as a value: while it is one leaf, or a root
 over leaves. A third level comes only with the split of an inner node, which drops values. `Mapped` is the
 map that the code around the tree is written for.
 */
module ValueTree {
  import opened Options
  import opened TextOrder

  const ORDER: nat := 10

  /** How many keys a node holds before it is split. */
  const ROOM: nat := 2 * ORDER - 1

  /** A key and the value that stands at the same index. */
  datatype Entry = Entry(key: string, value: string)

  type Entries = seq<Entry>

  /** `Beyond` stands for what is not modelled: a third level, and a tree of several nodes after an erase. */
  datatype AnyTree =
    | Mapped(texts: map<string, string>)
    | OneLeaf(entries: Entries)
    | TwoLevels(root: Entries, leaves: seq<Entries>)
    | Beyond

  type Tree = t: AnyTree | t.TwoLevels? ==> |t.leaves| == |t.root| + 1 witness OneLeaf([])

  /** What inserting a key does to a value that stands under it. */
  datatype Inserts = Replacing | Stacking

  function Empty(inserts: Inserts): Tree { if inserts.Replacing? then Mapped(map[]) else OneLeaf([]) }

  /** `std::lower_bound` */
  function Bound(es: Entries, key: string): (i: nat)
    ensures i <= |es|
    ensures forall j | 0 <= j < i :: Less(es[j].key, key)
    ensures i < |es| ==> !Less(es[i].key, key)
  {
    if es == [] || !Less(es[0].key, key) then 0 else 1 + Bound(es[1..], key)
  }

  lemma BoundIs(es: Entries, key: string, i: nat)
    requires i <= |es| && (forall j | 0 <= j < i :: Less(es[j].key, key)) && (i < |es| ==> !Less(es[i].key, key))
    ensures Bound(es, key) == i
  {
  }

  function Added(es: Entries, key: string, value: string): (r: Entries)
    ensures |r| == |es| + 1
  {
    var i := Bound(es, key);
    es[..i] + [Entry(key, value)] + es[i..]
  }

  /** `split_child` for a leaf: its median moves up between its halves. */
  function SplitChild(root: Entries, leaves: seq<Entries>, i: nat): (r: (Entries, seq<Entries>))
    requires |leaves| == |root| + 1 && i < |leaves| && |leaves[i]| == ROOM
    ensures |r.0| == |root| + 1 && |r.1| == |r.0| + 1
  {
    (root[..i] + [leaves[i][ORDER - 1]] + root[i..],
     leaves[..i] + [leaves[i][..ORDER - 1], leaves[i][ORDER..]] + leaves[i + 1..])
  }

  /** `insert_non_full` on a root over leaves. */
  function InsertNonFull(root: Entries, leaves: seq<Entries>, key: string, value: string): (r: Tree)
    requires |leaves| == |root| + 1
    ensures r.TwoLevels?
  {
    var i := Bound(root, key);
    if |leaves[i]| == ROOM then
      var (root', leaves') := SplitChild(root, leaves, i);
      var j := if Less(root'[i].key, key) then i + 1 else i;
      TwoLevels(root', leaves'[j := Added(leaves'[j], key, value)])
    else TwoLevels(root, leaves[i := Added(leaves[i], key, value)])
  }

  function Insert(t: Tree, key: string, value: string): Tree {
    match t
    case Mapped(texts) => Mapped(texts[key := value])
    case OneLeaf(es) =>
      if |es| == ROOM then
        var (root, leaves) := SplitChild([], [es], 0);
        InsertNonFull(root, leaves, key, value)
      else OneLeaf(Added(es, key, value))
    case TwoLevels(root, leaves) => if |root| == ROOM then Beyond else InsertNonFull(root, leaves, key, value)
    case Beyond => Beyond
  }

  function Read(es: Entries, key: string): Option<string> {
    var i := Bound(es, key);
    if i < |es| && es[i].key == key then Some(es[i].value) else None
  }

  function Find(t: Tree, key: string): Option<string> {
    match t
    case Mapped(texts) => if key in texts then Some(texts[key]) else None
    case OneLeaf(es) => Read(es, key)
    case TwoLevels(root, leaves) =>
      var i := Bound(root, key);
      if i < |root| && root[i].key == key then Some(root[i].value) else Read(leaves[i], key)
    case Beyond => None
  }

  function Erase(t: Tree, key: string): Tree {
    match t
    case Mapped(texts) => Mapped(texts - {key})
    case OneLeaf(es) =>
      var i := Bound(es, key);
      if i < |es| && es[i].key == key then OneLeaf(es[..i] + es[i + 1..]) else t
    case _ => Beyond
  }

  /** A map, or one leaf. */
  predicate Flat(t: Tree) { t.Mapped? || t.OneLeaf? }

  predicate OfKind(t: Tree, inserts: Inserts) { if inserts.Replacing? then t.Mapped? else !t.Mapped? }
}
