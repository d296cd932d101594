/** When a leaf is read as the map that the code around the tree is written for. */
module CopyLaws {
  import opened Options
  import opened ValueTree
  import opened Stacks
  import opened StackLaws

  datatype Op = Put(key: string, value: string) | Del(key: string)

  function Step(t: Tree, op: Op): Tree {
    match op
    case Put(key, value) => Insert(t, key, value)
    case Del(key) => Erase(t, key)
  }

  ghost predicate SameReads(a: Tree, b: Tree) { forall key :: Find(a, key) == Find(b, key) }

  /** Throughout the run, one tree is read as the other is. */
  ghost predicate AlwaysSame(a: Tree, b: Tree, ops: seq<Op>)
    decreases ops
  {
    SameReads(a, b) && (ops == [] || AlwaysSame(Step(a, ops[0]), Step(b, ops[0]), ops[1..]))
  }

  /** The tree is one leaf throughout. */
  predicate StaysLeaf(t: Tree, ops: seq<Op>)
    decreases ops
  {
    t.OneLeaf? && (ops == [] || StaysLeaf(Step(t, ops[0]), ops[1..]))
  }

  /** No step erases a key of which more than one copy stands. */
  ghost predicate NeverUncovers(t: Tree, ops: seq<Op>)
    decreases ops
  {
    ops == [] || ((ops[0].Del? ==> Copies(t, ops[0].key) <= 1) && NeverUncovers(Step(t, ops[0]), ops[1..]))
  }

  ghost function Copies(t: Tree, key: string): nat { if key in Kept(t) then |Kept(t)[key]| else 0 }

  /** The map has one value for each of the leaf's keys, the newest. */
  ghost predicate Covers(a: Tree, b: Tree) {
    && a.OneLeaf? && Ordered(a) && b.Mapped?
    && Kept(a).Keys == b.texts.Keys && forall key <- b.texts :: Kept(a)[key] != [] && b.texts[key] == Kept(a)[key][0]
  }

  lemma CoversSame(a: Tree, b: Tree)
    requires Covers(a, b)
    ensures SameReads(a, b)
  {
    hide Kept;
    forall key ensures Find(a, key) == Find(b, key) {
      FindTop(a, key);
    }
  }

  lemma CoversStep(a: Tree, b: Tree, op: Op)
    requires Covers(a, b) && Step(a, op).OneLeaf? && (op.Del? ==> Copies(a, op.key) <= 1)
    ensures Covers(Step(a, op), Step(b, op))
  {
    hide StacksOf, Added;
    match op {
      case Put(key, value) => InsertPushes(Stacking, a, key, value);
      case Del(key) => EraseBelongs(Stacking, a, key);
    }
  }

  lemma Uncovered(a: Tree, b: Tree, key: string)
    requires Covers(a, b) && Copies(a, key) > 1
    ensures !SameReads(Step(a, Del(key)), Step(b, Del(key)))
  {
    hide StacksOf;
    EraseBelongs(Stacking, a, key);
    FindTop(Erase(a, key), key);
    assert Find(Erase(a, key), key).Some? && Find(Erase(b, key), key).None?;
  }

  lemma {:induction false} AlwaysSameIff(a: Tree, b: Tree, ops: seq<Op>)
    requires Covers(a, b) && StaysLeaf(a, ops)
    ensures AlwaysSame(a, b, ops) <==> NeverUncovers(a, ops)
    decreases ops
  {
    hide Covers, Step, SameReads, Copies;
    CoversSame(a, b);
    if ops != [] {
      if ops[0].Del? && Copies(a, ops[0].key) > 1 {
        Uncovered(a, b, ops[0].key);
      } else {
        assert Step(a, ops[0]).OneLeaf? by { assert StaysLeaf(Step(a, ops[0]), ops[1..]); }
        CoversStep(a, b, ops[0]);
        AlwaysSameIff(Step(a, ops[0]), Step(b, ops[0]), ops[1..]);
      }
    }
  }

  /**
   Over any run of inserts and erases in which the tree stays one leaf, it is read throughout as a map whose
   insert replaces if and only if no step erases a key of which more than one copy stands.
   */
  lemma ReadsAsMapIff(ops: seq<Op>)
    requires StaysLeaf(OneLeaf([]), ops)
    ensures AlwaysSame(OneLeaf([]), Mapped(map[]), ops) <==> NeverUncovers(OneLeaf([]), ops)
  {
    assert Covers(OneLeaf([]), Mapped(map[]));
    AlwaysSameIff(OneLeaf([]), Mapped(map[]), ops);
  }
}
