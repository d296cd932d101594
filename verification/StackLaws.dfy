/** A leaf with room keeps stacks: insert pushes, find reads the top, erase pops. */
module StackLaws {
  import opened Options
  import opened TextOrder
  import opened ValueTree
  import opened Stacks

  // ---------- the stacks of a leaf ----------

  ghost predicate Sorted(es: Entries) { forall i, j :: 0 <= i < j < |es| ==> !Less(es[j].key, es[i].key) }

  /** The values of a key, in the order in which they stand. */
  ghost function ValuesOf(es: Entries, key: string): seq<string> {
    if es == [] then [] else (if es[0].key == key then [es[0].value] else []) + ValuesOf(es[1..], key)
  }

  ghost predicate HasEntry(es: Entries, key: string) { exists e <- es :: e.key == key }

  ghost function StacksOf(es: Entries): Stacks<string> { map e <- es :: e.key := ValuesOf(es, e.key) }

  /** What a map or a leaf keeps under every key. */
  ghost function Kept(t: Tree): Stacks<string> {
    match t
    case Mapped(texts) => map key | key in texts :: [texts[key]]
    case OneLeaf(es) => StacksOf(es)
    case _ => map[]
  }

  /** The keys of a leaf ascend. */
  ghost predicate Ordered(t: Tree) { t.OneLeaf? ==> Sorted(t.entries) }

  lemma {:induction false} ValuesAppend(a: Entries, b: Entries, key: string)
    ensures ValuesOf(a + b, key) == ValuesOf(a, key) + ValuesOf(b, key)
  {
    if a == [] {
      assert a + b == b;
    } else {
      assert (a + b)[0] == a[0] && (a + b)[1..] == a[1..] + b;
      ValuesAppend(a[1..], b, key);
    }
  }

  lemma {:induction false} ValuesNone(es: Entries, key: string)
    ensures ValuesOf(es, key) == [] <==> !HasEntry(es, key)
  {
    if es != [] {
      ValuesNone(es[1..], key);
      assert es == [es[0]] + es[1..];
      if HasEntry(es[1..], key) {
        var e :| e in es[1..] && e.key == key;
        assert e in es;
      }
      if es[0].key == key {
        assert es[0] in es;
      }
    }
  }

  lemma OneValue(e: Entry, key: string)
    ensures ValuesOf([e], key) == if e.key == key then [e.value] else []
  {
    assert [e][1..] == [];
  }

  lemma InsertedValues(es: Entries, key: string, value: string, k: string)
    ensures ValuesOf(Added(es, key, value), k) == (if k == key then [value] else []) + ValuesOf(es, k)
  {
    hide Bound, ValuesOf;
    var i := Bound(es, key);
    ValuesAppend(es[..i] + [Entry(key, value)], es[i..], k);
    ValuesAppend(es[..i], [Entry(key, value)], k);
    OneValue(Entry(key, value), k);
    assert es == es[..i] + es[i..];
    ValuesAppend(es[..i], es[i..], k);
    if k == key {
      LessIrreflexive(key);
      ValuesNone(es[..i], key);
    }
  }

  lemma StacksHave(es: Entries, key: string)
    ensures key in StacksOf(es) <==> ValuesOf(es, key) != []
    ensures key in StacksOf(es) ==> StacksOf(es)[key] == ValuesOf(es, key)
  {
    hide ValuesOf;
    ValuesNone(es, key);
  }

  lemma AddedPushes(es: Entries, key: string, value: string)
    ensures StacksOf(Added(es, key, value)) == Push(Stacking, StacksOf(es), key, value)
  {
    hide StacksOf, ValuesOf, Added;
    var before, after := StacksOf(es), StacksOf(Added(es, key, value));
    forall k ensures (k in after <==> k == key || k in before)
      && (k in after ==> after[k] == (if k == key then [value] else []) + (if k in before then before[k] else [])) {
      InsertedValues(es, key, value, k);
      StacksHave(es, k);
      StacksHave(Added(es, key, value), k);
    }
    SamePush(before, after, key, value);
  }

  lemma SamePush(before: Stacks<string>, after: Stacks<string>, key: string, value: string)
    requires forall k :: k in after <==> k == key || k in before
    requires forall k | k in after :: after[k] == (if k == key then [value] else []) + (if k in before then before[k] else [])
    ensures after == Push(Stacking, before, key, value)
  {
    forall k | k in after ensures after[k] == Push(Stacking, before, key, value)[k] {
      assert k != key ==> [] + before[k] == before[k];
    }
  }

  lemma AddedSorted(es: Entries, key: string, value: string)
    requires Sorted(es)
    ensures Sorted(Added(es, key, value))
  {
    var i := Bound(es, key);
    forall j | 0 <= j < i ensures !Less(key, es[j].key) {
      LessAsymmetric(es[j].key, key);
    }
    BoundSplits(es, key);
  }

  /** In ascending entries no key behind the bound is smaller than the key. */
  lemma BoundSplits(es: Entries, key: string)
    requires Sorted(es)
    ensures forall j | Bound(es, key) <= j < |es| :: !Less(es[j].key, key)
  {
    var i := Bound(es, key);
    forall j | i <= j < |es| ensures !Less(es[j].key, key) {
      if Less(es[j].key, key) && i < j {
        LessTotal(es[i].key, key);
        if Less(key, es[i].key) {
          LessTrans(es[j].key, key, es[i].key);
        }
      }
    }
  }

  lemma HasAtBound(es: Entries, key: string)
    requires Sorted(es)
    ensures HasEntry(es, key) <==> Bound(es, key) < |es| && es[Bound(es, key)].key == key
  {
    hide Bound;
    var i := Bound(es, key);
    assert i < |es| ==> es[i] in es;
    LessIrreflexive(key);
    if HasEntry(es, key) {
      var j :| 0 <= j < |es| && es[j].key == key;
      assert i <= j;
      LessTotal(es[i].key, key);
      assert i < j ==> !Less(es[j].key, es[i].key);
    }
  }

  /** Nothing before the bound has the key. */
  lemma ValuesFrom(es: Entries, key: string)
    ensures ValuesOf(es, key) == ValuesOf(es[Bound(es, key)..], key)
  {
    hide Bound, ValuesOf;
    var i := Bound(es, key);
    assert es == es[..i] + es[i..];
    ValuesAppend(es[..i], es[i..], key);
    LessIrreflexive(key);
    assert !HasEntry(es[..i], key);
    ValuesNone(es[..i], key);
  }

  /** A key's values stand from its bound on, and are read from the first. */
  lemma ReadTop(es: Entries, key: string)
    requires Sorted(es)
    ensures Read(es, key) == Top(StacksOf(es), key)
    ensures var i := Bound(es, key);
            HasEntry(es, key) ==> i < |es| && es[i].key == key && ValuesOf(es, key) == [es[i].value] + ValuesOf(es[i + 1..], key)
  {
    hide StacksOf, Sorted, HasEntry, Bound;
    var i := Bound(es, key);
    HasAtBound(es, key);
    ValuesFrom(es, key);
    StacksHave(es, key);
    ValuesNone(es, key);
    assert i < |es| ==> es[i..][1..] == es[i + 1..];
  }

  lemma ErasedPops(es: Entries, i: nat)
    requires Sorted(es) && i < |es| && Bound(es, es[i].key) == i
    ensures var rest := es[..i] + es[i + 1..]; Sorted(rest) && StacksOf(rest) == Pop(StacksOf(es), es[i].key)
  {
    hide StacksOf, ValuesOf, Push, Pop;
    var rest, e := es[..i] + es[i + 1..], es[i];
    assert Sorted(rest);
    BoundWithout(es, i);
    assert rest[..i] + [e] + rest[i..] == es;
    AddedPushes(rest, e.key, e.value);
    NoneEmpty(rest);
    PopPush(StacksOf(rest), e.key, e.value);
  }

  lemma BoundWithout(es: Entries, i: nat)
    requires Sorted(es) && i < |es| && Bound(es, es[i].key) == i
    ensures Bound(es[..i] + es[i + 1..], es[i].key) == i
  {
    hide Bound;
    var rest := es[..i] + es[i + 1..];
    if i < |rest| {
      assert rest[i] == es[i + 1];
    }
    BoundIs(rest, es[i].key, i);
  }

  lemma NoneEmpty(es: Entries)
    ensures forall key <- StacksOf(es) :: StacksOf(es)[key] != []
  {
    hide ValuesOf;
    forall key | key in StacksOf(es) ensures StacksOf(es)[key] != [] {
      StacksHave(es, key);
    }
  }

  /** Popping undoes a push. */
  lemma PopPush(stacks: Stacks<string>, key: string, value: string)
    requires forall k <- stacks :: stacks[k] != []
    ensures Pop(Push(Stacking, stacks, key, value), key) == stacks
  {
  }

  // ---------- a map or a leaf ----------

  /** Inserting into a map replaces, into a leaf with room pushes; a tree that is one leaf afterwards was one before. */
  lemma InsertPushes(inserts: Inserts, t: Tree, key: string, value: string)
    requires OfKind(t, inserts) && Ordered(t) && Flat(Insert(t, key, value))
    ensures Flat(t) && OfKind(Insert(t, key, value), inserts) && Ordered(Insert(t, key, value))
    ensures Kept(Insert(t, key, value)) == Push(inserts, Kept(t), key, value)
  {
    hide StacksOf, Added, SplitChild, InsertNonFull;
    match t {
      case OneLeaf(es) =>
        AddedPushes(es, key, value);
        AddedSorted(es, key, value);
      case TwoLevels(root, leaves) =>
      case Mapped(texts) =>
        forall k | k in texts[key := value] ensures [texts[key := value][k]] == Push(Replacing, Kept(t), key, value)[k] {
          assert [value] + [] == [value];
        }
      case Beyond =>
    }
  }

  lemma EraseBelongs(inserts: Inserts, t: Tree, key: string)
    requires OfKind(t, inserts) && Ordered(t) && Flat(t)
    ensures Flat(Erase(t, key)) && OfKind(Erase(t, key), inserts) && Ordered(Erase(t, key))
    ensures Kept(Erase(t, key)) == Pop(Kept(t), key)
  {
    hide StacksOf, ValuesOf;
    if t.OneLeaf? {
      var i := Bound(t.entries, key);
      ReadTop(t.entries, key);
      StacksHave(t.entries, key);
      ValuesNone(t.entries, key);
      if i < |t.entries| && t.entries[i].key == key {
        ErasedPops(t.entries, i);
      }
    }
  }

  lemma FindTop(t: Tree, key: string)
    requires Flat(t) && Ordered(t)
    ensures Find(t, key) == Top(Kept(t), key)
  {
    hide StacksOf;
    if t.OneLeaf? {
      ReadTop(t.entries, key);
    }
  }

  lemma EmptyKept(inserts: Inserts)
    ensures OfKind(Empty(inserts), inserts) && Flat(Empty(inserts)) && Ordered(Empty(inserts)) && Kept(Empty(inserts)) == map[]
  {
  }
}
