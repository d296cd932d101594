/**
 Byte-pair merging (quanta_tissu/tisslm/core/bpe_trainer.py) as functions on id sequences, and the
 facts about single merges that training, encoding and decoding rest on.
 */
module BpeSpec {

  type Byte = x: int | 0 <= x < 256
  type Pair = (nat, nat)

  /** The adjacent pairs of a sequence. */
  ghost function PairsOf(ids: seq<nat>): set<Pair> {
    set i {:trigger ids[i]} | 0 <= i < |ids| - 1 :: (ids[i], ids[i + 1])
  }

  /** One pass from left to right that replaces every occurrence of `p` met on the way. */
  ghost function MergePass(ids: seq<nat>, p: Pair, id: nat): seq<nat> {
    if |ids| < 2 then ids
    else if (ids[0], ids[1]) == p then [id] + MergePass(ids[2..], p, id)
    else [ids[0]] + MergePass(ids[1..], p, id)
  }

  /** The pass replaces the first occurrence, keeps what is before it, and goes on behind it. */
  lemma {:induction false} FirstMerged(ids: seq<nat>, p: Pair, id: nat, i: nat)
    requires i + 1 < |ids| && (ids[i], ids[i + 1]) == p
    requires forall j | 0 <= j < i :: (ids[j], ids[j + 1]) != p
    ensures MergePass(ids, p, id) == ids[..i] + [id] + MergePass(ids[i + 2..], p, id)
  {
    if i == 0 {
      assert ids[..0] + [id] == [id];
    } else {
      FirstMerged(ids[1..], p, id, i - 1);
      assert ids[1..][i + 1..] == ids[i + 2..] && ids[..i] == [ids[0]] + ids[1..][..i - 1];
    }
  }

  /** The passes for the pairs learned as ids `first`, `first + 1`, ... */
  ghost function Apply(ids: seq<nat>, order: seq<Pair>, first: nat): seq<nat>
    decreases order
  {
    if order == [] then ids
    else Apply(MergePass(ids, order[0], first), order[1..], first + 1)
  }

  lemma {:induction false} ApplyAppend(ids: seq<nat>, a: seq<Pair>, b: seq<Pair>, first: nat)
    ensures Apply(ids, a + b, first) == Apply(Apply(ids, a, first), b, first + |a|)
    decreases a
  {
    if a == [] {
      assert a + b == b;
    } else {
      assert (a + b)[1..] == a[1..] + b;
      ApplyAppend(MergePass(ids, a[0], first), a[1..], b, first + 1);
    }
  }

  lemma InPairs(ids: seq<nat>, i: nat)
    requires i + 1 < |ids|
    ensures (ids[i], ids[i + 1]) in PairsOf(ids)
  {
  }

  lemma PairsTail(ids: seq<nat>, m: nat)
    requires m <= |ids|
    ensures PairsOf(ids[m..]) <= PairsOf(ids)
  {
    forall q | q in PairsOf(ids[m..])
      ensures q in PairsOf(ids)
    {
      var i :| 0 <= i < |ids[m..]| - 1 && q == (ids[m..][i], ids[m..][i + 1]);
      InPairs(ids, m + i);
    }
  }

  /** A pair that does not occur is merged nowhere. */
  lemma {:induction false} MergeAbsent(ids: seq<nat>, p: Pair, id: nat)
    requires p !in PairsOf(ids)
    ensures MergePass(ids, p, id) == ids
  {
    if 2 <= |ids| {
      InPairs(ids, 0);
      PairsTail(ids, 1);
      MergeAbsent(ids[1..], p, id);
    }
  }

  /** A pair that occurs makes the sequence shorter. */
  lemma {:induction false} MergeShortens(ids: seq<nat>, p: Pair, id: nat)
    ensures |MergePass(ids, p, id)| <= |ids|
    ensures p in PairsOf(ids) ==> |MergePass(ids, p, id)| < |ids|
  {
    if 2 <= |ids| {
      if (ids[0], ids[1]) == p {
        MergeShortens(ids[2..], p, id);
      } else {
        MergeShortens(ids[1..], p, id);
        if p in PairsOf(ids) {
          var i :| 0 <= i < |ids| - 1 && p == (ids[i], ids[i + 1]);
          InPairs(ids[1..], i - 1);
        }
      }
    }
  }

  /** Every pair after a pass is an old pair other than the merged one, or holds the new id. */
  lemma {:induction false} PairsAfterMerge(ids: seq<nat>, p: Pair, id: nat, q: Pair)
    requires q in PairsOf(MergePass(ids, p, id))
    ensures (q in PairsOf(ids) && q != p) || q.0 == id || q.1 == id
  {
    var m := MergePass(ids, p, id);
    if 2 <= |ids| {
      var step := if (ids[0], ids[1]) == p then 2 else 1;
      var rest := MergePass(ids[step..], p, id);
      InPairs(ids, 0);
      PairsTail(ids, step);
      var i :| 0 <= i < |m| - 1 && q == (m[i], m[i + 1]);
      if 0 < i {
        InPairs(rest, i - 1);
        assert q == (rest[i - 1], rest[i]);
        PairsAfterMerge(ids[step..], p, id, q);
      } else if step == 1 {
        MergeHead(ids[1..], p, id);
      }
    }
  }

  lemma MergeHead(ids: seq<nat>, p: Pair, id: nat)
    ensures var m := MergePass(ids, p, id); m != [] ==> ids != [] && (m[0] == ids[0] || m[0] == id)
  {
  }

  /** A pass brings in no id but the new one. */
  lemma {:induction false} IdsAfterMerge(ids: seq<nat>, p: Pair, id: nat)
    ensures forall x :: x in MergePass(ids, p, id) ==> x in ids || x == id
  {
    if 2 <= |ids| {
      IdsAfterMerge(ids[if (ids[0], ids[1]) == p then 2 else 1..], p, id);
    }
  }

  // ---------- bytes behind ids ----------

  /** The bytes of a sequence; an id outside the vocabulary has none. */
  ghost function Expand(vocab: map<nat, seq<Byte>>, ids: seq<nat>): seq<Byte> {
    if ids == [] then []
    else (if ids[0] in vocab then vocab[ids[0]] else []) + Expand(vocab, ids[1..])
  }

  lemma {:induction false} ExpandAppend(vocab: map<nat, seq<Byte>>, a: seq<nat>, b: seq<nat>)
    ensures Expand(vocab, a + b) == Expand(vocab, a) + Expand(vocab, b)
  {
    if a == [] {
      assert a + b == b;
    } else {
      assert (a + b)[1..] == a[1..] + b;
      ExpandAppend(vocab, a[1..], b);
    }
  }

  /** One id has its own bytes, or none, and with `ExpandAppend` so has any sequence. */
  lemma ExpandOne(vocab: map<nat, seq<Byte>>, id: nat)
    ensures id in vocab ==> Expand(vocab, [id]) == vocab[id]
    ensures id !in vocab ==> Expand(vocab, [id]) == []
  {
    assert [id][1..] == [];
  }

  ghost predicate Spells(vocab: map<nat, seq<Byte>>, p: Pair, id: nat) {
    p.0 in vocab && p.1 in vocab && id in vocab && vocab[id] == vocab[p.0] + vocab[p.1]
  }

  /** Merging conserves the bytes. */
  lemma {:induction false} MergeKeepsBytes(vocab: map<nat, seq<Byte>>, ids: seq<nat>, p: Pair, id: nat)
    requires Spells(vocab, p, id)
    ensures Expand(vocab, MergePass(ids, p, id)) == Expand(vocab, ids)
  {
    if 2 <= |ids| {
      if (ids[0], ids[1]) == p {
        MergeKeepsBytes(vocab, ids[2..], p, id);
        assert ids[1..][1..] == ids[2..];
      } else {
        MergeKeepsBytes(vocab, ids[1..], p, id);
      }
    }
  }

  // ---------- what has been learned ----------

  const BYTES: nat := 256

  /** Pair number `i` became id `256 + i`, from two older ids; nothing else was learned. */
  ghost predicate Learned(merges: map<Pair, nat>, order: seq<Pair>) {
    && (forall i :: 0 <= i < |order| ==>
          order[i] in merges && merges[order[i]] == BYTES + i && order[i].0 < BYTES + i && order[i].1 < BYTES + i)
    && forall p :: p in merges ==> BYTES <= merges[p] < BYTES + |order| && order[merges[p] - BYTES] == p
  }

  lemma LearnedOnce(merges: map<Pair, nat>, order: seq<Pair>, i: nat, j: nat)
    requires Learned(merges, order) && i < j < |order|
    ensures order[i] != order[j]
  {
  }

  /** No pair of `ids` ranks below `r`. */
  ghost predicate NoneBelow(merges: map<Pair, nat>, ids: seq<nat>, r: nat) {
    forall q :: q in PairsOf(ids) && q in merges ==> BYTES + r <= merges[q]
  }

  /** Passes for pairs that do not occur change nothing. */
  lemma {:induction false} ApplySkips(merges: map<Pair, nat>, order: seq<Pair>, ids: seq<nat>, r: nat, s: nat)
    requires Learned(merges, order) && r <= s <= |order| && NoneBelow(merges, ids, s)
    ensures Apply(ids, order[r..s], BYTES + r) == ids
    decreases s - r
  {
    if r < s {
      assert order[r] in merges && order[r] !in PairsOf(ids);
      MergeAbsent(ids, order[r], BYTES + r);
      assert order[r..s][1..] == order[r + 1..s];
      ApplySkips(merges, order, ids, r + 1, s);
    }
  }

  /** Once the lowest-ranked pair has been merged, no pair of that rank or below is left. */
  lemma MergeRaisesRank(merges: map<Pair, nat>, order: seq<Pair>, ids: seq<nat>, s: nat)
    requires Learned(merges, order) && s < |order| && NoneBelow(merges, ids, s)
    ensures NoneBelow(merges, MergePass(ids, order[s], BYTES + s), s + 1)
  {
    forall q | q in PairsOf(MergePass(ids, order[s], BYTES + s)) && q in merges
      ensures BYTES + s + 1 <= merges[q]
    {
      PairsAfterMerge(ids, order[s], BYTES + s, q);
    }
  }

  /** One round of encoding: a pass for the lowest-ranked pair that occurs. */
  ghost predicate LowestStep(merges: map<Pair, nat>, ids: seq<nat>, p: Pair, next: seq<nat>) {
    && p in PairsOf(ids) && p in merges
    && (forall q :: q in PairsOf(ids) && q in merges ==> merges[p] <= merges[q])
    && next == MergePass(ids, p, merges[p])
  }

  ghost predicate Final(merges: map<Pair, nat>, ids: seq<nat>) {
    forall q :: q in PairsOf(ids) ==> q !in merges
  }

  /** The pair that a round merges has its rank from its place in the learned order. */
  lemma LowestPlace(merges: map<Pair, nat>, order: seq<Pair>, ids: seq<nat>, p: Pair, next: seq<nat>, r: nat) returns (k: nat)
    requires Learned(merges, order) && r <= |order| && NoneBelow(merges, ids, r) && LowestStep(merges, ids, p, next)
    ensures r <= k < |order| && order[k] == p && NoneBelow(merges, ids, k) && next == MergePass(ids, p, BYTES + k)
  {
    hide MergePass;
    k := merges[p] - BYTES;
    assert order[k] == p && merges[p] == BYTES + k;
  }

  /** Between two rounds of encoding, the passes of learned order that were jumped over do nothing. */
  lemma LowestStepLaw(merges: map<Pair, nat>, order: seq<Pair>, ids: seq<nat>, p: Pair, next: seq<nat>, r: nat) returns (s: nat)
    requires Learned(merges, order) && r <= |order| && NoneBelow(merges, ids, r) && LowestStep(merges, ids, p, next)
    ensures r < s <= |order| && NoneBelow(merges, next, s)
    ensures Apply(ids, order[r..], BYTES + r) == Apply(next, order[s..], BYTES + s)
  {
    hide Apply, MergePass, PairsOf, Learned, NoneBelow, LowestStep;
    var k := LowestPlace(merges, order, ids, p, next, r);
    s := k + 1;
    ApplySkips(merges, order, ids, r, k);
    assert order[r..] == order[r..k] + order[k..];
    ApplyAppend(ids, order[r..k], order[k..], BYTES + r);
    ApplyCons(ids, order[k..], BYTES + k);
    assert order[k..][0] == p && order[k..][1..] == order[s..];
    MergeRaisesRank(merges, order, ids, k);
  }

  lemma ApplyCons(ids: seq<nat>, order: seq<Pair>, first: nat)
    requires order != []
    ensures Apply(ids, order, first) == Apply(MergePass(ids, order[0], first), order[1..], first + 1)
  {
    hide MergePass;
  }

  lemma FinalLaw(merges: map<Pair, nat>, order: seq<Pair>, ids: seq<nat>, r: nat)
    requires Learned(merges, order) && r <= |order| && Final(merges, ids)
    ensures Apply(ids, order[r..], BYTES + r) == ids
  {
    ApplySkips(merges, order, ids, r, |order|);
    assert order[r..|order|] == order[r..];
  }

  /** Every way of merging lowest rank first until nothing merges ends where the learned order ends. */
  lemma {:induction false} LowestFirstIsLearnedOrder(merges: map<Pair, nat>, order: seq<Pair>,
                                                     trace: seq<seq<nat>>, picks: seq<Pair>, r: nat)
    requires Learned(merges, order) && |trace| == |picks| + 1 && r <= |order| && NoneBelow(merges, trace[0], r)
    requires forall i :: 0 <= i < |picks| ==> LowestStep(merges, trace[i], picks[i], trace[i + 1])
    requires Final(merges, trace[|picks|])
    ensures trace[|picks|] == Apply(trace[0], order[r..], BYTES + r)
    decreases picks
  {
    hide Learned, NoneBelow, LowestStep, Apply, Final;
    if picks == [] {
      FinalLaw(merges, order, trace[0], r);
    } else {
      var s := LowestStepLaw(merges, order, trace[0], picks[0], trace[1], r);
      forall i | 0 <= i < |picks[1..]|
        ensures LowestStep(merges, trace[1..][i], picks[1..][i], trace[1..][i + 1])
      {
        assert LowestStep(merges, trace[i + 1], picks[i + 1], trace[i + 2]);
      }
      LowestFirstIsLearnedOrder(merges, order, trace[1..], picks[1..], s);
    }
  }

  /** The passes conserve the bytes. */
  lemma {:induction false} ApplyKeepsBytes(vocab: map<nat, seq<Byte>>, ids: seq<nat>, order: seq<Pair>, first: nat)
    requires forall i :: 0 <= i < |order| ==> Spells(vocab, order[i], first + i)
    ensures Expand(vocab, Apply(ids, order, first)) == Expand(vocab, ids)
    decreases order
  {
    if order != [] {
      assert Spells(vocab, order[0], first + 0);
      MergeKeepsBytes(vocab, ids, order[0], first);
      forall i | 0 <= i < |order[1..]|
        ensures Spells(vocab, order[1..][i], first + 1 + i)
      {
        assert Spells(vocab, order[i + 1], first + (i + 1));
      }
      ApplyKeepsBytes(vocab, MergePass(ids, order[0], first), order[1..], first + 1);
    }
  }

  lemma {:induction false} BytesSpellThemselves(vocab: map<nat, seq<Byte>>, bytes: seq<Byte>)
    requires forall b :: 0 <= b < BYTES ==> b in vocab && vocab[b] == [b]
    ensures Expand(vocab, bytes) == bytes
  {
    if bytes != [] {
      BytesSpellThemselves(vocab, bytes[1..]);
    }
  }
}
