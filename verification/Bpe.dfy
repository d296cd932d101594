/**
 `BPETokenizer` (quanta_tissu/tisslm/core/bpe_trainer.py): training, encoding and decoding.
 The regex splitter is any way of cutting a text into words, given to `Train` and `Encode`.
 */
module Bpe {
  import opened BpeSpec
  import opened Utf8

  /** The sequences after the passes for `order`. */
  ghost function ApplyEach(words: seq<seq<nat>>, order: seq<Pair>): (r: seq<seq<nat>>)
    ensures |r| == |words| && forall w :: 0 <= w < |words| ==> r[w] == Apply(words[w], order, BYTES)
  {
    seq(|words|, w requires 0 <= w < |words| => Apply(words[w], order, BYTES))
  }

  /** The sequences in which a pair occurs, however often in each. */
  ghost function Holders(p: Pair, seqs: seq<seq<nat>>): (r: set<nat>)
    ensures forall w :: w in r <==> 0 <= w < |seqs| && exists i :: 0 <= i < |seqs[w]| - 1 && p == (seqs[w][i], seqs[w][i + 1])
  {
    set w | 0 <= w < |seqs| && p in PairsOf(seqs[w])
  }

  ghost predicate MostFrequent(p: Pair, seqs: seq<seq<nat>>) {
    Holders(p, seqs) != {} && forall q :: |Holders(q, seqs)| <= |Holders(p, seqs)|
  }

  lemma HoldersSnoc(p: Pair, seqs: seq<seq<nat>>, k: nat)
    requires k < |seqs|
    ensures |Holders(p, seqs[..k + 1])| == |Holders(p, seqs[..k])| + if p in PairsOf(seqs[k]) then 1 else 0
  {
    hide PairsOf;
    var before := Holders(p, seqs[..k]);
    assert forall w | 0 <= w < k :: seqs[..k][w] == seqs[..k + 1][w] == seqs[w];
    assert Holders(p, seqs[..k + 1]) == if p in PairsOf(seqs[k]) then before + {k} else before;
  }

  /** `get_pairs` */
  method GetPairs(ids: seq<nat>) returns (pairs: set<Pair>)
    ensures pairs == PairsOf(ids)
  {
    pairs := {};
    var i := 0;
    while i < |ids| - 1
      invariant i <= |ids| && (0 < |ids| ==> i < |ids| && pairs == PairsOf(ids[..i + 1]))
      invariant ids == [] ==> pairs == {}
    {
      pairs := pairs + {(ids[i], ids[i + 1])};
      PairsSnoc(ids[..i + 1], ids[i + 1]);
      assert ids[..i + 2] == ids[..i + 1] + [ids[i + 1]];
      i := i + 1;
    }
    assert 0 < |ids| ==> ids[..i + 1] == ids;
  }

  lemma PairsSnoc(ids: seq<nat>, x: nat)
    requires ids != []
    ensures PairsOf(ids + [x]) == PairsOf(ids) + {(ids[|ids| - 1], x)}
  {
    var w := ids + [x];
    InPairs(w, |ids| - 1);
    forall q | q in PairsOf(ids)
      ensures q in PairsOf(w)
    {
      var i :| 0 <= i < |ids| - 1 && q == (ids[i], ids[i + 1]);
      InPairs(w, i);
    }
    forall q | q in PairsOf(w)
      ensures q in PairsOf(ids) + {(ids[|ids| - 1], x)}
    {
      var i :| 0 <= i < |w| - 1 && q == (w[i], w[i + 1]);
      if i < |ids| - 1 {
        InPairs(ids, i);
      }
    }
  }

  lemma NothingMerged(p: Pair, id: nat)
    ensures MergePass([], p, id) == []
  {
  }

  /** One turn of the merge loop at index `j`. */
  lemma MergeTurn(ids: seq<nat>, j: nat, p: Pair, id: nat, merged: seq<nat>)
    requires j < |ids|
    ensures merged + MergePass(ids[j..], p, id) ==
            if j < |ids| - 1 && (ids[j], ids[j + 1]) == p then merged + [id] + MergePass(ids[j + 2..], p, id)
            else merged + [ids[j]] + MergePass(ids[j + 1..], p, id)
  {
    assert j < |ids| - 1 ==> ids[j..][2..] == ids[j + 2..];
    assert ids[j..][1..] == ids[j + 1..];
    if j == |ids| - 1 {
      assert ids[j..] == [ids[j]] && ids[j + 1..] == [];
    }
  }

  /** The merge loop that training and encoding share. */
  method MergePair(ids: seq<nat>, p: Pair, id: nat) returns (merged: seq<nat>)
    ensures merged == MergePass(ids, p, id)
  {
    hide MergePass;
    merged := [];
    var j := 0;
    assert MergePass([], p, id) == [] by { NothingMerged(p, id); }
    assert ids[0..] == ids && ids[|ids|..] == [];
    while j < |ids|
      invariant j <= |ids| && merged + MergePass(ids[j..], p, id) == MergePass(ids, p, id)
    {
      MergeTurn(ids, j, p, id, merged);
      if j < |ids| - 1 && (ids[j], ids[j + 1]) == p {
        merged := merged + [id];
        j := j + 2;
      } else {
        merged := merged + [ids[j]];
        j := j + 1;
      }
    }
    assert merged + [] == merged;
  }

  method MergeEach(seqs: seq<seq<nat>>, p: Pair, id: nat) returns (next: seq<seq<nat>>)
    ensures |next| == |seqs| && forall w :: 0 <= w < |next| ==> next[w] == MergePass(seqs[w], p, id)
  {
    next := [];
    for w := 0 to |seqs|
      invariant |next| == w && forall v :: 0 <= v < w ==> next[v] == MergePass(seqs[v], p, id)
    {
      var merged := MergePair(seqs[w], p, id);
      next := next + [merged];
    }
  }

  function CountOf(counts: map<Pair, nat>, p: Pair): nat { if p in counts then counts[p] else 0 }

  /** One more for every pair of a sequence. */
  method CountEach(pairs: set<Pair>, before: map<Pair, nat>) returns (counts: map<Pair, nat>)
    requires forall p :: p in before ==> 1 <= before[p]
    ensures forall p :: CountOf(counts, p) == CountOf(before, p) + if p in pairs then 1 else 0
    ensures forall p :: p in counts ==> 1 <= counts[p]
  {
    counts := before;
    var todo := pairs;
    while todo != {}
      invariant todo <= pairs
      invariant forall p :: CountOf(counts, p) == CountOf(before, p) + if p in pairs - todo then 1 else 0
      invariant forall p :: p in counts ==> 1 <= counts[p]
      decreases todo
    {
      var p :| p in todo;
      counts := counts[p := CountOf(counts, p) + 1];
      todo := todo - {p};
    }
  }

  /** For every pair that occurs, how many sequences hold it, as one training round counts them. */
  method CountPairs(seqs: seq<seq<nat>>) returns (counts: map<Pair, nat>)
    ensures forall p :: |Holders(p, seqs)| == CountOf(counts, p)
    ensures forall p :: p in counts ==> 1 <= counts[p]
  {
    hide Holders, PairsOf, CountOf;
    counts := map[];
    assert forall p :: Holders(p, []) == {} && CountOf(map[], p) == 0 by { NoHolders(); }
    assert seqs[..0] == [];
    for k := 0 to |seqs|
      invariant forall p :: |Holders(p, seqs[..k])| == CountOf(counts, p)
      invariant forall p :: p in counts ==> 1 <= counts[p]
    {
      var pairs := GetPairs(seqs[k]);
      ghost var before := counts;
      counts := CountEach(pairs, counts);
      forall p ensures |Holders(p, seqs[..k + 1])| == CountOf(counts, p) {
        HoldersSnoc(p, seqs, k);
      }
    }
    assert seqs[..|seqs|] == seqs;
  }

  lemma NoHolders()
    ensures forall p :: Holders(p, []) == {} && CountOf(map[], p) == 0
  {
  }

  lemma HoldsFirst(seqs: seq<seq<nat>>, w: nat)
    requires w < |seqs| && 2 <= |seqs[w]|
    ensures w in Holders((seqs[w][0], seqs[w][1]), seqs)
  {
    InPairs(seqs[w], 0);
  }

  /** Where no pair is counted, every sequence is down to one id. */
  lemma NothingToMerge(seqs: seq<seq<nat>>, counts: map<Pair, nat>)
    requires forall p :: |Holders(p, seqs)| == CountOf(counts, p)
    requires counts == map[]
    ensures forall w | 0 <= w < |seqs| :: |seqs[w]| < 2
  {
    hide Holders;
    forall w | 0 <= w < |seqs| ensures |seqs[w]| < 2 {
      if 2 <= |seqs[w]| {
        HoldsFirst(seqs, w);
      }
    }
  }

  /** Some key of a nonempty map has the largest value, and some the smallest. */
  lemma {:induction false} SomeBest(keys: set<Pair>, value: map<Pair, int>) returns (p: Pair)
    requires keys != {} && keys <= value.Keys
    ensures p in keys && forall q :: q in keys ==> value[q] <= value[p]
    decreases |keys|
  {
    p :| p in keys;
    var rest := keys - {p};
    assert forall q :: q in keys <==> q == p || q in rest;
    if rest != {} {
      var m := SomeBest(rest, value);
      if value[p] < value[m] {
        p := m;
      }
    }
  }

  /** A pair that most of the sequences hold, whichever a tie yields, unless every sequence is down to one id. */
  method BestPair(seqs: seq<seq<nat>>) returns (found: bool, best: Pair)
    ensures found ==> MostFrequent(best, seqs)
    ensures !found ==> forall w | 0 <= w < |seqs| :: |seqs[w]| < 2
  {
    hide Holders;
    var counts := CountPairs(seqs);
    if counts == map[] {
      NothingToMerge(seqs, counts);
      return false, (0, 0);
    }
    ghost var some := SomeBest(counts.Keys, counts);
    best :| best in counts && forall q :: q in counts ==> counts[q] <= counts[best];
    assert |Holders(best, seqs)| == counts[best] >= 1;
    found := true;
  }

  /** The words as lists of byte ids. */
  function BytesOf(texts: seq<seq<Scalar>>): (r: seq<seq<nat>>)
    ensures |r| == |texts| && IdsBelow(r, BYTES)
    ensures forall w :: 0 <= w < |r| ==> r[w] == Utf8.Encode(texts[w])
  {
    seq(|texts|, w requires 0 <= w < |texts| => Utf8.Encode(texts[w]))
  }

  function Joined(texts: seq<seq<Scalar>>): seq<Scalar> {
    if texts == [] then [] else Joined(texts[..|texts| - 1]) + texts[|texts| - 1]
  }

  // ---------- one round of training ----------

  ghost predicate IdsBelow(seqs: seq<seq<nat>>, bound: nat) {
    forall w, k :: 0 <= w < |seqs| && 0 <= k < |seqs[w]| ==> seqs[w][k] < bound
  }

  ghost predicate NowhereIn(p: Pair, seqs: seq<seq<nat>>) {
    forall w :: 0 <= w < |seqs| ==> p !in PairsOf(seqs[w])
  }

  /** After the rounds that learned `order`, the words have become `seqs`. */
  ghost predicate Rounds(words: seq<seq<nat>>, seqs: seq<seq<nat>>, order: seq<Pair>) {
    && seqs == ApplyEach(words, order)
    && IdsBelow(seqs, BYTES + |order|)
    && (forall i :: 0 <= i < |order| ==> order[i].0 < BYTES + i && order[i].1 < BYTES + i)
    && (forall i :: 0 <= i < |order| ==> MostFrequent(order[i], ApplyEach(words, order[..i])))
    && (forall i :: 0 <= i < |order| ==> NowhereIn(order[i], seqs))
    && forall i, j :: 0 <= i < j < |order| ==> order[i] != order[j]
  }

  ghost predicate VocabFor(vocab: map<nat, seq<Byte>>, order: seq<Pair>) {
    && (forall b :: 0 <= b < BYTES ==> b in vocab && vocab[b] == [b])
    && (forall i :: 0 <= i < BYTES + |order| ==> i in vocab)
    && forall i :: 0 <= i < |order| ==> Spells(vocab, order[i], BYTES + i)
  }

  lemma RoundStep(words: seq<seq<nat>>, seqs: seq<seq<nat>>, order: seq<Pair>, p: Pair, next: seq<seq<nat>>)
    requires Rounds(words, seqs, order) && MostFrequent(p, seqs)
    requires |next| == |seqs| && forall w :: 0 <= w < |next| ==> next[w] == MergePass(seqs[w], p, BYTES + |order|)
    ensures Rounds(words, next, order + [p])
    ensures p.0 < BYTES + |order| && p.1 < BYTES + |order| && p !in order
  {
    hide MostFrequent, NowhereIn;
    var n, order' := |order|, order + [p];
    NewPair(words, seqs, order, p);
    forall w | 0 <= w < |next|
      ensures next[w] == Apply(words[w], order', BYTES)
    {
      ApplyAppend(words[w], order, [p], BYTES);
      assert Apply(seqs[w], [p], BYTES + n) == Apply(next[w], [], BYTES + n + 1);
    }
    forall w, k | 0 <= w < |next| && 0 <= k < |next[w]|
      ensures next[w][k] < BYTES + n + 1
    {
      IdsAfterMerge(seqs[w], p, BYTES + n);
      assert next[w][k] in next[w];
    }
    forall i | 0 <= i <= n
      ensures MostFrequent(order'[i], ApplyEach(words, order'[..i]))
    {
      assert order'[..i] == order[..i] && order[..n] == order;
    }
    forall i | 0 <= i <= n
      ensures NowhereIn(order'[i], next)
    {
      StaysAway(seqs, p, BYTES + n, next, order'[i]);
    }
  }

  /** A pair that occurs has not been learned before. */
  lemma NewPair(words: seq<seq<nat>>, seqs: seq<seq<nat>>, order: seq<Pair>, p: Pair)
    requires Rounds(words, seqs, order) && MostFrequent(p, seqs)
    ensures p.0 < BYTES + |order| && p.1 < BYTES + |order|
    ensures forall i :: 0 <= i < |order| ==> order[i] != p
  {
    Occurs(p, seqs);
    assert forall i :: 0 <= i < |order| ==> NowhereIn(order[i], seqs);
  }

  /** A pair of old ids that is the merged one or occurred nowhere occurs nowhere after the round. */
  lemma StaysAway(seqs: seq<seq<nat>>, p: Pair, id: nat, next: seq<seq<nat>>, q: Pair)
    requires |next| == |seqs| && forall w :: 0 <= w < |next| ==> next[w] == MergePass(seqs[w], p, id)
    requires q.0 < id && q.1 < id && (q == p || NowhereIn(q, seqs))
    ensures NowhereIn(q, next)
  {
    forall w | 0 <= w < |next|
      ensures q !in PairsOf(next[w])
    {
      if q in PairsOf(next[w]) {
        PairsAfterMerge(seqs[w], p, id, q);
      }
    }
  }

  lemma VocabStep(vocab: map<nat, seq<Byte>>, order: seq<Pair>, p: Pair)
    requires VocabFor(vocab, order) && p.0 < BYTES + |order| && p.1 < BYTES + |order|
    requires forall i :: 0 <= i < |order| ==> order[i].0 < BYTES + i && order[i].1 < BYTES + i
    ensures VocabFor(vocab[BYTES + |order| := vocab[p.0] + vocab[p.1]], order + [p])
  {
    var vocab' := vocab[BYTES + |order| := vocab[p.0] + vocab[p.1]];
    forall i | 0 <= i < |order|
      ensures Spells(vocab', order[i], BYTES + i)
    {
      assert Spells(vocab, order[i], BYTES + i);
    }
  }

  /** Training leaves the merges of an earlier training in place, and adds or replaces those it learns. */
  ghost predicate Overlaid(before: map<Pair, nat>, order: seq<Pair>, merges: map<Pair, nat>) {
    && (forall i | 0 <= i < |order| :: order[i] in merges && merges[order[i]] == BYTES + i)
    && (forall p | p !in order :: p in merges <==> p in before)
    && (forall p | p !in order && p in before :: merges[p] == before[p])
  }

  /** After training again, the tokenizer is as if trained once if and only if every older pair was learned again. */
  lemma Retrained(before: map<Pair, nat>, order: seq<Pair>, merges: map<Pair, nat>)
    requires Overlaid(before, order, merges)
    requires forall i :: 0 <= i < |order| ==> order[i].0 < BYTES + i && order[i].1 < BYTES + i
    ensures Learned(merges, order) <==> forall p :: p in before ==> p in order
  {
    if Learned(merges, order) {
      forall p | p in before ensures p in order {
        assert p !in order ==> p in merges;
      }
    }
    if forall p :: p in before ==> p in order {
      forall p | p in merges ensures BYTES <= merges[p] < BYTES + |order| && order[merges[p] - BYTES] == p {
        assert p in order;
        var i :| 0 <= i < |order| && order[i] == p;
      }
    }
  }

  // ---------- whatever was learned when ----------

  /** Every byte is its own id, and every merge, of this training or an older one, spells its parts. */
  ghost predicate AllSpell(merges: map<Pair, nat>, vocab: map<nat, seq<Byte>>) {
    (forall p :: p in merges ==> Spells(vocab, p, merges[p])) && ByteVocab(vocab)
  }

  ghost predicate ByteVocab(vocab: map<nat, seq<Byte>>) { forall b :: 0 <= b < BYTES ==> b in vocab && vocab[b] == [b] }

  lemma LearnedSpell(merges: map<Pair, nat>, vocab: map<nat, seq<Byte>>, order: seq<Pair>)
    requires Learned(merges, order) && VocabFor(vocab, order)
    ensures AllSpell(merges, vocab)
  {
    forall p | p in merges ensures Spells(vocab, p, merges[p]) {
      assert Spells(vocab, order[merges[p] - BYTES], merges[p]);
    }
  }

  /** Where every merge spells its parts, encoding keeps the bytes. */
  lemma {:induction false} TraceKeepsBytes(merges: map<Pair, nat>, vocab: map<nat, seq<Byte>>, bytes: seq<Byte>, ids: seq<nat>,
                                           trace: seq<seq<nat>>, picks: seq<Pair>)
    requires IsTrace(merges, bytes, ids, trace, picks) && AllSpell(merges, vocab)
    ensures Expand(vocab, ids) == bytes
    decreases picks
  {
    hide Expand, MergePass, PairsOf;
    if picks == [] {
      BytesSpellThemselves(vocab, bytes);
    } else {
      var n := |picks| - 1;
      assert LowestStep(merges, trace[n], picks[n], trace[n + 1]);
      assert IsTrace(merges, bytes, trace[n], trace[..n + 1], picks[..n]) by {
        forall i | 0 <= i < n ensures LowestStep(merges, trace[..n + 1][i], picks[..n][i], trace[..n + 1][i + 1]) {
          assert LowestStep(merges, trace[i], picks[i], trace[i + 1]);
        }
      }
      TraceKeepsBytes(merges, vocab, bytes, trace[n], trace[..n + 1], picks[..n]);
      MergeKeepsBytes(vocab, trace[n], picks[n], merges[picks[n]]);
    }
  }

  lemma Occurs(p: Pair, seqs: seq<seq<nat>>)
    requires Holders(p, seqs) != {}
    ensures exists w :: 0 <= w < |seqs| && p in PairsOf(seqs[w])
  {
    var w :| w in Holders(p, seqs);
    assert p in PairsOf(seqs[w]);
  }

  /** What a round learned, no fewer of the sequences as they then stood held than any other pair. */
  lemma LearnedMost(words: seq<seq<nat>>, finals: seq<seq<nat>>, order: seq<Pair>)
    requires Rounds(words, finals, order)
    ensures forall i, q {:trigger Holders(q, ApplyEach(words, order[..i]))} | 0 <= i < |order| ::
              |Holders(q, ApplyEach(words, order[..i]))| <= |Holders(order[i], ApplyEach(words, order[..i]))|
  {
    hide Holders, ApplyEach, NowhereIn, IdsBelow;
    forall i, q {:trigger Holders(q, ApplyEach(words, order[..i]))} | 0 <= i < |order|
      ensures |Holders(q, ApplyEach(words, order[..i]))| <= |Holders(order[i], ApplyEach(words, order[..i]))| {
      assert MostFrequent(order[i], ApplyEach(words, order[..i]));
    }
  }

  class BPETokenizer {
    var merges: map<Pair, nat>
    var vocab: map<nat, seq<Byte>>
    ghost var order: seq<Pair>   // the pairs of the last training, in the order they were learned

    constructor ()
      ensures merges == map[] && vocab == map[] && order == []
    {
      merges, vocab, order := map[], map[], [];
    }

    /** A tokenizer trained once: its merges, and a vocabulary in which every id spells its parts. */
    ghost predicate Valid()
      reads this
    {
      Learned(merges, order) && VocabFor(vocab, order)
    }

    /**
     `train`: `texts` are the words of the text, taken as their bytes. The round number `i` learns a most
     frequent pair of the sequences as they stand, under the id `256 + i`; `finals` is the segmentation
     training ends with. A vocabulary below 256 is refused.
     */
    method Train(texts: seq<seq<Scalar>>, vocabSize: int) returns (ok: bool, finals: seq<seq<nat>>)
      modifies this
      ensures ok <==> BYTES <= vocabSize
      ensures !ok ==> merges == old(merges) && vocab == old(vocab)
      ensures ok ==> Rounds(BytesOf(texts), finals, order) && VocabFor(vocab, order) && |order| <= vocabSize - BYTES
      ensures ok ==> forall i, q {:trigger Holders(q, ApplyEach(BytesOf(texts), order[..i]))} | 0 <= i < |order| ::
        |Holders(q, ApplyEach(BytesOf(texts), order[..i]))| <= |Holders(order[i], ApplyEach(BytesOf(texts), order[..i]))|
      ensures ok && |order| < vocabSize - BYTES ==> forall w | 0 <= w < |finals| :: |finals[w]| < 2
      ensures ok ==> Overlaid(old(merges), order, merges)
      ensures ok ==> (Valid() <==> forall p :: p in old(merges) ==> p in order)
    {
      hide Rounds, VocabFor, Learned, Holders, ApplyEach, MostFrequent;
      if vocabSize < BYTES {
        return false, [];
      }
      var words := BytesOf(texts);
      ok, finals, order := true, words, [];
      vocab := map b | 0 <= b < BYTES :: [b];
      assert Rounds(words, words, []) && VocabFor(vocab, []) by { Start(words, vocab); }
      var round := 0;
      while round < vocabSize - BYTES
        invariant 0 <= round <= vocabSize - BYTES && |order| == round
        invariant Rounds(words, finals, order) && VocabFor(vocab, order)
        invariant Overlaid(old(merges), order, merges)
      {
        var found, best := BestPair(finals);
        if !found {
          break;
        }
        var id := BYTES + round;
        var next := MergeEach(finals, best, id);
        RoundStep(words, finals, order, best, next);
        RoundsOlder(words, finals, order);
        VocabStep(vocab, order, best);
        InVocab(vocab, order, best);
        merges := merges[best := id];
        vocab := vocab[id := vocab[best.0] + vocab[best.1]];
        finals, order, round := next, order + [best], round + 1;
      }
      RoundsOlder(words, finals, order);
      Retrained(old(merges), order, merges);
      LearnedMost(words, finals, order);
    }

    /** `_encode_chunk`, with the sequences it goes through and the pairs it picks, lowest rank first. */
    method EncodeChunk(bytes: seq<Byte>) returns (ids: seq<nat>, ghost trace: seq<seq<nat>>, ghost picks: seq<Pair>)
      ensures IsTrace(merges, bytes, ids, trace, picks) && Final(merges, ids)
      ensures Learned(merges, order) ==> ids == Apply(bytes, order, BYTES)
    {
      hide Learned, NoneBelow, NotAfter, Apply, MergePass, PairsOf, IsTrace;
      StartTrace(merges, bytes);
      ids := bytes;
      trace, picks := [bytes], [];
      ghost var r := 0;
      if Learned(merges, order) {
        RanksFromZero(merges, order, ids);
      }
      assert order[0..] == order;
      while |ids| >= 2
        invariant IsTrace(merges, bytes, ids, trace, picks)
        invariant Learned(merges, order) ==>
            r <= |order| && NoneBelow(merges, ids, r) && Apply(ids, order[r..], BYTES + r) == Apply(bytes, order, BYTES)
        decreases |ids|
      {
        var pairs := GetPairs(ids);
        InPairs(ids, 0);
        ghost var some := SomeLowest(pairs, merges);
        var best :| best in pairs && NotAfter(merges, best, pairs);
        if best !in merges {
          NothingRanked(merges, best, pairs);
          break;
        }
        LowestIsLowest(merges, best, pairs);
        MergeShortens(ids, best, merges[best]);
        var merged := MergePair(ids, best, merges[best]);
        if Learned(merges, order) {
          r := LowestStepLaw(merges, order, ids, best, merged, r);
        }
        TraceStep(merges, bytes, ids, trace, picks, best, merged);
        ids, trace, picks := merged, trace + [merged], picks + [best];
      }
      if |ids| < 2 {
        NoPairs(ids);
      }
      if Learned(merges, order) {
        FinalLaw(merges, order, ids, r);
      }
    }

    /** `encode` on a text cut into `texts`. */
    method Encode(texts: seq<seq<Scalar>>) returns (ids: seq<nat>)
      ensures AllSpell(merges, vocab) ==> Expand(vocab, ids) == Utf8.Encode(Joined(texts))
      ensures Valid() ==> ids == JoinedIds(ApplyEach(BytesOf(texts), order))
      ensures |texts| == 1 && |Utf8.Encode(texts[0])| == 2 ==>
        ids == EncodedPair(merges, Utf8.Encode(texts[0])[0], Utf8.Encode(texts[0])[1])
    {
      ids := [];
      for w := 0 to |texts|
        invariant AllSpell(merges, vocab) ==> Expand(vocab, ids) == Utf8.Encode(Joined(texts[..w]))
        invariant Valid() ==> ids == JoinedIds(ApplyEach(BytesOf(texts[..w]), order))
        invariant w == 0 ==> ids == []
        invariant w == 1 == |texts| && |Utf8.Encode(texts[0])| == 2 ==>
          ids == EncodedPair(merges, Utf8.Encode(texts[0])[0], Utf8.Encode(texts[0])[1])
      {
        var chunk, trace, picks := EncodeChunk(Utf8.Encode(texts[w]));
        if AllSpell(merges, vocab) {
          TraceKeepsBytes(merges, vocab, Utf8.Encode(texts[w]), chunk, trace, picks);
          MoreBytes(texts, w, vocab, ids, chunk);
        }
        if Valid() {
          IdsLast(texts, w, order);
        }
        if |Utf8.Encode(texts[w])| == 2 {
          TwoBytes(merges, Utf8.Encode(texts[w]), chunk, trace, picks);
        }
        ids := ids + chunk;
      }
      assert texts[..|texts|] == texts;
    }

    /** `decode` */
    method Decode(ids: seq<nat>, replaced: seq<Byte> -> seq<Scalar>) returns (text: seq<Scalar>)
      ensures text == DecodeFrom(Expand(vocab, ids), 0, replaced)
      ensures forall t :: Expand(vocab, ids) == Utf8.Encode(t) ==> text == t
    {
      var bytes := [];
      for k := 0 to |ids|
        invariant bytes == Expand(vocab, ids[..k])
      {
        assert ids[..k + 1] == ids[..k] + [ids[k]];
        ExpandAppend(vocab, ids[..k], [ids[k]]);
        bytes := bytes + if ids[k] in vocab then vocab[ids[k]] else [];
      }
      assert ids[..|ids|] == ids;
      text := Utf8.Decode(bytes, replaced);
    }

    /**
     Decoding what was encoded gives the text back, whatever words it was cut into, if every merge spells its
     parts; on a tokenizer trained once they all do.
     */
    method EncodeDecode(texts: seq<seq<Scalar>>, replaced: seq<Byte> -> seq<Scalar>) returns (text: seq<Scalar>)
      ensures Valid() ==> AllSpell(merges, vocab)
      ensures AllSpell(merges, vocab) ==> text == Joined(texts)
    {
      if Valid() {
        LearnedSpell(merges, vocab, order);
      }
      var ids := Encode(texts);
      text := Decode(ids, replaced);
    }

    /**
     A word of two ASCII letters, encoded and decoded: its bytes come back if and only if the pair was never
     merged or its id spells it, and so does the word, unless the id's bytes are not all ASCII.
     */
    method EncodeDecodeTwo(a: Scalar, b: Scalar, replaced: seq<Byte> -> seq<Scalar>) returns (ids: seq<nat>, text: seq<Scalar>)
      requires a < 128 && b < 128
      ensures ByteVocab(vocab) ==>
        (Expand(vocab, ids) == [a, b] <==> ((a, b) in merges ==> Spells(vocab, (a, b), merges[(a, b)])))
      ensures Expand(vocab, ids) == [a, b] ==> text == [a, b]
      ensures text == [a, b] && (forall x <- Expand(vocab, ids) :: x < 128) ==> Expand(vocab, ids) == [a, b]
    {
      TwoAscii(a, b);
      ids := Encode([[a, b]]);
      if ByteVocab(vocab) {
        PairSpelled(merges, vocab, a, b);
      }
      text := Decode(ids, replaced);
      ghost var bytes := Expand(vocab, ids);
      if forall x <- bytes :: x < 128 {
        AsciiSelf(bytes);
      }
    }

    /** On a fresh tokenizer, encoding a training word gives exactly the segmentation training ended with. */
    method TrainEncode(texts: seq<seq<Scalar>>, vocabSize: int, w: nat) returns (final: seq<nat>, ids: seq<nat>)
      requires merges == map[] && BYTES <= vocabSize && w < |texts|
      modifies this
      ensures Valid() && ids == final == Apply(Utf8.Encode(texts[w]), order, BYTES)
    {
      var ok, finals := Train(texts, vocabSize);
      final := finals[w];
      var chunk, _, _ := EncodeChunk(Utf8.Encode(texts[w]));
      ids := chunk;
    }
  }

  /** Each sequence of the trace comes from the one before by a pass for its lowest-ranked pair. */
  ghost predicate IsTrace(merges: map<Pair, nat>, bytes: seq<Byte>, ids: seq<nat>, trace: seq<seq<nat>>, picks: seq<Pair>) {
    && |trace| == |picks| + 1 && trace[0] == bytes && trace[|picks|] == ids
    && forall i | 0 <= i < |picks| :: LowestStep(merges, trace[i], picks[i], trace[i + 1])
  }

  lemma StartTrace(merges: map<Pair, nat>, bytes: seq<Byte>)
    ensures IsTrace(merges, bytes, bytes, [bytes], [])
  {
  }

  lemma TraceStep(merges: map<Pair, nat>, bytes: seq<Byte>, ids: seq<nat>, trace: seq<seq<nat>>, picks: seq<Pair>, p: Pair, next: seq<nat>)
    requires IsTrace(merges, bytes, ids, trace, picks) && LowestStep(merges, ids, p, next)
    ensures IsTrace(merges, bytes, next, trace + [next], picks + [p])
  {
    hide LowestStep;
  }

  /** What two bytes are encoded as. */
  function EncodedPair(merges: map<Pair, nat>, a: Byte, b: Byte): seq<nat> {
    if (a, b) in merges then [merges[(a, b)]] else [a, b]
  }

  lemma TwoBytes(merges: map<Pair, nat>, bytes: seq<Byte>, ids: seq<nat>, trace: seq<seq<nat>>, picks: seq<Pair>)
    requires |bytes| == 2 && IsTrace(merges, bytes, ids, trace, picks) && Final(merges, ids)
    ensures ids == EncodedPair(merges, bytes[0], bytes[1])
  {
    hide MergePass;
    InPairs(bytes, 0);
    if picks != [] {
      assert LowestStep(merges, trace[0], picks[0], trace[1]);
      OneMerge(bytes, merges[picks[0]]);
      NoPairs(trace[1]);
      assert |picks| > 1 ==> LowestStep(merges, trace[1], picks[1], trace[2]);
    }
  }

  lemma OneMerge(ids: seq<nat>, id: nat)
    requires |ids| == 2
    ensures MergePass(ids, (ids[0], ids[1]), id) == [id]
  {
    assert MergePass(ids[2..], (ids[0], ids[1]), id) == [];
  }

  ghost function JoinedIds(seqs: seq<seq<nat>>): seq<nat> {
    if seqs == [] then [] else JoinedIds(seqs[..|seqs| - 1]) + seqs[|seqs| - 1]
  }

  lemma MoreBytes(texts: seq<seq<Scalar>>, w: nat, vocab: map<nat, seq<Byte>>, ids: seq<nat>, chunk: seq<nat>)
    requires w < |texts| && Expand(vocab, chunk) == Utf8.Encode(texts[w])
    requires Expand(vocab, ids) == Utf8.Encode(Joined(texts[..w]))
    ensures Expand(vocab, ids + chunk) == Utf8.Encode(Joined(texts[..w + 1]))
  {
    var upTo := texts[..w + 1];
    assert upTo[..w] == texts[..w] && upTo[w] == texts[w];
    assert Joined(upTo) == Joined(texts[..w]) + texts[w] by { JoinedLast(upTo); }
    hide *;
    ExpandAppend(vocab, ids, chunk);
    EncodeAppend(Joined(texts[..w]), texts[w]);
  }

  lemma JoinedLast(texts: seq<seq<Scalar>>)
    requires texts != []
    ensures Joined(texts) == Joined(texts[..|texts| - 1]) + texts[|texts| - 1]
  {
  }

  lemma IdsLast(texts: seq<seq<Scalar>>, w: nat, order: seq<Pair>)
    requires w < |texts|
    ensures JoinedIds(ApplyEach(BytesOf(texts[..w + 1]), order)) ==
            JoinedIds(ApplyEach(BytesOf(texts[..w]), order)) + Apply(Utf8.Encode(texts[w]), order, BYTES)
  {
    hide Apply, Utf8.Encode;
    var e := ApplyEach(BytesOf(texts[..w + 1]), order);
    assert e[..w] == ApplyEach(BytesOf(texts[..w]), order);
  }

  lemma RanksFromZero(merges: map<Pair, nat>, order: seq<Pair>, ids: seq<nat>)
    requires Learned(merges, order)
    ensures NoneBelow(merges, ids, 0)
  {
  }

  /** `p` is a minimum of `pairs` by rank, where pairs that were not learned rank last. */
  predicate NotAfter(merges: map<Pair, nat>, p: Pair, pairs: set<Pair>) {
    forall q :: q in pairs && q in merges ==> p in merges && merges[p] <= merges[q]
  }

  lemma NoPairs(ids: seq<nat>)
    requires |ids| < 2
    ensures PairsOf(ids) == {}
  {
  }

  lemma NothingRanked(merges: map<Pair, nat>, p: Pair, pairs: set<Pair>)
    requires NotAfter(merges, p, pairs) && p !in merges
    ensures forall q :: q in pairs ==> q !in merges
  {
  }

  lemma LowestIsLowest(merges: map<Pair, nat>, p: Pair, pairs: set<Pair>)
    requires NotAfter(merges, p, pairs) && p in merges
    ensures forall q :: q in pairs && q in merges ==> merges[p] <= merges[q]
  {
  }

  lemma SomeLowest(pairs: set<Pair>, merges: map<Pair, nat>) returns (p: Pair)
    requires pairs != {}
    ensures p in pairs && NotAfter(merges, p, pairs)
  {
    var known := pairs * merges.Keys;
    if known == {} {
      p :| p in pairs;
      assert forall q :: q in pairs && q in merges ==> q in known;
    } else {
      var value: map<Pair, int> := map q | q in merges :: -(merges[q] as int);
      p := SomeBest(known, value);
      forall q | q in pairs && q in merges
        ensures merges[p] <= merges[q]
      {
        assert q in known && value[q] <= value[p];
      }
    }
  }

  lemma Start(words: seq<seq<nat>>, vocab: map<nat, seq<Byte>>)
    requires IdsBelow(words, BYTES) && vocab == map b | 0 <= b < BYTES :: [b]
    ensures Rounds(words, words, []) && VocabFor(vocab, [])
  {
  }

  lemma RoundsOlder(words: seq<seq<nat>>, seqs: seq<seq<nat>>, order: seq<Pair>)
    requires Rounds(words, seqs, order)
    ensures forall i :: 0 <= i < |order| ==> order[i].0 < BYTES + i && order[i].1 < BYTES + i
  {
  }

  lemma InVocab(vocab: map<nat, seq<Byte>>, order: seq<Pair>, p: Pair)
    requires VocabFor(vocab, order) && p.0 < BYTES + |order| && p.1 < BYTES + |order|
    ensures p.0 in vocab && p.1 in vocab
  {
  }

  // ---------- training twice ----------

  const AB: seq<Scalar> := [97, 98]
  const CD: seq<Scalar> := [99, 100]

  /** The merges of an earlier training stay behind: after learning "ab" and then "cd", "ab" comes back as "cd". */
  method TrainTwice(replaced: seq<Byte> -> seq<Scalar>) returns (text: seq<Scalar>)
    ensures AB != CD && text == CD
  {
    hide Holders, EncodeChar;
    var t := new BPETokenizer();
    var ok, finals := t.Train([AB], BYTES + 1);
    OnlyPair(AB, finals, t.order);
    var ok', finals' := t.Train([CD], BYTES + 1);
    OnlyPair(CD, finals', t.order);
    Spelled(t.vocab, t.order);
    assert Utf8.Encode(AB) == [97, 98] && Utf8.Encode(CD) == [99, 100] by { TwoAscii(97, 98); TwoAscii(99, 100); }
    var ids := t.Encode([AB]);
    assert ids == [BYTES];
    OneId(t.vocab, BYTES);
    text := t.Decode(ids, replaced);
  }

  lemma TwoAscii(a: Scalar, b: Scalar)
    requires a < 128 && b < 128
    ensures Utf8.Encode([a, b]) == [a, b]
  {
    assert [a, b][1..] == [b] && [b][1..] == [];
    assert Utf8.Encode([]) == [] && Utf8.Encode([b]) == [b] + [] && Utf8.Encode([a, b]) == [a] + [b];
  }

  /** ASCII bytes are their own text. */
  lemma {:induction false} AsciiSelf(bytes: seq<Byte>)
    requires forall x <- bytes :: x < 128
    ensures Utf8.Encode(bytes) == bytes
  {
    if bytes != [] {
      assert bytes[0] in bytes && bytes == [bytes[0]] + bytes[1..];
      assert forall x <- bytes[1..] :: x in bytes;
      AsciiSelf(bytes[1..]);
    }
  }

  /** What two bytes are encoded as has their bytes if and only if the pair is no merge or its id spells it. */
  lemma PairSpelled(merges: map<Pair, nat>, vocab: map<nat, seq<Byte>>, a: Byte, b: Byte)
    requires ByteVocab(vocab)
    ensures Expand(vocab, EncodedPair(merges, a, b)) == [a, b] <==> ((a, b) in merges ==> Spells(vocab, (a, b), merges[(a, b)]))
  {
    assert vocab[a] + vocab[b] == [a, b];
    if (a, b) in merges {
      var id := merges[(a, b)];
      assert [id][1..] == [] && Expand(vocab, []) == [];
      assert Expand(vocab, [id]) == (if id in vocab then vocab[id] else []) + [];
    } else {
      assert [a, b][1..] == [b] && [b][1..] == [];
      assert Expand(vocab, [b]) == vocab[b] + [] && Expand(vocab, [a, b]) == vocab[a] + Expand(vocab, [b]);
    }
  }

  /** Other bytes can decode to the same word: a stray continuation byte is skipped. */
  lemma StrayByteSkipped(stray: Byte, a: Scalar, b: Scalar, replaced: seq<Byte> -> seq<Scalar>)
    requires 128 <= stray < 192 && a < 128 && b < 128
    ensures DecodeFrom([stray, a, b], 0, replaced) == [a, b]
  {
    TwoAscii(a, b);
    Utf8.DecodeEncode([stray], [a, b], replaced);
    assert [stray] + Utf8.Encode([a, b]) == [stray, a, b];
    assert WidthOf(stray) == 0;
  }

  lemma OneId(vocab: map<nat, seq<Byte>>, id: nat)
    requires id in vocab
    ensures Expand(vocab, [id]) == vocab[id]
  {
    assert [id][1..] == [];
  }

  lemma Spelled(vocab: map<nat, seq<Byte>>, order: seq<Pair>)
    requires VocabFor(vocab, order) && order == [(99, 100)]
    ensures BYTES in vocab && vocab[BYTES] == [99, 100]
  {
    assert Spells(vocab, order[0], BYTES + 0);
  }

  /** Training on one word of two letters with room for one id learns their pair. */
  lemma OnlyPair(word: seq<Scalar>, finals: seq<seq<nat>>, order: seq<Pair>)
    requires |word| == 2 && word[0] < 128 && word[1] < 128
    requires Rounds(BytesOf([word]), finals, order) && |order| <= 1
    requires |order| < 1 ==> forall w | 0 <= w < |finals| :: |finals[w]| < 2
    ensures order == [(word[0], word[1])]
  {
    var words := BytesOf([word]);
    var ids: seq<nat> := [word[0], word[1]];
    TwoAscii(word[0], word[1]);
    assert word == [word[0], word[1]];
    assert words == [ids];
    assert ApplyEach(words, []) == words;
    assert order == [] ==> finals == [ids];
    if order != [] {
      assert order[..0] == [] && MostFrequent(order[0], ApplyEach(words, order[..0]));
      Occurs(order[0], [ids]);
      assert order == [order[0]];
    }
  }
}
