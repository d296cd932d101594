/**
 The three join algorithms of tissdb/query/join_algorithms.cpp. Each method is tied to a plain
 description of its output; the lemmas say when the outputs agree.
 */
module Joins {
  import opened Options
  import opened TextOrder
  import opened Documents

  /** What a join is asked for. */
  datatype Query = Query(leftName: string, rightName: string, leftKey: string, rightKey: string, printer: Printer)

  function LeftValue(q: Query, d: Document): Option<Value> { GetValue(d.elements, q.leftKey) }
  function RightValue(q: Query, d: Document): Option<Value> { GetValue(d.elements, q.rightKey) }

  /** Both sides hold the join value, and it is the same value. */
  predicate SameValue(q: Query, l: Document, r: Document) {
    LeftValue(q, l).Some? && RightValue(q, r).Some? && LeftValue(q, l).value == RightValue(q, r).value
  }

  /** Both sides hold the join value, and it reads the same as text. */
  predicate SameText(q: Query, l: Document, r: Document) {
    && LeftValue(q, l).Some? && RightValue(q, r).Some?
    && ToText(LeftValue(q, l).value, q.printer) == ToText(RightValue(q, r).value, q.printer)
  }

  /** The documents that `l` makes with the matching ones of `right`, in their order. */
  ghost function RowsOf(q: Query, test: (Document, Document) -> bool, l: Document, right: seq<Document>): seq<Document> {
    if right == [] then []
    else RowsOf(q, test, l, right[..|right| - 1]) +
         if test(l, right[|right| - 1]) then [Combine(l, q.leftName, right[|right| - 1], q.rightName)] else []
  }

  /** All of them, in the order of `left`. */
  ghost function Rows(q: Query, test: (Document, Document) -> bool, left: seq<Document>, right: seq<Document>): seq<Document> {
    if left == [] then []
    else Rows(q, test, left[..|left| - 1], right) + RowsOf(q, test, left[|left| - 1], right)
  }

  ghost function ByValue(q: Query): (Document, Document) -> bool { (l, r) => SameValue(q, l, r) }
  ghost function ByText(q: Query): (Document, Document) -> bool { (l, r) => SameText(q, l, r) }

  lemma RowsOfSnoc(q: Query, test: (Document, Document) -> bool, l: Document, right: seq<Document>, j: nat)
    requires j < |right|
    ensures RowsOf(q, test, l, right[..j + 1]) ==
            RowsOf(q, test, l, right[..j]) + if test(l, right[j]) then [Combine(l, q.leftName, right[j], q.rightName)] else []
  {
    assert right[..j + 1][..j] == right[..j];
  }

  lemma RowsSnoc(q: Query, test: (Document, Document) -> bool, left: seq<Document>, right: seq<Document>, i: nat)
    requires i < |left|
    ensures Rows(q, test, left[..i + 1], right) == Rows(q, test, left[..i], right) + RowsOf(q, test, left[i], right)
  {
    assert left[..i + 1][..i] == left[..i];
  }

  // ---------- what the rows are ----------

  /** The documents of one side that match, in ascending order, and the rows they make. */
  ghost predicate MadeWith(q: Query, test: (Document, Document) -> bool, l: Document, right: seq<Document>, rows: seq<Document>, js: seq<nat>) {
    && |js| == |rows| && (forall a, b :: 0 <= a < b < |js| ==> js[a] < js[b])
    && (forall k | 0 <= k < |js| :: js[k] < |right| && test(l, right[js[k]]) && IsRow(rows[k], l, q.leftName, right[js[k]], q.rightName))
    && forall j | 0 <= j < |right| && test(l, right[j]) :: j in js
  }

  predicate Before(p: (nat, nat), q: (nat, nat)) { p.0 < q.0 || (p.0 == q.0 && p.1 < q.1) }

  /** The pairs that match, each once and in left then right order, and the rows they make. */
  ghost predicate MadeOf(q: Query, test: (Document, Document) -> bool, left: seq<Document>, right: seq<Document>, rows: seq<Document>, pairs: seq<(nat, nat)>) {
    && |pairs| == |rows| && (forall a, b :: 0 <= a < b < |pairs| ==> Before(pairs[a], pairs[b]))
    && (forall k | 0 <= k < |pairs| :: pairs[k].0 < |left| && pairs[k].1 < |right| && test(left[pairs[k].0], right[pairs[k].1])
          && IsRow(rows[k], left[pairs[k].0], q.leftName, right[pairs[k].1], q.rightName))
    && forall i, j | 0 <= i < |left| && 0 <= j < |right| && test(left[i], right[j]) :: (i, j) in pairs
  }

  lemma {:induction false} RowsOfMade(q: Query, test: (Document, Document) -> bool, l: Document, right: seq<Document>) returns (js: seq<nat>)
    ensures MadeWith(q, test, l, right, RowsOf(q, test, l, right), js)
  {
    hide IsRow;
    if right == [] {
      js := [];
    } else {
      var n := |right| - 1;
      var r := right[n];
      js := RowsOfMade(q, test, l, right[..n]);
      CombineIs(l, q.leftName, r, q.rightName);
      if test(l, r) {
        js := js + [n];
      }
    }
  }

  lemma {:induction false} RowsMade(q: Query, test: (Document, Document) -> bool, left: seq<Document>, right: seq<Document>) returns (pairs: seq<(nat, nat)>)
    ensures MadeOf(q, test, left, right, Rows(q, test, left, right), pairs)
  {
    hide IsRow, RowsOf;
    if left == [] {
      pairs := [];
    } else {
      var n := |left| - 1;
      var before := RowsMade(q, test, left[..n], right);
      var js := RowsOfMade(q, test, left[n], right);
      pairs := before + seq(|js|, k requires 0 <= k < |js| => (n, js[k]));
      MoreMade(q, test, left, right, before, js, pairs);
    }
  }

  lemma MoreMade(q: Query, test: (Document, Document) -> bool, left: seq<Document>, right: seq<Document>,
                 before: seq<(nat, nat)>, js: seq<nat>, pairs: seq<(nat, nat)>)
    requires left != [] && MadeOf(q, test, left[..|left| - 1], right, Rows(q, test, left[..|left| - 1], right), before)
    requires MadeWith(q, test, left[|left| - 1], right, RowsOf(q, test, left[|left| - 1], right), js)
    requires pairs == before + seq(|js|, k requires 0 <= k < |js| => (|left| - 1, js[k]))
    ensures MadeOf(q, test, left, right, Rows(q, test, left, right), pairs)
  {
    hide IsRow, RowsOf, Rows, Before;
    var n := |left| - 1;
    var first, more := Rows(q, test, left[..n], right), RowsOf(q, test, left[n], right);
    assert Rows(q, test, left, right) == first + more by { LastRows(q, test, left, right); }
    InOrder(before, js, n, pairs);
    forall k | 0 <= k < |pairs|
      ensures pairs[k].0 < |left| && pairs[k].1 < |right| && test(left[pairs[k].0], right[pairs[k].1])
      ensures IsRow((first + more)[k], left[pairs[k].0], q.leftName, right[pairs[k].1], q.rightName) {
      if k < |before| {
        assert left[..n][pairs[k].0] == left[pairs[k].0];
      }
    }
    forall i, j | 0 <= i < |left| && 0 <= j < |right| && test(left[i], right[j]) ensures (i, j) in pairs {
      if i < n {
        assert left[..n][i] == left[i];
        assert (i, j) in before;
      } else {
        var k :| 0 <= k < |js| && js[k] == j;
        assert pairs[|before| + k] == (i, j);
      }
    }
  }

  lemma LastRows(q: Query, test: (Document, Document) -> bool, left: seq<Document>, right: seq<Document>)
    requires left != []
    ensures Rows(q, test, left, right) == Rows(q, test, left[..|left| - 1], right) + RowsOf(q, test, left[|left| - 1], right)
  {
    hide RowsOf;
  }

  lemma InOrder(before: seq<(nat, nat)>, js: seq<nat>, n: nat, pairs: seq<(nat, nat)>)
    requires forall a, b :: 0 <= a < b < |before| ==> Before(before[a], before[b])
    requires (forall k | 0 <= k < |before| :: before[k].0 < n) && (forall a, b :: 0 <= a < b < |js| ==> js[a] < js[b])
    requires pairs == before + seq(|js|, k requires 0 <= k < |js| => (n, js[k]))
    ensures forall a, b :: 0 <= a < b < |pairs| ==> Before(pairs[a], pairs[b])
  {
    forall a, b | 0 <= a < b < |pairs| ensures Before(pairs[a], pairs[b]) {
      assert b < |before| ==> pairs[a] == before[a] && pairs[b] == before[b];
    }
  }

  // ---------- nested loops ----------

  method NestedLoopJoin(q: Query, left: seq<Document>, right: seq<Document>) returns (result: seq<Document>)
    ensures result == Rows(q, ByValue(q), left, right)
    ensures exists pairs :: MadeOf(q, ByValue(q), left, right, result, pairs)
  {
    ghost var pairs := RowsMade(q, ByValue(q), left, right);
    result := [];
    for i := 0 to |left|
      invariant result == Rows(q, ByValue(q), left[..i], right)
    {
      RowsSnoc(q, ByValue(q), left, right, i);
      ghost var before := result;
      var leftValue := GetValueByKey(left[i], q.leftKey);
      if leftValue.Some? {
        for j := 0 to |right|
          invariant result == before + RowsOf(q, ByValue(q), left[i], right[..j])
        {
          RowsOfSnoc(q, ByValue(q), left[i], right, j);
          var rightValue := GetValueByKey(right[j], q.rightKey);
          if rightValue.Some? && leftValue.value == rightValue.value {
            result := result + [Combine(left[i], q.leftName, right[j], q.rightName)];
          }
        }
        assert right[..|right|] == right;
      } else {
        NoRows(q, ByValue(q), left[i], right);
      }
    }
    assert left[..|left|] == left;
  }

  lemma {:induction false} NoRows(q: Query, test: (Document, Document) -> bool, l: Document, right: seq<Document>)
    requires forall j :: 0 <= j < |right| ==> !test(l, right[j])
    ensures RowsOf(q, test, l, right) == []
  {
    if right != [] {
      NoRows(q, test, l, right[..|right| - 1]);
    }
  }

  // ---------- hashing ----------

  /** The documents of `right` that hold the join value with this text. */
  ghost function Bucket(q: Query, text: string, right: seq<Document>): seq<Document> {
    if right == [] then []
    else Bucket(q, text, right[..|right| - 1]) +
         var r := right[|right| - 1];
         if RightValue(q, r).Some? && ToText(RightValue(q, r).value, q.printer) == text then [r] else []
  }

  /** The build phase. */
  method BuildTable(q: Query, right: seq<Document>) returns (table: map<string, seq<Document>>)
    ensures forall t :: Bucket(q, t, right) == if t in table then table[t] else []
  {
    hide Bucket, ToText;
    table := map[];
    assert forall t :: Bucket(q, t, []) == [] by { EmptyBuckets(q); }
    for j := 0 to |right|
      invariant forall t :: Bucket(q, t, right[..j]) == if t in table then table[t] else []
    {
      BucketsSnoc(q, right, j);
      var rightValue := GetValueByKey(right[j], q.rightKey);
      if rightValue.Some? {
        var t := ToText(rightValue.value, q.printer);
        table := table[t := (if t in table then table[t] else []) + [right[j]]];
      }
    }
    assert right[..|right|] == right;
  }

  lemma EmptyBuckets(q: Query)
    ensures forall t :: Bucket(q, t, []) == []
  {
  }

  lemma BucketsSnoc(q: Query, right: seq<Document>, j: nat)
    requires j < |right|
    ensures forall t :: Bucket(q, t, right[..j + 1]) == Bucket(q, t, right[..j]) +
                        if RightValue(q, right[j]).Some? && ToText(RightValue(q, right[j]).value, q.printer) == t then [right[j]] else []
  {
    assert right[..j + 1][..j] == right[..j];
  }

  method CombineAll(q: Query, l: Document, rs: seq<Document>) returns (rows: seq<Document>)
    ensures rows == Combined(q, l, rs)
  {
    rows := [];
    for k := 0 to |rs|
      invariant rows == Combined(q, l, rs[..k])
    {
      assert rs[..k + 1][..k] == rs[..k];
      rows := rows + [Combine(l, q.leftName, rs[k], q.rightName)];
    }
    assert rs[..|rs|] == rs;
  }

  method HashJoin(q: Query, left: seq<Document>, right: seq<Document>) returns (result: seq<Document>)
    ensures result == Rows(q, ByText(q), left, right)
    ensures exists pairs :: MadeOf(q, ByText(q), left, right, result, pairs)
  {
    ghost var pairs := RowsMade(q, ByText(q), left, right);
    hide MadeOf, Rows, RowsOf, Combined, Bucket, ToText;
    var table := BuildTable(q, right);
    result := [];
    assert Rows(q, ByText(q), left[..0], right) == [] by { NoLeft(q, ByText(q), right); }
    for i := 0 to |left|
      invariant result == Rows(q, ByText(q), left[..i], right)
    {
      RowsSnoc(q, ByText(q), left, right, i);
      var leftValue := GetValueByKey(left[i], q.leftKey);
      if leftValue.Some? {
        var t := ToText(leftValue.value, q.printer);
        BucketRows(q, left[i], right);
        if t in table {
          var rows := CombineAll(q, left[i], table[t]);
          result := result + rows;
        } else {
          NoneCombined(q, left[i]);
        }
      } else {
        NoRows(q, ByText(q), left[i], right);
      }
    }
    assert left[..|left|] == left;
  }

  lemma NoLeft(q: Query, test: (Document, Document) -> bool, right: seq<Document>)
    ensures Rows(q, test, [], right) == []
  {
  }

  lemma NoneCombined(q: Query, l: Document)
    ensures Combined(q, l, []) == []
  {
  }

  ghost function Combined(q: Query, l: Document, rs: seq<Document>): seq<Document> {
    if rs == [] then []
    else Combined(q, l, rs[..|rs| - 1]) + [Combine(l, q.leftName, rs[|rs| - 1], q.rightName)]
  }

  lemma {:induction false} BucketRows(q: Query, l: Document, right: seq<Document>)
    requires LeftValue(q, l).Some?
    ensures Combined(q, l, Bucket(q, ToText(LeftValue(q, l).value, q.printer), right)) == RowsOf(q, ByText(q), l, right)
  {
    if right != [] {
      var rest, t := right[..|right| - 1], ToText(LeftValue(q, l).value, q.printer);
      BucketRows(q, l, rest);
      var b, b' := Bucket(q, t, rest), Bucket(q, t, right);
      if b' != b {
        assert b'[..|b|] == b && b' == b + [right[|right| - 1]];
      } else {
        assert b' == b + [] == b;
      }
    }
  }

  // ---------- hash and nested loops agree exactly when text tells values apart ----------

  /** Every pair that passes the first test passes the second. */
  ghost predicate Tells(wide: (Document, Document) -> bool, narrow: (Document, Document) -> bool, left: seq<Document>, right: seq<Document>) {
    forall i, j :: 0 <= i < |left| && 0 <= j < |right| && wide(left[i], right[j]) ==> narrow(left[i], right[j])
  }

  /** No two join values that differ read the same. */
  ghost predicate TextTells(q: Query, left: seq<Document>, right: seq<Document>) { Tells(ByText(q), ByValue(q), left, right) }

  /** Row by row the wider test gives at least the documents of the narrower, and more where they differ. */
  lemma {:induction false} WiderOf(q: Query, wide: (Document, Document) -> bool, narrow: (Document, Document) -> bool, l: Document, right: seq<Document>)
    requires Tells(narrow, wide, [l], right)
    ensures |RowsOf(q, narrow, l, right)| <= |RowsOf(q, wide, l, right)|
    ensures Tells(wide, narrow, [l], right) ==> RowsOf(q, narrow, l, right) == RowsOf(q, wide, l, right)
    ensures !Tells(wide, narrow, [l], right) ==> |RowsOf(q, narrow, l, right)| < |RowsOf(q, wide, l, right)|
  {
    if right != [] {
      var init := right[..|right| - 1];
      assert Tells(narrow, wide, [l], init);
      WiderOf(q, wide, narrow, l, init);
      assert narrow([l][0], right[|right| - 1]) ==> wide(l, right[|right| - 1]);
      assert forall j :: 0 <= j < |init| ==> init[j] == right[j];
    }
  }

  lemma {:induction false} Wider(q: Query, wide: (Document, Document) -> bool, narrow: (Document, Document) -> bool, left: seq<Document>, right: seq<Document>)
    requires Tells(narrow, wide, left, right)
    ensures |Rows(q, narrow, left, right)| <= |Rows(q, wide, left, right)|
    ensures Tells(wide, narrow, left, right) ==> Rows(q, narrow, left, right) == Rows(q, wide, left, right)
    ensures !Tells(wide, narrow, left, right) ==> |Rows(q, narrow, left, right)| < |Rows(q, wide, left, right)|
  {
    if left != [] {
      var init, l := left[..|left| - 1], left[|left| - 1];
      TellsSplit(narrow, wide, left, right);
      TellsSplit(wide, narrow, left, right);
      Wider(q, wide, narrow, init, right);
      WiderOf(q, wide, narrow, l, right);
    }
  }

  lemma TellsSplit(wide: (Document, Document) -> bool, narrow: (Document, Document) -> bool, left: seq<Document>, right: seq<Document>)
    requires left != []
    ensures Tells(wide, narrow, left, right) <==>
            Tells(wide, narrow, left[..|left| - 1], right) && Tells(wide, narrow, [left[|left| - 1]], right)
  {
    var init, last := left[..|left| - 1], [left[|left| - 1]];
    if Tells(wide, narrow, init, right) && Tells(wide, narrow, last, right) {
      forall i, j | 0 <= i < |left| && 0 <= j < |right| && wide(left[i], right[j]) ensures narrow(left[i], right[j]) {
        if i < |init| {
          assert wide(init[i], right[j]);
        } else {
          assert wide(last[0], right[j]);
        }
      }
    }
    if Tells(wide, narrow, left, right) {
      forall j | 0 <= j < |right| && wide(last[0], right[j]) ensures narrow(last[0], right[j]) {
        assert wide(left[|left| - 1], right[j]);
      }
      forall i, j | 0 <= i < |init| && 0 <= j < |right| && wide(init[i], right[j]) ensures narrow(init[i], right[j]) {
        assert wide(left[i], right[j]);
      }
    }
  }

  /** The hash join has at least the nested loop's documents, and more where text misleads. */
  lemma MoreRows(q: Query, left: seq<Document>, right: seq<Document>)
    ensures |Rows(q, ByValue(q), left, right)| <= |Rows(q, ByText(q), left, right)|
    ensures TextTells(q, left, right) ==> Rows(q, ByValue(q), left, right) == Rows(q, ByText(q), left, right)
    ensures !TextTells(q, left, right) ==> |Rows(q, ByValue(q), left, right)| < |Rows(q, ByText(q), left, right)|
  {
    Wider(q, ByText(q), ByValue(q), left, right);
  }

  /** The hash join returns the nested loop's sequence exactly when text tells the join values apart. */
  lemma HashAgreesIff(q: Query, left: seq<Document>, right: seq<Document>)
    ensures Rows(q, ByValue(q), left, right) == Rows(q, ByText(q), left, right) <==> TextTells(q, left, right)
  {
    MoreRows(q, left, right);
  }

  /** A string and another value meet in a hash join if and only if the string spells the value. */
  lemma SpelledAlike(q: Query, l: Document, r: Document, s: string, v: Value)
    requires LeftValue(q, l) == Some(Str(s)) && RightValue(q, r) == Some(v) && !v.Str?
    ensures !SameValue(q, l, r)
    ensures v.Null? ==> (SameText(q, l, r) <==> s == "null")
    ensures v.Bool? ==> (SameText(q, l, r) <==> s == if v.b then "true" else "false")
    ensures v.Num? ==> (SameText(q, l, r) <==> s == q.printer.number(v.n))
    ensures v.Timestamp? ==> (SameText(q, l, r) <==> s == q.printer.integer(v.micros))
    ensures v.Blank? ==> (SameText(q, l, r) <==> s == "")
  {
  }

  /** Tables that hold the join value as a string are always told apart. */
  lemma StringsTell(q: Query, left: seq<Document>, right: seq<Document>)
    requires forall i :: 0 <= i < |left| && LeftValue(q, left[i]).Some? ==> LeftValue(q, left[i]).value.Str?
    requires forall j :: 0 <= j < |right| && RightValue(q, right[j]).Some? ==> RightValue(q, right[j]).value.Str?
    ensures TextTells(q, left, right)
  {
  }

  // ---------- sorting and merging ----------

  /** The text a document is sorted and merged by; a missing value reads as the empty string. */
  function TextOf(key: string, p: Printer, d: Document): string {
    var v := GetValue(d.elements, key);
    if v.Some? then ToText(v.value, p) else ""
  }

  ghost predicate SortedBy(key: string, p: Printer, docs: seq<Document>) {
    forall i, j :: 0 <= i < j < |docs| ==> !Less(TextOf(key, p, docs[j]), TextOf(key, p, docs[i]))
  }

  ghost predicate AllHold(key: string, docs: seq<Document>) {
    forall i :: 0 <= i < |docs| ==> GetValue(docs[i].elements, key).Some?
  }

  /** The comparator orders this table: it puts a document without the value before any other and before itself. */
  ghost predicate Sortable(key: string, docs: seq<Document>) { |docs| <= 1 || AllHold(key, docs) }

  /** Some sorting routine, in the place of `std::sort` (whose order among equal keys is unspecified). */
  method SortByKey(key: string, p: Printer, docs: seq<Document>) returns (sorted: seq<Document>)
    ensures SortedBy(key, p, sorted) && multiset(sorted) == multiset(docs)
  {
    hide TextOf, Less, SortedBy;
    sorted := [];
    assert SortedBy(key, p, []) by { EmptySorted(key, p); }
    for n := 0 to |docs|
      invariant SortedBy(key, p, sorted) && multiset(sorted) == multiset(docs[..n])
    {
      var k := 0;
      while k < |sorted| && Less(TextOf(key, p, sorted[k]), TextOf(key, p, docs[n]))
        invariant k <= |sorted| && (0 < k ==> Less(TextOf(key, p, sorted[k - 1]), TextOf(key, p, docs[n])))
      {
        k := k + 1;
      }
      InsertSorted(key, p, sorted, k, docs[n]);
      assert docs[..n + 1] == docs[..n] + [docs[n]] && sorted == sorted[..k] + sorted[k..];
      sorted := sorted[..k] + [docs[n]] + sorted[k..];
    }
    assert docs[..|docs|] == docs;
  }

  lemma EmptySorted(key: string, p: Printer)
    ensures SortedBy(key, p, [])
  {
  }

  lemma InsertSorted(key: string, p: Printer, s: seq<Document>, k: nat, d: Document)
    requires SortedBy(key, p, s) && k <= |s|
    requires 0 < k ==> Less(TextOf(key, p, s[k - 1]), TextOf(key, p, d))
    requires k < |s| ==> !Less(TextOf(key, p, s[k]), TextOf(key, p, d))
    ensures SortedBy(key, p, s[..k] + [d] + s[k..])
  {
    var w, t := s[..k] + [d] + s[k..], (x: Document) => TextOf(key, p, x);
    forall i, j | 0 <= i < j < |w|
      ensures !Less(t(w[j]), t(w[i]))
    {
      if j == k {
        LessAsymmetric(t(s[k - 1]), t(d));
        NotLessTrans(t(s[i]), t(s[k - 1]), t(d));
      } else if i == k {
        NotLessTrans(t(d), t(s[k]), t(s[j - 1]));
      }
    }
  }

  /** `a <= b <= c` where `<=` is "not greater". */
  lemma NotLessTrans(a: string, b: string, c: string)
    requires a == b || !Less(b, a)
    requires b == c || !Less(c, b)
    ensures !Less(c, a)
  {
    LessTotal(a, b);
    LessTotal(b, c);
    LessIrreflexive(a);
    if Less(a, b) && Less(b, c) {
      LessTrans(a, b, c);
    }
    if Less(c, a) && Less(a, c) {
      LessTrans(a, c, a);
    }
  }

  lemma {:induction false} RowsOfTail(q: Query, test: (Document, Document) -> bool, l: Document, right: seq<Document>, j: nat)
    requires j <= |right| && forall k :: j <= k < |right| ==> !test(l, right[k])
    ensures RowsOf(q, test, l, right) == RowsOf(q, test, l, right[..j])
  {
    if j < |right| {
      var init := right[..|right| - 1];
      RowsOfTail(q, test, l, init, j);
      assert init[..j] == right[..j];
    } else {
      assert right[..j] == right;
    }
  }

  lemma {:induction false} RowsTail(q: Query, test: (Document, Document) -> bool, left: seq<Document>, right: seq<Document>, i: nat)
    requires i <= |left| && forall k, j :: i <= k < |left| && 0 <= j < |right| ==> !test(left[k], right[j])
    ensures Rows(q, test, left, right) == Rows(q, test, left[..i], right)
  {
    if i < |left| {
      var init := left[..|left| - 1];
      RowsTail(q, test, init, right, i);
      NoRows(q, test, left[|left| - 1], right);
      assert init[..i] == left[..i];
    } else {
      assert left[..i] == left;
    }
  }

  /** What the merge loop compares; two documents without the value are alike, and like one that holds an empty text. */
  predicate SameMerged(q: Query, l: Document, r: Document) { LeftText(q, l) == RightText(q, r) }
  ghost function ByMerged(q: Query): (Document, Document) -> bool { (l, r) => SameMerged(q, l, r) }

  function LeftText(q: Query, d: Document): string { TextOf(q.leftKey, q.printer, d) }
  function RightText(q: Query, d: Document): string { TextOf(q.rightKey, q.printer, d) }

  /** Everything before `j` on the right is smaller than `text`. */
  ghost predicate Passed(q: Query, right: seq<Document>, j: nat, text: string)
    requires j <= |right|
  {
    forall k :: 0 <= k < j ==> Less(RightText(q, right[k]), text)
  }

  /** A missing value is taken for an empty text, on either side and on both. */
  lemma MissingMeets(q: Query, l: Document, r: Document)
    ensures LeftValue(q, l).None? && RightValue(q, r).None? ==> SameMerged(q, l, r)
    ensures LeftValue(q, l).None? && RightValue(q, r).Some? ==> (SameMerged(q, l, r) <==> ToText(RightValue(q, r).value, q.printer) == "")
    ensures LeftValue(q, l).Some? && RightValue(q, r).None? ==> (SameMerged(q, l, r) <==> ToText(LeftValue(q, l).value, q.printer) == "")
    ensures LeftValue(q, l).Some? && RightValue(q, r).Some? ==> (SameMerged(q, l, r) <==> SameText(q, l, r))
  {
  }

  /** In a sorted table, nothing from `j` on reads as a text smaller than that of `j`. */
  lemma NoneFrom(q: Query, l: Document, right: seq<Document>, j: nat)
    requires SortedBy(q.rightKey, q.printer, right) && j <= |right|
    requires j < |right| ==> Less(LeftText(q, l), RightText(q, right[j]))
    ensures forall k :: j <= k < |right| ==> !SameMerged(q, l, right[k])
  {
    if j < |right| {
      forall k | j <= k < |right|
        ensures !SameMerged(q, l, right[k])
      {
        LessIrreflexive(LeftText(q, l));
        LessAsymmetric(LeftText(q, l), RightText(q, right[j]));
      }
    }
  }

  lemma NoneBefore(q: Query, l: Document, right: seq<Document>, j: nat)
    requires j <= |right| && Passed(q, right, j, LeftText(q, l))
    ensures forall k :: 0 <= k < j ==> !SameMerged(q, l, right[k])
  {
    LessIrreflexive(LeftText(q, l));
  }

  /** The next left document is not smaller, so what was passed stays passed. */
  lemma StaysPassed(q: Query, right: seq<Document>, j: nat, a: string, b: string)
    requires j <= |right| && Passed(q, right, j, a) && !Less(b, a)
    ensures Passed(q, right, j, b)
  {
    forall k | 0 <= k < j
      ensures Less(RightText(q, right[k]), b)
    {
      LessTotal(a, b);
      if a != b {
        LessTrans(RightText(q, right[k]), a, b);
      }
    }
  }

  /** The merge loop on sorted tables: two cursors, the right one set back for equal left documents. */
  method MergeLoop(q: Query, left: seq<Document>, right: seq<Document>) returns (result: seq<Document>)
    requires SortedBy(q.leftKey, q.printer, left) && SortedBy(q.rightKey, q.printer, right)
    ensures result == Rows(q, ByMerged(q), left, right)
    ensures exists pairs :: MadeOf(q, ByMerged(q), left, right, result, pairs)
  {
    ghost var pairs := RowsMade(q, ByMerged(q), left, right);
    hide MadeOf, Rows, RowsOf;
    result := [];
    NoLeft(q, ByMerged(q), right);
    assert left[..0] == [];
    var i, j := 0, 0;
    while i < |left| && j < |right|
      invariant i <= |left| && j <= |right|
      invariant result == Rows(q, ByMerged(q), left[..i], right)
      invariant i < |left| ==> Passed(q, right, j, LeftText(q, left[i]))
      decreases |left| - i, |right| - j
    {
      var leftText, rightText := LeftText(q, left[i]), RightText(q, right[j]);
      RowsSnoc(q, ByMerged(q), left, right, i);
      if Less(leftText, rightText) {
        NoneBefore(q, left[i], right, j);
        NoneFrom(q, left[i], right, j);
        NoRows(q, ByMerged(q), left[i], right);
        if i + 1 < |left| {
          StaysPassed(q, right, j, leftText, LeftText(q, left[i + 1]));
        }
        i := i + 1;
      } else if Less(rightText, leftText) {
        j := j + 1;
      } else {
        LessTotal(leftText, rightText);
        var start := j;
        result, j := RunOf(q, left[i], right, start, result);
        i := i + 1;
        if i < |left| && LeftText(q, left[i]) == leftText {
          j := start;
        } else if i < |left| {
          NextText(q, right, start, j, leftText, LeftText(q, left[i]));
        }
      }
    }
    if i < |left| {
      AllPassed(q, left, right, i);
      RowsTail(q, ByMerged(q), left, right, i);
    } else {
      assert left[..i] == left;
    }
  }

  /** The run of right documents that read like `l`. */
  method RunOf(q: Query, l: Document, right: seq<Document>, start: nat, before: seq<Document>)
    returns (result: seq<Document>, j: nat)
    requires SortedBy(q.rightKey, q.printer, right)
    requires start < |right| && Passed(q, right, start, LeftText(q, l))
    requires LeftText(q, l) == RightText(q, right[start])
    ensures start < j <= |right| && result == before + RowsOf(q, ByMerged(q), l, right)
    ensures forall k :: start <= k < j ==> RightText(q, right[k]) == LeftText(q, l)
  {
    hide RowsOf;
    j, result := start, before;
    NoneBefore(q, l, right, start);
    NoRows(q, ByMerged(q), l, right[..start]);
    while j < |right| && RightText(q, right[j]) == LeftText(q, l)
      invariant start <= j <= |right|
      invariant forall k :: start <= k < j ==> RightText(q, right[k]) == LeftText(q, l)
      invariant result == before + RowsOf(q, ByMerged(q), l, right[..j])
    {
      RowsOfSnoc(q, ByMerged(q), l, right, j);
      result := result + [Combine(l, q.leftName, right[j], q.rightName)];
      j := j + 1;
    }
    if j < |right| {
      LessTotal(LeftText(q, l), RightText(q, right[j]));
    }
    NoneFrom(q, l, right, j);
    RowsOfTail(q, ByMerged(q), l, right, j);
  }

  lemma NextText(q: Query, right: seq<Document>, start: nat, j: nat, a: string, b: string)
    requires start <= j <= |right| && Passed(q, right, start, a) && a != b && !Less(b, a)
    requires forall k :: start <= k < j ==> RightText(q, right[k]) == a
    ensures Passed(q, right, j, b)
  {
    StaysPassed(q, right, start, a, b);
    LessTotal(a, b);
  }

  lemma AllPassed(q: Query, left: seq<Document>, right: seq<Document>, i: nat)
    requires SortedBy(q.leftKey, q.printer, left) && i < |left| && Passed(q, right, |right|, LeftText(q, left[i]))
    ensures forall k, j :: i <= k < |left| && 0 <= j < |right| ==> !SameMerged(q, left[k], right[j])
  {
    forall k | i <= k < |left|
      ensures forall j :: 0 <= j < |right| ==> !SameMerged(q, left[k], right[j])
    {
      if i < k {
        StaysPassed(q, right, |right|, LeftText(q, left[i]), LeftText(q, left[k]));
      }
      NoneBefore(q, left[k], right, |right|);
    }
  }

  // ---------- order of the tables does not matter ----------

  lemma {:induction false} RowsOfAppend(q: Query, test: (Document, Document) -> bool, l: Document, a: seq<Document>, b: seq<Document>)
    ensures RowsOf(q, test, l, a + b) == RowsOf(q, test, l, a) + RowsOf(q, test, l, b)
  {
    if b == [] {
      assert a + b == a;
    } else {
      assert (a + b)[..|a + b| - 1] == a + b[..|b| - 1];
      RowsOfAppend(q, test, l, a, b[..|b| - 1]);
    }
  }

  lemma {:induction false} RowsAppend(q: Query, test: (Document, Document) -> bool, a: seq<Document>, b: seq<Document>, right: seq<Document>)
    ensures Rows(q, test, a + b, right) == Rows(q, test, a, right) + Rows(q, test, b, right)
  {
    if b == [] {
      assert a + b == a;
    } else {
      assert (a + b)[..|a + b| - 1] == a + b[..|b| - 1];
      RowsAppend(q, test, a, b[..|b| - 1], right);
    }
  }

  /** Taking one element out of a sequence, and where the same element sits in a rearrangement. */
  lemma Rearranged(a: seq<Document>, b: seq<Document>) returns (i: nat)
    requires a != [] && multiset(a) == multiset(b)
    ensures i < |b| && b[i] == a[0] && multiset(a[1..]) == multiset(b[..i] + b[i + 1..])
    ensures a == [a[0]] + a[1..] && b == b[..i] + [b[i]] + b[i + 1..]
  {
    assert a[0] in multiset(b);
    i :| 0 <= i < |b| && b[i] == a[0];
    assert a == [a[0]] + a[1..] && b == b[..i] + [b[i]] + b[i + 1..];
    assert multiset(a[1..]) == multiset(a) - multiset{a[0]};
    assert multiset(b[..i] + b[i + 1..]) == multiset(b) - multiset{b[i]};
  }

  lemma {:induction false} RightOrder(q: Query, test: (Document, Document) -> bool, l: Document, a: seq<Document>, b: seq<Document>)
    requires multiset(a) == multiset(b)
    ensures multiset(RowsOf(q, test, l, a)) == multiset(RowsOf(q, test, l, b))
    decreases |a|
  {
    assert |a| == |multiset(a)| == |b|;
    if a != [] {
      var i := Rearranged(a, b);
      var x, y := b[..i], b[i + 1..];
      RightOrder(q, test, l, a[1..], x + y);
      RowsOfAppend(q, test, l, [a[0]], a[1..]);
      RowsOfAppend(q, test, l, x + [b[i]], y);
      RowsOfAppend(q, test, l, x, [b[i]]);
      RowsOfAppend(q, test, l, x, y);
    }
  }

  lemma {:induction false} RightOrderAll(q: Query, test: (Document, Document) -> bool, left: seq<Document>, a: seq<Document>, b: seq<Document>)
    requires multiset(a) == multiset(b)
    ensures multiset(Rows(q, test, left, a)) == multiset(Rows(q, test, left, b))
  {
    if left != [] {
      RightOrderAll(q, test, left[..|left| - 1], a, b);
      RightOrder(q, test, left[|left| - 1], a, b);
    }
  }

  lemma {:induction false} LeftOrder(q: Query, test: (Document, Document) -> bool, a: seq<Document>, b: seq<Document>, right: seq<Document>)
    requires multiset(a) == multiset(b)
    ensures multiset(Rows(q, test, a, right)) == multiset(Rows(q, test, b, right))
    decreases |a|
  {
    assert |a| == |multiset(a)| == |b|;
    if a != [] {
      var i := Rearranged(a, b);
      var x, y := b[..i], b[i + 1..];
      LeftOrder(q, test, a[1..], x + y, right);
      RowsAppend(q, test, [a[0]], a[1..], right);
      RowsAppend(q, test, x + [b[i]], y, right);
      RowsAppend(q, test, x, [b[i]], right);
      RowsAppend(q, test, x, y, right);
    }
  }

  /**
   The sort-merge join returns every pair that the merge loop takes as equal, each as often. These are the hash
   join's documents if and only if no missing value meets an empty text or another missing one, and the nested
   loop's if and only if, besides, text tells the join values apart.
   */
  method SortMergeJoin(q: Query, leftTable: seq<Document>, rightTable: seq<Document>) returns (result: seq<Document>)
    requires Sortable(q.leftKey, leftTable) && Sortable(q.rightKey, rightTable)
    ensures multiset(result) == multiset(Rows(q, ByMerged(q), leftTable, rightTable))
    ensures exists rows, pairs :: multiset(rows) == multiset(result) && MadeOf(q, ByMerged(q), leftTable, rightTable, rows, pairs)
    ensures multiset(result) == multiset(Rows(q, ByText(q), leftTable, rightTable)) <==>
              Tells(ByMerged(q), ByText(q), leftTable, rightTable)
    ensures multiset(result) == multiset(Rows(q, ByValue(q), leftTable, rightTable)) <==>
              Tells(ByMerged(q), ByValue(q), leftTable, rightTable)
  {
    var left := SortByKey(q.leftKey, q.printer, leftTable);
    var right := SortByKey(q.rightKey, q.printer, rightTable);
    result := MergeLoop(q, left, right);
    RightOrderAll(q, ByMerged(q), left, rightTable, right);
    LeftOrder(q, ByMerged(q), leftTable, left, rightTable);
    MergedAgreesIff(q, leftTable, rightTable);
    ghost var pairs := RowsMade(q, ByMerged(q), leftTable, rightTable);
  }

  lemma MergedAgreesIff(q: Query, left: seq<Document>, right: seq<Document>)
    ensures multiset(Rows(q, ByMerged(q), left, right)) == multiset(Rows(q, ByText(q), left, right)) <==>
              Tells(ByMerged(q), ByText(q), left, right)
    ensures multiset(Rows(q, ByMerged(q), left, right)) == multiset(Rows(q, ByValue(q), left, right)) <==>
              Tells(ByMerged(q), ByValue(q), left, right)
  {
    Wider(q, ByMerged(q), ByText(q), left, right);
    Wider(q, ByMerged(q), ByValue(q), left, right);
    var m, t, v := Rows(q, ByMerged(q), left, right), Rows(q, ByText(q), left, right), Rows(q, ByValue(q), left, right);
    assert |m| == |multiset(m)| && |t| == |multiset(t)| && |v| == |multiset(v)|;
  }

  /** Tables whose documents all hold their join key give the hash join's documents. */
  lemma AllHoldTell(q: Query, left: seq<Document>, right: seq<Document>)
    requires AllHold(q.leftKey, left) && AllHold(q.rightKey, right)
    ensures Tells(ByMerged(q), ByText(q), left, right)
    ensures Tells(ByMerged(q), ByValue(q), left, right) <==> TextTells(q, left, right)
  {
  }
}
