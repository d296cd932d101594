/**
 UTF-8 as section 3 of RFC 3629 defines it, and the decoding loop of
 quanta_tissu/tisslm/core/bpe_trainer.py, which picks a slice length from each lead byte.
 */
module Utf8 {
  import opened BpeSpec

  /** The code points a Python string can hold and encode. */
  type Scalar = c: int | 0 <= c <= 0x10FFFF && !(0xD800 <= c <= 0xDFFF)

  function EncodeChar(c: Scalar): (r: seq<Byte>)
    ensures 1 <= |r| <= 4
  {
    if c < 0x80 then [c]
    else if c < 0x800 then [0xC0 + c / 0x40, 0x80 + c % 0x40]
    else if c < 0x10000 then [0xE0 + c / 0x1000, 0x80 + c / 0x40 % 0x40, 0x80 + c % 0x40]
    else [0xF0 + c / 0x40000, 0x80 + c / 0x1000 % 0x40, 0x80 + c / 0x40 % 0x40, 0x80 + c % 0x40]
  }

  /** `str.encode("utf-8")` */
  function Encode(text: seq<Scalar>): seq<Byte> {
    if text == [] then [] else EncodeChar(text[0]) + Encode(text[1..])
  }

  lemma {:induction false} EncodeAppend(a: seq<Scalar>, b: seq<Scalar>)
    ensures Encode(a + b) == Encode(a) + Encode(b)
  {
    if a == [] {
      assert a + b == b;
    } else {
      assert (a + b)[1..] == a[1..] + b;
      EncodeAppend(a[1..], b);
    }
  }

  /** As many bytes as section 3 of RFC 3629 asks for, a lead byte that tells how many, and continuation bytes. */
  lemma CharBytes(c: Scalar)
    ensures var e := EncodeChar(c);
            && |e| == (if c <= 0x7F then 1 else if c <= 0x7FF then 2 else if c <= 0xFFFF then 3 else 4)
            && (|e| == 1 ==> e[0] <= 0x7F) && (|e| == 2 ==> 0xC2 <= e[0] <= 0xDF) && (|e| == 3 ==> 0xE0 <= e[0] <= 0xEF)
            && (|e| == 4 ==> 0xF0 <= e[0] <= 0xF4) && forall k | 1 <= k < |e| :: 0x80 <= e[k] <= 0xBF
  {
  }

  predicate LessBytes(a: seq<Byte>, b: seq<Byte>) {
    b != [] && (a == [] || a[0] < b[0] || (a[0] == b[0] && LessBytes(a[1..], b[1..])))
  }

  lemma {:induction false} LessAt(a: seq<Byte>, b: seq<Byte>, k: nat)
    requires k < |a| && k < |b| && (forall j | 0 <= j < k :: a[j] == b[j]) && a[k] < b[k]
    ensures LessBytes(a, b)
  {
    if k > 0 {
      assert forall j | 0 <= j < k - 1 :: a[1..][j] == a[j + 1] && b[1..][j] == b[j + 1];
      LessAt(a[1..], b[1..], k - 1);
    }
  }

  /** Two numbers are in the order of their last six bits where all bits above are the same. */
  lemma SixBits(x: nat, y: nat)
    requires x < y
    ensures x / 0x40 < y / 0x40 || (x / 0x40 == y / 0x40 && x % 0x40 < y % 0x40)
  {
  }

  /** The bytes of code points are in the order of the code points. */
  lemma CharOrder(c: Scalar, d: Scalar)
    requires c < d
    ensures LessBytes(EncodeChar(c), EncodeChar(d))
  {
    hide LessBytes;
    var e, f := EncodeChar(c), EncodeChar(d);
    if |e| < |f| {
      LessAt(e, f, 0);
    } else if |e| == 1 {
      LessAt(e, f, 0);
    } else {
      SixBits(c, d);
      if c / 0x40 == d / 0x40 {
        LastOrder(c, d);
      } else if |e| == 2 {
        LessAt(e, f, 0);
      } else {
        LongOrder(c, d);
      }
    }
  }

  lemma LastOrder(c: Scalar, d: Scalar)
    requires c / 0x40 == d / 0x40 && c % 0x40 < d % 0x40 && |EncodeChar(c)| == |EncodeChar(d)| >= 2
    ensures LessBytes(EncodeChar(c), EncodeChar(d))
  {
    hide LessBytes;
    assert c / 0x1000 == d / 0x1000 by { Twelve(c); Twelve(d); }
    assert c / 0x40000 == d / 0x40000 by { Eighteen(c); Eighteen(d); }
    LessAt(EncodeChar(c), EncodeChar(d), |EncodeChar(c)| - 1);
  }

  lemma Twelve(c: nat)
    ensures c / 0x40 / 0x40 == c / 0x1000
  {
  }

  lemma LongOrder(c: Scalar, d: Scalar)
    requires c / 0x40 < d / 0x40 && |EncodeChar(c)| == |EncodeChar(d)| >= 3
    ensures LessBytes(EncodeChar(c), EncodeChar(d))
  {
    hide LessBytes, EncodeChar;
    var e, f := EncodeChar(c), EncodeChar(d);
    LongBytes(c);
    LongBytes(d);
    SixBits(c / 0x40, d / 0x40);
    if c / 0x1000 == d / 0x1000 {
      LessAt(e, f, |e| - 2);
    } else if |e| == 3 {
      LessAt(e, f, 0);
    } else {
      SixBits(c / 0x1000, d / 0x1000);
      LessAt(e, f, if c / 0x40000 < d / 0x40000 then 0 else 1);
    }
  }

  lemma LongBytes(c: Scalar)
    requires |EncodeChar(c)| >= 3
    ensures c / 0x40 / 0x40 == c / 0x1000 && c / 0x1000 / 0x40 == c / 0x40000
    ensures var e := EncodeChar(c);
            && e[|e| - 2] == 0x80 + c / 0x40 % 0x40 && (|e| == 3 ==> e[0] == 0xE0 + c / 0x1000)
            && (|e| > 3 ==> |e| == 4 && e[0] == 0xF0 + c / 0x40000 && e[1] == 0x80 + c / 0x1000 % 0x40)
  {
    Twelve(c);
    Eighteen(c);
  }

  lemma Eighteen(c: nat)
    ensures c / 0x1000 / 0x40 == c / 0x40000
  {
  }

  /** How many bytes the loop takes for a character with this lead byte; 0 for no lead byte. */
  function WidthOf(lead: Byte): nat {
    if lead < 0x80 then 1
    else if 0xC0 <= lead < 0xE0 then 2
    else if 0xE0 <= lead < 0xF0 then 3
    else if 0xF0 <= lead < 0xF8 then 4
    else 0
  }

  /** The number a slice of one to four bytes spells. */
  function ValueOf(bytes: seq<int>): int {
    if |bytes| == 1 then bytes[0]
    else if |bytes| == 2 then (bytes[0] - 0xC0) * 0x40 + (bytes[1] - 0x80)
    else if |bytes| == 3 then (bytes[0] - 0xE0) * 0x1000 + (bytes[1] - 0x80) * 0x40 + (bytes[2] - 0x80)
    else if |bytes| == 4 then
      (bytes[0] - 0xF0) * 0x40000 + (bytes[1] - 0x80) * 0x1000 + (bytes[2] - 0x80) * 0x40 + (bytes[3] - 0x80)
    else -1
  }

  predicate IsScalar(c: int) {
    0 <= c <= 0x10FFFF && !(0xD800 <= c <= 0xDFFF)
  }

  /** `bytes.decode("utf-8", errors="replace")` on one slice: its character, or what stands in for a bad one. */
  function DecodeSlice(bytes: seq<Byte>, replaced: seq<Byte> -> seq<Scalar>): seq<Scalar> {
    var c := ValueOf(bytes);
    if IsScalar(c) && EncodeChar(c) == bytes then [c] else replaced(bytes)
  }

  /** What the loop yields from position `i` on. */
  ghost function DecodeFrom(bytes: seq<Byte>, i: nat, replaced: seq<Byte> -> seq<Scalar>): seq<Scalar>
    decreases |bytes| - i
  {
    if |bytes| <= i then []
    else
      var n := WidthOf(bytes[i]);
      if n == 0 || |bytes| < i + n then DecodeFrom(bytes, i + 1, replaced)
      else DecodeSlice(bytes[i..i + n], replaced) + DecodeFrom(bytes, i + n, replaced)
  }

  method Decode(bytes: seq<Byte>, replaced: seq<Byte> -> seq<Scalar>) returns (text: seq<Scalar>)
    ensures text == DecodeFrom(bytes, 0, replaced)
    ensures forall t :: bytes == Encode(t) ==> text == t
  {
    hide DecodeSlice, EncodeChar, Encode, WidthOf;
    text := [];
    var i := 0;
    while i < |bytes|
      invariant i <= |bytes| && text + DecodeFrom(bytes, i, replaced) == DecodeFrom(bytes, 0, replaced)
      decreases |bytes| - i
    {
      var n := WidthOf(bytes[i]);
      if n == 0 || |bytes| < i + n {
        i := i + 1;
      } else {
        var part := DecodeSlice(bytes[i..i + n], replaced);
        assert text + (part + DecodeFrom(bytes, i + n, replaced)) == text + part + DecodeFrom(bytes, i + n, replaced);
        text := text + part;
        i := i + n;
      }
    }
    forall t | bytes == Encode(t)
      ensures text == t
    {
      DecodeEncode([], t, replaced);
      assert [] + Encode(t) == bytes;
    }
  }

  lemma CharWidth(c: Scalar)
    ensures var e := EncodeChar(c); e != [] && WidthOf(e[0]) == |e|
  {
  }

  lemma CharValue(c: Scalar)
    ensures ValueOf(EncodeChar(c)) == c
  {
    var d := c / 0x40;
    assert c == d * 0x40 + c % 0x40;
    assert d == d / 0x40 * 0x40 + d % 0x40 && d / 0x40 == c / 0x1000;
    assert c / 0x1000 == c / 0x1000 / 0x40 * 0x40 + c / 0x1000 % 0x40 && c / 0x1000 / 0x40 == c / 0x40000;
  }

  /** One turn of the loop at the bytes of a scalar. */
  lemma CharTurn(pre: seq<Byte>, c: Scalar, rest: seq<Byte>, replaced: seq<Byte> -> seq<Scalar>)
    ensures var bytes, next := pre + EncodeChar(c) + rest, |pre + EncodeChar(c)|;
            DecodeFrom(bytes, |pre|, replaced) == [c] + DecodeFrom(bytes, next, replaced)
  {
    hide EncodeChar, WidthOf, ValueOf;
    var e := EncodeChar(c);
    var bytes := pre + e + rest;
    CharWidth(c);
    CharValue(c);
    assert bytes[|pre|..|pre| + |e|] == e && bytes[|pre|] == e[0];
  }

  /** A byte that leads no character, or one that the end cuts short, is skipped, and no other. */
  lemma Skipped(pre: seq<Byte>, b: Byte, rest: seq<Byte>, replaced: seq<Byte> -> seq<Scalar>)
    requires 0x80 <= b <= 0xBF || 0xF8 <= b || (0xC0 <= b <= 0xDF && rest == []) || (0xE0 <= b <= 0xEF && |rest| < 2) ||
             (0xF0 <= b <= 0xF7 && |rest| < 3)
    ensures DecodeFrom(pre + [b] + rest, |pre|, replaced) == DecodeFrom(pre + [b] + rest, |pre| + 1, replaced)
  {
    hide DecodeSlice;
    assert (pre + [b] + rest)[|pre|] == b;
  }

  lemma OneScalar(slice: seq<Byte>, replaced: seq<Byte> -> seq<Scalar>)
    ensures (exists c: Scalar :: EncodeChar(c) == slice) ==> exists c: Scalar :: EncodeChar(c) == slice && DecodeSlice(slice, replaced) == [c]
    ensures !(exists c: Scalar :: EncodeChar(c) == slice) ==> DecodeSlice(slice, replaced) == replaced(slice)
    ensures forall c: Scalar, d: Scalar | EncodeChar(c) == EncodeChar(d) :: c == d
  {
    hide EncodeChar, ValueOf;
    forall c: Scalar ensures ValueOf(EncodeChar(c)) == c {
      CharValue(c);
    }
  }

  /** Any other is decoded with the bytes that its character takes, whatever they are. */
  lemma Taken(pre: seq<Byte>, slice: seq<Byte>, rest: seq<Byte>, replaced: seq<Byte> -> seq<Scalar>)
    requires slice != [] && |slice| == (if slice[0] <= 0x7F then 1 else if slice[0] <= 0xDF then 2 else if slice[0] <= 0xEF then 3 else 4)
    requires !(0x80 <= slice[0] <= 0xBF) && slice[0] <= 0xF7
    ensures var bytes := pre + slice + rest;
            DecodeFrom(bytes, |pre|, replaced) ==
            (if c: Scalar :| EncodeChar(c) == slice then [c] else replaced(slice)) + DecodeFrom(bytes, |pre + slice|, replaced)
  {
    hide EncodeChar, DecodeSlice, DecodeFrom;
    SliceTaken(pre, slice, rest, replaced);
    OneScalar(slice, replaced);
  }

  lemma SliceTaken(pre: seq<Byte>, slice: seq<Byte>, rest: seq<Byte>, replaced: seq<Byte> -> seq<Scalar>)
    requires slice != [] && |slice| == WidthOf(slice[0])
    ensures var bytes := pre + slice + rest;
            DecodeFrom(bytes, |pre|, replaced) == DecodeSlice(slice, replaced) + DecodeFrom(bytes, |pre + slice|, replaced)
  {
    hide *;
    Between(pre, slice, rest);
    OneTurn(pre + slice + rest, |pre|, replaced);
  }

  lemma Between(pre: seq<Byte>, slice: seq<Byte>, rest: seq<Byte>)
    requires slice != []
    ensures var bytes := pre + slice + rest;
            |pre| + |slice| <= |bytes| && bytes[|pre|] == slice[0] && bytes[|pre|..|pre| + |slice|] == slice
  {
  }

  /** One turn of the loop that takes a slice. */
  lemma OneTurn(bytes: seq<Byte>, i: nat, replaced: seq<Byte> -> seq<Scalar>)
    requires i < |bytes| && WidthOf(bytes[i]) > 0 && i + WidthOf(bytes[i]) <= |bytes|
    ensures DecodeFrom(bytes, i, replaced) ==
            DecodeSlice(bytes[i..i + WidthOf(bytes[i])], replaced) + DecodeFrom(bytes, i + WidthOf(bytes[i]), replaced)
  {
    hide DecodeSlice, WidthOf;
  }

  lemma NothingLeft(bytes: seq<Byte>, replaced: seq<Byte> -> seq<Scalar>)
    ensures DecodeFrom(bytes, |bytes|, replaced) == []
  {
  }

  /** The loop reads back every valid text, wherever it starts in it, and skips nothing. */
  lemma {:induction false} DecodeEncode(pre: seq<Byte>, text: seq<Scalar>, replaced: seq<Byte> -> seq<Scalar>)
    ensures DecodeFrom(pre + Encode(text), |pre|, replaced) == text
    decreases text
  {
    hide EncodeChar, DecodeFrom;
    if text != [] {
      var e := EncodeChar(text[0]);
      CharWidth(text[0]);
      CharTurn(pre, text[0], Encode(text[1..]), replaced);
      assert pre + Encode(text) == pre + e + Encode(text[1..]);
      DecodeEncode(pre + e, text[1..], replaced);
      assert text == [text[0]] + text[1..];
    } else {
      assert pre + Encode(text) == pre;
      NothingLeft(pre, replaced);
    }
  }
}
