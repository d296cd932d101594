/**
 Bytes and the little-endian integers that `BinaryStreamBuffer::write` copies out of memory
 (tissdb/common/binary_stream_buffer.h), for a machine with 8-byte `size_t`.
 */
module Bytes {
  import Arithmetic

  type Byte = bv8
  type Text = seq<Byte>

  /** What a read from a stream gives: an exception, or a value and the bytes after it. */
  datatype Read<+T> = Failed | Got(value: T, rest: seq<Byte>)

  function Pow256(n: nat): (p: nat)
    ensures p > 0
  {
    if n == 0 then 1 else 256 * Pow256(n - 1)
  }

  /** The `n` low bytes of `x`, lowest first. */
  function Le(n: nat, x: nat): (s: seq<Byte>)
    ensures |s| == n
  {
    if n == 0 then [] else [(x % 256) as Byte] + Le(n - 1, x / 256)
  }

  function UnLe(s: seq<Byte>): nat {
    if s == [] then 0 else s[0] as int + 256 * UnLe(s[1..])
  }

  lemma NextByte(b: Byte)
    requires b != 255
    ensures (b + 1) as int == b as int + 1
  {
  }

  lemma IntOfByte(b: Byte)
    ensures b as int as Byte == b
  {
  }

  /** Every number below 256 is a byte. */
  lemma {:induction false} SomeByte(x: nat) returns (b: Byte)
    requires x < 256
    ensures b as int == x
  {
    if x == 0 {
      b := 0;
    } else {
      var a := SomeByte(x - 1);
      assert a != 255;
      NextByte(a);
      b := a + 1;
    }
  }

  lemma ByteOfInt(x: nat)
    requires x < 256
    ensures x as Byte as int == x
  {
    var b := SomeByte(x);
    IntOfByte(b);
  }

  lemma {:induction false} UnLeLe(n: nat, x: nat)
    ensures UnLe(Le(n, x)) == x % Pow256(n)
    decreases n
  {
    if n > 0 {
      UnLeLe(n - 1, x / 256);
      ByteOfInt(x % 256);
      assert Le(n, x)[1..] == Le(n - 1, x / 256);
      ModSplit(x, Pow256(n - 1));
    }
  }

  lemma ModSplit(x: nat, p: nat)
    requires p > 0
    ensures x % (256 * p) == x % 256 + 256 * ((x / 256) % p)
  {
    var q := x / 256;
    Arithmetic.Quotient(q, p);
    assert x == (256 * p) * (q / p) + (256 * (q % p) + x % 256);
    Arithmetic.DivMod(x, 256 * p, q / p, 256 * (q % p) + x % 256);
  }

  lemma {:induction false} UnLeBound(s: seq<Byte>)
    ensures UnLe(s) < Pow256(|s|)
  {
    if s != [] {
      UnLeBound(s[1..]);
      ByteBound(s[0]);
    }
  }

  lemma ByteBound(b: Byte)
    ensures 0 <= b as int < 256
  {
  }

  const SIZE_LIMIT: nat := 0x1_0000_0000_0000_0000

  lemma Pow256Eight()
    ensures Pow256(8) == SIZE_LIMIT && Pow256(4) == 0x1_0000_0000
  {
    assert Pow256(4) == 0x1_0000_0000;
  }

  /** The next `n` bytes. */
  function Take(n: nat, s: seq<Byte>): (r: Read<seq<Byte>>)
    ensures r.Got? <==> n <= |s|
    ensures r.Got? ==> |r.value| == n && r.value + r.rest == s
  {
    if n <= |s| then Got(s[..n], s[n..]) else Failed
  }

  lemma TakeBack(a: seq<Byte>, rest: seq<Byte>)
    ensures Take(|a|, a + rest) == Got(a, rest)
  {
  }

  // ---------- sizes ----------

  function Size(n: nat): (s: seq<Byte>)
    ensures |s| == 8
  {
    Le(8, n)
  }

  function ReadSize(s: seq<Byte>): (r: Read<nat>)
    ensures r.Got? ==> |s| == |r.rest| + 8 && r.value < SIZE_LIMIT
  {
    match Take(8, s)
    case Failed => Failed
    case Got(b, rest) => UnLeBound(b); Pow256Eight(); Got(UnLe(b), rest)
  }

  lemma SizeBack(n: nat, rest: seq<Byte>)
    requires n < SIZE_LIMIT
    ensures ReadSize(Size(n) + rest) == Got(n, rest)
  {
    TakeBack(Size(n), rest);
    UnLeLe(8, n);
    Pow256Eight();
  }

  // ---------- strings and byte vectors ----------

  const MAX_STRING: nat := 10 * 1024 * 1024
  const MAX_BYTES: nat := 100 * 1024 * 1024

  /** `write_string` and `write_bytes` */
  function Prefixed(t: Text): seq<Byte> { Size(|t|) + t }

  /** `read_string` and `read_bytes`, which differ only in their limit. */
  function ReadPrefixed(limit: nat, s: seq<Byte>): (r: Read<Text>)
    ensures r.Got? ==> |s| == |r.rest| + 8 + |r.value|
    ensures r.Got? ==> |r.value| <= limit
  {
    match ReadSize(s)
    case Failed => Failed
    case Got(n, rest) =>
      if n == 0 then Got([], rest) else if n > limit then Failed else Take(n, rest)
  }

  lemma PrefixedBack(limit: nat, t: Text, rest: seq<Byte>)
    requires |t| <= limit < SIZE_LIMIT
    ensures ReadPrefixed(limit, Prefixed(t) + rest) == Got(t, rest)
  {
    assert Prefixed(t) + rest == Size(|t|) + (t + rest);
    SizeBack(|t|, t + rest);
    TakeBack(t, rest);
  }

  // ---------- 64-bit and 32-bit numbers ----------

  newtype u64 = x: int | 0 <= x < 0x1_0000_0000_0000_0000
  newtype i64 = x: int | -0x8000_0000_0000_0000 <= x < 0x8000_0000_0000_0000
  newtype i32 = x: int | -0x8000_0000 <= x < 0x8000_0000

  function Signed64(n: nat): i64
    requires n < SIZE_LIMIT
  {
    if n < 0x8000_0000_0000_0000 then n as i64 else (n - SIZE_LIMIT) as i64
  }

  function Unsigned64(x: i64): (n: nat)
    ensures n < SIZE_LIMIT && Signed64(n) == x
  {
    if x >= 0 then x as nat else x as int + SIZE_LIMIT
  }

  function Int32(x: i32): (s: seq<Byte>)
    ensures |s| == 4
  {
    Le(4, if x >= 0 then x as int else x as int + 0x1_0000_0000)
  }

  function ReadInt32(s: seq<Byte>): (r: Read<i32>)
    ensures r.Got? ==> |s| == |r.rest| + 4
  {
    match Take(4, s)
    case Failed => Failed
    case Got(b, rest) =>
      UnLeBound(b);
      Pow256Eight();
      var n := UnLe(b);
      Got(if n < 0x8000_0000 then n as i32 else (n - 0x1_0000_0000) as i32, rest)
  }

  lemma Int32Back(x: i32, rest: seq<Byte>)
    ensures ReadInt32(Int32(x) + rest) == Got(x, rest)
  {
    hide Le, UnLe, Pow256;
    TakeBack(Int32(x), rest);
    UnLeLe(4, if x >= 0 then x as int else x as int + 0x1_0000_0000);
    Pow256Eight();
  }

  /** A `uint32_t`; larger numbers lose their high bits. */
  function Word(n: nat): (s: seq<Byte>)
    ensures |s| == 4
  {
    Le(4, n)
  }

  function ReadWord(s: seq<Byte>): (r: Read<nat>)
    ensures r.Got? ==> |s| == |r.rest| + 4 && r.value < 0x1_0000_0000
  {
    match Take(4, s)
    case Failed => Failed
    case Got(b, rest) => UnLeBound(b); Pow256Eight(); Got(UnLe(b), rest)
  }

  lemma WordBack(n: nat, rest: seq<Byte>)
    ensures ReadWord(Word(n) + rest) == Got(n % 0x1_0000_0000, rest)
  {
    TakeBack(Word(n), rest);
    UnLeLe(4, n);
    Pow256Eight();
  }

  // ---------- checksums ----------

  function Sum(c: bv32): (s: seq<Byte>)
    ensures |s| == 4
  {
    [(c & 0xFF) as Byte, ((c >> 8) & 0xFF) as Byte, ((c >> 16) & 0xFF) as Byte, ((c >> 24) & 0xFF) as Byte]
  }

  function UnSum(a: Byte, b: Byte, c: Byte, d: Byte): bv32 {
    (a as bv32) | ((b as bv32) << 8) | ((c as bv32) << 16) | ((d as bv32) << 24)
  }

  function ReadSum(s: seq<Byte>): (r: Read<bv32>)
    ensures r.Got? <==> |s| >= 4
    ensures r.Got? ==> |s| == |r.rest| + 4
  {
    if |s| < 4 then Failed else Got(UnSum(s[0], s[1], s[2], s[3]), s[4..])
  }

  lemma UnSumSum(c: bv32)
    ensures UnSum((c & 0xFF) as Byte, ((c >> 8) & 0xFF) as Byte, ((c >> 16) & 0xFF) as Byte, ((c >> 24) & 0xFF) as Byte) == c
  {
  }

  lemma SumBack(c: bv32, rest: seq<Byte>)
    ensures ReadSum(Sum(c) + rest) == Got(c, rest)
  {
    hide UnSum;
    UnSumSum(c);
    assert (Sum(c) + rest)[4..] == rest;
  }

  // ---------- the order of texts ----------

  /** `operator<` on `std::string`, which compares bytes; `TextOrder.Less` is the same on characters. */
  predicate Less(a: Text, b: Text) {
    b != [] && (a == [] || a[0] < b[0] || (a[0] == b[0] && Less(a[1..], b[1..])))
  }

  /** Behind `i` bytes that are the same, the first text ends or has the smaller one. */
  predicate LessAt(a: Text, b: Text, i: nat) {
    i <= |a| && i < |b| && a[..i] == b[..i] && (i == |a| || a[i] < b[i])
  }

  /** A proper prefix is less, and else the first difference decides. */
  lemma {:induction false} LessIs(a: Text, b: Text)
    ensures Less(a, b) <==> exists i: nat :: LessAt(a, b, i)
  {
    if b != [] && a != [] {
      LessIs(a[1..], b[1..]);
      if i: nat :| LessAt(a[1..], b[1..], i) && a[0] == b[0] {
        assert a[..i + 1] == [a[0]] + a[1..][..i] && b[..i + 1] == [b[0]] + b[1..][..i];
        assert LessAt(a, b, i + 1);
      }
      if i: nat :| LessAt(a, b, i) && i > 0 {
        assert a[..i][0] == b[..i][0];
        assert a[1..][..i - 1] == a[..i][1..] && b[1..][..i - 1] == b[..i][1..];
        assert LessAt(a[1..], b[1..], i - 1);
      }
      assert a[0] < b[0] ==> LessAt(a, b, 0);
    } else {
      assert b != [] ==> LessAt(a, b, 0);
    }
  }

  lemma {:induction false} LessIrreflexive(a: Text)
    ensures !Less(a, a)
  {
    if a != [] {
      LessIrreflexive(a[1..]);
    }
  }

  lemma {:induction false} LessAsymmetric(a: Text, b: Text)
    requires Less(a, b)
    ensures !Less(b, a)
  {
    if a != [] && a[0] == b[0] {
      LessAsymmetric(a[1..], b[1..]);
    }
  }

  lemma {:induction false} LessTrans(a: Text, b: Text, c: Text)
    requires Less(a, b) && Less(b, c)
    ensures Less(a, c)
  {
    if a != [] && a[0] == b[0] == c[0] {
      LessTrans(a[1..], b[1..], c[1..]);
    }
  }

  lemma {:induction false} LessTotal(a: Text, b: Text)
    ensures Less(a, b) || a == b || Less(b, a)
  {
    if a != [] && b != [] && a[0] == b[0] {
      LessTotal(a[1..], b[1..]);
      assert a == [a[0]] + a[1..] && b == [b[0]] + b[1..];
    }
  }
}
