/** Where every byte stands: in numbers, documents, log records and table rows. */
module ByteLayouts {
  import opened Arithmetic
  import opened Options
  import opened Bytes
  import opened Codec
  import opened Wal
  import Crc
  import Kms
  import SSTable

  // ---------- numbers and texts ----------

  /** Byte `k` of a number is its digit in base 256. */
  lemma {:induction false} LeAt(n: nat, x: nat, k: nat)
    requires k < n
    ensures Le(n, x)[k] as int == x / Pow256(k) % 256
  {
    if k == 0 {
      ByteOfInt(x % 256);
    } else {
      LeAt(n - 1, x / 256, k - 1);
      DivideTwice(x, Pow256(k - 1));
    }
  }

  lemma DivideTwice(x: nat, m: nat)
    requires m > 0
    ensures x / 256 / m == x / (256 * m)
  {
    var q, r := x / 256 / m, x / 256 % m;
    assert x / 256 == q * m + r;
    assert x == 256 * (q * m + r) + x % 256;
    var rest := 256 * r + x % 256;
    assert rest <= 256 * (m - 1) + 255;
    assert 256 * (q * m) == q * (256 * m);
    DivMod(x, 256 * m, q, rest);
  }

  /** Eight bytes of length, and the text. */
  lemma TextBytes(t: Text)
    ensures Prefixed(t) == Le(8, |t|) + t
  {
  }

  /** A checksum's low byte comes first. */
  lemma SumBytes(c: bv32)
    ensures Sum(c)[3] as bv32 == c >> 24 && Sum(c)[2] as bv32 == (c << 8) >> 24 &&
            Sum(c)[1] as bv32 == (c << 16) >> 24 && Sum(c)[0] as bv32 == (c << 24) >> 24
  {
  }

  // ---------- documents ----------

  /** The tag of each kind of value, and what follows it. */
  lemma ScalarBytes(t: Text, bits: u64, n: i64)
    ensures EncodeValue(Str(t)) == [0] + (Le(8, |t|) + t) && EncodeValue(Binary(t)) == [5] + (Le(8, |t|) + t)
    ensures EncodeValue(Number(bits)) == [1] + Le(8, bits as int)
    ensures EncodeValue(Boolean(false)) == [2, 0] && EncodeValue(Boolean(true)) == [2, 1]
    ensures EncodeValue(DateTime(n)) == [3] + Le(8, n as int % SIZE_LIMIT) &&
            EncodeValue(Timestamp(n)) == [4] + Le(8, n as int % SIZE_LIMIT)
  {
    hide Le;
    assert Unsigned64(n) == n as int % SIZE_LIMIT;
  }

  lemma NestedBytes(es: seq<Element>, vs: seq<Value>)
    ensures EncodeValue(List(es)) == [6] + (Le(8, |es|) + EncodeElements(es))
    ensures EncodeValue(NullArray) == [7, 0] && EncodeValue(Array(vs)) == [7, 1] + (Le(8, |vs|) + EncodeValues(vs))
    ensures EncodeValue(NullObject) == [8, 0] && EncodeValue(Object(es)) == [8, 1] + (Le(8, |es|) + EncodeElements(es))
  {
    hide Le, EncodeElements, EncodeValues;
  }

  /** The elements follow one another, each key before its value; the id and the count come first. */
  lemma DocumentBytes(id: Text, e: Element, es: seq<Element>, v: Value, vs: seq<Value>)
    ensures Encode(Document(id, es)) == Le(8, |id|) + id + Le(8, |es|) + EncodeElements(es)
    ensures EncodeElements([e] + es) == Le(8, |e.key|) + e.key + EncodeValue(e.value) + EncodeElements(es) && EncodeElements([]) == []
    ensures EncodeValues([v] + vs) == EncodeValue(v) + EncodeValues(vs) && EncodeValues([]) == []
  {
    assert ([e] + es)[1..] == es && ([v] + vs)[1..] == vs;
    hide Le, EncodeValue;
  }

  // ---------- log records and table rows ----------

  /** The kind, the transaction, the names and the document of an entry, before encryption. */
  lemma EntryBytes(e: LogEntry)
    ensures Payload(e) == [e.kind] + (Le(4, e.transaction as int % 0x1_0000_0000) + ((Le(8, |e.collection|) + e.collection) +
                          ((Le(8, |e.id|) + e.id) + if e.kind == 0 then Le(8, |Encode(e.doc)|) + Encode(e.doc) else Le(8, 0))))
  {
    hide Le, Encode, Int32, Prefixed, Blob;
    TransactionBytes(e.transaction);
    TextBytes(e.collection);
    TextBytes(e.id);
    BlobBytes(e);
  }

  lemma TransactionBytes(x: i32)
    ensures Int32(x) == Le(4, x as int % 0x1_0000_0000)
  {
    hide Le;
  }

  lemma BlobBytes(e: LogEntry)
    ensures Prefixed(Blob(e)) == if e.kind == 0 then Le(8, |Encode(e.doc)|) + Encode(e.doc) else Le(8, 0)
  {
    hide Le, Encode;
    assert e.kind != 0 ==> Size(0) + [] == Size(0);
  }

  /** Four bytes of length, every byte of the entry against the number of its place in 32, and the checksum of these. */
  lemma RecordBytes(e: LogEntry)
    requires |Payload(e)| < 0x1_0000_0000
    ensures var (p, r) := (Payload(e), Record(e));
            && |r| == |p| + 8 && r[..4] == Le(4, |p|)
            && (forall i | 0 <= i < |p| :: r[4 + i] == p[i] ^ (i % 32) as Byte)
            && r[|p| + 4..] == Sum(Crc.Bitwise(r[4..|p| + 4]))
  {
    hide Le, Payload, Crc.Bitwise, Sum;
    var c := Cipher(e);
    assert c[..|c|] == c;
    assert Record(e) == Word(|c|) + (c + Sum(Crc.Bitwise(c)));
    assert Record(e)[4..|c| + 4] == c;
  }

  /** A row's key, then its enciphered document or a length of all ones. */
  lemma RowBytes(key: Text, doc: Document)
    ensures SSTable.RowBytes(SSTable.Row(key, None)) == Le(8, |key|) + key + Le(8, SIZE_LIMIT - 1)
    ensures SSTable.RowBytes(SSTable.Row(key, Some(doc))) == Le(8, |key|) + key + Le(8, |Encode(doc)|) + Kms.Xored(Encode(doc), Kms.Dek())
    ensures forall i | 0 <= i < |Encode(doc)| :: Kms.Xored(Encode(doc), Kms.Dek())[i] == Encode(doc)[i] ^ (i % 32) as Byte
  {
    hide Le, Encode;
  }

  /** The sparse index has the first row and every sixteenth after it, each with the bytes of the rows before it. */
  lemma Sixteenths(rows: seq<SSTable.Row>, marks: seq<SSTable.Mark>)
    requires SSTable.IsSparseIndex(rows, marks, |rows|)
    ensures |marks| == (|rows| + 15) / 16
    ensures forall j | 0 <= j < |marks| :: 16 * j < |rows| && marks[j].key == rows[16 * j].key && marks[j].offset == |SSTable.Data(rows[..16 * j])|
  {
    hide SSTable.Data;
  }

  /** The longest texts and data in a document that are read back: 10 MiB and 100 MiB. */
  lemma LongestTexts(t: Text, id: Text, key: Text, v: Value)
    ensures (Encodable(Str(t)) <==> |t| <= 10485760) && (Encodable(Binary(t)) <==> |t| <= 104857600)
    ensures EncodableDocument(Document(id, [Element(key, v)])) <==> |id| <= 10485760 && |key| <= 10485760 && Encodable(v)
  {
    assert [Element(key, v)][0] == Element(key, v);
  }

  /** Nothing is read where there is no tag, or one above 8; no bytes at all are the empty document. */
  lemma NoValue(tag: Byte, s: seq<Byte>)
    requires 8 < tag
    ensures DecodeValue([]) == Failed && DecodeValue([tag] + s) == Failed && Decode([]) == Got(Document([], []), [])
  {
  }

  /** A stored value is found as its document's bytes up to 100 MiB, and a tombstone as no bytes. */
  lemma ValueIs(key: Text, doc: Document)
    ensures SSTable.ValueOf(SSTable.Row(key, None)) == SSTable.Found([])
    ensures SSTable.ValueOf(SSTable.Row(key, Some(doc))) == if |Encode(doc)| <= 104857600 then SSTable.Found(Encode(doc)) else SSTable.Throws
  {
    hide Encode;
  }

  /** The longest names and documents that are read back: 10 MiB and 100 MiB. */
  lemma Limits(e: LogEntry)
    ensures Loggable(e) <==>
              && |e.collection| <= 10485760 && |e.id| <= 10485760
              && (e.kind == 0 ==> EncodableDocument(e.doc) && |Encode(e.doc)| <= 104857600)
  {
  }
}
