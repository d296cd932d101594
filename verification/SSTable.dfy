/**
 Sorted tables (tissdb/storage/sstable.cpp): writing one from a memtable with a sparse index of every 16th
 key, and finding a key by scanning from the nearest indexed one.
 */
module SSTable {
  import opened Arithmetic
  import opened Bytes
  import opened Codec
  import opened CodecStream
  import K = Kms
  import opened Options

  /** A row of the memtable: a document, or a tombstone. */
  datatype Row = Row(key: Text, doc: Option<Document>)

  /** An entry of the sparse index. */
  datatype Mark = Mark(key: Text, offset: nat)

  const INTERVAL: nat := 16

  /** The length that marks a tombstone. */
  const TOMBSTONE: nat := SIZE_LIMIT - 1

  // ---------- what is written ----------

  function Stored(doc: Document): seq<Byte> { K.Xored(Encode(doc), K.Dek()) }

  function ValueBytes(doc: Option<Document>): seq<Byte> {
    match doc
    case Some(d) => Prefixed(Stored(d))
    case None => Size(TOMBSTONE)
  }

  function RowBytes(r: Row): seq<Byte> { Prefixed(r.key) + ValueBytes(r.doc) }

  function Data(rows: seq<Row>): seq<Byte>
    decreases rows
  {
    if rows == [] then [] else RowBytes(rows[0]) + Data(rows[1..])
  }

  /** Where row `i` starts. */
  function Offset(rows: seq<Row>, i: nat): nat
    requires i <= |rows|
  {
    |Data(rows[..i])|
  }

  /** How many marks the first `n` rows make. */
  function Marks(n: nat): nat { (n + INTERVAL - 1) / INTERVAL }

  ghost predicate IsSparseIndex(rows: seq<Row>, marks: seq<Mark>, n: nat)
    requires n <= |rows|
  {
    && |marks| == Marks(n)
    && forall j | 0 <= j < |marks| ::
         INTERVAL * j < n && marks[j] == Mark(rows[INTERVAL * j].key, Offset(rows, INTERVAL * j))
  }

  // ---------- what is found ----------

  /** Not found, a value (empty for a tombstone), or an exception. */
  datatype Result = NotFound | Found(bytes: seq<Byte>) | Throws

  /** What a stored row is to its finder; a value of more than 100 MiB throws. */
  function ValueOf(r: Row): Result {
    match r.doc
    case None => Found([])
    case Some(d) => if |Encode(d)| <= MAX_BYTES then Found(Encode(d)) else Throws
  }

  predicate Sorted(rows: seq<Row>) {
    forall i, j :: 0 <= i < j < |rows| ==> Less(rows[i].key, rows[j].key)
  }

  /** Keys that a reader takes, and values whose length is a `size_t` that does not mark a tombstone. */
  predicate Readable(rows: seq<Row>) {
    forall i | 0 <= i < |rows| :: |rows[i].key| <= MAX_STRING && (rows[i].doc.Some? ==> |Encode(rows[i].doc.value)| < TOMBSTONE)
  }

  // ---------- offsets ----------

  lemma {:induction false} DataAppend(a: seq<Row>, b: seq<Row>)
    ensures Data(a + b) == Data(a) + Data(b)
    decreases a
  {
    hide RowBytes;
    if a == [] {
      assert a + b == b;
    } else {
      assert (a + b)[0] == a[0] && (a + b)[1..] == a[1..] + b;
      DataAppend(a[1..], b);
    }
  }

  lemma OneRow(r: Row)
    ensures Data([r]) == RowBytes(r)
  {
    hide RowBytes;
    assert [r][1..] == [] && Data([]) == [];
    assert RowBytes(r) + [] == RowBytes(r);
  }

  lemma NextOffset(rows: seq<Row>, i: nat)
    requires i < |rows|
    ensures Data(rows[..i + 1]) == Data(rows[..i]) + RowBytes(rows[i])
    ensures Offset(rows, i + 1) == Offset(rows, i) + |RowBytes(rows[i])| && |RowBytes(rows[i])| >= 16
  {
    assert |RowBytes(rows[i])| >= 16;
    hide RowBytes;
    assert rows[..i + 1] == rows[..i] + [rows[i]];
    DataAppend(rows[..i], [rows[i]]);
    OneRow(rows[i]);
  }

  lemma {:induction false} OffsetsGrow(rows: seq<Row>, i: nat, j: nat)
    requires i < j <= |rows|
    ensures Offset(rows, i) < Offset(rows, j)
    decreases j
  {
    hide RowBytes, Offset;
    NextOffset(rows, j - 1);
    if i < j - 1 {
      OffsetsGrow(rows, i, j - 1);
    }
  }

  /** The file from row `i` on. */
  lemma FileFrom(rows: seq<Row>, tail: seq<Byte>, i: nat)
    requires i < |rows|
    ensures Offset(rows, i) <= |Data(rows) + tail|
    ensures (Data(rows) + tail)[Offset(rows, i)..] == RowBytes(rows[i]) + (Data(rows[i + 1..]) + tail)
  {
    hide RowBytes, Data;
    assert rows == rows[..i] + rows[i..] && rows[i..] == [rows[i]] + rows[i + 1..];
    DataAppend(rows[..i], rows[i..]);
    DataAppend([rows[i]], rows[i + 1..]);
    OneRow(rows[i]);
    var before, row, after := Data(rows[..i]), RowBytes(rows[i]), Data(rows[i + 1..]);
    Split4(before, row, after, tail);
  }

  lemma Split4(a: seq<Byte>, b: seq<Byte>, c: seq<Byte>, d: seq<Byte>)
    ensures (a + (b + c) + d)[|a|..] == b + (c + d)
  {
    assert a + (b + c) + d == a + (b + (c + d));
  }

  // ---------- writing ----------

  /** The rows and the sparse index that `write_from_memtable` makes of a memtable. */
  method WriteRows(rows: seq<Row>) returns (data: seq<Byte>, marks: seq<Mark>)
    ensures data == Data(rows) && IsSparseIndex(rows, marks, |rows|)
  {
    hide Data, RowBytes, IsSparseIndex;
    var kms := new K.KeyManagementSystem([1, 2, 3, 4, 5, 6, 7, 8, 9, 10, 11, 12, 13, 14, 15, 16]);
    var buffer := new BinaryStreamBuffer();
    marks := [];
    NoRows(rows);
    for keyCount := 0 to |rows|
      invariant buffer.Valid() && kms.Valid()
      invariant buffer.data == Data(rows[..keyCount]) && IsSparseIndex(rows, marks, keyCount)
    {
      NextMark(rows, marks, keyCount);
      if keyCount % INTERVAL == 0 {
        marks := marks + [Mark(rows[keyCount].key, |buffer.data|)];
      }
      NextOffset(rows, keyCount);
      WriteRow(buffer, kms, rows[keyCount]);
    }
    assert rows[..|rows|] == rows;
    data := buffer.data;
  }

  method WriteRow(buffer: BinaryStreamBuffer, kms: K.KeyManagementSystem, r: Row)
    requires buffer.Valid() && kms.Valid()
    modifies buffer, kms
    ensures buffer.Valid() && kms.Valid() && buffer.data == old(buffer.data) + RowBytes(r)
  {
    hide Encode, Prefixed, K.Xored, Size;
    buffer.WriteString(r.key);
    match r.doc {
      case Some(doc) =>
        var bytes := Serialize(doc);
        var dek := kms.GetDek([]);
        var encrypted := kms.Encrypt(bytes, dek);
        buffer.WriteString(encrypted);
      case None =>
        buffer.Write(Size(TOMBSTONE));
    }
    assert buffer.data == old(buffer.data) + (Prefixed(r.key) + ValueBytes(r.doc));
  }

  lemma NoRows(rows: seq<Row>)
    ensures rows[..0] == [] && Data([]) == [] && IsSparseIndex(rows, [], 0)
  {
  }

  /** Every 16th row is marked. */
  lemma NextMark(rows: seq<Row>, marks: seq<Mark>, n: nat)
    requires n < |rows| && IsSparseIndex(rows, marks, n)
    ensures if n % INTERVAL == 0 then IsSparseIndex(rows, marks + [Mark(rows[n].key, Offset(rows, n))], n + 1)
            else IsSparseIndex(rows, marks, n + 1)
  {
    hide Data;
    assert n % INTERVAL == 0 ==> Marks(n) * INTERVAL == n && Marks(n + 1) == Marks(n) + 1;
    assert n % INTERVAL != 0 ==> Marks(n + 1) == Marks(n);
  }

  // ---------- finding ----------

  /** `sparse_index_.upper_bound(key)` */
  method UpperBound(marks: seq<Mark>, key: Text) returns (j: nat)
    ensures j <= |marks| && (forall k | 0 <= k < j :: !Less(key, marks[k].key)) && (j < |marks| ==> Less(key, marks[j].key))
  {
    hide Less;
    j := 0;
    while j < |marks| && !Less(key, marks[j].key)
      invariant j <= |marks| && forall k | 0 <= k < j :: !Less(key, marks[k].key)
    {
      j := j + 1;
    }
  }

  /** One turn of the loop: a result, or the bytes after the row. */
  datatype Turn = Stop(result: Result) | Next(rest: seq<Byte>)

  /** What a turn makes of the bytes at the cursor. */
  function ReadTurn(s: seq<Byte>, key: Text): (t: Turn)
    ensures t.Next? ==> |t.rest| < |s|
  {
    match ReadPrefixed(MAX_STRING, s)
    case Failed => Stop(Throws)
    case Got(current, s1) =>
      match ReadSize(s1)
      case Failed => Stop(Throws)
      case Got(n, s2) =>
        if current == key then Stop(if n == TOMBSTONE then Found([]) else ReadValue(n, s2))
        else if Less(key, current) then Stop(NotFound)
        else Next(if n == TOMBSTONE then s2 else if n <= |s2| then s2[n..] else [])
  }

  /** `read_bytes_with_length` and decryption */
  function ReadValue(n: nat, s: seq<Byte>): Result {
    if n == 0 then Found([])
    else if n > MAX_BYTES then Throws
    else match Take(n, s) case Failed => Throws case Got(b, _) => Found(K.Xored(b, K.Dek()))
  }

  lemma EncodeNotEmpty(d: Document)
    ensures |Encode(d)| > 0
  {
    hide EncodeElements;
  }

  lemma ReadStored(d: Document, rest: seq<Byte>)
    ensures ReadValue(|Stored(d)|, Stored(d) + rest) == ValueOf(Row([], Some(d)))
  {
    hide Encode, K.Xored;
    EncodeNotEmpty(d);
    TakeBack(Stored(d), rest);
    K.XoredTwice(Encode(d), K.Dek());
  }

  /** A turn at the start of a row. */
  lemma RowTurn(r: Row, rest: seq<Byte>, key: Text)
    requires |r.key| <= MAX_STRING && (r.doc.Some? ==> |Encode(r.doc.value)| < TOMBSTONE)
    ensures ReadTurn(RowBytes(r) + rest, key) ==
            if r.key == key then Stop(ValueOf(r)) else if Less(key, r.key) then Stop(NotFound) else Next(rest)
  {
    hide Encode, K.Xored, ReadPrefixed, ReadSize, ReadValue, Less, Size;
    match r.doc {
      case Some(d) =>
        var value := Stored(d);
        assert RowBytes(r) + rest == Prefixed(r.key) + (Size(|value|) + (value + rest));
        PrefixedBack(MAX_STRING, r.key, Size(|value|) + (value + rest));
        SizeBack(|value|, value + rest);
        ReadStored(d, rest);
      case None =>
        assert RowBytes(r) + rest == Prefixed(r.key) + (Size(TOMBSTONE) + rest);
        PrefixedBack(MAX_STRING, r.key, Size(TOMBSTONE) + rest);
        SizeBack(TOMBSTONE, rest);
    }
  }

  // ---------- where the scan is ----------

  /** The cursor is at row `i`, and the rows before it have smaller keys. */
  ghost predicate Inside(rows: seq<Row>, key: Text, i: nat, pos: nat) {
    i < |rows| && pos == Offset(rows, i) && forall k | 0 <= k < i :: Less(rows[k].key, key)
  }

  /** The key is above all rows. */
  ghost predicate Above(rows: seq<Row>, key: Text) { forall k | 0 <= k < |rows| :: Less(rows[k].key, key) }

  /** What is promised of a result. */
  ghost predicate Right(rows: seq<Row>, key: Text, result: Result) {
    && (forall i | 0 <= i < |rows| && rows[i].key == key :: result == ValueOf(rows[i]))
    && ((forall i | 0 <= i < |rows| :: rows[i].key != key) && rows != [] && Less(key, rows[|rows| - 1].key) ==> result == NotFound)
  }

  lemma AboveRight(rows: seq<Row>, key: Text, result: Result)
    requires Above(rows, key)
    ensures Right(rows, key, result)
  {
    hide Less, ValueOf;
    forall i | 0 <= i < |rows| ensures rows[i].key != key {
      LessIrreflexive(key);
    }
    if rows != [] {
      LessAsymmetric(rows[|rows| - 1].key, key);
    }
  }

  /** The rows before `i` are smaller, and row `i` is the key's or larger. */
  lemma StopRight(rows: seq<Row>, key: Text, i: nat, result: Result)
    requires Sorted(rows) && i < |rows| && forall k | 0 <= k < i :: Less(rows[k].key, key)
    requires if rows[i].key == key then result == ValueOf(rows[i]) else Less(key, rows[i].key) && result == NotFound
    ensures Right(rows, key, result)
  {
    hide Less, ValueOf;
    LessIrreflexive(key);
    forall k | i < k < |rows| ensures rows[k].key != key {
      if rows[i].key != key {
        LessTrans(key, rows[i].key, rows[k].key);
      }
    }
  }

  lemma StartInside(rows: seq<Row>, marks: seq<Mark>, it: nat, key: Text)
    requires Sorted(rows) && rows != [] && IsSparseIndex(rows, marks, |rows|) && it <= |marks|
    requires forall k | 0 <= k < it :: !Less(key, marks[k].key)
    ensures Inside(rows, key, 0, 0)
    ensures it > 0 ==> Inside(rows, key, INTERVAL * (it - 1), marks[it - 1].offset)
  {
    hide Less, Data;
    assert rows[..0] == [] && Data([]) == [] by { NoData(); }
    if it > 0 {
      var i := INTERVAL * (it - 1);
      LessTotal(key, rows[i].key);
      forall k | 0 <= k < i ensures Less(rows[k].key, key) {
        if rows[i].key != key {
          LessTrans(rows[k].key, rows[i].key, key);
        }
      }
    }
  }

  lemma NoData()
    ensures Data([]) == []
  {
  }

  /** Beyond the start of the next block, which has larger keys only. */
  lemma PastBlock(rows: seq<Row>, marks: seq<Mark>, key: Text, it: nat, i: nat, pos: nat)
    requires Sorted(rows) && IsSparseIndex(rows, marks, |rows|) && it < |marks|
    requires Less(key, marks[it].key) && Inside(rows, key, i, pos) && pos >= marks[it].offset
    ensures Right(rows, key, NotFound)
  {
    hide Less, Offset, ValueOf;
    var m := INTERVAL * it;
    if i < m {
      OffsetsGrow(rows, i, m);
    }
    if m < i {
      LessAsymmetric(key, rows[m].key);
    }
    assert i == m;
    LessIrreflexive(key);
    StopRight(rows, key, i, NotFound);
  }

  /** A turn inside the rows stops with the right result, or moves on to the next row. */
  lemma TurnRight(rows: seq<Row>, tail: seq<Byte>, key: Text, i: nat, pos: nat)
    requires Sorted(rows) && Readable(rows) && Inside(rows, key, i, pos)
    ensures pos < |Data(rows) + tail|
    ensures var turn := ReadTurn((Data(rows) + tail)[pos..], key);
            if turn.Stop? then Right(rows, key, turn.result)
            else if i + 1 < |rows| then Inside(rows, key, i + 1, |Data(rows) + tail| - |turn.rest|)
            else Above(rows, key)
  {
    hide Less, ReadTurn, RowBytes, ValueOf, Data, Encode;
    FileFrom(rows, tail, i);
    NextOffset(rows, i);
    var rest := Data(rows[i + 1..]) + tail;
    RowTurn(rows[i], rest, key);
    LessTotal(key, rows[i].key);
    if rows[i].key == key || Less(key, rows[i].key) {
      if rows[i].key == key {
        LessIrreflexive(key);
      }
      StopRight(rows, key, i, if rows[i].key == key then ValueOf(rows[i]) else NotFound);
    }
  }

  lemma NoMarks(rows: seq<Row>)
    requires IsSparseIndex(rows, [], |rows|)
    ensures rows == []
  {
  }

  class Table {
    const file: seq<Byte>
    const sparseIndex: seq<Mark>
    const kms: K.KeyManagementSystem

    constructor (file: seq<Byte>, sparseIndex: seq<Mark>)
      ensures this.file == file && this.sparseIndex == sparseIndex && fresh(kms) && kms.Valid()
    {
      this.file, this.sparseIndex := file, sparseIndex;
      kms := new K.KeyManagementSystem([1, 2, 3, 4, 5, 6, 7, 8, 9, 10, 11, 12, 13, 14, 15, 16]);
    }

    /**
     `find`, in a file that starts with these rows and has their sparse index. A key up to the largest is
     found with its value, or not found. A larger key runs into what follows the rows; that result is open.
     */
    method Find(key: Text, ghost rows: seq<Row>, ghost tail: seq<Byte>) returns (result: Result)
      requires kms.Valid()
      requires Sorted(rows) && Readable(rows) && file == Data(rows) + tail && IsSparseIndex(rows, sparseIndex, |rows|)
      modifies kms
      ensures kms.Valid()
      ensures rows == [] ==> result == NotFound
      ensures Right(rows, key, result)
    {
      hide Data, Less, Sorted, Readable, Right, Inside, Above, ReadTurn;
      if sparseIndex == [] {
        NoMarks(rows);
        NothingAbove(rows, key);
        AboveRight(rows, key, NotFound);
        return NotFound;
      }
      var it := UpperBound(sparseIndex, key);
      var stream := new BinaryStreamBuffer.Over(file);
      StartInside(rows, sparseIndex, it, key);
      ghost var i: nat := 0;
      TurnRight(rows, tail, key, 0, 0);
      if it > 0 {
        i := INTERVAL * (it - 1);
        TurnRight(rows, tail, key, i, sparseIndex[it - 1].offset);
        stream.Seek(sparseIndex[it - 1].offset);
      }
      ghost var inside := true;
      while stream.pos < |stream.data|
        invariant kms.Valid() && stream.Valid() && stream.data == file && fresh(stream)
        invariant inside ==> Inside(rows, key, i, stream.pos) && stream.pos < |stream.data|
        invariant !inside ==> Above(rows, key)
        decreases |stream.data| - stream.pos
      {
        if it < |sparseIndex| && stream.pos >= sparseIndex[it].offset {
          if inside {
            PastBlock(rows, sparseIndex, key, it, i, stream.pos);
          } else {
            AboveRight(rows, key, NotFound);
          }
          return NotFound;
        }
        if inside {
          TurnRight(rows, tail, key, i, stream.pos);
        }
        ghost var turn := ReadTurn(stream.Left(), key);
        var stop := ReadRow(stream, key);
        if stop.Some? {
          if !inside {
            AboveRight(rows, key, stop.value);
          }
          return stop.value;
        }
        if inside {
          inside := i + 1 < |rows|;
          i := i + 1;
          if inside {
            TurnRight(rows, tail, key, i, stream.pos);
          }
        }
      }
      AboveRight(rows, key, NotFound);
      return NotFound;
    }

    /** One turn of the loop. */
    method ReadRow(stream: BinaryStreamBuffer, key: Text) returns (stop: Option<Result>)
      requires kms.Valid() && stream.Valid()
      modifies stream, kms
      ensures kms.Valid() && stream.Valid() && stream.data == old(stream.data)
      ensures match ReadTurn(old(stream.Left()), key)
              case Stop(r) => stop == Some(r)
              case Next(rest) => stop.None? && stream.Left() == rest
    {
      hide Less, ReadPrefixed, ReadSize;
      var current := stream.ReadString(MAX_STRING);
      if current.Threw? {
        return Some(Throws);
      }
      var n := stream.ReadCount();
      if n.Threw? {
        return Some(Throws);
      }
      if current.value == key {
        if n.value == TOMBSTONE || n.value == 0 {
          return Some(Found([]));
        }
        if n.value > MAX_BYTES {
          return Some(Throws);
        }
        var encrypted := stream.ReadRaw(n.value);
        if encrypted.Threw? {
          return Some(Throws);
        }
        var dek := kms.GetDek([]);
        var decrypted := kms.Encrypt(encrypted.value, dek);
        return Some(Found(decrypted));
      }
      if Less(key, current.value) {
        return Some(NotFound);
      }
      if n.value != TOMBSTONE {
        stream.Seek(stream.pos + n.value);
      }
      return None;
    }
  }

  lemma NothingAbove(rows: seq<Row>, key: Text)
    requires rows == []
    ensures Above(rows, key)
  {
  }
}
