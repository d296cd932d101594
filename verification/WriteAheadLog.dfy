/** The code of tissdb/storage/wal.cpp: appending to the log file, and recovering from whatever it holds. */
module WriteAheadLog {
  import opened Options
  import opened Bytes
  import opened Codec
  import opened CodecStream
  import Crc
  import opened Wal
  import K = Kms

  const MASTER_KEY: seq<Byte> := [1, 2, 3, 4, 5, 6, 7, 8, 9, 10, 11, 12, 13, 14, 15, 16]

  /** The name under which the log keeps its data key: "wal_key". */
  const WAL_KEY: Text := [119, 97, 108, 95, 107, 101, 121]

  class WriteAheadLog {
    /** The bytes of the log file. */
    var file: seq<Byte>
    const kms: K.KeyManagementSystem

    ghost predicate Valid()
      reads this, kms
    {
      kms.Valid()
    }

    /** A log over the file that is there; its key store starts empty. */
    constructor (contents: seq<Byte>)
      ensures Valid() && fresh(kms) && file == contents
    {
      file := contents;
      kms := new K.KeyManagementSystem(MASTER_KEY);
    }

    method Append(entry: LogEntry)
      requires Valid()
      modifies this, kms
      ensures Valid() && file == old(file) + Record(entry)
    {
      hide Payload, Word, Sum, K.Xored, Crc.Bitwise;
      var buffer := WritePayload(entry);
      var dek := kms.GetDek(WAL_KEY);
      var encrypted := kms.Encrypt(buffer, dek);
      var checksum := Crc.Crc32(encrypted);
      var size := |encrypted| % WORD_LIMIT;
      file := file + Word(|encrypted|);
      file := file + encrypted[..size];
      file := file + Sum(checksum);
      assert file == old(file) + (Word(|encrypted|) + (encrypted[..size] + Sum(checksum)));
    }

    /** The entries of the file, up to the first record that cannot be read. */
    method Recover() returns (entries: seq<LogEntry>)
      requires Valid()
      modifies kms
      ensures Valid() && entries == Recovered(file)
    {
      hide ReadRecord;
      entries := [];
      var stream := new BinaryStreamBuffer.Over(file);
      while stream.pos < |stream.data|
        invariant Valid() && stream.Valid()
        invariant fresh(stream)
        invariant entries + Recovered(stream.Left()) == Recovered(file)
        decreases |stream.Left()|
      {
        var entry := ReadEntry(stream);
        if entry.Threw? {
          assert entries + [] == entries;
          return;
        }
        ghost var before := entries;
        entries := entries + [entry.value];
        assert before + ([entry.value] + Recovered(stream.Left())) == entries + Recovered(stream.Left());
      }
      assert stream.Left() == [];
      NothingLeft();
      assert entries + [] == entries;
    }

    /** One turn of the loop; a `break` there is an exception here. */
    method ReadEntry(stream: BinaryStreamBuffer) returns (r: Outcome<LogEntry>)
      requires Valid() && stream.Valid()
      modifies stream, kms
      ensures Valid() && stream.Valid()
      ensures Matches(ReadRecord(old(stream.Left())), r, stream.Left())
    {
      hide Crc.Bitwise, ReadWord, ReadSum, Parse;
      var size := stream.ReadLength();
      if size.Threw? {
        return Threw;
      }
      var data := stream.ReadRaw(size.value);
      if data.Threw? {
        return Threw;
      }
      var stored := stream.ReadChecksum();
      if stored.Threw? {
        return Threw;
      }
      var computed := Crc.Crc32(data.value);
      if stored.value != computed {
        return Threw;
      }
      var dek := kms.GetDek(WAL_KEY);
      var decrypted := kms.Encrypt(data.value, dek);
      if decrypted == [] && data.value != [] {
        return Threw;
      }
      r := ParseEntry(decrypted);
    }
  }

  lemma EmptyBlob()
    ensures Size(0) == Prefixed([])
  {
    assert Size(0) + [] == Size(0);
  }

  lemma NothingLeft()
    ensures Recovered([]) == []
  {
  }

  lemma PayloadWritten(e: LogEntry, data: seq<Byte>)
    requires data == [] + [e.kind] + Int32(e.transaction) + Prefixed(e.collection) + Prefixed(e.id) + Prefixed(Blob(e))
    ensures data == Payload(e)
  {
    hide Int32, Prefixed, Blob;
    assert data == [e.kind] + (Int32(e.transaction) + (Prefixed(e.collection) + (Prefixed(e.id) + Prefixed(Blob(e)))));
  }

  /** The fields of an entry, one after the other. */
  method WritePayload(entry: LogEntry) returns (bytes: seq<Byte>)
    ensures bytes == Payload(entry)
  {
    hide Encode, Prefixed, Int32, Size;
    var buffer := new BinaryStreamBuffer();
    buffer.Write([entry.kind]);
    buffer.Write(Int32(entry.transaction));
    buffer.WriteString(entry.collection);
    buffer.WriteString(entry.id);
    if entry.kind == PUT {
      var document := Serialize(entry.doc);
      buffer.WriteString(document);
    } else {
      buffer.Write(Size(0));
      EmptyBlob();
    }
    bytes := buffer.data;
    PayloadWritten(entry, bytes);
  }

  /** The fields of one decrypted record. */
  method ParseEntry(p: seq<Byte>) returns (r: Outcome<LogEntry>)
    ensures match Parse(p)
            case None => r.Threw?
            case Some(e) => r == Returned(e)
  {
    hide Decode, ReadPrefixed;
    var stream := new BinaryStreamBuffer.Over(p);
    var kind := stream.ReadRaw(1);
    if kind.Threw? {
      return Threw;
    }
    var transaction := stream.ReadInt();
    if transaction.Threw? {
      return Threw;
    }
    var collection := stream.ReadString(MAX_STRING);
    if collection.Threw? {
      return Threw;
    }
    var id := stream.ReadString(MAX_STRING);
    if id.Threw? {
      return Threw;
    }
    var blob := stream.ReadString(MAX_BYTES);
    if blob.Threw? {
      return Threw;
    }
    if kind.value[0] == PUT {
      var doc := Deserialize(blob.value);
      if doc.Threw? {
        return Threw;
      }
      r := Returned(LogEntry(kind.value[0], transaction.value, collection.value, id.value, doc.value));
    } else {
      r := Returned(LogEntry(kind.value[0], transaction.value, collection.value, id.value, NO_DOCUMENT));
    }
  }
}
