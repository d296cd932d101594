/**
 The log of tissdb/storage/wal.cpp as bytes: the record of an entry, and what recovery makes of any
 bytes at all. `WriteAheadLog` holds the code that appends and recovers.
 */
module Wal {
  import opened Options
  import opened Bytes
  import opened Codec
  import Crc
  import Kms

  /** An entry type is whatever byte stands in the log; these have names. */
  const PUT: Byte := 0
  const DELETE: Byte := 1
  const CREATE_COLLECTION: Byte := 2
  const DELETE_COLLECTION: Byte := 3
  const TXN_COMMIT: Byte := 4
  const TXN_ABORT: Byte := 5

  /** `LogEntry`, without the two fields that are never written. */
  datatype LogEntry = LogEntry(kind: Byte, transaction: i32, collection: Text, id: Text, doc: Document)

  const NO_DOCUMENT: Document := Document([], [])

  // ---------- one entry ----------

  function Blob(e: LogEntry): seq<Byte> { if e.kind == PUT then Encode(e.doc) else [] }

  /** The bytes of an entry before encryption. */
  function Payload(e: LogEntry): seq<Byte> {
    [e.kind] + (Int32(e.transaction) + (Prefixed(e.collection) + (Prefixed(e.id) + Prefixed(Blob(e)))))
  }

  /** The entry in a decrypted record; what follows its last field is not looked at. */
  function Parse(p: seq<Byte>): Option<LogEntry> {
    if p == [] then None
    else match ReadInt32(p[1..])
      case Failed => None
      case Got(transaction, p1) =>
        match ReadPrefixed(MAX_STRING, p1)
        case Failed => None
        case Got(collection, p2) =>
          match ReadPrefixed(MAX_STRING, p2)
          case Failed => None
          case Got(id, p3) => ParseBody(p[0], transaction, collection, id, p3)
  }

  function ParseBody(kind: Byte, transaction: i32, collection: Text, id: Text, p: seq<Byte>): Option<LogEntry> {
    match ReadPrefixed(MAX_BYTES, p)
    case Failed => None
    case Got(blob, _) =>
      if kind != PUT then Some(LogEntry(kind, transaction, collection, id, NO_DOCUMENT))
      else match Decode(blob)
        case Failed => None
        case Got(doc, _) => Some(LogEntry(kind, transaction, collection, id, doc))
  }

  /** What an entry can come back as: only a put has a document. */
  function Stored(e: LogEntry): LogEntry { if e.kind == PUT then e else e.(doc := NO_DOCUMENT) }

  // ---------- one record ----------

  const WORD_LIMIT: nat := 0x1_0000_0000

  /** Length, ciphertext, checksum; a length of 4 GiB or more is cut to its low 32 bits, and the ciphertext with it. */
  ghost function Frame(c: seq<Byte>): seq<Byte> {
    Word(|c|) + (c[..|c| % WORD_LIMIT] + Sum(Crc.Bitwise(c)))
  }

  ghost function Cipher(e: LogEntry): seq<Byte> { Kms.Xored(Payload(e), Kms.Dek()) }

  ghost function Record(e: LogEntry): (r: seq<Byte>)
    ensures 8 <= |r|
  {
    Frame(Cipher(e))
  }

  ghost function ReadFrame(s: seq<Byte>): (r: Read<seq<Byte>>)
    ensures r.Got? ==> |r.rest| < |s|
  {
    match ReadWord(s)
    case Failed => Failed
    case Got(size, s1) =>
      match Take(size, s1)
      case Failed => Failed
      case Got(c, s2) =>
        match ReadSum(s2)
        case Failed => Failed
        case Got(sum, s3) => if sum != Crc.Bitwise(c) then Failed else Got(c, s3)
  }

  ghost function ReadRecord(s: seq<Byte>): (r: Read<LogEntry>)
    ensures r.Got? ==> |r.rest| < |s|
  {
    match ReadFrame(s)
    case Failed => Failed
    case Got(c, rest) =>
      match Parse(Kms.Xored(c, Kms.Dek()))
      case None => Failed
      case Some(e) => Got(e, rest)
  }

  // ---------- the log ----------

  ghost function Log(es: seq<LogEntry>): seq<Byte> {
    if es == [] then [] else Record(es[0]) + Log(es[1..])
  }

  /** What `recover` returns for a log file of these bytes. */
  ghost function Recovered(s: seq<Byte>): seq<LogEntry>
    decreases |s|
  {
    match ReadRecord(s)
    case Failed => []
    case Got(e, rest) => [e] + Recovered(rest)
  }

  function StoredAll(es: seq<LogEntry>): (r: seq<LogEntry>)
    ensures |r| == |es|
  {
    if es == [] then [] else [Stored(es[0])] + StoredAll(es[1..])
  }

  // ---------- which entries survive ----------

  /** Lengths that a `size_t` can say. */
  ghost predicate WellTypedEntry(e: LogEntry) {
    && (e.kind == PUT ==> WellTypedDocument(e.doc))
    && |Payload(e)| < SIZE_LIMIT
  }

  predicate Loggable(e: LogEntry) {
    && |e.collection| <= MAX_STRING && |e.id| <= MAX_STRING
    && (e.kind == PUT ==> EncodableDocument(e.doc) && |Encode(e.doc)| <= MAX_BYTES)
  }

  /** How many records lie wholly within the first `n` bytes of the log. */
  ghost function Whole(es: seq<LogEntry>, n: nat): (k: nat)
    ensures k <= |es|
  {
    if es == [] || n < |Record(es[0])| then 0 else 1 + Whole(es[1..], n - |Record(es[0])|)
  }
}
