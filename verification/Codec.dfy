/**
 Documents as bytes (tissdb/common/serialization.cpp): what is written for a document, what is read
 back from a stream, and the lemma that the two fit together. `CodecStream` holds the code that walks
 the stream; here are the functions it computes. Values are told apart here bit by bit, as they are stored;
 `Documents` has them as queries compare them, with numbers as reals.
 */
module Codec {
  import opened Bytes

  /**
   `Value` of tissdb/common/document.h. A number is the 64 bits of its double. A shared pointer to an
   array or object is either null or owns what it points to; an object's `std::map` is the list of its
   entries in ascending key order.
   */
  datatype Value =
    | Null
    | Str(text: Text)
    | Number(bits: u64)
    | Boolean(truth: bool)
    | Date(year: nat, month: nat, day: nat)
    | Time(hour: nat, minute: nat, second: nat)
    | DateTime(nanoseconds: i64)
    | Timestamp(microseconds: i64)
    | Binary(data: Text)
    | List(elements: seq<Element>)
    | NullArray
    | Array(values: seq<Value>)
    | NullObject
    | Object(fields: seq<Element>)

  datatype Element = Element(key: Text, value: Value)

  datatype Document = Document(id: Text, elements: seq<Element>)

  // ---------- tags ----------

  const STRING: Byte := 0
  const NUMBER: Byte := 1
  const BOOLEAN: Byte := 2
  const DATETIME: Byte := 3
  const TIMESTAMP: Byte := 4
  const BINARY: Byte := 5
  const LIST: Byte := 6
  const ARRAY: Byte := 7
  const OBJECT: Byte := 8

  // ---------- writing ----------

  /** `serialize_value`; nothing at all is written for a null, a date or a time. */
  function EncodeValue(v: Value): seq<Byte>
    decreases v
  {
    match v
    case Null => []
    case Date(_, _, _) => []
    case Time(_, _, _) => []
    case Str(t) => [STRING] + Prefixed(t)
    case Number(bits) => [NUMBER] + Size(bits as int)
    case Boolean(b) => [BOOLEAN] + [if b then 1 else 0]
    case DateTime(n) => [DATETIME] + Size(Unsigned64(n))
    case Timestamp(n) => [TIMESTAMP] + Size(Unsigned64(n))
    case Binary(d) => [BINARY] + Prefixed(d)
    case List(es) => [LIST] + (Size(|es|) + EncodeElements(es))
    case NullArray => [ARRAY] + [0]
    case Array(vs) => [ARRAY] + ([1] + (Size(|vs|) + EncodeValues(vs)))
    case NullObject => [OBJECT] + [0]
    case Object(fs) => [OBJECT] + ([1] + (Size(|fs|) + EncodeElements(fs)))
  }

  function EncodeValues(vs: seq<Value>): seq<Byte>
    decreases vs
  {
    if vs == [] then [] else EncodeValue(vs[0]) + EncodeValues(vs[1..])
  }

  function EncodeElements(es: seq<Element>): seq<Byte>
    decreases es
  {
    if es == [] then [] else Prefixed(es[0].key) + (EncodeValue(es[0].value) + EncodeElements(es[1..]))
  }

  /** `serialize` */
  function Encode(d: Document): seq<Byte> {
    Prefixed(d.id) + (Size(|d.elements|) + EncodeElements(d.elements))
  }

  // ---------- reading ----------

  /** `map[key] = value`, on keys of bytes; `Json.Assign` does it for a JSON object. */
  function Assign(fields: seq<Element>, key: Text, value: Value): seq<Element> {
    if fields == [] then [Element(key, value)]
    else if fields[0].key == key then [Element(key, value)] + fields[1..]
    else if Less(key, fields[0].key) then [Element(key, value)] + fields
    else [fields[0]] + Assign(fields[1..], key, value)
  }

  /** `deserialize_value` */
  function DecodeValue(s: seq<Byte>): (r: Read<Value>)
    ensures r.Got? ==> |r.rest| < |s|
    decreases |s|, 0
  {
    if s == [] then Failed else DecodeTagged(s[0], s[1..])
  }

  function DecodeTagged(tag: Byte, s: seq<Byte>): (r: Read<Value>)
    ensures r.Got? ==> |r.rest| <= |s|
    decreases |s|, 2
  {
    if tag == STRING then
      match ReadPrefixed(MAX_STRING, s) { case Failed => Failed case Got(t, rest) => Got(Str(t), rest) }
    else if tag == NUMBER then
      match ReadSize(s) { case Failed => Failed case Got(n, rest) => Got(Number(n as u64), rest) }
    else if tag == BOOLEAN then
      if s == [] then Failed else Got(Boolean(s[0] != 0), s[1..])
    else if tag == DATETIME then
      match ReadSize(s) { case Failed => Failed case Got(n, rest) => Got(DateTime(Signed64(n)), rest) }
    else if tag == TIMESTAMP then
      match ReadSize(s) { case Failed => Failed case Got(n, rest) => Got(Timestamp(Signed64(n)), rest) }
    else if tag == BINARY then
      match ReadPrefixed(MAX_BYTES, s) { case Failed => Failed case Got(d, rest) => Got(Binary(d), rest) }
    else if tag == LIST then
      match ReadSize(s) {
        case Failed => Failed
        case Got(n, rest) =>
          match DecodeElements(n, rest, []) { case Failed => Failed case Got(es, rest') => Got(List(es), rest') }
      }
    else if tag == ARRAY then
      if s == [] then Failed
      else if s[0] == 0 then Got(NullArray, s[1..])
      else match ReadSize(s[1..]) {
        case Failed => Failed
        case Got(n, rest) =>
          match DecodeValues(n, rest, []) { case Failed => Failed case Got(vs, rest') => Got(Array(vs), rest') }
      }
    else if tag == OBJECT then
      if s == [] then Failed
      else if s[0] == 0 then Got(NullObject, s[1..])
      else match ReadSize(s[1..]) {
        case Failed => Failed
        case Got(n, rest) =>
          match DecodeFields(n, rest, []) { case Failed => Failed case Got(fs, rest') => Got(Object(fs), rest') }
      }
    else Failed
  }

  /** The loop that pushes `n` values onto `done`. */
  function DecodeValues(n: nat, s: seq<Byte>, done: seq<Value>): (r: Read<seq<Value>>)
    ensures r.Got? ==> |r.rest| <= |s| && |r.value| == |done| + n
    decreases |s|, 1
  {
    if n == 0 then Got(done, s)
    else match DecodeValue(s)
      case Failed => Failed
      case Got(v, rest) => DecodeValues(n - 1, rest, done + [v])
  }

  /** `deserialize_element` */
  function DecodeElement(s: seq<Byte>): (r: Read<Element>)
    ensures r.Got? ==> |r.rest| < |s|
    decreases |s|, 1
  {
    match ReadPrefixed(MAX_STRING, s)
    case Failed => Failed
    case Got(key, rest) =>
      match DecodeValue(rest)
      case Failed => Failed
      case Got(v, rest') => Got(Element(key, v), rest')
  }

  /** The loop that pushes `n` elements onto `done`. */
  function DecodeElements(n: nat, s: seq<Byte>, done: seq<Element>): (r: Read<seq<Element>>)
    ensures r.Got? ==> |r.rest| <= |s| && |r.value| == |done| + n
    decreases |s|, 2
  {
    if n == 0 then Got(done, s)
    else match DecodeElement(s)
      case Failed => Failed
      case Got(e, rest) => DecodeElements(n - 1, rest, done + [e])
  }

  /** The loop that assigns `n` entries to the map `done`. */
  function DecodeFields(n: nat, s: seq<Byte>, done: seq<Element>): (r: Read<seq<Element>>)
    ensures r.Got? ==> |r.rest| <= |s|
    decreases |s|, 2
  {
    if n == 0 then Got(done, s)
    else match DecodeElement(s)
      case Failed => Failed
      case Got(e, rest) => DecodeFields(n - 1, rest, Assign(done, e.key, e.value))
  }

  /** `deserialize`, with the bytes it leaves unread; no bytes at all are an empty document. */
  function Decode(s: seq<Byte>): Read<Document> {
    if s == [] then Got(Document([], []), [])
    else match ReadPrefixed(MAX_STRING, s)
      case Failed => Failed
      case Got(id, rest) =>
        match ReadSize(rest)
        case Failed => Failed
        case Got(n, rest') =>
          match DecodeElements(n, rest', [])
          case Failed => Failed
          case Got(es, rest'') => Got(Document(id, es), rest'')
  }

  // ---------- which values come back ----------

  /**
   What the types of document.h rule out: a vector longer than a `size_t` can say, and a map that is
   not in ascending order of its keys.
   */
  predicate WellTyped(v: Value)
    decreases v
  {
    match v
    case List(es) => WellTypedElements(es)
    case Array(vs) => WellTypedValues(vs)
    case Object(fs) => WellTypedElements(fs) && Ascending(fs)
    case _ => true
  }

  predicate WellTypedValues(vs: seq<Value>)
    decreases vs
  {
    |vs| < SIZE_LIMIT && forall i | 0 <= i < |vs| :: WellTyped(vs[i])
  }

  predicate WellTypedElements(es: seq<Element>)
    decreases es
  {
    |es| < SIZE_LIMIT && forall i | 0 <= i < |es| :: WellTyped(es[i].value)
  }

  predicate Ascending(fs: seq<Element>) {
    forall i, j :: 0 <= i < j < |fs| ==> Less(fs[i].key, fs[j].key)
  }

  /** No null, date or time anywhere, and no string or byte vector that a reader would refuse. */
  predicate Encodable(v: Value)
    decreases v
  {
    match v
    case Null => false
    case Date(_, _, _) => false
    case Time(_, _, _) => false
    case Str(t) => |t| <= MAX_STRING
    case Binary(d) => |d| <= MAX_BYTES
    case List(es) => EncodableElements(es)
    case Array(vs) => EncodableValues(vs)
    case Object(fs) => EncodableElements(fs)
    case _ => true
  }

  predicate EncodableValues(vs: seq<Value>)
    decreases vs
  {
    forall i | 0 <= i < |vs| :: Encodable(vs[i])
  }

  predicate EncodableElements(es: seq<Element>)
    decreases es
  {
    forall i | 0 <= i < |es| :: |es[i].key| <= MAX_STRING && Encodable(es[i].value)
  }

  predicate WellTypedDocument(d: Document) { WellTypedElements(d.elements) }

  predicate EncodableDocument(d: Document) { |d.id| <= MAX_STRING && EncodableElements(d.elements) }
}
