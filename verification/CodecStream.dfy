/**
 The code that walks the stream: `BinaryStreamBuffer` (tissdb/common/binary_stream_buffer.cpp) over a
 byte string, and the recursive writer and reader of tissdb/common/serialization.cpp. Every method is
 tied to the function of `Codec` that says what it writes or reads.
 */
module CodecStream {
  import opened Bytes
  import opened Codec

  /** A C++ call that may throw. */
  datatype Outcome<+T> = Threw | Returned(value: T)

  /** A call does to the stream and gives to its caller what `want` says. */
  predicate Matches<T(==)>(want: Read<T>, got: Outcome<T>, left: seq<Byte>) {
    match want
    case Failed => got.Threw?
    case Got(v, rest) => got == Returned(v) && left == rest
  }

  lemma Joined(a: seq<Byte>, b: seq<Byte>, c: seq<Byte>)
    ensures a + b + c == a + (b + c)
  {
  }

  class BinaryStreamBuffer {
    var data: seq<Byte>
    var pos: nat

    ghost predicate Valid()
      reads this
    {
      pos <= |data|
    }

    /** The bytes not read yet. */
    ghost function Left(): seq<Byte>
      requires Valid()
      reads this
    {
      data[pos..]
    }

    /** A stream to write to. */
    constructor ()
      ensures Valid() && data == []
    {
      data, pos := [], 0;
    }

    /** A stream to read from. */
    constructor Over(bytes: seq<Byte>)
      ensures Valid() && Left() == bytes && data == bytes && pos == 0
    {
      data, pos := bytes, 0;
    }

    // ---------- raw bytes ----------

    method Write(bytes: seq<Byte>)
      requires Valid()
      modifies this
      ensures Valid() && data == old(data) + bytes
    {
      data := data + bytes;
    }

    method ReadRaw(n: nat) returns (r: Outcome<seq<Byte>>)
      requires Valid()
      modifies this
      ensures Valid() && data == old(data) && pos >= old(pos)
      ensures Matches(Take(n, old(Left())), r, Left())
    {
      if n > |data| - pos {
        return Threw;
      }
      r := Returned(data[pos..pos + n]);
      assert Left()[..n] == r.value && Left()[n..] == data[pos + n..];
      pos := pos + n;
    }

    /** `seekg` to a position, or to the end if it lies beyond. */
    method Seek(position: nat)
      requires Valid()
      modifies this
      ensures Valid() && data == old(data)
      ensures pos == if position <= |data| then position else |data|
    {
      pos := if position <= |data| then position else |data|;
    }

    // ---------- strings and byte vectors ----------

    method ReadCount() returns (r: Outcome<nat>)
      requires Valid()
      modifies this
      ensures Valid() && data == old(data) && pos >= old(pos)
      ensures Matches(ReadSize(old(Left())), r, Left())
    {
      var b := ReadRaw(8);
      if b.Threw? {
        return Threw;
      }
      UnLeBound(b.value);
      r := Returned(UnLe(b.value));
    }

    /** A four-byte signed number. */
    method ReadInt() returns (r: Outcome<i32>)
      requires Valid()
      modifies this
      ensures Valid() && data == old(data) && pos >= old(pos)
      ensures Matches(ReadInt32(old(Left())), r, Left())
    {
      var b := ReadRaw(4);
      if b.Threw? {
        return Threw;
      }
      UnLeBound(b.value);
      Pow256Eight();
      var n: int := UnLe(b.value);
      r := Returned(if n < 0x8000_0000 then n as i32 else (n - 0x1_0000_0000) as i32);
    }

    /** A four-byte length. */
    method ReadLength() returns (r: Outcome<nat>)
      requires Valid()
      modifies this
      ensures Valid() && data == old(data) && pos >= old(pos)
      ensures Matches(ReadWord(old(Left())), r, Left())
    {
      var b := ReadRaw(4);
      if b.Threw? {
        return Threw;
      }
      r := Returned(UnLe(b.value));
    }

    method ReadChecksum() returns (r: Outcome<bv32>)
      requires Valid()
      modifies this
      ensures Valid() && data == old(data) && pos >= old(pos)
      ensures Matches(ReadSum(old(Left())), r, Left())
    {
      hide UnSum;
      var b := ReadRaw(4);
      if b.Threw? {
        return Threw;
      }
      assert old(Left())[..4] == b.value;
      r := Returned(UnSum(b.value[0], b.value[1], b.value[2], b.value[3]));
    }

    method WriteString(t: Text)
      requires Valid()
      modifies this
      ensures Valid() && data == old(data) + Prefixed(t)
    {
      Write(Size(|t|));
      Write(t);
      assert data == old(data) + (Size(|t|) + t);
    }

    /** `read_string` and `read_bytes` */
    method ReadString(limit: nat) returns (r: Outcome<Text>)
      requires Valid()
      modifies this
      ensures Valid() && data == old(data) && pos >= old(pos)
      ensures Matches(ReadPrefixed(limit, old(Left())), r, Left())
    {
      var n := ReadCount();
      if n.Threw? {
        return Threw;
      }
      if n.value == 0 {
        return Returned([]);
      }
      if n.value > limit {
        return Threw;
      }
      r := ReadRaw(n.value);
    }

    // ---------- writing documents ----------

    /** `serialize_value` */
    method SerializeValue(v: Value)
      requires Valid()
      modifies this
      ensures Valid() && data == old(data) + EncodeValue(v)
      decreases v, 1
    {
      hide Prefixed, Size, EncodeElements, EncodeValues;
      ghost var start := data;
      match v {
        case Str(t) =>
          Write([STRING]);
          WriteString(t);
          Joined(start, [STRING], Prefixed(t));
        case Number(bits) =>
          Write([NUMBER]);
          Write(Size(bits as int));
          Joined(start, [NUMBER], Size(bits as int));
        case Boolean(b) =>
          Write([BOOLEAN]);
          Write([if b then 1 else 0]);
          Joined(start, [BOOLEAN], [if b then 1 else 0]);
        case DateTime(n) =>
          Write([DATETIME]);
          Write(Size(Unsigned64(n)));
          Joined(start, [DATETIME], Size(Unsigned64(n)));
        case Timestamp(n) =>
          Write([TIMESTAMP]);
          Write(Size(Unsigned64(n)));
          Joined(start, [TIMESTAMP], Size(Unsigned64(n)));
        case Binary(d) =>
          Write([BINARY]);
          WriteString(d);
          Joined(start, [BINARY], Prefixed(d));
        case List(es) =>
          Write([LIST]);
          SerializeElements(es);
          Joined(start, [LIST], Size(|es|) + EncodeElements(es));
        case NullArray =>
          Write([ARRAY]);
          Write([0]);
          Joined(start, [ARRAY], [0]);
        case Array(vs) =>
          Write([ARRAY]);
          Write([1]);
          SerializeValues(vs);
          Joined(start + [ARRAY], [1], Size(|vs|) + EncodeValues(vs));
          Joined(start, [ARRAY], [1] + (Size(|vs|) + EncodeValues(vs)));
        case NullObject =>
          Write([OBJECT]);
          Write([0]);
          Joined(start, [OBJECT], [0]);
        case Object(fs) =>
          Write([OBJECT]);
          Write([1]);
          SerializeElements(fs);
          Joined(start + [OBJECT], [1], Size(|fs|) + EncodeElements(fs));
          Joined(start, [OBJECT], [1] + (Size(|fs|) + EncodeElements(fs)));
        case Null =>
        case Date(_, _, _) =>
        case Time(_, _, _) =>
      }
      assert start + [] == start;
    }

    /** The count and the loop over the values of an array. */
    method SerializeValues(vs: seq<Value>)
      requires Valid()
      modifies this
      ensures Valid() && data == old(data) + (Size(|vs|) + EncodeValues(vs))
      decreases vs, 0
    {
      hide EncodeValue;
      Write(Size(|vs|));
      for i := 0 to |vs|
        invariant Valid()
        invariant data + EncodeValues(vs[i..]) == old(data) + (Size(|vs|) + EncodeValues(vs))
      {
        SerializeValue(vs[i]);
        assert vs[i..][0] == vs[i] && vs[i..][1..] == vs[i + 1..];
      }
      assert vs[|vs|..] == [] && data + [] == data;
    }

    /** The count and the loop over the elements of a list or the entries of an object. */
    method SerializeElements(es: seq<Element>)
      requires Valid()
      modifies this
      ensures Valid() && data == old(data) + (Size(|es|) + EncodeElements(es))
      decreases es, 0
    {
      hide EncodeValue, Prefixed;
      Write(Size(|es|));
      for i := 0 to |es|
        invariant Valid()
        invariant data + EncodeElements(es[i..]) == old(data) + (Size(|es|) + EncodeElements(es))
      {
        ghost var before := data;
        WriteString(es[i].key);
        SerializeValue(es[i].value);
        assert es[i..][0] == es[i] && es[i..][1..] == es[i + 1..];
        assert data == before + (Prefixed(es[i].key) + EncodeValue(es[i].value));
      }
      assert es[|es|..] == [] && data + [] == data;
    }

    // ---------- reading documents ----------

    /** `deserialize_value` */
    method DeserializeValue() returns (r: Outcome<Value>)
      requires Valid()
      modifies this
      ensures Valid() && data == old(data) && pos >= old(pos)
      ensures Matches(DecodeValue(old(Left())), r, Left())
      decreases |data| - pos, 0
    {
      hide DecodeElements, DecodeValues, DecodeFields, ReadSize, ReadPrefixed;
      var t := ReadRaw(1);
      if t.Threw? {
        return Threw;
      }
      var tag := t.value[0];
      if tag == STRING {
        var s := ReadString(MAX_STRING);
        r := if s.Threw? then Threw else Returned(Str(s.value));
      } else if tag == NUMBER {
        var n := ReadCount();
        r := if n.Threw? then Threw else Returned(Number(n.value as u64));
      } else if tag == BOOLEAN {
        var b := ReadRaw(1);
        r := if b.Threw? then Threw else Returned(Boolean(b.value[0] != 0));
      } else if tag == DATETIME {
        var n := ReadCount();
        r := if n.Threw? then Threw else Returned(DateTime(Signed64(n.value)));
      } else if tag == TIMESTAMP {
        var n := ReadCount();
        r := if n.Threw? then Threw else Returned(Timestamp(Signed64(n.value)));
      } else if tag == BINARY {
        var d := ReadString(MAX_BYTES);
        r := if d.Threw? then Threw else Returned(Binary(d.value));
      } else if tag == LIST {
        var n := ReadCount();
        if n.Threw? {
          return Threw;
        }
        var es := DeserializeElements(n.value);
        r := if es.Threw? then Threw else Returned(List(es.value));
      } else if tag == ARRAY {
        var present := ReadRaw(1);
        if present.Threw? {
          return Threw;
        }
        if present.value[0] == 0 {
          return Returned(NullArray);
        }
        var n := ReadCount();
        if n.Threw? {
          return Threw;
        }
        var vs := DeserializeValues(n.value);
        r := if vs.Threw? then Threw else Returned(Array(vs.value));
      } else if tag == OBJECT {
        var present := ReadRaw(1);
        if present.Threw? {
          return Threw;
        }
        if present.value[0] == 0 {
          return Returned(NullObject);
        }
        var n := ReadCount();
        if n.Threw? {
          return Threw;
        }
        var fs := DeserializeFields(n.value);
        r := if fs.Threw? then Threw else Returned(Object(fs.value));
      } else {
        r := Threw;
      }
    }

    method DeserializeElement() returns (r: Outcome<Element>)
      requires Valid()
      modifies this
      ensures Valid() && data == old(data) && pos >= old(pos)
      ensures Matches(DecodeElement(old(Left())), r, Left())
      decreases |data| - pos, 1
    {
      hide DecodeValue, ReadPrefixed;
      var key := ReadString(MAX_STRING);
      if key.Threw? {
        return Threw;
      }
      var v := DeserializeValue();
      r := if v.Threw? then Threw else Returned(Element(key.value, v.value));
    }

    /** The loop over the values of an array. */
    method DeserializeValues(count: nat) returns (r: Outcome<seq<Value>>)
      requires Valid()
      modifies this
      ensures Valid() && data == old(data) && pos >= old(pos)
      ensures Matches(DecodeValues(count, old(Left()), []), r, Left())
      decreases |data| - pos, 1
    {
      hide DecodeValue;
      var values := [];
      for i := 0 to count
        invariant Valid() && data == old(data) && pos >= old(pos)
        invariant DecodeValues(count - i, Left(), values) == DecodeValues(count, old(Left()), [])
      {
        var v := DeserializeValue();
        if v.Threw? {
          return Threw;
        }
        values := values + [v.value];
      }
      r := Returned(values);
    }

    /** The loop over the elements of a list or a document. */
    method DeserializeElements(count: nat) returns (r: Outcome<seq<Element>>)
      requires Valid()
      modifies this
      ensures Valid() && data == old(data) && pos >= old(pos)
      ensures Matches(DecodeElements(count, old(Left()), []), r, Left())
      decreases |data| - pos, 2
    {
      hide DecodeElement;
      var elements := [];
      for i := 0 to count
        invariant Valid() && data == old(data) && pos >= old(pos)
        invariant DecodeElements(count - i, Left(), elements) == DecodeElements(count, old(Left()), [])
      {
        var e := DeserializeElement();
        if e.Threw? {
          return Threw;
        }
        elements := elements + [e.value];
      }
      r := Returned(elements);
    }

    /** The loop over the entries of an object. */
    method DeserializeFields(count: nat) returns (r: Outcome<seq<Element>>)
      requires Valid()
      modifies this
      ensures Valid() && data == old(data) && pos >= old(pos)
      ensures Matches(DecodeFields(count, old(Left()), []), r, Left())
      decreases |data| - pos, 2
    {
      hide DecodeElement;
      var fields := [];
      for i := 0 to count
        invariant Valid() && data == old(data) && pos >= old(pos)
        invariant DecodeFields(count - i, Left(), fields) == DecodeFields(count, old(Left()), [])
      {
        var e := DeserializeElement();
        if e.Threw? {
          return Threw;
        }
        fields := Assign(fields, e.value.key, e.value.value);
      }
      r := Returned(fields);
    }
  }

  /** `serialize` */
  method Serialize(doc: Document) returns (bytes: seq<Byte>)
    ensures bytes == Encode(doc)
  {
    var stream := new BinaryStreamBuffer();
    stream.WriteString(doc.id);
    stream.SerializeElements(doc.elements);
    bytes := stream.data;
  }

  /** `deserialize`, which looks at no bytes after the document. */
  method Deserialize(bytes: seq<Byte>) returns (doc: Outcome<Document>)
    ensures match Decode(bytes)
            case Failed => doc.Threw?
            case Got(d, _) => doc == Returned(d)
  {
    hide DecodeElements, ReadSize, ReadPrefixed;
    if bytes == [] {
      return Returned(Document([], []));
    }
    var stream := new BinaryStreamBuffer.Over(bytes);
    var id := stream.ReadString(MAX_STRING);
    if id.Threw? {
      return Threw;
    }
    var n := stream.ReadCount();
    if n.Threw? {
      return Threw;
    }
    var es := stream.DeserializeElements(n.value);
    doc := if es.Threw? then Threw else Returned(Document(id.value, es.value));
  }
}
