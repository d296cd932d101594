/** Reading a written document back: it works, with any bytes after it, exactly for encodable documents. */
module CodecLaws {
  import opened Bytes
  import opened Codec

  // ---------- maps ----------

  /** A key above all the others goes to the end. */
  lemma {:induction false} AssignLast(fs: seq<Element>, key: Text, v: Value)
    requires forall i | 0 <= i < |fs| :: Less(fs[i].key, key)
    ensures Assign(fs, key, v) == fs + [Element(key, v)]
  {
    if fs != [] {
      LessIrreflexive(key);
      LessAsymmetric(fs[0].key, key);
      AssignLast(fs[1..], key, v);
    }
  }

  /** Assigning an entry sets its value, whether or not the key was there, and changes no other; keys stay in order. */
  lemma {:induction false} AssignSets(fields: seq<Element>, key: Text, v: Value)
    requires Ascending(fields)
    ensures Ascending(Assign(fields, key, v)) && Element(key, v) in Assign(fields, key, v)
    ensures forall f <- Assign(fields, key, v) :: f == Element(key, v) || (f in fields && f.key != key)
    ensures forall f <- fields :: f.key != key ==> f in Assign(fields, key, v)
  {
    hide Less;
    if fields != [] {
      var first, rest := fields[0], fields[1..];
      assert fields == [first] + rest;
      RestAbove(fields);
      if first.key == key {
      } else if Less(key, first.key) {
        forall f | f in rest ensures f.key != key {
          LessTrans(key, first.key, f.key);
          LessIrreflexive(key);
        }
        PutFirst(fields, Element(key, v));
      } else {
        LessTotal(first.key, key);
        AssignSets(rest, key, v);
        KeepFirst(first, rest, Assign(rest, key, v), Element(key, v));
      }
    }
  }

  lemma RestAbove(fields: seq<Element>)
    requires fields != [] && Ascending(fields)
    ensures Ascending(fields[1..]) && forall f <- fields[1..] :: Less(fields[0].key, f.key) && f.key != fields[0].key
  {
    hide Less;
    var rest := fields[1..];
    assert forall i | 0 <= i < |rest| :: rest[i] == fields[i + 1];
    LessIrreflexive(fields[0].key);
  }

  lemma PutFirst(fields: seq<Element>, f: Element)
    requires fields != [] && Ascending(fields) && Less(f.key, fields[0].key)
    ensures Ascending([f] + fields)
  {
    hide Less;
    forall j | 0 < j < |fields| ensures Less(f.key, fields[j].key) {
      LessTrans(f.key, fields[0].key, fields[j].key);
    }
  }

  lemma KeepFirst(first: Element, rest: seq<Element>, more: seq<Element>, f: Element)
    requires Ascending(more) && Less(first.key, f.key) && (forall g <- rest :: Less(first.key, g.key))
    requires forall g <- more :: g == f || g in rest
    ensures Ascending([first] + more) && first.key != f.key
  {
    hide Less;
    LessIrreflexive(f.key);
    forall j | 0 <= j < |more| ensures Less(first.key, more[j].key) {
      assert more[j] in more;
    }
  }

  // ---------- what was written is read ----------

  /** A tag and a body; the reader looks at the tag. */
  lemma Tagged(tag: Byte, body: seq<Byte>, rest: seq<Byte>)
    ensures DecodeValue([tag] + body + rest) == DecodeTagged(tag, body + rest)
  {
    hide DecodeTagged;
    var s := [tag] + body + rest;
    assert s[0] == tag && s[1..] == body + rest;
  }

  lemma NumbersBack(v: Value, rest: seq<Byte>)
    requires v.Number? || v.Boolean? || v.DateTime? || v.Timestamp? || v.NullArray? || v.NullObject?
    ensures DecodeValue(EncodeValue(v) + rest) == Got(v, rest)
  {
    hide DecodeValue;
    var s := EncodeValue(v);
    Tagged(s[0], s[1..], rest);
    assert s == [s[0]] + s[1..];
    match v {
      case Number(bits) => SizeBack(bits as int, rest);
      case DateTime(n) => SizeBack(Unsigned64(n), rest);
      case Timestamp(n) => SizeBack(Unsigned64(n), rest);
      case Boolean(b) => assert (s[1..] + rest)[1..] == rest;
      case NullArray => assert (s[1..] + rest)[1..] == rest;
      case NullObject => assert (s[1..] + rest)[1..] == rest;
    }
  }

  lemma StringsBack(v: Value, rest: seq<Byte>)
    requires (v.Str? || v.Binary?) && Encodable(v)
    ensures DecodeValue(EncodeValue(v) + rest) == Got(v, rest)
  {
    hide DecodeValue, ReadPrefixed, Prefixed;
    var s := EncodeValue(v);
    Tagged(s[0], s[1..], rest);
    assert s == [s[0]] + s[1..];
    if v.Str? {
      PrefixedBack(MAX_STRING, v.text, rest);
    } else {
      PrefixedBack(MAX_BYTES, v.data, rest);
    }
  }

  lemma {:induction false} ValueBack(v: Value, rest: seq<Byte>)
    requires WellTyped(v) && Encodable(v)
    ensures DecodeValue(EncodeValue(v) + rest) == Got(v, rest)
    decreases v
  {
    if v.List? {
      ElementsBack(v.elements, rest, []);
      assert [] + v.elements == v.elements;
      ListBack(v.elements, rest);
    } else if v.Array? {
      ValuesBack(v.values, rest, []);
      assert [] + v.values == v.values;
      ArrayBack(v.values, rest);
    } else if v.Object? {
      assert [] + v.fields == v.fields;
      FieldsBack(v.fields, rest, []);
      ObjectBack(v.fields, rest);
    } else if v.Str? || v.Binary? {
      StringsBack(v, rest);
    } else {
      NumbersBack(v, rest);
    }
  }

  lemma ListBack(es: seq<Element>, rest: seq<Byte>)
    requires |es| < SIZE_LIMIT
    requires DecodeElements(|es|, EncodeElements(es) + rest, []) == Got(es, rest)
    ensures DecodeValue(EncodeValue(List(es)) + rest) == Got(List(es), rest)
  {
    hide DecodeValue, DecodeElements, EncodeElements, Size, ReadSize;
    var body := Size(|es|) + EncodeElements(es);
    Tagged(LIST, body, rest);
    SizeBack(|es|, EncodeElements(es) + rest);
    assert body + rest == Size(|es|) + (EncodeElements(es) + rest);
  }

  lemma ArrayBack(vs: seq<Value>, rest: seq<Byte>)
    requires |vs| < SIZE_LIMIT
    requires DecodeValues(|vs|, EncodeValues(vs) + rest, []) == Got(vs, rest)
    ensures DecodeValue(EncodeValue(Array(vs)) + rest) == Got(Array(vs), rest)
  {
    hide *;
    var body := [1] + (Size(|vs|) + EncodeValues(vs));
    ArrayBytes(vs);
    Tagged(ARRAY, body, rest);
    SizeBack(|vs|, EncodeValues(vs) + rest);
    assert (body + rest)[1..] == Size(|vs|) + (EncodeValues(vs) + rest);
    ArrayRead(|vs|, body + rest, EncodeValues(vs) + rest);
  }

  lemma ArrayBytes(vs: seq<Value>)
    ensures EncodeValue(Array(vs)) == [ARRAY] + ([1] + (Size(|vs|) + EncodeValues(vs)))
  {
    hide EncodeValues, Size;
  }

  /** What follows the tag of an array that is not null. */
  lemma ArrayRead(n: nat, s: seq<Byte>, counted: seq<Byte>)
    requires s != [] && s[0] == 1 && ReadSize(s[1..]) == Got(n, counted) && DecodeValues(n, counted, []).Got?
    ensures var r := DecodeValues(n, counted, []); DecodeTagged(ARRAY, s) == Got(Array(r.value), r.rest)
  {
    hide DecodeValues, ReadSize;
  }

  lemma ObjectBack(fs: seq<Element>, rest: seq<Byte>)
    requires |fs| < SIZE_LIMIT
    requires DecodeFields(|fs|, EncodeElements(fs) + rest, []) == Got(fs, rest)
    ensures DecodeValue(EncodeValue(Object(fs)) + rest) == Got(Object(fs), rest)
  {
    hide DecodeValue, DecodeFields, EncodeElements, Size, ReadSize;
    var body := [1] + (Size(|fs|) + EncodeElements(fs));
    Tagged(OBJECT, body, rest);
    SizeBack(|fs|, EncodeElements(fs) + rest);
    assert (body + rest)[1..] == Size(|fs|) + (EncodeElements(fs) + rest);
  }

  lemma {:induction false} ValuesBack(vs: seq<Value>, rest: seq<Byte>, done: seq<Value>)
    requires WellTypedValues(vs) && EncodableValues(vs)
    ensures DecodeValues(|vs|, EncodeValues(vs) + rest, done) == Got(done + vs, rest)
    decreases vs
  {
    hide DecodeValue, EncodeValue, WellTyped, Encodable;
    if vs == [] {
      assert EncodeValues(vs) + rest == rest && done + vs == done;
    } else {
      var tail := EncodeValues(vs[1..]) + rest;
      ValueBack(vs[0], tail);
      assert EncodeValues(vs) + rest == EncodeValue(vs[0]) + tail;
      ValuesBack(vs[1..], rest, done + [vs[0]]);
      assert done + [vs[0]] + vs[1..] == done + vs;
    }
  }

  lemma {:induction false} ElementBack(e: Element, rest: seq<Byte>)
    requires |e.key| <= MAX_STRING && WellTyped(e.value) && Encodable(e.value)
    ensures DecodeElement(Prefixed(e.key) + (EncodeValue(e.value) + rest)) == Got(e, rest)
    decreases e, 0
  {
    hide DecodeValue, EncodeValue, WellTyped, Encodable, ReadPrefixed, Prefixed;
    PrefixedBack(MAX_STRING, e.key, EncodeValue(e.value) + rest);
    ValueBack(e.value, rest);
  }

  lemma {:induction false} ElementsBack(es: seq<Element>, rest: seq<Byte>, done: seq<Element>)
    requires WellTypedElements(es) && EncodableElements(es)
    ensures DecodeElements(|es|, EncodeElements(es) + rest, done) == Got(done + es, rest)
    decreases es
  {
    hide DecodeElement, EncodeValue, WellTyped, Encodable, Prefixed;
    if es == [] {
      assert EncodeElements(es) + rest == rest && done + es == done;
    } else {
      var tail := EncodeElements(es[1..]) + rest;
      ElementBack(es[0], tail);
      assert EncodeElements(es) + rest == Prefixed(es[0].key) + (EncodeValue(es[0].value) + tail);
      ElementsBack(es[1..], rest, done + [es[0]]);
      assert done + [es[0]] + es[1..] == done + es;
    }
  }

  lemma {:induction false} FieldsBack(fs: seq<Element>, rest: seq<Byte>, done: seq<Element>)
    requires WellTypedElements(fs) && EncodableElements(fs) && Ascending(done + fs)
    ensures DecodeFields(|fs|, EncodeElements(fs) + rest, done) == Got(done + fs, rest)
    decreases fs
  {
    hide DecodeElement, EncodeValue, WellTyped, Encodable, Prefixed, Assign, Less;
    if fs == [] {
      assert EncodeElements(fs) + rest == rest && done + fs == done;
    } else {
      var tail := EncodeElements(fs[1..]) + rest;
      ElementBack(fs[0], tail);
      assert EncodeElements(fs) + rest == Prefixed(fs[0].key) + (EncodeValue(fs[0].value) + tail);
      assert (done + fs)[|done|] == fs[0];
      forall i | 0 <= i < |done| ensures Less(done[i].key, fs[0].key) {
        assert (done + fs)[i] == done[i];
      }
      AssignLast(done, fs[0].key, fs[0].value);
      assert done + [fs[0]] + fs[1..] == done + fs;
      FieldsBack(fs[1..], rest, done + [fs[0]]);
    }
  }

  // ---------- what is read can be written ----------

  lemma {:induction false} AssignEncodable(fs: seq<Element>, key: Text, v: Value)
    requires EncodableElements(fs) && |key| <= MAX_STRING && Encodable(v)
    ensures EncodableElements(Assign(fs, key, v))
  {
    hide Encodable;
    if fs != [] {
      AssignEncodable(fs[1..], key, v);
    }
  }

  lemma {:induction false} ReadValueEncodable(s: seq<Byte>)
    ensures DecodeValue(s).Got? ==> Encodable(DecodeValue(s).value)
    decreases |s|, 0
  {
    if s != [] {
      ReadTaggedEncodable(s[0], s[1..]);
    }
  }

  lemma {:induction false} ReadTaggedEncodable(tag: Byte, s: seq<Byte>)
    ensures DecodeTagged(tag, s).Got? ==> Encodable(DecodeTagged(tag, s).value)
    decreases |s|, 2
  {
    hide DecodeElements, DecodeValues, DecodeFields, ReadSize, ReadPrefixed;
    if tag == LIST && ReadSize(s).Got? {
      ReadElementsEncodable(ReadSize(s).value, ReadSize(s).rest, []);
    } else if tag == ARRAY && s != [] && ReadSize(s[1..]).Got? {
      ReadValuesEncodable(ReadSize(s[1..]).value, ReadSize(s[1..]).rest, []);
    } else if tag == OBJECT && s != [] && ReadSize(s[1..]).Got? {
      ReadFieldsEncodable(ReadSize(s[1..]).value, ReadSize(s[1..]).rest, []);
    }
  }

  lemma {:induction false} ReadValuesEncodable(n: nat, s: seq<Byte>, done: seq<Value>)
    requires EncodableValues(done)
    ensures var r := DecodeValues(n, s, done); r.Got? ==> EncodableValues(r.value)
    decreases |s|, 1
  {
    hide Encodable, DecodeValue;
    if n > 0 && DecodeValue(s).Got? {
      ReadValueEncodable(s);
      ReadValuesEncodable(n - 1, DecodeValue(s).rest, done + [DecodeValue(s).value]);
    }
  }

  lemma {:induction false} ReadElementEncodable(s: seq<Byte>)
    ensures var r := DecodeElement(s); r.Got? ==> |r.value.key| <= MAX_STRING && Encodable(r.value.value)
    decreases |s|, 1
  {
    hide Encodable, DecodeValue, ReadPrefixed;
    if ReadPrefixed(MAX_STRING, s).Got? {
      ReadValueEncodable(ReadPrefixed(MAX_STRING, s).rest);
    }
  }

  lemma {:induction false} ReadElementsEncodable(n: nat, s: seq<Byte>, done: seq<Element>)
    requires EncodableElements(done)
    ensures var r := DecodeElements(n, s, done); r.Got? ==> EncodableElements(r.value)
    decreases |s|, 2
  {
    hide Encodable, DecodeElement;
    if n > 0 && DecodeElement(s).Got? {
      ReadElementEncodable(s);
      ReadElementsEncodable(n - 1, DecodeElement(s).rest, done + [DecodeElement(s).value]);
    }
  }

  lemma {:induction false} ReadFieldsEncodable(n: nat, s: seq<Byte>, done: seq<Element>)
    requires EncodableElements(done)
    ensures var r := DecodeFields(n, s, done); r.Got? ==> EncodableElements(r.value)
    decreases |s|, 2
  {
    hide Encodable, DecodeElement, Assign, EncodableElements;
    if n > 0 && DecodeElement(s).Got? {
      ReadElementEncodable(s);
      var e := DecodeElement(s).value;
      AssignEncodable(done, e.key, e.value);
      ReadFieldsEncodable(n - 1, DecodeElement(s).rest, Assign(done, e.key, e.value));
    }
  }

  lemma ReadDocumentEncodable(s: seq<Byte>)
    ensures Decode(s).Got? ==> EncodableDocument(Decode(s).value)
  {
    hide DecodeElements, ReadSize, ReadPrefixed, EncodableElements;
    assert EncodableElements([]) by { EmptyEncodable(); }
    if ReadPrefixed(MAX_STRING, s).Got? && ReadSize(ReadPrefixed(MAX_STRING, s).rest).Got? {
      var r := ReadSize(ReadPrefixed(MAX_STRING, s).rest);
      ReadElementsEncodable(r.value, r.rest, []);
    }
  }

  lemma EmptyEncodable()
    ensures EncodableElements([])
  {
  }

  // ---------- the law ----------

  lemma DocumentBack(d: Document, rest: seq<Byte>)
    requires WellTypedDocument(d) && EncodableDocument(d)
    ensures Decode(Encode(d) + rest) == Got(d, rest)
  {
    hide DecodeElements, EncodeElements, Size, ReadSize, Prefixed, ReadPrefixed, WellTyped, Encodable;
    var es := EncodeElements(d.elements);
    var tail := Size(|d.elements|) + (es + rest);
    assert Encode(d) + rest == Prefixed(d.id) + tail;
    PrefixedBack(MAX_STRING, d.id, tail);
    SizeBack(|d.elements|, es + rest);
    ElementsBack(d.elements, rest, []);
    assert [] + d.elements == d.elements;
    assert |Prefixed(d.id)| > 0 by { PrefixedLong(d.id); }
  }

  lemma PrefixedLong(t: Text)
    ensures |Prefixed(t)| == 8 + |t|
  {
  }

  /** Reading a written document gives the document and the bytes after it, if and only if it is encodable. */
  lemma RoundTrip(d: Document, rest: seq<Byte>)
    requires WellTypedDocument(d)
    ensures Decode(Encode(d) + rest) == Got(d, rest) <==> EncodableDocument(d)
  {
    hide *;
    if EncodableDocument(d) {
      DocumentBack(d, rest);
    }
    ReadDocumentEncodable(Encode(d) + rest);
  }

  /** What goes wrong outside: two documents that differ in a value can be the same bytes. */
  lemma NullsAreLost(id: Text, key: Text, year: nat, month: nat, day: nat)
    ensures Encode(Document(id, [Element(key, Null)])) == Encode(Document(id, [Element(key, Date(year, month, day))]))
    ensures !EncodableDocument(Document(id, [Element(key, Null)]))
  {
    var d, e := [Element(key, Null)], [Element(key, Date(year, month, day))];
    assert EncodeElements(d) == Prefixed(key) + ([] + EncodeElements(d[1..])) &&
           EncodeElements(e) == Prefixed(key) + ([] + EncodeElements(e[1..]));
    assert !Encodable(d[0].value);
  }
}
