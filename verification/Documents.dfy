/**
 Documents and their values (tissdb/common/document.h) as the query layer uses them, with
 `value_to_string` and `combine_documents` of tissdb/query/executor_common.cpp. How a stream prints a
 double or a 64-bit number is a parameter (`Printer`); values that `value_to_string` leaves blank
 (dates, times, binary data and nested values) are told apart by a number.
 */
module Documents {
  import opened Options

  datatype Value = Null | Str(s: string) | Num(n: real) | Bool(b: bool) | Timestamp(micros: int) | Blank(which: int)
  datatype Element = Element(key: string, value: Value)
  datatype Document = Document(id: string, elements: seq<Element>)
  datatype Printer = Printer(number: real -> string, integer: int -> string)

  /** The value of the first element with this key. */
  function GetValue(elements: seq<Element>, key: string): Option<Value> {
    if elements == [] then None
    else if elements[0].key == key then Some(elements[0].value)
    else GetValue(elements[1..], key)
  }

  /** It is the first one's, or there is none. */
  lemma {:induction false} FirstValue(elements: seq<Element>, key: string)
    ensures GetValue(elements, key).None? <==> forall e <- elements :: e.key != key
    ensures GetValue(elements, key).Some? ==>
              exists i :: 0 <= i < |elements| && elements[i] == Element(key, GetValue(elements, key).value) &&
                  (forall j | 0 <= j < i :: elements[j].key != key)
  {
    if elements != [] {
      FirstValue(elements[1..], key);
      assert elements == [elements[0]] + elements[1..];
      if elements[0].key == key {
        assert elements[0] == Element(key, GetValue(elements, key).value);
      } else if GetValue(elements, key).Some? {
        var i :| 0 <= i < |elements[1..]| && elements[1..][i] == Element(key, GetValue(elements, key).value) &&
            forall j | 0 <= j < i :: elements[1..][j].key != key;
        assert elements[i + 1] == elements[1..][i];
        assert forall j | 0 < j < i + 1 :: elements[j] == elements[1..][j - 1];
      }
    }
  }

  /** `get_value_by_key` */
  method GetValueByKey(doc: Document, key: string) returns (v: Option<Value>)
    ensures v == GetValue(doc.elements, key)
    ensures v.None? <==> forall e <- doc.elements :: e.key != key
    ensures v.Some? ==> exists i :: 0 <= i < |doc.elements| && doc.elements[i] == Element(key, v.value) && forall j | 0 <= j < i :: doc.elements[j].key != key
  {
    FirstValue(doc.elements, key);
    var i := 0;
    while i < |doc.elements|
      invariant i <= |doc.elements| && GetValue(doc.elements, key) == GetValue(doc.elements[i..], key)
    {
      if doc.elements[i].key == key {
        return Some(doc.elements[i].value);
      }
      i := i + 1;
    }
    return None;
  }

  function ToText(v: Value, p: Printer): string {
    match v
    case Str(s) => s
    case Num(n) => p.number(n)
    case Bool(b) => if b then "true" else "false"
    case Null => "null"
    case Timestamp(t) => p.integer(t)
    case Blank(_) => ""
  }

  /** Every element of one side under its alias. */
  function Prefixed(alias: string, elements: seq<Element>): seq<Element> {
    if elements == [] then []
    else [Element(alias + "." + elements[0].key, elements[0].value)] + Prefixed(alias, elements[1..])
  }

  /** The `i`-th element under its alias. */
  lemma {:induction false} PrefixedAt(alias: string, elements: seq<Element>)
    ensures |Prefixed(alias, elements)| == |elements|
    ensures forall i | 0 <= i < |elements| :: Prefixed(alias, elements)[i] == Element(alias + "." + elements[i].key, elements[i].value)
  {
    if elements != [] {
      PrefixedAt(alias, elements[1..]);
    }
  }

  function Combine(d1: Document, alias1: string, d2: Document, alias2: string): Document {
    Document(d1.id + "_" + d2.id,
             [Element(alias1 + "._id", Str(d1.id))] + Prefixed(alias1, d1.elements) +
             [Element(alias2 + "._id", Str(d2.id))] + Prefixed(alias2, d2.elements))
  }

  /**
   A row holds both ids, and after each the elements of its side, every name under the side's alias and every value
   as it is.
   */
  ghost predicate IsRow(row: Document, d1: Document, alias1: string, d2: Document, alias2: string) {
    var n1, n2 := |d1.elements|, |d2.elements|;
    && row.id == d1.id + "_" + d2.id && |row.elements| == n1 + n2 + 2
    && row.elements[0] == Element(alias1 + "._id", Str(d1.id))
    && (forall i | 0 <= i < n1 :: row.elements[1 + i] == Element(alias1 + "." + d1.elements[i].key, d1.elements[i].value))
    && row.elements[n1 + 1] == Element(alias2 + "._id", Str(d2.id))
    && forall i | 0 <= i < n2 :: row.elements[n1 + 2 + i] == Element(alias2 + "." + d2.elements[i].key, d2.elements[i].value)
  }

  lemma CombineIs(d1: Document, alias1: string, d2: Document, alias2: string)
    ensures IsRow(Combine(d1, alias1, d2, alias2), d1, alias1, d2, alias2)
  {
    hide Prefixed;
    PrefixedAt(alias1, d1.elements);
    PrefixedAt(alias2, d2.elements);
  }

  /** Nothing else is such a row. */
  lemma RowOnce(row: Document, d1: Document, alias1: string, d2: Document, alias2: string)
    requires IsRow(row, d1, alias1, d2, alias2)
    ensures row == Combine(d1, alias1, d2, alias2)
  {
    var c := Combine(d1, alias1, d2, alias2);
    CombineIs(d1, alias1, d2, alias2);
    forall k | 0 <= k < |row.elements| ensures row.elements[k] == c.elements[k] {
      var n1 := |d1.elements|;
      if 0 < k <= n1 {
        var e := d1.elements[k - 1];
        assert row.elements[k] == Element(alias1 + "." + e.key, e.value) == c.elements[k];
      } else if n1 + 2 <= k {
        var e := d2.elements[k - n1 - 2];
        assert row.elements[k] == Element(alias2 + "." + e.key, e.value) == c.elements[k];
      }
    }
    assert row.elements == c.elements;
  }
}
