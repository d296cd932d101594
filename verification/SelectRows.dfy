/** What the rows of a condition are: AND and OR as sets of rows and as exceptions, and the comparison with a text. */
module SelectRows {
  import opened Options
  import opened Documents
  import opened Indexes
  import opened IndexedCollection
  import opened Select
  import opened SelectLaws

  // ---------- rows ----------

  /** Rows come in the order of the documents. */
  lemma {:induction false} FilterAppend(lib: Library, e: Expr, a: seq<Document>, b: seq<Document>)
    ensures var (x, y, z) := (Filter(lib, e, a), Filter(lib, e, b), Filter(lib, e, a + b));
            z == if x.Some? && y.Some? then Some(x.value + y.value) else None
  {
    hide Evaluate;
    if a == [] {
      assert a + b == b;
      assert Filter(lib, e, b).Some? ==> [] + Filter(lib, e, b).value == Filter(lib, e, b).value;
    } else {
      assert (a + b)[0] == a[0] && (a + b)[1..] == a[1..] + b;
      FilterAppend(lib, e, a[1..], b);
      var x, y := Filter(lib, e, a[1..]), Filter(lib, e, b);
      assert x.Some? && y.Some? ==> [a[0]] + (x.value + y.value) == [a[0]] + x.value + y.value;
    }
  }

  /** Where neither side throws, the rows of OR are those of either side, and each document is one as often as it is there. */
  lemma OrRows(lib: Library, l: Expr, r: Expr, docs: seq<Document>)
    requires Filter(lib, l, docs).Some? && Filter(lib, r, docs).Some?
    ensures var (x, y, z) := (Filter(lib, l, docs), Filter(lib, r, docs), Filter(lib, Logical(l, "OR", r), docs));
            z.Some? && forall d :: d in z.value <==> d in x.value || d in y.value
  {
    hide EqualsText;
    var e := Logical(l, "OR", r);
    FilterIs(lib, l, docs);
    FilterIs(lib, r, docs);
    FilterIs(lib, e, docs);
  }

  /** And the rows of AND are those of both. */
  lemma AndRows(lib: Library, l: Expr, r: Expr, docs: seq<Document>)
    requires Filter(lib, l, docs).Some? && Filter(lib, r, docs).Some?
    ensures var (x, y, z) := (Filter(lib, l, docs), Filter(lib, r, docs), Filter(lib, Logical(l, "AND", r), docs));
            z.Some? && forall d :: d in z.value <==> d in x.value && d in y.value
  {
    hide EqualsText;
    var e := Logical(l, "AND", r);
    FilterIs(lib, l, docs);
    FilterIs(lib, r, docs);
    FilterIs(lib, e, docs);
  }

  /** A document alone: its row, none, or an exception. */
  function One(lib: Library, e: Expr, d: Document): Option<seq<Document>> { Filter(lib, e, [d]) }

  /** A row or none is decided document by document, and the left side decides whether the right one is looked at. */
  lemma ShortCircuit(lib: Library, l: Expr, r: Expr, d: Document)
    ensures One(lib, Logical(l, "AND", r), d).None? <==> One(lib, l, d).None? || (One(lib, l, d) == Some([d]) && One(lib, r, d).None?)
    ensures One(lib, Logical(l, "AND", r), d) == Some([d]) <==> One(lib, l, d) == Some([d]) && One(lib, r, d) == Some([d])
    ensures One(lib, Logical(l, "OR", r), d).None? <==> One(lib, l, d).None? || (One(lib, l, d) == Some([]) && One(lib, r, d).None?)
    ensures One(lib, Logical(l, "OR", r), d) == Some([d]) <==>
              One(lib, l, d) == Some([d]) || (One(lib, l, d) == Some([]) && One(lib, r, d) == Some([d]))
  {
    hide EqualsText;
    assert [d][1..] == [];
    forall e ensures One(lib, e, d) == (match Evaluate(lib, e, d) case Yes => Some([d]) case No => Some([]) case Threw => None) {
      OneIs(lib, e, d);
    }
  }

  lemma OneIs(lib: Library, e: Expr, d: Document)
    ensures One(lib, e, d) == (match Evaluate(lib, e, d) case Yes => Some([d]) case No => Some([]) case Threw => None)
  {
    hide Evaluate;
    assert [d][1..] == [] && [d] + [] == [d] && Filter(lib, e, []) == Some([]);
  }

  /** The rows of any documents are those of each, and one that throws spoils them all. */
  lemma RowByRow(lib: Library, e: Expr, d: Document, docs: seq<Document>)
    ensures var (x, y, z) := (One(lib, e, d), Filter(lib, e, docs), Filter(lib, e, [d] + docs));
            z == if x.Some? && y.Some? then Some(x.value + y.value) else None
  {
    FilterAppend(lib, e, [d], docs);
  }

  // ---------- the comparison with a text ----------

  function Equality(field: string, text: string): Expr { Binary(Ident(field), "=", TextLiteral(text)) }

  /** The value that a comparison reads: the document's name, the first element of the field, or null. */
  lemma FieldIs(doc: Document, field: string)
    ensures field == "id" || field == "_id" ==> FieldValue(doc, field) == Str(doc.id)
    ensures field != "id" && field != "_id" && (forall e <- doc.elements :: e.key != field) ==> FieldValue(doc, field) == Null
    ensures field != "id" && field != "_id" && (exists e <- doc.elements :: e.key == field) ==>
              exists i :: 0 <= i < |doc.elements| && doc.elements[i] == Element(field, FieldValue(doc, field)) &&
                  forall j | 0 <= j < i :: doc.elements[j].key != field
  {
    FirstValue(doc.elements, field);
  }

  /** A string is compared with a text as a text unless both read as numbers. */
  lemma TextEquals(lib: Library, doc: Document, field: string, s: string, text: string)
    requires FieldValue(doc, field) == Str(s)
    ensures lib.stod(s) == OutOfRange || lib.stod(text) == OutOfRange <==> One(lib, Equality(field, text), doc).None?
    ensures lib.stod(s) != OutOfRange && lib.stod(text) != OutOfRange && (lib.stod(s).Rejects? || lib.stod(text).Rejects?) ==>
              (One(lib, Equality(field, text), doc) == Some([doc]) <==> s == text)
    ensures lib.stod(s).Reads? && lib.stod(text).Reads? ==>
              (One(lib, Equality(field, text), doc) == Some([doc]) <==> lib.stod(s).number == lib.stod(text).number)
  {
    OneIs(lib, Equality(field, text), doc);
  }

  /** A number is compared as a number with a text that reads as one, and else as it is printed. */
  lemma NumberEquals(lib: Library, doc: Document, field: string, n: real, text: string)
    requires FieldValue(doc, field) == Num(n)
    ensures lib.stod(text).Reads? ==> (One(lib, Equality(field, text), doc) == Some([doc]) <==> n == lib.stod(text).number)
    ensures lib.stod(text).Rejects? ==> (One(lib, Equality(field, text), doc) == Some([doc]) <==> lib.numberText(n) == text)
    ensures lib.stod(text) == OutOfRange <==> One(lib, Equality(field, text), doc).None?
  {
    OneIs(lib, Equality(field, text), doc);
  }

  /** Truth values, null and timestamps equal the text that spells them, and dates, times and nested values none. */
  lemma OtherEquals(lib: Library, doc: Document, field: string, text: string)
    requires var v := FieldValue(doc, field); !v.Str? && !v.Num?
    ensures One(lib, Equality(field, text), doc).None? <==> lib.stod(text) == OutOfRange
    ensures lib.stod(text) != OutOfRange ==>
              (One(lib, Equality(field, text), doc) == Some([doc]) <==>
                match FieldValue(doc, field)
                case Bool(b) => text == (if b then "true" else "false")
                case Null => text == "null"
                case Timestamp(t) => text == lib.integerText(t)
                case _ => false)
  {
    OneIs(lib, Equality(field, text), doc);
  }

  // ---------- which equalities are extracted ----------

  /** The parts of a condition that AND joins, from left to right. */
  function Conjuncts(e: Expr): seq<Expr> {
    if e.Logical? && e.op == "AND" then Conjuncts(e.left) + Conjuncts(e.right) else [e]
  }

  predicate IsEquality(e: Expr, field: string) { e.Binary? && e.left.Ident? && e.left.name == field && e.op == "=" && e.right.TextLiteral? }

  /** A field is extracted if and only if a conjunct compares it, and then with the text of the last such. */
  lemma {:induction false} ConditionsAre(e: Expr, found: map<string, string>, field: string)
    ensures var cs := Conjuncts(e);
            && ((forall c <- cs :: !IsEquality(c, field)) ==> (field in Conditions(e, found) <==> field in found))
            && ((forall c <- cs :: !IsEquality(c, field)) && field in found ==> Conditions(e, found)[field] == found[field])
            && ((exists c <- cs :: IsEquality(c, field)) ==>
                 exists i :: 0 <= i < |cs| && IsEquality(cs[i], field) && (forall j | i < j < |cs| :: !IsEquality(cs[j], field)) &&
                   field in Conditions(e, found) && Conditions(e, found)[field] == cs[i].right.text)
    decreases e
  {
    if e.Logical? && e.op == "AND" {
      var ls, rs, mid := Conjuncts(e.left), Conjuncts(e.right), Conditions(e.left, found);
      ConditionsAre(e.left, found, field);
      ConditionsAre(e.right, mid, field);
      AndConditions(ls, rs, Conjuncts(e), field, Conditions(e, found), mid);
    } else {
      assert Conjuncts(e) == [e] && e in [e];
      if IsEquality(e, field) {
        assert Conjuncts(e)[0] == e;
      }
    }
  }

  lemma AndConditions(ls: seq<Expr>, rs: seq<Expr>, cs: seq<Expr>, field: string, all: map<string, string>, mid: map<string, string>)
    requires cs == ls + rs
    requires (forall c <- rs :: !IsEquality(c, field)) ==> (field in all <==> field in mid)
    requires (forall c <- rs :: !IsEquality(c, field)) && field in mid ==> all[field] == mid[field]
    requires (exists c <- rs :: IsEquality(c, field)) ==>
               exists i :: 0 <= i < |rs| && IsEquality(rs[i], field) &&
                   (forall j | i < j < |rs| :: !IsEquality(rs[j], field)) && field in all && all[field] == rs[i].right.text
    requires (exists c <- ls :: IsEquality(c, field)) ==>
               exists i :: 0 <= i < |ls| && IsEquality(ls[i], field) &&
                   (forall j | i < j < |ls| :: !IsEquality(ls[j], field)) && field in mid && mid[field] == ls[i].right.text
    ensures (exists c <- cs :: IsEquality(c, field)) ==>
              exists i :: 0 <= i < |cs| && IsEquality(cs[i], field) &&
                  (forall j | i < j < |cs| :: !IsEquality(cs[j], field)) && field in all && all[field] == cs[i].right.text
  {
    if exists c <- rs :: IsEquality(c, field) {
      var i :| 0 <= i < |rs| && IsEquality(rs[i], field) && (forall j | i < j < |rs| :: !IsEquality(rs[j], field)) &&
          field in all && all[field] == rs[i].right.text;
      assert IsEquality(cs[|ls| + i], field);
      assert forall j | |ls| + i < j < |cs| :: cs[j] == rs[j - |ls|];
    } else if exists c <- ls :: IsEquality(c, field) {
      var i :| 0 <= i < |ls| && IsEquality(ls[i], field) && (forall j | i < j < |ls| :: !IsEquality(ls[j], field)) &&
          field in mid && mid[field] == ls[i].right.text;
      assert IsEquality(cs[i], field);
      forall j | i < j < |cs| ensures !IsEquality(cs[j], field) {
        assert cs[j] == if j < |ls| then ls[j] else rs[j - |ls|];
      }
    }
  }

  // ---------- the documents of a plan ----------

  /** The documents fetched for some ids are the live ones among them, each with its elements as stored, and under its id. */
  lemma DocsAre(data: Docs, ids: seq<string>)
    ensures forall d :: d in DocsOf(data, ids) <==> d.id in ids && IsLive(data, d.id) && d.elements == data[d.id].value.elements
  {
    DocsOfHas(data, ids);
  }
}
