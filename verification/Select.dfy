/**
 A SELECT without joins, aggregates or unions (tissdb/query/executor_select.cpp): choosing an index from the
 equalities in the WHERE clause, fetching by index or by scan, and filtering. Conditions other than AND, OR
 and `field = 'text'` are given by a parameter.
 */
module Select {
  import opened Options
  import opened Documents
  import opened Indexes
  import opened IndexedCollection

  datatype Expr =
    | Ident(name: string)
    | TextLiteral(text: string)
    | Logical(left: Expr, op: string, right: Expr)
    | Binary(left: Expr, op: string, right: Expr)
    | OtherExpr(which: int)

  /** What evaluating a condition gives. */
  datatype Truth = Yes | No | Threw

  /** `std::stod`: no number at the start of the text, one too large to hold, or a number. */
  datatype Stod = Rejects | OutOfRange | Reads(number: real)

  /** The library calls, and the conditions that are not modelled. */
  datatype Library = Library(stod: string -> Stod, numberText: real -> string, integerText: int -> string, other: (Expr, Document) -> Truth)

  // ---------- conditions ----------

  /** `get_value_from_doc`; a missing field is null. */
  function FieldValue(doc: Document, name: string): Value {
    if name == "id" || name == "_id" then Str(doc.id)
    else match GetValue(doc.elements, name) { case None => Null case Some(v) => v }
  }

  /** `get_as_numeric` */
  function AsNumber(lib: Library, v: Value): Stod {
    match v
    case Num(n) => Reads(n)
    case Str(s) => lib.stod(s)
    case _ => Rejects
  }

  /** `get_as_string` */
  function AsText(lib: Library, v: Value): Option<string> {
    match v
    case Str(s) => Some(s)
    case Num(n) => Some(lib.numberText(n))
    case Bool(b) => Some(if b then "true" else "false")
    case Null => Some("null")
    case Timestamp(t) => Some(lib.integerText(t))
    case Blank(_) => None
  }

  /** `=` between a value and a text: as numbers if both are, else as texts. */
  function EqualsText(lib: Library, v: Value, text: string): Truth {
    var l, r := AsNumber(lib, v), lib.stod(text);
    if l == OutOfRange || r == OutOfRange then Threw
    else if l.Reads? && r.Reads? then (if l.number == r.number then Yes else No)
    else if AsText(lib, v) == Some(text) then Yes
    else No
  }

  /** `evaluate_expression` */
  function Evaluate(lib: Library, e: Expr, doc: Document): Truth {
    match e
    case Logical(l, op, r) =>
      if op == "AND" then
        match Evaluate(lib, l, doc) { case Yes => Evaluate(lib, r, doc) case t => t }
      else if op == "OR" then
        match Evaluate(lib, l, doc) { case No => Evaluate(lib, r, doc) case t => t }
      else No
    case Binary(l, op, r) =>
      if l.Ident? && op == "=" && r.TextLiteral? then EqualsText(lib, FieldValue(doc, l.name), r.text)
      else lib.other(e, doc)
    case _ => lib.other(e, doc)
  }

  /** `extract_equality_conditions`; a later condition on a field replaces an earlier one. */
  function Conditions(e: Expr, found: map<string, string>): map<string, string> {
    match e
    case Logical(l, op, r) => if op == "AND" then Conditions(r, Conditions(l, found)) else found
    case Binary(l, op, r) => if l.Ident? && op == "=" && r.TextLiteral? then found[l.name := r.text] else found
    case _ => found
  }

  // ---------- choosing an index ----------

  predicate Covered(fields: seq<string>, conditions: map<string, string>) { forall field <- fields :: field in conditions }

  /** Among the first indexes, the first with the most fields all of which are compared; none if there is no such. */
  method BestIndex(available: seq<seq<string>>, conditions: map<string, string>) returns (best: seq<string>)
    ensures best == [] || (best in available && Covered(best, conditions))
    ensures forall fields <- available :: Covered(fields, conditions) ==> |fields| <= |best|
  {
    best := [];
    for i := 0 to |available|
      invariant best == [] || (best in available[..i] && Covered(best, conditions))
      invariant forall fields <- available[..i] :: Covered(fields, conditions) ==> |fields| <= |best|
    {
      assert available[..i + 1] == available[..i] + [available[i]];
      var fields := available[i];
      var all := AllPresent(fields, conditions);
      if all && |fields| > |best| {
        best := fields;
      }
    }
    assert available[..|available|] == available;
  }

  method AllPresent(fields: seq<string>, conditions: map<string, string>) returns (all: bool)
    ensures all == Covered(fields, conditions)
  {
    for i := 0 to |fields|
      invariant forall k | 0 <= k < i :: fields[k] in conditions
    {
      if fields[i] !in conditions {
        return false;
      }
    }
    return true;
  }

  function Values(fields: seq<string>, conditions: map<string, string>): (r: seq<string>)
    requires Covered(fields, conditions)
    ensures |r| == |fields|
  {
    if fields == [] then [] else [conditions[fields[0]]] + Values(fields[1..], conditions)
  }

  // ---------- filtering ----------

  /** The documents that satisfy the condition, or `None` if evaluating it throws for one of them. */
  function Filter(lib: Library, e: Expr, docs: seq<Document>): Option<seq<Document>> {
    if docs == [] then Some([])
    else match Evaluate(lib, e, docs[0])
      case Threw => None
      case Yes => (match Filter(lib, e, docs[1..]) case None => None case Some(rest) => Some([docs[0]] + rest))
      case No => Filter(lib, e, docs[1..])
  }

  method FilterDocs(lib: Library, e: Expr, docs: seq<Document>) returns (rows: Option<seq<Document>>)
    ensures rows == Filter(lib, e, docs)
  {
    hide Evaluate;
    var kept: seq<Document> := [];
    assert docs[0..] == docs;
    NoneKept(lib, e, docs);
    for i := 0 to |docs|
      invariant Filter(lib, e, docs) == Kept(kept, Filter(lib, e, docs[i..]))
    {
      assert docs[i..][0] == docs[i] && docs[i..][1..] == docs[i + 1..];
      var t := Evaluate(lib, e, docs[i]);
      match t {
        case Threw => return None;
        case Yes =>
          OneKept(kept, docs[i], Filter(lib, e, docs[i + 1..]));
          kept := kept + [docs[i]];
        case No =>
      }
    }
    assert docs[|docs|..] == [] && kept + [] == kept;
    return Some(kept);
  }

  ghost function Kept(kept: seq<Document>, rest: Option<seq<Document>>): Option<seq<Document>> {
    match rest
    case None => None
    case Some(r) => Some(kept + r)
  }

  lemma NoneKept(lib: Library, e: Expr, docs: seq<Document>)
    ensures Kept([], Filter(lib, e, docs)) == Filter(lib, e, docs)
  {
    hide Filter;
    var r := Filter(lib, e, docs);
    assert r.Some? ==> [] + r.value == r.value;
  }

  lemma OneKept(kept: seq<Document>, doc: Document, rest: Option<seq<Document>>)
    ensures Kept(kept, match rest case None => None case Some(r) => Some([doc] + r)) == Kept(kept + [doc], rest)
  {
    assert rest.Some? ==> kept + ([doc] + rest.value) == kept + [doc] + rest.value;
  }

  // ---------- the statement ----------

  /** Where the rows of a statement come from: all documents, or the ids that an index gives. */
  datatype Source = Scanned | ByIndex(fields: seq<string>, key: string)

  /**
   The ids of a scan, if no index has all its fields compared, or those under the compared texts in an
   index with the most fields of such.
   */
  ghost predicate IsPlan(f: Format, s: State, where: Expr, source: Source, ids: seq<string>) {
    var conditions := Conditions(where, map[]);
    match source
    case Scanned =>
      IsOrder(ids, s.data) && forall ix <- s.indexes :: Covered(ix.fields, conditions) ==> ix.fields == []
    case ByIndex(fields, key) =>
      && fields != [] && Covered(fields, conditions) && key == Join(Values(fields, conditions), NUL)
      && (exists ix <- s.indexes :: ix.fields == fields)
      && (forall ix <- s.indexes :: Covered(ix.fields, conditions) ==> |ix.fields| <= |fields|)
      && (if HasName(s.indexes, IndexName(fields))
          then exists ix <- s.indexes :: ix.name == IndexName(fields) && ids == Lookup(f, ix, key)
          else ids == [])
  }

  /** A lookup that meets a tombstone, which the code would dereference. */
  predicate Stuck(data: Docs, ids: seq<string>) { exists id <- ids :: id in data && data[id].None? }

  /** The rows are the filtered documents of a plan; without a WHERE clause, all documents. */
  method Execute(c: Collection, lib: Library, where: Option<Expr>) returns (rows: Option<seq<Document>>, stuck: bool)
    ensures where.Some? ==> exists source, ids ::
      && IsPlan(c.indexer.format, c.Now(), where.value, source, ids)
      && stuck == (source.ByIndex? && Stuck(c.data, ids))
      && (!stuck ==> rows == Filter(lib, where.value, DocsOf(c.data, ids)))
    ensures where.None? ==> !stuck && exists ids :: IsOrder(ids, c.data) && rows == Some(DocsOf(c.data, ids))
  {
    if where.Some? {
      rows, stuck := ExecuteWhere(c, lib, where.value);
    } else {
      var docs := c.Scan();
      rows, stuck := Some(docs), false;
    }
  }

  method ExecuteWhere(c: Collection, lib: Library, where: Expr) returns (rows: Option<seq<Document>>, stuck: bool)
    ensures exists source, ids ::
      && IsPlan(c.indexer.format, c.Now(), where, source, ids)
      && stuck == (source.ByIndex? && Stuck(c.data, ids))
      && (!stuck ==> rows == Filter(lib, where, DocsOf(c.data, ids)))
  {
    hide Lookup, Filter, Conditions, DocsOf, IsOrder;
    var conditions := Conditions(where, map[]);
    var available := seq(|c.indexer.indexes|, i requires 0 <= i < |c.indexer.indexes| reads c.indexer => c.indexer.indexes[i].fields);
    AllFields(c.indexer.indexes, available);
    var best := BestIndex(available, conditions);
    var docs: seq<Document>;
    ghost var source, ids;
    if best != [] {
      var values := Values(best, conditions);
      var found := c.indexer.FindByIndex(best, values);
      source, ids := ByIndex(best, Join(values, NUL)), found;
      docs, stuck := Fetch(c, found);
    } else {
      docs := c.Scan();
      stuck := false;
      ghost var order :| IsOrder(order, c.data) && docs == DocsOf(c.data, order);
      source, ids := Scanned, order;
    }
    assert IsPlan(c.indexer.format, c.Now(), where, source, ids);
    if stuck {
      rows := None;
    } else {
      rows := FilterDocs(lib, where, docs);
    }
    assert IsPlan(c.indexer.format, c.Now(), where, source, ids);
    assert stuck == (source.ByIndex? && Stuck(c.data, ids));
    assert !stuck ==> rows == Filter(lib, where, DocsOf(c.data, ids));
  }

  lemma AllFields(ixs: seq<Index>, available: seq<seq<string>>)
    requires |available| == |ixs| && forall i | 0 <= i < |ixs| :: available[i] == ixs[i].fields
    ensures forall ix <- ixs :: ix.fields in available
    ensures forall fields <- available :: exists ix <- ixs :: ix.fields == fields
  {
  }

  /** The documents of the ids that the index gave. */
  method Fetch(c: Collection, ids: seq<string>) returns (docs: seq<Document>, stuck: bool)
    ensures stuck == Stuck(c.data, ids)
    ensures !stuck ==> docs == DocsOf(c.data, ids)
  {
    hide DocsOf, Named;
    docs := [];
    assert ids[0..] == ids;
    AllDocs(c.data, ids);
    for i := 0 to |ids|
      invariant docs + DocsOf(c.data, ids[i..]) == DocsOf(c.data, ids)
      invariant forall k | 0 <= k < i :: !(ids[k] in c.data && c.data[ids[k]].None?)
    {
      MoreDocs(docs, c.data, ids, i);
      NoDocs(docs, c.data);
      var doc := c.Get(ids[i]);
      if doc.Some? {
        if doc.value.None? {
          return docs, true;
        }
        docs := docs + [doc.value.value];
      }
    }
    assert ids[|ids|..] == [];
    NoDocs(docs, c.data);
    return docs, false;
  }
}
