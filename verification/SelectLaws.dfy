/** When an index plan returns what a full scan returns. */
module SelectLaws {
  import opened Options
  import opened Documents
  import opened ValueTree
  import JL = JsonLaws
  import opened Indexes
  import opened IndexLists
  import opened IndexSteps
  import opened IndexLaws
  import IndexGaps
  import opened IndexedCollection
  import opened Select

  // ---------- what a condition implies ----------

  /** Where the whole condition holds, so does every equality that was extracted from it. */
  ghost predicate Implied(lib: Library, doc: Document, conditions: map<string, string>) {
    forall field <- conditions :: EqualsText(lib, FieldValue(doc, field), conditions[field]) == Yes
  }

  lemma {:induction false} ConditionsImplied(lib: Library, e: Expr, doc: Document, found: map<string, string>)
    requires Evaluate(lib, e, doc) == Yes && Implied(lib, doc, found)
    ensures Implied(lib, doc, Conditions(e, found))
  {
    hide EqualsText, FieldValue;
    match e {
      case Logical(l, op, r) =>
        if op == "AND" {
          ConditionsImplied(lib, l, doc, found);
          ConditionsImplied(lib, r, doc, Conditions(l, found));
        }
      case _ =>
    }
  }

  // ---------- filtering ----------

  lemma {:induction false} FilterIs(lib: Library, e: Expr, docs: seq<Document>)
    ensures Filter(lib, e, docs).None? <==> exists d <- docs :: Evaluate(lib, e, d) == Threw
    ensures Filter(lib, e, docs).Some? ==> forall d :: d in Filter(lib, e, docs).value <==> d in docs && Evaluate(lib, e, d) == Yes
  {
    hide Evaluate;
    if docs != [] {
      FilterIs(lib, e, docs[1..]);
      assert docs == [docs[0]] + docs[1..];
      if Evaluate(lib, e, docs[0]) == Threw {
        assert docs[0] in docs;
      } else if Filter(lib, e, docs[1..]).None? {
        var d :| d in docs[1..] && Evaluate(lib, e, d) == Threw;
        assert d in docs;
      }
    }
  }

  predicate Distinct(docs: seq<Document>) { forall i, j :: 0 <= i < j < |docs| ==> docs[i] != docs[j] }

  lemma DistinctTail(docs: seq<Document>)
    requires docs != [] && Distinct(docs)
    ensures Distinct(docs[1..]) && docs[0] !in docs[1..]
  {
    assert forall i | 0 <= i < |docs[1..]| :: docs[1..][i] == docs[i + 1];
  }

  lemma DistinctCons(doc: Document, docs: seq<Document>)
    requires Distinct(docs) && doc !in docs
    ensures Distinct([doc] + docs)
  {
  }

  lemma {:induction false} FilterDistinct(lib: Library, e: Expr, docs: seq<Document>)
    requires Distinct(docs) && Filter(lib, e, docs).Some?
    ensures Distinct(Filter(lib, e, docs).value)
  {
    hide Evaluate, Distinct;
    if docs == [] {
      assert Distinct([]) by { NoneDistinct(); }
    } else {
      DistinctTail(docs);
      FilterDistinct(lib, e, docs[1..]);
      FilterIs(lib, e, docs[1..]);
      if Evaluate(lib, e, docs[0]) == Yes {
        DistinctCons(docs[0], Filter(lib, e, docs[1..]).value);
      }
    }
  }

  lemma NoneDistinct()
    ensures Distinct([])
  {
  }

  lemma {:induction false} DocsOfHas(data: Docs, ids: seq<string>)
    ensures forall d :: d in DocsOf(data, ids) <==> d.id in ids && IsLive(data, d.id) && d == Named(data[d.id].value, d.id)
  {
    if ids != [] {
      DocsOfHas(data, ids[1..]);
      assert ids == [ids[0]] + ids[1..];
    }
  }

  lemma {:induction false} DocsOfDistinct(data: Docs, ids: seq<string>)
    requires NoRepeats(ids)
    ensures Distinct(DocsOf(data, ids))
  {
    hide Named, Distinct;
    if ids == [] {
      NoneDistinct();
    } else {
      var rest := ids[1..];
      assert forall i | 0 <= i < |rest| :: rest[i] == ids[i + 1];
      DocsOfDistinct(data, rest);
      DocsOfHas(data, rest);
      if IsLive(data, ids[0]) {
        var doc := Named(data[ids[0]].value, ids[0]);
        assert doc.id == ids[0] by { NamedId(data[ids[0]].value, ids[0]); }
        DistinctCons(doc, DocsOf(data, rest));
      } else {
        assert [] + DocsOf(data, rest) == DocsOf(data, rest);
      }
    }
  }

  lemma NamedId(doc: Document, id: string)
    ensures Named(doc, id).id == id
  {
  }

  /** Two lists without repeats and with the same members are the same multiset. */
  lemma {:induction false} SameMultiset(a: seq<Document>, b: seq<Document>)
    requires Distinct(a) && Distinct(b) && forall d :: d in a <==> d in b
    ensures multiset(a) == multiset(b)
  {
    forall d ensures multiset(a)[d] == multiset(b)[d] {
      CountOnce(a, d);
      CountOnce(b, d);
    }
  }

  lemma {:induction false} CountOnce(a: seq<Document>, d: Document)
    requires Distinct(a)
    ensures multiset(a)[d] == if d in a then 1 else 0
  {
    if a != [] {
      DistinctTail(a);
      CountOnce(a[1..], d);
      assert a == [a[0]] + a[1..];
    }
  }

  // ---------- plan and scan ----------

  /** The condition throws for no live document. */
  ghost predicate Quiet(lib: Library, data: Docs, where: Expr) {
    forall id | IsLive(data, id) :: Evaluate(lib, where, Named(data[id].value, id)) != Threw
  }

  /** Every live document that satisfies the condition has the key. */
  ghost predicate KeyFollows(f: Format, lib: Library, data: Docs, where: Expr, fields: seq<string>, key: string) {
    forall id | IsLive(data, id) && Evaluate(lib, where, Named(data[id].value, id)) == Yes ::
      key != "" && HasKey(f.printer, fields, data, id, key)
  }

  /** The rows of a list of ids, if the condition throws for no document. */
  lemma RowsOfIds(lib: Library, data: Docs, where: Expr, ids: seq<string>)
    requires Quiet(lib, data, where) && NoRepeats(ids)
    ensures var rows := Filter(lib, where, DocsOf(data, ids));
            && rows.Some? && Distinct(rows.value)
            && forall d :: d in rows.value <==>
                 d.id in ids && IsLive(data, d.id) && d == Named(data[d.id].value, d.id) && Evaluate(lib, where, d) == Yes
  {
    hide Evaluate, Filter, DocsOf, Named, Distinct;
    DocsOfHas(data, ids);
    DocsOfDistinct(data, ids);
    FilterIs(lib, where, DocsOf(data, ids));
    FilterDistinct(lib, where, DocsOf(data, ids));
  }

  /**
   Where the condition throws for no live document, filtering the ids of a lookup gives the rows of a scan,
   up to their order, if and only if every live document that satisfies the condition has the key.
   */
  lemma PlanIsScan(f: Format, lib: Library, data: Docs, where: Expr, ix: Index, key: string, order: seq<string>)
    requires ExactIndex(f, data, ix) && Quiet(lib, data, where) && IsOrder(order, data)
    ensures var plan := Filter(lib, where, DocsOf(data, Lookup(f, ix, key)));
            var scan := Filter(lib, where, DocsOf(data, order));
            && plan.Some? && scan.Some?
            && (multiset(plan.value) == multiset(scan.value) <==> KeyFollows(f, lib, data, where, ix.fields, key))
  {
    hide Evaluate, Filter, DocsOf, Distinct, Lookup, CompositeKey, Quiet;
    var ids := Lookup(f, ix, key);
    LookupHas(f, data, ix, key);
    RowsOfIds(lib, data, where, ids);
    RowsOfIds(lib, data, where, order);
    var plan, scan := Filter(lib, where, DocsOf(data, ids)).value, Filter(lib, where, DocsOf(data, order)).value;
    if KeyFollows(f, lib, data, where, ix.fields, key) {
      forall d ensures d in plan <==> d in scan {
      }
      SameMultiset(plan, scan);
    }
    if multiset(plan) == multiset(scan) {
      forall id | IsLive(data, id) && Evaluate(lib, where, Named(data[id].value, id)) == Yes
        ensures key != "" && HasKey(f.printer, ix.fields, data, id, key) {
        var d := Named(data[id].value, id);
        assert d in scan;
        assert d in multiset(scan);
        assert d in plan;
      }
    }
  }

  /** What a lookup in an exact index gives for any key, the empty one included. */
  lemma LookupHas(f: Format, data: Docs, ix: Index, key: string)
    requires ExactIndex(f, data, ix)
    ensures NoRepeats(Lookup(f, ix, key))
    ensures forall id :: id in Lookup(f, ix, key) <==> key != "" && HasKey(f.printer, ix.fields, data, id, key)
  {
    hide Lookup, HasKey;
    if key != "" {
      assert ExactAt(f, data, ix, key);
    }
  }

  // ---------- what documents must hold ----------

  /** The document holds this text in the field, or a number or truth value whose part of the key it is. */
  predicate Stores(p: Printer, doc: Document, field: string, text: string) {
    var v := GetValue(doc.elements, field);
    v.Some? && KeyPart(v.value, p) == text
  }

  lemma KeyOfOne(p: Printer, field: string, doc: Document, text: string)
    requires text != ""
    ensures CompositeKey(p, [field], doc) == text <==> Stores(p, doc, field, text)
  {
    assert [field][1..] == [];
    assert KeyParts(p, [], doc) == Some([]);
    var v := GetValue(doc.elements, field);
    if v.Some? {
      var part := KeyPart(v.value, p);
      assert KeyParts(p, [field], doc) == Some([part] + []) && [part] + [] == [part];
    }
  }

  /**
   A comparison of one field with a text, through an index over that field, gives the rows of a scan if and only
   if the text is not empty and stored under the field wherever a live document's field equals it.
   */
  lemma OneFieldIff(f: Format, lib: Library, data: Docs, ix: Index, field: string, text: string, order: seq<string>)
    requires ExactIndex(f, data, ix) && ix.fields == [field] && IsOrder(order, data)
    requires forall id | IsLive(data, id) :: EqualsText(lib, FieldValue(Named(data[id].value, id), field), text) != Threw
    ensures var where := Binary(Ident(field), "=", TextLiteral(text));
            var plan := Filter(lib, where, DocsOf(data, Lookup(f, ix, text)));
            var scan := Filter(lib, where, DocsOf(data, order));
            && Conditions(where, map[]) == map[field := text] && Values([field], map[field := text]) == [text]
            && Join([text], NUL) == text
            && plan.Some? && scan.Some?
            && (multiset(plan.value) == multiset(scan.value) <==>
                  forall id | IsLive(data, id) && EqualsText(lib, FieldValue(Named(data[id].value, id), field), text) == Yes ::
                    text != "" && Stores(f.printer, data[id].value, field, text))
  {
    hide EqualsText, FieldValue, Filter, DocsOf, Lookup, CompositeKey, Stores, ExactIndex, Named;
    var where := Binary(Ident(field), "=", TextLiteral(text));
    assert [field][1..] == [] && Values([], map[field := text]) == [] && [text] + [] == [text];
    assert forall doc :: Evaluate(lib, where, doc) == EqualsText(lib, FieldValue(doc, field), text);
    PlanIsScan(f, lib, data, where, ix, text, order);
    forall id | IsLive(data, id) && text != ""
      ensures HasKey(f.printer, [field], data, id, text) <==> Stores(f.printer, data[id].value, field, text) {
      KeyOfOne(f.printer, field, data[id].value, text);
    }
  }

  predicate NulFree(texts: seq<string>) { forall text <- texts :: NUL[0] !in text }

  /** Texts without separators are told apart by their join. */
  lemma {:induction false} JoinInjective(a: seq<string>, b: seq<string>)
    requires |a| == |b| && NulFree(a) && NulFree(b) && Join(a, NUL) == Join(b, NUL)
    ensures a == b
  {
    if |a| == 1 {
    } else if a != [] {
      var x, y := a[0], b[0];
      var s, t := NUL + Join(a[1..], NUL), NUL + Join(b[1..], NUL);
      assert Join(a, NUL) == x + s && Join(b, NUL) == y + t;
      assert x in a && y in b;
      SamePrefix(x, s, y, t);
      assert s[1..] == Join(a[1..], NUL) && t[1..] == Join(b[1..], NUL);
      assert (forall text <- a[1..] :: text in a) && forall text <- b[1..] :: text in b;
      JoinInjective(a[1..], b[1..]);
      assert a == [x] + a[1..] && b == [y] + b[1..];
    }
  }

  lemma SamePrefix(x: string, s: string, y: string, t: string)
    requires NUL[0] !in x && NUL[0] !in y && x + s == y + t
    requires s != [] && s[0] == NUL[0] && t != [] && t[0] == NUL[0]
    ensures x == y && s == t
  {
    SeparatorInside(x, s, y, t);
    SeparatorInside(y, t, x, s);
    assert (x + s)[..|x|] == x && (y + t)[..|y|] == y;
    assert (x + s)[|x|..] == s && (y + t)[|y|..] == t;
  }

  lemma SeparatorInside(x: string, s: string, y: string, t: string)
    requires x + s == y + t && s != [] && s[0] == NUL[0]
    ensures |x| < |y| ==> NUL[0] in y
  {
    if |x| < |y| {
      assert (x + s)[|x|] == s[0] && (y + t)[|x|] == y[|x|];
      assert y[|x|] in y;
    }
  }

  predicate StoresAll(p: Printer, doc: Document, fields: seq<string>, conditions: map<string, string>)
    requires Covered(fields, conditions)
  {
    forall field <- fields :: Stores(p, doc, field, conditions[field])
  }

  /** No key part of the fields has a separator in it. */
  predicate PartsNulFree(p: Printer, doc: Document, fields: seq<string>) {
    forall field <- fields ::
      var v := GetValue(doc.elements, field); v.Some? ==> NUL[0] !in KeyPart(v.value, p)
  }

  lemma {:induction false} PartsAre(p: Printer, fields: seq<string>, doc: Document, conditions: map<string, string>)
    requires Covered(fields, conditions) && PartsNulFree(p, doc, fields)
    ensures KeyParts(p, fields, doc) == Some(Values(fields, conditions)) <==> StoresAll(p, doc, fields, conditions)
    ensures KeyParts(p, fields, doc).Some? ==> |KeyParts(p, fields, doc).value| == |fields| && NulFree(KeyParts(p, fields, doc).value)
  {
    hide GetValue, KeyPart;
    if fields != [] {
      var rest := fields[1..];
      assert fields == [fields[0]] + rest;
      assert forall field <- rest :: field in fields;
      PartsAre(p, rest, doc, conditions);
      var v, parts := GetValue(doc.elements, fields[0]), KeyParts(p, rest, doc);
      if v.Some? && parts.Some? {
        var part := KeyPart(v.value, p);
        assert ([part] + parts.value)[1..] == parts.value;
        assert Values(fields, conditions)[1..] == Values(rest, conditions);
      }
    }
  }

  lemma ValuesNulFree(fields: seq<string>, conditions: map<string, string>)
    requires Covered(fields, conditions) && forall field <- fields :: NUL[0] !in conditions[field]
    ensures NulFree(Values(fields, conditions))
  {
    if fields != [] {
      assert forall field <- fields[1..] :: field in fields;
      ValuesNulFree(fields[1..], conditions);
    }
  }

  lemma KeyOfFields(p: Printer, fields: seq<string>, doc: Document, conditions: map<string, string>)
    requires Covered(fields, conditions) && PartsNulFree(p, doc, fields) && NulFree(Values(fields, conditions))
    requires Join(Values(fields, conditions), NUL) != ""
    ensures CompositeKey(p, fields, doc) == Join(Values(fields, conditions), NUL) <==> StoresAll(p, doc, fields, conditions)
  {
    hide KeyParts, StoresAll, Join, PartsNulFree;
    PartsAre(p, fields, doc, conditions);
    var parts := KeyParts(p, fields, doc);
    if parts.Some? && Join(parts.value, NUL) == Join(Values(fields, conditions), NUL) {
      JoinInjective(parts.value, Values(fields, conditions));
    }
  }

  /**
   Any condition, through an index over any compared fields without NUL in them, gives the rows of a scan if and
   only if every live document that satisfies it stores every compared text, and those texts are not all empty
   where they make up the key.
   */
  lemma FieldsIff(f: Format, lib: Library, data: Docs, where: Expr, ix: Index, order: seq<string>)
    requires ExactIndex(f, data, ix) && Quiet(lib, data, where) && IsOrder(order, data)
    requires Covered(ix.fields, Conditions(where, map[])) && NulFree(Values(ix.fields, Conditions(where, map[])))
    requires forall id | IsLive(data, id) :: PartsNulFree(f.printer, data[id].value, ix.fields)
    ensures var conditions := Conditions(where, map[]);
            var key := Join(Values(ix.fields, conditions), NUL);
            var plan := Filter(lib, where, DocsOf(data, Lookup(f, ix, key)));
            var scan := Filter(lib, where, DocsOf(data, order));
            && plan.Some? && scan.Some?
            && (multiset(plan.value) == multiset(scan.value) <==>
                  forall id | IsLive(data, id) && Evaluate(lib, where, Named(data[id].value, id)) == Yes ::
                    key != "" && StoresAll(f.printer, data[id].value, ix.fields, conditions))
  {
    hide Evaluate, Filter, DocsOf, Lookup, CompositeKey, StoresAll, ExactIndex, Named, Conditions, Values, Join, PartsNulFree, NulFree, Quiet;
    var conditions := Conditions(where, map[]);
    var key := Join(Values(ix.fields, conditions), NUL);
    PlanIsScan(f, lib, data, where, ix, key, order);
    forall id | IsLive(data, id) && key != ""
      ensures HasKey(f.printer, ix.fields, data, id, key) <==> StoresAll(f.printer, data[id].value, ix.fields, conditions) {
      KeyOfFields(f.printer, ix.fields, data[id].value, conditions);
    }
  }

  // ---------- when the key follows ----------

  /** A nonempty text without NUL that is no number. */
  predicate Word(lib: Library, text: string) { text != "" && NUL[0] !in text && lib.stod(text) == Rejects }

  /** The field is not the id, and every live document holds a word in it. */
  ghost predicate Wordy(lib: Library, data: Docs, field: string) {
    && field != "id" && field != "_id"
    && forall id | IsLive(data, id) ::
         var v := GetValue(data[id].value.elements, field); v.Some? && v.value.Str? && Word(lib, v.value.s)
  }

  /** A document that satisfies the condition holds the compared texts. */
  lemma WordsEqual(lib: Library, doc: Document, field: string, text: string)
    requires field != "id" && field != "_id"
    requires GetValue(doc.elements, field).Some? && GetValue(doc.elements, field).value.Str? &&
             Word(lib, GetValue(doc.elements, field).value.s)
    requires EqualsText(lib, FieldValue(doc, field), text) == Yes
    ensures GetValue(doc.elements, field) == Some(Str(text))
  {
    hide GetValue;
  }

  lemma KeyNotEmpty(lib: Library, fields: seq<string>, conditions: map<string, string>)
    requires fields != [] && Covered(fields, conditions) && forall field <- fields :: Word(lib, conditions[field])
    ensures Join(Values(fields, conditions), NUL) != ""
  {
  }

  /**
   A SELECT through any index over compared fields returns the rows of a full scan, up to their order, when
   the fields hold words in every live document and are compared to words.
   */
  lemma IndexPlanSound(f: Format, lib: Library, data: Docs, where: Expr, ix: Index, order: seq<string>)
    requires ExactIndex(f, data, ix) && IsOrder(order, data) && Quiet(lib, data, where)
    requires ix.fields != [] && Covered(ix.fields, Conditions(where, map[]))
    requires forall field <- ix.fields :: Wordy(lib, data, field) && Word(lib, Conditions(where, map[])[field])
    ensures var key := Join(Values(ix.fields, Conditions(where, map[])), NUL);
            var plan := Filter(lib, where, DocsOf(data, Lookup(f, ix, key)));
            var scan := Filter(lib, where, DocsOf(data, order));
            plan.Some? && scan.Some? && multiset(plan.value) == multiset(scan.value)
  {
    hide Evaluate, Filter, DocsOf, Conditions, Values, Join, Lookup, Quiet, IsOrder, ExactIndex, GetValue, EqualsText, FieldValue, Word;
    var conditions := Conditions(where, map[]);
    KeyNotEmpty(lib, ix.fields, conditions);
    assert forall field <- ix.fields :: NUL[0] !in conditions[field] by { WordsNulFree(lib, ix.fields, conditions); }
    ValuesNulFree(ix.fields, conditions);
    forall id | IsLive(data, id) ensures PartsNulFree(f.printer, data[id].value, ix.fields) {
      WordParts(f.printer, lib, data, ix.fields, id);
    }
    forall id | IsLive(data, id) && Evaluate(lib, where, Named(data[id].value, id)) == Yes
      ensures StoresAll(f.printer, data[id].value, ix.fields, conditions) {
      ConditionsImplied(lib, where, Named(data[id].value, id), map[]);
      forall field <- ix.fields ensures GetValue(data[id].value.elements, field) == Some(Str(conditions[field])) {
        WordsEqual(lib, Named(data[id].value, id), field, conditions[field]);
      }
    }
    FieldsIff(f, lib, data, where, ix, order);
  }

  lemma WordsNulFree(lib: Library, fields: seq<string>, conditions: map<string, string>)
    requires Covered(fields, conditions) && forall field <- fields :: Word(lib, conditions[field])
    ensures forall field <- fields :: NUL[0] !in conditions[field]
  {
  }

  lemma WordParts(p: Printer, lib: Library, data: Docs, fields: seq<string>, id: string)
    requires IsLive(data, id) && forall field <- fields :: Wordy(lib, data, field)
    ensures PartsNulFree(p, data[id].value, fields)
  {
    hide GetValue;
  }

  /** In which orders a scan yields the documents does not matter. */
  lemma ScanOrders(lib: Library, data: Docs, where: Expr, a: seq<string>, b: seq<string>)
    requires Quiet(lib, data, where) && IsOrder(a, data) && IsOrder(b, data)
    ensures var x, y := Filter(lib, where, DocsOf(data, a)), Filter(lib, where, DocsOf(data, b));
            x.Some? && y.Some? && multiset(x.value) == multiset(y.value)
  {
    hide Evaluate, Filter, DocsOf, Distinct, Quiet;
    RowsOfIds(lib, data, where, a);
    RowsOfIds(lib, data, where, b);
    SameMultiset(Filter(lib, where, DocsOf(data, a)).value, Filter(lib, where, DocsOf(data, b)).value);
  }

  /** The index of a plan is the only one of its name. */
  lemma OneIndex(ixs: seq<Index>, a: Index, b: Index)
    requires WellNamed(ixs) && a in ixs && b in ixs && b.name == IndexName(a.fields)
    ensures a == b
  {
    hide Join;
    var i :| 0 <= i < |ixs| && ixs[i] == a;
    var j :| 0 <= j < |ixs| && ixs[j] == b;
    assert ixs[i].name == IndexName(ixs[i].fields);
    assert !(i < j) && !(j < i);
  }

  /** Whenever an index is fully compared, its fields hold words in every live document and are compared to words. */
  ghost predicate WordsCompared(lib: Library, s: State, where: Expr) {
    forall ix <- s.indexes | Covered(ix.fields, Conditions(where, map[])) ::
      forall field <- ix.fields :: Wordy(lib, s.data, field) && Word(lib, Conditions(where, map[])[field])
  }

  /**
   After any run that leaves every index one leaf and keeps it exact, whatever plan a SELECT chooses, it meets no tombstone and its
   rows are those of a scan, up to their order.
   */
  lemma AnyPlanIsScan(f: Format, lib: Library, ops: seq<Op>, where: Expr, source: Source, ids: seq<string>, order: seq<string>)
    requires AllListed(f, EMPTY, ops) && AllFlat(f, EMPTY, ops) && AllFine(f, NOTHING, ops)
    requires var s := Run(f, EMPTY, ops);
             IsPlan(f, s, where, source, ids) && IsOrder(order, s.data) && Quiet(lib, s.data, where) && WordsCompared(lib, s, where)
    ensures var s := Run(f, EMPTY, ops);
            var plan, scan := Filter(lib, where, DocsOf(s.data, ids)), Filter(lib, where, DocsOf(s.data, order));
            && !(source.ByIndex? && Stuck(s.data, ids))
            && plan.Some? && scan.Some? && multiset(plan.value) == multiset(scan.value)
  {
    hide Run, AllListed, AllFlat, AllFine, Evaluate, Filter, DocsOf, Conditions, Lookup, Quiet, Wordy, Word, IsOrder, Values, Join, WellNamed, Step, ViewRun, ExactIndex;
    var s := Run(f, EMPTY, ops);
    RunSound(f, ops);
    SoundExact(f, s, ViewRun(f, NOTHING, ops));
    assert WellNamed(s.indexes) by { SoundNamed(f, s, ViewRun(f, NOTHING, ops)); }
    if source.Scanned? {
      ScanOrders(lib, s.data, where, ids, order);
    } else {
      var ix :| ix in s.indexes && ix.fields == source.fields;
      NamedAfter(s.indexes, ix);
      var found :| found in s.indexes && found.name == IndexName(source.fields) && ids == Lookup(f, found, source.key);
      OneIndex(s.indexes, ix, found);
      NeverStuck(f, s.data, ix, source.key);
      IndexPlanSound(f, lib, s.data, where, ix, order);
    }
  }

  lemma SoundNamed(f: Format, s: State, v: View)
    requires Sound(f, s, v)
    ensures WellNamed(s.indexes)
  {
    hide WellNamed, Watched, HasName;
  }

  lemma NamedAfter(ixs: seq<Index>, ix: Index)
    requires WellNamed(ixs) && ix in ixs
    ensures HasName(ixs, IndexName(ix.fields))
  {
    hide Join;
    var i :| 0 <= i < |ixs| && ixs[i] == ix;
    assert ixs[i].name == IndexName(ixs[i].fields);
  }

  /** A lookup in an exact index never gives the id of a tombstone. */
  lemma NeverStuck(f: Format, data: Docs, ix: Index, key: string)
    requires ExactIndex(f, data, ix)
    ensures !Stuck(data, Lookup(f, ix, key))
  {
    hide ExactIndex, Lookup, CompositeKey;
    LookupHas(f, data, ix, key);
  }

  /**
   Where the index is not exact the dereference is not safe: after two documents with one word in the field
   have been put and deleted, the later one first, the plan for that word meets two tombstones.
   */
  lemma MeetsTombstones(f: Format, field: string, word: string)
    requires f.inserts.Stacking? && word != ""
    ensures var doc := Document("", [Element(field, Str(word))]);
            var s := Run(f, EMPTY, [CreateIndex([field], []), Put("a", doc), Put("b", doc), Del("b"), Del("a")]);
            var where := Binary(Ident(field), "=", TextLiteral(word));
            IsPlan(f, s, where, ByIndex([field], word), ["a", "b"]) && Stuck(s.data, ["a", "b"])
  {
    var doc := Document("", [Element(field, Str(word))]);
    var ops := [CreateIndex([field], []), Put("a", doc), Put("b", doc), Del("b"), Del("a")];
    assert GetValue(doc.elements, field) == Some(Str(word));
    KeyOfOne(f.printer, field, doc, word);
    hide CompositeKey, Run, Step, Lookup;
    IndexGaps.TombstonesUncovered(f, field, doc);
    OnlyPlan(f, Run(f, EMPTY, ops), field, word, ["a", "b"]);
    assert "a" in ["a", "b"];
  }

  /** The plan for a comparison of a field, where its index is the only one. */
  lemma OnlyPlan(f: Format, s: State, field: string, text: string, ids: seq<string>)
    requires |s.indexes| == 1 && s.indexes[0].fields == [field] && s.indexes[0].name == IndexName([field])
    requires ids == Lookup(f, s.indexes[0], text)
    ensures IsPlan(f, s, Binary(Ident(field), "=", TextLiteral(text)), ByIndex([field], text), ids)
  {
    hide Lookup;
    assert s.indexes == [s.indexes[0]];
    assert [field][1..] == [] && Values([field], map[field := text]) == [text] + [] && [text] + [] == [text];
  }

  // ---------- rows that a plan loses ----------

  /** A document that equals the text without storing it is a row of the scan and not of the plan. */
  lemma RowLost(f: Format, lib: Library, ix: Index, field: string, doc: Document, text: string)
    requires ix.fields == [field] && ExactIndex(f, map[doc.id := Some(doc)], ix)
    requires EqualsText(lib, FieldValue(doc, field), text) == Yes && (text == "" || !Stores(f.printer, doc, field, text))
    ensures var where := Binary(Ident(field), "=", TextLiteral(text));
            var data: Docs := map[doc.id := Some(doc)];
            && Filter(lib, where, DocsOf(data, [doc.id])) == Some([doc])
            && Filter(lib, where, DocsOf(data, Lookup(f, ix, text))) == Some([])
  {
    hide ExactIndex, Lookup, CompositeKey, Stores, EqualsText, FieldValue;
    var where := Binary(Ident(field), "=", TextLiteral(text));
    var data: Docs := map[doc.id := Some(doc)];
    assert Lookup(f, ix, text) != [] ==> Lookup(f, ix, text)[0] in Lookup(f, ix, text);
    LookupHas(f, data, ix, text);
    if text != "" {
      KeyOfOne(f.printer, field, doc, text);
    }
    assert [doc.id][1..] == [] && [doc][1..] == [] && Named(doc, doc.id) == doc;
    assert DocsOf(data, []) == [] && DocsOf(data, [doc.id]) == [doc] + [] == [doc];
    assert Evaluate(lib, where, doc) == Yes;
    assert Filter(lib, where, []) == Some([]) && Filter(lib, where, [doc]) == Some([doc] + []) && [doc] + [] == [doc];
  }

  /** A number compared with another spelling of it is lost. */
  lemma NumbersAreLost(f: Format, lib: Library, ix: Index, field: string, id: string, n: real, text: string)
    requires field != "id" && field != "_id" && ix.fields == [field]
    requires lib.stod(text) == Reads(n) && f.printer.number(n) != text
    requires ExactIndex(f, map[id := Some(Document(id, [Element(field, Num(n))]))], ix)
    ensures var doc := Document(id, [Element(field, Num(n))]);
            var where := Binary(Ident(field), "=", TextLiteral(text));
            && Filter(lib, where, DocsOf(map[id := Some(doc)], [id])) == Some([doc])
            && Filter(lib, where, DocsOf(map[id := Some(doc)], Lookup(f, ix, text))) == Some([])
  {
    hide ExactIndex, Filter, DocsOf, Lookup;
    var doc := Document(id, [Element(field, Num(n))]);
    assert GetValue(doc.elements, field) == Some(Num(n));
    RowLost(f, lib, ix, field, doc, text);
  }

  /** An empty text is compared as equal and never indexed. */
  lemma EmptyTextsAreLost(f: Format, lib: Library, ix: Index, field: string, id: string)
    requires field != "id" && field != "_id" && ix.fields == [field] && lib.stod("") == Rejects
    requires ExactIndex(f, map[id := Some(Document(id, [Element(field, Str(""))]))], ix)
    ensures var doc := Document(id, [Element(field, Str(""))]);
            var where := Binary(Ident(field), "=", TextLiteral(""));
            && Filter(lib, where, DocsOf(map[id := Some(doc)], [id])) == Some([doc])
            && Filter(lib, where, DocsOf(map[id := Some(doc)], Lookup(f, ix, ""))) == Some([])
  {
    hide ExactIndex, Filter, DocsOf, Lookup;
    var doc := Document(id, [Element(field, Str(""))]);
    assert GetValue(doc.elements, field) == Some(Str(""));
    RowLost(f, lib, ix, field, doc, "");
  }
}
