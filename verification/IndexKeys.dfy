/** What the name of an index and the key of a document are. */
module IndexKeys {
  import opened Options
  import opened TextOrder
  import opened Documents
  import opened Indexes

  /** Parts are joined with a separator between any two. */
  lemma {:induction false} JoinSnoc(parts: seq<string>, last: string, separator: string)
    ensures Join(parts + [last], separator) == if parts == [] then last else Join(parts, separator) + separator + last
  {
    if parts != [] {
      var all := parts + [last];
      assert all[0] == parts[0] && all[1..] == parts[1..] + [last];
      JoinSnoc(parts[1..], last, separator);
    }
  }

  /** An index is named by its fields, with underscores between. */
  lemma NameSnoc(fields: seq<string>, last: string)
    ensures IndexName(fields + [last]) == (if fields == [] then last else IndexName(fields) + "_" + last) && IndexName([]) == ""
  {
    JoinSnoc(fields, last, "_");
  }

  /** What a value puts into a key: a text itself, a number as printed, a truth value by name, and any other value nothing. */
  lemma PartIs(v: Value, p: Printer)
    ensures v.Str? ==> KeyPart(v, p) == v.s
    ensures v.Num? ==> KeyPart(v, p) == p.number(v.n)
    ensures v.Bool? ==> KeyPart(v, p) == if v.b then "true" else "false"
    ensures !v.Str? && !v.Num? && !v.Bool? ==> KeyPart(v, p) == ""
  {
  }

  /** A document has a key only with all the fields, and then their parts make it, with a NUL between any two. */
  lemma {:induction false} KeyIs(p: Printer, fields: seq<string>, doc: Document, parts: seq<string>)
    requires |parts| == |fields|
    requires forall i | 0 <= i < |fields| :: GetValue(doc.elements, fields[i]).Some? && KeyPart(GetValue(doc.elements, fields[i]).value, p) == parts[i]
    ensures CompositeKey(p, fields, doc) == Join(parts, [0 as char])
  {
    PartsAre(p, fields, doc, parts);
    assert NUL == [0 as char];
  }

  lemma {:induction false} PartsAre(p: Printer, fields: seq<string>, doc: Document, parts: seq<string>)
    requires |parts| == |fields|
    requires forall i | 0 <= i < |fields| :: GetValue(doc.elements, fields[i]).Some? && KeyPart(GetValue(doc.elements, fields[i]).value, p) == parts[i]
    ensures KeyParts(p, fields, doc) == Some(parts)
  {
    if fields != [] {
      assert forall i | 0 <= i < |fields[1..]| :: fields[1..][i] == fields[i + 1] && parts[1..][i] == parts[i + 1];
      PartsAre(p, fields[1..], doc, parts[1..]);
      assert parts == [parts[0]] + parts[1..];
    }
  }

  lemma {:induction false} NoKey(p: Printer, fields: seq<string>, doc: Document, i: nat)
    requires i < |fields| && GetValue(doc.elements, fields[i]).None?
    ensures CompositeKey(p, fields, doc) == ""
  {
    NoParts(p, fields, doc, i);
  }

  lemma {:induction false} NoParts(p: Printer, fields: seq<string>, doc: Document, i: nat)
    requires i < |fields| && GetValue(doc.elements, fields[i]).None?
    ensures KeyParts(p, fields, doc).None?
  {
    if i > 0 {
      assert fields[1..][i - 1] == fields[i];
      NoParts(p, fields[1..], doc, i - 1);
    }
  }

  predicate Ascending(ixs: seq<Index>) { forall i, j :: 0 <= i < j < |ixs| ==> Less(ixs[i].name, ixs[j].name) }

  /** Indexes stay in the order of their names. */
  lemma {:induction false} AddIndexAscends(ixs: seq<Index>, ix: Index)
    requires Ascending(ixs) && !HasName(ixs, ix.name)
    ensures Ascending(AddIndex(ixs, ix)) && forall x :: x in AddIndex(ixs, ix) <==> x == ix || x in ixs
  {
    hide Less;
    if ixs != [] {
      var first, rest := ixs[0], ixs[1..];
      assert ixs == [first] + rest && first in ixs;
      assert forall i | 0 <= i < |rest| :: rest[i] == ixs[i + 1];
      LessTotal(ix.name, first.name);
      if Less(ix.name, first.name) {
        forall j | 0 < j < |ixs| ensures Less(ix.name, ixs[j].name) {
          LessTrans(ix.name, first.name, ixs[j].name);
        }
      } else {
        AddIndexAscends(rest, ix);
        var more := AddIndex(rest, ix);
        forall j | 0 <= j < |more| ensures Less(first.name, more[j].name) {
          assert more[j] in more;
        }
      }
    }
  }
}
