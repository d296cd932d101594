/**
 String indexes (tissdb/storage/indexer.cpp): a tree from composite keys to texts of JSON lists of document ids.
 Indexes are non-unique.
 */
module Indexes {
  import opened Options
  import opened TextOrder
  import opened Documents
  import opened ValueTree
  import J = Json

  /** How numbers are printed, in keys and in JSON, and which trees the indexes are. */
  datatype Format = Format(printer: Printer, doubles: J.Doubles, inserts: Inserts)

  datatype Index = Index(name: string, fields: seq<string>, tree: Tree)

  const NUL: string := [0 as char]

  // ---------- names and keys ----------

  /** The parts with a separator between them. */
  function Join(parts: seq<string>, separator: string): string {
    if parts == [] then "" else if |parts| == 1 then parts[0] else parts[0] + (separator + Join(parts[1..], separator))
  }

  function IndexName(fields: seq<string>): string { Join(fields, "_") }

  /** A field's part of a key; values other than strings, numbers and truth values leave it empty. */
  function KeyPart(v: Value, p: Printer): string {
    match v
    case Str(s) => s
    case Num(n) => p.number(n)
    case Bool(b) => if b then "true" else "false"
    case _ => ""
  }

  /** The parts of a document's key, or `None` if it lacks one of the fields. */
  function KeyParts(p: Printer, fields: seq<string>, doc: Document): Option<seq<string>> {
    if fields == [] then Some([])
    else match GetValue(doc.elements, fields[0])
      case None => None
      case Some(v) =>
        match KeyParts(p, fields[1..], doc)
        case None => None
        case Some(rest) => Some([KeyPart(v, p)] + rest)
  }

  /** `get_composite_key`; the empty key stands for no key. */
  function CompositeKey(p: Printer, fields: seq<string>, doc: Document): string {
    match KeyParts(p, fields, doc)
    case None => ""
    case Some(parts) => Join(parts, NUL)
  }

  // ---------- the list at a key ----------

  /** The list a text holds; an unreadable one counts as empty. */
  function ListIn(f: Format, text: string): seq<J.Json> {
    match J.Parse(f.doubles, text)
    case Some(Array(items)) => items
    case _ => []
  }

  predicate Readable(f: Format, text: string) {
    var v := J.Parse(f.doubles, text);
    v.Some? && v.value.Array?
  }

  /** The search for an id among list items; an item that is not a string throws. */
  datatype Search = Present | Missing | Throws

  function SearchFor(items: seq<J.Json>, id: string): Search {
    if items == [] then Missing
    else if !items[0].Str? then Throws
    else if items[0].text == id then Present
    else SearchFor(items[1..], id)
  }

  function Without(items: seq<J.Json>, id: string): seq<J.Json> {
    if items == [] then [] else (if items[0] == J.Str(id) then [] else [items[0]]) + Without(items[1..], id)
  }

  predicate AllStrings(items: seq<J.Json>) { forall v <- items :: v.Str? }

  /** The ids before the first item that is not a string. */
  function LeadingIds(items: seq<J.Json>): seq<string> {
    if items == [] || !items[0].Str? then [] else [items[0].text] + LeadingIds(items[1..])
  }

  /** The list that is read at a key. */
  function ItemsAt(f: Format, tree: Tree, key: string): seq<J.Json> {
    match Find(tree, key)
    case None => []
    case Some(text) => ListIn(f, text)
  }

  predicate ReadableAt(f: Format, tree: Tree, key: string) {
    Find(tree, key).Some? && Readable(f, Find(tree, key).value)
  }

  // ---------- one index ----------

  /** `update_indexes` for one index; `None` if it throws. */
  function Update(f: Format, ix: Index, id: string, doc: Document): Option<Index> {
    var key := CompositeKey(f.printer, ix.fields, doc);
    if key == "" then Some(ix)
    else
      var items := ItemsAt(f, ix.tree, key);
      match SearchFor(items, id)
      case Throws => None
      case Present => Some(ix)
      case Missing => Some(ix.(tree := Insert(ix.tree, key, J.Show(f.doubles, J.Array(items + [J.Str(id)])))))
  }

  /** `remove_from_indexes` for one index; a list that cannot be read stays. */
  function Remove(f: Format, ix: Index, id: string, doc: Document): Index {
    var key := CompositeKey(f.printer, ix.fields, doc);
    if key == "" || !ReadableAt(f, ix.tree, key) then ix
    else
      var items := ItemsAt(f, ix.tree, key);
      var kept := Without(items, id);
      if !AllStrings(items) || J.Str(id) !in items then ix
      else if kept == [] then ix.(tree := Erase(ix.tree, key))
      else ix.(tree := Insert(ix.tree, key, J.Show(f.doubles, J.Array(kept))))
  }

  /** The ids that `find_by_index` returns for a key. */
  function Lookup(f: Format, ix: Index, key: string): seq<string> {
    LeadingIds(ItemsAt(f, ix.tree, key))
  }

  // ---------- all indexes, in the order of their names ----------

  /** The loop of `update_indexes`; it stops where it throws. */
  function UpdateAll(f: Format, ixs: seq<Index>, id: string, doc: Document): (r: (seq<Index>, bool))
    ensures |r.0| == |ixs|
  {
    if ixs == [] then ([], true)
    else match Update(f, ixs[0], id, doc)
      case None => (ixs, false)
      case Some(ix) => var (rest, ok) := UpdateAll(f, ixs[1..], id, doc); ([ix] + rest, ok)
  }

  function RemoveAll(f: Format, ixs: seq<Index>, id: string, doc: Document): (r: seq<Index>)
    ensures |r| == |ixs|
  {
    if ixs == [] then [] else [Remove(f, ixs[0], id, doc)] + RemoveAll(f, ixs[1..], id, doc)
  }

  /** The indexes without and with one of this name. */
  predicate HasName(ixs: seq<Index>, name: string) { exists ix <- ixs :: ix.name == name }

  function AddIndex(ixs: seq<Index>, ix: Index): seq<Index> {
    if ixs == [] || Less(ix.name, ixs[0].name) then [ix] + ixs else [ixs[0]] + AddIndex(ixs[1..], ix)
  }

  // ---------- collections ----------

  type Docs = map<string, Option<Document>>

  predicate IsLive(data: Docs, id: string) { id in data && data[id].Some? }

  datatype State = State(data: Docs, indexes: seq<Index>)

  const EMPTY: State := State(map[], [])

  datatype Op =
    | Put(id: string, doc: Document)
    | Del(id: string)
    | CreateIndex(fields: seq<string>, order: seq<string>)

  /** `Collection::put`: the old document leaves the indexes, the new one enters them, and then the map. */
  function PutStep(f: Format, s: State, id: string, doc: Document): (State, bool) {
    var cleared := if IsLive(s.data, id) then RemoveAll(f, s.indexes, id, s.data[id].value) else s.indexes;
    var (indexes, ok) := UpdateAll(f, cleared, id, doc);
    if ok then (State(s.data[id := Some(doc)], indexes), true) else (s.(indexes := indexes), false)
  }

  /** `Collection::del` */
  function DelStep(f: Format, s: State, id: string): (State, bool) {
    if !IsLive(s.data, id) then (s, false)
    else (State(s.data[id := None], RemoveAll(f, s.indexes, id, s.data[id].value)), true)
  }

  /**
   The loop of `create_index` over the documents `ids`. The exception for a list item that is not a string is a
   `std::bad_variant_access`, which the handler for `std::runtime_error` lets through.
   */
  function Load(f: Format, data: Docs, ixs: seq<Index>, ids: seq<string>): (r: (seq<Index>, bool))
    ensures |r.0| == |ixs|
    decreases ids
  {
    if ids == [] then (ixs, true)
    else if IsLive(data, ids[0]) then
      var (next, ok) := UpdateAll(f, ixs, ids[0], data[ids[0]].value);
      if ok then Load(f, data, next, ids[1..]) else (next, false)
    else Load(f, data, ixs, ids[1..])
  }

  function CreateStep(f: Format, s: State, fields: seq<string>, ids: seq<string>): (State, bool) {
    var name := IndexName(fields);
    var ixs := if HasName(s.indexes, name) then s.indexes else AddIndex(s.indexes, Index(name, fields, Empty(f.inserts)));
    var (loaded, ok) := Load(f, s.data, ixs, ids);
    (s.(indexes := loaded), ok)
  }

  /** `CreateIndex` says in which order the map yields its keys. */
  function Step(f: Format, s: State, op: Op): State {
    match op
    case Put(id, doc) => PutStep(f, s, id, doc).0
    case Del(id) => DelStep(f, s, id).0
    case CreateIndex(fields, order) => CreateStep(f, s, fields, order).0
  }

  function Run(f: Format, s: State, ops: seq<Op>): State
    decreases ops
  {
    if ops == [] then s else Run(f, Step(f, s, ops[0]), ops[1..])
  }
}
