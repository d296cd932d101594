/**
 The code of `Indexer` (tissdb/storage/indexer.cpp) for non-unique string indexes, and of the `Collection`
 (tissdb/storage/collection.cpp) that keeps it in step with its documents.
 */
module IndexedCollection {
  import opened Options
  import opened Documents
  import opened ValueTree
  import J = Json
  import JsonCode
  import opened Indexes

  /** Every part followed by a separator. */
  ghost function Open(parts: seq<string>): string {
    if parts == [] then "" else parts[0] + (NUL + Open(parts[1..]))
  }

  lemma {:induction false} JoinOpen(parts: seq<string>, rest: seq<string>)
    requires rest != []
    ensures Join(parts + rest, NUL) == Open(parts) + Join(rest, NUL)
  {
    if parts == [] {
      assert parts + rest == rest;
    } else {
      assert (parts + rest)[0] == parts[0] && (parts + rest)[1..] == parts[1..] + rest;
      JoinOpen(parts[1..], rest);
      assert parts[0] + (NUL + (Open(parts[1..]) + Join(rest, NUL))) == parts[0] + (NUL + Open(parts[1..])) + Join(rest, NUL);
    }
  }

  lemma {:induction false} OpenPush(parts: seq<string>, part: string)
    ensures Open(parts + [part]) == Open(parts) + part + NUL
  {
    if parts == [] {
      assert [part][1..] == [] && parts + [part] == [part];
      assert part + (NUL + "") == "" + part + NUL;
    } else {
      assert (parts + [part])[0] == parts[0] && (parts + [part])[1..] == parts[1..] + [part];
      OpenPush(parts[1..], part);
      assert parts[0] + (NUL + (Open(parts[1..]) + part + NUL)) == parts[0] + (NUL + Open(parts[1..])) + part + NUL;
    }
  }

  ghost function Continued(parts: seq<string>, rest: Option<seq<string>>): Option<seq<string>> {
    match rest
    case None => None
    case Some(r) => Some(parts + r)
  }

  lemma StartKey(p: Printer, fields: seq<string>, doc: Document)
    ensures KeyParts(p, fields, doc) == Continued([], KeyParts(p, fields, doc))
    ensures Open([]) == "" && Join([], NUL) == ""
  {
    hide KeyPart, GetValue;
    var r := KeyParts(p, fields, doc);
    assert r.Some? ==> [] + r.value == r.value;
  }

  lemma KeyStep(p: Printer, fields: seq<string>, doc: Document)
    requires fields != []
    ensures KeyParts(p, fields, doc) ==
      match GetValue(doc.elements, fields[0])
      case None => None
      case Some(v) => Continued([KeyPart(v, p)], KeyParts(p, fields[1..], doc))
  {
    hide KeyPart, GetValue;
  }

  lemma JoinOne(part: string)
    ensures Join([part], NUL) == part
  {
  }

  /** `get_composite_key` */
  method GetCompositeKey(p: Printer, fields: seq<string>, doc: Document) returns (key: string)
    ensures key == CompositeKey(p, fields, doc)
  {
    hide KeyPart, GetValue, Open, Join;
    key := "";
    ghost var parts: seq<string> := [];
    assert fields[0..] == fields;
    StartKey(p, fields, doc);
    for i := 0 to |fields|
      invariant KeyParts(p, fields, doc) == Continued(parts, KeyParts(p, fields[i..], doc))
      invariant key == if i < |fields| then Open(parts) else Join(parts, NUL)
    {
      KeyStep(p, fields[i..], doc);
      assert fields[i..][0] == fields[i] && fields[i..][1..] == fields[i + 1..];
      var v := GetValueByKey(doc, fields[i]);
      if v.None? {
        return "";
      }
      var part := KeyPart(v.value, p);
      key := key + part;
      if i < |fields| - 1 {
        key := key + NUL;
      }
      OpenPush(parts, part);
      JoinOpen(parts, [part]);
      assert Join([part], NUL) == part by { JoinOne(part); }
      ghost var rest := KeyParts(p, fields[i + 1..], doc);
      assert rest.Some? ==> parts + ([part] + rest.value) == parts + [part] + rest.value;
      parts := parts + [part];
    }
    assert fields[|fields|..] == [] && parts + [] == parts;
  }

  /** The result of a loop that has passed `done` already. */
  ghost function After(done: seq<Index>, rest: (seq<Index>, bool)): (seq<Index>, bool) { (done + rest.0, rest.1) }

  /** One turn: the index is updated and the rest goes on, or the loop throws. */
  lemma NextUpdate(f: Format, ixs: seq<Index>, i: nat, id: string, doc: Document, done: seq<Index>)
    requires i < |ixs|
    ensures After(done, UpdateAll(f, ixs[i..], id, doc)) ==
      match Update(f, ixs[i], id, doc)
      case None => (done + ixs[i..], false)
      case Some(ix) => After(done + [ix], UpdateAll(f, ixs[i + 1..], id, doc))
  {
    hide Update;
    assert ixs[i..][0] == ixs[i] && ixs[i..][1..] == ixs[i + 1..];
    var r := Update(f, ixs[i], id, doc);
    if r.Some? {
      var rest := UpdateAll(f, ixs[i + 1..], id, doc).0;
      assert done + ([r.value] + rest) == done + [r.value] + rest;
    }
  }

  lemma EndUpdates(f: Format, ixs: seq<Index>, id: string, doc: Document, done: seq<Index>)
    ensures After(done, UpdateAll(f, ixs[|ixs|..], id, doc)) == (done, true) && done + ixs[|ixs|..] == done
  {
    assert ixs[|ixs|..] == [];
    assert UpdateAll(f, [], id, doc) == ([], true);
    assert done + [] == done;
  }

  lemma StartUpdates(f: Format, ixs: seq<Index>, id: string, doc: Document)
    ensures After([], UpdateAll(f, ixs, id, doc)) == UpdateAll(f, ixs, id, doc)
  {
    hide UpdateAll;
    assert [] + UpdateAll(f, ixs, id, doc).0 == UpdateAll(f, ixs, id, doc).0;
  }

  class Indexer {
    /** In the order of their names, as a `std::map` keeps them. */
    var indexes: seq<Index>
    const format: Format

    constructor (format: Format)
      ensures indexes == [] && this.format == format
    {
      this.format, indexes := format, [];
    }

    /** `create_index` for a non-unique string index; an index of that name is left alone. */
    method CreateIndex(fields: seq<string>)
      modifies this
      ensures var name := IndexName(fields);
              indexes == if HasName(old(indexes), name) then old(indexes) else AddIndex(old(indexes), Index(name, fields, Empty(format.inserts)))
    {
      var name := GetIndexName(fields);
      if exists ix <- indexes :: ix.name == name {
        return;
      }
      indexes := AddIndex(indexes, Index(name, fields, Empty(format.inserts)));
    }

    /** The ids at a key, found in its text. */
    method Items(tree: Tree, key: string) returns (items: seq<J.Json>, readable: bool)
      ensures readable == ReadableAt(format, tree, key)
      ensures items == ItemsAt(format, tree, key)
    {
      var text := Find(tree, key);
      if text.None? {
        return [], false;
      }
      var v := JsonCode.ParseText(format.doubles, text.value);
      if v.Some? && v.value.Array? {
        return v.value.items, true;
      }
      return [], false;
    }

    method UpdateIndexes(id: string, doc: Document) returns (ok: bool)
      modifies this
      ensures (indexes, ok) == UpdateAll(format, old(indexes), id, doc)
    {
      hide Update, UpdateAll, After;
      var before, done := indexes, [];
      assert before[0..] == before && [] + before == before;
      StartUpdates(format, before, id, doc);
      for i := 0 to |before|
        invariant |done| == i && indexes == done + before[i..]
        invariant UpdateAll(format, before, id, doc) == After(done, UpdateAll(format, before[i..], id, doc))
      {
        NextUpdate(format, before, i, id, doc, done);
        var r := UpdateOne(before[i], id, doc);
        if r.None? {
          return false;
        }
        done := done + [r.value];
        indexes := done + before[i + 1..];
      }
      EndUpdates(format, before, id, doc, done);
      return true;
    }

    /** One turn of the loop. */
    method UpdateOne(ix: Index, id: string, doc: Document) returns (r: Option<Index>)
      ensures r == Update(format, ix, id, doc)
    {
      var key := GetCompositeKey(format.printer, ix.fields, doc);
      if key == "" {
        return Some(ix);
      }
      var items, _ := Items(ix.tree, key);
      var i := 0;
      while i < |items|
        invariant i <= |items| && SearchFor(items, id) == SearchFor(items[i..], id)
      {
        assert items[i..][0] == items[i] && items[i..][1..] == items[i + 1..];
        if !items[i].Str? {
          return None;
        }
        if items[i].text == id {
          return Some(ix);
        }
        i := i + 1;
      }
      assert items[i..] == [];
      var text := JsonCode.Serialize(format.doubles, J.Array(items + [J.Str(id)]));
      return Some(ix.(tree := Insert(ix.tree, key, text)));
    }

    method RemoveFromIndexes(id: string, doc: Document)
      modifies this
      ensures indexes == RemoveAll(format, old(indexes), id, doc)
    {
      hide Remove;
      var before, done := indexes, [];
      assert before[0..] == before && [] + before == before;
      assert [] + RemoveAll(format, before, id, doc) == RemoveAll(format, before, id, doc);
      for i := 0 to |before|
        invariant |done| == i && indexes == done + before[i..]
        invariant RemoveAll(format, before, id, doc) == done + RemoveAll(format, before[i..], id, doc)
      {
        assert before[i..][0] == before[i] && before[i..][1..] == before[i + 1..];
        var r := RemoveOne(before[i], id, doc);
        ghost var rest := RemoveAll(format, before[i + 1..], id, doc);
        assert done + ([r] + rest) == done + [r] + rest;
        done := done + [r];
        indexes := done + before[i + 1..];
      }
      assert before[|before|..] == [] && done + [] == done;
    }

    method RemoveOne(ix: Index, id: string, doc: Document) returns (r: Index)
      ensures r == Remove(format, ix, id, doc)
    {
      var key := GetCompositeKey(format.printer, ix.fields, doc);
      if key == "" {
        return ix;
      }
      var items, readable := Items(ix.tree, key);
      if !readable {
        return ix;
      }
      var kept, found, strings := KeepOthers(items, id);
      if !strings || !found {
        return ix;
      }
      if kept == [] {
        return ix.(tree := Erase(ix.tree, key));
      }
      var text := JsonCode.Serialize(format.doubles, J.Array(kept));
      return ix.(tree := Insert(ix.tree, key, text));
    }

    /** The other ids of a list; an item that is not a string is an exception. */
    method KeepOthers(items: seq<J.Json>, id: string) returns (kept: seq<J.Json>, found: bool, strings: bool)
      ensures strings == AllStrings(items)
      ensures strings ==> kept == Without(items, id) && found == (J.Str(id) in items)
    {
      kept, found := [], false;
      for i := 0 to |items|
        invariant kept + Without(items[i..], id) == Without(items, id)
        invariant forall k | 0 <= k < i :: items[k].Str?
        invariant found <==> exists k :: 0 <= k < i && items[k] == J.Str(id)
      {
        assert items[i..][0] == items[i] && items[i..][1..] == items[i + 1..];
        if !items[i].Str? {
          assert items[i] in items;
          return kept, found, false;
        }
        ghost var rest := Without(items[i + 1..], id);
        if items[i].text != id {
          assert kept + ([items[i]] + rest) == kept + [items[i]] + rest;
          kept := kept + [items[i]];
        } else {
          assert kept + ([] + rest) == kept + rest;
          found := true;
        }
      }
      assert items[|items|..] == [] && kept + [] == kept;
      return kept, found, true;
    }

    /** `find_by_index` with one string for every field. */
    method FindByIndex(fields: seq<string>, values: seq<string>) returns (ids: seq<string>)
      ensures |fields| != |values| || !HasName(indexes, IndexName(fields)) ==> ids == []
      ensures |fields| == |values| && HasName(indexes, IndexName(fields)) ==>
        exists ix <- indexes :: ix.name == IndexName(fields) && ids == Lookup(format, ix, Join(values, NUL))
    {
      hide ItemsAt, LeadingIds, Join, ReadableAt;
      if |fields| != |values| {
        return [];
      }
      var name := GetIndexName(fields);
      var i := 0;
      while i < |indexes| && indexes[i].name != name
        invariant i <= |indexes| && forall k | 0 <= k < i :: indexes[k].name != name
      {
        i := i + 1;
      }
      if i == |indexes| {
        return [];
      }
      var items, _ := Items(indexes[i].tree, Join(values, NUL));
      ids := Leading(items);
      assert indexes[i] in indexes;
    }

    /** The ids up to the first item that is not a string. */
    method Leading(items: seq<J.Json>) returns (ids: seq<string>)
      ensures ids == LeadingIds(items)
    {
      ids := [];
      var k := 0;
      while k < |items| && items[k].Str?
        invariant k <= |items| && ids + LeadingIds(items[k..]) == LeadingIds(items)
      {
        assert items[k..][0] == items[k] && items[k..][1..] == items[k + 1..];
        ids := ids + [items[k].text];
        k := k + 1;
      }
      assert k < |items| ==> items[k..][0] == items[k];
      assert ids + [] == ids;
    }
  }

  /** `get_index_name` */
  method GetIndexName(fields: seq<string>) returns (name: string)
    ensures name == IndexName(fields)
  {
    name := "";
    for i := 0 to |fields|
      invariant name + (if i < |fields| then Join(fields[i..], "_") else "") == IndexName(fields)
    {
      var before := name;
      name := name + fields[i];
      if i < |fields| - 1 {
        name := name + "_";
        assert fields[i..][0] == fields[i] && fields[i..][1..] == fields[i + 1..];
        assert before + (fields[i] + ("_" + Join(fields[i + 1..], "_"))) == name + Join(fields[i + 1..], "_");
      } else {
        assert fields[i..] == [fields[i]];
      }
    }
  }

  /** Every key of the map, once. */
  ghost predicate IsOrder(order: seq<string>, data: Docs) {
    (forall id :: id in order <==> id in data) && forall i, j :: 0 <= i < j < |order| ==> order[i] != order[j]
  }

  /** The live documents among the ids, under their keys' names. */
  function DocsOf(data: Docs, ids: seq<string>): seq<Document> {
    if ids == [] then [] else OneDoc(data, ids[0]) + DocsOf(data, ids[1..])
  }

  function OneDoc(data: Docs, id: string): seq<Document> {
    if IsLive(data, id) then [Named(data[id].value, id)] else []
  }

  function Named(doc: Document, id: string): Document { doc.(id := id) }

  lemma MoreDocs(docs: seq<Document>, data: Docs, ids: seq<string>, i: nat)
    requires i < |ids|
    ensures docs + DocsOf(data, ids[i..]) == docs + OneDoc(data, ids[i]) + DocsOf(data, ids[i + 1..])
  {
    hide OneDoc;
    assert ids[i..][0] == ids[i] && ids[i..][1..] == ids[i + 1..];
    assert docs + (OneDoc(data, ids[i]) + DocsOf(data, ids[i + 1..])) == docs + OneDoc(data, ids[i]) + DocsOf(data, ids[i + 1..]);
  }

  lemma NoDocs(docs: seq<Document>, data: Docs)
    ensures docs + DocsOf(data, []) == docs && forall id :: !IsLive(data, id) ==> docs + OneDoc(data, id) == docs
  {
  }

  lemma AllDocs(data: Docs, ids: seq<string>)
    ensures [] + DocsOf(data, ids) == DocsOf(data, ids)
  {
  }

  class Collection {
    var data: Docs
    const indexer: Indexer

    ghost function Now(): State
      reads this, indexer
    {
      State(data, indexer.indexes)
    }

    constructor (format: Format)
      ensures Now() == EMPTY && indexer.format == format && fresh(indexer)
    {
      data := map[];
      indexer := new Indexer(format);
    }

    method Put(id: string, doc: Document) returns (ok: bool)
      modifies this, indexer
      ensures (Now(), ok) == PutStep(indexer.format, old(Now()), id, doc)
    {
      hide UpdateAll, RemoveAll;
      if id in data && data[id].Some? {
        indexer.RemoveFromIndexes(id, data[id].value);
      }
      ok := indexer.UpdateIndexes(id, doc);
      if ok {
        data := data[id := Some(doc)];
      }
    }

    method Del(id: string) returns (ok: bool)
      modifies this, indexer
      ensures (Now(), ok) == DelStep(indexer.format, old(Now()), id)
    {
      hide RemoveAll;
      if id !in data || data[id].None? {
        return false;
      }
      indexer.RemoveFromIndexes(id, data[id].value);
      data := data[id := None];
      return true;
    }

    /** `create_index`, which loads what is there; `order` is how the map yielded its keys. */
    method CreateIndex(fields: seq<string>) returns (ok: bool, ghost order: seq<string>)
      modifies this, indexer
      ensures IsOrder(order, data) && (Now(), ok) == CreateStep(indexer.format, old(Now()), fields, order)
    {
      hide UpdateAll, RemoveAll;
      indexer.CreateIndex(fields);
      ghost var ixs := indexer.indexes;
      var keys := Keys();
      order := keys;
      for i := 0 to |keys|
        invariant data == old(data)
        invariant Load(indexer.format, data, indexer.indexes, keys[i..]) == Load(indexer.format, data, ixs, keys)
      {
        assert keys[i..][0] == keys[i] && keys[i..][1..] == keys[i + 1..];
        if data[keys[i]].Some? {
          ok := indexer.UpdateIndexes(keys[i], data[keys[i]].value);
          if !ok {
            return false, order;
          }
        }
      }
      assert keys[|keys|..] == [];
      ok := true;
    }

    /** The keys of the map. */
    method Keys() returns (keys: seq<string>)
      ensures IsOrder(keys, data)
    {
      keys := [];
      var left := data.Keys;
      while left != {}
        invariant left <= data.Keys
        invariant forall id :: id in keys <==> id in data && id !in left
        invariant forall i, j :: 0 <= i < j < |keys| ==> keys[i] != keys[j]
      {
        var id :| id in left;
        keys := keys + [id];
        left := left - {id};
      }
    }

    /** `get`; no document and a tombstone are told apart. */
    method Get(id: string) returns (doc: Option<Option<Document>>)
      ensures doc == if id !in data then None else if data[id].None? then Some(None) else Some(Some(Named(data[id].value, id)))
    {
      if id !in data {
        return None;
      }
      match data[id]
      case None => doc := Some(None);
      case Some(d) => doc := Some(Some(Named(d, id)));
    }

    /** `scan`; the order of the keys is the map's. */
    method Scan() returns (docs: seq<Document>)
      ensures exists order :: IsOrder(order, data) && docs == DocsOf(data, order)
    {
      hide DocsOf, Named;
      var keys := Keys();
      docs := [];
      assert keys[0..] == keys;
      AllDocs(data, keys);
      for i := 0 to |keys|
        invariant docs + DocsOf(data, keys[i..]) == DocsOf(data, keys)
      {
        MoreDocs(docs, data, keys, i);
        NoDocs(docs, data);
        match data[keys[i]] {
          case Some(doc) => docs := docs + [Named(doc, keys[i])];
          case None =>
        }
      }
      assert keys[|keys|..] == [];
      NoDocs(docs, data);
      assert IsOrder(keys, data) && docs == DocsOf(data, keys);
    }
  }
}
