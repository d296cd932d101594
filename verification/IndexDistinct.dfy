/** Documents with distinct keys: an index of them is exact while its tree has two levels. */
module IndexDistinct {
  import opened Options
  import opened Documents
  import opened ValueTree
  import T = TwoLevelLaws
  import J = Json
  import JL = JsonLaws
  import opened Indexes
  import opened IndexLists
  import opened IndexSteps
  import opened IndexLaws
  import G = IndexGaps

  datatype Item = Item(id: string, doc: Document)

  function PutsOf(items: seq<Item>): seq<Op> {
    if items == [] then [] else PutsOf(items[..|items| - 1]) + [Put(items[|items| - 1].id, items[|items| - 1].doc)]
  }

  function Calls(fields: seq<string>, items: seq<Item>): seq<Op> { [CreateIndex(fields, [])] + PutsOf(items) }

  function KeyOf(f: Format, fields: seq<string>, item: Item): string { CompositeKey(f.printer, fields, item.doc) }

  /** Ids are plain and distinct, and every document has a key of its own. */
  ghost predicate OwnKeys(f: Format, fields: seq<string>, items: seq<Item>) {
    && (forall i | 0 <= i < |items| :: JL.Plain(items[i].id) && KeyOf(f, fields, items[i]) != "")
    && forall i, j :: 0 <= i < j < |items| ==> items[i].id != items[j].id && KeyOf(f, fields, items[i]) != KeyOf(f, fields, items[j])
  }

  /** Every key with the text of the list of its one id. */
  ghost function EntriesOf(f: Format, fields: seq<string>, items: seq<Item>): Entries {
    seq(|items|, i requires 0 <= i < |items| => Entry(KeyOf(f, fields, items[i]), ListText(f, [items[i].id])))
  }

  /** One index, whose tree has had these entries inserted, and these documents. */
  ghost predicate Filled(f: Format, s: State, fields: seq<string>, items: seq<Item>) {
    && |s.indexes| == 1 && s.indexes[0].fields == fields
    && s.indexes[0].tree == T.InsertAll(OneLeaf([]), EntriesOf(f, fields, items))
    && DataOf(s.data, items)
  }

  ghost predicate DataOf(data: Docs, items: seq<Item>) {
    && (forall id <- data :: exists i :: 0 <= i < |items| && items[i].id == id)
    && forall i | 0 <= i < |items| :: items[i].id in data && data[items[i].id] == Some(items[i].doc)
  }

  lemma EntriesDistinct(f: Format, fields: seq<string>, items: seq<Item>)
    requires OwnKeys(f, fields, items)
    ensures T.Distinct(EntriesOf(f, fields, items))
  {
    hide KeyOf, ListText, JL.Plain;
  }

  /** The first document under a key gets a list of its own. */
  lemma FirstList(f: Format, ix: Index, id: string, doc: Document, key: string)
    requires key == CompositeKey(f.printer, ix.fields, doc) && key != "" && Find(ix.tree, key) == None
    ensures Update(f, ix, id, doc) == Some(ix.(tree := Insert(ix.tree, key, ListText(f, [id]))))
  {
    hide J.Show, CompositeKey, Insert, Find;
    JL.OneString(id);
    assert [] + [J.Str(id)] == [J.Str(id)];
  }

  lemma FillNext(f: Format, s: State, fields: seq<string>, items: seq<Item>, n: nat)
    requires OwnKeys(f, fields, items) && n < |items| <= T.TWO_LEVELS && Filled(f, s, fields, items[..n])
    ensures Filled(f, Step(f, s, Put(items[n].id, items[n].doc)), fields, items[..n + 1])
  {
    hide ListText, CompositeKey, Update, Insert, DataOf, OwnKeys, EntriesOf, T.InsertAll;
    var ix, id, doc := s.indexes[0], items[n].id, items[n].doc;
    KeyUnfound(f, fields, items, n);
    FirstList(f, ix, id, doc, KeyOf(f, fields, items[n]));
    FreshId(f, fields, s.data, items, n);
    assert s.indexes == [ix] && [ix][1..] == [] && UpdateAll(f, [], id, doc) == ([], true);
    assert Step(f, s, Put(id, doc)).indexes == [Update(f, ix, id, doc).value] + [];
    MoreEntries(f, fields, items, n);
    assert items[..n + 1] == items[..n] + [items[n]];
    MoreData(s.data, items[..n], items[n]);
  }

  /** The next document's key is not in the tree yet. */
  lemma KeyUnfound(f: Format, fields: seq<string>, items: seq<Item>, n: nat)
    requires OwnKeys(f, fields, items) && n < |items| <= T.TWO_LEVELS
    ensures var key := KeyOf(f, fields, items[n]);
            key != "" && Find(T.InsertAll(OneLeaf([]), EntriesOf(f, fields, items[..n])), key) == None
  {
    hide ListText, KeyOf, Insert, Find, JL.Plain, T.InsertAll, T.Distinct;
    var es, key := EntriesOf(f, fields, items[..n]), KeyOf(f, fields, items[n]);
    EntriesDistinct(f, fields, items[..n]);
    T.DistinctFit(es);
    forall e | e in es ensures e.key != key {
      var i :| 0 <= i < n && es[i] == e;
      assert items[..n][i] == items[i];
    }
    T.DistinctFound(es, key);
  }

  lemma MoreEntries(f: Format, fields: seq<string>, items: seq<Item>, n: nat)
    requires n < |items|
    ensures var last := Entry(KeyOf(f, fields, items[n]), ListText(f, [items[n].id]));
            T.InsertAll(OneLeaf([]), EntriesOf(f, fields, items[..n + 1])) ==
            Insert(T.InsertAll(OneLeaf([]), EntriesOf(f, fields, items[..n])), last.key, last.value)
  {
    hide ListText, KeyOf, Insert;
    var es := EntriesOf(f, fields, items[..n + 1]);
    assert es[..n] == EntriesOf(f, fields, items[..n]);
  }

  lemma FreshId(f: Format, fields: seq<string>, data: Docs, items: seq<Item>, n: nat)
    requires OwnKeys(f, fields, items) && n < |items| && DataOf(data, items[..n])
    ensures items[n].id !in data
  {
    hide JL.Plain, KeyOf;
    forall id | id in data ensures id != items[n].id {
      var i :| 0 <= i < n && items[..n][i].id == id;
      assert items[i].id == id;
    }
  }

  lemma MoreData(data: Docs, items: seq<Item>, last: Item)
    requires DataOf(data, items) && last.id !in data
    ensures DataOf(data[last.id := Some(last.doc)], items + [last])
  {
    var data', more := data[last.id := Some(last.doc)], items + [last];
    forall id | id in data' ensures exists i :: 0 <= i < |more| && more[i].id == id {
      if id == last.id {
        assert more[|items|].id == id;
      } else {
        var i :| 0 <= i < |items| && items[i].id == id;
        assert more[i].id == id;
      }
    }
  }

  lemma CallsNext(fields: seq<string>, items: seq<Item>, n: nat)
    requires n < |items|
    ensures Calls(fields, items[..n + 1]) == Calls(fields, items[..n]) + [Put(items[n].id, items[n].doc)]
  {
    assert items[..n + 1][..n] == items[..n] && items[..n + 1][n] == items[n];
    var first, put := [CreateIndex(fields, [])], [Put(items[n].id, items[n].doc)];
    assert first + (PutsOf(items[..n]) + put) == first + PutsOf(items[..n]) + put;
  }

  lemma Created(f: Format, fields: seq<string>, items: seq<Item>)
    requires f.inserts.Stacking?
    ensures Filled(f, Run(f, EMPTY, Calls(fields, items[..0])), fields, items[..0])
  {
    var op := CreateIndex(fields, []);
    assert items[..0] == [] && Calls(fields, []) == [op] && [op][1..] == [];
    assert Run(f, EMPTY, [op]) == Run(f, Step(f, EMPTY, op), []) == Step(f, EMPTY, op);
    assert AddIndex([], Index(IndexName(fields), fields, Empty(Stacking))) == [Index(IndexName(fields), fields, Empty(Stacking))] + [];
    assert EntriesOf(f, fields, []) == [];
  }

  lemma {:induction false} FillAll(f: Format, fields: seq<string>, items: seq<Item>, n: nat)
    requires f.inserts.Stacking? && OwnKeys(f, fields, items) && n <= |items| <= T.TWO_LEVELS
    ensures Filled(f, Run(f, EMPTY, Calls(fields, items[..n])), fields, items[..n])
    decreases n
  {
    hide Filled, Step, OwnKeys, Calls;
    if n == 0 {
      Created(f, fields, items);
    } else {
      FillAll(f, fields, items, n - 1);
      CallsNext(fields, items, n - 1);
      G.RunAppend(f, EMPTY, Calls(fields, items[..n - 1]), Put(items[n - 1].id, items[n - 1].doc));
      FillNext(f, Run(f, EMPTY, Calls(fields, items[..n - 1])), fields, items, n - 1);
    }
  }

  lemma FilledExact(f: Format, s: State, fields: seq<string>, items: seq<Item>, key: string)
    requires OwnKeys(f, fields, items) && |items| <= T.TWO_LEVELS && Filled(f, s, fields, items) && key != ""
    ensures ExactAt(f, s.data, s.indexes[0], key)
  {
    hide ListText, CompositeKey, JL.Plain, T.InsertAll, T.Distinct, ItemsAt, LeadingIds;
    var ix, es := s.indexes[0], EntriesOf(f, fields, items);
    EntriesDistinct(f, fields, items);
    T.DistinctFit(es);
    T.DistinctFound(es, key);
    if i :| 0 <= i < |items| && KeyOf(f, fields, items[i]) == key {
      var id := items[i].id;
      assert es[i] == Entry(key, ListText(f, [id])) && es[i] in es;
      G.LookupText(f, ix, key, [id]);
      assert IsLive(s.data, id) && HasKey(f.printer, fields, s.data, id, key);
      forall x ensures x in Lookup(f, ix, key) <==> HasKey(f.printer, ix.fields, s.data, x, key) {
        if HasKey(f.printer, ix.fields, s.data, x, key) {
          var j :| 0 <= j < |items| && items[j].id == x;
          assert KeyOf(f, fields, items[j]) == key;
          assert j == i;
        }
      }
    } else {
      forall e | e in es ensures e.key != key {
      }
      NothingFound(f, ix, key);
      forall x | x in s.data ensures !HasKey(f.printer, ix.fields, s.data, x, key) {
        var j :| 0 <= j < |items| && items[j].id == x;
        assert KeyOf(f, fields, items[j]) != key;
      }
    }
  }

  lemma NothingFound(f: Format, ix: Index, key: string)
    requires Find(ix.tree, key) == None
    ensures Lookup(f, ix, key) == []
  {
  }

  /**
   Documents put into a collection with an index, each with a key of its own and a plain id, at most 199 of them:
   every lookup gives exactly the live documents, though the tree has outgrown a leaf.
   */
  lemma DistinctKeysExact(f: Format, fields: seq<string>, items: seq<Item>, key: string)
    requires f.inserts.Stacking? && OwnKeys(f, fields, items) && |items| <= T.TWO_LEVELS && key != ""
    ensures var s := Run(f, EMPTY, Calls(fields, items)); |s.indexes| == 1 && ExactAt(f, s.data, s.indexes[0], key)
  {
    hide Run, OwnKeys, ExactAt, Calls;
    FillAll(f, fields, items, |items|);
    assert items[..|items|] == items;
    FilledExact(f, Run(f, EMPTY, Calls(fields, items)), fields, items, key);
  }
}
