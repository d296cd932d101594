/**
 The code of the store: `Collection` (tissdb/storage/collection.cpp, without schema and indexes) and
 `LSMTree` with its transaction manager (tissdb/storage/lsm_tree.cpp, transaction_manager.cpp). Every
 method takes the step of `Store` that its contract names. `IndexedCollection` models the same class with its
 indexes, over the documents of queries.
 */
module Database {
  import opened Options
  import opened Bytes
  import opened Codec
  import opened Wal
  import opened Store
  import W = WriteAheadLog

  class Collection {
    var data: Docs

    constructor ()
      ensures data == map[]
    {
      data := map[];
    }

    method Put(key: Text, doc: Document)
      modifies this
      ensures data == PutDoc(old(data), key, doc)
    {
      data := data[key := Some(doc)];
    }

    method Del(key: Text) returns (ok: bool)
      modifies this
      ensures data == DelDoc(old(data), key) && ok == IsLive(old(data), key)
    {
      if key !in data || data[key].None? {
        return false;
      }
      data := data[key := None];
      return true;
    }

    method Get(key: Text) returns (l: Lookup)
      ensures l == GetDoc(data, key)
    {
      if key !in data {
        return Absent;
      }
      match data[key]
      case None => l := Tombstone;
      case Some(doc) => l := Found(doc.(id := key));
    }
  }

  lemma {:induction false} LogAppend(es: seq<LogEntry>, e: LogEntry)
    ensures Log(es + [e]) == Log(es) + Record(e)
  {
    hide Record;
    if es == [] {
      assert (es + [e])[0] == e && (es + [e])[1..] == [];
    } else {
      assert (es + [e])[0] == es[0] && (es + [e])[1..] == es[1..] + [e];
      LogAppend(es[1..], e);
    }
  }

  /** Nothing but the documents. */
  predicate OnlyDb(s: State, t: State, db: Db) { t == s.(db := db) }

  class LsmTree {
    var collections: map<Text, Collection>
    var transactions: map<int, seq<Operation>>
    var next: int
    const wal: W.WriteAheadLog

    /** The log file when the store was opened, and what has been appended since. */
    ghost const base: seq<Byte>
    ghost var log: seq<LogEntry>
    ghost var past: seq<Db>

    ghost function Repr(): set<object>
      reads this
    {
      {this, wal, wal.kms} + collections.Values
    }

    ghost predicate Valid()
      reads this, Repr()
    {
      && wal.Valid()
      && wal.file == base + Log(log)
      && forall a, b | a in collections && b in collections && a != b :: collections[a] != collections[b]
    }

    ghost function DbNow(): Db
      reads this`collections, collections.Values
    {
      map c <- collections :: collections[c].data
    }

    ghost function Now(): State
      reads this, collections.Values
    {
      State(DbNow(), transactions, next, log, past)
    }

    /** An empty store over a log file, before `recover`. */
    constructor (file: seq<Byte>)
      ensures Valid() && base == file && fresh(Repr())
      ensures Now() == EMPTY
    {
      collections, transactions, next := map[], map[], 1;
      wal := new W.WriteAheadLog(file);
      base, log, past := file, [], [map[]];
      new;
      assert base + Log([]) == base;
      assert DbNow() == map[];
    }

    /** The same over a file that is known to hold the records of `es`; `past` is told of the writes that made them. */
    constructor Over(file: seq<Byte>, ghost es: seq<LogEntry>, ghost past: seq<Db>)
      requires file == Log(es)
      ensures Valid() && base == [] && fresh(Repr())
      ensures Now() == State(map[], map[], 1, es, past)
    {
      collections, transactions, next := map[], map[], 1;
      wal := new W.WriteAheadLog(file);
      base, log, this.past := [], es, past;
      new;
      assert [] + Log(es) == Log(es);
      assert DbNow() == map[];
    }

    /** The log write that comes before a change of the documents to `db`. */
    method Append(e: LogEntry, ghost db: Db)
      requires Valid()
      modifies wal, wal.kms, this`log, this`past
      ensures Valid() && log == old(log) + [e] && past == old(past) + [db]
    {
      hide Record, Log;
      wal.Append(e);
      LogAppend(log, e);
      assert base + Log(log) + Record(e) == base + (Log(log) + Record(e));
      log := log + [e];
      past := past + [db];
    }

    // ---------- collections ----------

    method CreateCollection(name: Text, isRecovery: bool) returns (r: Reply)
      requires Valid()
      modifies this, wal, wal.kms
      ensures Valid() && fresh(Repr() - old(Repr()))
      ensures !isRecovery ==> (Now(), r) == Step(old(Now()), Create(name))
      ensures isRecovery ==> OnlyDb(old(Now()), Now(), if name in old(DbNow()) then old(DbNow()) else old(DbNow())[name := map[]])
    {
      hide Log, CommitAll;
      if name in collections {
        return Threw;
      }
      ghost var db: Db := old(DbNow())[name := map[]];
      if !isRecovery {
        Append(CreateEntry(name), db);
      }
      Register(name);
      return Answer(true);
    }

    /** A new, empty collection under a free name. */
    method Register(name: Text)
      requires Valid() && name !in collections
      modifies this`collections
      ensures Valid() && fresh(Repr() - old(Repr()))
      ensures DbNow() == old(DbNow())[name := map[]]
    {
      hide Log;
      var collection := new Collection();
      collections := collections[name := collection];
    }

    method DeleteCollection(name: Text) returns (r: Reply)
      requires Valid()
      modifies this, wal, wal.kms
      ensures Valid() && Repr() <= old(Repr())
      ensures (Now(), r) == Step(old(Now()), Drop(name))
    {
      hide Log, CommitAll;
      if name !in collections {
        return Threw;
      }
      ghost var db: Db := DbNow() - {name};
      Append(DropEntry(name), db);
      collections := collections - {name};
      assert DbNow() == db;
      return Answer(true);
    }

    // ---------- documents ----------

    method Put(c: Text, key: Text, doc: Document, tid: int, isRecovery: bool) returns (r: Reply)
      requires Valid()
      modifies Repr()
      ensures Valid() && collections == old(collections)
      ensures tid != -1 ==> (Now(), r) == Step(old(Now()), TxPut(tid, c, key, doc))
      ensures tid == -1 && !isRecovery ==> (Now(), r) == Step(old(Now()), Store.Put(c, key, doc))
      ensures tid == -1 && isRecovery ==> r.Threw? == (c !in old(DbNow()))
      ensures tid == -1 && isRecovery ==>
        OnlyDb(old(Now()), Now(), if c in old(DbNow()) then old(DbNow())[c := PutDoc(old(DbNow())[c], key, doc)] else old(DbNow()))
    {
      hide Log, CommitAll;
      if tid != -1 {
        r := AddOperation(tid, Operation(c, key, Some(doc)));
        return;
      }
      ghost var db := if c in DbNow() then DbNow()[c := PutDoc(DbNow()[c], key, doc)] else DbNow();
      if !isRecovery {
        Append(PutEntry(c, key, doc), db);
      }
      r := PutInto(c, key, doc);
    }

    /** The change itself, or an exception if the collection is missing. */
    method PutInto(c: Text, key: Text, doc: Document) returns (r: Reply)
      requires Valid()
      modifies collections.Values
      ensures Valid() && r == (if c in collections then Answer(true) else Threw)
      ensures DbNow() == if c in old(DbNow()) then old(DbNow())[c := PutDoc(old(DbNow())[c], key, doc)] else old(DbNow())
    {
      hide Log, PutDoc;
      if c !in collections {
        return Threw;
      }
      collections[c].Put(key, doc);
      r := Answer(true);
    }

    method Del(c: Text, key: Text, tid: int, isRecovery: bool) returns (r: Reply)
      requires Valid()
      modifies Repr()
      ensures Valid() && collections == old(collections)
      ensures tid != -1 ==> (Now(), r) == Step(old(Now()), TxDel(tid, c, key))
      ensures tid == -1 && !isRecovery ==> (Now(), r) == Step(old(Now()), Store.Del(c, key))
      ensures tid == -1 && isRecovery ==>
        OnlyDb(old(Now()), Now(), if c in old(DbNow()) then old(DbNow())[c := DelDoc(old(DbNow())[c], key)] else old(DbNow()))
    {
      hide Log, CommitAll;
      if tid != -1 {
        r := AddOperation(tid, Operation(c, key, None));
        return;
      }
      ghost var db := if c in DbNow() then DbNow()[c := DelDoc(DbNow()[c], key)] else DbNow();
      if !isRecovery {
        Append(DelEntry(c, key), db);
      }
      r := DelFrom(c, key);
    }

    method DelFrom(c: Text, key: Text) returns (r: Reply)
      requires Valid()
      modifies collections.Values
      ensures Valid() && r == Answer(c in old(DbNow()) && IsLive(old(DbNow())[c], key))
      ensures DbNow() == if c in old(DbNow()) then old(DbNow())[c := DelDoc(old(DbNow())[c], key)] else old(DbNow())
    {
      hide Log, DelDoc;
      if c !in collections {
        return Answer(false);
      }
      var ok := collections[c].Del(key);
      r := Answer(ok);
    }

    /** `get`: the transaction's buffer from its end, then the collection. */
    method Get(c: Text, key: Text, tid: int) returns (l: Lookup)
      requires Valid()
      ensures l == if tid == -1 then GetNow(DbNow(), c, key) else Store.Get(Now(), tid, c, key)
    {
      if tid != -1 && tid in transactions {
        var operations := transactions[tid];
        var i := |operations|;
        assert operations[..i] == operations;
        while i > 0
          invariant 0 <= i <= |operations|
          invariant GetBuffered(operations, c, key) == GetBuffered(operations[..i], c, key)
        {
          i := i - 1;
          assert operations[..i + 1][..i] == operations[..i];
          if operations[i].collection == c && operations[i].key == key {
            match operations[i].doc
            case Some(doc) => return Found(doc);
            case None => return Tombstone;
          }
        }
      }
      if c in collections {
        l := collections[c].Get(key);
      } else {
        l := Absent;
      }
    }

    // ---------- transactions ----------

    method BeginTransaction() returns (tid: int)
      requires Valid()
      modifies this
      ensures Valid() && collections == old(collections)
      ensures (Now(), Began(tid)) == Step(old(Now()), Begin)
    {
      tid := next;
      next := next + 1;
      transactions := transactions[tid := []];
      assert DbNow() == old(DbNow());
    }

    /** `add_put_operation` and `add_delete_operation` */
    method AddOperation(tid: int, op: Operation) returns (r: Reply)
      requires Valid()
      modifies this
      ensures Valid() && collections == old(collections)
      ensures (Now(), r) == Buffered(old(Now()), tid, op)
    {
      if tid !in transactions {
        return Threw;
      }
      transactions := transactions[tid := transactions[tid] + [op]];
      assert DbNow() == old(DbNow());
      return Answer(true);
    }

    method CommitTransaction(tid: int) returns (r: Reply)
      requires Valid()
      modifies Repr()
      ensures Valid() && collections == old(collections)
      ensures (Now(), r) == Step(old(Now()), Commit(tid))
    {
      if tid !in transactions {
        return Answer(false);
      }
      r := ApplyOperations(transactions[tid]);
      if r.Threw? {
        return;
      }
      ghost var done := Now();
      transactions := transactions - {tid};
      assert DbNow() == done.db;
    }

    /** The loop over a transaction's operations. */
    method ApplyOperations(operations: seq<Operation>) returns (r: Reply)
      requires Valid()
      modifies Repr()
      ensures Valid() && collections == old(collections)
      ensures (Now(), r) == (CommitAll(old(Now()), operations).0, if CommitAll(old(Now()), operations).1 then Answer(true) else Threw)
    {
      hide Log;
      for i := 0 to |operations|
        invariant Valid() && collections == old(collections)
        invariant CommitAll(Now(), operations[i..]) == CommitAll(old(Now()), operations)
      {
        assert operations[i..][0] == operations[i] && operations[i..][1..] == operations[i + 1..];
        match operations[i].doc {
          case Some(doc) =>
            var done := Put(operations[i].collection, operations[i].key, doc, -1, false);
            if done.Threw? {
              return Threw;
            }
          case None =>
            var _ := Del(operations[i].collection, operations[i].key, -1, false);
        }
      }
      assert operations[|operations|..] == [];
      return Answer(true);
    }

    method RollbackTransaction(tid: int) returns (r: Reply)
      requires Valid()
      modifies this
      ensures Valid() && collections == old(collections)
      ensures (Now(), r) == Step(old(Now()), Rollback(tid))
    {
      assert tid !in transactions ==> transactions == transactions - {tid};
      if tid in transactions {
        transactions := transactions - {tid};
      }
      assert DbNow() == old(DbNow());
      return Answer(true);
    }

    // ---------- recovery ----------

    /** `recover`: the log's entries, replayed in order; the first put into a missing collection ends it. */
    method Recover() returns (ok: bool)
      requires Valid()
      modifies Repr()
      ensures Valid() && fresh(Repr() - old(Repr()))
      ensures ok == Replay(old(DbNow()), Recovered(old(wal.file))).Some?
      ensures ok ==> OnlyDb(old(Now()), Now(), Replay(old(DbNow()), Recovered(old(wal.file))).value)
    {
      hide Recovered, Log;
      var entries := wal.Recover();
      for i := 0 to |entries|
        invariant Valid() && fresh(Repr() - old(Repr()))
        invariant OnlyDb(old(Now()), Now(), DbNow())
        invariant Replay(DbNow(), entries[i..]) == Replay(old(DbNow()), entries)
      {
        assert entries[i..][0] == entries[i] && entries[i..][1..] == entries[i + 1..];
        var e := entries[i];
        if e.kind == PUT {
          var r := Put(e.collection, e.id, e.doc, -1, true);
          if r.Threw? {
            return false;
          }
        } else if e.kind == DELETE {
          var _ := Del(e.collection, e.id, -1, true);
        } else if e.kind == CREATE_COLLECTION {
          if e.collection !in collections {
            var _ := CreateCollection(e.collection, true);
          }
        }
      }
      assert entries[|entries|..] == [];
      return true;
    }
  }
}
