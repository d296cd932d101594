/** What every call does to every read: the answer to its caller, and what `get` gives afterwards, inside and outside transactions. */
module StoreReads {
  import opened Options
  import opened Bytes
  import opened Codec
  import opened Wal
  import opened Store

  /** Every read gives what it gave, except those of this collection and key that look at the collections. */
  ghost predicate OnlyAt(s: State, t: State, c: Text, key: Text, l: Lookup) {
    && t.transactions == s.transactions
    && forall tid, c', key' :: Get(t, tid, c', key') ==
         if c' == c && key' == key && !Hidden(s, tid, c, key) then l else Get(s, tid, c', key')
  }

  /** The transaction has a write of its own to this key. */
  predicate Hidden(s: State, tid: int, c: Text, key: Text) {
    tid in s.transactions && GetBuffered(s.transactions[tid], c, key).Some?
  }

  ghost predicate SameReads(s: State, t: State) {
    forall tid, c, key :: Get(t, tid, c, key) == Get(s, tid, c, key)
  }

  // ---------- outside transactions ----------

  /** A put is answered by true and read by everyone, under its key's name; into a missing collection it throws and nothing is read. */
  lemma PutSeen(s: State, c: Text, key: Text, doc: Document)
    ensures var (t, r) := Step(s, Put(c, key, doc));
            if c in s.db then r == Answer(true) && OnlyAt(s, t, c, key, Found(Document(key, doc.elements)))
            else r == Threw && SameReads(s, t) && t.db == s.db
  {
    hide GetBuffered;
  }

  /** A delete is answered by true if and only if a read before it finds a document, and no read after it does. */
  lemma DelSeen(s: State, c: Text, key: Text)
    ensures var (t, r) := Step(s, Del(c, key));
            var before := GetNow(s.db, c, key);
            && r == Answer(before.Found?) && !GetNow(t.db, c, key).Found?
            && OnlyAt(s, t, c, key, if before.Found? then Tombstone else before)
  {
    hide GetBuffered;
  }

  /** A new collection is empty; one of the name is refused. */
  lemma CreateSeen(s: State, c: Text)
    ensures var (t, r) := Step(s, Create(c));
            && r == (if c in s.db then Threw else Answer(true)) && (c in s.db ==> t == s)
            && t.db.Keys == s.db.Keys + {c} && (c !in s.db ==> forall key :: GetNow(t.db, c, key) == Absent) && SameReads(s, t)
  {
    hide GetBuffered;
  }

  /** A deleted collection is gone with its documents; a missing one is refused. */
  lemma DropSeen(s: State, c: Text)
    ensures var (t, r) := Step(s, Drop(c));
            && r == (if c in s.db then Answer(true) else Threw) && (c !in s.db ==> t == s)
            && t.transactions == s.transactions && t.db.Keys == s.db.Keys - {c}
            && forall tid, c', key ::
                 Get(t, tid, c', key) == if c' == c && !Hidden(s, tid, c, key) then Absent else Get(s, tid, c', key)
  {
    hide GetBuffered;
    assert c !in s.db ==> s.db.Keys - {c} == s.db.Keys;
  }

  /** Every write outside transactions is logged with what it was given, whether or not the collection is there. */
  lemma Logs(s: State, c: Text, key: Text, doc: Document)
    ensures Step(s, Put(c, key, doc)).0.log == s.log + [LogEntry(0, -1, c, key, doc)]
    ensures Step(s, Del(c, key)).0.log == s.log + [LogEntry(1, -1, c, key, Document([], []))]
    ensures Step(s, Create(c)).0.log == if c in s.db then s.log else s.log + [LogEntry(2, -1, c, [], Document([], []))]
    ensures Step(s, Drop(c)).0.log == if c in s.db then s.log + [LogEntry(3, -1, c, [], Document([], []))] else s.log
  {
  }

  /**
   What one entry does in recovery: a put, into a collection that is there or else with an exception, and a delete do what
   they did; a creation adds an empty collection and leaves one of the name as it is; nothing else changes anything.
   */
  lemma EntrySeen(db: Db, e: LogEntry, c: Text, key: Text)
    ensures Replay1(db, e).None? <==> e.kind == 0 && e.collection !in db
    ensures Replay1(db, e).Some? ==>
              var (t, before, there) := (Replay1(db, e).value, GetNow(db, c, key), c == e.collection && key == e.id);
              && t.Keys == db.Keys + (if e.kind == 2 then {e.collection} else {})
              && GetNow(t, c, key) == if there && e.kind == 0 then Found(Document(key, e.doc.elements))
                                      else if there && e.kind == 1 && before.Found? then Tombstone else before
  {
    assert e.kind != 2 ==> db.Keys + {} == db.Keys;
  }

  // ---------- in a transaction ----------

  /** What a transaction has buffered is read back by it alone, and nothing is logged. */
  lemma TxPutSeen(s: State, tid: int, c: Text, key: Text, doc: Document)
    ensures var (t, r) := Step(s, TxPut(tid, c, key, doc));
            if tid !in s.transactions then r == Threw && t == s
            else r == Answer(true) && OnlyIn(s, t, tid, c, key, Found(doc))
  {
    if tid in s.transactions {
      Newest(s, tid, Operation(c, key, Some(doc)));
    }
  }

  lemma TxDelSeen(s: State, tid: int, c: Text, key: Text)
    ensures var (t, r) := Step(s, TxDel(tid, c, key));
            if tid !in s.transactions then r == Threw && t == s
            else r == Answer(true) && OnlyIn(s, t, tid, c, key, Tombstone)
  {
    if tid in s.transactions {
      Newest(s, tid, Operation(c, key, None));
    }
  }

  /** Every read gives what it gave, except those of this key in this transaction. */
  ghost predicate OnlyIn(s: State, t: State, tid: int, c: Text, key: Text, l: Lookup) {
    && t.db == s.db && t.log == s.log && t.transactions.Keys == s.transactions.Keys
    && forall tid', c', key' :: Get(t, tid', c', key') == if tid' == tid && c' == c && key' == key then l else Get(s, tid', c', key')
  }

  lemma Newest(s: State, tid: int, op: Operation)
    requires tid in s.transactions
    ensures OnlyIn(s, Buffered(s, tid, op).0, tid, op.collection, op.key,
                   match op.doc case Some(doc) => Found(doc) case None => Tombstone)
  {
    var t := Buffered(s, tid, op).0;
    var ops := s.transactions[tid];
    assert (ops + [op])[..|ops|] == ops;
    assert t.transactions[tid] == ops + [op];
    assert t.transactions.Keys == s.transactions.Keys;
  }

  /** A transaction begins with a number that is not in use, and reads what is read outside. */
  lemma BeginSeen(s: State)
    requires s.next !in s.transactions
    ensures var (t, r) := Step(s, Begin);
            && r == Began(s.next) && t.next == s.next + 1 && t.transactions.Keys == s.transactions.Keys + {s.next} &&
                t.db == s.db && t.log == s.log
            && SameReads(s, t) && forall c, key :: Get(t, s.next, c, key) == GetNow(s.db, c, key)
  {
  }

  /** After a commit that goes through, or a rollback, the number is no longer active; a commit of no active one does nothing. */
  lemma FinishSeen(s: State, tid: int)
    ensures var (t, r) := Step(s, Rollback(tid));
            && r == Answer(true) && t.transactions == s.transactions - {tid} && t.db == s.db && t.log == s.log
            && forall tid', c, key :: Get(t, tid', c, key) == if tid' == tid then GetNow(s.db, c, key) else Get(s, tid', c, key)
    ensures var (t, r) := Step(s, Commit(tid));
            && (tid !in s.transactions ==> r == Answer(false) && t == s)
            && (r == Answer(true) ==> t.transactions == s.transactions - {tid})
            && (r == Threw ==> t.transactions == s.transactions)
  {
    if tid in s.transactions {
      CommitKeeps(s, s.transactions[tid]);
    }
  }

  lemma {:induction false} CommitKeeps(s: State, ops: seq<Operation>)
    ensures CommitAll(s, ops).0.transactions == s.transactions && CommitAll(s, ops).0.next == s.next
    decreases ops
  {
    if ops != [] {
      CommitKeeps(match ops[0].doc case Some(doc) => PutNow(s, ops[0].collection, ops[0].key, doc) case None => DelNow(s, ops[0].collection, ops[0].key), ops[1..]);
    }
  }
}
