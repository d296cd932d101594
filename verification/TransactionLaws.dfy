/** Transactions of the store: what a transaction sees, and when its writes take effect. */
module TransactionLaws {
  import opened Options
  import opened Bytes
  import opened Codec
  import opened Wal
  import opened Store
  import opened StoreLaws

  // ---------- commit is the buffered writes, one after the other ----------

  function DirectOp(op: Operation): Op {
    match op.doc
    case Some(doc) => Put(op.collection, op.key, doc)
    case None => Del(op.collection, op.key)
  }

  function Direct(ops: seq<Operation>): seq<Op> {
    if ops == [] then [] else [DirectOp(ops[0])] + Direct(ops[1..])
  }

  /** The stores hold the same documents and wrote the same log. */
  predicate SameStore(s: State, t: State) { s.db == t.db && s.log == t.log && s.past == t.past }

  lemma {:induction false} CommitIsRun(s: State, ops: seq<Operation>)
    requires Committable(s.db, ops)
    ensures CommitAll(s, ops) == (Run(s, Direct(ops)), true)
    decreases ops
  {
    if ops != [] {
      var s' := Step(s, DirectOp(ops[0])).0;
      assert s'.db.Keys == s.db.Keys;
      CommitIsRun(s', ops[1..]);
      assert Direct(ops)[0] == DirectOp(ops[0]) && Direct(ops)[1..] == Direct(ops[1..]);
    }
  }

  // ---------- what a transaction reads ----------

  /** A lookup as the caller sees it: a document under its key's name, or none. */
  function Visible(l: Lookup, key: Text): Option<Document> {
    match l
    case Found(doc) => Some(doc.(id := key))
    case _ => None
  }

  predicate PutsKey(op: Operation, c: Text, key: Text) { op.collection == c && op.key == key && op.doc.Some? }

  /** The key is in the collection, live or deleted, or the transaction puts it there. */
  predicate Known(db: Db, ops: seq<Operation>, c: Text, key: Text) {
    c in db && (key in db[c] || exists op <- ops :: PutsKey(op, c, key))
  }

  lemma {:induction false} CommitAppend(s: State, ops: seq<Operation>, op: Operation)
    requires Committable(s.db, ops + [op])
    ensures Committable(s.db, ops) && CommitAll(s, ops + [op]) == (Step(CommitAll(s, ops).0, DirectOp(op)).0, true)
    ensures CommitAll(s, ops).0.db.Keys == s.db.Keys
    decreases ops
  {
    if ops == [] {
      assert (ops + [op])[0] == op && (ops + [op])[1..] == [];
      assert CommitAll(Step(s, DirectOp(op)).0, []) == (Step(s, DirectOp(op)).0, true);
    } else {
      assert (ops + [op])[0] == ops[0] && (ops + [op])[1..] == ops[1..] + [op];
      var s' := Step(s, DirectOp(ops[0])).0;
      assert s'.db.Keys == s.db.Keys;
      CommitAppend(s', ops[1..], op);
    }
  }

  lemma KnownAppend(db: Db, ops: seq<Operation>, op: Operation, c: Text, key: Text)
    ensures Known(db, ops + [op], c, key) <==> c in db && (Known(db, ops, c, key) || PutsKey(op, c, key))
  {
    assert op in ops + [op];
    assert forall o <- ops :: o in ops + [op];
  }

  /** What a lookup in the buffer, then in the store, gives against a lookup after the commit. */
  lemma {:induction false} BufferedRead(s: State, ops: seq<Operation>, c: Text, key: Text)
    requires Committable(s.db, ops)
    ensures var after := CommitAll(s, ops).0.db;
            && after.Keys == s.db.Keys
            && (c in after && key in after[c] <==> Known(s.db, ops, c, key))
            && match GetBuffered(ops, c, key)
               case None => GetNow(after, c, key) == GetNow(s.db, c, key)
               case Some(op) =>
                 match op.doc
                 case Some(doc) => GetNow(after, c, key) == Found(doc.(id := key))
                 case None => GetNow(after, c, key) == if Known(s.db, ops, c, key) then Tombstone else Absent
    decreases ops
  {
    hide CommitAll, Known;
    if ops == [] {
      assert CommitAll(s, ops).0 == s by { CommitNothing(s); }
      NothingPut(s.db, c, key);
    } else {
      var init, op := ops[..|ops| - 1], ops[|ops| - 1];
      assert ops == init + [op];
      KnownAppend(s.db, init, op, c, key);
      CommitAppend(s, init, op);
      BufferedRead(s, init, c, key);
    }
  }

  lemma NothingPut(db: Db, c: Text, key: Text)
    ensures Known(db, [], c, key) <==> c in db && key in db[c]
  {
  }

  lemma CommitNothing(s: State)
    ensures CommitAll(s, []) == (s, true)
  {
  }

  /** A read inside a transaction sees what would be visible had its buffer just been committed. */
  lemma ReadsOwnWrites(s: State, tid: int, c: Text, key: Text)
    requires tid in s.transactions && Committable(s.db, s.transactions[tid])
    ensures Visible(Get(s, tid, c, key), key) == Visible(GetNow(Step(s, Commit(tid)).0.db, c, key), key)
  {
    hide CommitAll, GetBuffered, Known;
    BufferedRead(s, s.transactions[tid], c, key);
    CommitIsRun(s, s.transactions[tid]);
  }

  /**
   It is the very same answer if and only if the buffered put, if that is what it finds, holds a document
   under its key's name, and the buffered delete, if that is what it finds, is of a key that was ever there.
   */
  lemma SameAnswer(s: State, tid: int, c: Text, key: Text)
    requires tid in s.transactions && Committable(s.db, s.transactions[tid])
    ensures Get(s, tid, c, key) == GetNow(Step(s, Commit(tid)).0.db, c, key)
       <==> match GetBuffered(s.transactions[tid], c, key)
            case None => true
            case Some(op) => match op.doc
              case Some(doc) => doc.id == key
              case None => Known(s.db, s.transactions[tid], c, key)
  {
    hide CommitAll, GetBuffered, Known;
    BufferedRead(s, s.transactions[tid], c, key);
    CommitIsRun(s, s.transactions[tid]);
  }

  // ---------- numbers ----------

  /** Only numbers already given out are active. */
  predicate Numbered(s: State) { forall tid <- s.transactions :: tid < s.next }

  lemma {:induction false} CommitKeeps(s: State, ops: seq<Operation>)
    ensures CommitAll(s, ops).0.transactions == s.transactions && CommitAll(s, ops).0.next == s.next
    decreases ops
  {
    if ops != [] {
      CommitKeeps(match ops[0].doc case Some(doc) => PutNow(s, ops[0].collection, ops[0].key, doc) case None => DelNow(s, ops[0].collection, ops[0].key), ops[1..]);
    }
  }

  lemma StepNumbered(s: State, op: Op)
    requires Numbered(s)
    ensures var t := Step(s, op).0;
            && Numbered(t) && s.next <= t.next
            && (forall tid <- t.transactions :: tid in s.transactions || (op.Begin? && tid == s.next))
            && (op.Begin? ==> Step(s, op).1 == Began(s.next) && s.next !in s.transactions && s.next < t.next)
  {
    hide CommitAll;
    if op.Commit? && op.tid in s.transactions {
      CommitKeeps(s, s.transactions[op.tid]);
    }
  }

  /** A number that is finished stays finished and is never given out again; committing it does nothing. */
  lemma {:induction false} NeverReused(s: State, ops: seq<Op>, tid: int)
    requires Numbered(s) && tid < s.next && tid !in s.transactions
    ensures var t := Run(s, ops);
            && Numbered(t) && tid < t.next && tid !in t.transactions
            && Step(t, Begin).1 != Began(tid)
            && Step(t, Commit(tid)) == (t, Answer(false))
    decreases ops
  {
    hide Step;
    if ops == [] {
      Finished(s, tid);
    } else {
      StepNumbered(s, ops[0]);
      NeverReused(Step(s, ops[0]).0, ops[1..], tid);
    }
  }

  lemma Finished(s: State, tid: int)
    requires tid < s.next && tid !in s.transactions
    ensures Step(s, Begin).1 != Began(tid) && Step(s, Commit(tid)) == (s, Answer(false))
  {
  }

  // ---------- when a transaction takes effect ----------

  predicate Of(op: Op, tid: int) {
    match op
    case TxPut(t, _, _, _) => t == tid
    case TxDel(t, _, _) => t == tid
    case Commit(t) => t == tid
    case Rollback(t) => t == tid
    case _ => false
  }

  predicate Finishes(op: Op, tid: int) { op == Commit(tid) || op == Rollback(tid) }

  /** The run without the steps of one transaction. */
  function Others(ops: seq<Op>, tid: int): seq<Op> {
    if ops == [] then []
    else if Of(ops[0], tid) then Others(ops[1..], tid)
    else [ops[0]] + Others(ops[1..], tid)
  }

  /** The write, if any, that a step buffers in one transaction. */
  function Written(op: Op, tid: int): seq<Operation> {
    match op
    case TxPut(t, c, key, doc) => if t == tid then [Operation(c, key, Some(doc))] else []
    case TxDel(t, c, key) => if t == tid then [Operation(c, key, None)] else []
    case _ => []
  }

  function Writes(ops: seq<Op>, tid: int): seq<Operation> {
    if ops == [] then [] else Written(ops[0], tid) + Writes(ops[1..], tid)
  }

  /** The states differ at most in what one transaction has buffered. */
  predicate SameBut(s: State, t: State, tid: int) {
    SameStore(s, t) && s.next == t.next && s.transactions - {tid} == t.transactions - {tid}
  }

  lemma {:induction false} CommitSame(s: State, t: State, ops: seq<Operation>)
    requires SameStore(s, t)
    ensures SameStore(CommitAll(s, ops).0, CommitAll(t, ops).0) && CommitAll(s, ops).1 == CommitAll(t, ops).1
    decreases ops
  {
    if ops != [] {
      match ops[0].doc {
        case Some(doc) =>
          if ops[0].collection in s.db {
            CommitSame(PutNow(s, ops[0].collection, ops[0].key, doc), PutNow(t, ops[0].collection, ops[0].key, doc), ops[1..]);
          }
        case None => CommitSame(DelNow(s, ops[0].collection, ops[0].key), DelNow(t, ops[0].collection, ops[0].key), ops[1..]);
      }
    }
  }

  lemma OtherStep(s: State, t: State, op: Op, tid: int)
    requires SameBut(s, t, tid) && !Of(op, tid) && tid != s.next
    ensures SameBut(Step(s, op).0, Step(t, op).0, tid) && Step(s, op).1 == Step(t, op).1
    ensures tid in s.transactions ==> tid in Step(s, op).0.transactions && Step(s, op).0.transactions[tid] == s.transactions[tid]
    ensures tid !in s.transactions ==> tid !in Step(s, op).0.transactions
  {
    hide CommitAll;
    forall k | k != tid ensures k in s.transactions <==> k in t.transactions {
      assert k in s.transactions <==> k in s.transactions - {tid};
      assert k in t.transactions <==> k in t.transactions - {tid};
    }
    forall k | k != tid && k in s.transactions ensures s.transactions[k] == t.transactions[k] {
      assert (s.transactions - {tid})[k] == (t.transactions - {tid})[k];
    }
    if op.Commit? && op.tid in s.transactions {
      CommitSame(s, t, s.transactions[op.tid]);
      CommitKeeps(s, s.transactions[op.tid]);
      CommitKeeps(t, s.transactions[op.tid]);
    }
    SameRest(s, t, op, tid);
  }

  lemma SameRest(s: State, t: State, op: Op, tid: int)
    requires SameStore(s, t) && !Of(op, tid) && s.next == t.next
    requires forall k | k != tid :: k in s.transactions <==> k in t.transactions
    requires forall k | k != tid && k in s.transactions :: s.transactions[k] == t.transactions[k]
    ensures Step(s, op).0.transactions - {tid} == Step(t, op).0.transactions - {tid}
  {
    hide CommitAll;
    if op.Commit? && op.tid in s.transactions {
      CommitKeeps(s, s.transactions[op.tid]);
      CommitKeeps(t, s.transactions[op.tid]);
      CommitSame(s, t, s.transactions[op.tid]);
    }
    var a, b := Step(s, op).0.transactions, Step(t, op).0.transactions;
    assert forall k | k != tid :: k in a <==> k in b;
    assert forall k | k != tid && k in a :: a[k] == b[k];
  }

  /** One step, and the same step unless it is the transaction's own. */
  lemma StepsApart(s: State, t: State, op: Op, tid: int)
    requires SameBut(s, t, tid) && tid in s.transactions && tid < s.next && !Finishes(op, tid)
    ensures var s', t' := Step(s, op).0, if Of(op, tid) then t else Step(t, op).0;
            && SameBut(s', t', tid) && tid < s'.next
            && tid in s'.transactions && s'.transactions[tid] == s.transactions[tid] + Written(op, tid)
  {
    hide Step, SameBut, Of, Written;
    if Of(op, tid) {
      OwnStep(s, t, op, tid);
    } else {
      NextGrows(s, op);
      OtherStep(s, t, op, tid);
      NotWritten(op, s.transactions[tid], tid);
    }
  }

  lemma OthersRun(t: State, ops: seq<Op>, tid: int)
    requires ops != []
    ensures Run(t, Others(ops, tid)) == Run(if Of(ops[0], tid) then t else Step(t, ops[0]).0, Others(ops[1..], tid))
  {
    hide Step, Of;
    if !Of(ops[0], tid) {
      assert Others(ops, tid)[0] == ops[0] && Others(ops, tid)[1..] == Others(ops[1..], tid);
    }
  }

  /**
   Whatever happens between its writes, a transaction's buffer is its writes in order, and the rest of the
   run goes on as if it were not there.
   */
  lemma {:induction false} RunsApart(s: State, t: State, ops: seq<Op>, tid: int)
    requires SameBut(s, t, tid) && tid in s.transactions && tid < s.next
    requires forall op <- ops :: !Finishes(op, tid)
    ensures SameBut(Run(s, ops), Run(t, Others(ops, tid)), tid)
    ensures tid in Run(s, ops).transactions && Run(s, ops).transactions[tid] == s.transactions[tid] + Writes(ops, tid)
    decreases ops
  {
    hide Step, SameBut, Of, Written, Others;
    if ops == [] {
      assert s.transactions[tid] + [] == s.transactions[tid];
      assert Others(ops, tid) == [] by { NoOthers(tid); }
    } else {
      var op := ops[0];
      assert !Finishes(op, tid);
      StepsApart(s, t, op, tid);
      OthersRun(t, ops, tid);
      var s' := Step(s, op).0;
      RunsApart(s', if Of(op, tid) then t else Step(t, op).0, ops[1..], tid);
      assert s.transactions[tid] + Written(op, tid) + Writes(ops[1..], tid) == s.transactions[tid] + (Written(op, tid) + Writes(ops[1..], tid));
    }
  }

  lemma NoOthers(tid: int)
    ensures Others([], tid) == []
  {
  }

  lemma NotWritten(op: Op, buffer: seq<Operation>, tid: int)
    requires !Of(op, tid)
    ensures buffer + Written(op, tid) == buffer
  {
  }

  lemma NextGrows(s: State, op: Op)
    ensures s.next <= Step(s, op).0.next
  {
    hide CommitAll;
    if op.Commit? && op.tid in s.transactions {
      CommitKeeps(s, s.transactions[op.tid]);
    }
  }

  lemma OwnStep(s: State, t: State, op: Op, tid: int)
    requires SameBut(s, t, tid) && tid in s.transactions && Of(op, tid) && !Finishes(op, tid)
    ensures var s' := Step(s, op).0;
            && SameBut(s', t, tid) && s'.next == s.next
            && tid in s'.transactions && s'.transactions[tid] == s.transactions[tid] + Written(op, tid)
  {
    var s' := Step(s, op).0;
    assert s'.transactions - {tid} == s.transactions - {tid};
  }

  /**
   A transaction takes effect at its commit: a run in which it buffers its writes among any other steps and
   then commits leaves the store as if its writes had all been made, in order, at the end.
   */
  lemma TakesEffectAtCommit(s: State, ops: seq<Op>, tid: int)
    requires tid in s.transactions && tid < s.next
    requires forall op <- ops :: !Finishes(op, tid)
    requires Committable(Run(s, ops).db, s.transactions[tid] + Writes(ops, tid))
    ensures var t := Step(Run(s, ops), Commit(tid));
            && t.1 == Answer(true)
            && SameStore(t.0, Run(Run(s, Others(ops, tid)), Direct(s.transactions[tid] + Writes(ops, tid))))
  {
    hide Run, CommitAll;
    RunsApart(s, s, ops, tid);
    var s1, t1 := Run(s, ops), Run(s, Others(ops, tid));
    var ws := s.transactions[tid] + Writes(ops, tid);
    CommitIsRun(s1, ws);
    CommitIsRun(t1, ws);
    CommitSame(s1, t1, ws);
  }

  /** A transaction that does not commit leaves no trace in the store. */
  lemma RollbackUndoes(s: State, ops: seq<Op>, tid: int)
    requires tid in s.transactions && tid < s.next
    requires forall op <- ops :: !Finishes(op, tid)
    ensures SameStore(Step(Run(s, ops), Rollback(tid)).0, Run(s, Others(ops, tid)))
    ensures tid !in Step(Run(s, ops), Rollback(tid)).0.transactions
  {
    hide Run;
    RunsApart(s, s, ops, tid);
  }
}
