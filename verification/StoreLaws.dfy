/** Durability and transactions of the store, over every run. */
module StoreLaws {
  import opened Options
  import opened Bytes
  import opened Codec
  import opened Wal
  import WalLaws
  import opened Store

  // ---------- replay ----------

  lemma {:induction false} ReplayAppend(db: Db, es: seq<LogEntry>, e: LogEntry)
    ensures Replay(db, es + [e]) == (match Replay(db, es) case None => None case Some(d) => Replay1(d, e))
    decreases es
  {
    hide Replay1;
    if es == [] {
      assert (es + [e])[0] == e && (es + [e])[1..] == [];
    } else {
      assert (es + [e])[0] == es[0] && (es + [e])[1..] == es[1..] + [e];
      if Replay1(db, es[0]).Some? {
        ReplayAppend(Replay1(db, es[0]).value, es[1..], e);
      }
    }
  }

  /** Replaying any prefix of the log gives what the store was after that many writes, and the whole log what it is. */
  ghost predicate Durable(s: State) {
    && |s.past| == |s.log| + 1
    && s.past[|s.log|] == s.db
    && forall n | 0 <= n <= |s.log| :: Replay(map[], s.log[..n]) == Some(s.past[n])
  }

  lemma LoggedDurable(s: State, e: LogEntry, db: Db)
    requires Durable(s) && Replay1(s.db, e) == Some(db)
    ensures Durable(Logged(s, e, db))
  {
    hide Replay, Replay1;
    var t := Logged(s, e, db);
    forall n | 0 <= n <= |t.log| ensures Replay(map[], t.log[..n]) == Some(t.past[n]) {
      if n <= |s.log| {
        assert t.log[..n] == s.log[..n] && t.past[n] == s.past[n];
      } else {
        assert t.log[..n] == s.log + [e] && s.log[..|s.log|] == s.log;
        ReplayAppend(map[], s.log, e);
      }
    }
  }

  /** Once replay differs from the store, or fails, the store is not durable. */
  lemma NotDurable(s: State, e: LogEntry, db: Db)
    requires Durable(s) && Replay1(s.db, e) != Some(db)
    ensures !Durable(Logged(s, e, db))
  {
    hide Replay, Replay1;
    var t := Logged(s, e, db);
    assert t.log[..|t.log|] == s.log + [e] && s.log[..|s.log|] == s.log;
    ReplayAppend(map[], s.log, e);
  }

  /** Every put of a transaction goes into a collection that exists. */
  predicate Committable(db: Db, ops: seq<Operation>) {
    forall op <- ops :: op.doc.Some? ==> op.collection in db
  }

  /**
   A step that recovery follows: it does not delete a collection that exists, and no put, of its own or of
   a transaction it commits, goes into a collection that does not.
   */
  predicate Followed(s: State, op: Op) {
    match op
    case Drop(c) => c !in s.db
    case Put(c, _, _) => c in s.db
    case Commit(tid) => tid in s.transactions ==> Committable(s.db, s.transactions[tid])
    case _ => true
  }

  lemma {:induction false} CommitDurable(s: State, ops: seq<Operation>)
    requires Durable(s) && Committable(s.db, ops)
    ensures CommitAll(s, ops).1 && Durable(CommitAll(s, ops).0)
    ensures CommitAll(s, ops).0.db.Keys == s.db.Keys
    decreases ops
  {
    hide Durable;
    if ops != [] {
      var op := ops[0];
      var s' := match op.doc case Some(doc) => PutNow(s, op.collection, op.key, doc) case None => DelNow(s, op.collection, op.key);
      LoggedDurable(s, s'.log[|s.log|], s'.db);
      assert s'.db.Keys == s.db.Keys;
      CommitDurable(s', ops[1..]);
    }
  }

  lemma {:induction false} CommitNotDurable(s: State, ops: seq<Operation>)
    requires Durable(s) && !Committable(s.db, ops)
    ensures !Durable(CommitAll(s, ops).0)
    decreases ops
  {
    hide Durable;
    var op := ops[0];
    if op.doc.Some? && op.collection !in s.db {
      NotDurable(s, PutEntry(op.collection, op.key, op.doc.value), s.db);
    } else {
      var s' := match op.doc case Some(doc) => PutNow(s, op.collection, op.key, doc) case None => DelNow(s, op.collection, op.key);
      LoggedDurable(s, s'.log[|s.log|], s'.db);
      assert s'.db.Keys == s.db.Keys;
      assert ops == [op] + ops[1..];
      CommitNotDurable(s', ops[1..]);
    }
  }

  lemma StepDurable(s: State, op: Op)
    requires Durable(s)
    ensures Durable(Step(s, op).0) <==> Followed(s, op)
  {
    hide Durable, Replay, CommitAll;
    var t := Step(s, op).0;
    if op.Create? && op.collection !in s.db {
      LoggedDurable(s, CreateEntry(op.collection), s.db[op.collection := map[]]);
    } else if op.Drop? && op.collection in s.db {
      assert op.collection !in t.db;
      NotDurable(s, DropEntry(op.collection), t.db);
    } else if op.Put? && op.collection in s.db {
      LoggedDurable(s, PutEntry(op.collection, op.key, op.doc), t.db);
    } else if op.Put? {
      NotDurable(s, PutEntry(op.collection, op.key, op.doc), s.db);
    } else if op.Del? {
      LoggedDurable(s, DelEntry(op.collection, op.key), t.db);
    } else if op.Commit? && op.tid in s.transactions {
      var ops := s.transactions[op.tid];
      if Committable(s.db, ops) {
        CommitDurable(s, ops);
        SameDurable(CommitAll(s, ops).0, t);
      } else {
        CommitNotDurable(s, ops);
        SameDurable(CommitAll(s, ops).0, t);
      }
    } else {
      SameDurable(s, t);
    }
  }

  lemma SameDurable(s: State, t: State)
    requires s.db == t.db && s.log == t.log && s.past == t.past
    ensures Durable(s) <==> Durable(t)
  {
  }

  /** Every step of the run is followed. */
  predicate AllFollowed(s: State, ops: seq<Op>)
    decreases ops
  {
    ops == [] || (Followed(s, ops[0]) && AllFollowed(Step(s, ops[0]).0, ops[1..]))
  }

  /** The store is durable after every step of the run. */
  ghost predicate AlwaysDurable(s: State, ops: seq<Op>)
    decreases ops
  {
    Durable(s) && (ops == [] || AlwaysDurable(Step(s, ops[0]).0, ops[1..]))
  }

  lemma {:induction false} RunDurable(s: State, ops: seq<Op>)
    requires Durable(s)
    ensures AlwaysDurable(s, ops) <==> AllFollowed(s, ops)
    ensures AllFollowed(s, ops) ==> Durable(Run(s, ops))
    decreases ops
  {
    hide Durable, Followed, Step;
    if ops != [] {
      StepDurable(s, ops[0]);
      if Followed(s, ops[0]) {
        RunDurable(Step(s, ops[0]).0, ops[1..]);
      }
    }
  }

  /** The log rebuilds the store throughout a run from the empty store if and only if every step is followed. */
  lemma ReplayRebuilds(ops: seq<Op>)
    ensures AlwaysDurable(EMPTY, ops) <==> AllFollowed(EMPTY, ops)
  {
    hide AlwaysDurable, AllFollowed;
    EmptyDurable();
    RunDurable(EMPTY, ops);
  }

  lemma EmptyDurable()
    ensures Durable(EMPTY)
  {
  }

  // ---------- crashes ----------

  lemma {:induction false} StoredSame(es: seq<LogEntry>)
    requires forall e <- es :: Stored(e) == e
    ensures StoredAll(es) == es
  {
    hide Stored;
    if es != [] {
      StoredSame(es[1..]);
    }
  }

  /** The store writes no entry whose document would be dropped. */
  ghost predicate PlainLog(s: State) { forall e <- s.log :: Stored(e) == e }

  lemma {:induction false} CommitPlain(s: State, ops: seq<Operation>)
    requires PlainLog(s)
    ensures PlainLog(CommitAll(s, ops).0)
    decreases ops
  {
    if ops != [] {
      CommitPlain(match ops[0].doc case Some(doc) => PutNow(s, ops[0].collection, ops[0].key, doc) case None => DelNow(s, ops[0].collection, ops[0].key), ops[1..]);
    }
  }

  lemma {:induction false} RunPlain(s: State, ops: seq<Op>)
    requires PlainLog(s)
    ensures PlainLog(Run(s, ops))
    decreases ops
  {
    hide CommitAll;
    if ops != [] {
      if ops[0].Commit? && ops[0].tid in s.transactions {
        CommitPlain(s, s.transactions[ops[0].tid]);
      }
      RunPlain(Step(s, ops[0]).0, ops[1..]);
    }
  }

  /** From any durable store, a log file cut at any byte recovers to what the store was after the writes before the cut. */
  lemma CutRecovers(s: State, n: nat)
    requires Durable(s) && PlainLog(s) && WalLaws.AllWellTyped(s.log) && WalLaws.AllLoggable(s.log) && n <= |Log(s.log)|
    ensures var k := Whole(s.log, n); k < |s.past| && Replay(map[], Recovered(Log(s.log)[..n])) == Some(s.past[k])
  {
    hide Recovered, Log, Whole, Replay, Stored;
    WalLaws.TornTail(s.log, n);
    StoredSame(s.log[..Whole(s.log, n)]);
  }

  /**
   After any run that recovery follows, a log file cut at any byte recovers to exactly what the store was
   after the writes whose records lie wholly before the cut; a commit is cut between its writes.
   */
  lemma CrashRecovery(ops: seq<Op>, n: nat)
    requires AllFollowed(EMPTY, ops)
    requires WalLaws.AllWellTyped(Run(EMPTY, ops).log) && WalLaws.AllLoggable(Run(EMPTY, ops).log)
    requires n <= |Log(Run(EMPTY, ops).log)|
    ensures var s := Run(EMPTY, ops);
            var k := Whole(s.log, n);
            k < |s.past| && Replay(map[], Recovered(Log(s.log)[..n])) == Some(s.past[k])
  {
    hide Run, AllFollowed, Recovered, Log, Whole, Replay, Stored, Durable, PlainLog;
    EmptyDurable();
    RunDurable(EMPTY, ops);
    assert PlainLog(EMPTY) by { EmptyPlain(); }
    RunPlain(EMPTY, ops);
    CutRecovers(Run(EMPTY, ops), n);
  }

  lemma EmptyPlain()
    ensures PlainLog(EMPTY)
  {
  }

  /** With the whole file there is nothing lost. */
  lemma CleanRestart(ops: seq<Op>)
    requires AllFollowed(EMPTY, ops)
    requires WalLaws.AllWellTyped(Run(EMPTY, ops).log) && WalLaws.AllLoggable(Run(EMPTY, ops).log)
    ensures Replay(map[], Recovered(Log(Run(EMPTY, ops).log))) == Some(Run(EMPTY, ops).db)
  {
    hide Run, AllFollowed, Recovered, Log, Replay, Stored;
    var s := Run(EMPTY, ops);
    EmptyDurable();
    RunDurable(EMPTY, ops);
    RunPlain(EMPTY, ops);
    WalLaws.LogThen(s.log, []);
    StoredSame(s.log);
    WalLaws.NoneRecovered();
    assert Log(s.log) + [] == Log(s.log) && s.log + [] == s.log && s.log[..|s.log|] == s.log;
  }

  // ---------- restarts ----------

  /**
   A new process over a file that a crash has left with the first `kept` records: the collections are those of
   that time, no transaction is active and their numbers start over.
   */
  function Restarted(s: State, kept: nat): State
    requires kept <= |s.log| && |s.past| == |s.log| + 1
  {
    State(s.past[kept], map[], 1, s.log[..kept], s.past[..kept + 1])
  }

  lemma RestartDurable(s: State, kept: nat)
    requires Durable(s) && PlainLog(s) && kept <= |s.log|
    ensures Durable(Restarted(s, kept)) && PlainLog(Restarted(s, kept))
  {
    hide Replay, Stored;
    var r := Restarted(s, kept);
    forall n | 0 <= n <= |r.log| ensures Replay(map[], r.log[..n]) == Some(r.past[n]) {
      assert r.log[..n] == s.log[..n];
    }
    assert forall e <- r.log :: e in s.log;
  }

  /** A run, and how many records of the log a crash leaves of it. */
  datatype Session = Session(ops: seq<Op>, kept: nat)

  /** Every session's steps are followed by recovery, and it keeps records that are there. */
  ghost predicate AllSessions(s: State, sessions: seq<Session>)
    decreases sessions
  {
    sessions == [] ||
    var t := Run(s, sessions[0].ops);
    && AllFollowed(s, sessions[0].ops)
    && sessions[0].kept <= |t.log| && |t.past| == |t.log| + 1
    && AllSessions(Restarted(t, sessions[0].kept), sessions[1..])
  }

  ghost function After(s: State, sessions: seq<Session>): State
    requires AllSessions(s, sessions)
    decreases sessions
  {
    if sessions == [] then s else After(Restarted(Run(s, sessions[0].ops), sessions[0].kept), sessions[1..])
  }

  lemma {:induction false} SessionsDurable(s: State, sessions: seq<Session>)
    requires Durable(s) && PlainLog(s) && AllSessions(s, sessions)
    ensures Durable(After(s, sessions)) && PlainLog(After(s, sessions))
    decreases sessions
  {
    hide Durable, PlainLog, Run, AllFollowed, Restarted;
    if sessions != [] {
      var t := Run(s, sessions[0].ops);
      RunDurable(s, sessions[0].ops);
      RunPlain(s, sessions[0].ops);
      RestartDurable(t, sessions[0].kept);
      SessionsDurable(Restarted(t, sessions[0].kept), sessions[1..]);
    }
  }

  /**
   After any number of crashes on record boundaries, each followed by recovery and a run that recovery
   follows, a log file cut at any byte recovers to the store after the writes wholly before the cut.
   */
  lemma RestartsRecover(sessions: seq<Session>, ops: seq<Op>, n: nat)
    requires AllSessions(EMPTY, sessions) && AllFollowed(After(EMPTY, sessions), ops)
    requires var log := Run(After(EMPTY, sessions), ops).log;
             WalLaws.AllWellTyped(log) && WalLaws.AllLoggable(log) && n <= |Log(log)|
    ensures var s := Run(After(EMPTY, sessions), ops);
            var k := Whole(s.log, n);
            k < |s.past| && Replay(map[], Recovered(Log(s.log)[..n])) == Some(s.past[k])
  {
    hide Durable, PlainLog, Run, AllFollowed, AllSessions, After, Recovered, Log, Whole, Replay;
    EmptyDurable();
    assert PlainLog(EMPTY) by { EmptyPlain(); }
    SessionsDurable(EMPTY, sessions);
    RunDurable(After(EMPTY, sessions), ops);
    RunPlain(After(EMPTY, sessions), ops);
    CutRecovers(Run(After(EMPTY, sessions), ops), n);
  }

  // ---------- a crash within a commit ----------

  /** One buffered write, made directly. */
  function WriteNow(s: State, op: Operation): State {
    match op.doc case Some(doc) => PutNow(s, op.collection, op.key, doc) case None => DelNow(s, op.collection, op.key)
  }

  lemma OneWrite(s: State, op: Operation)
    requires op.doc.Some? ==> op.collection in s.db
    ensures var t := WriteNow(s, op);
            && (exists e :: t.log == s.log + [e]) && t.past == s.past + [t.db] && t.db.Keys == s.db.Keys
            && forall ops | ops != [] && ops[0] == op :: CommitAll(s, ops) == CommitAll(t, ops[1..])
  {
    var t := WriteNow(s, op);
    assert t.log == s.log + [t.log[|s.log|]];
  }

  /** The buffered writes of a commit are logged one by one, and each has its own state of the store. */
  lemma {:induction false} CommitPast(s: State, ops: seq<Operation>, j: nat)
    requires Committable(s.db, ops) && |s.past| == |s.log| + 1 && s.past[|s.log|] == s.db && j <= |ops|
    ensures var t := CommitAll(s, ops).0;
            && |t.log| == |s.log| + |ops| && |t.past| == |t.log| + 1
            && s.log <= t.log && s.past <= t.past
            && t.past[|s.log| + j] == CommitAll(s, ops[..j]).0.db
    decreases ops
  {
    if ops != [] {
      hide CommitAll, WriteNow;
      var s', i := WriteNow(s, ops[0]), if j == 0 then 0 else j - 1;
      OneWrite(s, ops[0]);
      CommitPast(s', ops[1..], i);
      if j == 0 {
        assert CommitAll(s, []).0 == s by { NothingCommitted(s); }
      } else {
        assert ops[..j][0] == ops[0] && ops[..j][1..] == ops[1..][..i];
      }
    }
  }

  lemma NothingCommitted(s: State)
    ensures CommitAll(s, []).0 == s
  {
  }

  /** The first `j` records lie wholly before the cut if and only if the cut is not before their end. */
  lemma {:induction false} WholeIff(es: seq<LogEntry>, n: nat, j: nat)
    requires j <= |es|
    ensures j <= Whole(es, n) <==> |Log(es[..j])| <= n
    decreases es
  {
    hide Record;
    if j > 0 {
      assert es[..j][0] == es[0] && es[..j][1..] == es[1..][..j - 1];
      if |Record(es[0])| <= n {
        WholeIff(es[1..], n - |Record(es[0])|, j - 1);
      }
    }
  }

  /**
   A crash during a commit: recovery finds the store as it would be after the first buffered writes, as many as
   have their records wholly before the cut. Some of them and not all are there if and only if the cut is not
   before the end of the first record of the commit, and before the end of the last.
   */
  lemma CommitCut(s: State, tid: int, n: nat)
    requires Durable(s) && PlainLog(s) && tid in s.transactions && Committable(s.db, s.transactions[tid])
    requires var log := Step(s, Commit(tid)).0.log;
             WalLaws.AllWellTyped(log) && WalLaws.AllLoggable(log) && |Log(s.log)| <= n <= |Log(log)|
    ensures var ops, t := s.transactions[tid], Step(s, Commit(tid)).0;
            var j := Whole(t.log, n) - |s.log|;
            && 0 <= j <= |ops| && |t.log| == |s.log| + |ops|
            && Replay(map[], Recovered(Log(t.log)[..n])) == Some(CommitAll(s, ops[..j]).0.db)
            && (0 < j < |ops| <==> ops != [] && |Log(t.log[..|s.log| + 1])| <= n < |Log(t.log)|)
  {
    hide Durable, PlainLog, CommitAll, Committable, Recovered, Log, Whole, Replay;
    var ops, t := s.transactions[tid], Step(s, Commit(tid)).0;
    CommitDurable(s, ops);
    CommitPlain(s, ops);
    SameDurable(CommitAll(s, ops).0, t);
    assert PlainLog(t) by { SamePlain(CommitAll(s, ops).0, t); }
    DurableNow(s);
    CommitPast(s, ops, 0);
    assert t.log[..|s.log|] == s.log;
    CutRecovers(t, n);
    WholeIff(t.log, n, |s.log|);
    WholeIff(t.log, n, |t.log|);
    assert t.log[..|t.log|] == t.log;
    var j := Whole(t.log, n) - |s.log|;
    CommitPast(s, ops, j);
    if ops != [] {
      WholeIff(t.log, n, |s.log| + 1);
    }
  }

  lemma SamePlain(s: State, t: State)
    requires s.log == t.log && PlainLog(s)
    ensures PlainLog(t)
  {
  }

  lemma DurableNow(s: State)
    requires Durable(s)
    ensures |s.past| == |s.log| + 1 && s.past[|s.log|] == s.db
  {
  }

  // ---------- a put into a missing collection ----------

  lemma {:induction false} ReplayFails(db: Db, es: seq<LogEntry>, more: seq<LogEntry>)
    requires Replay(db, es) == None
    ensures Replay(db, es + more) == None
    decreases es
  {
    hide Replay1;
    assert (es + more)[0] == es[0] && (es + more)[1..] == es[1..] + more;
    if Replay1(db, es[0]).Some? {
      ReplayFails(Replay1(db, es[0]).value, es[1..], more);
    }
  }

  predicate Extends(longer: seq<LogEntry>, log: seq<LogEntry>) { |log| <= |longer| && longer[..|log|] == log }

  lemma {:induction false} CommitExtends(s: State, ops: seq<Operation>)
    ensures Extends(CommitAll(s, ops).0.log, s.log)
    decreases ops
  {
    if ops != [] {
      CommitExtends(match ops[0].doc case Some(doc) => PutNow(s, ops[0].collection, ops[0].key, doc) case None => DelNow(s, ops[0].collection, ops[0].key), ops[1..]);
    }
  }

  lemma {:induction false} RunExtends(s: State, ops: seq<Op>)
    ensures Extends(Run(s, ops).log, s.log)
    decreases ops
  {
    hide CommitAll;
    if ops != [] {
      if ops[0].Commit? && ops[0].tid in s.transactions {
        CommitExtends(s, s.transactions[ops[0].tid]);
      }
      RunExtends(Step(s, ops[0]).0, ops[1..]);
    }
  }

  /** One put into a missing collection, which throws, makes recovery throw for good. */
  lemma LostForGood(s: State, c: Text, key: Text, doc: Document, ops: seq<Op>)
    requires Durable(s) && c !in s.db
    ensures Step(s, Put(c, key, doc)).1 == Threw
    ensures Replay(map[], Run(Step(s, Put(c, key, doc)).0, ops).log) == None
  {
    hide Replay, Run;
    var t := Step(s, Put(c, key, doc)).0;
    ReplayAppend(map[], s.log, PutEntry(c, key, doc));
    assert s.log[..|s.log|] == s.log;
    RunExtends(t, ops);
    var longer := Run(t, ops).log;
    ReplayFails(map[], t.log, longer[|t.log|..]);
    assert longer == t.log + longer[|t.log|..];
  }

  /** A deleted collection is back after a restart, with its documents. */
  lemma DroppedComesBack(c: Text, key: Text, doc: Document)
    ensures var s := Run(EMPTY, [Create(c), Put(c, key, doc), Drop(c)]);
            s.db == map[] && Replay(map[], s.log) == Some(map[c := map[key := Some(doc)]])
  {
    var s1 := Step(EMPTY, Create(c)).0;
    var s2 := Step(s1, Put(c, key, doc)).0;
    var s3 := Step(s2, Drop(c)).0;
    var ops := [Create(c), Put(c, key, doc), Drop(c)];
    assert ops[1..] == [Put(c, key, doc), Drop(c)] && ops[1..][1..] == [Drop(c)] && ops[1..][1..][1..] == [];
    assert Run(EMPTY, ops) == Run(s1, ops[1..]) == Run(s2, ops[1..][1..]) == Run(s3, []) == s3;
    assert s3.db == map[];
    assert s3.log == [CreateEntry(c), PutEntry(c, key, doc), DropEntry(c)];
    ReplayAppend(map[], [], CreateEntry(c));
    ReplayAppend(map[], [CreateEntry(c)], PutEntry(c, key, doc));
    ReplayAppend(map[], [CreateEntry(c), PutEntry(c, key, doc)], DropEntry(c));
    assert [] + [CreateEntry(c)] == [CreateEntry(c)];
    assert [CreateEntry(c)] + [PutEntry(c, key, doc)] == [CreateEntry(c), PutEntry(c, key, doc)];
    assert [CreateEntry(c), PutEntry(c, key, doc)] + [DropEntry(c)] == s3.log;
    var kept: Db := map[c := map[key := Some(doc)]];
    var none: Docs := map[];
    var created: Db := map[c := none];
    assert PutDoc(none, key, doc) == map[key := Some(doc)];
    assert created[c := PutDoc(none, key, doc)] == kept;
    assert Replay1(created, PutEntry(c, key, doc)) == Some(kept);
  }
}
