/**
 What the document store does (tissdb/storage/lsm_tree.cpp, collection.cpp, transaction_manager.cpp), as
 steps of a state machine: collections without schema or index, buffered transactions, and the log of
 every direct write. `Database` holds the code; it takes these steps.
 */
module Store {
  import opened Options
  import opened Bytes
  import opened Codec
  import opened Wal

  /** The documents of a collection by key; `None` is a tombstone. */
  type Docs = map<Text, Option<Document>>
  type Db = map<Text, Docs>

  /** A buffered write of a transaction: a put with its document, or a delete. */
  datatype Operation = Operation(collection: Text, key: Text, doc: Option<Document>)

  /**
   `transactions` holds the active ones. `past[n]` is what `db` was after the first `n` entries of the
   log had been written and acted upon.
   */
  datatype State = State(db: Db, transactions: map<int, seq<Operation>>, next: int, log: seq<LogEntry>, past: seq<Db>)

  const EMPTY: State := State(map[], map[], 1, [], [map[]])

  datatype Op =
    | Create(collection: Text)
    | Drop(collection: Text)
    | Put(collection: Text, key: Text, doc: Document)
    | Del(collection: Text, key: Text)
    | Begin
    | TxPut(tid: int, collection: Text, key: Text, doc: Document)
    | TxDel(tid: int, collection: Text, key: Text)
    | Commit(tid: int)
    | Rollback(tid: int)

  /** What the caller sees: an exception, a truth value, or a new transaction's number. */
  datatype Reply = Threw | Answer(ok: bool) | Began(tid: int)

  // ---------- collections ----------

  function PutDoc(docs: Docs, key: Text, doc: Document): Docs { docs[key := Some(doc)] }

  predicate IsLive(docs: Docs, key: Text) { key in docs && docs[key].Some? }

  /** A tombstone in place of a live document; anything else stays as it is. */
  function DelDoc(docs: Docs, key: Text): Docs { if IsLive(docs, key) then docs[key := None] else docs }

  // ---------- log entries ----------

  function PutEntry(c: Text, key: Text, doc: Document): LogEntry { LogEntry(PUT, -1, c, key, doc) }
  function DelEntry(c: Text, key: Text): LogEntry { LogEntry(DELETE, -1, c, key, NO_DOCUMENT) }
  function CreateEntry(c: Text): LogEntry { LogEntry(CREATE_COLLECTION, -1, c, [], NO_DOCUMENT) }
  function DropEntry(c: Text): LogEntry { LogEntry(DELETE_COLLECTION, -1, c, [], NO_DOCUMENT) }

  // ---------- steps ----------

  /** The entry is logged, then the collections become `db`. */
  function Logged(s: State, e: LogEntry, db: Db): State {
    s.(db := db, log := s.log + [e], past := s.past + [db])
  }

  /** A put outside transactions; it is logged even if the collection is missing. */
  function PutNow(s: State, c: Text, key: Text, doc: Document): State {
    Logged(s, PutEntry(c, key, doc), if c in s.db then s.db[c := PutDoc(s.db[c], key, doc)] else s.db)
  }

  function DelNow(s: State, c: Text, key: Text): State {
    Logged(s, DelEntry(c, key), if c in s.db then s.db[c := DelDoc(s.db[c], key)] else s.db)
  }

  /** The loop of `commit_transaction`: it stops with an exception at a put into a missing collection. */
  function CommitAll(s: State, ops: seq<Operation>): (State, bool)
    decreases ops
  {
    if ops == [] then (s, true)
    else match ops[0].doc
      case Some(doc) =>
        if ops[0].collection in s.db then CommitAll(PutNow(s, ops[0].collection, ops[0].key, doc), ops[1..])
        else (PutNow(s, ops[0].collection, ops[0].key, doc), false)
      case None => CommitAll(DelNow(s, ops[0].collection, ops[0].key), ops[1..])
  }

  function Buffered(s: State, tid: int, op: Operation): (State, Reply) {
    if tid in s.transactions then (s.(transactions := s.transactions[tid := s.transactions[tid] + [op]]), Answer(true))
    else (s, Threw)
  }

  function Step(s: State, op: Op): (State, Reply) {
    match op
    case Create(c) =>
      if c in s.db then (s, Threw) else (Logged(s, CreateEntry(c), s.db[c := map[]]), Answer(true))
    case Drop(c) =>
      if c !in s.db then (s, Threw) else (Logged(s, DropEntry(c), s.db - {c}), Answer(true))
    case Put(c, key, doc) =>
      (PutNow(s, c, key, doc), if c in s.db then Answer(true) else Threw)
    case Del(c, key) =>
      (DelNow(s, c, key), Answer(c in s.db && IsLive(s.db[c], key)))
    case Begin =>
      (s.(transactions := s.transactions[s.next := []], next := s.next + 1), Began(s.next))
    case TxPut(tid, c, key, doc) => Buffered(s, tid, Operation(c, key, Some(doc)))
    case TxDel(tid, c, key) => Buffered(s, tid, Operation(c, key, None))
    case Commit(tid) =>
      if tid !in s.transactions then (s, Answer(false))
      else
        var (s', ok) := CommitAll(s, s.transactions[tid]);
        if ok then (s'.(transactions := s'.transactions - {tid}), Answer(true)) else (s', Threw)
    case Rollback(tid) =>
      (s.(transactions := s.transactions - {tid}), Answer(true))
  }

  function Run(s: State, ops: seq<Op>): State
    decreases ops
  {
    if ops == [] then s else Run(Step(s, ops[0]).0, ops[1..])
  }

  // ---------- reads ----------

  datatype Lookup = Absent | Tombstone | Found(doc: Document)

  /** `Collection::get`: the stored document under its key's name. */
  function GetDoc(docs: Docs, key: Text): Lookup {
    if key !in docs then Absent
    else match docs[key]
      case None => Tombstone
      case Some(doc) => Found(doc.(id := key))
  }

  function GetNow(db: Db, c: Text, key: Text): Lookup {
    if c in db then GetDoc(db[c], key) else Absent
  }

  /** The search of a transaction's buffer from its end. */
  function GetBuffered(ops: seq<Operation>, c: Text, key: Text): Option<Operation>
    decreases ops
  {
    if ops == [] then None
    else
      var last := ops[|ops| - 1];
      if last.collection == c && last.key == key then Some(last) else GetBuffered(ops[..|ops| - 1], c, key)
  }

  /** `LSMTree::get` inside a transaction, or outside if `tid` is not active. */
  function Get(s: State, tid: int, c: Text, key: Text): Lookup {
    if tid !in s.transactions then GetNow(s.db, c, key)
    else match GetBuffered(s.transactions[tid], c, key)
      case None => GetNow(s.db, c, key)
      case Some(op) => match op.doc { case Some(doc) => Found(doc) case None => Tombstone }
  }

  // ---------- recovery ----------

  /** One turn of the loop in `LSMTree::recover`; `None` if it throws. */
  function Replay1(db: Db, e: LogEntry): Option<Db> {
    if e.kind == PUT then
      if e.collection in db then Some(db[e.collection := PutDoc(db[e.collection], e.id, e.doc)]) else None
    else if e.kind == DELETE then
      Some(if e.collection in db then db[e.collection := DelDoc(db[e.collection], e.id)] else db)
    else if e.kind == CREATE_COLLECTION then
      Some(if e.collection in db then db else db[e.collection := map[]])
    else Some(db)
  }

  function Replay(db: Db, es: seq<LogEntry>): Option<Db>
    decreases es
  {
    if es == [] then Some(db)
    else match Replay1(db, es[0])
      case None => None
      case Some(db') => Replay(db', es[1..])
  }
}
