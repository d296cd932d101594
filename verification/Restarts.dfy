/** Opening the store over what a crash has left of the log file: the constructor, and the recovery that it starts. */
module Restarts {
  import opened Bytes
  import opened Wal
  import WalLaws
  import opened Store
  import opened StoreLaws
  import opened Database

  /** Over a log file cut at any byte, the store opens with what it was after the writes before the cut. */
  method Reopen(file: seq<Byte>, ghost s: State, ghost n: nat) returns (tree: LsmTree, ok: bool)
    requires Durable(s) && PlainLog(s) && WalLaws.AllWellTyped(s.log) && WalLaws.AllLoggable(s.log)
    requires n <= |Log(s.log)| && file == Log(s.log)[..n]
    ensures fresh(tree.Repr()) && tree.Valid() && tree.base == file
    ensures ok && Whole(s.log, n) < |s.past| && tree.Now() == EMPTY.(db := s.past[Whole(s.log, n)])
  {
    hide Durable, PlainLog, Recovered, Log, Whole, Replay, LsmTree.DbNow;
    CutRecovers(s, n);
    tree := new LsmTree(file);
    assert tree.wal.file == file by { NothingAppended(tree); }
    ok := tree.Recover();
  }

  lemma NothingAppended(tree: LsmTree)
    requires tree.Valid() && tree.log == []
    ensures tree.wal.file == tree.base
  {
  }

  /** Over a file that a crash has left with whole records, the store opens in the state that a restart begins with. */
  method Restart(file: seq<Byte>, ghost s: State, ghost kept: nat) returns (tree: LsmTree, ok: bool)
    requires Durable(s) && PlainLog(s) && kept <= |s.log| && |s.past| == |s.log| + 1
    requires WalLaws.AllWellTyped(s.log[..kept]) && WalLaws.AllLoggable(s.log[..kept])
    requires file == Log(s.log[..kept])
    ensures fresh(tree.Repr()) && tree.Valid()
    ensures ok && tree.Now() == Restarted(s, kept)
  {
    hide Durable, PlainLog, Recovered, Log, Whole, Replay, LsmTree.DbNow;
    ghost var r := Restarted(s, kept);
    RestartDurable(s, kept);
    WholeIff(r.log, |file|, kept);
    assert r.log[..kept] == r.log && file[..|file|] == file;
    CutRecovers(r, |file|);
    tree := new LsmTree.Over(file, r.log, r.past);
    assert tree.wal.file == file by { assert [] + Log(r.log) == Log(r.log); }
    ok := tree.Recover();
  }
}
