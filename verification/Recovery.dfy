/** What a restart concludes from the surviving log. */
module Recovery {
  import opened Sequences
  import opened Mvcc
  import opened Wal

  type Log = seq<Record>

  /* ---------- log analysis ---------- */

  /** Start of the records after the last checkpoint (0 without one). */
  function Tail(log: Log): (i: nat)
    ensures i <= |log|
    ensures forall j :: i <= j < |log| ==> log[j].kind != CHECKPOINT
    ensures i > 0 ==> log[i - 1].kind == CHECKPOINT
  {
    if log == [] then 0
    else if log[|log| - 1].kind == CHECKPOINT then |log|
    else Tail(log[..|log| - 1])
  }

  /** `read_since_last_checkpoint`, on the parsed records. */
  method ReadSinceLastCheckpoint(log: Log) returns (r: Log)
    ensures r == log[Tail(log)..]
  {
    var last: Option<nat> := None;
    for i := 0 to |log|
      invariant last.None? ==> forall j :: 0 <= j < i ==> log[j].kind != CHECKPOINT
      invariant last.Some? ==> last.value < i && log[last.value].kind == CHECKPOINT
      invariant last.Some? ==> forall j :: last.value < j < i ==> log[j].kind != CHECKPOINT
    {
      if log[i].kind == CHECKPOINT {
        last := Some(i);
      }
    }
    ghost var t := Tail(log);
    if last.None? {
      assert t == 0;
      return log;
    }
    assert t == last.value + 1;
    return log[last.value + 1..];
  }

  /** `next_txn_id_after_recovery`: the least id above every id in the log. */
  method NextTxnIdAfterRecovery(log: Log) returns (id: nat)
    ensures id == NextId(log)
  {
    var maxSeen := 0;
    for i := 0 to |log|
      invariant maxSeen + 1 == NextId(log[..i])
    {
      assert log[..i + 1][..i] == log[..i];
      maxSeen := if log[i].txn > maxSeen then log[i].txn else maxSeen;
    }
    assert log[..|log|] == log;
    return maxSeen + 1;
  }

  function NextId(log: Log): (id: nat)
    ensures id >= 1
    ensures forall i :: 0 <= i < |log| ==> log[i].txn < id
    ensures id == 1 || exists i :: 0 <= i < |log| && log[i].txn + 1 == id
  {
    if log == [] then 1
    else
      var before, x := NextId(log[..|log| - 1]), log[|log| - 1].txn;
      if x >= before then x + 1 else before
  }

  ghost predicate Logged(log: Log, kind: Kind, x: Xid) {
    exists i :: LoggedAt(log, kind, x, i)
  }

  ghost predicate LoggedAt(log: Log, kind: Kind, x: Xid, i: int) {
    0 <= i < |log| && log[i].kind == kind && log[i].txn == x
  }

  function TxnsOf(log: Log, kind: Kind): (s: set<Xid>) {
    set i | 0 <= i < |log| && log[i].kind == kind :: log[i].txn
  }

  lemma TxnsOfLogged(log: Log, kind: Kind, x: Xid)
    ensures x in TxnsOf(log, kind) <==> Logged(log, kind, x)
  {
    if x in TxnsOf(log, kind) {
      var i :| 0 <= i < |log| && log[i].kind == kind && log[i].txn == x;
      assert LoggedAt(log, kind, x, i);
    }
    if Logged(log, kind, x) {
      var i :| LoggedAt(log, kind, x, i);
      assert log[i].txn in TxnsOf(log, kind);
    }
  }

  /** A record of the tail is a record of the log at or after its start. */
  lemma TailLogged(log: Log, kind: Kind, x: Xid)
    ensures Logged(log[Tail(log)..], kind, x) <==> exists i :: i >= Tail(log) && LoggedAt(log, kind, x, i)
  {
    var t := Tail(log);
    if Logged(log[t..], kind, x) {
      var i :| LoggedAt(log[t..], kind, x, i);
      assert LoggedAt(log, kind, x, i + t);
    }
    if i :| i >= t && LoggedAt(log, kind, x, i) {
      assert LoggedAt(log[t..], kind, x, i - t);
    }
  }

  /** `uncommitted_txn_ids_since_checkpoint`. */
  function Uncommitted(log: Log): (s: set<Xid>) {
    var records := log[Tail(log)..];
    TxnsOf(records, BEGIN) - TxnsOf(records, COMMIT)
  }

  function Filter(log: Log, keep: set<Xid>): (r: Log)
  {
    if log == [] then []
    else if log[0].kind == OP && log[0].txn in keep then [log[0]] + Filter(log[1..], keep)
    else Filter(log[1..], keep)
  }

  /** `committed_operations_since_checkpoint`. */
  function ReplayList(log: Log): (r: Log) {
    var records := log[Tail(log)..];
    Filter(records, TxnsOf(records, COMMIT))
  }

  /* ---------- the replay list ---------- */

  lemma {:induction false} FilterPicks(log: Log, keep: set<Xid>) returns (at: seq<nat>)
    ensures Picked(Filter(log, keep), log, at)
    ensures forall i: nat :: i < |log| ==> (i in at <==> log[i].kind == OP && log[i].txn in keep)
    decreases |log|
  {
    at := [];
    if log != [] {
      var rest := FilterPicks(log[1..], keep);
      at := PickedCons(Filter(log[1..], keep), log, rest, log[0].kind == OP && log[0].txn in keep);
    }
  }

  /** Record `i` of the log is to be replayed when the log is cut at `k`: an operation behind
      the last checkpoint whose transaction's COMMIT stands there too. */
  ghost predicate Replayed(log: Log, k: nat, i: nat)
    requires k <= |log|
  {
    && Tail(log[..k]) <= i < k && log[i].kind == OP
    && exists c :: Tail(log[..k]) <= c < k && log[c].kind == COMMIT && log[c].txn == log[i].txn
  }

  /** Wherever the log is cut, the replay list is exactly those records, in log order. */
  lemma ReplayListMeans(log: Log, k: nat) returns (at: seq<nat>)
    requires k <= |log|
    ensures Picked(ReplayList(log[..k]), log, at)
    ensures forall i: nat :: i < |log| ==> (i in at <==> Replayed(log, k, i))
  {
    var cut, t := log[..k], Tail(log[..k]);
    var records := cut[t..];
    var inner := FilterPicks(records, TxnsOf(records, COMMIT));
    PickedBehind(ReplayList(cut), cut, inner, t);
    at := Shifted(inner, t);
    forall i: nat | i < |log| ensures i in at <==> Replayed(log, k, i) {
      ShiftedMembers(inner, t, i);
      if t <= i < k { ReplayedIff(log, k, i); }
      if i - t in inner { assert i < k; }
    }
  }

  lemma ReplayedIff(log: Log, k: nat, i: nat)
    requires k <= |log| && Tail(log[..k]) <= i < k
    ensures var t := Tail(log[..k]);
            var records := log[..k][t..];
            && |records| == k - t && records[i - t] == log[i]
            && (Replayed(log, k, i) <==> log[i].kind == OP && log[i].txn in TxnsOf(records, COMMIT))
  {
    var t := Tail(log[..k]);
    var records := log[..k][t..];
    TxnsOfLogged(records, COMMIT, log[i].txn);
    if c :| LoggedAt(records, COMMIT, log[i].txn, c) { assert log[c + t] == records[c]; }
    if c :| t <= c < k && log[c].kind == COMMIT && log[c].txn == log[i].txn {
      assert LoggedAt(records, COMMIT, log[i].txn, c - t);
    }
  }

  /* ---------- what a well-behaved engine writes ---------- */

  /** A COMMIT comes after its BEGIN with no checkpoint in between, no BEGIN is
      written twice, and a committed transaction writes nothing more. */
  ghost predicate WellFormed(log: Log) {
    && (forall i :: 0 <= i < |log| && log[i].kind == COMMIT ==> Opened(log, i))
    && (forall i, j :: 0 <= i < j < |log| && log[i].kind == BEGIN && log[j].kind == BEGIN ==> log[i].txn != log[j].txn)
    && (forall i, j :: 0 <= i < j < |log| && log[i].kind == COMMIT && log[j].kind == OP ==> log[i].txn != log[j].txn)
  }

  ghost predicate Opened(log: Log, i: nat)
    requires i < |log|
  {
    exists j :: 0 <= j < i && LoggedAt(log, BEGIN, log[i].txn, j)
             && (forall m :: j < m < i ==> log[m].kind != CHECKPOINT)
  }

  lemma OpenedPrefix(log: Log, k: nat, i: nat)
    requires i < k <= |log| && Opened(log, i)
    ensures Opened(log[..k], i)
  {
    var j :| 0 <= j < i && LoggedAt(log, BEGIN, log[i].txn, j) && (forall m :: j < m < i ==> log[m].kind != CHECKPOINT);
    assert LoggedAt(log[..k], BEGIN, log[..k][i].txn, j);
  }

  lemma WellFormedPrefix(log: Log, k: nat)
    requires WellFormed(log) && k <= |log|
    ensures WellFormed(log[..k])
  {
    forall i | 0 <= i < k && log[..k][i].kind == COMMIT ensures Opened(log[..k], i) {
      OpenedPrefix(log, k, i);
    }
  }

  /** Counted as committed by every snapshot taken after the restart. */
  ghost predicate Counts(log: Log, x: Xid) {
    x < NextId(log) && x !in Uncommitted(log)
  }

  /** Restart classifies an id rightly exactly when its COMMIT survived, or it
      began after the last checkpoint, or it is beyond every id in the log. */
  lemma RestartClassifies(log: Log, x: Xid)
    requires WellFormed(log)
    ensures (Counts(log, x) <==> Logged(log, COMMIT, x))
            <==> Logged(log, COMMIT, x) || Logged(log[Tail(log)..], BEGIN, x) || x >= NextId(log)
  {
    TailLogged(log, BEGIN, x);
    if b :| LoggedAt(log, BEGIN, x, b) {
      UncommittedIff(log, b);
    } else {
      NotBegun(log, x);
    }
  }

  lemma NotBegun(log: Log, x: Xid)
    requires WellFormed(log) && !Logged(log, BEGIN, x)
    ensures x !in Uncommitted(log) && !Logged(log, COMMIT, x) && !Logged(log[Tail(log)..], BEGIN, x)
  {
    TxnsOfLogged(log[Tail(log)..], BEGIN, x);
    TailLogged(log, BEGIN, x);
    CommitMeansBegun(log, x);
  }

  lemma CommitMeansBegun(log: Log, x: Xid)
    requires WellFormed(log)
    ensures Logged(log, COMMIT, x) ==> Logged(log, BEGIN, x)
  {
    if Logged(log, COMMIT, x) {
      var i :| LoggedAt(log, COMMIT, x, i);
      assert Opened(log, i);
    }
  }

  lemma UncommittedIff(log: Log, b: nat)
    requires WellFormed(log) && b < |log| && log[b].kind == BEGIN
    ensures log[b].txn in Uncommitted(log) <==> b >= Tail(log) && !Logged(log, COMMIT, log[b].txn)
  {
    var x, t := log[b].txn, Tail(log);
    TxnsOfLogged(log[t..], BEGIN, x);
    TxnsOfLogged(log[t..], COMMIT, x);
    TailLogged(log, BEGIN, x);
    TailLogged(log, COMMIT, x);
    assert LoggedAt(log, BEGIN, x, b);
    forall i | LoggedAt(log, BEGIN, x, i) ensures i == b {
    }
    forall i | LoggedAt(log, COMMIT, x, i) ensures b >= t <==> i >= t {
      CommitSide(log, b, i);
    }
  }

  /** BEGIN and COMMIT of a transaction lie on the same side of the last checkpoint. */
  lemma CommitSide(log: Log, b: nat, i: nat)
    requires WellFormed(log) && b < |log| && log[b].kind == BEGIN
    requires i < |log| && log[i].kind == COMMIT && log[i].txn == log[b].txn
    ensures b < i && (b >= Tail(log) <==> i >= Tail(log))
  {
    assert Opened(log, i);
    var j :| 0 <= j < i && LoggedAt(log, BEGIN, log[i].txn, j) && (forall m :: j < m < i ==> log[m].kind != CHECKPOINT);
    assert j == b;
    assert Tail(log) > 0 ==> log[Tail(log) - 1].kind == CHECKPOINT;
  }

  /** The failing case, concretely: begin, abort, checkpoint, crash. */
  lemma AbortBeforeCheckpointIsForgotten()
    ensures var log := [Record(BEGIN, 1, []), Record(ABORT, 1, []), Record(CHECKPOINT, 0, [])];
            WellFormed(log) && Logged(log, ABORT, 1) && !Logged(log, COMMIT, 1) && Counts(log, 1)
  {
    var log := [Record(BEGIN, 1, []), Record(ABORT, 1, []), Record(CHECKPOINT, 0, [])];
    ForgottenIsWellFormed(log);
    assert LoggedAt(log, BEGIN, 1, 0) && LoggedAt(log, ABORT, 1, 1);
    assert !Logged(log, COMMIT, 1);
    assert 1 < NextId(log) by { assert log[0].txn == 1; }
    UncommittedIff(log, 0);
  }

  lemma ForgottenIsWellFormed(log: Log)
    requires log == [Record(BEGIN, 1, []), Record(ABORT, 1, []), Record(CHECKPOINT, 0, [])]
    ensures WellFormed(log)
  {
  }

  /* ---------- ids in order ---------- */

  /** The BEGIN of `y` is at position `i` or before it. */
  ghost predicate BegunBy(log: Log, y: Xid, i: nat) {
    exists j :: 0 <= j <= i && LoggedAt(log, BEGIN, y, j)
  }

  /** Ids are handed out one by one from 1: when an id appears, it and every smaller
      one has begun. */
  ghost predicate Orderly(log: Log) {
    && (forall i :: 0 <= i < |log| && log[i].kind == BEGIN ==> log[i].txn >= 1)
    && (forall i, y {:trigger BegunBy(log, y, i)} :: 0 <= i < |log| && 1 <= y <= log[i].txn ==> BegunBy(log, y, i))
  }

  lemma OrderlyPrefix(log: Log, k: nat)
    requires Orderly(log) && k <= |log|
    ensures Orderly(log[..k])
  {
    forall i, y | 0 <= i < k && 1 <= y <= log[..k][i].txn ensures BegunBy(log[..k], y, i) {
      assert BegunBy(log, y, i);
      var j :| 0 <= j <= i && LoggedAt(log, BEGIN, y, j);
      assert LoggedAt(log[..k], BEGIN, y, j);
    }
  }

  /** In an orderly log the ids below the next one are exactly those that began. */
  lemma BegunIffBelow(log: Log, x: Xid)
    requires Orderly(log) && x >= 1
    ensures Logged(log, BEGIN, x) <==> x < NextId(log)
  {
    if x < NextId(log) {
      var i :| 0 <= i < |log| && log[i].txn + 1 == NextId(log);
      assert BegunBy(log, x, i);
    }
    if Logged(log, BEGIN, x) {
      var i :| LoggedAt(log, BEGIN, x, i);
      assert log[i].txn == x;
    }
  }

  /** In an orderly log restart goes wrong about exactly the ids that began before the
      last checkpoint and did not commit: aborts that the checkpoint made it forget. */
  lemma OrderlyClassifies(log: Log, x: Xid)
    requires WellFormed(log) && Orderly(log) && x >= 1
    ensures (Counts(log, x) <==> Logged(log, COMMIT, x)) <==>
            !(Logged(log, BEGIN, x) && !Logged(log[Tail(log)..], BEGIN, x) && !Logged(log, COMMIT, x))
  {
    RestartClassifies(log, x);
    BegunIffBelow(log, x);
    CommitMeansBegun(log, x);
  }

  /* ---------- atomic replay ---------- */

  lemma {:induction false} FilterConcat(a: Log, b: Log, keep: set<Xid>)
    ensures Filter(a + b, keep) == Filter(a, keep) + Filter(b, keep)
    decreases |a|
  {
    if a == [] {
      assert a + b == b;
    } else {
      FilterConcat(a[1..], b, keep);
      assert (a + b)[0] == a[0] && (a + b)[1..] == a[1..] + b;
      if a[0].kind == OP && a[0].txn in keep {
        Assoc([a[0]], Filter(a[1..], keep), Filter(b, keep));
      }
    }
  }

  lemma {:induction false} FilterEmpty(a: Log, keep: set<Xid>)
    requires forall i :: 0 <= i < |a| && a[i].kind == OP ==> a[i].txn !in keep
    ensures Filter(a, keep) == []
    decreases |a|
  {
    if a != [] {
      FilterEmpty(a[1..], keep);
    }
  }

  /** A transaction's own share of a filtered log. */
  lemma {:induction false} FilterOne(a: Log, keep: set<Xid>, x: Xid)
    ensures Filter(Filter(a, keep), {x}) == if x in keep then Filter(a, {x}) else []
    decreases |a|
  {
    if a != [] {
      FilterOne(a[1..], keep, x);
      var f := Filter(a[1..], keep);
      if a[0].kind == OP && a[0].txn in keep {
        assert ([a[0]] + f)[1..] == f;
      }
    }
  }

  lemma ReplayShare(records: Log, late: Log, x: Xid)
    requires Logged(records, COMMIT, x) ==> forall i :: 0 <= i < |late| && late[i].kind == OP ==> late[i].txn != x
    ensures Filter(Filter(records, TxnsOf(records, COMMIT)), {x}) ==
            if Logged(records, COMMIT, x) then Filter(records + late, {x}) else []
  {
    TxnsOfLogged(records, COMMIT, x);
    FilterOne(records, TxnsOf(records, COMMIT), x);
    if Logged(records, COMMIT, x) {
      FilterEmpty(late, {x});
      FilterConcat(records, late, {x});
    }
  }

  /** Operations past a cut do not belong to a transaction whose COMMIT is before it. */
  lemma NoLateOps(log: Log, t: nat, k: nat, x: Xid)
    requires WellFormed(log) && t <= k <= |log| && Logged(log[t..k], COMMIT, x)
    ensures forall i :: 0 <= i < |log[k..]| && log[k..][i].kind == OP ==> log[k..][i].txn != x
  {
    var c :| LoggedAt(log[t..k], COMMIT, x, c);
    assert log[c + t].kind == COMMIT && log[c + t].txn == x;
    forall i | 0 <= i < |log[k..]| && log[k..][i].kind == OP ensures log[k..][i].txn != x {
      assert log[k..][i] == log[i + k];
    }
  }

  /** Replay is all or nothing: wherever the log is cut, each transaction has either
      all of its operations since the last checkpoint that survived replayed, in
      order, or none. */
  lemma ReplayIsAtomic(log: Log, k: nat, x: Xid)
    requires WellFormed(log) && k <= |log|
    ensures var t := Tail(log[..k]);
            Filter(ReplayList(log[..k]), {x}) == if Logged(log[t..k], COMMIT, x) then Filter(log[t..], {x}) else []
  {
    var t := Tail(log[..k]);
    SliceConcat(log, t, k);
    if Logged(log[t..k], COMMIT, x) { NoLateOps(log, t, k, x); }
    ReplayShare(log[t..k], log[k..], x);
  }
}
