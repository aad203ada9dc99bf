/** Heap and indexes over whole runs of interleaved transactions. */
module DatabaseRuns {
  import opened BTreeEntries
  import opened Mvcc
  import opened MvccProof
  import opened Statements
  import opened Schema
  import opened Indexes
  import opened Changes

  /** What clients do, row by row: a row of an INSERT or UPDATE, a row of a DELETE, and the
      statements that are not about rows. */
  datatype Action =
    | Start
    | Write(t: Xid, ch: Change)
    | Remove(t: Xid, r: RID)
    | NewIndex(name: string, column: nat, unique: bool, order: seq<RID>)
    | End(t: Xid, commit: bool)

  ghost predicate SeenBy(db: Db, t: Xid, r: RID) {
    t in db.s.snaps && r in db.s.heap && IsVisible(db.s.aborted, db.s.heap[r].xmin, db.s.heap[r].xmax, db.s.snaps[t])
  }

  function EndStep(t: Xid, commit: bool): (st: Step<Tuple>) {
    if commit then Commit(t) else Abort(t)
  }

  /** One action leads from `a` to `b`; a conflict, and a second end, change nothing. */
  ghost predicate Acts(cfg: Config, a: Db, act: Action, b: Db) {
    match act
    case Start => CanStep(a.s, Begin) && b == a.(s := Next(a.s, Begin))
    case Write(t, ch) => Admissible(cfg, a, t, ch) && b == Apply(cfg, a, t, ch).db
    case Remove(t, r) =>
      && t in a.s.active && SeenBy(a, t, r)
      && b == if CanStep(a.s, Stamp(t, r)) then a.(s := Next(a.s, Stamp(t, r))) else a
    case NewIndex(name, column, unique, order) =>
      HeapScan(a.s.heap, order) && Created(cfg, a, b, name, column, unique, order)
    case End(t, commit) => b == if t in a.s.active then a.(s := Next(a.s, EndStep(t, commit))) else a
  }

  ghost predicate IsRun(cfg: Config, dbs: seq<Db>, acts: seq<Action>) {
    && |dbs| == |acts| + 1 && dbs[0] == Db(State(1, {}, {}, map[], map[]), map[], [])
    && forall i {:trigger acts[i]} :: 0 <= i < |acts| ==> Acts(cfg, dbs[i], acts[i], dbs[i + 1])
  }

  /** The action leaves version `r` without an entry in index `n`: the index or one before it
      raised on the row, or its own backfill raised before it got there. */
  ghost predicate LeftOut(cfg: Config, a: Db, act: Action, n: string, r: RID) {
    match act
    case Write(t, ch) =>
      Admissible(cfg, a, t, ch) && n in a.indexes && r == ch.rid && Skipped(a.names, Apply(cfg, a, t, ch).fate, n)
    case NewIndex(name, column, _, order) =>
      && name == n && Indexable(cfg, a, name, column) && !LeavesStaleRoot(a.s.heap, column, order, cfg.most)
      && !Uncrowded(a.s.heap, column, cfg.most) && r in Rest(order, cfg.most)
    case _ => false
  }

  /** What one action does to the gaps of an index that is not new. */
  ghost predicate GapsMove(cfg: Config, a: Db, act: Action, b: Db, n: string)
    requires n in a.indexes && n in b.indexes
  {
    forall r :: r in Gaps(b.s.heap, b.indexes[n]) <==> r in Gaps(a.s.heap, a.indexes[n]) || LeftOut(cfg, a, act, n, r)
  }

  ghost predicate Grows(a: Db, b: Db) {
    a.names <= b.names && a.indexes.Keys <= b.indexes.Keys
  }

  lemma WriteKeeps(cfg: Config, a: Db, t: Xid, ch: Change, b: Db, n: string)
    requires DbOk(cfg, a) && Acts(cfg, a, Write(t, ch), b)
    ensures DbOk(cfg, b) && SameNames(a, b)
    ensures n in a.indexes ==> GapsMove(cfg, a, Write(t, ch), b, n)
  {
    var fate := Apply(cfg, a, t, ch).fate;
    var steps := LinkedKeeps(cfg, a, b, t, ch, fate);
    if n in a.indexes {
      GapStep(a, b, fate, ch.rid, n);
      WriteMoves(cfg, a, t, ch, b, n, fate);
    }
  }

  lemma WriteMoves(cfg: Config, a: Db, t: Xid, ch: Change, b: Db, n: string, fate: Fate)
    requires Admissible(cfg, a, t, ch) && fate == Apply(cfg, a, t, ch).fate
    requires n in a.indexes && n in b.indexes && GapAfter(a, b, fate, ch.rid, n)
    ensures GapsMove(cfg, a, Write(t, ch), b, n)
  {
  }

  /** A step that touches no version's values. */
  lemma StepKeeps(cfg: Config, a: Db, st: Step<Tuple>)
    requires DbOk(cfg, a) && CanStep(a.s, st) && (st.Begin? || st.Commit? || st.Abort?)
    ensures DbOk(cfg, a.(s := Next(a.s, st))) && Next(a.s, st).heap == a.s.heap
  {
    InvNext(a.s, st);
    var b := a.(s := Next(a.s, st));
    forall n | n in b.indexes ensures IndexFits(cfg, b.s.heap, b.indexes[n]) {
      assert IndexFits(cfg, a.s.heap, a.indexes[n]);
    }
  }

  lemma RemoveKeeps(cfg: Config, a: Db, t: Xid, r: RID, b: Db, n: string)
    requires DbOk(cfg, a) && Acts(cfg, a, Remove(t, r), b)
    ensures DbOk(cfg, b) && a.names == b.names && a.indexes == b.indexes
    ensures n in a.indexes ==> GapsMove(cfg, a, Remove(t, r), b, n)
  {
    if CanStep(a.s, Stamp(t, r)) { StampDb(cfg, a, t, r); }
  }

  lemma NewIndexKeeps(cfg: Config, a: Db, act: Action, b: Db, n: string)
    requires DbOk(cfg, a) && act.NewIndex? && Acts(cfg, a, act, b)
    ensures DbOk(cfg, b) && Grows(a, b)
    ensures n in a.indexes ==> GapsMove(cfg, a, act, b, n)
    ensures n in b.indexes && n !in a.indexes ==>
      && n == act.name && n !in a.names
      && forall r :: r in Gaps(b.s.heap, b.indexes[n]) <==> LeftOut(cfg, a, act, n, r)
  {
    CreatedOk(cfg, a, b, act.name, act.column, act.unique, act.order);
  }

  /** One action: soundness is kept, and gaps appear exactly where something was left out. */
  lemma ActKeeps(cfg: Config, a: Db, act: Action, b: Db, n: string)
    requires DbOk(cfg, a) && Acts(cfg, a, act, b)
    ensures DbOk(cfg, b) && Grows(a, b)
    ensures n in a.indexes ==> GapsMove(cfg, a, act, b, n)
    ensures n in b.indexes && n !in a.indexes ==>
      n !in a.names && forall r :: r in Gaps(b.s.heap, b.indexes[n]) <==> LeftOut(cfg, a, act, n, r)
  {
    match act
    case Start => StepKeeps(cfg, a, Begin);
    case Write(t, ch) => WriteKeeps(cfg, a, t, ch, b, n);
    case Remove(t, r) => RemoveKeeps(cfg, a, t, r, b, n);
    case NewIndex(_, _, _, _) => NewIndexKeeps(cfg, a, act, b, n);
    case End(t, commit) => if t in a.s.active { StepKeeps(cfg, a, EndStep(t, commit)); }
  }

  /** What one action does to the committed table: a commit adds what its transaction inserted
      and takes out what it stamped, and nothing else changes it. */
  lemma ActPublishes(cfg: Config, a: Db, act: Action, b: Db)
    requires DbOk(cfg, a) && Acts(cfg, a, act, b)
    ensures LiveRows(b.s) ==
      if act.End? && act.commit && act.t in a.s.active
      then (LiveRows(a.s) + AddedBy(a.s, act.t)) - RemovedBy(a.s, act.t) else LiveRows(a.s)
    ensures act.End? ==> act.t !in b.s.active
    ensures act.End? && act.t in a.s.active ==> (act.t in b.s.aborted <==> !act.commit)
  {
    match act
    case Start => LiveSame(a.s, Begin);
    case Write(t, ch) =>
      var fate := Apply(cfg, a, t, ch).fate;
      var steps := LinkedKeeps(cfg, a, b, t, ch, fate);
      WritesExactly(a.s, steps, t);
    case Remove(t, r) => if CanStep(a.s, Stamp(t, r)) { LiveSame(a.s, Stamp(t, r)); }
    case NewIndex(_, _, _, _) =>
    case End(t, commit) =>
      if t in a.s.active {
        if commit { LiveCommit(a.s, t); } else { LiveSame(a.s, Abort(t)); }
      }
  }

  /** Version `r` was left out of index `n` by one of the first `k` actions. */
  ghost predicate EverLeftOut(cfg: Config, dbs: seq<Db>, acts: seq<Action>, k: nat, n: string, r: RID)
    requires |dbs| == |acts| + 1 && k <= |acts|
  {
    k > 0 && (EverLeftOut(cfg, dbs, acts, k - 1, n, r) || LeftOut(cfg, dbs[k - 1], acts[k - 1], n, r))
  }

  lemma LeftOutNames(cfg: Config, a: Db, act: Action, b: Db, n: string, r: RID)
    requires DbOk(cfg, a) && Acts(cfg, a, act, b) && LeftOut(cfg, a, act, n, r)
    ensures n in b.names
  {
    ActKeeps(cfg, a, act, b, n);
  }

  /** Every state of a run is sound. */
  lemma {:induction false} RunKeeps(cfg: Config, dbs: seq<Db>, acts: seq<Action>, k: nat)
    requires IsRun(cfg, dbs, acts) && k <= |acts|
    ensures DbOk(cfg, dbs[k])
  {
    if k > 0 {
      var act := acts[k - 1];
      RunKeeps(cfg, dbs, acts, k - 1);
      ActKeeps(cfg, dbs[k - 1], act, dbs[k], "");
    }
  }

  ghost predicate IsGap(db: Db, n: string, r: RID) {
    n in db.indexes && r in Gaps(db.s.heap, db.indexes[n])
  }

  /** What step `k` of a run does to index `n` and version `r`; `left` if it leaves it out. */
  lemma StepAt(cfg: Config, dbs: seq<Db>, acts: seq<Action>, k: nat, n: string, r: RID) returns (left: bool)
    requires IsRun(cfg, dbs, acts) && 0 < k <= |acts|
    ensures left == LeftOut(cfg, dbs[k - 1], acts[k - 1], n, r)
    ensures dbs[k - 1].names <= dbs[k].names && (left ==> n in dbs[k].names)
    ensures n in dbs[k - 1].indexes ==> (IsGap(dbs[k], n, r) <==> IsGap(dbs[k - 1], n, r) || left)
    ensures n in dbs[k].indexes && n !in dbs[k - 1].indexes ==>
      n !in dbs[k - 1].names && (IsGap(dbs[k], n, r) <==> left)
  {
    var act := acts[k - 1];
    RunKeeps(cfg, dbs, acts, k - 1);
    ActKeeps(cfg, dbs[k - 1], act, dbs[k], n);
    left := LeftOut(cfg, dbs[k - 1], act, n, r);
    if left { LeftOutNames(cfg, dbs[k - 1], act, dbs[k], n, r); }
  }

  /** Whatever was left out had a name. */
  lemma {:induction false} NamedBefore(cfg: Config, dbs: seq<Db>, acts: seq<Action>, k: nat, n: string, r: RID)
    requires IsRun(cfg, dbs, acts) && k <= |acts|
    ensures EverLeftOut(cfg, dbs, acts, k, n, r) ==> n in dbs[k].names
  {
    if k > 0 {
      NamedBefore(cfg, dbs, acts, k - 1, n, r);
      var left := StepAt(cfg, dbs, acts, k, n, r);
    }
  }

  /** Over any run from an empty table every state is sound, and the versions an index lacks are
      exactly those that a raising index or its own backfill left out. */
  lemma {:induction false} GapsOverRuns(cfg: Config, dbs: seq<Db>, acts: seq<Action>, k: nat, n: string, r: RID)
    requires IsRun(cfg, dbs, acts) && k <= |acts|
    ensures DbOk(cfg, dbs[k])
    ensures n in dbs[k].indexes ==>
      (r in Gaps(dbs[k].s.heap, dbs[k].indexes[n]) <==> EverLeftOut(cfg, dbs, acts, k, n, r))
  {
    RunKeeps(cfg, dbs, acts, k);
    GapIff(cfg, dbs, acts, k, n, r);
  }

  lemma {:induction false} GapIff(cfg: Config, dbs: seq<Db>, acts: seq<Action>, k: nat, n: string, r: RID)
    requires IsRun(cfg, dbs, acts) && k <= |acts|
    ensures n in dbs[k].indexes ==> (IsGap(dbs[k], n, r) <==> EverLeftOut(cfg, dbs, acts, k, n, r))
  {
    if k > 0 {
      GapIff(cfg, dbs, acts, k - 1, n, r);
      NamedBefore(cfg, dbs, acts, k - 1, n, r);
      var left := StepAt(cfg, dbs, acts, k, n, r);
    }
  }
}
