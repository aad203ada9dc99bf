/** Statements: how INSERT, UPDATE, DELETE and CREATE INDEX change heap, headers
    and indexes together. */
module Database {
  import opened Sequences
  import opened BTreeEntries
  import opened Expr
  import opened Mvcc
  import opened MvccProof
  import opened Pushdown
  import opened Statements
  import opened Schema
  import opened Indexes
  import opened Changes

  predicate SetsFit(sets: seq<(nat, Value)>, width: nat) {
    forall i :: 0 <= i < |sets| ==> sets[i].0 < width
  }

  /** SET col = literal, ... applied to a tuple. */
  function Assign(row: Tuple, sets: seq<(nat, Value)>): (r: Tuple)
    requires SetsFit(sets, |row|)
    ensures |r| == |row|
    decreases |sets|
  {
    if sets == [] then row else Assign(row[sets[0].0 := sets[0].1], sets[1..])
  }

  /** The last assignment to a column wins; other columns keep their value. */
  lemma {:induction false} AssignAt(row: Tuple, sets: seq<(nat, Value)>, c: nat)
    requires SetsFit(sets, |row|) && c < |row|
    ensures (forall i :: 0 <= i < |sets| ==> sets[i].0 != c) ==> Assign(row, sets)[c] == row[c]
    ensures forall i :: 0 <= i < |sets| && sets[i].0 == c && (forall j :: i < j < |sets| ==> sets[j].0 != c) ==>
      Assign(row, sets)[c] == sets[i].1
    decreases |sets|
  {
    if sets != [] {
      AssignAt(row[sets[0].0 := sets[0].1], sets[1..], c);
      forall i | 0 <= i < |sets| && sets[i].0 == c && (forall j :: i < j < |sets| ==> sets[j].0 != c)
        ensures Assign(row, sets)[c] == sets[i].1
      {
        if i > 0 { assert sets[1..][i - 1] == sets[i]; }
      }
    }
  }

  /* ---------- statements as changes ---------- */

  ghost function Inserts(rows: seq<Tuple>, rids: seq<RID>): (chs: seq<Change>)
    requires |rids| == |rows|
  {
    seq(|rows|, i requires 0 <= i < |rows| => Change(None, rows[i], rids[i]))
  }

  ghost function Updates(heap: Heap, matches: seq<RID>, sets: seq<(nat, Value)>, rids: seq<RID>): (chs: seq<Change>)
    requires |rids| == |matches|
    requires forall i :: 0 <= i < |matches| ==> matches[i] in heap && SetsFit(sets, |heap[matches[i]].row|)
  {
    seq(|matches|, i requires 0 <= i < |matches| =>
          Change(Some(matches[i]), Assign(heap[matches[i]].row, sets), rids[i]))
  }

  /** The rows a statement of `t` found: different, stored, visible. */
  ghost predicate Found(s: State<Tuple>, t: Xid, matches: seq<RID>) {
    && t in s.snaps && Distinct(matches)
    && forall i :: 0 <= i < |matches| ==>
         matches[i] in s.heap && IsVisible(s.aborted, s.heap[matches[i]].xmin, s.heap[matches[i]].xmax, s.snaps[t])
  }

  ghost predicate FreeRids(s: State<Tuple>, rids: seq<RID>) {
    Distinct(rids) && forall i :: 0 <= i < |rids| ==> rids[i] !in s.heap
  }

  lemma InsertsPending(cfg: Config, db: Db, t: Xid, rows: seq<Tuple>, rids: seq<RID>)
    requires DbOk(cfg, db) && t in db.s.active && |rids| == |rows| && FreeRids(db.s, rids)
    requires forall i :: 0 <= i < |rows| ==> |rows[i]| == |cfg.types|
    ensures Pending(cfg, db, db, t, Inserts(rows, rids), 0)
  {
  }

  lemma UpdatesPending(cfg: Config, db: Db, t: Xid, matches: seq<RID>, sets: seq<(nat, Value)>, rids: seq<RID>)
    requires DbOk(cfg, db) && t in db.s.active && Found(db.s, t, matches) && |rids| == |matches| && FreeRids(db.s, rids)
    requires SetsFit(sets, |cfg.types|)
    ensures forall i :: 0 <= i < |matches| ==> matches[i] in db.s.heap && SetsFit(sets, |db.s.heap[matches[i]].row|)
    ensures Pending(cfg, db, db, t, Updates(db.s.heap, matches, sets, rids), 0)
  {
    forall i | 0 <= i < |matches| ensures |db.s.heap[matches[i]].row| == |cfg.types| {
      assert TypedRow(cfg.types, db.s.heap[matches[i]].row);
    }
  }

  /** A statement made some changes, all fine, with the tables `dbs` between them; it ended
      as Fine if those were all, else with the fate of the next one. */
  ghost predicate Ran(cfg: Config, dbs: seq<Db>, t: Xid, chs: seq<Change>, fate: Fate, w: Db) {
    && Trace(cfg, dbs, t, chs)
    && (if |dbs| == |chs| + 1 then fate.Fine? && w == dbs[|chs|]
        else !fate.Fine? && Linked(cfg, dbs[|dbs| - 1], w, t, chs[|dbs| - 1], fate))
  }

  /** So it succeeds if and only if every change, made after those before it, is fine. */
  lemma RanIff(cfg: Config, dbs: seq<Db>, t: Xid, chs: seq<Change>, fate: Fate, w: Db)
    requires Ran(cfg, dbs, t, chs, fate, w)
    ensures fate.Fine? <==> exists all :: Trace(cfg, all, t, chs) && all[0] == dbs[0] && |all| == |chs| + 1
  {
    if all :| Trace(cfg, all, t, chs) && all[0] == dbs[0] && |all| == |chs| + 1 {
      RanFate(cfg, dbs, t, chs, fate, w, all);
    }
  }

  lemma RanFate(cfg: Config, dbs: seq<Db>, t: Xid, chs: seq<Change>, fate: Fate, w: Db, all: seq<Db>)
    requires Ran(cfg, dbs, t, chs, fate, w) && Trace(cfg, all, t, chs) && all[0] == dbs[0] && |all| == |chs| + 1
    ensures fate == Fine
  {
    var n := |dbs| - 1;
    TraceUnique(cfg, dbs, all, t, chs, n);
    if n < |chs| { NextFate(cfg, all, t, chs, n, w, fate); }
  }

  lemma NextFate(cfg: Config, all: seq<Db>, t: Xid, chs: seq<Change>, n: nat, w: Db, fate: Fate)
    requires Trace(cfg, all, t, chs) && n < |all| - 1 && Linked(cfg, all[n], w, t, chs[n], fate)
    ensures fate == Fine
  {
    var ch := chs[n];
    assert Linked(cfg, all[n], all[n + 1], t, ch, Fine);
  }

  /** A statement that fails either meets a change that is not clear, or is refused by an index
      of the table; without indexes it succeeds if and only if every change is clear. */
  lemma FailureMeans(cfg: Config, dbs: seq<Db>, t: Xid, chs: seq<Change>, fate: Fate, w: Db)
    requires Ran(cfg, dbs, t, chs, fate, w) && Pending(cfg, dbs[0], dbs[0], t, chs, 0)
    ensures fate.Refused? ==> fate.index in dbs[0].names
    ensures fate.Fine? || fate.Refused? <==> forall i :: 0 <= i < |dbs| && i < |chs| ==> Clear(cfg, dbs[0], t, chs[i])
    ensures dbs[0].names == [] ==> (fate.Fine? <==> forall i :: 0 <= i < |chs| ==> Clear(cfg, dbs[0], t, chs[i]))
  {
    var n := |dbs| - 1;
    TraceClear(cfg, dbs, t, chs);
    if n < |chs| {
      PendingAt(cfg, dbs, t, chs);
      LinkedClear(cfg, dbs[0], dbs[n], w, t, chs[n], fate);
    }
  }

  /** The committed table with a statement's rows in it and what they replace gone. */
  ghost function Published(cfg: Config, rows: map<RID, Tuple>, chs: seq<Change>): (m: map<RID, Tuple>)
    requires forall i :: 0 <= i < |chs| ==> |chs[i].raw| == |cfg.types|
  {
    (rows + NewRows(cfg, chs, |chs|)) - Replaced(chs, |chs|)
  }

  /** An index lacks only versions that nobody will ever see. */
  ghost predicate Complete(db: Db, name: string) {
    name in db.indexes && Dead(Gaps(db.s.heap, db.indexes[name]), db.s.heap, db.s.aborted)
  }

  ghost predicate StayComplete(before: Db, after: Db) {
    forall name {:trigger Complete(after, name)} :: Complete(before, name) ==> Complete(after, name)
  }

  class Database {
    var heap: Heap
    var indexes: map<string, Index>
    /** Index names in creation order. */
    var names: seq<string>
    var next: Xid
    var active: set<Xid>
    var aborted: set<Xid>
    var snaps: map<Xid, Snapshot>
    const types: seq<ColumnType>
    const casts: Casts
    /** Most entries a tree takes under one key. */
    const maxDuplicates: nat
    /** When a tree behind a stale root raises. */
    const whim: Whim

    ghost function S(): (s: State<Tuple>)
      reads this
    {
      State(next, active, aborted, snaps, heap)
    }

    ghost function D(): (db: Db)
      reads this
    {
      Db(S(), indexes, names)
    }

    ghost function C(): (cfg: Config) {
      Config(types, casts, maxDuplicates, whim)
    }

    ghost predicate Valid()
      reads this
    {
      DbOk(C(), D())
    }

    constructor (types: seq<ColumnType>, casts: Casts, maxDuplicates: nat, whim: Whim)
      ensures Valid() && D() == Db(State(1, {}, {}, map[], map[]), map[], [])
      ensures C() == Config(types, casts, maxDuplicates, whim)
    {
      this.types, this.casts, this.maxDuplicates, this.whim := types, casts, maxDuplicates, whim;
      heap, indexes, names := map[], map[], [];
      next, active, aborted, snaps := 1, {}, {}, map[];
    }

    /** Encode and store a new version, then index it. */
    method StoreRow(t: Xid, raw: Tuple, rid: RID, prior: Option<RID>) returns (fate: Fate)
      requires Valid() && t in active && rid !in heap && |raw| == |types|
      modifies this`heap, this`indexes
      ensures Valid() && t in snaps && Outcome(fate, D()) == PutRow(C(), old(D()), t, Change(prior, raw, rid))
    {
      ghost var db := D();
      PutOk(C(), db, t, Change(prior, raw, rid));
      var stored := StoredRow(casts, types, raw);
      if stored.None? {
        return Unstorable;
      }
      IndexColumns(C(), db);
      var wider := heap[rid := Version(t, INFINITY_TXN, stored.value)];
      var stop, after := FillIndexes(wider, aborted, snaps[t], indexes, names, raw, stored.value, rid, prior,
                                     maxDuplicates, whim);
      PutIs(C(), db, t, Change(prior, raw, rid), stored.value, stop);
      heap, indexes := wider, after;
      assert D() == PutTo(db, t, Change(prior, raw, rid), stored.value, stop);
      return if stop == |names| then Fine else Refused(names[stop]);
    }

    /** The conflict check, then the xmax stamp; false when the check raises. */
    method StampRow(t: Xid, r: RID) returns (ok: bool)
      requires Valid() && t in active && t in snaps && r in heap
      requires IsVisible(aborted, heap[r].xmin, heap[r].xmax, snaps[t])
      modifies this`heap
      ensures Valid() && (ok <==> MayStamp(aborted, t, old(heap)[r].xmax))
      ensures ok <==> CanStep(old(S()), Stamp(t, r))
      ensures D() == if ok then old(D()).(s := Next(old(S()), Stamp(t, r))) else old(D())
    {
      ok := MayStamp(aborted, t, heap[r].xmax);
      if ok {
        StampDb(C(), D(), t, r);
        heap := heap[r := heap[r].(xmax := t)];
      }
    }

    /** One row of an UPDATE: stamp the old version, store the new one. */
    method UpdateRow(t: Xid, prior: RID, raw: Tuple, rid: RID) returns (fate: Fate)
      requires Valid() && Admissible(C(), D(), t, Change(Some(prior), raw, rid))
      modifies this`heap, this`indexes
      ensures Valid() && Outcome(fate, D()) == Apply(C(), old(D()), t, Change(Some(prior), raw, rid))
    {
      var stamped := StampRow(t, prior);
      if !stamped {
        return Conflict;
      }
      fate := StoreRow(t, raw, rid, Some(prior));
    }

    /** `_execute_insert`. */
    method ExecuteInsert(t: Xid, rows: seq<Tuple>, rids: seq<RID>) returns (fate: Fate, ghost dbs: seq<Db>)
      requires Valid() && t in active && |rids| == |rows| && FreeRids(S(), rids)
      requires forall i :: 0 <= i < |rows| ==> |rows[i]| == |types|
      modifies this`heap, this`indexes
      ensures Valid() && Pending(C(), old(D()), old(D()), t, Inserts(rows, rids), 0)
      ensures dbs != [] && dbs[0] == old(D()) && Ran(C(), dbs, t, Inserts(rows, rids), fate, D())
    {
      ghost var chs := Inserts(rows, rids);
      InsertsPending(C(), D(), t, rows, rids);
      dbs := [D()];
      fate := Fine;
      for i := 0 to |rows|
        invariant Valid() && |dbs| == i + 1 && dbs[0] == old(D()) && dbs[i] == D() && Trace(C(), dbs, t, chs)
      {
        PendingAt(C(), dbs, t, chs);
        fate := StoreRow(t, rows[i], rids[i], None);
        InsertLinked(C(), dbs[i], D(), t, chs[i], fate);
        if !fate.Fine? {
          return;
        }
        TraceMore(C(), dbs, t, chs, D());
        dbs := dbs + [D()];
      }
      fate := Fine;
    }

    /** `_execute_update`. */
    method ExecuteUpdate(t: Xid, matches: seq<RID>, sets: seq<(nat, Value)>, rids: seq<RID>)
      returns (fate: Fate, ghost dbs: seq<Db>)
      requires Valid() && t in active && Found(S(), t, matches) && |rids| == |matches| && FreeRids(S(), rids)
      requires SetsFit(sets, |types|)
      modifies this`heap, this`indexes
      ensures forall i :: 0 <= i < |matches| ==> matches[i] in old(heap) && SetsFit(sets, |old(heap)[matches[i]].row|)
      ensures Valid() && Pending(C(), old(D()), old(D()), t, Updates(old(heap), matches, sets, rids), 0)
      ensures dbs != [] && dbs[0] == old(D()) && Ran(C(), dbs, t, Updates(old(heap), matches, sets, rids), fate, D())
    {
      UpdatesPending(C(), D(), t, matches, sets, rids);
      ghost var chs := Updates(heap, matches, sets, rids);
      dbs := [D()];
      fate := Fine;
      for i := 0 to |matches|
        invariant Valid() && |dbs| == i + 1 && dbs[0] == old(D()) && dbs[i] == D() && Trace(C(), dbs, t, chs)
      {
        PendingAt(C(), dbs, t, chs);
        var raw := Assign(heap[matches[i]].row, sets);
        fate := UpdateRow(t, matches[i], raw, rids[i]);
        if !fate.Fine? {
          return;
        }
        TraceMore(C(), dbs, t, chs, D());
        dbs := dbs + [D()];
      }
      fate := Fine;
    }

    /** `_execute_delete`. */
    method ExecuteDelete(t: Xid, matches: seq<RID>) returns (ok: bool, ghost steps: seq<Step<Tuple>>)
      requires Valid() && t in active && Found(S(), t, matches)
      modifies this`heap
      ensures Valid() && WritesOf(steps, t) && Exec(old(S()), steps) == Some(S())
      ensures |steps| <= |matches| && forall i :: 0 <= i < |steps| ==> steps[i] == Stamp(t, matches[i])
      ensures ok <==> |steps| == |matches|
      ensures !ok ==> matches[|steps|] in heap && !MayStamp(aborted, t, heap[matches[|steps|]].xmax)
      ensures forall n :: n in indexes ==> Gaps(heap, indexes[n]) == Gaps(old(heap), indexes[n])
    {
      steps := [];
      ghost var s := S();
      for i := 0 to |matches|
        invariant Valid() && t in active && Found(S(), t, matches[i..])
        invariant WritesOf(steps, t) && Exec(s, steps) == Some(S())
        invariant |steps| == i && forall j :: 0 <= j < i ==> steps[j] == Stamp(t, matches[j])
        invariant forall n :: n in indexes ==> Gaps(heap, indexes[n]) == Gaps(old(heap), indexes[n])
      {
        assert matches[i] == matches[i..][0];
        assert matches[i..][1..] == matches[i + 1..];
        ghost var m := D();
        ok := StampRow(t, matches[i]);
        if !ok {
          return;
        }
        StampDb(C(), m, t, matches[i]);
        ExecSnoc(s, steps, Stamp(t, matches[i]));
        steps := steps + [Stamp(t, matches[i])];
      }
      ok := true;
    }

    /** `_execute_create_index`: register an empty tree, then backfill it from a
        heap scan in the given order. False when a check or the backfill raises. */
    method ExecuteCreateIndex(name: string, column: nat, unique: bool, order: seq<RID>) returns (ok: bool)
      requires Valid() && HeapScan(heap, order)
      modifies this`indexes, this`names
      ensures Valid() && Created(C(), old(D()), D(), name, column, unique, order)
      ensures ok <==> Indexable(C(), old(D()), name, column) && Uncrowded(heap, column, maxDuplicates)
    {
      ghost var db := D();
      if name in names || column >= |types| || (types[column] != INT && types[column] != TEXT) {
        return false;
      }
      forall r | r in heap ensures column < |heap[r].row| { assert TypedRow(types, heap[r].row); }
      var idx, stale;
      ok, idx, stale := Backfill(heap, column, types[column], unique, order, maxDuplicates);
      names := names + [name];
      if !stale {
        indexes := indexes[name := idx];
      }
      CreatedOk(C(), db, D(), name, column, unique, order);
    }

    /* ---------- transactions ---------- */

    method Begin() returns (t: Xid)
      requires Valid() && next < INFINITY_TXN
      modifies this`next, this`active, this`snaps
      ensures Valid() && t == old(next) && CanStep(old(S()), Step.Begin)
      ensures D() == old(D()).(s := Next(old(S()), Step.Begin))
    {
      InvNext(S(), Step.Begin);
      t := next;
      next := next + 1;
      snaps := snaps[t := Snapshot(t, active)];
      active := active + {t};
    }

    method Commit(t: Xid) returns (ok: bool)
      requires Valid()
      modifies this`active
      ensures Valid() && (ok <==> t in old(active))
      ensures D() == if ok then old(D()).(s := Next(old(S()), Step.Commit(t))) else old(D())
    {
      ok := t in active;
      if ok {
        InvNext(S(), Step.Commit(t));
        active := active - {t};
      }
    }

    method Abort(t: Xid) returns (ok: bool)
      requires Valid()
      modifies this`active, this`aborted
      ensures Valid() && (ok <==> t in old(active))
      ensures D() == if ok then old(D()).(s := Next(old(S()), Step.Abort(t))) else old(D())
    {
      ok := t in active;
      if ok {
        InvNext(S(), Step.Abort(t));
        active := active - {t};
        aborted := aborted + {t};
      }
    }

    /** The end of a statement that runs in its own transaction: commit, or abort
        and raise. */
    method Finish(t: Xid, ok: bool, ghost s: State<Tuple>, ghost steps: seq<Step<Tuple>>)
      requires Valid() && Inv(s) && t in s.active && Untouched(s, t)
      requires WritesOf(steps, t) && Exec(s, steps) == Some(S())
      modifies this`active, this`aborted
      ensures Valid() && heap == old(heap) && old(aborted) <= aborted
      ensures LiveRows(S()) == if ok then (LiveRows(s) + InsertedBy(steps)) - StampedBy(steps) else LiveRows(s)
      ensures !ok ==> t in aborted
    {
      StatementIsAtomic(s, steps, t);
      var done;
      if ok {
        done := Commit(t);
      } else {
        done := Abort(t);
      }
    }

    /** What an autocommitted statement leaves: its changes or none of them on the committed
        table, and no index lacking a row that anybody may ever see, if it lacked none. */
    method Conclude(t: Xid, fate: Fate, ghost dbs: seq<Db>, ghost chs: seq<Change>)
      requires Valid() && Ran(C(), dbs, t, chs, fate, D()) && Pending(C(), dbs[0], dbs[0], t, chs, 0)
      requires DbOk(C(), dbs[0]) && t in dbs[0].s.active && Untouched(dbs[0].s, t)
      modifies this`active, this`aborted
      ensures Valid() && heap == old(heap)
      ensures forall i :: 0 <= i < |chs| ==> |chs[i].raw| == |types|
      ensures LiveRows(S()) == if fate.Fine? then Published(C(), LiveRows(dbs[0].s), chs) else LiveRows(dbs[0].s)
      ensures StayComplete(dbs[0], D())
    {
      ghost var cfg, begun, w := C(), dbs[0], D();
      PendingWidths(cfg, begun, t, chs);
      FineWrites(cfg, t, chs, |chs|);
      ghost var steps := RanSteps(cfg, dbs, t, chs, fate, w);
      Finish(t, fate.Fine?, begun.s, steps);
      forall name | Complete(begun, name) ensures Complete(D(), name) {
        GapsStayDead(cfg, dbs, t, chs, fate, w, steps, name, aborted);
      }
    }

    /** An INSERT on its own: all its rows are committed, or none ever is. */
    method AutoInsert(rows: seq<Tuple>, rids: seq<RID>) returns (fate: Fate, ghost dbs: seq<Db>)
      requires Valid() && next < INFINITY_TXN && |rids| == |rows| && FreeRids(S(), rids)
      requires forall i :: 0 <= i < |rows| ==> |rows[i]| == |types|
      modifies this`heap, this`indexes, this`next, this`active, this`snaps, this`aborted
      ensures Valid() && CanStep(old(S()), Step.Begin) && dbs != []
      ensures dbs[0] == old(D()).(s := Next(old(S()), Step.Begin))
      ensures exists w :: Ran(C(), dbs, old(next), Inserts(rows, rids), fate, w)
      ensures LiveRows(S()) ==
        if fate.Fine? then Published(C(), old(LiveRows(S())), Inserts(rows, rids)) else old(LiveRows(S()))
      ensures StayComplete(old(D()), D())
    {
      BeginUntouched(S());
      var t := Begin();
      fate, dbs := ExecuteInsert(t, rows, rids);
      Conclude(t, fate, dbs, Inserts(rows, rids));
    }

    /** An UPDATE on its own. */
    method AutoUpdate(matches: seq<RID>, sets: seq<(nat, Value)>, rids: seq<RID>)
      returns (fate: Fate, ghost dbs: seq<Db>, ghost chs: seq<Change>)
      requires Valid() && next < INFINITY_TXN && Distinct(matches) && |rids| == |matches| && FreeRids(S(), rids)
      requires forall r :: r in matches ==> r in LiveRows(S())
      requires SetsFit(sets, |types|)
      modifies this`heap, this`indexes, this`next, this`active, this`snaps, this`aborted
      ensures Valid() && CanStep(old(S()), Step.Begin) && dbs != []
      ensures dbs[0] == old(D()).(s := Next(old(S()), Step.Begin))
      ensures forall i :: 0 <= i < |matches| ==> matches[i] in old(heap) && SetsFit(sets, |old(heap)[matches[i]].row|)
      ensures chs == Updates(old(heap), matches, sets, rids) && exists w :: Ran(C(), dbs, old(next), chs, fate, w)
      ensures forall i :: 0 <= i < |chs| ==> |chs[i].raw| == |types|
      ensures LiveRows(S()) == if fate.Fine? then Published(C(), old(LiveRows(S())), chs) else old(LiveRows(S()))
      ensures StayComplete(old(D()), D())
    {
      BeginUntouched(S());
      BeginSeesCommitted(S());
      var t := Begin();
      SeenIsFound(S(), t, matches);
      UpdatesPending(C(), D(), t, matches, sets, rids);
      chs := Updates(heap, matches, sets, rids);
      fate, dbs := ExecuteUpdate(t, matches, sets, rids);
      Conclude(t, fate, dbs, chs);
    }

    /** A DELETE on its own. */
    method AutoDelete(matches: seq<RID>) returns (ok: bool, ghost steps: seq<Step<Tuple>>)
      requires Valid() && next < INFINITY_TXN && Distinct(matches)
      requires forall r :: r in matches ==> r in LiveRows(S())
      modifies this`heap, this`next, this`active, this`snaps, this`aborted
      ensures Valid()
      ensures forall i :: 0 <= i < |steps| ==> i < |matches| && steps[i] == Stamp(old(next), matches[i])
      ensures ok ==>
        |steps| == |matches| && LiveRows(S()) == (old(LiveRows(S())) + InsertedBy(steps)) - StampedBy(steps)
      ensures !ok ==> LiveRows(S()) == old(LiveRows(S()))
      ensures !ok ==>
        && |steps| < |matches| && matches[|steps|] in heap
        && !MayStamp(old(aborted), old(next), heap[matches[|steps|]].xmax)
      ensures StayComplete(old(D()), D())
    {
      BeginUntouched(S());
      BeginSeesCommitted(S());
      var t := Begin();
      ghost var s := S();
      SeenIsFound(s, t, matches);
      ok, steps := ExecuteDelete(t, matches);
      Finish(t, ok, s, steps);
      forall n | Complete(old(D()), n) ensures Complete(D(), n) { DeletedStaysDead(old(D()), D(), s, steps, n); }
    }
  }

  lemma PutOk(cfg: Config, db: Db, t: Xid, ch: Change)
    requires DbOk(cfg, db) && t in db.s.active && |ch.raw| == |cfg.types| && ch.rid !in db.s.heap
    ensures t in db.s.snaps && DbOk(cfg, PutRow(cfg, db, t, ch).db)
  {
    PutKeeps(cfg, db, t, ch);
  }

  lemma IndexColumns(cfg: Config, db: Db)
    requires DbOk(cfg, db)
    ensures forall i :: 0 <= i < |db.names| && db.names[i] in db.indexes ==>
      db.indexes[db.names[i]].column < |cfg.types|
  {
    forall i | 0 <= i < |db.names| && db.names[i] in db.indexes ensures db.indexes[db.names[i]].column < |cfg.types| {
      assert IndexFits(cfg, db.s.heap, db.indexes[db.names[i]]);
    }
  }

  lemma SeenIsFound(s: State<Tuple>, t: Xid, matches: seq<RID>)
    requires t in s.snaps && Distinct(matches) && forall r :: r in matches ==> r in Seen(s, t)
    ensures Found(s, t, matches)
  {
    forall i | 0 <= i < |matches| ensures matches[i] in Seen(s, t) {
      assert matches[i] in matches;
    }
  }

  lemma DeletedStaysDead(before: Db, after: Db, s: State<Tuple>, steps: seq<Step<Tuple>>, n: string)
    requires Complete(before, n) && s.heap == before.s.heap
    requires after.indexes == before.indexes && before.s.aborted <= after.s.aborted
    requires Exec(s, steps).Some? && Exec(s, steps).value.heap == after.s.heap
    requires Gaps(after.s.heap, after.indexes[n]) == Gaps(before.s.heap, before.indexes[n])
    ensures Complete(after, n)
  {
    forall r | r in Gaps(after.s.heap, after.indexes[n])
      ensures r in after.s.heap && after.s.heap[r].xmin in after.s.aborted
    {
      VersionsStay(s, steps, r);
    }
  }

  lemma InsertLinked(cfg: Config, m: Db, w: Db, t: Xid, ch: Change, f: Fate)
    requires Admissible(cfg, m, t, ch) && ch.prior.None? && Outcome(f, w) == PutRow(cfg, m, t, ch)
    ensures Linked(cfg, m, w, t, ch, f)
  {
  }

  /** The steps a statement made. */
  lemma RanSteps(cfg: Config, dbs: seq<Db>, t: Xid, chs: seq<Change>, fate: Fate, w: Db)
    returns (steps: seq<Step<Tuple>>)
    requires Ran(cfg, dbs, t, chs, fate, w) && DbOk(cfg, dbs[0]) && Pending(cfg, dbs[0], dbs[0], t, chs, 0)
    ensures WritesOf(steps, t) && Exec(dbs[0].s, steps) == Some(w.s) && w.s.aborted == dbs[0].s.aborted
    ensures steps == if fate.Fine? then FineSteps(cfg, t, chs, |chs|)
                     else FineSteps(cfg, t, chs, |dbs| - 1) + StepsOf(cfg, t, chs[|dbs| - 1], fate)
  {
    var n := |dbs| - 1;
    TraceKeeps(cfg, dbs, t, chs);
    steps := FineSteps(cfg, t, chs, n);
    if n < |chs| {
      PendingAt(cfg, dbs, t, chs);
      var b := LinkedKeeps(cfg, dbs[n], w, t, chs[n], fate);
      ExecBoth(dbs[0].s, steps, b, dbs[n].s, w.s);
      steps := steps + b;
    }
    WritesExactly(dbs[0].s, steps, t);
  }

  /** What an index lacks after a statement: what it lacked before, and the version of a refused change. */
  lemma RanGaps(cfg: Config, dbs: seq<Db>, t: Xid, chs: seq<Change>, fate: Fate, w: Db, name: string)
    requires Ran(cfg, dbs, t, chs, fate, w) && DbOk(cfg, dbs[0])
    requires Pending(cfg, dbs[0], dbs[0], t, chs, 0) && name in dbs[0].indexes
    ensures name in w.indexes
    ensures forall r :: r in Gaps(w.s.heap, w.indexes[name]) ==>
      r in Gaps(dbs[0].s.heap, dbs[0].indexes[name]) || (fate.Refused? && r in w.s.heap && w.s.heap[r].xmin == t)
  {
    var n := |dbs| - 1;
    TraceGaps(cfg, dbs, t, chs, name);
    if n < |chs| {
      LastGaps(cfg, dbs[0], dbs, t, chs, w, fate, name);
      PendingAt(cfg, dbs, t, chs);
      RefusedStored(cfg, dbs[n], t, chs[n]);
    }
  }

  /** Versions without an entry stay dead, and a refused one of an aborted statement joins them. */
  lemma GapsStayDead(cfg: Config, dbs: seq<Db>, t: Xid, chs: seq<Change>, fate: Fate, w: Db, steps: seq<Step<Tuple>>,
                     name: string, aborted: set<Xid>)
    requires Ran(cfg, dbs, t, chs, fate, w) && DbOk(cfg, dbs[0]) && Pending(cfg, dbs[0], dbs[0], t, chs, 0)
    requires Complete(dbs[0], name) && Exec(dbs[0].s, steps) == Some(w.s)
    requires dbs[0].s.aborted <= aborted && (!fate.Fine? ==> t in aborted)
    ensures name in w.indexes && Dead(Gaps(w.s.heap, w.indexes[name]), w.s.heap, aborted)
  {
    RanGaps(cfg, dbs, t, chs, fate, w, name);
    forall r | r in Gaps(w.s.heap, w.indexes[name]) ensures r in w.s.heap && w.s.heap[r].xmin in aborted {
      if r in Gaps(dbs[0].s.heap, dbs[0].indexes[name]) { VersionsStay(dbs[0].s, steps, r); }
    }
  }
}
