/** From a sound database and a WHERE to the rows a base scan delivers. */
module Queries {
  import opened Sequences
  import opened BTreeEntries
  import opened Expr
  import opened Planner
  import opened Pushdown
  import opened Mvcc
  import opened Schema
  import opened Indexes
  import opened Changes
  import Executor

  /** Column names are different and hold no dot. */
  ghost predicate Schematic(cfg: Config, columns: seq<string>) {
    && |columns| == |cfg.types|
    && (forall i, j :: 0 <= i < j < |columns| ==> columns[i] != columns[j])
    && (forall i :: 0 <= i < |columns| ==> PlainName(columns[i]))
  }

  /** What the planner knows: for a column, an index on it. */
  ghost predicate Catalogued(db: Db, columns: seq<string>, indexed: map<string, string>) {
    forall c :: c in indexed ==>
      && indexed[c] in db.names
      && (indexed[c] in db.indexes ==>
            db.indexes[indexed[c]].column < |columns| && columns[db.indexes[indexed[c]].column] == c)
  }

  lemma TableIsTyped(cfg: Config, db: Db, t: Xid, alias: string, columns: seq<string>)
    requires DbOk(cfg, db) && t in db.s.snaps && Schematic(cfg, columns)
    ensures WellTyped(TableFor(db.s, t, alias, columns))
  {
    forall r | r in db.s.heap ensures |db.s.heap[r].row| == |columns| && Null !in db.s.heap[r].row {
      assert TypedRow(cfg.types, db.s.heap[r].row);
    }
  }

  /** The table a statement scans shows exactly what its transaction sees. */
  lemma TableShows(db: Db, t: Xid, alias: string, columns: seq<string>)
    requires t in db.s.snaps
    ensures var tbl := TableFor(db.s, t, alias, columns);
            && tbl.visible == Seen(db.s, t).Keys && tbl.tuples.Keys == db.s.heap.Keys
            && forall r :: r in Seen(db.s, t) ==> tbl.tuples[r] == Seen(db.s, t)[r]
  {
  }

  /** An index that lacks only versions of aborted transactions lacks nothing anybody sees. */
  lemma DeadGapsCover(db: Db, t: Xid, idx: Index)
    requires t in db.s.snaps && Dead(Gaps(db.s.heap, idx), db.s.heap, db.s.aborted)
    ensures Seen(db.s, t).Keys !! Gaps(db.s.heap, idx)
  {
  }

  /** Bisecting raises exactly when there is a key and the literal is not of its kind. */
  lemma RaisesIff(cfg: Config, db: Db, name: string, entries: Entries, literal: Value)
    requires DbOk(cfg, db) && name in db.indexes && Listed(entries, db.indexes[name])
    ensures ScanRaises(entries, literal)
       <==> literal != Null && entries != [] && !Ordered(db.indexes[name].kind, literal)
  {
    var idx := db.indexes[name];
    assert IndexFits(cfg, db.s.heap, idx);
    forall i | 0 <= i < |entries| ensures Comparable(entries[i].0, literal) <==> Ordered(idx.kind, literal) {
      var r := entries[i].1;
      SoundMember(db.s.heap, idx, entries[i].0, r);
      assert TypedRow(cfg.types, db.s.heap[r].row);
      assert HasType(cfg.types[idx.column], db.s.heap[r].row[idx.column]);
    }
    if entries != [] { assert Comparable(entries[0].0, literal) <==> Ordered(idx.kind, literal); }
  }

  /** When the index plan is right: the root is not stale, the literal compares with the keys,
      and of the visible rows that the residual does not reject, exactly those with the
      literal's value have an entry that meets it. */
  ghost predicate Trusted(db: Db, tbl: Table, name: string, entries: Entries, literal: Value, residual: Option<Expr>)
    requires WellTyped(tbl) && (name in db.indexes ==> db.indexes[name].column < |tbl.columns|)
  {
    && name in db.indexes && (literal == Null || entries == [] || Ordered(db.indexes[name].kind, literal))
    && forall r :: r in tbl.tuples && r in tbl.visible && JudgeWhere(residual, RowOf(tbl, r)) != No ==>
         FoundRightly(db.s.heap, db.indexes[name], tbl, literal, r)
  }

  ghost predicate FoundRightly(heap: Heap, idx: Index, tbl: Table, literal: Value, r: RID)
    requires WellTyped(tbl) && r in tbl.tuples && idx.column < |tbl.columns|
  {
    r !in Gaps(heap, idx) && Meets(IndexKey(tbl.tuples[r][idx.column]), literal)
    <==> literal != Null && SameValue(tbl.tuples[r][idx.column], literal)
  }

  /** On an INT column a number is always told, so that only gaps with its value do harm. */
  lemma NumbersTrusted(cfg: Config, db: Db, t: Xid, tbl: Table, name: string, entries: Entries, literal: Value,
                       residual: Option<Expr>)
    requires DbOk(cfg, db) && t in db.s.snaps && Schematic(cfg, tbl.columns)
    requires tbl == TableFor(db.s, t, tbl.alias, tbl.columns)
    requires WellTyped(tbl) && name in db.indexes && db.indexes[name].column < |tbl.columns|
    requires db.indexes[name].kind == INT && IsNumber(literal)
    ensures Trusted(db, tbl, name, entries, literal, residual) <==>
      forall r :: r in tbl.visible && r in Gaps(db.s.heap, db.indexes[name])
                  && JudgeWhere(residual, RowOf(tbl, r)) != No ==>
                    !SameValue(tbl.tuples[r][db.indexes[name].column], literal)
  {
    var idx := db.indexes[name];
    assert IndexFits(cfg, db.s.heap, idx);
    forall r | r in tbl.tuples
      ensures FoundRightly(db.s.heap, idx, tbl, literal, r)
         <==> !(r in Gaps(db.s.heap, idx) && SameValue(tbl.tuples[r][idx.column], literal))
    {
      assert TypedRow(cfg.types, db.s.heap[r].row);
      assert HasType(cfg.types[idx.column], tbl.tuples[r][idx.column]);
      NumbersTell(tbl, idx.column, literal, r);
    }
  }

  /** For the plan the planner makes of a WHERE on a sound database: where the sequential plan
      does not raise and the index has no stale root, the index plan delivers the same versions
      if and only if it is to be trusted. */
  lemma IndexPlanIff(cfg: Config, db: Db, t: Xid, tbl: Table, order: seq<RID>, indexed: map<string, string>,
                     where: Option<Expr>, p: Pushed, residual: Option<Expr>, at: nat, entries: Entries)
    requires DbOk(cfg, db) && t in db.s.snaps && Schematic(cfg, tbl.columns)
    requires tbl == TableFor(db.s, t, tbl.alias, tbl.columns)
    requires WellTyped(tbl) && HeapOrder(tbl, order) && Pull(tbl, order, where).Some?
    requires Catalogued(db, tbl.columns, indexed) && PushedAt(FlattenWhere(where), tbl.alias, indexed, p, residual, at)
    requires p.index in db.indexes && Listed(entries, db.indexes[p.index])
    ensures db.indexes[p.index].column < |tbl.columns|
    ensures forall r :: r in Met(entries, p.literal) ==> r in tbl.tuples
    ensures PlansAgree(tbl, order, where, entries, p.literal, residual)
       <==> Trusted(db, tbl, p.index, entries, p.literal, residual)
  {
    var idx := db.indexes[p.index];
    PushedIndex(FlattenWhere(where)[at], tbl.alias, indexed, p);
    assert IndexFits(cfg, db.s.heap, idx);
    ListedIsFaithful(db.s, t, idx, entries, tbl);
    PushdownIff(tbl, order, where, residual, at, indexed, p, idx.column, entries);
    RaisesIff(cfg, db, p.index, entries, p.literal);
    MetIsFound(db, tbl, p.index, entries, p.literal, residual);
  }

  lemma MetIsFound(db: Db, tbl: Table, name: string, entries: Entries, literal: Value, residual: Option<Expr>)
    requires WellTyped(tbl) && name in db.indexes && db.indexes[name].column < |tbl.columns|
    requires forall r :: r in tbl.tuples ==> (InIndex(entries, r) <==> r !in Gaps(db.s.heap, db.indexes[name]))
    requires ScanRaises(entries, literal)
       <==> literal != Null && entries != [] && !Ordered(db.indexes[name].kind, literal)
    ensures Trusted(db, tbl, name, entries, literal, residual)
       <==> !ScanRaises(entries, literal) && AllMetRightly(tbl, db.indexes[name].column, entries, literal, residual)
  {
    var idx := db.indexes[name];
    forall r | r in tbl.tuples
      ensures FoundRightly(db.s.heap, idx, tbl, literal, r) <==> MetRightly(tbl, idx.column, entries, literal, r)
    {
    }
  }

  lemma PushedIndex(c: Expr, alias: string, indexed: map<string, string>, p: Pushed)
    requires MatchingEquality(c, alias, indexed) == Some(p)
    ensures p.column in indexed && indexed[p.column] == p.index
  {
  }

  /** Different versions in another order are the same rows, with their multiplicity. */
  lemma {:induction false} SameRowsSameBag(tbl: Table, a: seq<RID>, b: seq<RID>)
    requires WellTyped(tbl) && SameRows(a, b) && forall r :: r in a ==> r in tbl.tuples
    ensures multiset(Executor.RowsOf(tbl, a)) == multiset(Executor.RowsOf(tbl, b))
    decreases |a|
  {
    if a == [] {
      MembersCount(b);
      assert Members(b) == {};
    } else {
      var x := a[0];
      assert x in b;
      var i :| 0 <= i < |b| && b[i] == x;
      var c := b[..i] + b[i + 1..];
      DroppedSame(a, b, i);
      SameRowsSameBag(tbl, a[1..], c);
      RowsCons(tbl, a);
      RowsSplit(tbl, b, i);
    }
  }

  lemma DroppedSame(a: seq<RID>, b: seq<RID>, i: nat)
    requires SameRows(a, b) && a != [] && i < |b| && b[i] == a[0]
    ensures SameRows(a[1..], b[..i] + b[i + 1..])
  {
    var c := b[..i] + b[i + 1..];
    forall r ensures r in a[1..] <==> r in c {
      if r in a[1..] {
        var k :| 0 <= k < |a[1..]| && a[1..][k] == r;
        assert a[k + 1] == r && r in b;
        var n :| 0 <= n < |b| && b[n] == r;
        assert n != i;
        assert c[if n < i then n else n - 1] == r;
      }
      if r in c {
        var k :| 0 <= k < |c| && c[k] == r;
        var n := if k < i then k else k + 1;
        assert b[n] == r && r in a;
        var m :| 0 <= m < |a| && a[m] == r;
        assert m != 0;
        assert a[1..][m - 1] == r;
      }
    }
  }

  lemma RowsCons(tbl: Table, a: seq<RID>)
    requires WellTyped(tbl) && a != [] && forall r :: r in a ==> r in tbl.tuples
    ensures multiset(Executor.RowsOf(tbl, a)) == multiset{RowOf(tbl, a[0])} + multiset(Executor.RowsOf(tbl, a[1..]))
  {
    assert Executor.RowsOf(tbl, a) == [RowOf(tbl, a[0])] + Executor.RowsOf(tbl, a[1..]);
  }

  lemma RowsSplit(tbl: Table, b: seq<RID>, i: nat)
    requires WellTyped(tbl) && i < |b| && forall r :: r in b ==> r in tbl.tuples
    ensures forall r :: r in b[..i] + b[i + 1..] ==> r in tbl.tuples
    ensures multiset(Executor.RowsOf(tbl, b))
         == multiset{RowOf(tbl, b[i])} + multiset(Executor.RowsOf(tbl, b[..i] + b[i + 1..]))
  {
    var p, q := Executor.RowsOf(tbl, b[..i]), Executor.RowsOf(tbl, b[i + 1..]);
    assert Executor.RowsOf(tbl, b) == p + [RowOf(tbl, b[i])] + q;
    assert Executor.RowsOf(tbl, b[..i] + b[i + 1..]) == p + q;
  }

  /** `build_base_scan` and its iteration: whatever plan is chosen, if its index is to be
      trusted the rows are those of the sequential plan. */
  method BaseScan(ghost cfg: Config, ghost db: Db, ghost t: Xid, tbl: Table, order: seq<RID>,
                  indexed: map<string, string>, scans: map<string, Entries>, where: Option<Expr>)
    returns (a: Executor.Answer, plan: Planner.Plan)
    requires DbOk(cfg, db) && t in db.s.snaps && Schematic(cfg, tbl.columns)
    requires tbl == TableFor(db.s, t, tbl.alias, tbl.columns)
    requires WellTyped(tbl) && HeapOrder(tbl, order) && Catalogued(db, tbl.columns, indexed)
    requires forall n :: n in db.names ==> n in scans && forall i :: 0 <= i < |scans[n]| ==> scans[n][i].1 in tbl.tuples
    requires forall n :: n in db.indexes ==> n in scans && Listed(scans[n], db.indexes[n])
    ensures var all := Executor.Meaning(Executor.FilteredScan(Executor.Cells(tbl, order), where));
            match plan
            case SeqPlan(_) => a == all
            case IndexPlan(p, residual) =>
              && p.index in db.names && (p.index in db.indexes ==> db.indexes[p.index].column < |tbl.columns|)
              && (!all.raises && Trusted(db, tbl, p.index, scans[p.index], p.literal, residual) ==>
                    !a.raises && multiset(a.rows) == multiset(all.rows))
  {
    plan := BuildBaseScan(tbl.alias, indexed, where);
    if plan.SeqPlan? {
      a := Executor.Drain(Executor.FilteredScan(Executor.Cells(tbl, order), where));
      return;
    }
    var p, residual := plan.pushed, plan.residual;
    ghost var at: nat :| PushedAt(FlattenWhere(where), tbl.alias, indexed, p, residual, at);
    PushedIndex(FlattenWhere(where)[at], tbl.alias, indexed, p);
    assert p.index in db.names;
    if ScanRaises(scans[p.index], p.literal) {
      if p.index in db.indexes { RaisesIff(cfg, db, p.index, scans[p.index], p.literal); }
      return Executor.Failure, plan;
    }
    var met := Met(scans[p.index], p.literal);
    a := Executor.Drain(Executor.FilteredScan(Executor.Cells(tbl, met), residual));
    if p.index in db.indexes {
      ScansAgree(cfg, db, t, tbl, order, indexed, where, p, residual, at, scans[p.index]);
    }
  }

  lemma ScansAgree(cfg: Config, db: Db, t: Xid, tbl: Table, order: seq<RID>, indexed: map<string, string>,
                   where: Option<Expr>, p: Pushed, residual: Option<Expr>, at: nat, entries: Entries)
    requires DbOk(cfg, db) && t in db.s.snaps && Schematic(cfg, tbl.columns)
    requires tbl == TableFor(db.s, t, tbl.alias, tbl.columns)
    requires WellTyped(tbl) && HeapOrder(tbl, order) && Catalogued(db, tbl.columns, indexed)
    requires PushedAt(FlattenWhere(where), tbl.alias, indexed, p, residual, at)
    requires p.index in db.indexes && db.indexes[p.index].column < |tbl.columns| && Listed(entries, db.indexes[p.index])
    requires forall r :: r in Met(entries, p.literal) ==> r in tbl.tuples
    ensures var all := Executor.Meaning(Executor.FilteredScan(Executor.Cells(tbl, order), where));
            var some := Executor.Meaning(Executor.FilteredScan(Executor.Cells(tbl, Met(entries, p.literal)), residual));
            !all.raises && Trusted(db, tbl, p.index, entries, p.literal, residual) ==>
              !some.raises && multiset(some.rows) == multiset(all.rows)
  {
    var met := Met(entries, p.literal);
    Executor.FilteredScanIsPull(tbl, order, where);
    Executor.FilteredScanIsPull(tbl, met, residual);
    if Pull(tbl, order, where).Some? && Trusted(db, tbl, p.index, entries, p.literal, residual) {
      IndexPlanIff(cfg, db, t, tbl, order, indexed, where, p, residual, at, entries);
      SameRowsSameBag(tbl, Pull(tbl, order, where).value, Pull(tbl, met, residual).value);
    }
  }
}
