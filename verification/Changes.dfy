/** What INSERT and UPDATE do to heap and indexes, row by row, as functions of the state. */
module Changes {
  import opened Sequences
  import opened BTreeEntries
  import opened Mvcc
  import opened MvccProof
  import opened Statements
  import opened Pushdown
  import opened Schema
  import opened Indexes

  /** A table with its transactions: state and heap, indexes, and the names of all indexes in
      creation order, those with a stale root included. */
  datatype Db = Db(s: State<Tuple>, indexes: map<string, Index>, names: seq<string>)

  datatype Config = Config(types: seq<ColumnType>, casts: Casts, most: nat, whim: Whim)

  ghost predicate NamesOk(db: Db) {
    && (forall n :: n in db.indexes ==> n in db.names)
    && (forall a, b :: 0 <= a < b < |db.names| ==> db.names[a] != db.names[b])
  }

  /** An index of an indexable column, with sound entries. */
  ghost predicate IndexFits(cfg: Config, heap: Heap, idx: Index) {
    && idx.column < |cfg.types| && idx.kind == cfg.types[idx.column] && (idx.kind == INT || idx.kind == TEXT)
    && Sound(heap, idx)
  }

  ghost predicate DbOk(cfg: Config, db: Db) {
    && Inv(db.s) && NamesOk(db)
    && (forall n {:trigger db.indexes[n]} :: n in db.indexes ==> IndexFits(cfg, db.s.heap, db.indexes[n]))
    && (forall r {:trigger db.s.heap[r]} :: r in db.s.heap ==> TypedRow(cfg.types, db.s.heap[r].row))
  }

  /** One row of an INSERT (`prior` None) or of an UPDATE: the version it replaces, its values
      as given, and the RID of the new version. */
  datatype Change = Change(prior: Option<RID>, raw: Tuple, rid: RID)

  /** How it ends: done; the old version is claimed by somebody else; the values cannot be
      stored; or an index raises. */
  datatype Fate = Fine | Conflict | Unstorable | Refused(index: string)

  datatype Outcome = Outcome(fate: Fate, db: Db)

  /** What the statement brings about: a row of the right width, a free RID, and an old
      version the transaction sees. */
  ghost predicate Admissible(cfg: Config, db: Db, t: Xid, ch: Change) {
    && t in db.s.active && t in db.s.snaps && |ch.raw| == |cfg.types| && ch.rid !in db.s.heap
    && (ch.prior.Some? ==>
          && ch.prior.value in db.s.heap
          && IsVisible(db.s.aborted, db.s.heap[ch.prior.value].xmin, db.s.heap[ch.prior.value].xmax, db.s.snaps[t]))
  }

  /** The table once the row is stored and the first `j` indexes have taken it. */
  ghost function PutTo(db: Db, t: Xid, ch: Change, stored: Tuple, j: nat): (w: Db)
    requires t in db.s.active && ch.rid !in db.s.heap && j <= |db.names|
  {
    Db(Next(db.s, InsertRow(t, ch.rid, stored)), Filled(db.indexes, db.names[..j], stored, ch.rid), db.names)
  }

  /** Where indexing the new row stops, with `heap` holding it. */
  ghost function StopAt(cfg: Config, db: Db, t: Xid, ch: Change, stored: Tuple, heap: Heap): (j: nat)
    requires t in db.s.snaps
    ensures j <= |db.names|
  {
    Stop(heap, db.s.aborted, db.s.snaps[t], db.indexes, db.names, ch.raw, stored, ch.rid, ch.prior, cfg.most,
         cfg.whim, 0)
  }

  /** Encode, store, index. */
  ghost function PutRow(cfg: Config, db: Db, t: Xid, ch: Change): (o: Outcome)
    requires t in db.s.active && t in db.s.snaps && |ch.raw| == |cfg.types| && ch.rid !in db.s.heap
  {
    match StoredRow(cfg.casts, cfg.types, ch.raw)
    case None => Outcome(Unstorable, db)
    case Some(stored) =>
      var s := Next(db.s, InsertRow(t, ch.rid, stored));
      var j := StopAt(cfg, db, t, ch, stored, s.heap);
      Outcome(if j == |db.names| then Fine else Refused(db.names[j]), PutTo(db, t, ch, stored, j))
  }

  lemma PutIs(cfg: Config, db: Db, t: Xid, ch: Change, stored: Tuple, j: nat)
    requires t in db.s.active && t in db.s.snaps && |ch.raw| == |cfg.types| && ch.rid !in db.s.heap
    requires StoredRow(cfg.casts, cfg.types, ch.raw) == Some(stored)
    requires j == StopAt(cfg, db, t, ch, stored, db.s.heap[ch.rid := Version(t, INFINITY_TXN, stored)])
    ensures j <= |db.names|
    ensures PutRow(cfg, db, t, ch)
         == Outcome(if j == |db.names| then Fine else Refused(db.names[j]), PutTo(db, t, ch, stored, j))
  {
  }

  /** One change: the conflict check and the stamp on the old version, then the new row
      (a statement brings only admissible changes). */
  ghost function Apply(cfg: Config, db: Db, t: Xid, ch: Change): (o: Outcome) {
    if !Admissible(cfg, db, t, ch) then Outcome(Unstorable, db)
    else if ch.prior.None? then PutRow(cfg, db, t, ch)
    else if !MayStamp(db.s.aborted, t, db.s.heap[ch.prior.value].xmax) then Outcome(Conflict, db)
    else PutRow(cfg, db.(s := Next(db.s, Stamp(t, ch.prior.value))), t, ch)
  }

  /** The steps a change makes: an UPDATE that cannot encode its row leaves a lone stamp. */
  ghost function StepsOf(cfg: Config, t: Xid, ch: Change, fate: Fate): (steps: seq<Step<Tuple>>)
    ensures WritesOf(steps, t)
  {
    var stored := if |ch.raw| == |cfg.types| then StoredRow(cfg.casts, cfg.types, ch.raw) else None;
    var stamp := if ch.prior.Some? then [Stamp(t, ch.prior.value)] else [];
    var insert := if stored.Some? then [InsertRow(t, ch.rid, stored.value)] else [];
    if fate.Conflict? then [] else stamp + insert
  }

  /* ---------- what a change keeps ---------- */

  /** The position of a name. */
  function Place(names: seq<string>, n: string): (i: nat)
    ensures i <= |names| && (i < |names| ==> names[i] == n) && (forall j :: 0 <= j < i ==> names[j] != n)
  {
    if names == [] || names[0] == n then 0 else 1 + Place(names[1..], n)
  }

  /** The refusing index and those behind it did not get the row. */
  predicate Skipped(names: seq<string>, fate: Fate, n: string) {
    fate.Refused? && n !in names[..Place(names, fate.index)]
  }

  /** Exactly those lack the new version's entry. */
  ghost predicate GapsGrow(before: Db, after: Db, fate: Fate, r: RID) {
    && after.indexes.Keys == before.indexes.Keys
    && (fate.Refused? ==> fate.index in before.names)
    && forall n {:trigger after.indexes[n]} :: n in before.indexes ==> GapAfter(before, after, fate, r, n)
  }

  ghost predicate GapAfter(before: Db, after: Db, fate: Fate, r: RID, n: string)
    requires n in before.indexes && n in after.indexes
  {
    Gaps(after.s.heap, after.indexes[n])
      == Gaps(before.s.heap, before.indexes[n]) + (if Skipped(before.names, fate, n) then {r} else {})
  }

  lemma PutIndex(cfg: Config, db: Db, t: Xid, ch: Change, stored: Tuple, j: nat, n: string)
    requires DbOk(cfg, db) && ch.rid !in db.s.heap && TypedRow(cfg.types, stored) && j <= |db.names| && n in db.indexes
    ensures var heap := db.s.heap[ch.rid := Version(t, INFINITY_TXN, stored)];
            var idx := Filled(db.indexes, db.names[..j], stored, ch.rid)[n];
            && IndexFits(cfg, heap, idx)
            && Gaps(heap, idx) == Gaps(db.s.heap, db.indexes[n]) + (if n in db.names[..j] then {} else {ch.rid})
  {
    assert IndexFits(cfg, db.s.heap, db.indexes[n]);
    FilledKeeps(db.s.heap, db.indexes[n], ch.rid, Version(t, INFINITY_TXN, stored), n in db.names[..j]);
  }

  lemma PutToOk(cfg: Config, db: Db, t: Xid, ch: Change, stored: Tuple, j: nat)
    requires DbOk(cfg, db) && t in db.s.active && ch.rid !in db.s.heap && TypedRow(cfg.types, stored) && j <= |db.names|
    ensures DbOk(cfg, PutTo(db, t, ch, stored, j))
  {
    var w := PutTo(db, t, ch, stored, j);
    InvNext(db.s, InsertRow(t, ch.rid, stored));
    forall n | n in w.indexes ensures IndexFits(cfg, w.s.heap, w.indexes[n]) { PutIndex(cfg, db, t, ch, stored, j, n); }
  }

  lemma PutToGaps(cfg: Config, db: Db, t: Xid, ch: Change, stored: Tuple, j: nat)
    requires DbOk(cfg, db) && t in db.s.active && ch.rid !in db.s.heap && TypedRow(cfg.types, stored) && j <= |db.names|
    ensures GapsGrow(db, PutTo(db, t, ch, stored, j), if j == |db.names| then Fine else Refused(db.names[j]), ch.rid)
  {
    var w := PutTo(db, t, ch, stored, j);
    var fate := if j == |db.names| then Fine else Refused(db.names[j]);
    forall n | n in db.indexes ensures GapAfter(db, w, fate, ch.rid, n) {
      PutIndex(cfg, db, t, ch, stored, j, n);
      WhoSkips(db, j, n);
    }
  }

  lemma WhoSkips(db: Db, j: nat, n: string)
    requires NamesOk(db) && j <= |db.names| && n in db.indexes
    ensures Skipped(db.names, if j == |db.names| then Fine else Refused(db.names[j]), n) <==> n !in db.names[..j]
  {
    if j == |db.names| {
      assert db.names[..j] == db.names;
    } else {
      PlaceOf(db.names, j);
    }
  }

  lemma {:induction false} PlaceOf(names: seq<string>, j: nat)
    requires j < |names| && forall a, b :: 0 <= a < b < |names| ==> names[a] != names[b]
    ensures Place(names, names[j]) == j
  {
    if j > 0 {
      PlaceOf(names[1..], j - 1);
      assert names[0] != names[j];
    }
  }

  lemma PutKeeps(cfg: Config, db: Db, t: Xid, ch: Change)
    requires DbOk(cfg, db) && t in db.s.active && t in db.s.snaps && |ch.raw| == |cfg.types| && ch.rid !in db.s.heap
    ensures var o := PutRow(cfg, db, t, ch);
            DbOk(cfg, o.db) && o.db.names == db.names && !o.fate.Conflict? && GapsGrow(db, o.db, o.fate, ch.rid)
  {
    var row := StoredRow(cfg.casts, cfg.types, ch.raw);
    if row.Some? {
      var s := Next(db.s, InsertRow(t, ch.rid, row.value));
      var j := StopAt(cfg, db, t, ch, row.value, s.heap);
      StoredIsTyped(cfg.casts, cfg.types, ch.raw);
      PutToOk(cfg, db, t, ch, row.value, j);
      PutToGaps(cfg, db, t, ch, row.value, j);
    }
  }

  /** A change keeps the table sound, makes exactly its steps, and leaves the new version
      without an entry only where an index raised. */
  lemma ApplyKeeps(cfg: Config, db: Db, t: Xid, ch: Change)
    requires DbOk(cfg, db) && Admissible(cfg, db, t, ch)
    ensures var o := Apply(cfg, db, t, ch);
            && DbOk(cfg, o.db) && o.db.names == db.names && GapsGrow(db, o.db, o.fate, ch.rid)
            && Exec(db.s, StepsOf(cfg, t, ch, o.fate)) == Some(o.db.s)
  {
    if ch.prior.None? {
      PutKeeps(cfg, db, t, ch);
      PutSteps(cfg, db, db, t, ch);
    } else if MayStamp(db.s.aborted, t, db.s.heap[ch.prior.value].xmax) {
      var m := db.(s := Next(db.s, Stamp(t, ch.prior.value)));
      StampDb(cfg, db, t, ch.prior.value);
      PutKeeps(cfg, m, t, ch);
      PutSteps(cfg, db, m, t, ch);
      var o := PutRow(cfg, m, t, ch);
      GapsThrough(db, m, o.db, o.fate, ch.rid);
    }
  }

  /** A stamp before the change makes no difference to the gaps. */
  lemma GapsThrough(db: Db, m: Db, w: Db, fate: Fate, r: RID)
    requires m.indexes == db.indexes && m.names == db.names && GapsGrow(m, w, fate, r)
    requires forall n :: n in db.indexes ==> Gaps(m.s.heap, db.indexes[n]) == Gaps(db.s.heap, db.indexes[n])
    ensures GapsGrow(db, w, fate, r)
  {
    forall n | n in db.indexes ensures n in w.indexes && GapAfter(db, w, fate, r, n) {
      GapStep(m, w, fate, r, n);
    }
  }

  lemma StampDb(cfg: Config, db: Db, t: Xid, r: RID)
    requires DbOk(cfg, db) && CanStep(db.s, Stamp(t, r))
    ensures var m := db.(s := Next(db.s, Stamp(t, r)));
            && DbOk(cfg, m)
            && forall n :: n in db.indexes ==> Gaps(m.s.heap, db.indexes[n]) == Gaps(db.s.heap, db.indexes[n])
  {
    InvNext(db.s, Stamp(t, r));
    forall n | n in db.indexes
      ensures IndexFits(cfg, Next(db.s, Stamp(t, r)).heap, db.indexes[n])
      ensures Gaps(Next(db.s, Stamp(t, r)).heap, db.indexes[n]) == Gaps(db.s.heap, db.indexes[n])
    {
      assert IndexFits(cfg, db.s.heap, db.indexes[n]);
      StampKeeps(db.s.heap, db.indexes[n], r, t);
    }
  }

  /** The steps of a change from `db`, whose stamp if any leads to `m`. */
  lemma PutSteps(cfg: Config, db: Db, m: Db, t: Xid, ch: Change)
    requires t in m.s.active && t in m.s.snaps && |ch.raw| == |cfg.types| && ch.rid !in m.s.heap
    requires if ch.prior.None? then m == db
             else CanStep(db.s, Stamp(t, ch.prior.value)) && m.s == Next(db.s, Stamp(t, ch.prior.value))
    ensures var o := PutRow(cfg, m, t, ch); !o.fate.Conflict? && Exec(db.s, StepsOf(cfg, t, ch, o.fate)) == Some(o.db.s)
  {
    var first := if ch.prior.Some? then [Stamp(t, ch.prior.value)] else [];
    if ch.prior.Some? {
      ExecSnoc(db.s, [], Stamp(t, ch.prior.value));
      assert [] + first == first;
    }
    assert Exec(db.s, first) == Some(m.s);
    var stored := StoredRow(cfg.casts, cfg.types, ch.raw);
    if stored.Some? {
      ExecSnoc(db.s, first, InsertRow(t, ch.rid, stored.value));
    } else {
      assert first + [] == first;
    }
  }

  /* ---------- whole statements ---------- */

  /** A change that is still to be made: its old version is as it was and visible, its new
      RID is free. */
  ghost predicate ToDo(cfg: Config, before: Db, db: Db, t: Xid, ch: Change) {
    && Admissible(cfg, db, t, ch)
    && (ch.prior.Some? ==>
          ch.prior.value in before.s.heap && db.s.heap[ch.prior.value] == before.s.heap[ch.prior.value])
  }

  ghost predicate Apart(chs: seq<Change>) {
    forall j, k :: 0 <= j < k < |chs| ==>
      chs[j].rid != chs[k].rid && (chs[j].prior.Some? ==> chs[j].prior != chs[k].prior)
  }

  /** From change `i` on, the statement has touched nothing. */
  ghost predicate Pending(cfg: Config, before: Db, db: Db, t: Xid, chs: seq<Change>, i: nat) {
    && t in db.s.active && Apart(chs)
    && (forall j {:trigger ToDo(cfg, before, db, t, chs[j])} :: i <= j < |chs| ==> ToDo(cfg, before, db, t, chs[j]))
  }

  lemma ToDoStays(cfg: Config, before: Db, db: Db, t: Xid, ch: Change, other: Change)
    requires Admissible(cfg, db, t, ch) && ToDo(cfg, before, db, t, other)
    requires ch.rid != other.rid && (ch.prior.Some? ==> ch.prior != other.prior)
    ensures var w := Apply(cfg, db, t, ch).db; t in w.s.active && ToDo(cfg, before, w, t, other)
  {
  }

  lemma ApplyActive(cfg: Config, db: Db, t: Xid, ch: Change)
    requires Admissible(cfg, db, t, ch)
    ensures t in Apply(cfg, db, t, ch).db.s.active
  {
  }

  lemma PendingNext(cfg: Config, before: Db, db: Db, t: Xid, chs: seq<Change>, i: nat)
    requires Pending(cfg, before, db, t, chs, i) && i < |chs|
    ensures Admissible(cfg, db, t, chs[i])
    ensures Pending(cfg, before, Apply(cfg, db, t, chs[i]).db, t, chs, i + 1)
  {
    assert ToDo(cfg, before, db, t, chs[i]);
    ApplyActive(cfg, db, t, chs[i]);
    var w := Apply(cfg, db, t, chs[i]).db;
    forall j | i + 1 <= j < |chs| ensures ToDo(cfg, before, w, t, chs[j]) {
      assert ToDo(cfg, before, db, t, chs[j]);
      ToDoStays(cfg, before, db, t, chs[i], chs[j]);
    }
  }

  /** Change `ch` leads from table `a` to table `b` and ends as `f`. */
  ghost predicate Linked(cfg: Config, a: Db, b: Db, t: Xid, ch: Change, f: Fate) {
    Outcome(f, b) == Apply(cfg, a, t, ch)
  }

  /** The tables before and after each of the first changes, which were all fine. */
  ghost predicate Trace(cfg: Config, dbs: seq<Db>, t: Xid, chs: seq<Change>) {
    && 1 <= |dbs| <= |chs| + 1
    && forall i {:trigger dbs[i], chs[i]} :: 0 <= i < |dbs| - 1 ==> Linked(cfg, dbs[i], dbs[i + 1], t, chs[i], Fine)
  }

  /** One more fine change. */
  lemma TraceMore(cfg: Config, dbs: seq<Db>, t: Xid, chs: seq<Change>, w: Db)
    requires Trace(cfg, dbs, t, chs) && |dbs| <= |chs| && Linked(cfg, dbs[|dbs| - 1], w, t, chs[|dbs| - 1], Fine)
    ensures Trace(cfg, dbs + [w], t, chs)
  {
    var more := dbs + [w];
    forall i | 0 <= i < |more| - 1 ensures Linked(cfg, more[i], more[i + 1], t, chs[i], Fine) {
      if i < |dbs| - 1 { assert Linked(cfg, dbs[i], dbs[i + 1], t, chs[i], Fine); }
    }
  }

  lemma TraceLast(cfg: Config, dbs: seq<Db>, t: Xid, chs: seq<Change>) returns (m: Db, w: Db)
    requires Trace(cfg, dbs, t, chs) && |dbs| > 1
    ensures m == dbs[|dbs| - 2] && w == dbs[|dbs| - 1] && Linked(cfg, m, w, t, chs[|dbs| - 2], Fine)
    ensures Trace(cfg, dbs[..|dbs| - 1], t, chs)
  {
    var n := |dbs| - 2;
    var ch := chs[n];
    m, w := dbs[n], dbs[n + 1];
    var fewer := dbs[..|dbs| - 1];
    forall i | 0 <= i < |fewer| - 1 ensures Linked(cfg, fewer[i], fewer[i + 1], t, chs[i], Fine) {
      assert Linked(cfg, dbs[i], dbs[i + 1], t, chs[i], Fine);
    }
  }

  /** The first tables of a statement are determined. */
  lemma {:induction false} TraceUnique(cfg: Config, a: seq<Db>, b: seq<Db>, t: Xid, chs: seq<Change>, i: nat)
    requires Trace(cfg, a, t, chs) && Trace(cfg, b, t, chs) && a[0] == b[0] && i < |a| && i < |b|
    ensures a[i] == b[i]
    decreases i
  {
    if i > 0 {
      TraceUnique(cfg, a, b, t, chs, i - 1);
      var ch := chs[i - 1];
      assert Linked(cfg, a[i - 1], a[i], t, ch, Fine) && Linked(cfg, b[i - 1], b[i], t, ch, Fine);
    }
  }

  lemma PendingLinked(cfg: Config, before: Db, db: Db, w: Db, t: Xid, chs: seq<Change>, i: nat, f: Fate)
    requires Pending(cfg, before, db, t, chs, i) && i < |chs| && Linked(cfg, db, w, t, chs[i], f)
    ensures Pending(cfg, before, w, t, chs, i + 1)
  {
    PendingNext(cfg, before, db, t, chs, i);
  }

  lemma {:induction false} PendingAt(cfg: Config, dbs: seq<Db>, t: Xid, chs: seq<Change>)
    requires Trace(cfg, dbs, t, chs) && Pending(cfg, dbs[0], dbs[0], t, chs, 0)
    ensures Pending(cfg, dbs[0], dbs[|dbs| - 1], t, chs, |dbs| - 1)
    ensures |dbs| <= |chs| ==> ToDo(cfg, dbs[0], dbs[|dbs| - 1], t, chs[|dbs| - 1])
    decreases |dbs|
  {
    if |dbs| > 1 {
      var m, w := TraceLast(cfg, dbs, t, chs);
      PendingAt(cfg, dbs[..|dbs| - 1], t, chs);
      PendingLinked(cfg, dbs[0], m, w, t, chs, |dbs| - 2, Fine);
    }
  }

  ghost predicate SameNames(before: Db, after: Db) {
    after.names == before.names && after.indexes.Keys == before.indexes.Keys
  }

  /** One change from a sound table, with its steps. */
  lemma LinkedKeeps(cfg: Config, m: Db, w: Db, t: Xid, ch: Change, f: Fate) returns (b: seq<Step<Tuple>>)
    requires DbOk(cfg, m) && Admissible(cfg, m, t, ch) && Linked(cfg, m, w, t, ch, f)
    ensures b == StepsOf(cfg, t, ch, f) && Exec(m.s, b) == Some(w.s)
    ensures DbOk(cfg, w) && SameNames(m, w) && GapsGrow(m, w, f, ch.rid)
  {
    ApplyKeeps(cfg, m, t, ch);
    b := StepsOf(cfg, t, ch, f);
  }

  /** The steps of `n` changes that are all fine. */
  ghost function FineSteps(cfg: Config, t: Xid, chs: seq<Change>, n: nat): (steps: seq<Step<Tuple>>)
    requires n <= |chs|
    ensures WritesOf(steps, t)
  {
    if n == 0 then [] else FineSteps(cfg, t, chs, n - 1) + StepsOf(cfg, t, chs[n - 1], Fine)
  }

  lemma ExecBoth(s: State<Tuple>, a: seq<Step<Tuple>>, b: seq<Step<Tuple>>, m: State<Tuple>, w: State<Tuple>)
    requires Exec(s, a) == Some(m) && Exec(m, b) == Some(w)
    ensures Exec(s, a + b) == Some(w)
  {
    ExecSplit(s, a, b);
  }

  lemma LastKeeps(cfg: Config, db: Db, dbs: seq<Db>, t: Xid, chs: seq<Change>, w: Db)
    requires Trace(cfg, dbs, t, chs) && db == dbs[0] && Pending(cfg, db, db, t, chs, 0) && |dbs| <= |chs|
    requires DbOk(cfg, dbs[|dbs| - 1]) && Linked(cfg, dbs[|dbs| - 1], w, t, chs[|dbs| - 1], Fine)
    requires Exec(db.s, FineSteps(cfg, t, chs, |dbs| - 1)) == Some(dbs[|dbs| - 1].s)
    ensures DbOk(cfg, w) && SameNames(dbs[|dbs| - 1], w) && Exec(db.s, FineSteps(cfg, t, chs, |dbs|)) == Some(w.s)
  {
    var n := |dbs| - 1;
    PendingAt(cfg, dbs, t, chs);
    var b := LinkedKeeps(cfg, dbs[n], w, t, chs[n], Fine);
    ExecBoth(db.s, FineSteps(cfg, t, chs, n), b, dbs[n].s, w.s);
  }

  /** A statement whose changes are fine so far keeps the table sound and makes exactly their steps. */
  lemma {:induction false} TraceKeeps(cfg: Config, dbs: seq<Db>, t: Xid, chs: seq<Change>)
    requires Trace(cfg, dbs, t, chs) && DbOk(cfg, dbs[0]) && Pending(cfg, dbs[0], dbs[0], t, chs, 0)
    ensures DbOk(cfg, dbs[|dbs| - 1]) && SameNames(dbs[0], dbs[|dbs| - 1])
    ensures Exec(dbs[0].s, FineSteps(cfg, t, chs, |dbs| - 1)) == Some(dbs[|dbs| - 1].s)
    decreases |dbs|
  {
    if |dbs| > 1 {
      var m, w := TraceLast(cfg, dbs, t, chs);
      var n, fewer := |dbs| - 2, dbs[..|dbs| - 1];
      TraceKeeps(cfg, fewer, t, chs);
      LastKeeps(cfg, dbs[0], fewer, t, chs, w);
    }
  }

  /** Nothing but an index stands in the way of a change: nobody else has claimed the version
      it replaces, and its row can be stored. */
  ghost predicate Clear(cfg: Config, before: Db, t: Xid, ch: Change) {
    && (ch.prior.Some? ==>
          ch.prior.value in before.s.heap && MayStamp(before.s.aborted, t, before.s.heap[ch.prior.value].xmax))
    && |ch.raw| == |cfg.types| && StoredRow(cfg.casts, cfg.types, ch.raw).Some?
  }

  lemma FateMeans(cfg: Config, before: Db, db: Db, t: Xid, ch: Change)
    requires ToDo(cfg, before, db, t, ch) && db.s.aborted == before.s.aborted
    ensures var o := Apply(cfg, db, t, ch);
            && o.db.s.aborted == before.s.aborted && o.db.names == db.names
            && (o.fate.Refused? ==> o.fate.index in db.names)
            && (Clear(cfg, before, t, ch) <==> o.fate.Fine? || o.fate.Refused?)
  {
  }

  lemma LinkedClear(cfg: Config, before: Db, db: Db, w: Db, t: Xid, ch: Change, f: Fate)
    requires ToDo(cfg, before, db, t, ch) && db.s.aborted == before.s.aborted && Linked(cfg, db, w, t, ch, f)
    ensures w.s.aborted == before.s.aborted && w.names == db.names && (f.Refused? ==> f.index in db.names)
    ensures Clear(cfg, before, t, ch) <==> f.Fine? || f.Refused?
  {
    FateMeans(cfg, before, db, t, ch);
  }

  lemma {:induction false} TraceClear(cfg: Config, dbs: seq<Db>, t: Xid, chs: seq<Change>)
    requires Trace(cfg, dbs, t, chs) && Pending(cfg, dbs[0], dbs[0], t, chs, 0)
    ensures dbs[|dbs| - 1].s.aborted == dbs[0].s.aborted && dbs[|dbs| - 1].names == dbs[0].names
    ensures forall i :: 0 <= i < |dbs| - 1 ==> Clear(cfg, dbs[0], t, chs[i])
    decreases |dbs|
  {
    if |dbs| > 1 {
      var m, w := TraceLast(cfg, dbs, t, chs);
      var n, fewer := |dbs| - 2, dbs[..|dbs| - 1];
      TraceClear(cfg, fewer, t, chs);
      PendingAt(cfg, fewer, t, chs);
      LinkedClear(cfg, dbs[0], m, w, t, chs[n], Fine);
    }
  }

  /** The creators of these versions have aborted. */
  ghost predicate Dead(rids: set<RID>, heap: Heap, aborted: set<Xid>) {
    forall r :: r in rids ==> r in heap && heap[r].xmin in aborted
  }

  /** While changes are fine, the indexes lack no entry they did not lack before. */
  lemma {:induction false} TraceGaps(cfg: Config, dbs: seq<Db>, t: Xid, chs: seq<Change>, name: string)
    requires Trace(cfg, dbs, t, chs) && DbOk(cfg, dbs[0])
    requires Pending(cfg, dbs[0], dbs[0], t, chs, 0) && name in dbs[0].indexes
    ensures var w := dbs[|dbs| - 1];
            name in w.indexes && Gaps(w.s.heap, w.indexes[name]) == Gaps(dbs[0].s.heap, dbs[0].indexes[name])
    decreases |dbs|
  {
    if |dbs| > 1 {
      var m, w := TraceLast(cfg, dbs, t, chs);
      var n, fewer := |dbs| - 2, dbs[..|dbs| - 1];
      TraceGaps(cfg, fewer, t, chs, name);
      LastGaps(cfg, dbs[0], fewer, t, chs, w, Fine, name);
    }
  }

  /** What an index lacks after one more change of a statement. */
  lemma LastGaps(cfg: Config, db: Db, dbs: seq<Db>, t: Xid, chs: seq<Change>, w: Db, fate: Fate, name: string)
    requires Trace(cfg, dbs, t, chs) && db == dbs[0] && DbOk(cfg, db) && Pending(cfg, db, db, t, chs, 0)
    requires |dbs| <= |chs| && Linked(cfg, dbs[|dbs| - 1], w, t, chs[|dbs| - 1], fate) && name in dbs[|dbs| - 1].indexes
    ensures var m := dbs[|dbs| - 1];
            name in w.indexes && GapAfter(m, w, fate, chs[|dbs| - 1].rid, name)
  {
    var n := |dbs| - 1;
    TraceKeeps(cfg, dbs, t, chs);
    PendingAt(cfg, dbs, t, chs);
    LinkedGaps(cfg, dbs[n], w, t, chs[n], fate, name);
  }

  lemma LinkedGaps(cfg: Config, m: Db, w: Db, t: Xid, ch: Change, f: Fate, name: string)
    requires DbOk(cfg, m) && Admissible(cfg, m, t, ch) && Linked(cfg, m, w, t, ch, f) && name in m.indexes
    ensures name in w.indexes && GapAfter(m, w, f, ch.rid, name)
  {
    var b := LinkedKeeps(cfg, m, w, t, ch, f);
    GapStep(m, w, f, ch.rid, name);
  }

  lemma GapStep(before: Db, after: Db, fate: Fate, r: RID, name: string)
    requires GapsGrow(before, after, fate, r) && name in before.indexes
    ensures name in after.indexes && GapAfter(before, after, fate, r, name)
  {
    assert name in after.indexes.Keys;
    var x := after.indexes[name];
  }

  /* ---------- what a statement writes ---------- */

  /** The stored rows of the first `n` changes, under their RIDs. */
  ghost function NewRows(cfg: Config, chs: seq<Change>, n: nat): (m: map<RID, Tuple>)
    requires n <= |chs| && forall i :: 0 <= i < |chs| ==> |chs[i].raw| == |cfg.types|
  {
    if n == 0 then map[]
    else
      match StoredRow(cfg.casts, cfg.types, chs[n - 1].raw)
      case None => NewRows(cfg, chs, n - 1)
      case Some(row) => NewRows(cfg, chs, n - 1)[chs[n - 1].rid := row]
  }

  /** The versions the first `n` changes replace. */
  ghost function Replaced(chs: seq<Change>, n: nat): (s: set<RID>)
    requires n <= |chs|
  {
    set i | 0 <= i < n && chs[i].prior.Some? :: chs[i].prior.value
  }

  lemma PendingWidths(cfg: Config, db: Db, t: Xid, chs: seq<Change>)
    requires Pending(cfg, db, db, t, chs, 0)
    ensures forall i :: 0 <= i < |chs| ==> |chs[i].raw| == |cfg.types|
  {
    forall i | 0 <= i < |chs| ensures |chs[i].raw| == |cfg.types| { assert ToDo(cfg, db, db, t, chs[i]); }
  }

  lemma InsertedConcat(a: seq<Step<Tuple>>, b: seq<Step<Tuple>>)
    ensures InsertedBy(a + b) == InsertedBy(a) + InsertedBy(b)
    ensures StampedBy(a + b) == StampedBy(a) + StampedBy(b)
    decreases |b|
  {
    if b == [] {
      assert a + b == a;
    } else {
      var n := |b| - 1;
      InsertedConcat(a, b[..n]);
      assert (a + b)[..|a + b| - 1] == a + b[..n] && (a + b)[|a + b| - 1] == b[n];
      if b[n].InsertRow? { PlusUpdate(InsertedBy(a), InsertedBy(b[..n]), b[n].rid, b[n].row); }
    }
  }

  lemma StepsWrite(cfg: Config, t: Xid, ch: Change, fate: Fate)
    requires |ch.raw| == |cfg.types| && !fate.Conflict?
    ensures var stored := StoredRow(cfg.casts, cfg.types, ch.raw);
            && InsertedBy(StepsOf(cfg, t, ch, fate)) == (if stored.Some? then map[ch.rid := stored.value] else map[])
            && StampedBy(StepsOf(cfg, t, ch, fate)) == (if ch.prior.Some? then {ch.prior.value} else {})
  {
    var stored := StoredRow(cfg.casts, cfg.types, ch.raw);
    var stamp := if ch.prior.Some? then [Stamp(t, ch.prior.value)] else [];
    var insert := if stored.Some? then [InsertRow(t, ch.rid, stored.value)] else [];
    InsertedConcat(stamp, insert);
    assert |stamp| == 1 ==> stamp[..0] == [];
    assert |insert| == 1 ==> insert[..0] == [];
  }

  lemma NewRowsStep(cfg: Config, chs: seq<Change>, n: nat)
    requires 0 < n <= |chs| && forall i :: 0 <= i < |chs| ==> |chs[i].raw| == |cfg.types|
    ensures var stored := StoredRow(cfg.casts, cfg.types, chs[n - 1].raw);
            NewRows(cfg, chs, n)
            == NewRows(cfg, chs, n - 1) + (if stored.Some? then map[chs[n - 1].rid := stored.value] else map[])
  {
  }

  lemma ReplacedStep(chs: seq<Change>, n: nat)
    requires 0 < n <= |chs|
    ensures Replaced(chs, n) == Replaced(chs, n - 1) + (if chs[n - 1].prior.Some? then {chs[n - 1].prior.value} else {})
  {
  }

  /** A statement whose changes are all fine inserts their stored rows and stamps what they replace. */
  lemma {:induction false} FineWrites(cfg: Config, t: Xid, chs: seq<Change>, n: nat)
    requires n <= |chs| && forall i :: 0 <= i < |chs| ==> |chs[i].raw| == |cfg.types|
    ensures InsertedBy(FineSteps(cfg, t, chs, n)) == NewRows(cfg, chs, n)
    ensures StampedBy(FineSteps(cfg, t, chs, n)) == Replaced(chs, n)
    decreases n
  {
    if n > 0 {
      FineWrites(cfg, t, chs, n - 1);
      InsertedConcat(FineSteps(cfg, t, chs, n - 1), StepsOf(cfg, t, chs[n - 1], Fine));
      StepsWrite(cfg, t, chs[n - 1], Fine);
      NewRowsStep(cfg, chs, n);
      ReplacedStep(chs, n);
    }
  }

  /* ---------- statements that raise inside a longer transaction ---------- */

  /** Committing after an index has refused a row publishes the row, and the index that
      refused it lacks it, as do those behind it. */
  lemma RefusedThenCommitted(cfg: Config, db: Db, t: Xid, ch: Change, n: string)
    requires DbOk(cfg, db) && Admissible(cfg, db, t, ch) && Apply(cfg, db, t, ch).fate.Refused?
    requires n in db.indexes
    ensures var o := Apply(cfg, db, t, ch);
            && CanStep(o.db.s, Commit(t)) && n in o.db.indexes && o.fate.index in db.names
            && var s := Next(o.db.s, Commit(t));
               && ch.rid in LiveRows(s)
               && (ch.rid in Gaps(s.heap, o.db.indexes[n]) <==> n !in db.names[..Place(db.names, o.fate.index)])
  {
    ApplyKeeps(cfg, db, t, ch);
    var o := Apply(cfg, db, t, ch);
    RefusedStored(cfg, db, t, ch);
    GapStep(db, o.db, o.fate, ch.rid, n);
    assert t < o.db.s.next && ch.rid !in Gaps(db.s.heap, db.indexes[n]);
  }

  lemma RefusedStored(cfg: Config, db: Db, t: Xid, ch: Change)
    requires Admissible(cfg, db, t, ch)
    ensures var o := Apply(cfg, db, t, ch);
            o.fate.Refused? ==>
              && t in o.db.s.active && o.db.s.aborted == db.s.aborted && ch.rid in o.db.s.heap
              && o.db.s.heap[ch.rid].xmin == t && o.db.s.heap[ch.rid].xmax == INFINITY_TXN
  {
  }

  /** Committing after an UPDATE could not store its row loses the row. */
  lemma UnstorableThenCommitted(cfg: Config, db: Db, t: Xid, ch: Change)
    requires DbOk(cfg, db) && Admissible(cfg, db, t, ch) && ch.prior.Some? && Untouched(db.s, t)
    requires Apply(cfg, db, t, ch).fate.Unstorable?
    ensures var o := Apply(cfg, db, t, ch);
            CanStep(o.db.s, Commit(t)) && LiveRows(Next(o.db.s, Commit(t))) == LiveRows(db.s) - {ch.prior.value}
  {
    var steps := UnstorableExec(cfg, db, t, ch);
    StatementIsAtomic(db.s, steps, t);
    assert LiveRows(db.s) + map[] == LiveRows(db.s);
  }

  lemma UnstorableExec(cfg: Config, db: Db, t: Xid, ch: Change) returns (steps: seq<Step<Tuple>>)
    requires DbOk(cfg, db) && Admissible(cfg, db, t, ch) && ch.prior.Some? && Apply(cfg, db, t, ch).fate.Unstorable?
    ensures WritesOf(steps, t) && Exec(db.s, steps) == Some(Apply(cfg, db, t, ch).db.s)
    ensures InsertedBy(steps) == map[] && StampedBy(steps) == {ch.prior.value}
  {
    ApplyKeeps(cfg, db, t, ch);
    UnstorableMeans(cfg, db, t, ch);
    StepsWrite(cfg, t, ch, Unstorable);
    steps := StepsOf(cfg, t, ch, Unstorable);
  }

  lemma UnstorableMeans(cfg: Config, db: Db, t: Xid, ch: Change)
    requires Admissible(cfg, db, t, ch) && Apply(cfg, db, t, ch).fate.Unstorable?
    ensures StoredRow(cfg.casts, cfg.types, ch.raw).None?
  {
  }

  /* ---------- new indexes ---------- */

  ghost predicate Indexable(cfg: Config, db: Db, name: string, column: nat) {
    name !in db.names && column < |cfg.types| && (cfg.types[column] == INT || cfg.types[column] == TEXT)
  }

  ghost predicate HeapScan(heap: Heap, order: seq<RID>) {
    Distinct(order) && forall r :: r in order <==> r in heap
  }

  /** CREATE INDEX, with a heap scan in the given order: refused, or registered, and then
      behind a stale root or with the entries the backfill got to. */
  ghost predicate Created(cfg: Config, a: Db, b: Db, name: string, column: nat, unique: bool, order: seq<RID>) {
    if !Indexable(cfg, a, name, column) then b == a
    else
      && b.s == a.s && b.names == a.names + [name]
      && if LeavesStaleRoot(a.s.heap, column, order, cfg.most) then b.indexes == a.indexes
         else
           && name in b.indexes && b.indexes == a.indexes[name := b.indexes[name]]
           && b.indexes[name].unique == unique && b.indexes[name].column == column
           && IndexFits(cfg, a.s.heap, b.indexes[name])
           && Gaps(a.s.heap, b.indexes[name])
              == if Uncrowded(a.s.heap, column, cfg.most) then {} else Rest(order, cfg.most)
  }

  /** A new index joins the others. */
  lemma CreatedOk(cfg: Config, a: Db, b: Db, name: string, column: nat, unique: bool, order: seq<RID>)
    requires DbOk(cfg, a) && Created(cfg, a, b, name, column, unique, order)
    ensures DbOk(cfg, b)
  {
    forall n | n in b.indexes ensures IndexFits(cfg, b.s.heap, b.indexes[n]) {
      if n in a.indexes && b.indexes[n] == a.indexes[n] { assert IndexFits(cfg, a.s.heap, a.indexes[n]); }
    }
  }
}
