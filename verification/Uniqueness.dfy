/** What a UNIQUE index enforces on the committed table. */
module Uniqueness {
  import opened Sequences
  import opened BTreeEntries
  import opened Expr
  import opened Mvcc
  import opened MvccProof
  import opened Pushdown
  import opened Statements
  import opened Schema
  import opened Indexes
  import opened Changes

  function ValueAt(row: Tuple, column: nat): (v: Value) {
    if column < |row| then row[column] else Null
  }

  /** No two committed rows have the same value in the column. */
  ghost predicate Unique(rows: map<RID, Tuple>, column: nat) {
    forall a, b :: a in rows && b in rows && a != b ==> ValueAt(rows[a], column) != ValueAt(rows[b], column)
  }

  /** The value looked up is the key that is then stored. */
  predicate KeySurvives(idx: Index, raw: Tuple, stored: Tuple) {
    SearchKey(ValueAt(raw, idx.column)) == KeyIn(idx, stored)
  }

  /** So it is for whole numbers, and for text up to eight bytes that does not end in NUL. */
  lemma KeySurvivesIff(idx: Index, c: Casts, raw: Tuple, stored: Tuple)
    requires idx.column < |raw| == |stored| && (idx.kind == INT || idx.kind == TEXT)
    requires Ordered(idx.kind, raw[idx.column])
    requires Coerce(c, idx.kind, raw[idx.column]) == Some(stored[idx.column])
    ensures var v := raw[idx.column];
            KeySurvives(idx, raw, stored) <==>
              if idx.kind == INT then Truncate(Number(v)) as real == Number(v) else IndexKey(v) == v
  {
  }

  /** A row that the transaction sees, other than the one being replaced, holds the key. */
  ghost predicate SeenClash(db: Db, t: Xid, ch: Change, stored: Tuple, column: nat)
    requires t in db.s.snaps
  {
    exists r :: r in Seen(db.s, t) && Some(r) != ch.prior
             && ValueAt(db.s.heap[r].row, column) == ValueAt(stored, column)
  }

  /** A row that is committed but was not when the transaction began holds the key. */
  ghost predicate UnseenClash(db: Db, t: Xid, ch: Change, stored: Tuple, column: nat)
    requires t in db.s.snaps
  {
    exists r :: r in LiveRows(db.s) && r !in Seen(db.s, t) && Some(r) != ch.prior
             && ValueAt(db.s.heap[r].row, column) == ValueAt(stored, column)
  }

  /** A covering unique index takes no row whose surviving key somebody visible holds. */
  lemma SeenClashBlocks(heap: Heap, aborted: set<Xid>, snap: Snapshot, idx: Index, raw: Tuple, stored: Tuple,
                        prior: Option<RID>, most: nat, r: RID)
    requires idx.unique && idx.column < |raw| && KeySurvives(idx, raw, stored)
    requires Holds(heap, aborted, snap, r, prior) && r !in Gaps(heap, idx)
    requires ValueAt(heap[r].row, idx.column) == ValueAt(stored, idx.column)
    requires idx.column < |heap[r].row| == |stored|
    ensures Blocks(heap, aborted, snap, idx, raw, stored, prior, most)
  {
    assert r in At(idx, KeyIn(idx, heap[r].row));
  }

  /** The table a change finds once the version it replaces is stamped. */
  ghost function Stamped(db: Db, t: Xid, ch: Change): (m: Db)
    requires ch.prior.Some? ==> CanStep(db.s, Stamp(t, ch.prior.value))
  {
    if ch.prior.None? then db else db.(s := Next(db.s, Stamp(t, ch.prior.value)))
  }

  lemma FineMeans(cfg: Config, db: Db, t: Xid, ch: Change)
    requires Admissible(cfg, db, t, ch) && Apply(cfg, db, t, ch).fate.Fine?
    ensures StoredRow(cfg.casts, cfg.types, ch.raw).Some?
    ensures ch.prior.Some? ==> CanStep(db.s, Stamp(t, ch.prior.value))
    ensures var m, stored := Stamped(db, t, ch), StoredRow(cfg.casts, cfg.types, ch.raw).value;
            StopAt(cfg, m, t, ch, stored, m.s.heap[ch.rid := Version(t, INFINITY_TXN, stored)]) == |m.names|
  {
  }

  lemma StampedIndex(cfg: Config, db: Db, t: Xid, ch: Change, stored: Tuple, name: string)
    requires DbOk(cfg, db) && Admissible(cfg, db, t, ch) && TypedRow(cfg.types, stored) && name in db.indexes
    requires ch.prior.Some? ==> CanStep(db.s, Stamp(t, ch.prior.value))
    ensures var m, idx := Stamped(db, t, ch), db.indexes[name];
            && idx.column < |cfg.types|
            && Gaps(m.s.heap[ch.rid := Version(t, INFINITY_TXN, stored)], idx) == Gaps(db.s.heap, idx) + {ch.rid}
  {
    var m, idx := Stamped(db, t, ch), db.indexes[name];
    assert IndexFits(cfg, db.s.heap, idx);
    if ch.prior.Some? { StampKeeps(db.s.heap, idx, ch.prior.value, t); }
    InsertVersionKeeps(m.s.heap, idx, ch.rid, Version(t, INFINITY_TXN, stored));
  }

  /** So a change that is fine met no such row. */
  lemma FineMeetsNone(cfg: Config, db: Db, t: Xid, ch: Change, stored: Tuple, name: string)
    requires DbOk(cfg, db) && Admissible(cfg, db, t, ch) && Apply(cfg, db, t, ch).fate.Fine?
    requires StoredRow(cfg.casts, cfg.types, ch.raw) == Some(stored)
    requires name in db.indexes && db.indexes[name].unique && KeySurvives(db.indexes[name], ch.raw, stored)
    requires Seen(db.s, t).Keys !! Gaps(db.s.heap, db.indexes[name])
    ensures !SeenClash(db, t, ch, stored, db.indexes[name].column)
  {
    forall r | r in Seen(db.s, t) && Some(r) != ch.prior
      ensures ValueAt(db.s.heap[r].row, db.indexes[name].column) != ValueAt(stored, db.indexes[name].column)
    {
      FineMeets(cfg, db, t, ch, stored, name, r);
    }
  }

  lemma FineMeets(cfg: Config, db: Db, t: Xid, ch: Change, stored: Tuple, name: string, r: RID)
    requires DbOk(cfg, db) && Admissible(cfg, db, t, ch) && Apply(cfg, db, t, ch).fate.Fine?
    requires StoredRow(cfg.casts, cfg.types, ch.raw) == Some(stored)
    requires name in db.indexes && db.indexes[name].unique && KeySurvives(db.indexes[name], ch.raw, stored)
    requires r in Seen(db.s, t) && r !in Gaps(db.s.heap, db.indexes[name]) && Some(r) != ch.prior
    ensures ValueAt(db.s.heap[r].row, db.indexes[name].column) != ValueAt(stored, db.indexes[name].column)
  {
    FineUnblocked(cfg, db, t, ch, stored, name);
    EntryStays(cfg, db, t, ch, stored, name, r);
    NoClashAt(db, t, ch, stored, name, cfg.most, r);
  }

  lemma EntryStays(cfg: Config, db: Db, t: Xid, ch: Change, stored: Tuple, name: string, r: RID)
    requires DbOk(cfg, db) && Admissible(cfg, db, t, ch) && TypedRow(cfg.types, stored) && name in db.indexes
    requires ch.prior.Some? ==> CanStep(db.s, Stamp(t, ch.prior.value))
    requires r in db.s.heap && r !in Gaps(db.s.heap, db.indexes[name])
    ensures r !in Gaps(Stamped(db, t, ch).s.heap[ch.rid := Version(t, INFINITY_TXN, stored)], db.indexes[name])
    ensures |db.s.heap[r].row| == |stored|
  {
    StampedIndex(cfg, db, t, ch, stored, name);
    assert TypedRow(cfg.types, db.s.heap[r].row);
  }

  lemma FineUnblocked(cfg: Config, db: Db, t: Xid, ch: Change, stored: Tuple, name: string)
    requires DbOk(cfg, db) && Admissible(cfg, db, t, ch) && Apply(cfg, db, t, ch).fate.Fine?
    requires StoredRow(cfg.casts, cfg.types, ch.raw) == Some(stored) && name in db.indexes
    ensures (ch.prior.Some? ==> CanStep(db.s, Stamp(t, ch.prior.value))) && TypedRow(cfg.types, stored)
    ensures var m, idx := Stamped(db, t, ch), db.indexes[name];
            var heap := m.s.heap[ch.rid := Version(t, INFINITY_TXN, stored)];
            && idx.column < |ch.raw| == |stored|
            && !Blocks(heap, m.s.aborted, m.s.snaps[t], idx, ch.raw, stored, ch.prior, cfg.most)
  {
    FineMeans(cfg, db, t, ch);
    StoredIsTyped(cfg.casts, cfg.types, ch.raw);
    assert IndexFits(cfg, db.s.heap, db.indexes[name]);
    var j := PositionOf(db, name);
  }

  lemma PositionOf(db: Db, name: string) returns (j: nat)
    requires NamesOk(db) && name in db.indexes
    ensures j < |db.names| && db.names[j] == name
  {
    assert name in db.names;
    j :| 0 <= j < |db.names| && db.names[j] == name;
  }

  lemma NoClashAt(db: Db, t: Xid, ch: Change, stored: Tuple, name: string, most: nat, r: RID)
    requires t in db.s.snaps && r in Seen(db.s, t) && Some(r) != ch.prior && ch.rid !in db.s.heap && name in db.indexes
    requires ch.prior.Some? ==> CanStep(db.s, Stamp(t, ch.prior.value))
    requires var m, idx := Stamped(db, t, ch), db.indexes[name];
             var heap := m.s.heap[ch.rid := Version(t, INFINITY_TXN, stored)];
             && idx.unique
             && idx.column < |ch.raw| == |stored| == |db.s.heap[r].row|
             && KeySurvives(idx, ch.raw, stored)
             && r !in Gaps(heap, idx)
             && !Blocks(heap, m.s.aborted, m.s.snaps[t], idx, ch.raw, stored, ch.prior, most)
    ensures ValueAt(db.s.heap[r].row, db.indexes[name].column) != ValueAt(stored, db.indexes[name].column)
  {
    var m, idx := Stamped(db, t, ch), db.indexes[name];
    var heap := m.s.heap[ch.rid := Version(t, INFINITY_TXN, stored)];
    if ValueAt(db.s.heap[r].row, idx.column) == ValueAt(stored, idx.column) {
      SeenClashBlocks(heap, m.s.aborted, m.s.snaps[t], idx, ch.raw, stored, ch.prior, most, r);
    }
  }

  lemma FineCommitted(cfg: Config, db: Db, t: Xid, ch: Change, stored: Tuple)
    requires DbOk(cfg, db) && Admissible(cfg, db, t, ch) && Untouched(db.s, t) && Apply(cfg, db, t, ch).fate.Fine?
    requires StoredRow(cfg.casts, cfg.types, ch.raw) == Some(stored)
    ensures var w := Apply(cfg, db, t, ch).db;
            && CanStep(w.s, Commit(t))
            && LiveRows(Next(w.s, Commit(t)))
               == LiveRows(db.s)[ch.rid := stored] - (if ch.prior.Some? then {ch.prior.value} else {})
  {
    var steps := FineExec(cfg, db, t, ch, stored);
    StatementIsAtomic(db.s, steps, t);
    PlusOne(LiveRows(db.s), ch.rid, stored);
  }

  lemma PlusOne(rows: map<RID, Tuple>, r: RID, stored: Tuple)
    ensures rows + map[r := stored] == rows[r := stored]
  {
  }

  lemma FineExec(cfg: Config, db: Db, t: Xid, ch: Change, stored: Tuple) returns (steps: seq<Step<Tuple>>)
    requires DbOk(cfg, db) && Admissible(cfg, db, t, ch) && Apply(cfg, db, t, ch).fate.Fine?
    requires StoredRow(cfg.casts, cfg.types, ch.raw) == Some(stored)
    ensures WritesOf(steps, t) && Exec(db.s, steps) == Some(Apply(cfg, db, t, ch).db.s)
    ensures InsertedBy(steps) == map[ch.rid := stored]
    ensures StampedBy(steps) == if ch.prior.Some? then {ch.prior.value} else {}
  {
    ApplyKeeps(cfg, db, t, ch);
    StepsWrite(cfg, t, ch, Fine);
    steps := StepsOf(cfg, t, ch, Fine);
  }

  lemma UniqueAfter(rows: map<RID, Tuple>, r: RID, stored: Tuple, gone: set<RID>, column: nat)
    requires Unique(rows, column) && r !in rows && r !in gone
    ensures Unique(rows[r := stored] - gone, column) <==>
      !exists q :: q in rows && q !in gone && ValueAt(rows[q], column) == ValueAt(stored, column)
  {
    var after := rows[r := stored] - gone;
    assert r in after && after[r] == stored;
    forall q | q in rows && q !in gone ensures q in after && after[q] == rows[q] && q != r { }
  }

  /** A transaction that stores one row under a surviving key and commits keeps the column
      unique if and only if no row that it could not see, because it was committed only after
      the transaction began, holds the key. */
  lemma CommitKeepsUniqueIff(cfg: Config, db: Db, t: Xid, ch: Change, stored: Tuple, name: string)
    requires DbOk(cfg, db) && Admissible(cfg, db, t, ch) && Untouched(db.s, t) && Apply(cfg, db, t, ch).fate.Fine?
    requires StoredRow(cfg.casts, cfg.types, ch.raw) == Some(stored)
    requires name in db.indexes && db.indexes[name].unique && KeySurvives(db.indexes[name], ch.raw, stored)
    requires Seen(db.s, t).Keys !! Gaps(db.s.heap, db.indexes[name]) && Unique(LiveRows(db.s), db.indexes[name].column)
    ensures var w := Apply(cfg, db, t, ch).db;
            && CanStep(w.s, Commit(t))
            && (Unique(LiveRows(Next(w.s, Commit(t))), db.indexes[name].column)
                <==> !UnseenClash(db, t, ch, stored, db.indexes[name].column))
  {
    FineMeetsNone(cfg, db, t, ch, stored, name);
    FineCommitted(cfg, db, t, ch, stored);
    ClashIsUnseen(db, t, ch, stored, db.indexes[name].column);
  }

  lemma ClashIsUnseen(db: Db, t: Xid, ch: Change, stored: Tuple, column: nat)
    requires t in db.s.snaps && ch.rid !in db.s.heap && (ch.prior.Some? ==> ch.prior.value in db.s.heap)
    requires Unique(LiveRows(db.s), column) && !SeenClash(db, t, ch, stored, column)
    ensures Unique(LiveRows(db.s)[ch.rid := stored] - (if ch.prior.Some? then {ch.prior.value} else {}), column)
       <==> !UnseenClash(db, t, ch, stored, column)
  {
    UniqueAfter(LiveRows(db.s), ch.rid, stored, if ch.prior.Some? then {ch.prior.value} else {}, column);
  }

  /* ---------- when an index objects ---------- */

  /** What an index has against a row, by what the transaction sees: there are keys the value
      cannot be compared with, the key has as many entries as a page takes, or the index is
      unique and has an entry under the value for a row that is seen and not being replaced. */
  ghost predicate Objects(cfg: Config, db: Db, t: Xid, ch: Change, stored: Tuple, idx: Index)
    requires t in db.s.snaps
  {
    var v := ValueAt(ch.raw, idx.column);
    || (idx.entries != map[] && !(if idx.kind == INT then v.Bool? || v.Int? || v.Float? else v.Text?))
    || |At(idx, KeyIn(idx, stored))| >= cfg.most
    || (idx.unique && exists r :: ClashesWith(db, t, ch, idx, v, r))
  }

  ghost predicate ClashesWith(db: Db, t: Xid, ch: Change, idx: Index, v: Value, r: RID)
    requires t in db.s.snaps
  {
    && r in Seen(db.s, t) && Some(r) != ch.prior && r !in Gaps(db.s.heap, idx)
    && KeyIn(idx, db.s.heap[r].row) == SearchKey(v)
  }

  /** The heap once the row is there. */
  ghost function With(db: Db, t: Xid, ch: Change, stored: Tuple): (heap: Heap)
    requires ch.prior.Some? ==> CanStep(db.s, Stamp(t, ch.prior.value))
  {
    Stamped(db, t, ch).s.heap[ch.rid := Version(t, INFINITY_TXN, stored)]
  }

  lemma HoldsIsSeen(db: Db, t: Xid, ch: Change, stored: Tuple, idx: Index, v: Value, r: RID)
    requires t in db.s.snaps && ch.rid !in db.s.heap && Sound(db.s.heap, idx)
    requires ch.prior.Some? ==> CanStep(db.s, Stamp(t, ch.prior.value))
    ensures r in At(idx, SearchKey(v)) && Holds(With(db, t, ch, stored), db.s.aborted, db.s.snaps[t], r, ch.prior)
       <==> ClashesWith(db, t, ch, idx, v, r)
  {
    if r in At(idx, SearchKey(v)) { SoundMember(db.s.heap, idx, SearchKey(v), r); }
  }

  lemma BlocksIsObjects(cfg: Config, db: Db, t: Xid, ch: Change, stored: Tuple, idx: Index)
    requires t in db.s.snaps && ch.rid !in db.s.heap && Sound(db.s.heap, idx) && idx.column < |ch.raw|
    requires ch.prior.Some? ==> CanStep(db.s, Stamp(t, ch.prior.value))
    requires idx.kind == INT || idx.kind == TEXT
    ensures Blocks(With(db, t, ch, stored), db.s.aborted, db.s.snaps[t], idx, ch.raw, stored, ch.prior, cfg.most)
       <==> Objects(cfg, db, t, ch, stored, idx)
  {
    var v := ch.raw[idx.column];
    forall r
      ensures r in At(idx, SearchKey(v)) && Holds(With(db, t, ch, stored), db.s.aborted, db.s.snaps[t], r, ch.prior)
         <==> ClashesWith(db, t, ch, idx, v, r)
    {
      HoldsIsSeen(db, t, ch, stored, idx, v, r);
    }
  }

  lemma StopMeans(cfg: Config, db: Db, t: Xid, ch: Change, stored: Tuple) returns (j: nat)
    requires Admissible(cfg, db, t, ch) && !Apply(cfg, db, t, ch).fate.Conflict?
    requires StoredRow(cfg.casts, cfg.types, ch.raw) == Some(stored)
    ensures ch.prior.Some? ==> CanStep(db.s, Stamp(t, ch.prior.value))
    ensures j <= |db.names| && Apply(cfg, db, t, ch).fate == if j == |db.names| then Fine else Refused(db.names[j])
    ensures j == Stop(With(db, t, ch, stored), db.s.aborted, db.s.snaps[t], db.indexes, db.names, ch.raw, stored,
                      ch.rid, ch.prior, cfg.most, cfg.whim, 0)
  {
    j := StopAt(cfg, Stamped(db, t, ch), t, ch, stored, With(db, t, ch, stored));
  }

  /** A row whose old version is free and whose values can be stored is refused by the first index
      that objects; a row that is taken met no objection. */
  lemma RefusedMeans(cfg: Config, db: Db, t: Xid, ch: Change, stored: Tuple, n: string)
    requires DbOk(cfg, db) && Admissible(cfg, db, t, ch) && !Apply(cfg, db, t, ch).fate.Conflict?
    requires StoredRow(cfg.casts, cfg.types, ch.raw) == Some(stored) && n in db.indexes
    ensures Apply(cfg, db, t, ch).fate == Refused(n) ==> Objects(cfg, db, t, ch, stored, db.indexes[n])
    ensures Apply(cfg, db, t, ch).fate.Fine? ==> !Objects(cfg, db, t, ch, stored, db.indexes[n])
    ensures !Skipped(db.names, Apply(cfg, db, t, ch).fate, n) ==> !Objects(cfg, db, t, ch, stored, db.indexes[n])
  {
    var j := StopMeans(cfg, db, t, ch, stored);
    assert IndexFits(cfg, db.s.heap, db.indexes[n]);
    BlocksIsObjects(cfg, db, t, ch, stored, db.indexes[n]);
    var i := PositionOf(db, n);
    PlaceOf(db.names, i);
    if j < |db.names| { PlaceOf(db.names, j); }
    if i > j { NotBefore(db.names, i, j); }
  }

  lemma NotBefore(names: seq<string>, i: nat, j: nat)
    requires j < i < |names| && forall a, b :: 0 <= a < b < |names| ==> names[a] != names[b]
    ensures names[i] !in names[..j] && names[i] != names[j]
  {
  }

  /** Where no index is stale, a change is fine if and only if nobody else has claimed the version
      it replaces, its row can be stored, and no index objects. */
  lemma FineIff(cfg: Config, db: Db, t: Xid, ch: Change)
    requires DbOk(cfg, db) && Admissible(cfg, db, t, ch) && forall n :: n in db.names ==> n in db.indexes
    ensures Apply(cfg, db, t, ch).fate.Fine? <==>
      && Clear(cfg, db, t, ch)
      && forall n :: n in db.indexes ==>
           !Objects(cfg, db, t, ch, StoredRow(cfg.casts, cfg.types, ch.raw).value, db.indexes[n])
  {
    FateMeans(cfg, db, db, t, ch);
    var o := Apply(cfg, db, t, ch);
    if Clear(cfg, db, t, ch) {
      var stored := StoredRow(cfg.casts, cfg.types, ch.raw).value;
      forall n | n in db.indexes
        ensures o.fate.Fine? ==> !Objects(cfg, db, t, ch, stored, db.indexes[n])
        ensures o.fate == Refused(n) ==> Objects(cfg, db, t, ch, stored, db.indexes[n])
      {
        RefusedMeans(cfg, db, t, ch, stored, n);
      }
      if o.fate.Refused? { assert o.fate.index in db.names; }
    }
  }

  /* ---------- new and overlapping transactions ---------- */

  /** A transaction that has just begun sees every committed row, so a statement run on its
      own keeps the column unique. */
  lemma NewTransactionSeesAll(db: Db, ch: Change, stored: Tuple, column: nat)
    requires Inv(db.s) && CanStep(db.s, Begin)
    ensures var m := db.(s := Next(db.s, Begin));
            db.s.next in m.s.snaps && !UnseenClash(m, db.s.next, ch, stored, column)
  {
    BeginSeesCommitted(db.s);
    LiveSame(db.s, Begin);
  }

  const First := RID(0, 0)
  const Second := RID(0, 1)

  /** Transaction 2 began after transaction 1, stored a 7 and committed; 1 still runs. */
  ghost function Overlap(): (db: Db) {
    Db(State(3, {1}, {}, map[1 := Snapshot(1, {}), 2 := Snapshot(2, {1})],
             map[First := Version(2, INFINITY_TXN, [Int(7)])]),
       map["u" := Index(0, INT, true, map[Int(7) := [First]])], ["u"])
  }

  lemma OverlapOk(casts: Casts, whim: Whim)
    ensures DbOk(Config([INT], casts, 4, whim), Overlap())
  {
    var db := Overlap();
    assert db.names[0] == "u";
    assert TypedRow([INT], [Int(7)]);
    assert VersionOk(db.s, db.s.heap[First]);
    assert IndexFits(Config([INT], casts, 4, whim), db.s.heap, db.indexes["u"]);
  }

  /** Transaction 1 can still store a 7 and commit. */
  lemma OverlapDuplicates(casts: Casts, whim: Whim)
    ensures var cfg, db, ch := Config([INT], casts, 4, whim), Overlap(), Change(None, [Int(7)], Second);
            && DbOk(cfg, db) && Admissible(cfg, db, 1, ch) && Apply(cfg, db, 1, ch).fate.Fine?
            && Unique(LiveRows(db.s), 0) && UnseenClash(db, 1, ch, [Int(7)], 0)
  {
    var cfg, db, ch := Config([INT], casts, 4, whim), Overlap(), Change(None, [Int(7)], Second);
    OverlapOk(casts, whim);
    SevenIsStored(casts);
    var heap := db.s.heap[Second := Version(1, INFINITY_TXN, [Int(7)])];
    var idx := db.indexes["u"];
    assert KeyIn(idx, [Int(7)]) == Int(7) && |At(idx, Int(7))| == 1 && SearchKey(Int(7)) == Int(7);
    assert !Blocks(heap, {}, Snapshot(1, {}), idx, [Int(7)], [Int(7)], None, 4);
    assert StopAt(cfg, db, 1, ch, [Int(7)], heap) == 1;
    assert First in LiveRows(db.s) && First !in Seen(db.s, 1) && Some(First) != ch.prior;
    assert ValueAt(db.s.heap[First].row, 0) == ValueAt([Int(7)], 0);
  }

  lemma SevenIsStored(casts: Casts)
    ensures StoredRow(casts, [INT], [Int(7)]) == Some([Int(7)])
  {
    var row: Tuple := [Int(7)];
    CoerceTyped(casts, INT, Int(7));
    CoerceAllAt(casts, [INT], row);
    assert CoerceAll(casts, [INT], row).value == row;
    assert row[1..] == [];
    assert PayloadSize(row) == 8;
  }

  /** Text longer than its key is never looked up under a key that is there, so a unique index
      objects to no such row. */
  lemma LongTextIsNotChecked(heap: Heap, aborted: set<Xid>, snap: Snapshot, idx: Index, raw: Tuple,
                             exclude: Option<RID>)
    requires Sound(heap, idx) && idx.column < |raw| && raw[idx.column].Text? && |raw[idx.column].s| > 8
    ensures !exists r :: r in At(idx, SearchKey(raw[idx.column])) && Holds(heap, aborted, snap, r, exclude)
  {
    forall r ensures r !in At(idx, SearchKey(raw[idx.column])) {
      if r in At(idx, raw[idx.column]) {
        SoundMember(heap, idx, raw[idx.column], r);
        StripShortens(heap[r].row[idx.column]);
      }
    }
  }

  lemma StripShortens(v: Value)
    ensures IndexKey(v).Text? ==> |IndexKey(v).s| <= 8
  {
    if v.Text? { StripLength(if |v.s| > 8 then v.s[..8] else v.s); }
  }

  lemma {:induction false} StripLength(s: string)
    ensures |Strip(s)| <= |s|
  {
    if s != "" && s[|s| - 1] == '\0' { StripLength(s[..|s| - 1]); }
  }
}
