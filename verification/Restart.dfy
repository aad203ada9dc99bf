/** Runs of transactions, checkpoints and crashes over one log file. */
module Restart {
  import opened Sequences
  import opened Bytes
  import opened BTreeEntries
  import opened Mvcc
  import opened MvccProof
  import opened Wal
  import opened Recovery

  /** The two stamps of a row version. */
  datatype Header = Header(xmin: Xid, xmax: Xid)

  /** A running engine: its transaction state and heap, the records it has read or
      written, and every header a page may have carried to disk. A restart leaves the
      bytes of a torn record in the file; `torn` are those bytes, behind the first
      `base` records and before everything appended since. `decodes` is `json.loads`. */
  datatype Store<Row> = Store(db: State<Row>, log: Log, base: nat, torn: seq<Byte>, ever: set<Header>, decodes: Decoder)

  /** A transaction step with the payload of its record, a further operation record
      (an index entry), a checkpoint, or a crash after which `survives` bytes of the log
      and the versions `disk` are left and the engine restarts. */
  datatype Event<Row> =
    | Txn(step: Step<Row>, payload: seq<Byte>)
    | Note(t: Xid, payload: seq<Byte>)
    | Checkpoint
    | Crash(survives: nat, disk: map<RID, Version<Row>>)

  /** The record a step appends. */
  function LogOf<Row>(s: State<Row>, st: Step<Row>, payload: seq<Byte>): (r: Record) {
    match st
    case Begin => Record(BEGIN, s.next, [])
    case InsertRow(t, _, _) => Record(OP, t, payload)
    case Stamp(t, _) => Record(OP, t, payload)
    case Commit(t) => Record(COMMIT, t, [])
    case Abort(t) => Record(ABORT, t, [])
  }

  function Headers<Row>(heap: map<RID, Version<Row>>): (s: set<Header>) {
    set r | r in heap :: Header(heap[r].xmin, heap[r].xmax)
  }

  ghost predicate Begun(log: Log, x: Xid) {
    Logged(log, BEGIN, x)
  }

  ghost predicate StampsLogged(log: Log, h: Header) {
    Begun(log, h.xmin) && (h.xmax != INFINITY_TXN ==> Begun(log, h.xmax))
  }

  /** Every transaction that began before the last checkpoint committed. */
  ghost predicate OldOnesCommitted(log: Log) {
    forall b :: 0 <= b < Tail(log) && log[b].kind == BEGIN ==> Logged(log, COMMIT, log[b].txn)
  }

  /* ---------- the log file ---------- */

  ghost predicate FileOk<Row>(st: Store<Row>) {
    && AllLoggable(st.log) && AllWritten(st.decodes, st.log) && Honest(st.decodes)
    && st.base <= |st.log| && !WholeFrame(st.torn)
    && (st.base < |st.log| ==> st.log[st.base].payload == [])
  }

  ghost function File<Row>(st: Store<Row>): (s: seq<Byte>)
    requires FileOk(st)
  {
    EncodeAll(st.log[..st.base]) + (st.torn + EncodeAll(st.log[st.base..]))
  }

  /** A body as `json.dumps` writes it. */
  ghost predicate Body<Row>(st: Store<Row>, payload: seq<Byte>) {
    |payload| < TWO_32 && (payload == [] || (Printable(payload) && st.decodes(payload)))
  }

  /** What can happen: a crash may keep any part of the file, as long as a restart can
      read it, and any versions that a page ever had. */
  ghost predicate CanHappen<Row>(st: Store<Row>, e: Event<Row>) {
    FileOk(st) &&
    match e
    case Txn(step, payload) => CanStep(st.db, step) && Body(st, payload)
    case Note(t, payload) => t in st.db.active && Body(st, payload)
    case Checkpoint => st.db.active == {}
    case Crash(c, disk) => c <= |File(st)| && Headers(disk) <= st.ever && Parse(st.decodes, File(st)[..c]).Some?
  }

  ghost function After<Row>(st: Store<Row>, e: Event<Row>): (r: Store<Row>)
    requires CanHappen(st, e)
  {
    match e
    case Txn(step, payload) =>
      var db := Next(st.db, step);
      st.(db := db, log := st.log + [LogOf(st.db, step, payload)], ever := st.ever + Headers(db.heap))
    case Note(t, payload) => st.(log := st.log + [Record(OP, t, payload)])
    case Checkpoint => st.(log := st.log + [Record(CHECKPOINT, 0, [])])
    case Crash(c, disk) =>
      var log := Parse(st.decodes, File(st)[..c]).value;
      var db := State(NextId(log), {}, Uncommitted(log), map[], disk);
      Store(db, log, |log|, Residue(File(st)[..c]), Headers(disk), st.decodes)
  }

  /** A restart reads a part of what the engine wrote. */
  ghost predicate Readable<Row>(st: Store<Row>, e: Event<Row>) {
    CanHappen(st, e) && (e.Crash? ==> After(st, e).log <= st.log)
  }

  /** And the log still has the BEGIN of every stamp on disk, and no abort that a
      checkpoint hides. */
  ghost predicate Benign<Row>(st: Store<Row>, e: Event<Row>) {
    && Readable(st, e)
    && (e.Crash? ==>
          && (forall h :: h in Headers(e.disk) ==> StampsLogged(After(st, e).log, h))
          && OldOnesCommitted(After(st, e).log))
  }

  lemma FileCut<Row>(st: Store<Row>, c: nat)
    requires FileOk(st) && st.torn == [] && c <= |File(st)|
    ensures File(st) == EncodeAll(st.log) && Parse(st.decodes, File(st)[..c]) == Some(st.log[..Survivors(st.log, c)])
  {
    var a, b := st.log[..st.base], st.log[st.base..];
    EncodeConcat(a, b);
    assert a + b == st.log;
    assert st.torn + EncodeAll(b) == EncodeAll(b);
    ParseCut(st.decodes, st.log, c);
  }

  /** While no torn bytes are in the file, every crash leaves a readable log: its longest
      whole prefix. */
  lemma CleanIsReadable<Row>(st: Store<Row>, e: Event<Row>)
    requires CanHappen(st, e) && st.torn == []
    ensures Readable(st, e)
    ensures e.Crash? ==> After(st, e).log == st.log[..Survivors(st.log, e.survives)]
  {
    if e.Crash? { FileCut(st, e.survives); }
  }

  /** An undamaged file reads back in full if and only if no torn bytes stand before
      appended records. */
  lemma ReadsAllIff<Row>(st: Store<Row>)
    requires FileOk(st)
    ensures Parse(st.decodes, File(st)) == Some(st.log) <==> st.torn == [] || st.base == |st.log|
  {
    var a, b := st.log[..st.base], st.log[st.base..];
    assert a + b == st.log;
    if b == [] {
      assert st.torn + EncodeAll(b) == st.torn && a == st.log;
      ParseConcat(st.decodes, a, st.torn);
      assert a + [] == a;
    } else {
      AppendKeptIff(st.decodes, a, st.torn, b);
    }
  }

  /** Behind a torn record with a whole header, everything written since the restart is
      lost, commits included, exactly as long as it is shorter than what is missing. */
  lemma TornFileLoses<Row>(st: Store<Row>, kind: Kind)
    requires FileOk(st) && |st.torn| >= HEADER && st.torn[0] == KindByte(kind)
    ensures Parse(st.decodes, File(st)) == Some(st.log[..st.base])
            <==> |EncodeAll(st.log[st.base..])| < HEADER + FromU32(st.torn[5..9]) - |st.torn|
  {
    TornTailHides(st.decodes, st.log[..st.base], st.torn, kind, st.log[st.base..]);
  }

  lemma TornPrefix(torn: seq<Byte>, x: nat)
    requires !WholeFrame(torn) && x <= |torn|
    ensures !WholeFrame(torn[..x])
  {
    if x >= HEADER { assert torn[..x][5..9] == torn[5..9]; }
  }

  /** A cut that keeps nothing of what was appended leaves a prefix of the old records. */
  lemma CutBeforeAppended(d: Decoder, xs: Log, torn: seq<Byte>, more: seq<Byte>, c: nat) returns (k: nat)
    requires AllLoggable(xs) && AllWritten(d, xs) && !WholeFrame(torn) && c <= |EncodeAll(xs)| + |torn|
    ensures k <= |xs| && Parse(d, (EncodeAll(xs) + (torn + more))[..c]) == Some(xs[..k])
  {
    var x := EncodeAll(xs);
    TakeConcat(x, torn + more, c);
    if c <= |x| {
      ParseCut(d, xs, c);
      k := Survivors(xs, c);
    } else {
      TakeConcat(torn, more, c - |x|);
      TornPrefix(torn, c - |x|);
      ParseConcat(d, xs, torn[..c - |x|]);
      assert xs + [] == xs[..|xs|];
      k := |xs|;
    }
  }

  lemma CutAppended(x: seq<Byte>, torn: seq<Byte>, y: seq<Byte>, c: nat)
    requires |x| + |torn| <= c <= |x| + |torn| + |y|
    ensures (x + (torn + y))[..c] == x + (torn + y[..c - |x| - |torn|])
  {
    TakeConcat(x, torn + y, c);
    TakeConcat(torn, y, c - |x|);
  }

  lemma FirstByte(ys: Log)
    requires AllLoggable(ys)
    ensures EncodeAll(ys) == [] || 1 <= EncodeAll(ys)[0] <= 5
  {
  }

  /** A crash of an engine that runs behind a torn record can be followed by a restart if
      and only if it keeps less of the file than would complete that record; the restart
      then reads records from before the tear. Everything else cannot be opened any more. */
  lemma RestartIff<Row>(st: Store<Row>, kind: Kind, c: nat, disk: map<RID, Version<Row>>)
    requires FileOk(st) && TornRecord(st.torn, kind) && c <= |File(st)| && Headers(disk) <= st.ever
    ensures CanHappen(st, Crash(c, disk))
       <==> c < |EncodeAll(st.log[..st.base])| + HEADER + FromU32(st.torn[5..9])
    ensures CanHappen(st, Crash(c, disk)) ==> Readable(st, Crash(c, disk))
  {
    var xs, y := st.log[..st.base], EncodeAll(st.log[st.base..]);
    var x, full := EncodeAll(xs), HEADER + FromU32(st.torn[5..9]);
    if c < |x| + |st.torn| {
      var k := CutBeforeAppended(st.decodes, xs, st.torn, y, c);
      assert xs[..k] == st.log[..k];
    } else {
      CutAppended(x, st.torn, y, c);
      FirstByte(st.log[st.base..]);
      TornRecordBlocks(st.decodes, xs, st.torn, kind, y[..c - |x| - |st.torn|]);
    }
  }

  /* ---------- ids ---------- */

  /** Ids are dense: the log holds the BEGIN of every id handed out. */
  ghost predicate Numbered<Row>(st: Store<Row>) {
    && FileOk(st) && st.db.next == NextId(st.log) <= INFINITY_TXN && Orderly(st.log)
    && (forall t :: t in st.db.active ==> Begun(st.log, t))
    && (st.db.active != {} ==> st.base < |st.log|)
  }

  /** The log tells who is done. */
  ghost predicate LogTells<Row>(s: State<Row>, log: Log) {
    && WellFormed(log)
    && (forall i :: 0 <= i < |log| && log[i].kind == BEGIN ==> log[i].txn < s.next)
    && (forall i :: 0 <= i < |log| && log[i].kind == BEGIN ==> TellsOf(s, log, log[i].txn))
    && (forall t {:trigger RunsInTail(log, t)} :: t in s.active ==> RunsInTail(log, t))
  }

  ghost predicate TellsOf<Row>(s: State<Row>, log: Log, x: Xid) {
    Done(s, x) <==> Logged(log, COMMIT, x)
  }

  /** A running transaction began after the last checkpoint. */
  ghost predicate RunsInTail(log: Log, t: Xid) {
    exists b :: b >= Tail(log) && LoggedAt(log, BEGIN, t, b)
  }

  /** Whoever removed a row for good did so after the row was there for good. */
  ghost predicate InOrder(log: Log, h: Header) {
    h.xmax == INFINITY_TXN || h.xmin == h.xmax ||
    forall j :: LoggedAt(log, COMMIT, h.xmax, j) ==> exists i :: i < j && LoggedAt(log, COMMIT, h.xmin, i)
  }

  ghost predicate HeaderOk<Row>(s: State<Row>, log: Log, h: Header) {
    && StampsLogged(log, h) && InOrder(log, h)
    && (h.xmax in s.active && h.xmin != h.xmax ==> Logged(log, COMMIT, h.xmin))
  }

  ghost predicate Sound<Row>(st: Store<Row>) {
    && Numbered(st) && Inv(st.db) && LogTells(st.db, st.log)
    && Headers(st.db.heap) <= st.ever
    && forall h {:trigger HeaderOk(st.db, st.log, h)} :: h in st.ever ==> HeaderOk(st.db, st.log, h)
  }

  /* ---------- appending ---------- */

  lemma LoggedAppend(log: Log, r: Record, kind: Kind, x: Xid)
    ensures Logged(log + [r], kind, x) <==> Logged(log, kind, x) || (r.kind == kind && r.txn == x)
  {
    if Logged(log, kind, x) {
      var i :| LoggedAt(log, kind, x, i);
      assert LoggedAt(log + [r], kind, x, i);
    }
    if r.kind == kind && r.txn == x {
      assert LoggedAt(log + [r], kind, x, |log|);
    }
    if Logged(log + [r], kind, x) {
      var i :| LoggedAt(log + [r], kind, x, i);
      if i < |log| { assert LoggedAt(log, kind, x, i); }
    }
  }

  lemma TailAppend(log: Log, r: Record)
    ensures Tail(log + [r]) == if r.kind == CHECKPOINT then |log| + 1 else Tail(log)
  {
    assert (log + [r])[..|log|] == log;
  }

  lemma OpenedAppend(log: Log, r: Record, i: nat)
    requires i < |log| && Opened(log, i)
    ensures Opened(log + [r], i)
  {
    var j :| 0 <= j < i && LoggedAt(log, BEGIN, log[i].txn, j) && (forall m :: j < m < i ==> log[m].kind != CHECKPOINT);
    assert LoggedAt(log + [r], BEGIN, (log + [r])[i].txn, j);
  }

  /** What an engine may append: a BEGIN with a new id, a COMMIT of a transaction
      begun since the checkpoint, an operation of one that has not committed. */
  lemma WellFormedAppend(log: Log, r: Record)
    requires WellFormed(log)
    requires r.kind == BEGIN ==> !Begun(log, r.txn)
    requires r.kind == COMMIT ==> RunsInTail(log, r.txn)
    requires r.kind == OP ==> !Logged(log, COMMIT, r.txn)
    ensures WellFormed(log + [r])
  {
    var w := log + [r];
    forall i | 0 <= i < |w| && w[i].kind == COMMIT ensures Opened(w, i) {
      if i < |log| {
        assert Opened(log, i);
        OpenedAppend(log, r, i);
      } else {
        var b :| b >= Tail(log) && LoggedAt(log, BEGIN, r.txn, b);
        assert LoggedAt(w, BEGIN, w[i].txn, b);
      }
    }
    forall i, j | 0 <= i < j < |w| && w[i].kind == BEGIN && w[j].kind == BEGIN ensures w[i].txn != w[j].txn {
      if j == |log| { assert LoggedAt(log, BEGIN, w[i].txn, i); }
    }
    forall i, j | 0 <= i < j < |w| && w[i].kind == COMMIT && w[j].kind == OP ensures w[i].txn != w[j].txn {
      if j == |log| { assert LoggedAt(log, COMMIT, w[i].txn, i); }
    }
  }

  /* ---------- transaction steps ---------- */

  lemma ActiveLogged<Row>(s: State<Row>, log: Log, t: Xid)
    requires Inv(s) && LogTells(s, log) && t in s.active
    ensures Begun(log, t) && !Logged(log, COMMIT, t)
  {
    assert RunsInTail(log, t);
    var b :| b >= Tail(log) && LoggedAt(log, BEGIN, t, b);
    assert log[b].txn == t && TellsOf(s, log, log[b].txn);
  }

  lemma NewIdNotLogged<Row>(s: State<Row>, log: Log)
    requires LogTells(s, log)
    ensures !Begun(log, s.next) && !Logged(log, COMMIT, s.next)
  {
    CommitMeansBegun(log, s.next);
  }

  lemma BegunTells<Row>(s: State<Row>, log: Log, x: Xid)
    requires LogTells(s, log) && Begun(log, x)
    ensures x < s.next && TellsOf(s, log, x)
  {
    var b :| LoggedAt(log, BEGIN, x, b);
    assert log[b].txn == x;
  }

  lemma StepWellFormed<Row>(s: State<Row>, log: Log, step: Step<Row>, payload: seq<Byte>)
    requires Inv(s) && LogTells(s, log) && CanStep(s, step)
    ensures WellFormed(log + [LogOf(s, step, payload)])
  {
    NewIdNotLogged(s, log);
    if !step.Begin? {
      ActiveLogged(s, log, step.t);
      assert RunsInTail(log, step.t);
    }
    WellFormedAppend(log, LogOf(s, step, payload));
  }

  lemma StepTellsOf<Row>(s: State<Row>, log: Log, step: Step<Row>, payload: seq<Byte>, x: Xid)
    requires Inv(s) && LogTells(s, log) && CanStep(s, step)
    requires Begun(log, x) || (step.Begin? && x == s.next)
    ensures TellsOf(Next(s, step), log + [LogOf(s, step, payload)], x)
  {
    LoggedAppend(log, LogOf(s, step, payload), COMMIT, x);
    if Begun(log, x) {
      BegunTells(s, log, x);
    } else {
      NewIdNotLogged(s, log);
    }
  }

  lemma RunsInTailAppend(log: Log, r: Record, t: Xid)
    requires r.kind != CHECKPOINT
    ensures RunsInTail(log, t) || (r.kind == BEGIN && r.txn == t) ==> RunsInTail(log + [r], t)
  {
    TailAppend(log, r);
    if RunsInTail(log, t) {
      var b :| b >= Tail(log) && LoggedAt(log, BEGIN, t, b);
      assert LoggedAt(log + [r], BEGIN, t, b);
    } else if r.kind == BEGIN && r.txn == t {
      assert LoggedAt(log + [r], BEGIN, t, |log|);
    }
  }

  lemma StepLogTells<Row>(s: State<Row>, log: Log, step: Step<Row>, payload: seq<Byte>)
    requires Inv(s) && LogTells(s, log) && CanStep(s, step)
    ensures LogTells(Next(s, step), log + [LogOf(s, step, payload)])
  {
    var w, r := Next(s, step), LogOf(s, step, payload);
    var log' := log + [r];
    StepWellFormed(s, log, step, payload);
    forall i | 0 <= i < |log'| && log'[i].kind == BEGIN ensures log'[i].txn < w.next && TellsOf(w, log', log'[i].txn) {
      if i < |log| {
        assert LoggedAt(log, BEGIN, log[i].txn, i);
        BegunTells(s, log, log[i].txn);
      }
      StepTellsOf(s, log, step, payload, log'[i].txn);
    }
    forall t | t in w.active ensures RunsInTail(log', t) {
      if t in s.active { assert RunsInTail(log, t); }
      RunsInTailAppend(log, r, t);
    }
  }

  lemma InOrderAppend(log: Log, r: Record, h: Header)
    requires InOrder(log, h)
    requires r.kind == COMMIT && r.txn == h.xmax && h.xmin != h.xmax ==> Logged(log, COMMIT, h.xmin)
    ensures InOrder(log + [r], h)
  {
    if h.xmax != INFINITY_TXN && h.xmin != h.xmax {
      forall j | LoggedAt(log + [r], COMMIT, h.xmax, j)
        ensures exists i :: i < j && LoggedAt(log + [r], COMMIT, h.xmin, i)
      {
        if j < |log| {
          assert LoggedAt(log, COMMIT, h.xmax, j);
          var i :| i < j && LoggedAt(log, COMMIT, h.xmin, i);
          assert LoggedAt(log + [r], COMMIT, h.xmin, i);
        } else {
          var i :| LoggedAt(log, COMMIT, h.xmin, i);
          assert LoggedAt(log + [r], COMMIT, h.xmin, i);
        }
      }
    }
  }

  lemma StampsAppend(log: Log, r: Record, h: Header)
    requires StampsLogged(log, h)
    ensures StampsLogged(log + [r], h)
  {
    LoggedAppend(log, r, BEGIN, h.xmin);
    LoggedAppend(log, r, BEGIN, h.xmax);
  }

  lemma OldHeader<Row>(s: State<Row>, log: Log, step: Step<Row>, payload: seq<Byte>, h: Header)
    requires Inv(s) && LogTells(s, log) && CanStep(s, step) && HeaderOk(s, log, h)
    ensures HeaderOk(Next(s, step), log + [LogOf(s, step, payload)], h)
  {
    var r := LogOf(s, step, payload);
    StampsAppend(log, r, h);
    InOrderAppend(log, r, h);
    LoggedAppend(log, r, COMMIT, h.xmin);
    if h.xmax != INFINITY_TXN { BegunTells(s, log, h.xmax); }
  }

  lemma NewHeader<Row>(s: State<Row>, log: Log, step: Step<Row>, payload: seq<Byte>)
    requires Inv(s) && LogTells(s, log) && CanStep(s, step) && (step.InsertRow? || step.Stamp?)
    requires step.Stamp? ==> HeaderOk(s, log, Header(s.heap[step.rid].xmin, s.heap[step.rid].xmax))
    ensures var v := Next(s, step).heap[step.rid];
            HeaderOk(Next(s, step), log + [LogOf(s, step, payload)], Header(v.xmin, v.xmax))
  {
    var r, t := LogOf(s, step, payload), step.t;
    var v := Next(s, step).heap[step.rid];
    var h := Header(v.xmin, v.xmax);
    ActiveLogged(s, log, t);
    assert StampsLogged(log, h);
    StampsAppend(log, r, h);
    LoggedAppend(log, r, COMMIT, t);
    LoggedAppend(log, r, COMMIT, v.xmin);
    assert InOrder(log + [r], h) by {
      if step.Stamp? {
        forall j | LoggedAt(log + [r], COMMIT, t, j) ensures false {
          assert Logged(log + [r], COMMIT, t);
        }
      }
    }
    if step.Stamp? {
      assert SnapOk(s, t);
      StampedRow(s, t, step.rid);
      BegunTells(s, log, v.xmin);
    }
  }

  lemma TxnKeeps<Row>(st: Store<Row>, step: Step<Row>, payload: seq<Byte>)
    requires Sound(st) && CanHappen(st, Txn(step, payload))
    ensures Sound(After(st, Txn(step, payload)))
  {
    var w := After(st, Txn(step, payload));
    NumberedKeeps(st, Txn(step, payload));
    InvNext(st.db, step);
    StepLogTells(st.db, st.log, step, payload);
    forall h | h in w.ever ensures HeaderOk(w.db, w.log, h) {
      if h in st.ever {
        assert HeaderOk(st.db, st.log, h);
        OldHeader(st.db, st.log, step, payload, h);
      } else {
        var r :| r in w.db.heap && h == Header(w.db.heap[r].xmin, w.db.heap[r].xmax);
        HeapHeaders(st, step, r);
        if step.Stamp? { HeapHeader(st, step.rid); }
        NewHeader(st.db, st.log, step, payload);
      }
    }
  }

  lemma HeapHeader<Row>(st: Store<Row>, r: RID)
    requires Sound(st) && r in st.db.heap
    ensures HeaderOk(st.db, st.log, Header(st.db.heap[r].xmin, st.db.heap[r].xmax))
    ensures Header(st.db.heap[r].xmin, st.db.heap[r].xmax) in st.ever
  {
    assert Header(st.db.heap[r].xmin, st.db.heap[r].xmax) in Headers(st.db.heap);
  }

  /** A header not seen before comes from the step's own write. */
  lemma HeapHeaders<Row>(st: Store<Row>, step: Step<Row>, r: RID)
    requires Sound(st) && CanStep(st.db, step) && r in Next(st.db, step).heap
    requires var v := Next(st.db, step).heap[r]; Header(v.xmin, v.xmax) !in st.ever
    ensures (step.InsertRow? || step.Stamp?) && r == step.rid
  {
    if r in st.db.heap { HeapHeader(st, r); }
  }

  /* ---------- records without a step ---------- */

  /** A record that begins and ends no transaction leaves the log telling. */
  lemma QuietLogTells<Row>(s: State<Row>, log: Log, r: Record)
    requires Inv(s) && LogTells(s, log) && r.kind != BEGIN && r.kind != COMMIT
    requires r.kind == OP ==> r.txn in s.active
    requires r.kind == CHECKPOINT ==> s.active == {}
    ensures LogTells(s, log + [r])
  {
    var log' := log + [r];
    if r.kind == OP { ActiveLogged(s, log, r.txn); }
    WellFormedAppend(log, r);
    forall i | 0 <= i < |log'| && log'[i].kind == BEGIN ensures log'[i].txn < s.next && TellsOf(s, log', log'[i].txn) {
      assert LoggedAt(log, BEGIN, log[i].txn, i);
      BegunTells(s, log, log[i].txn);
      LoggedAppend(log, r, COMMIT, log[i].txn);
    }
    forall t | t in s.active ensures RunsInTail(log', t) {
      assert RunsInTail(log, t);
      RunsInTailAppend(log, r, t);
    }
  }

  lemma QuietHeaders<Row>(s: State<Row>, log: Log, r: Record, ever: set<Header>)
    requires r.kind != COMMIT && forall h {:trigger HeaderOk(s, log, h)} :: h in ever ==> HeaderOk(s, log, h)
    ensures forall h {:trigger HeaderOk(s, log + [r], h)} :: h in ever ==> HeaderOk(s, log + [r], h)
  {
    forall h | h in ever ensures HeaderOk(s, log + [r], h) {
      assert HeaderOk(s, log, h);
      StampsAppend(log, r, h);
      InOrderAppend(log, r, h);
      LoggedAppend(log, r, COMMIT, h.xmin);
    }
  }

  lemma NoteKeeps<Row>(st: Store<Row>, t: Xid, payload: seq<Byte>)
    requires Sound(st) && CanHappen(st, Note(t, payload))
    ensures Sound(After(st, Note(t, payload)))
  {
    NumberedKeeps(st, Note(t, payload));
    QuietLogTells(st.db, st.log, Record(OP, t, payload));
    QuietHeaders(st.db, st.log, Record(OP, t, payload), st.ever);
  }

  lemma CheckpointKeeps<Row>(st: Store<Row>)
    requires Sound(st) && st.db.active == {}
    ensures CanHappen(st, Checkpoint) && Sound(After(st, Checkpoint))
  {
    NumberedKeeps(st, Checkpoint);
    QuietLogTells(st.db, st.log, Record(CHECKPOINT, 0, []));
    QuietHeaders(st.db, st.log, Record(CHECKPOINT, 0, []), st.ever);
  }

  /* ---------- crashes ---------- */

  /** After a restart a transaction of the surviving log is done exactly when its
      COMMIT survived. */
  lemma RestartTells(log: Log, x: Xid)
    requires WellFormed(log) && OldOnesCommitted(log) && Begun(log, x)
    ensures x < NextId(log)
    ensures x !in Uncommitted(log) <==> Logged(log, COMMIT, x)
  {
    var b :| LoggedAt(log, BEGIN, x, b);
    assert log[b].txn == x;
    UncommittedIff(log, b);
  }

  lemma InOrderPrefix(log: Log, k: nat, h: Header)
    requires InOrder(log, h) && k <= |log|
    ensures InOrder(log[..k], h)
  {
    if h.xmax != INFINITY_TXN && h.xmin != h.xmax {
      forall j | LoggedAt(log[..k], COMMIT, h.xmax, j)
        ensures exists i :: i < j && LoggedAt(log[..k], COMMIT, h.xmin, i)
      {
        assert LoggedAt(log, COMMIT, h.xmax, j);
        var i :| i < j && LoggedAt(log, COMMIT, h.xmin, i);
        assert LoggedAt(log[..k], COMMIT, h.xmin, i);
      }
    }
  }

  lemma RestartVersion<Row>(s: State<Row>, log: Log, v: Version<Row>)
    requires WellFormed(log) && OldOnesCommitted(log)
    requires s.next == NextId(log) && s.active == {} && s.aborted == Uncommitted(log)
    requires StampsLogged(log, Header(v.xmin, v.xmax)) && InOrder(log, Header(v.xmin, v.xmax))
    ensures VersionOk(s, v)
  {
    RestartTells(log, v.xmin);
    if v.xmax != INFINITY_TXN {
      RestartTells(log, v.xmax);
      if v.xmin != v.xmax && Logged(log, COMMIT, v.xmax) { RemoverKnewWriter(log, Header(v.xmin, v.xmax)); }
    }
  }

  lemma RemoverKnewWriter(log: Log, h: Header)
    requires InOrder(log, h) && h.xmax != INFINITY_TXN && h.xmin != h.xmax && Logged(log, COMMIT, h.xmax)
    ensures Logged(log, COMMIT, h.xmin)
  {
    var j :| LoggedAt(log, COMMIT, h.xmax, j);
    var i :| i < j && LoggedAt(log, COMMIT, h.xmin, i);
  }

  lemma UncommittedBelow(log: Log, x: Xid)
    requires x in Uncommitted(log)
    ensures x < NextId(log)
  {
    var t := Tail(log);
    TxnsOfLogged(log[t..], BEGIN, x);
    TailLogged(log, BEGIN, x);
  }

  lemma CrashLogTells<Row>(s: State<Row>, log: Log)
    requires WellFormed(log) && OldOnesCommitted(log)
    requires s.next == NextId(log) && s.active == {} && s.aborted == Uncommitted(log)
    ensures LogTells(s, log)
  {
    forall i | 0 <= i < |log| && log[i].kind == BEGIN ensures log[i].txn < s.next && TellsOf(s, log, log[i].txn) {
      assert LoggedAt(log, BEGIN, log[i].txn, i);
      RestartTells(log, log[i].txn);
    }
  }

  lemma CrashHeaders<Row>(st: Store<Row>, w: Store<Row>)
    requires forall h {:trigger HeaderOk(st.db, st.log, h)} :: h in st.ever ==> HeaderOk(st.db, st.log, h)
    requires w.ever <= st.ever && w.log <= st.log && w.db.active == {}
    requires forall h :: h in w.ever ==> StampsLogged(w.log, h)
    ensures forall h {:trigger HeaderOk(w.db, w.log, h)} :: h in w.ever ==> HeaderOk(w.db, w.log, h)
  {
    assert w.log == st.log[..|w.log|];
    forall h | h in w.ever ensures HeaderOk(w.db, w.log, h) {
      assert HeaderOk(st.db, st.log, h);
      InOrderPrefix(st.log, |w.log|, h);
    }
  }

  lemma CrashKeeps<Row>(st: Store<Row>, c: nat, disk: map<RID, Version<Row>>)
    requires Sound(st) && Benign(st, Crash(c, disk))
    ensures Sound(After(st, Crash(c, disk)))
  {
    var w := After(st, Crash(c, disk));
    assert w.log == st.log[..|w.log|];
    NumberedKeeps(st, Crash(c, disk));
    WellFormedPrefix(st.log, |w.log|);
    CrashHeaders(st, w);
    CrashLogTells(w.db, w.log);
    CrashInv(w.db, w.log);
  }

  lemma CrashInv<Row>(s: State<Row>, log: Log)
    requires WellFormed(log) && OldOnesCommitted(log)
    requires s.next == NextId(log) <= INFINITY_TXN && s.active == {} && s.aborted == Uncommitted(log)
    requires forall h {:trigger HeaderOk(s, log, h)} :: h in Headers(s.heap) ==> HeaderOk(s, log, h)
    ensures Inv(s)
  {
    forall x | x in s.aborted ensures x < s.next { UncommittedBelow(log, x); }
    forall r | r in s.heap ensures VersionOk(s, s.heap[r]) {
      var h := Header(s.heap[r].xmin, s.heap[r].xmax);
      assert h in Headers(s.heap);
      assert HeaderOk(s, log, h);
      RestartVersion(s, log, s.heap[r]);
    }
  }

  /* ---------- runs ---------- */

  ghost predicate IsRun<Row>(states: seq<Store<Row>>, events: seq<Event<Row>>) {
    && |states| == |events| + 1
    && forall i :: 0 <= i < |events| ==> CanHappen(states[i], events[i]) && states[i + 1] == After(states[i], events[i])
  }

  /** A new database. */
  ghost predicate Fresh<Row>(st: Store<Row>) {
    st == Store(State(1, {}, {}, map[], map[]), [], 0, [], {}, st.decodes) && Honest(st.decodes)
  }

  /** Every event but an unreadable crash keeps ids dense. */
  lemma NumberedKeeps<Row>(st: Store<Row>, e: Event<Row>)
    requires Numbered(st) && Readable(st, e)
    ensures Numbered(After(st, e))
  {
    match e
    case Txn(step, payload) => AppendNumbered(st, LogOf(st.db, step, payload), After(st, e).db);
    case Note(t, payload) => AppendNumbered(st, Record(OP, t, payload), st.db);
    case Checkpoint => AppendNumbered(st, Record(CHECKPOINT, 0, []), st.db);
    case Crash(c, disk) =>
      var w := After(st, e);
      assert w.log == st.log[..|w.log|];
      OrderlyPrefix(st.log, |w.log|);
      NextIdPrefix(st.log, |w.log|);
  }

  lemma NextIdPrefix(log: Log, k: nat)
    requires k <= |log|
    ensures NextId(log[..k]) <= NextId(log)
  {
    if NextId(log[..k]) != 1 {
      var i :| 0 <= i < k && log[..k][i].txn + 1 == NextId(log[..k]);
      assert log[i].txn < NextId(log);
    }
  }

  lemma NextIdAppend(log: Log, r: Record)
    ensures NextId(log + [r]) == if r.txn >= NextId(log) then r.txn + 1 else NextId(log)
  {
    assert (log + [r])[..|log|] == log;
  }

  lemma OrderlyAppend(log: Log, r: Record)
    requires Orderly(log) && r.txn <= NextId(log)
    requires r.txn == NextId(log) ==> r.kind == BEGIN
    requires r.kind == BEGIN ==> r.txn >= 1
    ensures Orderly(log + [r])
  {
    var w := log + [r];
    forall i, y | 0 <= i < |w| && 1 <= y <= w[i].txn ensures BegunBy(w, y, i) {
      if i < |log| {
        assert BegunBy(log, y, i);
        var j :| 0 <= j <= i && LoggedAt(log, BEGIN, y, j);
        assert LoggedAt(w, BEGIN, y, j);
      } else if y == NextId(log) {
        assert LoggedAt(w, BEGIN, y, i);
      } else {
        BegunIffBelow(log, y);
        var j :| LoggedAt(log, BEGIN, y, j);
        assert LoggedAt(w, BEGIN, y, j);
      }
    }
  }

  /** A record of the next id must be its BEGIN; other records belong to begun ids. */
  lemma AppendNumbered<Row>(st: Store<Row>, r: Record, db: State<Row>)
    requires Numbered(st) && Loggable(r) && Written(st.decodes, r)
    requires r.txn <= st.db.next && (r.kind == BEGIN <==> r.txn == st.db.next)
    requires st.base == |st.log| ==> r.payload == []
    requires db.next == (if r.kind == BEGIN then st.db.next + 1 else st.db.next) && db.next <= INFINITY_TXN
    requires db.active <= st.db.active + (if r.kind == BEGIN then {r.txn} else {})
    ensures forall ever :: Numbered(Store(db, st.log + [r], st.base, st.torn, ever, st.decodes))
  {
    OrderlyAppend(st.log, r);
    NextIdAppend(st.log, r);
    forall t | t in db.active ensures Begun(st.log + [r], t) { LoggedAppend(st.log, r, BEGIN, t); }
  }

  /** From a new database, over any readable run: the log has the BEGIN of exactly the
      ids handed out so far. */
  lemma {:induction false} IdsAreDense<Row>(states: seq<Store<Row>>, events: seq<Event<Row>>, n: nat)
    requires IsRun(states, events) && Fresh(states[0]) && n < |states|
    requires forall i :: 0 <= i < |events| ==> Readable(states[i], events[i])
    ensures Numbered(states[n])
    ensures forall x :: x >= 1 ==> (Begun(states[n].log, x) <==> x < states[n].db.next)
    decreases n
  {
    if n > 0 {
      IdsAreDense(states, events, n - 1);
      NumberedKeeps(states[n - 1], events[n - 1]);
    }
    forall x: Xid | x >= 1 ensures Begun(states[n].log, x) <==> x < states[n].db.next {
      BegunIffBelow(states[n].log, x);
    }
  }

  lemma EventKeeps<Row>(st: Store<Row>, e: Event<Row>)
    requires Sound(st) && Benign(st, e)
    ensures Sound(After(st, e))
  {
    match e
    case Txn(step, payload) => TxnKeeps(st, step, payload);
    case Note(t, payload) => NoteKeeps(st, t, payload);
    case Checkpoint => CheckpointKeeps(st);
    case Crash(c, disk) => CrashKeeps(st, c, disk);
  }

  lemma FreshIsSound<Row>(st: Store<Row>)
    requires Fresh(st)
    ensures Sound(st)
  {
  }

  /** From a new database, every state of a run whose crashes are benign is sound. */
  lemma {:induction false} RunsAreSound<Row>(states: seq<Store<Row>>, events: seq<Event<Row>>, n: nat)
    requires IsRun(states, events) && Fresh(states[0]) && n < |states|
    requires forall i :: 0 <= i < |events| ==> Benign(states[i], events[i])
    ensures Sound(states[n])
    decreases n
  {
    if n == 0 {
      FreshIsSound(states[0]);
    } else {
      RunsAreSound(states, events, n - 1);
      EventKeeps(states[n - 1], events[n - 1]);
    }
  }

  lemma LiveAfterCrash<Row>(w: Store<Row>, r: RID)
    requires Sound(w) && w.db.active == {} && r in w.db.heap
    ensures var v := w.db.heap[r];
            && (Live(w.db, v) <==> Logged(w.log, COMMIT, v.xmin) && !Logged(w.log, COMMIT, v.xmax))
            && v.xmin < w.db.next && (v.xmax != INFINITY_TXN ==> v.xmax < w.db.next)
  {
    var v := w.db.heap[r];
    HeapHeader(w, r);
    BegunTells(w.db, w.log, v.xmin);
    NoCommitOfInfinity(w);
    if v.xmax != INFINITY_TXN {
      BegunTells(w.db, w.log, v.xmax);
    }
  }

  lemma NoCommitOfInfinity<Row>(w: Store<Row>)
    requires Sound(w)
    ensures !Logged(w.log, COMMIT, INFINITY_TXN)
  {
    CommitMeansBegun(w.log, INFINITY_TXN);
  }

  /** The rows whose writer's COMMIT is in the log and whose remover's is not. */
  ghost function CommittedRows<Row>(log: Log, heap: map<RID, Version<Row>>): (m: map<RID, Row>) {
    map r | r in heap && Logged(log, COMMIT, heap[r].xmin) && !Logged(log, COMMIT, heap[r].xmax) :: heap[r].row
  }

  lemma LiveIsCommitted<Row>(w: Store<Row>)
    requires Sound(w) && w.db.active == {}
    ensures LiveRows(w.db) == CommittedRows(w.log, w.db.heap)
  {
    forall r | r in w.db.heap
      ensures Live(w.db, w.db.heap[r]) <==>
              Logged(w.log, COMMIT, w.db.heap[r].xmin) && !Logged(w.log, COMMIT, w.db.heap[r].xmax)
    {
      LiveAfterCrash(w, r);
    }
  }

  /** The first transaction after a benign crash sees exactly the rows on disk whose
      writer's COMMIT was read and whose remover's was not. */
  lemma SeenAfterCrash<Row>(st: Store<Row>, c: nat, disk: map<RID, Version<Row>>)
    requires Sound(st) && Benign(st, Crash(c, disk))
    ensures var w := After(st, Crash(c, disk));
            w.db.next < INFINITY_TXN ==>
              && CanStep(w.db, Begin) && w.db.next in Next(w.db, Begin).snaps
              && Seen(Next(w.db, Begin), w.db.next) == CommittedRows(w.log, disk)
  {
    var w := After(st, Crash(c, disk));
    CrashKeeps(st, c, disk);
    if w.db.next < INFINITY_TXN {
      BeginSeesCommitted(w.db);
      LiveIsCommitted(w);
    }
  }

  /* ---------- lost BEGINs ---------- */

  /** An id stamped on disk will be handed out again if and only if its BEGIN did not
      survive. */
  lemma ReissuedIff<Row>(st: Store<Row>, c: nat, disk: map<RID, Version<Row>>, x: Xid)
    requires Sound(st) && Readable(st, Crash(c, disk))
    requires exists r :: r in disk && (disk[r].xmin == x || (disk[r].xmax == x && x != INFINITY_TXN))
    ensures var w := After(st, Crash(c, disk));
            x >= w.db.next <==> !Begun(w.log, x)
  {
    var w := After(st, Crash(c, disk));
    var r :| r in disk && (disk[r].xmin == x || (disk[r].xmax == x && x != INFINITY_TXN));
    var h := Header(disk[r].xmin, disk[r].xmax);
    assert h in Headers(disk);
    assert HeaderOk(st.db, st.log, h);
    var b :| LoggedAt(st.log, BEGIN, x, b);
    assert st.log[b].txn >= 1;
    NumberedKeeps(st, Crash(c, disk));
    BegunIffBelow(w.log, x);
  }

  /** Whoever gets such an id takes the stale row for its own. */
  lemma StaleRowIsSeen<Row>(s: State<Row>, r: RID)
    requires CanStep(s, Begin) && r in s.heap && s.heap[r].xmin == s.next && s.heap[r].xmax == INFINITY_TXN
    requires s.next !in s.aborted
    ensures var w := Next(s, Begin); s.next in w.snaps && r in Seen(w, s.next)
  {
  }

  /** It happens: a page reaches the disk before the log does. The row of transaction 1,
      which never committed, is seen by the next transaction, which is 1 again. */
  lemma LostBeginIsReissued<Row>(st: Store<Row>, r: RID, row: Row)
    requires Fresh(st)
    ensures CanHappen(st, Txn(Begin, []))
    ensures var a := After(st, Txn(Begin, []));
            && CanHappen(a, Txn(InsertRow(1, r, row), []))
            && var b := After(a, Txn(InsertRow(1, r, row), []));
               var crash := Crash(0, map[r := Version(1, INFINITY_TXN, row)]);
               && Readable(b, crash) && !Logged(b.log, COMMIT, 1)
               && var c := After(b, crash).db;
                  c.next == 1 && CanStep(c, Begin) && 1 in Next(c, Begin).snaps && r in Seen(Next(c, Begin), 1)
  {
    var a := After(st, Txn(Begin, []));
    var b := After(a, Txn(InsertRow(1, r, row), []));
    var disk := map[r := Version(1, INFINITY_TXN, row)];
    FreshIsSound(st);
    TxnKeeps(st, Begin, []);
    TxnKeeps(a, InsertRow(1, r, row), []);
    assert b.db.heap == disk;
    assert File(b)[..0] == [];
    assert !WholeFrame([]);
    assert Parse(b.decodes, File(b)[..0]) == Some([]);
    var crash := Crash(0, disk);
    assert CanHappen(b, crash);
    var w := After(b, crash);
    assert w.log == [];
    assert Uncommitted(w.log) == {};
    StaleRowIsSeen(w.db, r);
  }

  /* ---------- torn records ---------- */

  lemma CutInside(log: Log, k: nat, j: nat)
    requires AllLoggable(log) && k < |log| && j < |Encode(log[k])|
    ensures var s, c := EncodeAll(log), |EncodeAll(log[..k])| + j;
            c <= |s| && s[..c] == EncodeAll(log[..k]) + Encode(log[k])[..j]
  {
    var a, b := log[..k], log[k..];
    assert a + b == log && b[0] == log[k];
    EncodeConcat(a, b);
    var x, y := EncodeAll(a), EncodeAll(b);
    assert (x + y)[..|x| + j] == x + y[..j];
    assert y[..j] == Encode(log[k])[..j];
  }

  /** A crash inside record `k` leaves the records before it and the record's first
      bytes, and the restart does not remove those. */
  lemma TearLeaves<Row>(st: Store<Row>, k: nat, j: nat, c: nat, disk: map<RID, Version<Row>>) returns (w: Store<Row>)
    requires FileOk(st) && st.torn == [] && k < |st.log| && j < |Encode(st.log[k])| && Headers(disk) <= st.ever
    requires c == |EncodeAll(st.log[..k])| + j
    ensures CanHappen(st, Crash(c, disk)) && w == After(st, Crash(c, disk))
    ensures w.log == st.log[..k] && w.base == |w.log| && w.torn == Encode(st.log[k])[..j]
    ensures j >= HEADER ==> TornRecord(w.torn, st.log[k].kind)
  {
    TearReads(st, k, j);
    w := CrashReads(st, c, disk, st.log[..k], Encode(st.log[k])[..j]);
    if j >= HEADER { TornIsRecord(st.decodes, st.log[k], j); }
  }

  lemma TearReads<Row>(st: Store<Row>, k: nat, j: nat)
    requires FileOk(st) && st.torn == [] && k < |st.log| && j < |Encode(st.log[k])|
    ensures var c := |EncodeAll(st.log[..k])| + j;
            && c <= |File(st)| && Parse(st.decodes, File(st)[..c]) == Some(st.log[..k])
            && Residue(File(st)[..c]) == Encode(st.log[k])[..j]
  {
    TornFile(st, k, j);
    TornRead(st.decodes, st.log[..k], st.log[k], j);
  }

  lemma CrashReads<Row>(st: Store<Row>, c: nat, disk: map<RID, Version<Row>>, log: Log, torn: seq<Byte>)
    returns (w: Store<Row>)
    requires FileOk(st) && c <= |File(st)| && Headers(disk) <= st.ever
    requires Parse(st.decodes, File(st)[..c]) == Some(log) && Residue(File(st)[..c]) == torn
    ensures CanHappen(st, Crash(c, disk)) && w == After(st, Crash(c, disk))
    ensures w.log == log && w.torn == torn && w.base == |log|
  {
    w := After(st, Crash(c, disk));
  }

  lemma TornFile<Row>(st: Store<Row>, k: nat, j: nat)
    requires FileOk(st) && st.torn == [] && k < |st.log| && j < |Encode(st.log[k])|
    ensures var c := |EncodeAll(st.log[..k])| + j;
            c <= |File(st)| && File(st)[..c] == EncodeAll(st.log[..k]) + Encode(st.log[k])[..j]
  {
    FileCut(st, 0);
    CutInside(st.log, k, j);
  }

  lemma TornIsRecord(d: Decoder, r: Record, j: nat)
    requires Loggable(r) && Written(d, r) && HEADER <= j < |Encode(r)|
    ensures TornRecord(Encode(r)[..j], r.kind)
  {
    var e := Encode(r);
    EncodeParts(r, []);
    assert e + [] == e;
    assert e[..j][5..9] == e[5..9];
    assert e[..j][HEADER..] == r.payload[..j - HEADER];
  }

  lemma TornRead(d: Decoder, xs: Log, r: Record, j: nat)
    requires AllLoggable(xs) && AllWritten(d, xs) && Loggable(r) && j < |Encode(r)|
    ensures var s := EncodeAll(xs) + Encode(r)[..j]; Parse(d, s) == Some(xs) && Residue(s) == Encode(r)[..j]
  {
    var torn := Encode(r)[..j];
    ParseConcat(d, xs, torn);
    ParseTorn(d, r, j);
    assert xs + [] == xs;
    ParseConsumes(d, EncodeAll(xs) + torn);
    Cancel(EncodeAll(xs), torn, Residue(EncodeAll(xs) + torn));
  }

  /** After a restart behind a record that lacks more than 18 bytes, a transaction that
      begins and commits is lost although no byte of the log is: the next restart reads
      exactly what the last one read. */
  lemma CommittedIsLost<Row>(st: Store<Row>, kind: Kind)
    requires Numbered(st) && st.db.active == {} && st.base == |st.log| && st.db.next < INFINITY_TXN
    requires |st.torn| >= HEADER && st.torn[0] == KindByte(kind) && FromU32(st.torn[5..9]) > HEADER + |st.torn|
    ensures var t := st.db.next;
            && CanHappen(st, Txn(Begin, []))
            && var a := After(st, Txn(Begin, []));
               && CanHappen(a, Txn(Commit(t), []))
               && var b := After(a, Txn(Commit(t), []));
                  && FileOk(b) && Logged(b.log, COMMIT, t) && !Logged(st.log, BEGIN, t)
                  && CanHappen(b, Crash(|File(b)|, map[]))
                  && After(b, Crash(|File(b)|, map[])).log == st.log
  {
    var b := BeginAndCommit(st);
    BegunIffBelow(st.log, st.db.next);
    LostBehind(b, kind, Record(BEGIN, st.db.next, []), Record(COMMIT, st.db.next, []));
  }

  lemma BeginAndCommit<Row>(st: Store<Row>) returns (b: Store<Row>)
    requires Numbered(st) && st.db.next < INFINITY_TXN && st.base == |st.log|
    ensures CanHappen(st, Txn(Begin, []))
    ensures var a := After(st, Txn(Begin, []));
            CanHappen(a, Txn(Commit(st.db.next), [])) && b == After(a, Txn(Commit(st.db.next), []))
    ensures var t := st.db.next;
            && FileOk(b) && b.base == st.base && b.torn == st.torn && b.log[..b.base] == st.log
            && b.log[b.base..] == [Record(BEGIN, t, []), Record(COMMIT, t, [])] && Logged(b.log, COMMIT, t)
  {
    var t := st.db.next;
    var a := OneStep(st, Begin);
    b := OneStep(a, Commit(t));
    TwoMore(st.log, Record(BEGIN, t, []), Record(COMMIT, t, []));
  }

  lemma TwoMore(log: Log, x: Record, y: Record)
    ensures var w := log + [x] + [y];
            w[..|log|] == log && w[|log|..] == [x, y] && Logged(w, y.kind, y.txn)
  {
    var w := log + [x] + [y];
    assert LoggedAt(w, y.kind, y.txn, |w| - 1);
  }

  lemma OneStep<Row>(st: Store<Row>, step: Step<Row>) returns (w: Store<Row>)
    requires Numbered(st) && CanStep(st.db, step)
    ensures CanHappen(st, Txn(step, [])) && w == After(st, Txn(step, [])) && Numbered(w)
    ensures w.base == st.base && w.torn == st.torn && w.db == Next(st.db, step)
    ensures w.log == st.log + [LogOf(st.db, step, [])]
  {
    w := After(st, Txn(step, []));
    NumberedKeeps(st, Txn(step, []));
  }

  lemma TwoRecords(x: Record, y: Record)
    requires Loggable(x) && Loggable(y) && x.payload == [] && y.payload == []
    ensures |EncodeAll([x, y])| == 18
  {
    assert [x, y][1..] == [y] && [y][1..] == [];
    assert EncodeAll([y]) == Encode(y) + EncodeAll([]) && EncodeAll([x, y]) == Encode(x) + EncodeAll([y]);
  }

  lemma LostBehind<Row>(b: Store<Row>, kind: Kind, x: Record, y: Record)
    requires FileOk(b) && b.log[b.base..] == [x, y] && x.payload == [] && y.payload == []
    requires |b.torn| >= HEADER && b.torn[0] == KindByte(kind) && FromU32(b.torn[5..9]) > HEADER + |b.torn|
    ensures CanHappen(b, Crash(|File(b)|, map[])) && After(b, Crash(|File(b)|, map[])).log == b.log[..b.base]
  {
    assert Loggable(b.log[b.base..][0]) && Loggable(b.log[b.base..][1]);
    TwoRecords(x, y);
    TornFileLoses(b, kind);
    assert File(b)[..|File(b)|] == File(b);
  }

  /** It takes one byte: a crash that loses only the last byte of an operation record is
      followed by a restart, but once the next BEGIN is in the file no further restart is
      possible that has it. */
  lemma ReopenFails<Row>(st: Store<Row>, disk: map<RID, Version<Row>>)
    requires Numbered(st) && st.torn == [] && st.log != [] && st.log[|st.log| - 1].payload != [] && disk == map[]
    ensures |File(st)| >= 1 && Readable(st, Crash(|File(st)| - 1, disk))
    ensures var a := After(st, Crash(|File(st)| - 1, disk));
            a.db.next < INFINITY_TXN ==>
              && CanHappen(a, Txn(Begin, []))
              && var b := After(a, Txn(Begin, []));
                 FileOk(b) && forall c :: |EncodeAll(st.log)| <= c ==> !CanHappen(b, Crash(c, disk))
  {
    var a := LoseLastByte(st, disk);
    if a.db.next < INFINITY_TXN {
      var b := OneStep(a, Begin);
      OneMore(a.log, LogOf(a.db, Begin, []));
      ReopenBlocked(st, b, st.log[|st.log| - 1], disk);
    }
  }

  lemma OneMore(log: Log, x: Record)
    ensures (log + [x])[..|log|] == log
  {
  }

  lemma LoseLastByte<Row>(st: Store<Row>, disk: map<RID, Version<Row>>) returns (a: Store<Row>)
    requires Numbered(st) && st.torn == [] && st.log != [] && st.log[|st.log| - 1].payload != [] && disk == map[]
    ensures |File(st)| >= 1 && Readable(st, Crash(|File(st)| - 1, disk))
    ensures a == After(st, Crash(|File(st)| - 1, disk)) && Numbered(a)
    ensures var r := st.log[|st.log| - 1];
            && a.base == |a.log| && a.log == st.log[..|st.log| - 1]
            && a.torn == Encode(r)[..|Encode(r)| - 1] && TornRecord(a.torn, r.kind)
  {
    LastByte(st);
    var c := |File(st)| - 1;
    a := TearLeaves(st, |st.log| - 1, |Encode(st.log[|st.log| - 1])| - 1, c, disk);
    CleanIsReadable(st, Crash(c, disk));
    NumberedKeeps(st, Crash(c, disk));
  }

  lemma LastByte<Row>(st: Store<Row>)
    requires FileOk(st) && st.torn == [] && st.log != []
    ensures var n := |st.log| - 1;
            File(st) == EncodeAll(st.log) && |File(st)| == |EncodeAll(st.log[..n])| + |Encode(st.log[n])|
  {
    var n := |st.log| - 1;
    FileCut(st, 0);
    EncodeConcat(st.log[..n], [st.log[n]]);
    assert st.log == st.log[..n] + [st.log[n]];
    assert [st.log[n]][1..] == [] && EncodeAll([st.log[n]]) == Encode(st.log[n]) + EncodeAll([]);
  }

  lemma ReopenBlocked<Row>(st: Store<Row>, b: Store<Row>, r: Record, disk: map<RID, Version<Row>>)
    requires FileOk(st) && st.torn == [] && st.log != [] && r == st.log[|st.log| - 1] && r.payload != []
    requires FileOk(b) && b.torn == Encode(r)[..|Encode(r)| - 1] && b.log[..b.base] == st.log[..|st.log| - 1]
    requires TornRecord(b.torn, r.kind) && disk == map[]
    ensures forall c :: |EncodeAll(st.log)| <= c ==> !CanHappen(b, Crash(c, disk))
  {
    LastByte(st);
    EncodeParts(r, []);
    assert Encode(r) + [] == Encode(r);
    assert b.torn[5..9] == Encode(r)[5..9];
    assert FromU32(b.torn[5..9]) == |r.payload|;
    forall c: nat | |EncodeAll(st.log)| <= c ensures !CanHappen(b, Crash(c, disk)) {
      if c <= |File(b)| { RestartIff(b, r.kind, c, disk); }
    }
  }
}
