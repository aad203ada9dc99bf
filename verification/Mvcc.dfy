/** Snapshot isolation over (xmin, xmax) row headers.

    The concrete side is what the engine stores: version headers, the set of
    active and the set of aborted transaction ids, and one snapshot per running
    transaction. The abstract side knows no headers: it has the committed table,
    a private copy of it per running transaction, and that transaction's own
    inserts and deletes. */
module Mvcc {
  import opened BTreeEntries

  type Xid = nat

  /** xmax of a version nobody deleted. */
  const INFINITY_TXN: Xid := 0xFFFF_FFFF

  datatype Snapshot = Snapshot(xid: Xid, activeXids: set<Xid>) {
    predicate CommittedBefore(other: Xid) {
      other < xid && other !in activeXids
    }
  }

  /** `is_visible`. */
  predicate IsVisible(aborted: set<Xid>, xmin: Xid, xmax: Xid, snap: Snapshot) {
    if xmin in aborted then false
    else if !(xmin == snap.xid || snap.CommittedBefore(xmin)) then false
    else if xmax == INFINITY_TXN || xmax in aborted then true
    else !(xmax == snap.xid || snap.CommittedBefore(xmax))
  }

  /** `check_write_conflict`: true when it does not raise. */
  predicate MayStamp(aborted: set<Xid>, txn: Xid, xmax: Xid) {
    xmax == INFINITY_TXN || xmax == txn || xmax in aborted
  }

  datatype Version<Row> = Version(xmin: Xid, xmax: Xid, row: Row)

  datatype State<Row> = State(
    next: Xid,
    active: set<Xid>,
    aborted: set<Xid>,
    snaps: map<Xid, Snapshot>,
    heap: map<RID, Version<Row>>)

  datatype Step<Row> =
    | Begin
    | InsertRow(t: Xid, rid: RID, row: Row)
    | Stamp(t: Xid, rid: RID)
    | Commit(t: Xid)
    | Abort(t: Xid)

  /** What transaction `t` sees of a heap. */
  ghost function Seen<Row>(s: State<Row>, t: Xid): (m: map<RID, Row>)
    requires t in s.snaps
  {
    map r | r in s.heap && IsVisible(s.aborted, s.heap[r].xmin, s.heap[r].xmax, s.snaps[t]) :: s.heap[r].row
  }

  predicate CanStep<Row>(s: State<Row>, st: Step<Row>) {
    match st
    case Begin => s.next < INFINITY_TXN
    case InsertRow(t, rid, _) => t in s.active && rid !in s.heap
    case Stamp(t, rid) =>
      && t in s.active && t in s.snaps && rid in s.heap
      && IsVisible(s.aborted, s.heap[rid].xmin, s.heap[rid].xmax, s.snaps[t])
      && MayStamp(s.aborted, t, s.heap[rid].xmax)
    case Commit(t) => t in s.active
    case Abort(t) => t in s.active
  }

  function Next<Row>(s: State<Row>, st: Step<Row>): (r: State<Row>)
    requires CanStep(s, st)
  {
    match st
    case Begin =>
      s.(next := s.next + 1, active := s.active + {s.next},
         snaps := s.snaps[s.next := Snapshot(s.next, s.active)])
    case InsertRow(t, rid, row) => s.(heap := s.heap[rid := Version(t, INFINITY_TXN, row)])
    case Stamp(t, rid) => s.(heap := s.heap[rid := s.heap[rid].(xmax := t)])
    case Commit(t) => s.(active := s.active - {t})
    case Abort(t) => s.(active := s.active - {t}, aborted := s.aborted + {t})
  }

  /* ---------- the abstract specification ---------- */

  datatype Spec<Row> = Spec(
    next: Xid,
    committed: map<RID, Row>,
    used: set<RID>,
    copies: map<Xid, Copy<Row>>)

  /** A running transaction: the table as committed when it began, and its writes. */
  datatype Copy<Row> = Copy(base: map<RID, Row>, added: map<RID, Row>, removed: set<RID>) {
    function View(): map<RID, Row> { (base + added) - removed }
  }

  /** A write is refused when the row is not in the private view, when another
      running transaction has removed it, or when somebody removed it for good
      since this transaction began. */
  ghost predicate SpecCan<Row>(a: Spec<Row>, st: Step<Row>) {
    match st
    case Begin => a.next < INFINITY_TXN
    case InsertRow(t, rid, _) => t in a.copies && rid !in a.used
    case Stamp(t, rid) =>
      && t in a.copies && rid in a.copies[t].View()
      && (rid in a.copies[t].added || rid in a.committed)
      && forall u :: u in a.copies && u != t ==> rid !in a.copies[u].removed
    case Commit(t) => t in a.copies
    case Abort(t) => t in a.copies
  }

  ghost function SpecNext<Row>(a: Spec<Row>, st: Step<Row>): (r: Spec<Row>)
    requires SpecCan(a, st)
  {
    match st
    case Begin => a.(next := a.next + 1, copies := a.copies[a.next := Copy(a.committed, map[], {})])
    case InsertRow(t, rid, row) =>
      var c := a.copies[t];
      a.(used := a.used + {rid}, copies := a.copies[t := c.(added := c.added[rid := row])])
    case Stamp(t, rid) =>
      var c := a.copies[t];
      a.(copies := a.copies[t := c.(removed := c.removed + {rid})])
    case Commit(t) =>
      var c := a.copies[t];
      a.(committed := (a.committed + c.added) - c.removed, copies := a.copies - {t})
    case Abort(t) => a.(copies := a.copies - {t})
  }

  /* ---------- the invariant that ties them ---------- */

  ghost predicate Done<Row>(s: State<Row>, x: Xid) {
    x < s.next && x !in s.active && x !in s.aborted
  }

  /** Ids: everything stamped was handed out, running snapshots know each other. */
  ghost predicate IdsOk<Row>(s: State<Row>) {
    && s.next <= INFINITY_TXN
    && s.active !! s.aborted && s.active <= s.snaps.Keys
    && (forall x :: x in s.active || x in s.aborted ==> x < s.next)
    && (forall t {:trigger SnapOk(s, t)} :: t in s.active ==> SnapOk(s, t))
  }

  ghost predicate SnapOk<Row>(s: State<Row>, t: Xid) {
    && t in s.snaps && s.snaps[t].xid == t
    && (forall u :: u in s.active && u < t ==> u in s.snaps[t].activeXids)
  }

  /** A stamp that counts sits on a row its writer was entitled to remove. */
  ghost predicate VersionOk<Row>(s: State<Row>, v: Version<Row>) {
    && v.xmin < s.next
    && (v.xmax == INFINITY_TXN || v.xmax < s.next)
    && (v.xmax != INFINITY_TXN && v.xmax !in s.aborted ==> v.xmin == v.xmax || Done(s, v.xmin))
  }

  ghost predicate Inv<Row>(s: State<Row>) {
    && IdsOk(s)
    && forall r {:trigger VersionOk(s, s.heap[r])} :: r in s.heap ==> VersionOk(s, s.heap[r])
  }

  /** Present in the committed table: written for good, not removed for good. */
  ghost predicate Live<Row>(s: State<Row>, v: Version<Row>) {
    Done(s, v.xmin) && !(v.xmax != INFINITY_TXN && Done(s, v.xmax))
  }

  ghost function LiveRows<Row>(s: State<Row>): (m: map<RID, Row>) {
    map r | r in s.heap && Live(s, s.heap[r]) :: s.heap[r].row
  }

  ghost function AddedBy<Row>(s: State<Row>, t: Xid): (m: map<RID, Row>) {
    map r | r in s.heap && s.heap[r].xmin == t :: s.heap[r].row
  }

  ghost function RemovedBy<Row>(s: State<Row>, t: Xid): (m: set<RID>) {
    set r | r in s.heap && s.heap[r].xmax == t
  }

  ghost predicate Agrees<Row>(s: State<Row>, a: Spec<Row>) {
    && a.next == s.next && a.used == s.heap.Keys && a.copies.Keys == s.active
    && a.committed == LiveRows(s)
    && forall t {:trigger CopyOk(s, a, t)} :: t in s.active ==> CopyOk(s, a, t)
  }

  ghost predicate CopyOk<Row>(s: State<Row>, a: Spec<Row>, t: Xid)
    requires t in a.copies
  {
    && t in s.snaps
    && a.copies[t].added == AddedBy(s, t)
    && a.copies[t].removed == RemovedBy(s, t)
    && a.copies[t].View() == Seen(s, t)
  }
}
