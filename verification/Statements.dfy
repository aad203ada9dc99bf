/** What a statement's steps do to the committed table. */
module Statements {
  import opened Sequences
  import opened BTreeEntries
  import opened Mvcc
  import opened MvccProof

  /** A statement of `t` is a series of its inserts and stamps. */
  ghost predicate WritesOf<Row>(steps: seq<Step<Row>>, t: Xid) {
    forall i :: 0 <= i < |steps| ==> (steps[i].InsertRow? || steps[i].Stamp?) && steps[i].t == t
  }

  function InsertedBy<Row>(steps: seq<Step<Row>>): (m: map<RID, Row>) {
    if steps == [] then map[]
    else
      var before, last := InsertedBy(steps[..|steps| - 1]), steps[|steps| - 1];
      if last.InsertRow? then before[last.rid := last.row] else before
  }

  function StampedBy<Row>(steps: seq<Step<Row>>): (s: set<RID>) {
    if steps == [] then {}
    else
      var before, last := StampedBy(steps[..|steps| - 1]), steps[|steps| - 1];
      if last.Stamp? then before + {last.rid} else before
  }

  lemma ExecSnoc<Row>(s: State<Row>, steps: seq<Step<Row>>, st: Step<Row>)
    requires Exec(s, steps).Some? && CanStep(Exec(s, steps).value, st)
    ensures Exec(s, steps + [st]) == Some(Next(Exec(s, steps).value, st))
  {
    ExecSplit(s, steps, [st]);
    assert [st][1..] == [];
  }

  lemma ExecPrefix<Row>(s: State<Row>, steps: seq<Step<Row>>)
    requires steps != [] && Exec(s, steps).Some?
    ensures var n := |steps| - 1;
            && Exec(s, steps[..n]).Some? && CanStep(Exec(s, steps[..n]).value, steps[n])
            && Exec(s, steps) == Some(Next(Exec(s, steps[..n]).value, steps[n]))
  {
    var n := |steps| - 1;
    assert steps == steps[..n] + [steps[n]];
    ExecSplit(s, steps[..n], [steps[n]]);
    assert [steps[n]][1..] == [];
  }

  /** Until it commits, a statement leaves the committed table alone; its writes
      are exactly the ones it made. */
  lemma {:induction false} WritesExactly<Row>(s: State<Row>, steps: seq<Step<Row>>, t: Xid)
    requires Inv(s) && WritesOf(steps, t) && Exec(s, steps).Some?
    ensures var w := Exec(s, steps).value;
            && Inv(w) && LiveRows(w) == LiveRows(s) && w.active == s.active && w.aborted == s.aborted
            && AddedBy(w, t) == AddedBy(s, t) + InsertedBy(steps)
            && RemovedBy(w, t) == RemovedBy(s, t) + StampedBy(steps)
    decreases |steps|
  {
    if steps != [] {
      var n := |steps| - 1;
      ExecPrefix(s, steps);
      WritesExactly(s, steps[..n], t);
      WriteOne(Exec(s, steps[..n]).value, steps[n]);
      if steps[n].InsertRow? {
        PlusUpdate(AddedBy(s, t), InsertedBy(steps[..n]), steps[n].rid, steps[n].row);
      }
    }
  }

  lemma WriteOne<Row>(m: State<Row>, st: Step<Row>)
    requires Inv(m) && CanStep(m, st) && (st.InsertRow? || st.Stamp?)
    ensures var w := Next(m, st);
            && Inv(w) && LiveRows(w) == LiveRows(m) && w.active == m.active && w.aborted == m.aborted
            && AddedBy(w, st.t) == (if st.InsertRow? then AddedBy(m, st.t)[st.rid := st.row] else AddedBy(m, st.t))
            && RemovedBy(w, st.t) == (if st.InsertRow? then RemovedBy(m, st.t) else RemovedBy(m, st.t) + {st.rid})
  {
    InvNext(m, st);
    LiveSame(m, st);
    OwnAdded(m, st);
  }

  /** A transaction that has written nothing yet. */
  ghost predicate Untouched<Row>(s: State<Row>, t: Xid) {
    forall r :: r in s.heap ==> s.heap[r].xmin != t && s.heap[r].xmax != t
  }

  lemma BeginUntouched<Row>(s: State<Row>)
    requires Inv(s) && CanStep(s, Begin)
    ensures Inv(Next(s, Begin)) && Untouched(Next(s, Begin), s.next) && LiveRows(Next(s, Begin)) == LiveRows(s)
  {
    InvNext(s, Begin);
    LiveSame(s, Begin);
    forall r | r in s.heap ensures s.heap[r].xmin != s.next && s.heap[r].xmax != s.next {
      assert VersionOk(s, s.heap[r]);
    }
  }

  /** A statement run in its own transaction is atomic: committed, it adds its
      inserts and takes away what it stamped; aborted, it changes nothing. */
  lemma StatementIsAtomic<Row>(s: State<Row>, steps: seq<Step<Row>>, t: Xid)
    requires Inv(s) && t in s.active && Untouched(s, t) && WritesOf(steps, t) && Exec(s, steps).Some?
    ensures var w := Exec(s, steps).value;
            && CanStep(w, Commit(t)) && CanStep(w, Abort(t))
            && LiveRows(Next(w, Commit(t))) == (LiveRows(s) + InsertedBy(steps)) - StampedBy(steps)
            && LiveRows(Next(w, Abort(t))) == LiveRows(s)
  {
    WritesExactly(s, steps, t);
    var w := Exec(s, steps).value;
    assert AddedBy(s, t) == map[] && RemovedBy(s, t) == {};
    assert AddedBy(w, t) == InsertedBy(steps);
    assert RemovedBy(w, t) == StampedBy(steps);
    LiveCommit(w, t);
    LiveSame(w, Abort(t));
  }

  /** Versions are never removed and keep their writer and their contents. */
  lemma {:induction false} VersionsStay<Row>(s: State<Row>, steps: seq<Step<Row>>, r: RID)
    requires Exec(s, steps).Some? && r in s.heap
    ensures var w := Exec(s, steps).value;
            r in w.heap && w.heap[r].xmin == s.heap[r].xmin && w.heap[r].row == s.heap[r].row
    decreases |steps|
  {
    if steps != [] {
      VersionsStay(Next(s, steps[0]), steps[1..], r);
    }
  }
}
