/** The stored headers implement snapshot isolation, step by step and run by run. */
module MvccProof {
  import opened Sequences
  import opened BTreeEntries
  import opened Mvcc

  lemma InvNext<Row>(s: State<Row>, st: Step<Row>)
    requires Inv(s) && CanStep(s, st)
    ensures Inv(Next(s, st))
  {
    var w := Next(s, st);
    forall t | t in w.active ensures SnapOk(w, t) {
      if t in s.active { assert SnapOk(s, t); }
    }
    forall r | r in w.heap ensures VersionOk(w, w.heap[r]) {
      if r in s.heap { assert VersionOk(s, s.heap[r]); }
      if st.Stamp? && r == st.rid { assert SnapOk(s, st.t); StampedRow(s, st.t, r); }
    }
  }

  /** A row a transaction sees was written by itself or by a transaction that is done. */
  lemma StampedRow<Row>(s: State<Row>, t: Xid, r: RID)
    requires Inv(s) && t in s.active && t in s.snaps && r in s.heap
    requires IsVisible(s.aborted, s.heap[r].xmin, s.heap[r].xmax, s.snaps[t])
    ensures s.heap[r].xmin == t || Done(s, s.heap[r].xmin)
  {
    assert SnapOk(s, t) && VersionOk(s, s.heap[r]);
  }

  /** Whether `t` counts a stamp never depends on what others do: their stamps
      are not counted while they run and do not start to count when they end. */
  lemma NotCounted<Row>(s: State<Row>, t: Xid, u: Xid)
    requires Inv(s) && t in s.active && u in s.active && t != u
    ensures t in s.snaps && s.snaps[t].xid == t && !s.snaps[t].CommittedBefore(u)
  {
    assert SnapOk(s, t);
  }

  /** The transaction that acts in a step, if any. */
  ghost predicate ActsAs<Row>(st: Step<Row>, t: Xid) {
    !st.Begin? && st.t == t
  }

  /** No step of another transaction changes what `t` sees. */
  lemma ViewIsStable<Row>(s: State<Row>, st: Step<Row>, t: Xid)
    requires Inv(s) && CanStep(s, st) && t in s.active && !ActsAs(st, t)
    ensures t in s.snaps && t in Next(s, st).snaps && Seen(Next(s, st), t) == Seen(s, t)
  {
    var w := Next(s, st);
    assert SnapOk(s, t);
    if !st.Begin? && st.t in s.active { NotCounted(s, t, st.t); }
    forall r | r in w.heap
      ensures IsVisible(w.aborted, w.heap[r].xmin, w.heap[r].xmax, w.snaps[t]) <==>
              r in s.heap && IsVisible(s.aborted, s.heap[r].xmin, s.heap[r].xmax, s.snaps[t])
    {
      if r in s.heap { assert VersionOk(s, s.heap[r]); }
    }
  }

  /** A new transaction sees exactly the committed table. */
  lemma BeginSeesCommitted<Row>(s: State<Row>)
    requires Inv(s) && CanStep(s, Begin)
    ensures s.next in Next(s, Begin).snaps && Seen(Next(s, Begin), s.next) == LiveRows(s)
  {
    var w := Next(s, Begin);
    forall r | r in s.heap
      ensures IsVisible(w.aborted, w.heap[r].xmin, w.heap[r].xmax, w.snaps[s.next]) <==> Live(s, s.heap[r])
    {
      assert VersionOk(s, s.heap[r]);
    }
  }

  /** The write check refuses exactly what first-committer-wins refuses. */
  lemma StampGuard<Row>(s: State<Row>, a: Spec<Row>, t: Xid, rid: RID)
    requires Inv(s) && Agrees(s, a)
    ensures CanStep(s, Stamp(t, rid)) <==> SpecCan(a, Stamp(t, rid))
  {
    if t in s.active {
      assert CopyOk(s, a, t) && SnapOk(s, t);
      if rid in s.heap {
        var v := s.heap[rid];
        assert VersionOk(s, v);
        if IsVisible(s.aborted, v.xmin, v.xmax, s.snaps[t]) {
          StampedRow(s, t, rid);
          forall u | u in s.active && u != t ensures rid in a.copies[u].removed <==> v.xmax == u {
            assert CopyOk(s, a, u);
          }
        }
      }
    }
  }

  lemma GuardsAgree<Row>(s: State<Row>, a: Spec<Row>, st: Step<Row>)
    requires Inv(s) && Agrees(s, a)
    ensures CanStep(s, st) <==> SpecCan(a, st)
  {
    if st.Stamp? { StampGuard(s, a, st.t, st.rid); }
  }

  /** Only a commit changes the committed table. */
  lemma LiveSame<Row>(s: State<Row>, st: Step<Row>)
    requires Inv(s) && CanStep(s, st) && !st.Commit?
    ensures LiveRows(Next(s, st)) == LiveRows(s)
  {
    var w := Next(s, st);
    forall r | r in w.heap ensures Live(w, w.heap[r]) <==> r in s.heap && Live(s, s.heap[r]) {
      if r in s.heap { assert VersionOk(s, s.heap[r]); }
    }
  }

  lemma LiveCommit<Row>(s: State<Row>, t: Xid)
    requires Inv(s) && t in s.active
    ensures LiveRows(Next(s, Commit(t))) == (LiveRows(s) + AddedBy(s, t)) - RemovedBy(s, t)
  {
    var w := Next(s, Commit(t));
    forall r | r in s.heap
      ensures Live(w, s.heap[r]) <==> (Live(s, s.heap[r]) || s.heap[r].xmin == t) && s.heap[r].xmax != t
    {
      assert VersionOk(s, s.heap[r]);
    }
  }

  lemma LiveNext<Row>(s: State<Row>, a: Spec<Row>, st: Step<Row>)
    requires Inv(s) && Agrees(s, a) && CanStep(s, st) && SpecCan(a, st)
    ensures SpecNext(a, st).committed == LiveRows(Next(s, st))
  {
    if st.Commit? {
      assert CopyOk(s, a, st.t);
      LiveCommit(s, st.t);
    } else {
      LiveSame(s, st);
    }
  }

  lemma OwnAdded<Row>(s: State<Row>, st: Step<Row>)
    requires Inv(s) && CanStep(s, st) && (st.InsertRow? || st.Stamp?)
    ensures AddedBy(Next(s, st), st.t) ==
            if st.InsertRow? then AddedBy(s, st.t)[st.rid := st.row] else AddedBy(s, st.t)
    ensures RemovedBy(Next(s, st), st.t) ==
            if st.InsertRow? then RemovedBy(s, st.t) else RemovedBy(s, st.t) + {st.rid}
  {
    assert st.t < s.next <= INFINITY_TXN;
  }

  /** Adding a new row to a private view, and removing one. */
  lemma CopyView<Row>(c: Copy<Row>, rid: RID, row: Row)
    ensures rid !in c.removed ==> c.(added := c.added[rid := row]).View() == c.View()[rid := row]
    ensures c.(removed := c.removed + {rid}).View() == c.View() - {rid}
  {
  }

  /** The acting transaction's private view follows its own writes. */
  lemma OwnView<Row>(s: State<Row>, a: Spec<Row>, st: Step<Row>)
    requires Inv(s) && Agrees(s, a) && CanStep(s, st) && SpecCan(a, st)
    requires st.InsertRow? || st.Stamp?
    ensures CopyOk(Next(s, st), SpecNext(a, st), st.t)
  {
    assert CopyOk(s, a, st.t);
    OwnAdded(s, st);
    OwnSeen(s, st);
    CopyView(a.copies[st.t], st.rid, if st.InsertRow? then st.row else s.heap[st.rid].row);
  }

  lemma OwnSeen<Row>(s: State<Row>, st: Step<Row>)
    requires Inv(s) && CanStep(s, st) && (st.InsertRow? || st.Stamp?)
    ensures st.t in s.snaps && st.t in Next(s, st).snaps
    ensures Seen(Next(s, st), st.t) ==
            if st.InsertRow? then Seen(s, st.t)[st.rid := st.row] else Seen(s, st.t) - {st.rid}
  {
    var w, t := Next(s, st), st.t;
    assert SnapOk(s, t);
    assert t < s.next;
  }

  lemma OtherWrites<Row>(s: State<Row>, st: Step<Row>, t: Xid)
    requires Inv(s) && CanStep(s, st) && t in s.active && !ActsAs(st, t)
    ensures AddedBy(Next(s, st), t) == AddedBy(s, t)
    ensures RemovedBy(Next(s, st), t) == RemovedBy(s, t)
  {
    assert t < s.next <= INFINITY_TXN;
  }

  lemma OtherCopy<Row>(s: State<Row>, a: Spec<Row>, st: Step<Row>, t: Xid)
    requires Inv(s) && Agrees(s, a) && CanStep(s, st) && SpecCan(a, st)
    requires t in s.active && !ActsAs(st, t)
    ensures CopyOk(Next(s, st), SpecNext(a, st), t)
  {
    assert CopyOk(s, a, t);
    ViewIsStable(s, st, t);
    OtherWrites(s, st, t);
    assert SpecNext(a, st).copies[t] == a.copies[t];
  }

  lemma NewCopy<Row>(s: State<Row>, a: Spec<Row>)
    requires Inv(s) && Agrees(s, a) && CanStep(s, Begin) && SpecCan(a, Begin)
    ensures CopyOk(Next(s, Begin), SpecNext(a, Begin), s.next)
  {
    var w, b, t := Next(s, Begin), SpecNext(a, Begin), s.next;
    BeginSeesCommitted(s);
    forall r | r in s.heap ensures s.heap[r].xmin != t && s.heap[r].xmax != t {
      assert VersionOk(s, s.heap[r]);
    }
    assert AddedBy(w, t) == map[];
    assert RemovedBy(w, t) == {};
    assert b.copies[t].View() == a.committed;
  }

  /** The write check raises exactly when another transaction, running or committed, has
      stamped the version. */
  lemma ConflictIff<Row>(s: State<Row>, t: Xid, v: Version<Row>)
    requires Inv(s) && VersionOk(s, v)
    ensures !MayStamp(s.aborted, t, v.xmax) <==>
      v.xmax != INFINITY_TXN && v.xmax != t && (v.xmax in s.active || Done(s, v.xmax))
  {
  }

  /** One step: both sides allow it or neither does, and they stay in agreement. */
  lemma StepRefines<Row>(s: State<Row>, a: Spec<Row>, st: Step<Row>)
    requires Inv(s) && Agrees(s, a)
    ensures CanStep(s, st) <==> SpecCan(a, st)
    ensures CanStep(s, st) ==> Inv(Next(s, st)) && Agrees(Next(s, st), SpecNext(a, st))
  {
    GuardsAgree(s, a, st);
    if CanStep(s, st) {
      var w, b := Next(s, st), SpecNext(a, st);
      InvNext(s, st);
      LiveNext(s, a, st);
      forall t | t in w.active ensures CopyOk(w, b, t) { CopyNext(s, a, st, t); }
    }
  }

  lemma CopyNext<Row>(s: State<Row>, a: Spec<Row>, st: Step<Row>, t: Xid)
    requires Inv(s) && Agrees(s, a) && CanStep(s, st) && SpecCan(a, st) && t in Next(s, st).active
    ensures CopyOk(Next(s, st), SpecNext(a, st), t)
  {
    if t in s.active && !ActsAs(st, t) {
      OtherCopy(s, a, st, t);
    } else if st.Begin? {
      NewCopy(s, a);
    } else {
      OwnView(s, a, st);
    }
  }

  /* ---------- runs ---------- */

  /** The state after a run, or None when some step is refused. */
  function Exec<Row>(s: State<Row>, steps: seq<Step<Row>>): (r: Option<State<Row>>)
    decreases |steps|
  {
    if steps == [] then Some(s)
    else if CanStep(s, steps[0]) then Exec(Next(s, steps[0]), steps[1..])
    else None
  }

  ghost function SpecExec<Row>(a: Spec<Row>, steps: seq<Step<Row>>): (r: Option<Spec<Row>>)
    decreases |steps|
  {
    if steps == [] then Some(a)
    else if SpecCan(a, steps[0]) then SpecExec(SpecNext(a, steps[0]), steps[1..])
    else None
  }

  /** Over every run the engine accepts and refuses exactly what the
      specification does, and each running transaction sees its private view. */
  lemma {:induction false} RunRefines<Row>(s: State<Row>, a: Spec<Row>, steps: seq<Step<Row>>)
    requires Inv(s) && Agrees(s, a)
    ensures Exec(s, steps).Some? <==> SpecExec(a, steps).Some?
    ensures Exec(s, steps).Some? ==>
              Inv(Exec(s, steps).value) && Agrees(Exec(s, steps).value, SpecExec(a, steps).value)
    decreases |steps|
  {
    if steps != [] {
      StepRefines(s, a, steps[0]);
      if CanStep(s, steps[0]) {
        RunRefines(Next(s, steps[0]), SpecNext(a, steps[0]), steps[1..]);
      }
    }
  }

  /** A manager started on any heap whose stamps it has outgrown, with no
      transaction running, agrees with the specification of its live rows. */
  lemma StartAgrees<Row>(s: State<Row>)
    requires Inv(s) && s.active == {}
    ensures Agrees(s, Spec(s.next, LiveRows(s), s.heap.Keys, map[]))
  {
  }

  /** A transaction that takes no step in a run sees the same table after it. */
  lemma {:induction false} RepeatableRead<Row>(s: State<Row>, steps: seq<Step<Row>>, t: Xid)
    requires Inv(s) && t in s.active && Exec(s, steps).Some?
    requires forall st :: st in steps ==> !ActsAs(st, t)
    ensures t in s.snaps && t in Exec(s, steps).value.snaps
    ensures Seen(Exec(s, steps).value, t) == Seen(s, t)
    decreases |steps|
  {
    if steps == [] {
      assert SnapOk(s, t);
    } else {
      InvNext(s, steps[0]);
      ViewIsStable(s, steps[0], t);
      RepeatableRead(Next(s, steps[0]), steps[1..], t);
    }
  }

  /* ---------- no lost updates ---------- */

  lemma {:induction false} ExecSplit<Row>(s: State<Row>, xs: seq<Step<Row>>, ys: seq<Step<Row>>)
    ensures Exec(s, xs + ys) == match Exec(s, xs) case None => None case Some(m) => Exec(m, ys)
    decreases |xs|
  {
    if xs == [] {
      assert xs + ys == ys;
    } else {
      assert (xs + ys)[0] == xs[0] && (xs + ys)[1..] == xs[1..] + ys;
      if CanStep(s, xs[0]) {
        ExecSplit(Next(s, xs[0]), xs[1..], ys);
      }
    }
  }

  /** Once stamped, a row keeps its stamp and takes no other until the writer aborts. */
  lemma {:induction false} StampStays<Row>(s: State<Row>, steps: seq<Step<Row>>, r: RID, t: Xid)
    requires Inv(s) && Exec(s, steps).Some? && r in s.heap && t < s.next
    requires t in s.aborted || s.heap[r].xmax == t
    ensures var w := Exec(s, steps).value;
            && r in w.heap && t < w.next && Inv(w) && s.aborted <= w.aborted
            && (t in w.aborted || (w.heap[r].xmax == t && forall st :: st in steps && st.Stamp? ==> st.rid != r))
    decreases |steps|
  {
    if steps != [] {
      var st := steps[0];
      if st.Stamp? { assert SnapOk(s, st.t); }
      InvNext(s, st);
      StampStays(Next(s, st), steps[1..], r, t);
      assert steps == [st] + steps[1..];
    }
  }

  /** When a row version is stamped twice in a run, the first writer had aborted:
      every version has at most one writer that commits, and it stamps it once. */
  lemma OneSurvivingStamp<Row>(s: State<Row>, steps: seq<Step<Row>>, i: nat, j: nat)
    requires Inv(s) && Exec(s, steps).Some? && i < j < |steps|
    requires steps[i].Stamp? && steps[j].Stamp? && steps[i].rid == steps[j].rid
    ensures Exec(s, steps[..j + 1]).Some? && steps[i].t in Exec(s, steps[..j + 1]).value.aborted
  {
    assert steps == steps[..j + 1] + steps[j + 1..];
    ExecSplit(s, steps[..j + 1], steps[j + 1..]);
    var xs := steps[..j + 1];
    assert xs == xs[..i] + ([xs[i]] + xs[i + 1..]);
    ExecSplit(s, xs[..i], [xs[i]] + xs[i + 1..]);
    var m := Exec(s, xs[..i]).value;
    ReachableInv(s, xs[..i]);
    assert ([xs[i]] + xs[i + 1..])[1..] == xs[i + 1..];
    InvNext(m, xs[i]);
    assert xs[i + 1..][j - i - 1] == steps[j];
    StampStays(Next(m, xs[i]), xs[i + 1..], steps[i].rid, steps[i].t);
  }

  lemma {:induction false} ReachableInv<Row>(s: State<Row>, steps: seq<Step<Row>>)
    requires Inv(s)
    ensures Exec(s, steps).Some? ==> Inv(Exec(s, steps).value)
    decreases |steps|
  {
    if steps != [] && CanStep(s, steps[0]) {
      InvNext(s, steps[0]);
      ReachableInv(Next(s, steps[0]), steps[1..]);
    }
  }

  /** A committed delete or update is never undone: its stamp is on the row for good. */
  lemma CommittedStampIsFinal<Row>(s: State<Row>, steps: seq<Step<Row>>, i: nat)
    requires Inv(s) && Exec(s, steps).Some? && i < |steps| && steps[i].Stamp?
    requires Done(Exec(s, steps).value, steps[i].t)
    ensures steps[i].rid in Exec(s, steps).value.heap
    ensures Exec(s, steps).value.heap[steps[i].rid].xmax == steps[i].t
  {
    assert steps == steps[..i] + ([steps[i]] + steps[i + 1..]);
    ExecSplit(s, steps[..i], [steps[i]] + steps[i + 1..]);
    var m := Exec(s, steps[..i]).value;
    ReachableInv(s, steps[..i]);
    assert ([steps[i]] + steps[i + 1..])[1..] == steps[i + 1..];
    InvNext(m, steps[i]);
    StampStays(Next(m, steps[i]), steps[i + 1..], steps[i].rid, steps[i].t);
  }
}
