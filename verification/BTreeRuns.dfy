/** Whole-tree results: the leaf chain, how tall a tree can be, and runs of
    inserts and deletes against the reference model. */
module BTreeRuns {
  import opened Sequences
  import opened BTreeEntries
  import opened BTreeShape
  import opened BTreeSteps
  import opened BTreeContents
  import opened BTreeDelete
  import opened BTreeScan
  import opened BTree

  /* ---------- the leaf chain ---------- */

  /** The leaves met by following `next` from `p`. */
  ghost function Chain(v: View, p: PageId): (c: seq<PageId>)
    requires Shape(v) && p in v.marks && v.pages[p].Leaf?
    ensures c != [] && c[0] == p
    decreases LeavesFrom(v, v.marks[p].lo)
  {
    ChainShrinks(v, p);
    [p] + if v.pages[p].next.Some? then Chain(v, v.pages[p].next.value) else []
  }

  /** A leaf that starts after `p` starts does not start before `p` ends. */
  lemma LaterLeaf(v: View, p: PageId, q: PageId)
    requires Shape(v) && p in v.marks && q in v.marks && v.marks[p].level == v.marks[q].level
    requires p != q && !Less(v.marks[q].lo, v.marks[p].lo)
    ensures !Less(v.marks[q].lo, v.marks[p].hi)
  {
    assert DownOk(v, p) && DownOk(v, q);
    if v.marks[q].lo == NegInf {
      SameStart(v, p, q);
    } else if Less(v.marks[q].lo, v.marks[p].hi) {
      OnePagePerKey(v, p, q, Witness(v.marks[q]));
    }
  }

  /** The chain visits exactly the leaves from `p` on, in key order and each once. */
  lemma {:induction false} ChainVisits(v: View, p: PageId)
    requires Shape(v) && p in v.marks && v.pages[p].Leaf?
    ensures forall q :: q in Chain(v, p) <==> q in v.marks && v.pages[q].Leaf? && !Less(v.marks[q].lo, v.marks[p].lo)
    ensures forall i, j :: 0 <= i < j < |Chain(v, p)| ==>
              && Chain(v, p)[i] in v.marks && Chain(v, p)[j] in v.marks
              && Less(v.marks[Chain(v, p)[i]].lo, v.marks[Chain(v, p)[j]].lo)
    decreases LeavesFrom(v, v.marks[p].lo)
  {
    ChainShrinks(v, p);
    assert DownOk(v, p);
    LevelKind(v, p);
    if v.pages[p].next.Some? {
      ChainVisits(v, v.pages[p].next.value);
    }
    forall q ensures q in Chain(v, p) <==> q in v.marks && v.pages[q].Leaf? && !Less(v.marks[q].lo, v.marks[p].lo) {
      if q in v.marks && v.pages[q].Leaf? && q != p && !Less(v.marks[q].lo, v.marks[p].lo) {
        LevelKind(v, q);
        LaterLeaf(v, p, q);
        assert DownOk(v, q);
      }
    }
  }

  /** From the leftmost leaf the chain is the whole leaf level. */
  lemma ChainIsComplete(v: View, first: PageId)
    requires Shape(v) && first in v.marks && v.pages[first].Leaf? && v.marks[first].lo == NegInf
    ensures forall q :: q in Chain(v, first) <==> q in v.marks && v.pages[q].Leaf?
    ensures forall i, j :: 0 <= i < j < |Chain(v, first)| ==> Chain(v, first)[i] != Chain(v, first)[j]
  {
    ChainVisits(v, first);
  }

  /** All entries of one key share a leaf. */
  lemma DuplicatesShareALeaf(v: View, p: PageId, q: PageId, i: nat, j: nat)
    requires Shape(v) && p in v.marks && q in v.marks && v.pages[p].Leaf? && v.pages[q].Leaf?
    requires i < |v.pages[p].entries| && j < |v.pages[q].entries|
    requires v.pages[p].entries[i].key == v.pages[q].entries[j].key
    ensures p == q
  {
    assert DownOk(v, p) && DownOk(v, q);
    OnePagePerKey(v, p, q, v.pages[p].entries[i].key);
  }

  /* ---------- height ---------- */

  function Pow(b: nat, n: nat): (r: nat)
    ensures b >= 1 ==> r >= 1
  {
    if n == 0 then 1 else b * Pow(b, n - 1)
  }

  /** The stored keys in the interval of a mark. */
  ghost function KeysIn(refs: Refs, m: Mark): (s: set<Key>) {
    set k | k in refs && Covers(m, k)
  }

  lemma LeafHasKey(v: View, cap: Capacity, refs: Refs, p: PageId)
    requires Tree(v, cap, refs) && p in v.marks && v.pages[p].Leaf? && p != v.root
    ensures |KeysIn(refs, v.marks[p])| >= 1
  {
    assert DownOk(v, p) && LeafHolds(v, p, refs) && PageFits(v, cap, p);
    var k := v.pages[p].entries[0].key;
    assert Covers(v.marks[p], k);
    assert k in KeysIn(refs, v.marks[p]);
  }

  lemma DisjointCount<T>(a: set<T>, b: set<T>, c: set<T>)
    requires a !! b && a + b <= c
    ensures |c| >= |a| + |b|
  {
    assert |a + b| == |a| + |b|;
    SubsetCount(a + b, c);
  }

  /** The first `j` children of a page together hold `j` times what one must hold. */
  lemma {:induction false} ChildrenCount(v: View, refs: Refs, p: PageId, j: nat, least: nat)
    requires Shape(v) && p in v.marks && v.pages[p].Internal? && 1 <= j <= |v.pages[p].children|
    requires forall i :: 0 <= i < |v.pages[p].children| ==>
               v.pages[p].children[i] in v.marks && |KeysIn(refs, v.marks[v.pages[p].children[i]])| >= least
    ensures v.pages[p].children[j - 1] in v.marks
    ensures |KeysIn(refs, v.marks[p].(hi := v.marks[v.pages[p].children[j - 1]].hi))| >= j * least
    decreases j
  {
    ShapeHasSlot(v, p, j - 1);
    var m, c := v.marks[p], v.marks[v.pages[p].children[j - 1]];
    if j == 1 {
      assert KeysIn(refs, c) == KeysIn(refs, m.(hi := c.hi));
    } else {
      ChildrenCount(v, refs, p, j - 1, least);
      ShapeHasSlot(v, p, j - 2);
      var d := v.marks[v.pages[p].children[j - 2]];
      assert d.hi == c.lo;
      DisjointCount(KeysIn(refs, m.(hi := d.hi)), KeysIn(refs, c), KeysIn(refs, m.(hi := c.hi)));
      assert (j - 1) * least + least == j * least;
    }
  }

  /** Below the root a page of level n covers at least (min + 1)^n stored keys. */
  lemma {:induction false} SubtreeCount(v: View, cap: Capacity, refs: Refs, p: PageId)
    requires Tree(v, cap, refs) && p in v.marks && p != v.root
    ensures |KeysIn(refs, v.marks[p])| >= Pow(cap.MinInner() + 1, v.marks[p].level)
    decreases v.marks[p].level
  {
    LevelKind(v, p);
    if v.pages[p].Leaf? {
      LeafHasKey(v, cap, refs, p);
    } else {
      var n, b := |v.pages[p].children|, cap.MinInner() + 1;
      assert DownOk(v, p) && PageFits(v, cap, p);
      var least := Pow(b, v.marks[p].level - 1);
      EachChildCount(v, cap, refs, p);
      ChildrenCount(v, refs, p, n, least);
      ShapeHasSlot(v, p, n - 1);
      MulMonotone(b, n, least);
    }
  }

  lemma EachChildCount(v: View, cap: Capacity, refs: Refs, p: PageId)
    requires Tree(v, cap, refs) && p in v.marks && v.pages[p].Internal?
    ensures v.marks[p].level > 0
    ensures forall i :: 0 <= i < |v.pages[p].children| ==>
              && v.pages[p].children[i] in v.marks
              && |KeysIn(refs, v.marks[v.pages[p].children[i]])| >= Pow(cap.MinInner() + 1, v.marks[p].level - 1)
    decreases v.marks[p].level, 0
  {
    assert DownOk(v, p);
    forall i | 0 <= i < |v.pages[p].children|
      ensures v.pages[p].children[i] in v.marks
      ensures |KeysIn(refs, v.marks[v.pages[p].children[i]])| >= Pow(cap.MinInner() + 1, v.marks[p].level - 1)
    {
      ShapeHasSlot(v, p, i);
      SubtreeCount(v, cap, refs, v.pages[p].children[i]);
    }
  }

  lemma MulMonotone(a: nat, b: nat, c: nat)
    requires a <= b
    ensures a * c <= b * c
  {
  }

  /** A tree of height h >= 2 holds at least 2 * (min + 1)^(h - 2) different keys. */
  lemma HeightBound(v: View, cap: Capacity, refs: Refs)
    requires Tree(v, cap, refs) && v.marks[v.root].level >= 1
    ensures |refs| >= 2 * Pow(cap.MinInner() + 1, v.marks[v.root].level - 1)
  {
    var p := v.root;
    LevelKind(v, p);
    assert DownOk(v, p) && UpOk(v, p) && PageFits(v, cap, p);
    var n, least := |v.pages[p].children|, Pow(cap.MinInner() + 1, v.marks[p].level - 1);
    EachChildCount(v, cap, refs, p);
    ChildrenCount(v, refs, p, n, least);
    MulMonotone(2, n, least);
    SubsetCount(KeysIn(refs, v.marks[p].(hi := v.marks[v.pages[p].children[n - 1]].hi)), refs.Keys);
  }

  /* ---------- runs ---------- */

  datatype Op =
    | Put(key: Key, rid: RID)
    | Take(key: Key, rid: RID)
    | Find(key: Key)
    | Range(start: Option<Key>, end: Option<Key>)

  datatype Reply = Stored | Refused | Full | Taken | Missing | Found(rids: seq<RID>) | Ranged(entries: seq<Entry>)

  /** The reference model's answer to one operation. */
  ghost predicate Answers(refs: Refs, op: Op, cap: Capacity, unique: bool, r: Reply) {
    match op
    case Put(k, _) =>
      r == if unique && k in refs then Refused else if |Under(refs, k)| == cap.leaf then Full else Stored
    case Take(k, rid) => r == if rid in Under(refs, k) then Taken else Missing
    case Find(k) => r == Found(Under(refs, k))
    case Range(start, end) => r.Ranged? && Scanned(r.entries, refs, start, end, PosInf)
  }

  function RefNext(refs: Refs, op: Op, cap: Capacity, unique: bool): (r: Refs) {
    match op
    case Put(k, rid) => if (unique && k in refs) || |Under(refs, k)| == cap.leaf then refs else Added(refs, k, rid)
    case Take(k, rid) => if rid in Under(refs, k) then Dropped(refs, k, rid) else refs
    case _ => refs
  }

  function RefRun(ops: seq<Op>, cap: Capacity, unique: bool): (r: Refs)
    ensures Tidy(r)
  {
    if ops == [] then map[]
    else RefNext(RefRun(ops[..|ops| - 1], cap, unique), ops[|ops| - 1], cap, unique)
  }

  /** No key has more than half a page of entries, plus one. */
  ghost predicate ShortRuns(refs: Refs, cap: Capacity) {
    forall k :: k in refs ==> |refs[k]| <= cap.leaf - cap.leaf / 2 + 1
  }

  /** A delete that finds its entry and then overflows a page. */
  ghost predicate Jammed(v: View, refs: Refs, op: Op, cap: Capacity) {
    op.Take? && op.rid in Under(refs, op.key) && Jams(v, cap, op.key)
  }

  /** One operation on a tree, answered as the reference model answers it; None when a
      page overflows. */
  method Apply(t: BPlusTree, op: Op) returns (r: Option<Reply>)
    requires t.Valid()
    modifies t
    ensures r.None? <==> Jammed(old(t.V()), old(t.refs), op, t.cap)
    ensures r.None? ==> !ShortRuns(old(t.refs), t.cap)
    ensures r.Some? ==> t.Valid() && Answers(old(t.refs), op, t.cap, t.unique, r.value)
    ensures r.Some? ==> t.refs == RefNext(old(t.refs), op, t.cap, t.unique)
  {
    match op {
      case Put(k, rid) =>
        var o := t.Insert(k, rid);
        r := Some(if o == DuplicateKey then Refused else if o == CannotSplit then Full else Stored);
      case Take(k, rid) =>
        NeverJams(t.V(), t.cap, t.refs, k);
        var o := t.Delete(k, rid);
        r := if o == PageOverflow then None else Some(if o == NotFound then Missing else Taken);
      case Find(k) =>
        var rids := t.Search(k);
        r := Some(Found(rids));
      case Range(start, end) =>
        var entries := t.RangeScan(start, end);
        r := Some(Ranged(entries));
    }
  }

  /** Reply `n` is the model's after the operations before it. */
  ghost predicate AnsweredAt(ops: seq<Op>, cap: Capacity, unique: bool, replies: seq<Reply>, n: nat) {
    n < |replies| && n < |ops| && Answers(RefRun(ops[..n], cap, unique), ops[n], cap, unique, replies[n])
  }

  lemma RunNext(ops: seq<Op>, n: nat, cap: Capacity, unique: bool)
    requires n < |ops|
    ensures RefRun(ops[..n + 1], cap, unique) == RefNext(RefRun(ops[..n], cap, unique), ops[n], cap, unique)
  {
    assert ops[..n + 1][..n] == ops[..n];
  }

  /** Any run from an empty tree answers as the reference model does, to its end or to the
      first delete that overflows a page of the tree reached so far, `last`, which needs a key
      with a long run; at the end the full scan lists the model's contents. */
  method Run(cap: Capacity, unique: bool, ops: seq<Op>)
    returns (replies: seq<Reply>, contents: seq<Entry>, ghost last: View)
    requires cap.Valid()
    ensures |replies| <= |ops| && forall n :: 0 <= n < |replies| ==> AnsweredAt(ops, cap, unique, replies, n)
    ensures Tree(last, cap, RefRun(ops[..|replies|], cap, unique))
    ensures |replies| < |ops| ==> Jammed(last, RefRun(ops[..|replies|], cap, unique), ops[|replies|], cap)
    ensures |replies| < |ops| ==> !ShortRuns(RefRun(ops[..|replies|], cap, unique), cap)
    ensures |replies| == |ops| ==> Scanned(contents, RefRun(ops, cap, unique), None, None, PosInf)
  {
    var t := new BPlusTree(cap, unique);
    replies := [];
    last := t.V();
    for n := 0 to |ops|
      invariant t.Valid() && t.cap == cap && t.unique == unique && fresh(t)
      invariant t.refs == RefRun(ops[..n], cap, unique) && |replies| == n
      invariant forall i :: 0 <= i < n ==> AnsweredAt(ops, cap, unique, replies, i)
    {
      last := t.V();
      var r := Apply(t, ops[n]);
      if r.None? {
        contents := [];
        return;
      }
      RunNext(ops, n, cap, unique);
      ghost var before := replies;
      replies := replies + [r.value];
      forall i | 0 <= i < n + 1 ensures AnsweredAt(ops, cap, unique, replies, i) {
        if i < n { assert AnsweredAt(ops, cap, unique, before, i); }
      }
    }
    assert ops[..|ops|] == ops;
    last := t.V();
    contents := t.RangeScan(None, None);
  }

  lemma NeverJams(v: View, cap: Capacity, refs: Refs, k: Key)
    requires Tree(v, cap, refs)
    ensures ShortRuns(refs, cap) ==> !Jams(v, cap, k)
  {
    if ShortRuns(refs, cap) {
      forall q | q in v.marks ensures !DeleteOverflows(v, cap, q) {
        ShortRunsNeverOverflow(v, cap, refs, q);
      }
    }
  }
}
