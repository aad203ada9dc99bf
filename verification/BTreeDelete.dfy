/** One level of a delete: an underfull page takes entries from a sibling, or
    the two become one. */
module BTreeDelete {
  import opened Sequences
  import opened BTreeEntries
  import opened BTreeSplit
  import opened BTreeShape
  import opened BTreeSteps
  import opened BTreeInner
  import opened BTreeContents
  import opened BTreeInsert

  /** The model after a delete. */
  function Dropped(refs: Refs, k: Key, rid: RID): (r: Refs)
    ensures Tidy(refs) ==> Tidy(r)
    ensures forall x :: Under(r, x) == if x == k then RemoveFirst(Under(refs, k), rid) else Under(refs, x)
  {
    SetUnder(refs, k, RemoveFirst(Under(refs, k), rid))
  }

  /** A tree in which page `x` may be short: a leaf by any amount, an internal
      page by one key. */
  ghost predicate Weak(v: View, cap: Capacity, refs: Refs, x: PageId) {
    && cap.Valid() && Shape(v) && Holds(v, refs) && Occupied(v, cap, {x}) && Short(v, cap, x)
  }

  ghost predicate Short(v: View, cap: Capacity, x: PageId) {
    && x in v.marks && x in v.pages
    && match v.pages[x]
       case Leaf(es, _) => |es| <= cap.leaf
       case Internal(_, ks) => |ks| <= cap.inner && |ks| >= (if x == v.root then 0 else cap.MinInner() - 1)
  }

  lemma WeakIsTree(v: View, cap: Capacity, refs: Refs, x: PageId)
    requires Weak(v, cap, refs, x) && PageFits(v, cap, x)
    ensures Tree(v, cap, refs)
  {
    OccupiedAll(v, cap, x);
  }

  /* ---------- removing the entry ---------- */

  lemma RemovedLeaf(v: View, leaf: PageId, t: nat, refs: Refs, cap: Capacity) returns (w: View)
    requires Tree(v, cap, refs) && leaf in v.marks && leaf in v.pages && v.pages[leaf].Leaf?
    requires t < |v.pages[leaf].entries| && IsFirst(v.pages[leaf].entries, v.pages[leaf].entries[t], t)
    ensures var es := v.pages[leaf].entries;
            && w == v.(pages := v.pages[leaf := Leaf(RemoveAt(es, t), v.pages[leaf].next)])
            && Weak(w, cap, Dropped(refs, es[t].key, es[t].rid), leaf)
  {
    var es := v.pages[leaf].entries;
    var rest := RemoveAt(es, t);
    w := WriteLeaf(v, leaf, rest);
    assert DownOk(v, leaf) && LeafHolds(v, leaf, refs) && PageFits(v, cap, leaf);
    RemoveAtCovered(v.marks[leaf], es, t);
    WriteLeafShape(v, leaf, rest);
    var refs' := Dropped(refs, es[t].key, es[t].rid);
    RemovedRids(v.marks[leaf], es, t, refs);
    WriteLeafHolds(v, leaf, rest, refs, es[t].key, refs');
    forall q | q in w.marks && q !in {leaf} ensures PageFits(w, cap, q) {
      assert PageFits(v, cap, q);
    }
  }

  lemma RemoveAtCovered(m: Mark, es: seq<Entry>, t: nat)
    requires Sorted(es) && t < |es| && forall i :: 0 <= i < |es| ==> Covers(m, es[i].key)
    ensures Sorted(RemoveAt(es, t)) && Covers(m, es[t].key)
    ensures forall i :: 0 <= i < |RemoveAt(es, t)| ==> Covers(m, RemoveAt(es, t)[i].key)
  {
    var rest := RemoveAt(es, t);
    RemoveAtSorted(es, t);
    assert forall i :: 0 <= i < |rest| ==> rest[i] == es[if i < t then i else i + 1];
  }

  lemma RemovedRids(m: Mark, es: seq<Entry>, t: nat, refs: Refs)
    requires t < |es| && IsFirst(es, es[t], t) && Covers(m, es[t].key)
    requires forall k :: Covers(m, k) ==> RidsFor(es, k) == Under(refs, k)
    ensures var e := es[t];
            forall x :: RidsFor(RemoveAt(es, t), x) ==
              if x == e.key then Under(Dropped(refs, e.key, e.rid), e.key) else RidsFor(es, x)
  {
    var e := es[t];
    forall x
      ensures RidsFor(RemoveAt(es, t), x) ==
              if x == e.key then Under(Dropped(refs, e.key, e.rid), e.key) else RidsFor(es, x)
    {
      RemoveAtRids(es, t, x);
    }
  }

  /* ---------- leaves ---------- */

  /** Two neighbouring children of `p`, one of which, `x`, may be short. */
  ghost predicate Pair(v: View, cap: Capacity, refs: Refs, p: PageId, i: nat, x: PageId) {
    && Weak(v, cap, refs, x) && p != x && p in v.marks
    && HasSlot(v, p, i) && HasSlot(v, p, i + 1)
    && (x == v.pages[p].children[i] || x == v.pages[p].children[i + 1])
  }

  lemma PairFacts(v: View, cap: Capacity, refs: Refs, p: PageId, i: nat, x: PageId)
    requires Pair(v, cap, refs, p, i, x)
    ensures Adjacent(v, p, i) && PageFits(v, cap, p)
    ensures var a, b := Child(v, p, i), Child(v, p, i + 1);
            && (a != x ==> PageFits(v, cap, a)) && (b != x ==> PageFits(v, cap, b))
            && Short(v, cap, a) && Short(v, cap, b)
  {
    Neighbours(v, p, i);
    var a, b := Child(v, p, i), Child(v, p, i + 1);
    if a != x { assert PageFits(v, cap, a); }
    if b != x { assert PageFits(v, cap, b); }
    assert PageFits(v, cap, p);
  }

  /** The merged leaf takes the place of both; the parent is one key shorter. */
  lemma MergeLeaves(v: View, cap: Capacity, refs: Refs, p: PageId, i: nat, x: PageId) returns (w: View)
    requires Pair(v, cap, refs, p, i, x)
    requires var a, b := v.pages[v.pages[p].children[i]], v.pages[v.pages[p].children[i + 1]];
             a.Leaf? && b.Leaf? && |a.entries| + |b.entries| <= cap.leaf
    ensures var a, b := v.pages[p].children[i], v.pages[p].children[i + 1];
            && Weak(w, cap, refs, p) && w.root == v.root
            && i + 1 < |v.pages[p].children| == |v.pages[p].keys| + 1
            && w.pages == v.pages[a := Leaf(v.pages[a].entries + v.pages[b].entries, v.pages[b].next)]
                                 [p := DropChild(v.pages[p], i)]
            && (forall q :: q in v.marks && v.marks[q].level >= v.marks[p].level ==>
                  q in w.marks && w.marks[q] == v.marks[q])
  {
    PairFacts(v, cap, refs, p, i, x);
    var a, b := Child(v, p, i), Child(v, p, i + 1);
    w := MergeLeaf(v, p, i);
    MergeLeafShape(v, p, i);
    MergeLeafHolds(v, p, i, refs);
    forall q | q in w.marks && q !in {p} ensures PageFits(w, cap, q) {
      if q != a { assert PageFits(v, cap, q); }
    }
  }

  function Reseparate(n: Node, i: nat, sep: Key): (r: Node)
    requires n.Internal? && i < |n.keys|
  {
    Internal(n.children, n.keys[i := sep])
  }

  lemma DropThenInsert(n: Node, i: nat, sep: Key)
    requires n.Internal? && |n.children| == |n.keys| + 1 && i + 1 < |n.children|
    ensures InsertChild(DropChild(n, i), i, sep, n.children[i + 1]) == Reseparate(n, i, sep)
  {
    var d := DropChild(n, i);
    var r := InsertChild(d, i, sep, n.children[i + 1]);
    assert d.children[..i + 1] == n.children[..i + 1] && d.children[i + 1..] == n.children[i + 2..];
    assert d.keys[..i] == n.keys[..i] && d.keys[i..] == n.keys[i + 1..];
    assert r.children == n.children;
    assert r.keys == n.keys[i := sep];
  }

  lemma MergedLeaf(v: View, p: PageId, i: nat, refs: Refs) returns (m: View)
    requires Shape(v) && Holds(v, refs) && CanMergeLeaf(v, p, i)
    ensures var a, b := Child(v, p, i), Child(v, p, i + 1);
            && Shape(m) && Holds(m, refs) && m.root == v.root && a != b && a != p && b != p
            && m.pages == v.pages[a := Leaf(v.pages[a].entries + v.pages[b].entries, v.pages[b].next)]
                                 [p := DropChild(v.pages[p], i)]
            && m.marks.Keys == v.marks.Keys - {b}
            && (forall q :: q in v.marks && q != a && q != b ==> m.marks[q] == v.marks[q])
            && HasSlot(m, p, i) && Child(m, p, i) == a
  {
    Neighbours(v, p, i);
    MergeLeafShape(v, p, i);
    MergeLeafHolds(v, p, i, refs);
    DropChildSlot(v.marks[p], p, v.pages[p], i, i);
    m := MergeLeaf(v, p, i);
  }

  /** A leaf merged and cut again: the structural half. */
  lemma ShiftLeafShape(v: View, p: PageId, i: nat, at: nat, refs: Refs) returns (w: View)
    requires Shape(v) && Holds(v, refs) && CanMergeLeaf(v, p, i)
    requires var es := v.pages[Child(v, p, i)].entries + v.pages[Child(v, p, i + 1)].entries;
             0 < at < |es| && es[at - 1].key < es[at].key
    ensures var a, b := Child(v, p, i), Child(v, p, i + 1);
            var es := v.pages[a].entries + v.pages[b].entries;
            && Shape(w) && Holds(w, refs) && w.root == v.root && w.marks.Keys == v.marks.Keys
            && w.pages == v.pages[a := Leaf(es[..at], Some(b))][b := Leaf(es[at..], v.pages[b].next)]
                                 [p := Reseparate(v.pages[p], i, es[at].key)]
            && (forall q :: q in v.marks && q != a && q != b ==> w.marks[q] == v.marks[q])
  {
    var a, b := Child(v, p, i), Child(v, p, i + 1);
    var es := v.pages[a].entries + v.pages[b].entries;
    var m := MergedLeaf(v, p, i, refs);
    w := SplitLeaf(m, p, i, b, at);
    SplitLeafShape(m, p, i, b, at);
    SplitLeafHolds(m, p, i, b, at, refs);
    DropThenInsert(v.pages[p], i, es[at].key);
  }

  /** Moving the border between two leaves: borrowing and redistribution. */
  lemma ShiftLeaves(v: View, cap: Capacity, refs: Refs, p: PageId, i: nat, x: PageId, at: nat) returns (w: View)
    requires Pair(v, cap, refs, p, i, x)
    requires v.pages[v.pages[p].children[i]].Leaf? && v.pages[v.pages[p].children[i + 1]].Leaf?
    requires var es := v.pages[v.pages[p].children[i]].entries + v.pages[v.pages[p].children[i + 1]].entries;
             0 < at < |es| && es[at - 1].key < es[at].key && at <= cap.leaf && |es| - at <= cap.leaf
    ensures var a, b := v.pages[p].children[i], v.pages[p].children[i + 1];
            var es := v.pages[a].entries + v.pages[b].entries;
            && Weak(w, cap, refs, p) && w.root == v.root
            && i < |v.pages[p].keys|
            && w.pages == v.pages[a := Leaf(es[..at], Some(b))][b := Leaf(es[at..], v.pages[b].next)]
                                 [p := Reseparate(v.pages[p], i, es[at].key)]
            && (forall q :: q in v.marks && v.marks[q].level >= v.marks[p].level ==>
                  q in w.marks && w.marks[q] == v.marks[q])
  {
    PairFacts(v, cap, refs, p, i, x);
    var a, b := Child(v, p, i), Child(v, p, i + 1);
    w := ShiftLeafShape(v, p, i, at, refs);
    forall q | q in w.marks && q !in {p} ensures PageFits(w, cap, q) {
      if q != a && q != b { assert PageFits(v, cap, q); }
    }
  }

  /** Siblings are linked: the left one's `next` is the right one. */
  lemma NextIsRight(v: View, p: PageId, i: nat)
    requires Shape(v) && CanMergeLeaf(v, p, i)
    ensures v.pages[Child(v, p, i)].next == Some(Child(v, p, i + 1))
  {
    Neighbours(v, p, i);
    var a, b := Child(v, p, i), Child(v, p, i + 1);
    assert LinkOk(v, a);
    SameStart(v, v.pages[a].next.value, b);
  }

  /** Keys of neighbouring leaves do not overlap. */
  lemma SiblingsBefore(v: View, p: PageId, i: nat)
    requires Shape(v) && CanMergeLeaf(v, p, i)
    ensures Before(v.pages[Child(v, p, i)].entries, v.pages[Child(v, p, i + 1)].entries)
    ensures Sorted(v.pages[Child(v, p, i)].entries) && Sorted(v.pages[Child(v, p, i + 1)].entries)
    ensures Sorted(v.pages[Child(v, p, i)].entries + v.pages[Child(v, p, i + 1)].entries)
  {
    Neighbours(v, p, i);
    var a, b := Child(v, p, i), Child(v, p, i + 1);
    var xs, ys := v.pages[a].entries, v.pages[b].entries;
    forall x, y | 0 <= x < |xs| && 0 <= y < |ys| ensures xs[x].key < ys[y].key {
      assert Covers(v.marks[a], xs[x].key) && Covers(v.marks[b], ys[y].key);
    }
  }

  /* ---------- internal pages ---------- */

  lemma MergedInner(v: View, p: PageId, i: nat, refs: Refs) returns (m: View)
    requires Shape(v) && Holds(v, refs) && CanMergeInner(v, p, i)
    ensures var a, b := Child(v, p, i), Child(v, p, i + 1);
            && Shape(m) && Holds(m, refs) && m.root == v.root && a != b && a != p && b != p
            && m.pages == v.pages[a := Glue(v.pages[a], v.pages[p].keys[i], v.pages[b])]
                                 [p := DropChild(v.pages[p], i)]
            && m.marks.Keys == v.marks.Keys - {b}
            && (forall q :: q in v.marks && v.marks[q].level >= v.marks[p].level ==>
                  q in m.marks && m.marks[q] == v.marks[q])
            && HasSlot(m, p, i) && Child(m, p, i) == a
  {
    Neighbours(v, p, i);
    MergeInnerShape(v, p, i);
    MergeInnerHolds(v, p, i, refs);
    DropChildSlot(v.marks[p], p, v.pages[p], i, i);
    m := MergeInner(v, p, i);
    var b := Child(v, p, i + 1);
    forall q | q in v.marks && v.marks[q].level >= v.marks[p].level
      ensures q in m.marks && m.marks[q] == v.marks[q]
    {
      assert UpOk(v, q);
      if v.marks[q].parent == b && q != v.root { var j := SlotAt(v, q); }
    }
  }

  lemma MergeInners(v: View, cap: Capacity, refs: Refs, p: PageId, i: nat, x: PageId) returns (w: View)
    requires Pair(v, cap, refs, p, i, x)
    requires var a, b := v.pages[v.pages[p].children[i]], v.pages[v.pages[p].children[i + 1]];
             a.Internal? && b.Internal? && |a.keys| + 1 + |b.keys| <= cap.inner
    ensures var a, b := v.pages[p].children[i], v.pages[p].children[i + 1];
            && Weak(w, cap, refs, p) && w.root == v.root
            && w.pages == v.pages[a := Glue(v.pages[a], v.pages[p].keys[i], v.pages[b])]
                                 [p := DropChild(v.pages[p], i)]
            && (forall q :: q in v.marks && v.marks[q].level >= v.marks[p].level ==>
                  q in w.marks && w.marks[q] == v.marks[q])
  {
    PairFacts(v, cap, refs, p, i, x);
    var a, b := Child(v, p, i), Child(v, p, i + 1);
    w := MergedInner(v, p, i, refs);
    forall q | q in w.marks && q !in {p} ensures PageFits(w, cap, q) {
      if q != a { assert PageFits(v, cap, q); }
    }
  }

  /** Two internal siblings glued and cut again: the structural half. */
  lemma ShiftInnerShape(v: View, p: PageId, i: nat, at: nat, refs: Refs) returns (w: View)
    requires Shape(v) && Holds(v, refs) && CanMergeInner(v, p, i)
    requires at < |v.pages[Child(v, p, i)].keys| + 1 + |v.pages[Child(v, p, i + 1)].keys|
    ensures var a, b := Child(v, p, i), Child(v, p, i + 1);
            var g := Glue(v.pages[a], v.pages[p].keys[i], v.pages[b]);
            && Shape(w) && Holds(w, refs) && w.root == v.root && w.marks.Keys == v.marks.Keys
            && |g.children| == |g.keys| + 1
            && w.pages == v.pages[a := Internal(g.children[..at + 1], g.keys[..at])]
                                 [b := Internal(g.children[at + 1..], g.keys[at + 1..])]
                                 [p := Reseparate(v.pages[p], i, g.keys[at])]
            && (forall q :: q in v.marks && v.marks[q].level >= v.marks[p].level ==> w.marks[q] == v.marks[q])
  {
    var a, b := Child(v, p, i), Child(v, p, i + 1);
    var g := Glue(v.pages[a], v.pages[p].keys[i], v.pages[b]);
    var m := MergedInner(v, p, i, refs);
    assert DownOk(m, a);
    assert CanSplit(m, p, i, b, at);
    w := Split(m, p, i, b, at);
    SplitTree(m, p, i, b, at, refs);
    SplitPages(m, p, i, b, at);
    DropThenInsert(v.pages[p], i, g.keys[at]);
    assert m.marks[p] == v.marks[p];
    forall q | q in v.marks && v.marks[q].level >= v.marks[p].level ensures w.marks[q] == v.marks[q] {
      SplitMarksAbove(m, p, i, b, at, q);
    }
  }

  lemma ShiftInners(v: View, cap: Capacity, refs: Refs, p: PageId, i: nat, x: PageId, at: nat) returns (w: View)
    requires Pair(v, cap, refs, p, i, x)
    requires var a, b := v.pages[v.pages[p].children[i]], v.pages[v.pages[p].children[i + 1]];
             && a.Internal? && b.Internal?
             && cap.MinInner() <= at <= cap.inner && cap.MinInner() <= |a.keys| + |b.keys| - at <= cap.inner
    ensures var a, b := v.pages[p].children[i], v.pages[p].children[i + 1];
            var g := Glue(v.pages[a], v.pages[p].keys[i], v.pages[b]);
            && Weak(w, cap, refs, p) && w.root == v.root && at < |g.keys| == |g.children| - 1
            && w.pages == v.pages[a := Internal(g.children[..at + 1], g.keys[..at])]
                                 [b := Internal(g.children[at + 1..], g.keys[at + 1..])]
                                 [p := Reseparate(v.pages[p], i, g.keys[at])]
            && (forall q :: q in v.marks && v.marks[q].level >= v.marks[p].level ==>
                  q in w.marks && w.marks[q] == v.marks[q])
  {
    PairFacts(v, cap, refs, p, i, x);
    var a, b := Child(v, p, i), Child(v, p, i + 1);
    w := ShiftInnerShape(v, p, i, at, refs);
    forall q | q in w.marks && q !in {p} ensures PageFits(w, cap, q) {
      if q != a && q != b { assert PageFits(v, cap, q); }
    }
  }

  /** Rotating one child from the right sibling is a cut one place further right. */
  lemma RotateFromRight(a: Node, sep: Key, b: Node)
    requires a.Internal? && b.Internal? && |a.children| == |a.keys| + 1 && |b.children| == |b.keys| + 1 && b.keys != []
    ensures var g, at := Glue(a, sep, b), |a.keys| + 1;
            && g.children[..at + 1] == a.children + [b.children[0]] && g.keys[..at] == a.keys + [sep]
            && g.children[at + 1..] == b.children[1..] && g.keys[at + 1..] == b.keys[1..] && g.keys[at] == b.keys[0]
  {
  }

  lemma RotateFromLeft(a: Node, sep: Key, b: Node)
    requires a.Internal? && b.Internal? && |a.children| == |a.keys| + 1 && |b.children| == |b.keys| + 1 && a.keys != []
    ensures var g, at, n := Glue(a, sep, b), |a.keys| - 1, |a.keys|;
            && g.children[..at + 1] == a.children[..n] && g.keys[..at] == a.keys[..n - 1]
            && g.children[at + 1..] == [a.children[n]] + b.children && g.keys[at + 1..] == [sep] + b.keys
            && g.keys[at] == a.keys[n - 1]
  {
  }

  /* ---------- the root ---------- */

  /** A root left without separators hands over to its only child. */
  lemma Shrink(v: View, cap: Capacity, refs: Refs) returns (w: View)
    requires Weak(v, cap, refs, v.root) && v.pages[v.root].Internal? && v.pages[v.root].keys == []
    ensures |v.pages[v.root].children| == 1
    ensures Tree(w, cap, refs) && w.pages == v.pages && w.root == v.pages[v.root].children[0]
  {
    assert DownOk(v, v.root);
    ShapeHasSlot(v, v.root, 0);
    w := ShrinkRoot(v);
    ShrinkRootShape(v);
    ShrinkRootHolds(v, refs);
    forall q | q in w.marks && q !in {} ensures PageFits(w, cap, q) {
      assert PageFits(v, cap, q);
    }
  }

  /* ---------- when a delete cannot rebalance ---------- */

  /** Leaf `i` of `p`, down to `c` entries, has a right sibling whose leading run
      does not fit beside them, more keys follow that run, and the left sibling
      cannot lend. */
  ghost predicate LeafOverflow(pages: map<PageId, Node>, cap: Capacity, p: PageId, i: nat, c: nat) {
    && p in pages && pages[p].Internal? && i + 1 < |pages[p].children|
    && (var b := pages[p].children[i + 1];
        && b in pages && pages[b].Leaf?
        && exists k :: IsLeadingRun(pages[b].entries, k) && k < |pages[b].entries| && c + k > cap.leaf)
    && !(i > 0 && LeftLends(pages, cap, pages[p].children[i - 1], c))
  }

  ghost predicate RightLends(pages: map<PageId, Node>, cap: Capacity, b: PageId, c: nat) {
    && b in pages && pages[b].Leaf?
    && exists k: nat :: IsLeadingRun(pages[b].entries, k) && CanLend(|pages[b].entries|, k, c, cap.leaf)
  }

  ghost predicate LeftLends(pages: map<PageId, Node>, cap: Capacity, a: PageId, c: nat) {
    && a in pages && pages[a].Leaf?
    && exists k: nat :: IsTrailingRun(pages[a].entries, k) && CanLend(|pages[a].entries|, k, c, cap.leaf)
  }

  /** Deleting one entry from `leaf` would need a page that does not exist. */
  ghost predicate DeleteOverflows(v: View, cap: Capacity, leaf: PageId) {
    && leaf in v.marks && leaf in v.pages && leaf != v.root && v.pages[leaf].Leaf?
    && 1 <= |v.pages[leaf].entries| <= cap.MinLeaf()
    && var p := v.marks[leaf].parent;
       && p in v.pages && v.pages[p].Internal? && leaf in v.pages[p].children
       && LeafOverflow(v.pages, cap, p, IndexOf(v.pages[p].children, leaf), |v.pages[leaf].entries| - 1)
  }

  /** It never happens while no key has more than half a page of entries, plus one. */
  lemma ShortRunsNeverOverflow(v: View, cap: Capacity, refs: Refs, leaf: PageId)
    requires Tree(v, cap, refs)
    requires forall k :: k in refs ==> |refs[k]| <= cap.leaf - cap.leaf / 2 + 1
    ensures !DeleteOverflows(v, cap, leaf)
  {
    if DeleteOverflows(v, cap, leaf) {
      var p := v.marks[leaf].parent;
      var i := IndexOf(v.pages[p].children, leaf);
      var c := |v.pages[leaf].entries| - 1;
      assert UpOk(v, leaf) && DownOk(v, p);
      ShapeHasSlot(v, p, i + 1);
      var b := v.pages[p].children[i + 1];
      var es := v.pages[b].entries;
      var k: nat :| IsLeadingRun(es, k) && k < |es| && c + k > cap.leaf;
      assert DownOk(v, b) && LeafHolds(v, b, refs);
      var key := es[0].key;
      assert Covers(v.marks[b], key);
      RunLength(es, k);
    }
  }

  lemma RunLength(es: seq<Entry>, k: nat)
    requires IsLeadingRun(es, k) && k <= |es|
    ensures |RidsFor(es, es[0].key)| >= k
  {
    var a, b := es[..k], es[k..];
    assert es == a + b;
    RidsForConcat(a, b, es[0].key);
    RidsForRun(a, es[0].key);
  }

  /* ---------- what the steps of a fix-up write ---------- */

  /** Leaf `idx` of `p` is short and `p` is in order. */
  ghost predicate ShortLeaf(v: View, cap: Capacity, refs: Refs, p: PageId, idx: nat) {
    && HasSlot(v, p, idx) && v.pages[Child(v, p, idx)].Leaf? && Child(v, p, idx) != p
    && Weak(v, cap, refs, Child(v, p, idx))
    && |v.pages[Child(v, p, idx)].entries| < cap.MinLeaf()
  }

  /** Its sibling is a leaf too. */
  lemma ShortPair(v: View, cap: Capacity, refs: Refs, p: PageId, idx: nat, i: nat)
    requires ShortLeaf(v, cap, refs, p, idx) && (i == idx || i + 1 == idx) && i + 1 < |v.pages[p].children|
    ensures Pair(v, cap, refs, p, i, Child(v, p, idx)) && CanMergeLeaf(v, p, i) && Adjacent(v, p, i)
    ensures Before(v.pages[Child(v, p, i)].entries, v.pages[Child(v, p, i + 1)].entries)
    ensures Sorted(v.pages[Child(v, p, i)].entries) && Sorted(v.pages[Child(v, p, i + 1)].entries)
    ensures Sorted(v.pages[Child(v, p, i)].entries + v.pages[Child(v, p, i + 1)].entries)
    ensures v.pages[Child(v, p, i)].next == Some(Child(v, p, i + 1))
    ensures |v.pages[Child(v, p, i)].entries| <= cap.leaf && |v.pages[Child(v, p, i + 1)].entries| <= cap.leaf
    ensures i != idx ==> v.pages[Child(v, p, i)].entries != []
    ensures i + 1 != idx ==> v.pages[Child(v, p, i + 1)].entries != []
  {
    ShapeHasSlot(v, p, i);
    ShapeHasSlot(v, p, i + 1);
    LevelKind(v, Child(v, p, i));
    LevelKind(v, Child(v, p, i + 1));
    Neighbours(v, p, i);
    NextIsRight(v, p, i);
    SiblingsBefore(v, p, i);
    PairFacts(v, cap, refs, p, i, Child(v, p, idx));
  }

  /** Borrowing `k` entries from the right is moving the border right by `k`. */
  lemma BorrowRightCut(es: seq<Entry>, rs: seq<Entry>, k: nat)
    requires Sorted(rs) && IsLeadingRun(rs, k) && k < |rs|
    ensures var at := |es| + k;
            && (es + rs)[..at] == es + rs[..k] && (es + rs)[at..] == rs[k..]
            && (es + rs)[at - 1].key < (es + rs)[at].key && (es + rs)[at] == rs[k]
  {
    assert (es + rs)[|es| + k] == rs[k] && (es + rs)[|es| + k - 1] == rs[k - 1];
  }

  lemma BorrowLeftCut(ls: seq<Entry>, es: seq<Entry>, k: nat)
    requires Sorted(ls) && IsTrailingRun(ls, k) && k < |ls|
    ensures var at := |ls| - k;
            && (ls + es)[..at] == ls[..at] && (ls + es)[at..] == ls[at..] + es
            && (ls + es)[at - 1].key < (ls + es)[at].key && (ls + es)[at] == (ls[at..] + es)[0]
  {
    var at := |ls| - k;
    assert (ls + es)[at] == ls[at] && (ls + es)[at - 1] == ls[at - 1];
  }

  /** The run is unique, so one count decides whether a sibling lends. */
  lemma RightLendsIff(pages: map<PageId, Node>, cap: Capacity, b: PageId, c: nat, k: nat)
    requires b in pages && pages[b].Leaf? && IsLeadingRun(pages[b].entries, k)
    ensures RightLends(pages, cap, b, c) <==> CanLend(|pages[b].entries|, k, c, cap.leaf)
    ensures (exists l :: IsLeadingRun(pages[b].entries, l) && l < |pages[b].entries| && c + l > cap.leaf)
            <==> k < |pages[b].entries| && c + k > cap.leaf
  {
    assert forall l :: IsLeadingRun(pages[b].entries, l) ==> l == k;
  }

  lemma LeftLendsIff(pages: map<PageId, Node>, cap: Capacity, a: PageId, c: nat, k: nat)
    requires a in pages && pages[a].Leaf? && IsTrailingRun(pages[a].entries, k)
    ensures LeftLends(pages, cap, a, c) <==> CanLend(|pages[a].entries|, k, c, cap.leaf)
  {
    assert forall l :: IsTrailingRun(pages[a].entries, l) ==> l == k;
  }

  lemma BorrowRightStep(v: View, cap: Capacity, refs: Refs, p: PageId, idx: nat, k: nat, path: seq<PageId>)
    returns (w: View)
    requires ShortLeaf(v, cap, refs, p, idx) && idx + 1 < |v.pages[p].children| && Ancestors(v, path, p)
    requires v.pages[p].children[idx + 1] in v.pages && v.pages[v.pages[p].children[idx + 1]].Leaf?
    requires var rs := v.pages[v.pages[p].children[idx + 1]].entries;
             IsLeadingRun(rs, k) && CanLend(|rs|, k, |v.pages[Child(v, p, idx)].entries|, cap.leaf)
    ensures var a, b := v.pages[p].children[idx], v.pages[p].children[idx + 1];
            var n, r := v.pages[a], v.pages[b];
            && |v.pages[p].keys| == |v.pages[p].children| - 1
            && w.root == v.root && Weak(w, cap, refs, p) && Ancestors(w, path, p)
            && w.pages == v.pages[b := Leaf(r.entries[k..], r.next)][a := Leaf(n.entries + r.entries[..k], n.next)]
                                 [p := Internal(v.pages[p].children, v.pages[p].keys[idx := r.entries[k].key])]
  {
    ShortPair(v, cap, refs, p, idx, idx);
    var a, b := Child(v, p, idx), Child(v, p, idx + 1);
    BorrowRightCut(v.pages[a].entries, v.pages[b].entries, k);
    w := ShiftLeaves(v, cap, refs, p, idx, a, |v.pages[a].entries| + k);
    AncestorsFrame(v, w, path, p);
  }

  lemma BorrowLeftStep(v: View, cap: Capacity, refs: Refs, p: PageId, idx: nat, k: nat, path: seq<PageId>)
    returns (w: View)
    requires ShortLeaf(v, cap, refs, p, idx) && 0 < idx && Ancestors(v, path, p)
    requires v.pages[p].children[idx - 1] in v.pages && v.pages[v.pages[p].children[idx - 1]].Leaf?
    requires var ls := v.pages[v.pages[p].children[idx - 1]].entries;
             IsTrailingRun(ls, k) && CanLend(|ls|, k, |v.pages[Child(v, p, idx)].entries|, cap.leaf)
    ensures var a, b := v.pages[p].children[idx - 1], v.pages[p].children[idx];
            var l, n := v.pages[a], v.pages[b];
            var at := |l.entries| - k;
            && |v.pages[p].keys| == |v.pages[p].children| - 1
            && w.root == v.root && Weak(w, cap, refs, p) && Ancestors(w, path, p)
            && w.pages == v.pages[a := Leaf(l.entries[..at], l.next)][b := Leaf(l.entries[at..] + n.entries, n.next)]
                                 [p := Internal(v.pages[p].children,
                                                v.pages[p].keys[idx - 1 := (l.entries[at..] + n.entries)[0].key])]
  {
    ShortPair(v, cap, refs, p, idx, idx - 1);
    var a, b := Child(v, p, idx - 1), Child(v, p, idx);
    BorrowLeftCut(v.pages[a].entries, v.pages[b].entries, k);
    w := ShiftLeaves(v, cap, refs, p, idx - 1, b, |v.pages[a].entries| - k);
    AncestorsFrame(v, w, path, p);
  }

  /** Merging leaf `i` with leaf `i + 1`, one of which is the short leaf `idx`. */
  lemma CombineStep(v: View, cap: Capacity, refs: Refs, p: PageId, idx: nat, i: nat, path: seq<PageId>)
    returns (w: View)
    requires ShortLeaf(v, cap, refs, p, idx) && (i == idx || i + 1 == idx) && i + 1 < |v.pages[p].children|
    requires Ancestors(v, path, p)
    requires var a, b := v.pages[p].children[i], v.pages[p].children[i + 1];
             && a in v.pages && b in v.pages && v.pages[a].Leaf? && v.pages[b].Leaf?
             && |v.pages[a].entries + v.pages[b].entries| <= cap.leaf
    ensures var a, b := v.pages[p].children[i], v.pages[p].children[i + 1];
            && |v.pages[p].keys| == |v.pages[p].children| - 1
            && w.root == v.root && Weak(w, cap, refs, p) && Ancestors(w, path, p)
            && w.pages == v.pages[a := Leaf(v.pages[a].entries + v.pages[b].entries, v.pages[b].next)]
                                 [p := DropChild(v.pages[p], i)]
  {
    ShortPair(v, cap, refs, p, idx, i);
    w := MergeLeaves(v, cap, refs, p, i, Child(v, p, idx));
    AncestorsFrame(v, w, path, p);
  }

  /** Redistributing leaf `i` and leaf `i + 1` at a split point that fits. */
  lemma RedistributeStep(v: View, cap: Capacity, refs: Refs, p: PageId, idx: nat, i: nat, at: nat, path: seq<PageId>)
    returns (w: View)
    requires ShortLeaf(v, cap, refs, p, idx) && (i == idx || i + 1 == idx) && i + 1 < |v.pages[p].children|
    requires Ancestors(v, path, p)
    requires var a, b := v.pages[p].children[i], v.pages[p].children[i + 1];
             && a in v.pages && b in v.pages && v.pages[a].Leaf? && v.pages[b].Leaf?
             && var es := v.pages[a].entries + v.pages[b].entries;
                IsSplitPoint(es, at) && at <= cap.leaf && |es| - at <= cap.leaf
    ensures var a, b := v.pages[p].children[i], v.pages[p].children[i + 1];
            var es := v.pages[a].entries + v.pages[b].entries;
            && |v.pages[p].keys| == |v.pages[p].children| - 1
            && w.root == v.root && Weak(w, cap, refs, p) && Ancestors(w, path, p)
            && w.pages == v.pages[a := Leaf(es[..at], Some(b))][b := Leaf(es[at..], v.pages[b].next)]
                                 [p := Internal(v.pages[p].children, v.pages[p].keys[i := es[at].key])]
  {
    ShortPair(v, cap, refs, p, idx, i);
    w := ShiftLeaves(v, cap, refs, p, i, Child(v, p, idx), at);
    AncestorsFrame(v, w, path, p);
  }

  /** A short leaf has a sibling. */
  lemma ShortParent(v: View, cap: Capacity, refs: Refs, p: PageId, idx: nat)
    requires ShortLeaf(v, cap, refs, p, idx)
    ensures |v.pages[p].children| >= 2
    ensures idx + 1 < |v.pages[p].children| ==>
              forall c: nat :: RightLends(v.pages, cap, v.pages[p].children[idx + 1], c) ==>
                !LeafOverflow(v.pages, cap, p, idx, c)
  {
    assert PageFits(v, cap, p);
    if idx + 1 < |v.pages[p].children| {
      var b := v.pages[p].children[idx + 1];
      forall c: nat | RightLends(v.pages, cap, b, c) ensures !LeafOverflow(v.pages, cap, p, idx, c) {
        var k: nat :| IsLeadingRun(v.pages[b].entries, k) && CanLend(|v.pages[b].entries|, k, c, cap.leaf);
        RightLendsIff(v.pages, cap, b, c, k);
      }
    }
  }

  function LeadingRunLength(es: seq<Entry>): (k: nat)
    ensures IsLeadingRun(es, k)
  {
    if |es| <= 1 || es[1].key != es[0].key then 1 else 1 + LeadingRunLength(es[1..])
  }

  /** Internal child `idx` of `p` is one key short and `p` is in order. */
  ghost predicate ShortInner(v: View, cap: Capacity, refs: Refs, p: PageId, idx: nat) {
    && HasSlot(v, p, idx) && v.pages[Child(v, p, idx)].Internal? && Child(v, p, idx) != p
    && Weak(v, cap, refs, Child(v, p, idx))
    && |v.pages[Child(v, p, idx)].keys| == cap.MinInner() - 1
  }

  ghost predicate CannotSpare(pages: map<PageId, Node>, cap: Capacity, c: PageId) {
    c in pages && pages[c].Internal? && |pages[c].keys| <= cap.MinInner()
  }

  lemma ShortInnerPair(v: View, cap: Capacity, refs: Refs, p: PageId, idx: nat, i: nat)
    requires ShortInner(v, cap, refs, p, idx) && (i == idx || i + 1 == idx) && i + 1 < |v.pages[p].children|
    ensures Pair(v, cap, refs, p, i, Child(v, p, idx)) && CanMergeInner(v, p, i)
    ensures |v.pages[p].keys| == |v.pages[p].children| - 1
    ensures var a, b := v.pages[Child(v, p, i)], v.pages[Child(v, p, i + 1)];
            && |a.children| == |a.keys| + 1 && |b.children| == |b.keys| + 1
            && |a.keys| <= cap.inner && |b.keys| <= cap.inner
            && (i != idx ==> |a.keys| >= cap.MinInner()) && (i + 1 != idx ==> |b.keys| >= cap.MinInner())
  {
    ShapeHasSlot(v, p, i);
    ShapeHasSlot(v, p, i + 1);
    LevelKind(v, Child(v, p, i));
    LevelKind(v, Child(v, p, i + 1));
    Neighbours(v, p, i);
    PairFacts(v, cap, refs, p, i, Child(v, p, idx));
    var c := Child(v, p, if i == idx then i + 1 else i);
    assert UpOk(v, c);
  }

  lemma RotateRightStep(v: View, cap: Capacity, refs: Refs, p: PageId, idx: nat, path: seq<PageId>) returns (w: View)
    requires ShortInner(v, cap, refs, p, idx) && idx + 1 < |v.pages[p].children| && Ancestors(v, path, p)
    requires v.pages[p].children[idx + 1] in v.pages && v.pages[v.pages[p].children[idx + 1]].Internal?
    requires |v.pages[v.pages[p].children[idx + 1]].keys| > cap.MinInner()
    ensures var a, b := v.pages[p].children[idx], v.pages[p].children[idx + 1];
            var n, r := v.pages[a], v.pages[b];
            && |v.pages[p].keys| == |v.pages[p].children| - 1 && |r.children| == |r.keys| + 1
            && w.root == v.root && Weak(w, cap, refs, p) && Ancestors(w, path, p)
            && w.pages == v.pages[b := Internal(r.children[1..], r.keys[1..])]
                                 [a := Internal(n.children + [r.children[0]], n.keys + [v.pages[p].keys[idx]])]
                                 [p := Internal(v.pages[p].children, v.pages[p].keys[idx := r.keys[0]])]
  {
    ShortInnerPair(v, cap, refs, p, idx, idx);
    var a, b := Child(v, p, idx), Child(v, p, idx + 1);
    RotateFromRight(v.pages[a], v.pages[p].keys[idx], v.pages[b]);
    w := ShiftInners(v, cap, refs, p, idx, a, |v.pages[a].keys| + 1);
    AncestorsFrame(v, w, path, p);
    assert a != b by { Neighbours(v, p, idx); }
  }

  lemma RotateLeftStep(v: View, cap: Capacity, refs: Refs, p: PageId, idx: nat, path: seq<PageId>) returns (w: View)
    requires ShortInner(v, cap, refs, p, idx) && 0 < idx && Ancestors(v, path, p)
    requires v.pages[p].children[idx - 1] in v.pages && v.pages[v.pages[p].children[idx - 1]].Internal?
    requires |v.pages[v.pages[p].children[idx - 1]].keys| > cap.MinInner()
    ensures var a, b := v.pages[p].children[idx - 1], v.pages[p].children[idx];
            var l, n := v.pages[a], v.pages[b];
            var k := |l.keys|;
            && |v.pages[p].keys| == |v.pages[p].children| - 1 && |l.children| == k + 1
            && w.root == v.root && Weak(w, cap, refs, p) && Ancestors(w, path, p)
            && w.pages == v.pages[a := Internal(l.children[..k], l.keys[..k - 1])]
                                 [b := Internal([l.children[k]] + n.children, [v.pages[p].keys[idx - 1]] + n.keys)]
                                 [p := Internal(v.pages[p].children, v.pages[p].keys[idx - 1 := l.keys[k - 1]])]
  {
    ShortInnerPair(v, cap, refs, p, idx, idx - 1);
    var a, b := Child(v, p, idx - 1), Child(v, p, idx);
    RotateFromLeft(v.pages[a], v.pages[p].keys[idx - 1], v.pages[b]);
    w := ShiftInners(v, cap, refs, p, idx - 1, b, |v.pages[a].keys| - 1);
    AncestorsFrame(v, w, path, p);
  }

  lemma GlueStep(v: View, cap: Capacity, refs: Refs, p: PageId, idx: nat, i: nat, path: seq<PageId>) returns (w: View)
    requires ShortInner(v, cap, refs, p, idx) && (i == idx || i + 1 == idx) && i + 1 < |v.pages[p].children|
    requires Ancestors(v, path, p)
    requires var c := v.pages[p].children[if i == idx then i + 1 else i];
             c in v.pages && v.pages[c].Internal? && |v.pages[c].keys| <= cap.MinInner()
    ensures var a, b := v.pages[p].children[i], v.pages[p].children[i + 1];
            && |v.pages[p].keys| == |v.pages[p].children| - 1
            && a in v.pages && b in v.pages && v.pages[a].Internal? && v.pages[b].Internal?
            && w.root == v.root && Weak(w, cap, refs, p) && Ancestors(w, path, p)
            && w.pages == v.pages[a := Glue(v.pages[a], v.pages[p].keys[i], v.pages[b])]
                                 [p := DropChild(v.pages[p], i)]
  {
    ShortInnerPair(v, cap, refs, p, idx, i);
    w := MergeInners(v, cap, refs, p, i, Child(v, p, idx));
    AncestorsFrame(v, w, path, p);
  }

  /* ---------- the walk back up ---------- */

  /** A page that is not short after all leaves nothing to do. */
  lemma FullEnough(v: View, cap: Capacity, refs: Refs, x: PageId)
    requires Weak(v, cap, refs, x) && x != v.root
    requires match v.pages[x]
             case Leaf(es, _) => |es| >= cap.MinLeaf()
             case Internal(_, ks) => |ks| >= cap.MinInner()
    ensures Tree(v, cap, refs)
  {
    WeakIsTree(v, cap, refs, x);
  }

  /** One step up an ancestor path: the parent and the slot of `x` in it. */
  lemma ParentOnPath(v: View, cap: Capacity, refs: Refs, path: seq<PageId>, x: PageId)
    requires Weak(v, cap, refs, x) && path != [] && Ancestors(v, path, x)
    ensures var p := path[|path| - 1];
            && x != v.root && p == v.marks[x].parent && p in v.marks && p in v.pages && v.pages[p].Internal?
            && x in v.pages[p].children && x != p && Ancestors(v, path[..|path| - 1], p)
            && HasSlot(v, p, IndexOf(v.pages[p].children, x))
            && (v.pages[x].Leaf? && |v.pages[x].entries| < cap.MinLeaf() ==>
                ShortLeaf(v, cap, refs, p, IndexOf(v.pages[p].children, x)))
            && (v.pages[x].Internal? && |v.pages[x].keys| < cap.MinInner() ==>
                ShortInner(v, cap, refs, p, IndexOf(v.pages[p].children, x)))
  {
    var i := SlotAt(v, x);
    var p := path[|path| - 1];
    ShapeHasSlot(v, p, i);
    ShapeHasSlot(v, p, IndexOf(v.pages[p].children, x));
  }

  /** The failing case, for a leaf that has already lost its entry. */
  ghost predicate StuckLeaf(pages: map<PageId, Node>, cap: Capacity, path: seq<PageId>) {
    && |path| >= 2
    && var leaf, p := path[|path| - 1], path[|path| - 2];
       && leaf in pages && pages[leaf].Leaf? && |pages[leaf].entries| < cap.MinLeaf()
       && p in pages && pages[p].Internal? && leaf in pages[p].children
       && LeafOverflow(pages, cap, p, IndexOf(pages[p].children, leaf), |pages[leaf].entries|)
  }

  /** `delete`'s search for the first entry with this key and RID. */
  method FindEntry(es: seq<Entry>, key: Key, rid: RID) returns (t: Option<nat>)
    requires Sorted(es)
    ensures t.None? <==> rid !in RidsFor(es, key)
    ensures t.Some? ==> t.value < |es| && es[t.value] == Entry(key, rid) && IsFirst(es, es[t.value], t.value)
  {
    var lo, hi := BisectLeft(es, key), BisectRight(es, key);
    BisectOrder(es, key);
    RidMeansEntry(es, Entry(key, rid));
    var i := lo;
    while i < hi
      invariant lo <= i <= hi
      invariant forall j :: 0 <= j < i ==> es[j] != Entry(key, rid)
    {
      if es[i].rid == rid {
        return Some(i);
      }
      i := i + 1;
    }
    return None;
  }

  /** Deleting an entry under `key` would overflow a page. */
  ghost predicate Jams(v: View, cap: Capacity, key: Key) {
    exists q :: q in v.marks && Covers(v.marks[q], key) && DeleteOverflows(v, cap, q)
  }

  lemma JamsAtLeaf(v: View, cap: Capacity, leaf: PageId, key: Key)
    requires Shape(v) && leaf in v.marks && v.pages[leaf].Leaf? && Covers(v.marks[leaf], key)
    ensures Jams(v, cap, key) <==> DeleteOverflows(v, cap, leaf)
  {
    LevelKind(v, leaf);
    forall q | q in v.marks && Covers(v.marks[q], key) && DeleteOverflows(v, cap, q) ensures q == leaf {
      LevelKind(v, q);
      OnePagePerKey(v, q, leaf, key);
    }
  }

  lemma StuckIffJams(v: View, cap: Capacity, refs: Refs, path: seq<PageId>, key: Key, t: nat)
    requires Tree(v, cap, refs) && path != []
    requires Ancestors(v, path[..|path| - 1], path[|path| - 1])
    requires v.pages[path[|path| - 1]].Leaf? && Covers(v.marks[path[|path| - 1]], key)
    requires t < |v.pages[path[|path| - 1]].entries|
    ensures var leaf := path[|path| - 1];
            StuckLeaf(v.pages[leaf := Leaf(RemoveAt(v.pages[leaf].entries, t), v.pages[leaf].next)], cap, path)
            <==> Jams(v, cap, key)
  {
    var leaf := path[|path| - 1];
    var pages := v.pages[leaf := Leaf(RemoveAt(v.pages[leaf].entries, t), v.pages[leaf].next)];
    JamsAtLeaf(v, cap, leaf, key);
    if |path| >= 2 {
      var p := path[|path| - 2];
      assert path[..|path| - 1][|path| - 2] == p;
      var i := SlotAt(v, leaf);
      ShapeHasSlot(v, p, i);
      assert leaf != p && pages[p] == v.pages[p];
      StuckFrame(v, cap, p, IndexOf(v.pages[p].children, leaf), leaf, pages, |v.pages[leaf].entries| - 1);
    }
  }

  /** The leaf a key leads to holds all of its RIDs. */
  lemma LeafOfKey(v: View, cap: Capacity, refs: Refs, leaf: PageId, key: Key)
    requires Tree(v, cap, refs) && leaf in v.marks && leaf in v.pages
    requires v.pages[leaf].Leaf? && Covers(v.marks[leaf], key)
    ensures Sorted(v.pages[leaf].entries) && RidsFor(v.pages[leaf].entries, key) == Under(refs, key)
  {
    assert DownOk(v, leaf) && LeafHolds(v, leaf, refs);
  }

  /** Taking the entry out of the leaf at the end of a path. */
  lemma RemovedOnPath(v: View, cap: Capacity, refs: Refs, path: seq<PageId>, key: Key, rid: RID, t: nat)
    returns (w: View)
    requires Tree(v, cap, refs) && path != []
    requires Ancestors(v, path[..|path| - 1], path[|path| - 1])
    requires v.pages[path[|path| - 1]].Leaf? && Covers(v.marks[path[|path| - 1]], key)
    requires t < |v.pages[path[|path| - 1]].entries| && v.pages[path[|path| - 1]].entries[t] == Entry(key, rid)
    requires IsFirst(v.pages[path[|path| - 1]].entries, Entry(key, rid), t)
    ensures var leaf := path[|path| - 1];
            && w == v.(pages := v.pages[leaf := Leaf(RemoveAt(v.pages[leaf].entries, t), v.pages[leaf].next)])
            && Weak(w, cap, Dropped(refs, key, rid), leaf)
            && Ancestors(w, path[..|path| - 1], leaf)
            && (StuckLeaf(w.pages, cap, path) <==> Jams(v, cap, key))
  {
    var leaf := path[|path| - 1];
    w := RemovedLeaf(v, leaf, t, refs, cap);
    StuckIffJams(v, cap, refs, path, key, t);
    AncestorsFrame(v, w, path[..|path| - 1], leaf);
  }

  /** Overflowing depends on the siblings only, not on the leaf itself. */
  lemma StuckFrame(v: View, cap: Capacity, p: PageId, i: nat, leaf: PageId, pages: map<PageId, Node>, c: nat)
    requires Shape(v) && p in v.marks && v.pages[p].Internal? && i < |v.pages[p].children|
    requires leaf == v.pages[p].children[i] && leaf != p
    requires leaf in pages && pages == v.pages[leaf := pages[leaf]]
    ensures LeafOverflow(v.pages, cap, p, i, c) <==> LeafOverflow(pages, cap, p, i, c)
  {
    assert DownOk(v, p) && pages[p] == v.pages[p];
    if i + 1 < |v.pages[p].children| {
      var b := v.pages[p].children[i + 1];
      if b == leaf { SlotsDistinct(v, p, i, i + 1); }
      assert b in v.pages <==> b in pages;
      assert b in v.pages ==> pages[b] == v.pages[b];
    }
    if i > 0 {
      var a := v.pages[p].children[i - 1];
      if a == leaf { SlotsDistinct(v, p, i, i - 1); }
      assert a in v.pages ==> pages[a] == v.pages[a];
      assert LeftLends(v.pages, cap, a, c) <==> LeftLends(pages, cap, a, c);
    }
  }
}
