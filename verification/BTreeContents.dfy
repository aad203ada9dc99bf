/** What a tree holds and how full its pages are, and how the structural steps
    carry both over. */
module BTreeContents {
  import opened BTreeEntries
  import opened BTreeShape
  import opened BTreeSteps
  import opened BTreeInner

  /** The reference model of an index: for each key its RIDs, oldest first. */
  type Refs = map<Key, seq<RID>>

  function Under(refs: Refs, k: Key): (rs: seq<RID>) {
    if k in refs then refs[k] else []
  }

  function SetUnder(refs: Refs, k: Key, rs: seq<RID>): (r: Refs)
    ensures forall x :: Under(r, x) == if x == k then rs else Under(refs, x)
  {
    if rs == [] then refs - {k} else refs[k := rs]
  }

  /** The model after an insert. */
  function Added(refs: Refs, k: Key, rid: RID): (r: Refs)
    ensures Tidy(refs) ==> Tidy(r)
  {
    refs[k := Under(refs, k) + [rid]]
  }

  /** No key is kept without RIDs. */
  ghost predicate Tidy(refs: Refs) {
    forall k :: k in refs ==> refs[k] != []
  }

  /** A leaf answers for every key of its interval. */
  ghost predicate LeafHolds(v: View, p: PageId, refs: Refs) {
    && p in v.marks && p in v.pages && v.pages[p].Leaf?
    && forall k :: Covers(v.marks[p], k) ==> RidsFor(v.pages[p].entries, k) == Under(refs, k)
  }

  ghost predicate Holds(v: View, refs: Refs) {
    forall p {:trigger LeafHolds(v, p, refs)} ::
      p in v.marks && p in v.pages && v.pages[p].Leaf? ==> LeafHolds(v, p, refs)
  }

  /** Steps that leave every leaf's entries and interval alone. */
  lemma HoldsFrame(v: View, w: View, refs: Refs)
    requires Holds(v, refs)
    requires forall p :: p in w.marks && p in w.pages && w.pages[p].Leaf? ==>
               && p in v.marks && p in v.pages && v.pages[p] == w.pages[p]
               && v.marks[p].lo == w.marks[p].lo && v.marks[p].hi == w.marks[p].hi
    ensures Holds(w, refs)
  {
    forall p | p in w.marks && p in w.pages && w.pages[p].Leaf? ensures LeafHolds(w, p, refs) {
      assert LeafHolds(v, p, refs);
    }
  }

  lemma GrowRootHolds(v: View, top: PageId, refs: Refs)
    requires v.root in v.marks && top !in v.marks && Holds(v, refs)
    ensures Holds(GrowRoot(v, top), refs)
  {
    HoldsFrame(v, GrowRoot(v, top), refs);
  }

  lemma ShrinkRootHolds(v: View, refs: Refs)
    requires CanShrinkRoot(v) && Holds(v, refs)
    ensures Holds(ShrinkRoot(v), refs)
  {
    HoldsFrame(v, ShrinkRoot(v), refs);
  }

  lemma SplitInnerHolds(v: View, p: PageId, i: nat, right: PageId, at: nat, refs: Refs)
    requires CanSplitInner(v, p, i, right, at) && Holds(v, refs)
    ensures Holds(SplitInner(v, p, i, right, at), refs)
  {
    HoldsFrame(v, SplitInner(v, p, i, right, at), refs);
  }

  lemma MergeInnerHolds(v: View, p: PageId, i: nat, refs: Refs)
    requires CanMergeInner(v, p, i) && Holds(v, refs)
    ensures Holds(MergeInner(v, p, i), refs)
  {
    HoldsFrame(v, MergeInner(v, p, i), refs);
  }

  lemma CutRids(es: seq<Entry>, at: nat, k: Key)
    requires Sorted(es) && 0 < at < |es| && es[at - 1].key < es[at].key
    ensures k < es[at].key ==> RidsFor(es[..at], k) == RidsFor(es, k)
    ensures k >= es[at].key ==> RidsFor(es[at..], k) == RidsFor(es, k)
  {
    assert es == es[..at] + es[at..];
    RidsForConcat(es[..at], es[at..], k);
    if k < es[at].key {
      RidsForAbsent(es[at..], k);
    } else {
      RidsForAbsent(es[..at], k);
    }
  }

  lemma SplitLeafHolds(v: View, p: PageId, i: nat, right: PageId, at: nat, refs: Refs)
    requires Shape(v) && CanSplitLeaf(v, p, i, right, at) && Holds(v, refs)
    ensures Holds(SplitLeaf(v, p, i, right, at), refs)
  {
    var w, c := SplitLeaf(v, p, i, right, at), Child(v, p, i);
    ShapeHasSlot(v, p, i);
    assert DownOk(v, c) && LeafHolds(v, c, refs);
    var es := v.pages[c].entries;
    forall q | q in w.marks && q in w.pages && w.pages[q].Leaf? ensures LeafHolds(w, q, refs) {
      if q == c || q == right {
        forall k | Covers(w.marks[q], k) ensures RidsFor(w.pages[q].entries, k) == Under(refs, k) {
          assert Covers(v.marks[c], es[at].key);
          CutRids(es, at, k);
          assert Covers(v.marks[c], k);
        }
      } else {
        assert LeafHolds(v, q, refs);
      }
    }
  }

  lemma MergeLeafHolds(v: View, p: PageId, i: nat, refs: Refs)
    requires Shape(v) && CanMergeLeaf(v, p, i) && Holds(v, refs)
    ensures Holds(MergeLeaf(v, p, i), refs)
  {
    var w, a, b := MergeLeaf(v, p, i), Child(v, p, i), Child(v, p, i + 1);
    Neighbours(v, p, i);
    assert LeafHolds(v, a, refs) && LeafHolds(v, b, refs);
    var xs, ys := v.pages[a].entries, v.pages[b].entries;
    forall q | q in w.marks && q in w.pages && w.pages[q].Leaf? ensures LeafHolds(w, q, refs) {
      if q == a {
        forall k | Covers(w.marks[a], k) ensures RidsFor(xs + ys, k) == Under(refs, k) {
          RidsForConcat(xs, ys, k);
          MergedKey(v, a, b, k);
        }
      } else {
        assert LeafHolds(v, q, refs);
      }
    }
  }

  lemma MergedKey(v: View, a: PageId, b: PageId, k: Key)
    requires DownOk(v, a) && DownOk(v, b) && v.pages[a].Leaf? && v.pages[b].Leaf?
    requires v.marks[a].hi == v.marks[b].lo && v.marks[a].hi.At?
    requires Covers(v.marks[a].(hi := v.marks[b].hi), k)
    ensures if Less(At(k), v.marks[a].hi) then Covers(v.marks[a], k) && RidsFor(v.pages[b].entries, k) == []
            else Covers(v.marks[b], k) && RidsFor(v.pages[a].entries, k) == []
  {
    var xs, ys := v.pages[a].entries, v.pages[b].entries;
    if Less(At(k), v.marks[a].hi) {
      assert forall i :: 0 <= i < |ys| ==> Covers(v.marks[b], ys[i].key);
      RidsForAbsent(ys, k);
    } else {
      assert forall i :: 0 <= i < |xs| ==> Covers(v.marks[a], xs[i].key);
      RidsForAbsent(xs, k);
    }
  }

  /** Rewriting one leaf changes the answer for the keys of that leaf only. */
  lemma WriteLeafHolds(v: View, p: PageId, es: seq<Entry>, refs: Refs, k: Key, refs': Refs)
    requires Shape(v) && Holds(v, refs) && p in v.marks && v.pages[p].Leaf? && Covers(v.marks[p], k)
    requires forall x :: RidsFor(es, x) == if x == k then Under(refs', k) else RidsFor(v.pages[p].entries, x)
    requires forall x :: x != k ==> Under(refs', x) == Under(refs, x)
    ensures Holds(WriteLeaf(v, p, es), refs')
  {
    var w := WriteLeaf(v, p, es);
    forall q | q in w.marks && q in w.pages && w.pages[q].Leaf? ensures LeafHolds(w, q, refs') {
      assert LeafHolds(v, q, refs);
      if q != p && Covers(v.marks[q], k) {
        LevelKind(v, p);
        LevelKind(v, q);
        OnePagePerKey(v, p, q, k);
      }
    }
  }

  /* ---------- occupancy ---------- */

  /** Page capacities: at least four keys per page. */
  datatype Capacity = Capacity(leaf: nat, inner: nat) {
    ghost predicate Valid() { leaf >= 4 && inner >= 4 }

    function MinLeaf(): nat { leaf / 2 }

    function MinInner(): int { (inner - 1) / 2 }
  }

  ghost predicate Fits(n: Node, cap: Capacity, isRoot: bool) {
    match n
    case Leaf(es, _) => |es| <= cap.leaf && (isRoot || es != [])
    case Internal(_, ks) => |ks| <= cap.inner && |ks| >= (if isRoot then 1 else cap.MinInner())
  }

  ghost predicate PageFits(v: View, cap: Capacity, p: PageId) {
    p in v.pages && Fits(v.pages[p], cap, p == v.root)
  }

  /** Every live page outside `x` is neither overfull nor underfull. */
  ghost predicate Occupied(v: View, cap: Capacity, x: set<PageId>) {
    forall p {:trigger PageFits(v, cap, p)} :: p in v.marks && p !in x ==> PageFits(v, cap, p)
  }

  ghost predicate Tree(v: View, cap: Capacity, refs: Refs) {
    cap.Valid() && Shape(v) && Holds(v, refs) && Occupied(v, cap, {})
  }
}
