/** Trees on which a delete overflows a page. The comment "this always fits" on the
    redistribution is too strong from six entries per leaf on, and right below that. */
module BTreeOverflow {
  import opened Sequences
  import opened BTreeEntries
  import opened BTreeSplit
  import opened BTreeShape
  import opened BTreeContents
  import opened BTreeInsert
  import opened BTreeDelete
  import opened BTree

  /** `n` entries under one key, for different rows. */
  function Block(key: Key, n: nat): (es: seq<Entry>)
    requires key >= 0
    ensures |es| == n && forall i :: 0 <= i < n ==> es[i] == Entry(key, RID(key, i))
  {
    seq(n, i requires 0 <= i < n => Entry(key, RID(key, i)))
  }

  lemma BlockRids(key: Key, n: nat, k: Key)
    requires key >= 0
    ensures RidsFor(Block(key, n), k) == if k == key then Rids(Block(key, n)) else []
  {
    if k == key {
      RidsForRun(Block(key, n), k);
    } else {
      RidsForAbsent(Block(key, n), k);
    }
  }

  /** The right leaf: all but one place for one key, then another. */
  function LongRun(leaf: nat): (es: seq<Entry>)
    requires leaf >= 6
    ensures |es| == leaf
  {
    Block(2, leaf - 1) + Block(3, 1)
  }

  /** A root over two leaves: three entries under 1, and the long run. */
  function Jammed(leaf: nat): (v: View)
    requires leaf >= 6
  {
    View(map[0 := Internal([1, 2], [2]), 1 := Leaf(Block(1, 3), Some(2)), 2 := Leaf(LongRun(leaf), None)],
         0,
         map[0 := Mark(1, NegInf, PosInf, 0), 1 := Mark(0, NegInf, At(2), 0), 2 := Mark(0, At(2), PosInf, 0)])
  }

  function JammedRefs(leaf: nat): (refs: Refs)
    requires leaf >= 6
  {
    map[1 := Rids(Block(1, 3)), 2 := Rids(Block(2, leaf - 1)), 3 := Rids(Block(3, 1))]
  }

  lemma JammedShape(leaf: nat)
    requires leaf >= 6
    ensures Shape(Jammed(leaf))
  {
    var v := Jammed(leaf);
    var es := LongRun(leaf);
    assert forall i :: 0 <= i < |es| ==> es[i].key == if i < leaf - 1 then 2 else 3;
    assert SlotOk(v, 0, 0) && SlotOk(v, 0, 1);
    assert v.pages[0].children[0] == 1 && v.pages[0].children[1] == 2;
    assert DownOk(v, 0) && DownOk(v, 1) && DownOk(v, 2);
    assert UpOk(v, 0) && UpOk(v, 1) && UpOk(v, 2);
  }

  lemma JammedHolds(leaf: nat)
    requires leaf >= 6
    ensures Holds(Jammed(leaf), JammedRefs(leaf))
  {
    var v, refs := Jammed(leaf), JammedRefs(leaf);
    forall k ensures RidsFor(Block(1, 3), k) == if k == 1 then Rids(Block(1, 3)) else [] { BlockRids(1, 3, k); }
    assert LeafHolds(v, 1, refs);
    forall k | Covers(v.marks[2], k) ensures RidsFor(LongRun(leaf), k) == Under(refs, k) {
      RidsForConcat(Block(2, leaf - 1), Block(3, 1), k);
      BlockRids(2, leaf - 1, k);
      BlockRids(3, 1, k);
    }
    assert LeafHolds(v, 2, refs);
  }

  lemma JammedTree(cap: Capacity)
    requires cap.Valid() && cap.leaf >= 6
    ensures Tree(Jammed(cap.leaf), cap, JammedRefs(cap.leaf))
  {
    var v := Jammed(cap.leaf);
    JammedShape(cap.leaf);
    JammedHolds(cap.leaf);
    assert PageFits(v, cap, 0) && PageFits(v, cap, 1) && PageFits(v, cap, 2);
  }

  lemma JammedJams(cap: Capacity)
    requires cap.leaf >= 6
    ensures Jams(Jammed(cap.leaf), cap, 1)
  {
    var v := Jammed(cap.leaf);
    var es := LongRun(cap.leaf);
    assert IsLeadingRun(es, cap.leaf - 1) && cap.leaf - 1 < |es| && 2 + (cap.leaf - 1) > cap.leaf;
    assert v.pages[0].children[0] == 1;
    assert LeafOverflow(v.pages, cap, 0, 0, 2);
    assert DeleteOverflows(v, cap, 1) && Covers(v.marks[1], 1);
  }

  lemma JamsNeedsSix(v: View, cap: Capacity, refs: Refs, key: Key)
    requires Tree(v, cap, refs) && Jams(v, cap, key)
    ensures cap.leaf >= 6
  {
    var leaf :| leaf in v.marks && Covers(v.marks[leaf], key) && DeleteOverflows(v, cap, leaf);
    var p := v.marks[leaf].parent;
    var i := IndexOf(v.pages[p].children, leaf);
    assert UpOk(v, leaf) && DownOk(v, p);
    assert SlotOk(v, p, i + 1);
    assert PageFits(v, cap, v.pages[p].children[i + 1]);
  }

  /** A valid tree and an entry whose deletion overflows a page. */
  ghost predicate Overflows(v: View, cap: Capacity, refs: Refs, key: Key, rid: RID) {
    Tree(v, cap, refs) && rid in Under(refs, key) && Jams(v, cap, key)
  }

  /** There is one if and only if a leaf takes six entries or more. */
  lemma OverflowIff(cap: Capacity)
    requires cap.Valid()
    ensures cap.leaf >= 6 <==> exists v, refs, key, rid :: Overflows(v, cap, refs, key, rid)
  {
    if cap.leaf >= 6 {
      JammedTree(cap);
      JammedJams(cap);
      assert Rids(Block(1, 3))[0] == RID(1, 0);
      assert Overflows(Jammed(cap.leaf), cap, JammedRefs(cap.leaf), 1, RID(1, 0));
    }
    forall v, refs, key, rid | Overflows(v, cap, refs, key, rid) ensures cap.leaf >= 6 {
      JamsNeedsSix(v, cap, refs, key);
    }
  }

  /* ---------- inserts that lead there ---------- */

  lemma AppendEntry(es: seq<Entry>, e: Entry)
    requires forall i :: 0 <= i < |es| ==> es[i].key <= e.key
    ensures InsertEntry(es, e) == es + [e]
  {
    BisectEnd(es, e.key);
  }

  lemma {:induction false} BisectEnd(es: seq<Entry>, k: Key)
    requires forall i :: 0 <= i < |es| ==> es[i].key <= k
    ensures BisectRight(es, k) == |es|
  {
    if es != [] { BisectEnd(es[1..], k); }
  }

  lemma RoomMeansInserted(v: View, cap: Capacity, refs: Refs, p: PageId, k: Key)
    requires Tree(v, cap, refs) && HasRoom(v, cap, k, p)
    ensures Sorted(v.pages[p].entries) && |Under(refs, k)| < cap.leaf
  {
    assert DownOk(v, p) && LeafHolds(v, p, refs);
  }

  /** An insert behind the last entry of a leaf with room. */
  method Append(t: BPlusTree, p: PageId, e: Entry)
    requires t.Valid() && !t.unique && HasRoom(t.V(), t.cap, e.key, p)
    requires forall i :: 0 <= i < |t.pages[p].entries| ==> t.pages[p].entries[i].key <= e.key
    modifies t
    ensures t.Valid()
    ensures var n := old(t.pages)[p];
            t.V() == old(t.V()).(pages := old(t.pages)[p := Leaf(n.entries + [e], n.next)])
  {
    RoomMeansInserted(t.V(), t.cap, t.refs, p, e.key);
    AppendEntry(t.pages[p].entries, e);
    ghost var v, free := t.V(), t.numPages;
    var r := t.Insert(e.key, e.rid);
    assert Took(v, t.V(), t.cap, e, free) && HasRoom(v, t.cap, e.key, p);
  }

  /** A new tree filled up with three entries of one key and then another key. */
  method FillRoot(cap: Capacity) returns (t: BPlusTree)
    requires cap.Valid() && cap.leaf >= 6
    ensures fresh(t) && t.Valid() && t.cap == cap && !t.unique
    ensures t.rootPageId == 0 && 0 in t.pages && t.pages[0] == Leaf(Block(1, 3) + Block(2, cap.leaf - 3), None)
  {
    t := new BPlusTree(cap, false);
    var es: seq<Entry> := [];
    for i := 0 to cap.leaf
      invariant fresh(t) && t.Valid() && t.cap == cap && !t.unique
      invariant t.rootPageId == 0 && 0 in t.pages && 0 in t.marks && t.marks[0] == Mark(0, NegInf, PosInf, 0)
      invariant t.pages[0] == Leaf(es, None) && es == FirstEntries(i)
    {
      var e := if i < 3 then Entry(1, RID(1, i)) else Entry(2, RID(2, i - 3));
      Append(t, 0, e);
      es := es + [e];
    }
    assert FirstEntries(cap.leaf) == Block(1, 3) + Block(2, cap.leaf - 3);
  }

  function FirstEntries(n: nat): (es: seq<Entry>)
    ensures |es| == n
  {
    seq(n, i requires 0 <= i < n => if i < 3 then Entry(1, RID(1, i)) else Entry(2, RID(2, i - 3)))
  }

  /** One more entry of the second key cuts the leaf behind the first. */
  lemma CutAtThree(n: nat, at: nat)
    requires n >= 3 && IsSplitPoint(Block(1, 3) + Block(2, n), at)
    ensures at == 3
  {
    var es := Block(1, 3) + Block(2, n);
    assert es[at - 1].key != es[at].key;
  }

  /** The root is an internal page over a short leaf of three and another one. */
  ghost predicate TwoLeaves(t: BPlusTree, right: PageId, es: seq<Entry>)
    reads t
  {
    && t.Valid() && !t.unique && 0 != right && t.rootPageId != 0 && t.rootPageId != right
    && t.rootPageId in t.pages && t.pages[t.rootPageId] == Internal([0, right], [2])
    && 0 in t.pages && t.pages[0] == Leaf(Block(1, 3), Some(right))
    && right in t.pages && t.pages[right] == Leaf(es, None)
  }

  lemma TwoLeafMarks(v: View, right: PageId)
    requires Shape(v) && v.root in v.pages && v.pages[v.root] == Internal([0, right], [2])
    ensures 0 in v.marks && v.marks[0].lo == NegInf && v.marks[0].hi == At(2) && v.marks[0].parent == v.root
    ensures right in v.marks && v.marks[right].lo == At(2) && v.marks[right].hi == PosInf
  {
    assert DownOk(v, v.root) && UpOk(v, v.root);
    assert SlotOk(v, v.root, 0) && SlotOk(v, v.root, 1);
    assert v.pages[v.root].children[0] == 0 && v.pages[v.root].children[1] == right;
  }

  method CutRoot(t: BPlusTree) returns (right: PageId)
    requires t.Valid() && !t.unique && t.cap.leaf >= 6
    requires t.rootPageId == 0 && 0 in t.pages && t.pages[0] == Leaf(Block(1, 3) + Block(2, t.cap.leaf - 3), None)
    modifies t
    ensures TwoLeaves(t, right, Block(2, t.cap.leaf - 2))
  {
    var n := t.cap.leaf - 3;
    ghost var v := t.V();
    RootHasSpareKey(v, t.cap, t.refs);
    right := t.numPages;
    var r := t.Insert(2, RID(2, n));
    CutMeans(v, t.V(), t.cap, n, right);
  }

  lemma CutMeans(v: View, w: View, cap: Capacity, n: nat, right: PageId)
    requires Shape(v) && n >= 3 && v.root == 0 && 0 in v.pages && v.pages[0] == Leaf(Block(1, 3) + Block(2, n), None)
    requires n + 3 >= cap.leaf && Took(v, w, cap, Entry(2, RID(2, n)), right) && right != 0
    ensures w.root != 0 && w.root != right && w.root in w.pages && w.pages[w.root] == Internal([0, right], [2])
    ensures 0 in w.pages && w.pages[0] == Leaf(Block(1, 3), Some(right))
    ensures right in w.pages && w.pages[right] == Leaf(Block(2, n + 1), None)
  {
    var es, e := Block(1, 3) + Block(2, n), Entry(2, RID(2, n));
    assert DownOk(v, 0);
    AppendEntry(es, e);
    BlockMore(Block(1, 3), 2, n);
    var at :| TookInRoot(v, w, e, right, at);
    CutAtThree(n + 1, at);
    var all := Block(1, 3) + Block(2, n + 1);
    assert all[..3] == Block(1, 3) && all[3..] == Block(2, n + 1);
  }

  lemma BlockMore(a: seq<Entry>, key: Key, n: nat)
    requires key >= 0
    ensures a + Block(key, n) + [Entry(key, RID(key, n))] == a + Block(key, n + 1)
  {
  }

  lemma RootHasSpareKey(v: View, cap: Capacity, refs: Refs)
    requires Tree(v, cap, refs) && cap.leaf >= 6 && v.root == 0 && 0 in v.pages
    requires v.pages[0] == Leaf(Block(1, 3) + Block(2, cap.leaf - 3), None)
    ensures |Under(refs, 2)| != cap.leaf
  {
    var es := v.pages[0].entries;
    assert UpOk(v, 0) && LeafHolds(v, 0, refs) && Covers(v.marks[0], 2);
    RidsForFull(es, 2);
    assert es[0].key == 1;
  }

  /** From an empty tree, inserts alone lead to a tree on which a delete overflows. */
  method ReachJam(cap: Capacity) returns (t: BPlusTree)
    requires cap.Valid() && cap.leaf >= 6
    ensures fresh(t) && t.Valid() && t.cap == cap && RID(1, 0) in Under(t.refs, 1) && Jams(t.V(), cap, 1)
  {
    t := FillRoot(cap);
    var right := CutRoot(t);
    TwoLeafMarks(t.V(), right);
    Append(t, right, Entry(2, RID(2, cap.leaf - 2)));
    BlockMore([], 2, cap.leaf - 2);
    assert t.pages[right].entries == Block(2, cap.leaf - 1);
    TwoLeafMarks(t.V(), right);
    Append(t, right, Entry(3, RID(3, 0)));
    assert t.pages[right].entries == LongRun(cap.leaf);
    ReachedJams(t.V(), cap, t.refs, right);
  }

  lemma ReachedJams(v: View, cap: Capacity, refs: Refs, right: PageId)
    requires Tree(v, cap, refs) && cap.leaf >= 6 && v.root != 0
    requires v.root in v.pages && v.pages[v.root] == Internal([0, right], [2])
    requires 0 in v.pages && v.pages[0] == Leaf(Block(1, 3), Some(right))
    requires right in v.pages && v.pages[right] == Leaf(LongRun(cap.leaf), None)
    ensures RID(1, 0) in Under(refs, 1) && Jams(v, cap, 1)
  {
    TwoLeafMarks(v, right);
    var es := LongRun(cap.leaf);
    assert IsLeadingRun(es, cap.leaf - 1) && cap.leaf - 1 < |es| && 2 + (cap.leaf - 1) > cap.leaf;
    assert v.pages[v.root].children[0] == 0;
    assert LeafOverflow(v.pages, cap, v.root, 0, 2);
    assert DeleteOverflows(v, cap, 0) && Covers(v.marks[0], 1);
    assert LeafHolds(v, 0, refs);
    BlockRids(1, 3, 1);
    assert Rids(Block(1, 3))[0] == RID(1, 0);
  }
}
