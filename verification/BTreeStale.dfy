/** An index whose backfill raised: the catalog keeps the page the tree started from,
    which is the root only as long as that page was never cut. */
module BTreeStale {
  import opened Sequences
  import opened BTreeEntries
  import opened BTreeShape
  import opened BTreeContents
  import opened BTreeInsert
  import opened BTreeScan
  import opened BTree

  /** What inserting the pairs one after the other gives. */
  function Loaded(pairs: seq<Entry>): (refs: Refs) {
    if pairs == [] then map[]
    else
      var n := |pairs| - 1;
      Added(Loaded(pairs[..n]), pairs[n].key, pairs[n].rid)
  }

  /** The leaf that starts the chain. */
  ghost predicate FirstLeaf(v: View, p: PageId) {
    p in v.marks && p in v.pages && v.pages[p].Leaf? && v.marks[p].lo == NegInf
  }

  /** While the root is the first page, that page holds everything. */
  ghost predicate RootSince(v: View, first: PageId, n: nat, cap: Capacity) {
    && FirstLeaf(v, first) && v.root in v.marks && v.root in v.pages
    && (v.root == first ==> v.marks[first].hi == PosInf && |v.pages[first].entries| == n <= cap.leaf)
    && (v.root != first ==> v.marks[v.root].level > 0 && n > cap.leaf)
  }

  lemma StillFirst(v: View, w: View, first: PageId)
    requires Shape(v) && Shape(w) && FirstLeaf(v, first) && Starts(v.marks, w.marks)
    ensures FirstLeaf(w, first)
  {
    LevelKind(v, first);
    assert first in w.marks;
    LevelKind(w, first);
  }

  lemma RootStep(v: View, w: View, first: PageId, n: nat, cap: Capacity, e: Entry, free: PageId)
    requires Shape(v) && Shape(w) && RootSince(v, first, n, cap) && Took(v, w, cap, e, free)
    requires forall p :: p in v.pages ==> p < free
    ensures RootSince(w, first, n + 1, cap)
  {
    StillFirst(v, w, first);
    assert UpOk(w, w.root) && DownOk(w, w.root);
    if v.root == first {
      assert Covers(v.marks[first], e.key);
      if n < cap.leaf {
        assert HasRoom(v, cap, e.key, first);
        assert TookInLeaf(v, w, first, e);
      } else {
        var at :| TookInRoot(v, w, e, free, at);
        assert first < free;
        LevelKind(w, w.root);
      }
    } else {
      LevelKind(v, first);
    }
  }

  /** The loop of CREATE INDEX on the tree itself, up to the first pair that raises: the page
      it started from is still the root if and only if no more pairs went in than fit there. */
  method Load(cap: Capacity, pairs: seq<Entry>) returns (t: BPlusTree, done: nat, first: PageId)
    requires cap.Valid()
    ensures fresh(t) && t.Valid() && t.cap == cap && done <= |pairs| && t.refs == Loaded(pairs[..done])
    ensures done < |pairs| ==> |Under(t.refs, pairs[done].key)| == cap.leaf
    ensures FirstLeaf(t.V(), first) && (t.rootPageId == first <==> done <= cap.leaf)
  {
    t := new BPlusTree(cap, false);
    first := t.rootPageId;
    done := 0;
    while done < |pairs|
      invariant fresh(t) && t.Valid() && t.cap == cap && !t.unique && done <= |pairs|
      invariant t.refs == Loaded(pairs[..done]) && RootSince(t.V(), first, done, cap)
    {
      ghost var v, free := t.V(), t.numPages;
      var r := t.Insert(pairs[done].key, pairs[done].rid);
      if r != Inserted {
        return;
      }
      RootStep(v, t.V(), first, done, cap, pairs[done], free);
      assert pairs[..done + 1][..done] == pairs[..done];
      done := done + 1;
    }
    assert pairs[..|pairs|] == pairs;
  }

  /* ---------- what a stale root does ---------- */

  /** A lookup that takes a leaf for the root finds exactly the keys of that leaf. */
  lemma StaleLookupIff(v: View, cap: Capacity, refs: Refs, p: PageId, k: Key)
    requires Tree(v, cap, refs) && p in v.marks && p in v.pages && v.pages[p].Leaf?
    ensures RidsFor(v.pages[p].entries, k) == Under(refs, k) <==> Covers(v.marks[p], k) || Under(refs, k) == []
  {
    assert DownOk(v, p) && LeafHolds(v, p, refs);
    OutsideLeaf(v.marks[p], v.pages[p].entries, k);
  }

  lemma {:induction false} LeafBelow(v: View, c: PageId) returns (q: PageId)
    requires Shape(v) && c in v.marks
    ensures q in v.marks && q in v.pages && v.pages[q].Leaf? && v.marks[q].lo == v.marks[c].lo
    decreases v.marks[c].level
  {
    assert DownOk(v, c);
    if v.pages[c].Leaf? {
      q := c;
    } else {
      assert SlotOk(v, c, 0);
      q := LeafBelow(v, v.pages[c].children[0]);
    }
  }

  /** There always are keys it misses. */
  lemma StaleMisses(v: View, cap: Capacity, refs: Refs, first: PageId) returns (k: Key)
    requires Tree(v, cap, refs) && FirstLeaf(v, first) && v.root != first
    ensures Under(refs, k) != [] && RidsFor(v.pages[first].entries, k) == []
  {
    LevelKind(v, first);
    assert UpOk(v, first) && DownOk(v, v.root) && PageFits(v, cap, v.root);
    LevelKind(v, v.root);
    assert SlotOk(v, v.root, 1);
    var q := LeafBelow(v, v.pages[v.root].children[1]);
    assert DownOk(v, q) && PageFits(v, cap, q) && LeafHolds(v, q, refs);
    LevelKind(v, q);
    k := v.pages[q].entries[0].key;
    assert Covers(v.marks[q], k);
    if Covers(v.marks[first], k) { OnePagePerKey(v, first, q, k); }
    assert DownOk(v, first);
    OutsideLeaf(v.marks[first], v.pages[first].entries, k);
  }

  /** An insert through the stale root goes into that leaf, whatever its key is; from then on
      a scan for any smaller key of another leaf ends before it gets there. */
  method StaleScan(v: View, cap: Capacity, ghost refs: Refs, first: PageId, e: Entry, x: Key)
    returns (out: seq<Entry>, stop: bool)
    requires Tree(v, cap, refs) && FirstLeaf(v, first) && !Covers(v.marks[first], x) && x < e.key
    ensures out == [] && stop
  {
    var es := InsertEntry(v.pages[first].entries, e);
    assert DownOk(v, first);
    InsertEntrySorted(v.pages[first].entries, e);
    OutsideLeaf(v.marks[first], v.pages[first].entries, x);
    InsertEntryRids(v.pages[first].entries, e, x);
    out, stop := LeafShare(es, Some(x), Some(x));
    NewKeyIsPast(v.pages[first].entries, e, x);
    SomeKey(out);
  }

  lemma SomeKey(es: seq<Entry>)
    ensures es != [] ==> exists k :: RidsFor(es, k) != []
  {
    if es != [] { assert RidsFor(es, es[0].key) != []; }
  }

  lemma NewKeyIsPast(es: seq<Entry>, e: Entry, x: Key)
    requires Sorted(es) && x < e.key
    ensures PastEnd(InsertEntry(es, e), Some(x), Some(x))
  {
    var all, pos := InsertEntry(es, e), BisectRight(es, e.key);
    InsertEntrySorted(es, e);
    assert all[pos] == e;
    assert ScanStart(all, Some(x)) <= pos;
  }
}
