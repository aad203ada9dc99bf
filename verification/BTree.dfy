/** The B+-tree index: search, range scan, insert and delete over a page store. */
module BTree {
  import opened Sequences
  import opened BTreeEntries
  import opened BTreeSplit
  import opened BTreeShape
  import opened BTreeSteps
  import opened BTreeContents
  import opened BTreeInsert
  import opened BTreeDelete
  import opened BTreeScan

  datatype InsertOutcome = Inserted | DuplicateKey | CannotSplit

  datatype DeleteOutcome = Removed | NotFound | PageOverflow

  class BPlusTree {
    /** Decoded pages, what the buffer pool presents. */
    var pages: map<PageId, Node>
    var rootPageId: PageId
    /** The next page id the disk manager hands out. */
    var numPages: nat
    const cap: Capacity
    const unique: bool

    ghost var marks: map<PageId, Mark>
    /** The reference model this tree stands for. */
    ghost var refs: Refs

    ghost function V(): View
      reads this
    {
      View(pages, rootPageId, marks)
    }

    ghost predicate Valid()
      reads this
    {
      && Tree(V(), cap, refs) && Tidy(refs)
      && forall p :: p in pages ==> p < numPages
    }

    constructor (cap: Capacity, unique: bool)
      requires cap.Valid()
      ensures Valid() && this.cap == cap && this.unique == unique
      ensures refs == map[] && numPages == 1
      ensures V() == View(map[0 := Leaf([], None)], 0, map[0 := Mark(0, NegInf, PosInf, 0)])
    {
      this.cap, this.unique := cap, unique;
      numPages := 1;
      rootPageId := 0;
      pages := map[0 := Leaf([], None)];
      marks := map[0 := Mark(0, NegInf, PosInf, 0)];
      refs := map[];
    }

    method FindLeafPath(key: Key) returns (path: seq<PageId>)
      requires Valid()
      ensures |path| > 0 && path[0] == rootPageId
      ensures Ancestors(V(), path[..|path| - 1], path[|path| - 1])
      ensures var leaf := path[|path| - 1]; pages[leaf].Leaf? && Covers(marks[leaf], key)
    {
      path := [rootPageId];
      var page := rootPageId;
      assert UpOk(V(), rootPageId) && DownOk(V(), rootPageId);
      while pages[page].Internal?
        invariant page in marks && page in pages && Covers(marks[page], key)
        invariant |path| > 0 && path[0] == rootPageId && path[|path| - 1] == page
        invariant Ancestors(V(), path[..|path| - 1], page)
        decreases marks[page].level
      {
        assert DownOk(V(), page);
        var idx := ChildIndex(pages[page].keys, key);
        assert SlotOk(V(), page, idx);
        ShapeHasSlot(V(), page, idx);
        page := pages[page].children[idx];
        assert (path + [page])[..|path|] == path;
        path := path + [page];
      }
    }

    /** `search` returns exactly the RIDs under `key`, oldest first. */
    method Search(key: Key) returns (rids: seq<RID>)
      requires Valid()
      ensures rids == Under(refs, key)
    {
      var path := FindLeafPath(key);
      var leaf := path[|path| - 1];
      var es := pages[leaf].entries;
      assert DownOk(V(), leaf) && LeafHolds(V(), leaf, refs);
      SearchSlice(es, key);
      rids := Rids(es[BisectLeft(es, key)..BisectRight(es, key)]);
    }

    method LeftmostLeaf() returns (page: PageId)
      requires Valid()
      ensures page in marks && page in pages && pages[page].Leaf? && marks[page].lo == NegInf
    {
      page := rootPageId;
      assert UpOk(V(), rootPageId) && DownOk(V(), rootPageId);
      while pages[page].Internal?
        invariant page in marks && page in pages && marks[page].lo == NegInf
        decreases marks[page].level
      {
        assert DownOk(V(), page) && SlotOk(V(), page, 0);
        ShapeHasSlot(V(), page, 0);
        page := pages[page].children[0];
      }
    }

    /** `range_scan`, run to exhaustion. */
    method RangeScan(start: Option<Key>, end: Option<Key>) returns (out: seq<Entry>)
      requires Valid()
      ensures Scanned(out, refs, start, end, PosInf)
    {
      var leaf: PageId;
      if start.Some? {
        var path := FindLeafPath(start.value);
        leaf := path[|path| - 1];
      } else {
        leaf := LeftmostLeaf();
      }
      ghost var v := V();
      out := ScanChain(pages, leaf, start, end, v, refs);
    }

    /** `height()` is the number of pages on every root-to-leaf path. */
    method Height() returns (h: nat)
      requires Valid()
      ensures h == marks[rootPageId].level + 1
    {
      h := 1;
      var page := rootPageId;
      assert DownOk(V(), rootPageId);
      while pages[page].Internal?
        invariant page in marks && page in pages && h + marks[page].level == marks[rootPageId].level + 1
        decreases marks[page].level
      {
        assert DownOk(V(), page) && SlotOk(V(), page, 0);
        ShapeHasSlot(V(), page, 0);
        page := pages[page].children[0];
        h := h + 1;
      }
      assert DownOk(V(), page);
    }

    method Insert(key: Key, rid: RID) returns (r: InsertOutcome)
      requires Valid()
      modifies this
      ensures Valid()
      ensures r == DuplicateKey <==> unique && key in old(refs)
      ensures r == CannotSplit <==> !(unique && key in old(refs)) && |Under(old(refs), key)| == cap.leaf
      ensures r == Inserted ==> refs == Added(old(refs), key, rid)
      ensures r == Inserted ==> Took(old(V()), V(), cap, Entry(key, rid), old(numPages))
      ensures r != Inserted ==> refs == old(refs) && V() == old(V())
    {
      if unique {
        var found := Search(key);
        if found != [] { return DuplicateKey; }
      }
      var path := FindLeafPath(key);
      var leaf := path[|path| - 1];
      var n := pages[leaf];
      var es := InsertEntry(n.entries, Entry(key, rid));
      ghost var v := V();
      ghost var w := InsertedLeaf(v, leaf, Entry(key, rid), refs, cap);
      UncuttableLeaf(v, leaf, Entry(key, rid), refs, cap);
      if |es| <= cap.leaf {
        pages := pages[leaf := Leaf(es, n.next)];
        refs := Added(refs, key, rid);
        TookWithRoom(v, V(), cap, leaf, Entry(key, rid), numPages);
        return Inserted;
      }
      var mid := SplitPoint(es);
      if mid.None? {
        return CannotSplit;
      }
      CutLeaf(path, es, mid.value, Entry(key, rid));
      r := Inserted;
    }

    /** The end of an insert into a full leaf: cut it and tell the parent. */
    method CutLeaf(path: seq<PageId>, es: seq<Entry>, mid: nat, e: Entry)
      requires Valid() && |path| > 0 && path[|path| - 1] in pages && pages[path[|path| - 1]].Leaf?
      requires Ancestors(V(), path[..|path| - 1], path[|path| - 1]) && Covers(marks[path[|path| - 1]], e.key)
      requires es == InsertEntry(pages[path[|path| - 1]].entries, e) && |es| > cap.leaf && IsSplitPoint(es, mid)
      modifies this
      ensures Valid() && refs == Added(old(refs), e.key, e.rid)
      ensures Took(old(V()), V(), cap, e, old(numPages))
    {
      var leaf := path[|path| - 1];
      var n := pages[leaf];
      ghost var v := V();
      ghost var w := InsertedLeaf(v, leaf, e, refs, cap);
      var newLeaf := numPages;
      numPages := numPages + 1;
      refs := Added(refs, e.key, e.rid);
      LeafCut(v, w, leaf, es, refs, cap, mid, newLeaf, path[..|path| - 1]);
      pages := pages[newLeaf := Leaf(es[mid..], n.next)];
      pages := pages[leaf := Leaf(es[..mid], Some(newLeaf))];
      InsertIntoParent(path[..|path| - 1], leaf, es[mid].key, newLeaf, w, mid);
      TookByCut(v, V(), cap, leaf, e, newLeaf, mid);
    }

    /** `_insert_into_parent`: `left` has just been cut at `at` into itself and
        `right`; `v` is the tree before that cut. */
    method InsertIntoParent(ancestors: seq<PageId>, left: PageId, sep: Key, right: PageId,
                            ghost v: View, ghost at: nat)
      requires Pending(v, pages, left, sep, right, at, refs, cap)
      requires v.root == rootPageId && v.marks == marks && Ancestors(v, ancestors, left)
      requires Tidy(refs) && forall p :: p in pages ==> p < numPages
      modifies this
      ensures Valid() && refs == old(refs) && Starts(old(marks), marks)
      ensures rootPageId == old(rootPageId) || marks[rootPageId].level > 0
      ensures ancestors == [] ==>
        rootPageId == old(numPages) && pages == old(pages)[old(numPages) := Internal([left, right], [sep])]
      decreases |ancestors|, 0
    {
      if ancestors == [] {
        var newRoot := numPages;
        numPages := numPages + 1;
        ghost var w := GrowInto(v, pages, left, sep, right, at, refs, cap, newRoot);
        pages := pages[newRoot := Internal([left, right], [sep])];
        rootPageId := newRoot;
        marks := w.marks;
        assert V() == w;
        return;
      }
      var parent := ancestors[|ancestors| - 1];
      ghost var w := AbsorbInto(v, pages, left, sep, right, at, refs, cap, ancestors);
      var idx := IndexOf(pages[parent].children, left);
      var node := InsertChild(pages[parent], idx, sep, right);
      assert w.pages[parent] == node;
      marks := w.marks;
      if |node.keys| <= cap.inner {
        pages := pages[parent := node];
        assert V() == w;
        return;
      }
      CutInner(ancestors[..|ancestors| - 1], parent, node, w);
    }

    /** An internal page that is one key over is cut around its middle key. */
    method CutInner(ancestors: seq<PageId>, parent: PageId, node: Node, ghost w: View)
      requires cap.Valid() && Shape(w) && Holds(w, refs)
      requires Occupied(w, cap, {parent}) && Ancestors(w, ancestors, parent)
      requires w.root == rootPageId && w.marks == marks && parent in pages && w.pages == pages[parent := node]
      requires node.Internal? && |node.keys| == cap.inner + 1
      requires Tidy(refs) && forall p :: p in pages ==> p < numPages
      modifies this
      ensures Valid() && refs == old(refs) && Starts(old(marks), marks)
      ensures rootPageId == old(rootPageId) || marks[rootPageId].level > 0
      decreases |ancestors|, 1
    {
      var mid := |node.keys| / 2;
      var newInner := numPages;
      numPages := numPages + 1;
      InnerCut(w, pages, parent, node, newInner, refs, cap);
      pages := pages[newInner := Internal(node.children[mid + 1..], node.keys[mid + 1..])];
      pages := pages[parent := Internal(node.children[..mid + 1], node.keys[..mid])];
      InsertIntoParent(ancestors, parent, node.keys[mid], newInner, w, mid);
    }

    /* ---------- delete ---------- */

    /** What every fix-up step establishes: only `parent` may still be short. */
    ghost predicate FixedUp(parent: PageId, path: seq<PageId>, rs: Refs, root: PageId)
      reads this
    {
      && Weak(V(), cap, refs, parent) && Ancestors(V(), path, parent)
      && refs == rs && rootPageId == root && pages[parent].Internal?
      && forall p :: p in pages ==> p < numPages
    }

    method BorrowFromRight(parent: PageId, pChildren: seq<PageId>, pKeys: seq<Key>, idx: nat, ghost path: seq<PageId>)
      returns (done: bool)
      requires ShortLeaf(V(), cap, refs, parent, idx) && Ancestors(V(), path, parent)
      requires pages[parent] == Internal(pChildren, pKeys) && idx + 1 < |pChildren|
      requires forall p :: p in pages ==> p < numPages
      modifies this
      ensures done ==> FixedUp(parent, path, old(refs), old(rootPageId))
      ensures !done ==> unchanged(this)
      ensures done <==> RightLends(old(pages), cap, pChildren[idx + 1], |old(pages)[pChildren[idx]].entries|)
    {
      ShortPair(V(), cap, refs, parent, idx, idx);
      var node, right := pChildren[idx], pChildren[idx + 1];
      var n, r := pages[node], pages[right];
      var k := LeadingRun(r.entries);
      RightLendsIff(pages, cap, right, |n.entries|, k);
      done := CanLend(|r.entries|, k, |n.entries|, cap.leaf);
      if done {
        ghost var w := BorrowRightStep(V(), cap, refs, parent, idx, k, path);
        pages := pages[right := Leaf(r.entries[k..], r.next)];
        pages := pages[node := Leaf(n.entries + r.entries[..k], n.next)];
        pages := pages[parent := Internal(pChildren, pKeys[idx := r.entries[k].key])];
        marks := w.marks;
        assert V() == w;
      }
    }

    method BorrowFromLeft(parent: PageId, pChildren: seq<PageId>, pKeys: seq<Key>, idx: nat, ghost path: seq<PageId>)
      returns (done: bool)
      requires ShortLeaf(V(), cap, refs, parent, idx) && Ancestors(V(), path, parent)
      requires pages[parent] == Internal(pChildren, pKeys) && 0 < idx
      requires forall p :: p in pages ==> p < numPages
      modifies this
      ensures done ==> FixedUp(parent, path, old(refs), old(rootPageId))
      ensures !done ==> unchanged(this)
      ensures done <==> LeftLends(old(pages), cap, pChildren[idx - 1], |old(pages)[pChildren[idx]].entries|)
    {
      ShortPair(V(), cap, refs, parent, idx, idx - 1);
      var left, node := pChildren[idx - 1], pChildren[idx];
      var l, n := pages[left], pages[node];
      var k := TrailingRun(l.entries);
      LeftLendsIff(pages, cap, left, |n.entries|, k);
      done := CanLend(|l.entries|, k, |n.entries|, cap.leaf);
      if done {
        MoveFromLeft(parent, pChildren, pKeys, idx, k, path);
      }
    }

    /** The last `k` entries of the left sibling become the first of the short leaf. */
    method MoveFromLeft(parent: PageId, pChildren: seq<PageId>, pKeys: seq<Key>, idx: nat, k: nat,
                        ghost path: seq<PageId>)
      requires ShortLeaf(V(), cap, refs, parent, idx) && Ancestors(V(), path, parent)
      requires pages[parent] == Internal(pChildren, pKeys) && 0 < idx
      requires pChildren[idx - 1] in pages && pages[pChildren[idx - 1]].Leaf?
      requires IsTrailingRun(pages[pChildren[idx - 1]].entries, k)
      requires CanLend(|pages[pChildren[idx - 1]].entries|, k, |pages[pChildren[idx]].entries|, cap.leaf)
      requires forall p :: p in pages ==> p < numPages
      modifies this
      ensures FixedUp(parent, path, old(refs), old(rootPageId))
    {
      var left, node := pChildren[idx - 1], pChildren[idx];
      var l, n := pages[left], pages[node];
      ghost var w := BorrowLeftStep(V(), cap, refs, parent, idx, k, path);
      var at := |l.entries| - k;
      var es := l.entries[at..] + n.entries;
      pages := pages[left := Leaf(l.entries[..at], l.next)];
      pages := pages[node := Leaf(es, n.next)];
      pages := pages[parent := Internal(pChildren, pKeys[idx - 1 := es[0].key])];
      marks := w.marks;
      assert V() == w;
    }

    /** Children `i` and `i + 1` become one leaf. */
    method MergePair(parent: PageId, pChildren: seq<PageId>, pKeys: seq<Key>, ghost idx: nat, i: nat,
                     ghost path: seq<PageId>)
      requires ShortLeaf(V(), cap, refs, parent, idx) && Ancestors(V(), path, parent)
      requires pages[parent] == Internal(pChildren, pKeys) && (i == idx || i + 1 == idx) && i + 1 < |pChildren|
      requires forall p :: p in pages ==> p < numPages
      requires CanMergeLeaf(V(), parent, i)
      requires |pages[pChildren[i]].entries + pages[pChildren[i + 1]].entries| <= cap.leaf
      modifies this
      ensures FixedUp(parent, path, old(refs), old(rootPageId))
    {
      var left, right := pages[pChildren[i]], pages[pChildren[i + 1]];
      ghost var w := CombineStep(V(), cap, refs, parent, idx, i, path);
      pages := pages[pChildren[i] := Leaf(left.entries + right.entries, right.next)];
      pages := pages[parent := Internal(pChildren[..i + 1] + pChildren[i + 2..], pKeys[..i] + pKeys[i + 1..])];
      marks := w.marks;
      assert V() == w;
    }

    /** The entries of children `i` and `i + 1` are cut anew at `at`. */
    method RedistributePair(parent: PageId, pChildren: seq<PageId>, pKeys: seq<Key>, ghost idx: nat, i: nat, at: nat,
                            ghost path: seq<PageId>)
      requires ShortLeaf(V(), cap, refs, parent, idx) && Ancestors(V(), path, parent)
      requires pages[parent] == Internal(pChildren, pKeys) && (i == idx || i + 1 == idx) && i + 1 < |pChildren|
      requires forall p :: p in pages ==> p < numPages
      requires CanMergeLeaf(V(), parent, i)
      requires var es := pages[pChildren[i]].entries + pages[pChildren[i + 1]].entries;
               IsSplitPoint(es, at) && at <= cap.leaf && |es| - at <= cap.leaf
      modifies this
      ensures FixedUp(parent, path, old(refs), old(rootPageId))
    {
      var left, right := pages[pChildren[i]], pages[pChildren[i + 1]];
      var es := left.entries + right.entries;
      ghost var w := RedistributeStep(V(), cap, refs, parent, idx, i, at, path);
      pages := pages[pChildren[i] := Leaf(es[..at], Some(pChildren[i + 1]))];
      pages := pages[pChildren[i + 1] := Leaf(es[at..], right.next)];
      pages := pages[parent := Internal(pChildren, pKeys[i := es[at].key])];
      marks := w.marks;
      assert V() == w;
    }

    /** Merge with the right sibling, or redistribute when one page is too small;
        false stands for the failed write of an overfull page. */
    method CombineWithRight(parent: PageId, pChildren: seq<PageId>, pKeys: seq<Key>, idx: nat, ghost path: seq<PageId>)
      returns (ok: bool)
      requires ShortLeaf(V(), cap, refs, parent, idx) && Ancestors(V(), path, parent)
      requires pages[parent] == Internal(pChildren, pKeys) && idx + 1 < |pChildren|
      requires !RightLends(pages, cap, pChildren[idx + 1], |pages[pChildren[idx]].entries|)
      requires idx > 0 ==> !LeftLends(pages, cap, pChildren[idx - 1], |pages[pChildren[idx]].entries|)
      requires forall p :: p in pages ==> p < numPages
      modifies this
      ensures ok ==> FixedUp(parent, path, old(refs), old(rootPageId))
      ensures !ok <==> LeafOverflow(old(pages), cap, parent, idx, |old(pages)[pChildren[idx]].entries|)
    {
      ShortPair(V(), cap, refs, parent, idx, idx);
      var n, r := pages[pChildren[idx]], pages[pChildren[idx + 1]];
      var combined := n.entries + r.entries;
      ghost var k := LeadingRunLength(r.entries);
      RightLendsIff(pages, cap, pChildren[idx + 1], |n.entries|, k);
      if |combined| <= cap.leaf {
        MergePair(parent, pChildren, pKeys, idx, idx, path);
        return true;
      }
      CombinedNotEqual(n.entries, r.entries);
      var split := SplitPoint(combined);
      var at := split.value;
      RedistributeRight(n.entries, r.entries, k, cap.leaf, at);
      if at > cap.leaf {
        return false;
      }
      RedistributePair(parent, pChildren, pKeys, idx, idx, at, path);
      return true;
    }

    method CombineWithLeft(parent: PageId, pChildren: seq<PageId>, pKeys: seq<Key>, idx: nat, ghost path: seq<PageId>)
      requires ShortLeaf(V(), cap, refs, parent, idx) && Ancestors(V(), path, parent)
      requires pages[parent] == Internal(pChildren, pKeys) && 0 < idx
      requires forall p :: p in pages ==> p < numPages
      modifies this
      ensures FixedUp(parent, path, old(refs), old(rootPageId))
    {
      ShortPair(V(), cap, refs, parent, idx, idx - 1);
      var l, n := pages[pChildren[idx - 1]], pages[pChildren[idx]];
      var combined := l.entries + n.entries;
      if |combined| <= cap.leaf {
        MergePair(parent, pChildren, pKeys, idx, idx - 1, path);
        return;
      }
      CombinedNotEqual(l.entries, n.entries);
      var split := SplitPoint(combined);
      var at := split.value;
      RedistributeLeft(l.entries, n.entries, cap.leaf, at);
      RedistributePair(parent, pChildren, pKeys, idx, idx - 1, at, path);
    }

    /** `_fixup_leaf`: borrow right, borrow left, else combine. */
    method FixupLeaf(parent: PageId, pChildren: seq<PageId>, pKeys: seq<Key>, idx: nat, ghost path: seq<PageId>)
      returns (ok: bool)
      requires ShortLeaf(V(), cap, refs, parent, idx) && Ancestors(V(), path, parent)
      requires pages[parent] == Internal(pChildren, pKeys)
      requires forall p :: p in pages ==> p < numPages
      modifies this
      ensures ok ==> FixedUp(parent, path, old(refs), old(rootPageId))
      ensures !ok <==> LeafOverflow(old(pages), cap, parent, idx, |old(pages)[pChildren[idx]].entries|)
    {
      ShortParent(V(), cap, refs, parent, idx);
      if idx + 1 < |pChildren| {
        var done := BorrowFromRight(parent, pChildren, pKeys, idx, path);
        if done { return true; }
      }
      if idx > 0 {
        var done := BorrowFromLeft(parent, pChildren, pKeys, idx, path);
        if done { return true; }
      }
      if idx + 1 < |pChildren| {
        ok := CombineWithRight(parent, pChildren, pKeys, idx, path);
      } else {
        CombineWithLeft(parent, pChildren, pKeys, idx, path);
        ok := true;
      }
    }

    /** Take the first child of the right sibling through the parent separator, if it can spare one. */
    method RotateFromRight(parent: PageId, pChildren: seq<PageId>, pKeys: seq<Key>, idx: nat, ghost path: seq<PageId>)
      returns (done: bool)
      requires ShortInner(V(), cap, refs, parent, idx) && Ancestors(V(), path, parent)
      requires pages[parent] == Internal(pChildren, pKeys) && idx + 1 < |pChildren|
      requires forall p :: p in pages ==> p < numPages
      modifies this
      ensures done ==> FixedUp(parent, path, old(refs), old(rootPageId))
      ensures !done ==> unchanged(this) && CannotSpare(pages, cap, pChildren[idx + 1])
    {
      ghost var v := V();
      ShortInnerPair(v, cap, refs, parent, idx, idx);
      var node, right := pChildren[idx], pChildren[idx + 1];
      var n, r := pages[node], pages[right];
      if |r.keys| <= cap.MinInner() {
        return false;
      }
      ghost var w := RotateRightStep(v, cap, refs, parent, idx, path);
      pages := pages[right := Internal(r.children[1..], r.keys[1..])];
      pages := pages[node := Internal(n.children + [r.children[0]], n.keys + [pKeys[idx]])];
      pages := pages[parent := Internal(pChildren, pKeys[idx := r.keys[0]])];
      marks := w.marks;
      assert V() == w;
      return true;
    }

    /** Take the last child of the left sibling, likewise. */
    method RotateFromLeft(parent: PageId, pChildren: seq<PageId>, pKeys: seq<Key>, idx: nat, ghost path: seq<PageId>)
      returns (done: bool)
      requires ShortInner(V(), cap, refs, parent, idx) && Ancestors(V(), path, parent)
      requires pages[parent] == Internal(pChildren, pKeys) && 0 < idx < |pChildren|
      requires forall p :: p in pages ==> p < numPages
      modifies this
      ensures done ==> FixedUp(parent, path, old(refs), old(rootPageId))
      ensures !done ==> unchanged(this) && CannotSpare(pages, cap, pChildren[idx - 1])
    {
      ghost var v := V();
      ShortInnerPair(v, cap, refs, parent, idx, idx - 1);
      var node, left := pChildren[idx], pChildren[idx - 1];
      var n, l := pages[node], pages[left];
      if |l.keys| <= cap.MinInner() {
        return false;
      }
      ghost var w := RotateLeftStep(v, cap, refs, parent, idx, path);
      var k := |l.keys|;
      pages := pages[left := Internal(l.children[..k], l.keys[..k - 1])];
      pages := pages[node := Internal([l.children[k]] + n.children, [pKeys[idx - 1]] + n.keys)];
      pages := pages[parent := Internal(pChildren, pKeys[idx - 1 := l.keys[k - 1]])];
      marks := w.marks;
      assert V() == w;
      return true;
    }

    /** Rotation: the right sibling first, then the left one. */
    method RotateInternal(parent: PageId, pChildren: seq<PageId>, pKeys: seq<Key>, idx: nat, ghost path: seq<PageId>)
      returns (done: bool)
      requires ShortInner(V(), cap, refs, parent, idx) && Ancestors(V(), path, parent)
      requires pages[parent] == Internal(pChildren, pKeys)
      requires forall p :: p in pages ==> p < numPages
      modifies this
      ensures done ==> FixedUp(parent, path, old(refs), old(rootPageId))
      ensures !done ==> unchanged(this)
      ensures !done && idx + 1 < |pChildren| ==> CannotSpare(pages, cap, pChildren[idx + 1])
      ensures !done && idx > 0 ==> CannotSpare(pages, cap, pChildren[idx - 1])
    {
      done := false;
      if idx + 1 < |pChildren| {
        done := RotateFromRight(parent, pChildren, pKeys, idx, path);
      }
      if !done && idx > 0 {
        done := RotateFromLeft(parent, pChildren, pKeys, idx, path);
      }
    }

    /** `_fixup_internal`: rotate, else merge around the parent separator. */
    method FixupInternal(parent: PageId, pChildren: seq<PageId>, pKeys: seq<Key>, idx: nat, ghost path: seq<PageId>)
      requires ShortInner(V(), cap, refs, parent, idx) && Ancestors(V(), path, parent)
      requires pages[parent] == Internal(pChildren, pKeys)
      requires forall p :: p in pages ==> p < numPages
      modifies this
      ensures FixedUp(parent, path, old(refs), old(rootPageId))
    {
      ghost var v := V();
      assert PageFits(v, cap, parent);
      var done := RotateInternal(parent, pChildren, pKeys, idx, path);
      if done { return; }
      GluePair(parent, pChildren, pKeys, idx, if idx + 1 < |pChildren| then idx else idx - 1, path);
    }

    /** Children `i` and `i + 1` become one internal page around their separator. */
    method GluePair(parent: PageId, pChildren: seq<PageId>, pKeys: seq<Key>, ghost idx: nat, i: nat,
                    ghost path: seq<PageId>)
      requires ShortInner(V(), cap, refs, parent, idx) && Ancestors(V(), path, parent)
      requires pages[parent] == Internal(pChildren, pKeys) && (i == idx || i + 1 == idx) && i + 1 < |pChildren|
      requires CannotSpare(pages, cap, pChildren[if i == idx then i + 1 else i])
      requires forall p :: p in pages ==> p < numPages
      modifies this
      ensures FixedUp(parent, path, old(refs), old(rootPageId))
    {
      ghost var v := V();
      ShortInnerPair(v, cap, refs, parent, idx, i);
      var left, right := pChildren[i], pChildren[i + 1];
      var l, r := pages[left], pages[right];
      ghost var w := GlueStep(v, cap, refs, parent, idx, i, path);
      pages := pages[left := Internal(l.children + r.children, l.keys + [pKeys[i]] + r.keys)];
      pages := pages[parent := Internal(pChildren[..i + 1] + pChildren[i + 2..], pKeys[..i] + pKeys[i + 1..])];
      marks := w.marks;
      assert V() == w;
    }

    method MaybeShrinkRoot()
      requires Weak(V(), cap, refs, rootPageId) && Tidy(refs)
      requires forall p :: p in pages ==> p < numPages
      modifies this
      ensures Valid() && refs == old(refs)
    {
      ghost var v := V();
      if pages[rootPageId].Internal? && |pages[rootPageId].keys| == 0 {
        ghost var w := Shrink(v, cap, refs);
        rootPageId := pages[rootPageId].children[0];
        marks := w.marks;
        assert V() == w;
      } else {
        WeakIsTree(v, cap, refs, rootPageId);
      }
    }

    /** `_fixup_after_delete`: from the leaf up, until a page is full enough. */
    method FixupAfterDelete(path: seq<PageId>) returns (ok: bool)
      requires path != [] && Weak(V(), cap, refs, path[|path| - 1]) && Tidy(refs)
      requires pages[path[|path| - 1]].Leaf? && Ancestors(V(), path[..|path| - 1], path[|path| - 1])
      requires forall p :: p in pages ==> p < numPages
      modifies this
      ensures ok ==> Valid() && refs == old(refs)
      ensures !ok <==> StuckLeaf(old(pages), cap, path)
    {
      var level := |path| - 1;
      ghost var rs, root := refs, rootPageId;
      while level > 0
        invariant 0 <= level < |path|
        invariant Weak(V(), cap, refs, path[level]) && Ancestors(V(), path[..level], path[level])
        invariant refs == rs && rootPageId == root && forall p :: p in pages ==> p < numPages
        invariant level == |path| - 1 ==> pages == old(pages)
        invariant level < |path| - 1 ==> !StuckLeaf(old(pages), cap, path) && pages[path[level]].Internal?
      {
        var node, parent := path[level], path[level - 1];
        ParentOnPath(V(), cap, refs, path[..level], node);
        assert path[..level][..level - 1] == path[..level - 1];
        var isLeaf := pages[node].Leaf?;
        var enough := if isLeaf then |pages[node].entries| >= cap.MinLeaf() else |pages[node].keys| >= cap.MinInner();
        if enough {
          FullEnough(V(), cap, refs, node);
          return true;
        }
        var pChildren, pKeys := pages[parent].children, pages[parent].keys;
        var idx := IndexOf(pChildren, node);
        if isLeaf {
          var fits := FixupLeaf(parent, pChildren, pKeys, idx, path[..level - 1]);
          if !fits {
            return false;
          }
        } else {
          FixupInternal(parent, pChildren, pKeys, idx, path[..level - 1]);
        }
        level := level - 1;
      }
      MaybeShrinkRoot();
      return true;
    }

    method Delete(key: Key, rid: RID) returns (r: DeleteOutcome)
      requires Valid()
      modifies this
      ensures r == NotFound <==> rid !in Under(old(refs), key)
      ensures r == NotFound ==> unchanged(this)
      ensures r == Removed ==> Valid() && refs == Dropped(old(refs), key, rid)
      ensures r == PageOverflow <==> rid in Under(old(refs), key) && Jams(old(V()), cap, key)
    {
      var path := FindLeafPath(key);
      var leaf := path[|path| - 1];
      var n := pages[leaf];
      ghost var v := V();
      LeafOfKey(v, cap, refs, leaf, key);
      var target := FindEntry(n.entries, key, rid);
      if target.None? {
        return NotFound;
      }
      var t := target.value;
      ghost var w := RemovedOnPath(v, cap, refs, path, key, rid, t);
      pages := pages[leaf := Leaf(RemoveAt(n.entries, t), n.next)];
      refs := Dropped(refs, key, rid);
      assert V() == w;
      var ok := FixupAfterDelete(path);
      r := if ok then Removed else PageOverflow;
    }
  }
}
