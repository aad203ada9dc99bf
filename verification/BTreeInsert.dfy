/** One level of an insert: an overfull page is cut in two and its parent gets
    the new separator and child. */
module BTreeInsert {
  import opened Sequences
  import opened BTreeEntries
  import opened BTreeSplit
  import opened BTreeShape
  import opened BTreeSteps
  import opened BTreeInner
  import opened BTreeContents

  /** `node` can be cut at `at`. */
  ghost predicate CanCut(n: Node, at: nat) {
    match n
    case Leaf(es, _) => 0 < at < |es| && es[at - 1].key < es[at].key
    case Internal(cs, ks) => at < |ks| == |cs| - 1
  }

  function Separator(n: Node, at: nat): (k: Key)
    requires CanCut(n, at)
  {
    match n
    case Leaf(es, _) => es[at].key
    case Internal(_, ks) => ks[at]
  }

  function LeftPart(n: Node, at: nat, right: PageId): (r: Node)
    requires CanCut(n, at)
  {
    match n
    case Leaf(es, _) => Leaf(es[..at], Some(right))
    case Internal(cs, ks) => Internal(cs[..at + 1], ks[..at])
  }

  function RightPart(n: Node, at: nat): (r: Node)
    requires CanCut(n, at)
  {
    match n
    case Leaf(es, next) => Leaf(es[at..], next)
    case Internal(cs, ks) => Internal(cs[at + 1..], ks[at + 1..])
  }

  ghost predicate CanSplit(v: View, p: PageId, i: nat, right: PageId, at: nat) {
    HasSlot(v, p, i) && right !in v.marks && CanCut(v.pages[Child(v, p, i)], at)
  }

  ghost function Split(v: View, p: PageId, i: nat, right: PageId, at: nat): (w: View)
    requires CanSplit(v, p, i, right, at)
  {
    if v.pages[Child(v, p, i)].Leaf? then SplitLeaf(v, p, i, right, at) else SplitInner(v, p, i, right, at)
  }

  lemma SplitPages(v: View, p: PageId, i: nat, right: PageId, at: nat)
    requires CanSplit(v, p, i, right, at)
    ensures var n := v.pages[Child(v, p, i)];
            Split(v, p, i, right, at).pages ==
            v.pages[Child(v, p, i) := LeftPart(n, at, right)][right := RightPart(n, at)]
                   [p := InsertChild(v.pages[p], i, Separator(n, at), right)]
    ensures Split(v, p, i, right, at).root == v.root
    ensures Split(v, p, i, right, at).marks.Keys == v.marks.Keys + {right}
  {
  }

  lemma SplitTree(v: View, p: PageId, i: nat, right: PageId, at: nat, refs: Refs)
    requires Shape(v) && Holds(v, refs) && CanSplit(v, p, i, right, at)
    ensures Shape(Split(v, p, i, right, at)) && Holds(Split(v, p, i, right, at), refs)
  {
    if v.pages[Child(v, p, i)].Leaf? {
      SplitLeafShape(v, p, i, right, at);
      SplitLeafHolds(v, p, i, right, at, refs);
    } else {
      SplitInnerShape(v, p, i, right, at);
      SplitInnerHolds(v, p, i, right, at, refs);
    }
  }

  /** Above the split page no mark changes. */
  lemma SplitMarksAbove(v: View, p: PageId, i: nat, right: PageId, at: nat, q: PageId)
    requires Shape(v) && CanSplit(v, p, i, right, at)
    requires q in v.marks && v.marks[q].level >= v.marks[p].level
    ensures q in Split(v, p, i, right, at).marks && Split(v, p, i, right, at).marks[q] == v.marks[q]
  {
    var c := Child(v, p, i);
    ShapeHasSlot(v, p, i);
    assert DownOk(v, q) && UpOk(v, q);
    if v.marks[q].parent == c {
      if q != v.root { var j := SlotAt(v, q); }
    }
  }

  /** No page loses its place: it starts where it started, on its level. */
  ghost predicate Starts(a: map<PageId, Mark>, b: map<PageId, Mark>) {
    forall p :: p in a ==> p in b && b[p].lo == a[p].lo && b[p].level == a[p].level
  }

  lemma SplitStarts(v: View, p: PageId, i: nat, right: PageId, at: nat)
    requires CanSplit(v, p, i, right, at)
    ensures Starts(v.marks, Split(v, p, i, right, at).marks)
  {
  }

  lemma GrowStarts(v: View, top: PageId)
    requires v.root in v.marks && top !in v.marks
    ensures Starts(v.marks, GrowRoot(v, top).marks)
  {
  }

  /** Halves of an overfull page are neither overfull nor underfull. */
  ghost predicate GoodCut(n: Node, at: nat, cap: Capacity) {
    && CanCut(n, at)
    && (match n
        case Leaf(es, _) => at <= cap.leaf && |es| - at <= cap.leaf
        case Internal(_, ks) => |ks| == cap.inner + 1 && at == |ks| / 2)
  }

  lemma GoodCutFits(n: Node, at: nat, cap: Capacity, right: PageId)
    requires cap.Valid() && GoodCut(n, at, cap)
    ensures Fits(LeftPart(n, at, right), cap, false) && Fits(RightPart(n, at), cap, false)
  {
  }

  lemma SplitOccupied(v: View, p: PageId, i: nat, right: PageId, at: nat, cap: Capacity)
    requires Shape(v) && CanSplit(v, p, i, right, at) && cap.Valid()
    requires Occupied(v, cap, {Child(v, p, i), p}) && GoodCut(v.pages[Child(v, p, i)], at, cap)
    ensures Occupied(Split(v, p, i, right, at), cap, {p})
  {
    var c := Child(v, p, i);
    ShapeHasSlot(v, p, i);
    SplitPages(v, p, i, right, at);
    GoodCutFits(v.pages[c], at, cap, right);
    var w := Split(v, p, i, right, at);
    forall q | q in w.marks && q !in {p} ensures PageFits(w, cap, q) {
      if q != c && q != right { assert PageFits(v, cap, q); }
    }
  }

  /** `path` lists the ancestors of `p`, the root first. */
  ghost predicate Ancestors(v: View, path: seq<PageId>, p: PageId) {
    && p in v.marks
    && if path == [] then p == v.root
       else
         var q := path[|path| - 1];
         p != v.root && v.marks[p].parent == q && Ancestors(v, path[..|path| - 1], q)
  }

  lemma {:induction false} AncestorsFrame(v: View, w: View, path: seq<PageId>, p: PageId)
    requires Shape(v) && Ancestors(v, path, p) && w.root == v.root
    requires forall q :: q in v.marks && v.marks[q].level >= v.marks[p].level ==>
               q in w.marks && w.marks[q] == v.marks[q]
    ensures Ancestors(w, path, p)
  {
    if path != [] {
      var i := SlotAt(v, p);
      AncestorsFrame(v, w, path[..|path| - 1], path[|path| - 1]);
    }
  }

  function IndexOf(s: seq<PageId>, x: PageId): (i: nat)
    requires x in s
    ensures i < |s| && s[i] == x && x !in s[..i]
  {
    if s[0] == x then 0 else 1 + IndexOf(s[1..], x)
  }

  /** The pages between cutting `left` in two and telling its parent: `v` is the
      tree in which `left` is still whole, and overfull. */
  ghost predicate Pending(v: View, pages: map<PageId, Node>, left: PageId, sep: Key, right: PageId,
                          at: nat, refs: Refs, cap: Capacity) {
    && cap.Valid() && Shape(v) && Holds(v, refs) && Occupied(v, cap, {left})
    && left in v.marks && left in v.pages && right !in v.marks && GoodCut(v.pages[left], at, cap)
    && sep == Separator(v.pages[left], at)
    && pages == v.pages[left := LeftPart(v.pages[left], at, right)][right := RightPart(v.pages[left], at)]
  }

  lemma AbsorbCore(v: View, p: PageId, i: nat, right: PageId, at: nat, refs: Refs, cap: Capacity)
    requires cap.Valid() && Shape(v) && Holds(v, refs) && CanSplit(v, p, i, right, at)
    requires Occupied(v, cap, {Child(v, p, i), p}) && GoodCut(v.pages[Child(v, p, i)], at, cap)
    ensures var w, n := Split(v, p, i, right, at), v.pages[Child(v, p, i)];
            && Child(v, p, i) != p && right != p
            && Shape(w) && Holds(w, refs) && Occupied(w, cap, {p}) && w.root == v.root
            && w.marks.Keys == v.marks.Keys + {right}
            && w.pages == v.pages[Child(v, p, i) := LeftPart(n, at, right)][right := RightPart(n, at)]
                                 [p := InsertChild(v.pages[p], i, Separator(n, at), right)]
  {
    ShapeHasSlot(v, p, i);
    SplitTree(v, p, i, right, at, refs);
    SplitPages(v, p, i, right, at);
    SplitOccupied(v, p, i, right, at, cap);
  }

  lemma OccupiedAll(w: View, cap: Capacity, p: PageId)
    requires Occupied(w, cap, {p}) && PageFits(w, cap, p)
    ensures Occupied(w, cap, {})
  {
    forall q | q in w.marks && q !in {} ensures PageFits(w, cap, q) {
      if q != p { assert PageFits(w, cap, q); }
    }
  }

  /** Telling the parent: the invariant holds again except that the parent may
      now be one key over. */
  lemma AbsorbStep(v: View, pages: map<PageId, Node>, left: PageId, sep: Key, right: PageId,
                   at: nat, refs: Refs, cap: Capacity, i: nat)
    requires Pending(v, pages, left, sep, right, at, refs, cap) && left != v.root
    requires var p := v.marks[left].parent; HasSlot(v, p, i) && Child(v, p, i) == left
    ensures var p := v.marks[left].parent;
            var w := Split(v, p, i, right, at);
            && p != left && p != right && p in pages && pages[p] == v.pages[p]
            && Shape(w) && Holds(w, refs) && Occupied(w, cap, {p})
            && w.root == v.root && w.pages == pages[p := InsertChild(v.pages[p], i, sep, right)]
            && |w.pages[p].keys| == |v.pages[p].keys| + 1 <= cap.inner + 1
            && (|w.pages[p].keys| <= cap.inner ==> Tree(w, cap, refs))
  {
    var p := v.marks[left].parent;
    AbsorbCore(v, p, i, right, at, refs, cap);
    assert PageFits(v, cap, p);
    var w := Split(v, p, i, right, at);
    if |w.pages[p].keys| <= cap.inner { OccupiedAll(w, cap, p); }
  }

  lemma GrowReady(v: View, top: PageId, refs: Refs, cap: Capacity)
    requires Shape(v) && Holds(v, refs) && Occupied(v, cap, {v.root}) && top !in v.marks
    ensures var g := GrowRoot(v, top);
            && Shape(g) && Holds(g, refs) && Occupied(g, cap, {v.root, top})
            && HasSlot(g, top, 0) && Child(g, top, 0) == v.root && g.root == top
            && g.pages == v.pages[top := Internal([v.root], [])] && g.marks.Keys == v.marks.Keys + {top}
  {
    GrowRootShape(v, top);
    GrowRootHolds(v, top, refs);
    var g := GrowRoot(v, top);
    forall q | q in g.marks && q !in {v.root, top} ensures PageFits(g, cap, q) {
      assert PageFits(v, cap, q);
    }
  }

  lemma TwoChildren(left: PageId, sep: Key, right: PageId, i: nat)
    requires i == 0
    ensures InsertChild(Internal([left], []), i, sep, right) == Internal([left, right], [sep])
  {
  }

  /** Splitting the root puts a new root with two children on top. */
  lemma GrowStep(v: View, pages: map<PageId, Node>, left: PageId, sep: Key, right: PageId,
                 at: nat, refs: Refs, cap: Capacity, top: PageId, i: nat)
    requires Pending(v, pages, left, sep, right, at, refs, cap) && left == v.root
    requires top !in v.marks && top != right && i == 0
    ensures CanSplit(GrowRoot(v, top), top, i, right, at)
    ensures var w := Split(GrowRoot(v, top), top, i, right, at);
            && Tree(w, cap, refs) && w.root == top && w.pages == pages[top := Internal([left, right], [sep])]
            && w.marks.Keys == v.marks.Keys + {right, top}
  {
    GrowReady(v, top, refs, cap);
    var g := GrowRoot(v, top);
    AbsorbCore(g, top, i, right, at, refs, cap);
    TwoChildren(left, sep, right, i);
    OccupiedAll(Split(g, top, i, right, at), cap, top);
  }

  /** Putting an entry into the leaf for its key: right except that the leaf may
      be one entry over. */
  lemma InsertedLeaf(v: View, leaf: PageId, e: Entry, refs: Refs, cap: Capacity) returns (w: View)
    requires Tree(v, cap, refs) && leaf in v.marks && leaf in v.pages && v.pages[leaf].Leaf?
    requires Covers(v.marks[leaf], e.key)
    ensures var es := InsertEntry(v.pages[leaf].entries, e);
            && Sorted(es) && |es| == |v.pages[leaf].entries| + 1 <= cap.leaf + 1
            && w == v.(pages := v.pages[leaf := Leaf(es, v.pages[leaf].next)])
            && Shape(w) && Holds(w, Added(refs, e.key, e.rid)) && Occupied(w, cap, {leaf})
            && (|es| <= cap.leaf ==> Tree(w, cap, Added(refs, e.key, e.rid)))
  {
    var es0 := v.pages[leaf].entries;
    var es := InsertEntry(es0, e);
    w := WriteLeaf(v, leaf, es);
    assert DownOk(v, leaf) && PageFits(v, cap, leaf);
    InsertEntrySorted(es0, e);
    assert forall i :: 0 <= i < |es| ==> es[i] == e || es[i] in es0;
    WriteLeafShape(v, leaf, es);
    InsertedHolds(v, leaf, e, refs);
    forall q | q in w.marks && q !in {leaf} ensures PageFits(w, cap, q) {
      assert PageFits(v, cap, q);
    }
    if |es| <= cap.leaf { OccupiedAll(w, cap, leaf); }
  }

  lemma InsertedHolds(v: View, leaf: PageId, e: Entry, refs: Refs)
    requires Shape(v) && Holds(v, refs) && leaf in v.marks && v.pages[leaf].Leaf?
    requires Covers(v.marks[leaf], e.key)
    ensures Holds(WriteLeaf(v, leaf, InsertEntry(v.pages[leaf].entries, e)), Added(refs, e.key, e.rid))
  {
    var es0 := v.pages[leaf].entries;
    assert DownOk(v, leaf) && LeafHolds(v, leaf, refs);
    forall x
      ensures RidsFor(InsertEntry(es0, e), x) ==
              if x == e.key then Under(Added(refs, e.key, e.rid), e.key) else RidsFor(es0, x)
    {
      InsertEntryRids(es0, e, x);
    }
    WriteLeafHolds(v, leaf, InsertEntry(es0, e), refs, e.key, Added(refs, e.key, e.rid));
  }

  /** An overfull leaf cannot be cut exactly when the key it was given already
      filled it. */
  lemma UncuttableLeaf(v: View, leaf: PageId, e: Entry, refs: Refs, cap: Capacity)
    requires Tree(v, cap, refs) && leaf in v.marks && leaf in v.pages && v.pages[leaf].Leaf?
    requires Covers(v.marks[leaf], e.key)
    ensures var es := InsertEntry(v.pages[leaf].entries, e);
            |Under(refs, e.key)| == cap.leaf <==> |es| > cap.leaf && AllEqual(es)
  {
    assert LeafHolds(v, leaf, refs) && PageFits(v, cap, leaf);
    FilledByOneKey(v.pages[leaf].entries, e, cap.leaf);
  }

  lemma FilledByOneKey(es0: seq<Entry>, e: Entry, most: nat)
    requires |es0| <= most
    ensures |RidsFor(es0, e.key)| == most <==> |InsertEntry(es0, e)| > most && AllEqual(InsertEntry(es0, e))
  {
    RidsForFull(es0, e.key);
    InsertAllEqual(es0, e);
  }

  lemma InsertAllEqual(es0: seq<Entry>, e: Entry)
    ensures |InsertEntry(es0, e)| == |es0| + 1
    ensures AllEqual(InsertEntry(es0, e)) <==> forall i :: 0 <= i < |es0| ==> es0[i].key == e.key
  {
    var es, pos := InsertEntry(es0, e), BisectRight(es0, e.key);
    assert es[pos] == e;
    forall i | 0 <= i < |es0| ensures es0[i] == es[if i < pos then i else i + 1] { }
    forall i | 0 <= i < |es| ensures es[i] == if i < pos then es0[i] else if i == pos then e else es0[i - 1] { }
  }

  /** Cutting an overfull leaf starts a pending split. */
  lemma LeafCut(v: View, w: View, leaf: PageId, es: seq<Entry>, refs: Refs, cap: Capacity, at: nat,
                newId: PageId, path: seq<PageId>)
    requires cap.Valid() && Shape(v) && Shape(w) && Holds(w, refs) && Occupied(w, cap, {leaf})
    requires leaf in v.marks && leaf in v.pages && v.pages[leaf].Leaf?
    requires w == v.(pages := v.pages[leaf := Leaf(es, v.pages[leaf].next)])
    requires Ancestors(v, path, leaf) && newId !in v.pages
    requires |es| == cap.leaf + 1 && Sorted(es) && IsSplitPoint(es, at)
    ensures Ancestors(w, path, leaf)
    ensures Pending(w, v.pages[newId := Leaf(es[at..], v.pages[leaf].next)][leaf := Leaf(es[..at], Some(newId))],
                    leaf, es[at].key, newId, at, refs, cap)
  {
    AncestorsFrame(v, w, path, leaf);
  }

  lemma SplitAncestors(v: View, p: PageId, i: nat, right: PageId, at: nat, path: seq<PageId>)
    requires Shape(v) && CanSplit(v, p, i, right, at) && Ancestors(v, path, p)
    ensures Ancestors(Split(v, p, i, right, at), path, p)
  {
    var w := Split(v, p, i, right, at);
    forall q | q in v.marks && v.marks[q].level >= v.marks[p].level
      ensures q in w.marks && w.marks[q] == v.marks[q]
    {
      SplitMarksAbove(v, p, i, right, at, q);
    }
    SplitPages(v, p, i, right, at);
    AncestorsFrame(v, w, path, p);
  }

  /** What the parent of a cut page becomes. */
  function ParentNode(pages: map<PageId, Node>, p: PageId, left: PageId, sep: Key, right: PageId): (r: Node)
    requires p in pages && pages[p].Internal? && |pages[p].children| == |pages[p].keys| + 1
    requires left in pages[p].children
  {
    InsertChild(pages[p], IndexOf(pages[p].children, left), sep, right)
  }

  /** `AbsorbStep` for the last page of an ancestor path. */
  lemma AbsorbInto(v: View, pages: map<PageId, Node>, left: PageId, sep: Key, right: PageId, at: nat,
                   refs: Refs, cap: Capacity, path: seq<PageId>) returns (w: View)
    requires Pending(v, pages, left, sep, right, at, refs, cap) && path != [] && Ancestors(v, path, left)
    ensures var p := path[|path| - 1];
            && p in pages && pages[p].Internal? && |pages[p].children| == |pages[p].keys| + 1
            && left in pages[p].children
            && w.pages == pages[p := ParentNode(pages, p, left, sep, right)] && w.root == v.root
            && Shape(w) && Holds(w, refs) && Occupied(w, cap, {p}) && p in w.marks
            && Ancestors(w, path[..|path| - 1], p)
            && |w.pages[p].keys| <= cap.inner + 1 && Starts(v.marks, w.marks)
            && (|w.pages[p].keys| <= cap.inner ==> Tree(w, cap, refs))
  {
    var p := path[|path| - 1];
    var s := SlotAt(v, left);
    ShapeHasSlot(v, p, s);
    AbsorbStep(v, pages, left, sep, right, at, refs, cap, s);
    w := Split(v, p, s, right, at);
    SplitStarts(v, p, s, right, at);
    SplitAncestors(v, p, s, right, at, path[..|path| - 1]);
    SlotsDistinct(v, p, IndexOf(pages[p].children, left), s);
  }

  lemma GrowInto(v: View, pages: map<PageId, Node>, left: PageId, sep: Key, right: PageId,
                 at: nat, refs: Refs, cap: Capacity, top: PageId) returns (w: View)
    requires Pending(v, pages, left, sep, right, at, refs, cap) && left == v.root && top !in pages
    ensures Tree(w, cap, refs) && w.root == top && w.pages == pages[top := Internal([left, right], [sep])]
    ensures Starts(v.marks, w.marks) && top in w.marks && w.marks[top].level > 0
  {
    PendingPages(v, pages, left, sep, right, at, refs, cap);
    var i := 0;
    GrowStep(v, pages, left, sep, right, at, refs, cap, top, i);
    w := Split(GrowRoot(v, top), top, i, right, at);
    GrowStarts(v, top);
    SplitStarts(GrowRoot(v, top), top, i, right, at);
    LevelKind(w, top);
  }

  /* ---------- what an insert leaves ---------- */

  /** The leaf of the key had room: it is all that changes. */
  ghost predicate TookInLeaf(v: View, w: View, leaf: PageId, e: Entry)
    requires leaf in v.pages && v.pages[leaf].Leaf?
  {
    w == v.(pages := v.pages[leaf := Leaf(InsertEntry(v.pages[leaf].entries, e), v.pages[leaf].next)])
  }

  /** The root was a full leaf: it is cut, and a new root stands over the halves. */
  ghost predicate TookInRoot(v: View, w: View, e: Entry, free: PageId, at: nat)
    requires v.root in v.pages && v.pages[v.root].Leaf?
  {
    var es := InsertEntry(v.pages[v.root].entries, e);
    && IsSplitPoint(es, at) && w.root == free + 1
    && w.pages == v.pages[free := Leaf(es[at..], v.pages[v.root].next)]
                         [v.root := Leaf(es[..at], Some(free))]
                         [free + 1 := Internal([v.root, free], [es[at].key])]
  }

  /** How a successful insert changes the tree, where a caller can tell in advance. */
  ghost predicate Took(v: View, w: View, cap: Capacity, e: Entry, free: PageId) {
    && Starts(v.marks, w.marks) && (w.root == v.root || (w.root in w.marks && w.marks[w.root].level > 0))
    && (forall p :: HasRoom(v, cap, e.key, p) ==> TookInLeaf(v, w, p, e))
    && (v.root in v.pages && v.pages[v.root].Leaf? && |v.pages[v.root].entries| >= cap.leaf ==>
          exists at :: TookInRoot(v, w, e, free, at))
  }

  /** `p` is the leaf for the key, and not full. */
  ghost predicate HasRoom(v: View, cap: Capacity, k: Key, p: PageId) {
    && p in v.marks && p in v.pages && v.pages[p].Leaf? && Covers(v.marks[p], k)
    && |v.pages[p].entries| < cap.leaf
  }

  lemma LeafOfKeyUnique(v: View, leaf: PageId, k: Key)
    requires Shape(v) && leaf in v.marks && leaf in v.pages && v.pages[leaf].Leaf? && Covers(v.marks[leaf], k)
    ensures forall p :: p in v.marks && p in v.pages && v.pages[p].Leaf? && Covers(v.marks[p], k) ==> p == leaf
    ensures v.root in v.pages && (v.pages[v.root].Leaf? ==> leaf == v.root)
  {
    LevelKind(v, leaf);
    LevelKind(v, v.root);
    assert UpOk(v, leaf);
    forall p | p in v.marks && p in v.pages && v.pages[p].Leaf? && Covers(v.marks[p], k) ensures p == leaf {
      LevelKind(v, p);
      OnePagePerKey(v, p, leaf, k);
    }
  }

  lemma TookWithRoom(v: View, w: View, cap: Capacity, leaf: PageId, e: Entry, free: PageId)
    requires Shape(v) && leaf in v.marks && leaf in v.pages && v.pages[leaf].Leaf? && Covers(v.marks[leaf], e.key)
    requires |v.pages[leaf].entries| < cap.leaf && TookInLeaf(v, w, leaf, e)
    ensures Took(v, w, cap, e, free)
  {
    LeafOfKeyUnique(v, leaf, e.key);
  }

  lemma TookByCut(v: View, w: View, cap: Capacity, leaf: PageId, e: Entry, free: PageId, at: nat)
    requires Shape(v) && leaf in v.marks && leaf in v.pages && v.pages[leaf].Leaf? && Covers(v.marks[leaf], e.key)
    requires |v.pages[leaf].entries| >= cap.leaf && Starts(v.marks, w.marks)
    requires w.root == v.root || (w.root in w.marks && w.marks[w.root].level > 0)
    requires leaf == v.root ==> TookInRoot(v, w, e, free, at)
    ensures Took(v, w, cap, e, free)
  {
    LeafOfKeyUnique(v, leaf, e.key);
  }

  /** Cutting an overfull internal page starts a pending split one level up. */
  lemma InnerCut(w: View, pages: map<PageId, Node>, p: PageId, node: Node, newId: PageId, refs: Refs, cap: Capacity)
    requires cap.Valid() && Shape(w) && Holds(w, refs) && Occupied(w, cap, {p}) && p in w.marks
    requires p in pages && w.pages == pages[p := node] && newId !in pages
    requires node.Internal? && |node.keys| == cap.inner + 1
    ensures |node.children| == |node.keys| + 1
    ensures var mid := |node.keys| / 2;
            Pending(w, pages[newId := Internal(node.children[mid + 1..], node.keys[mid + 1..])]
                            [p := Internal(node.children[..mid + 1], node.keys[..mid])],
                    p, node.keys[mid], newId, mid, refs, cap)
  {
    assert DownOk(w, p);
  }

  lemma PendingPages(v: View, pages: map<PageId, Node>, left: PageId, sep: Key, right: PageId,
                     at: nat, refs: Refs, cap: Capacity)
    requires Pending(v, pages, left, sep, right, at, refs, cap)
    ensures right in pages && v.marks.Keys <= pages.Keys
  {
  }
}
