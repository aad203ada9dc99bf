/** The page graph of a B+-tree and what makes it one.

    Every live page carries a ghost mark: its level above the leaves, the
    half-open key interval it is responsible for, and its parent page. The tree
    invariant is then local, one condition per page; global facts (one leaf per
    key, search reaches it, the leaf chain is in key order) are lemmas. */
module BTreeShape {
  import opened Sequences
  import opened BTreeEntries

  type PageId = nat

  /** A decoded page. `next` None stands for INVALID_PAGE_ID. */
  datatype Node =
    | Leaf(entries: seq<Entry>, next: Option<PageId>)
    | Internal(children: seq<PageId>, keys: seq<Key>)

  datatype Bound = NegInf | At(k: Key) | PosInf

  predicate Less(a: Bound, b: Bound) {
    match (a, b)
    case (NegInf, NegInf) => false
    case (NegInf, _) => true
    case (At(x), At(y)) => x < y
    case (At(_), PosInf) => true
    case _ => false
  }

  datatype Mark = Mark(level: nat, lo: Bound, hi: Bound, parent: PageId)

  /** `k` lies in the interval [lo, hi) of the mark. */
  predicate Covers(m: Mark, k: Key) {
    !Less(At(k), m.lo) && Less(At(k), m.hi)
  }

  datatype View = View(pages: map<PageId, Node>, root: PageId, marks: map<PageId, Mark>)

  /** The mark that slot `i` of an internal page `p` with mark `m` gives its child. */
  function ChildMark(m: Mark, p: PageId, keys: seq<Key>, i: nat): (r: Mark)
    requires m.level > 0 && i <= |keys|
  {
    Mark(m.level - 1,
         if i == 0 then m.lo else At(keys[i - 1]),
         if i == |keys| then m.hi else At(keys[i]),
         p)
  }

  ghost predicate LeafOk(v: View, p: PageId)
    requires p in v.marks && p in v.pages && v.pages[p].Leaf?
  {
    var m, n := v.marks[p], v.pages[p];
    && m.level == 0
    && Sorted(n.entries)
    && (forall i :: 0 <= i < |n.entries| ==> Covers(m, n.entries[i].key))
    && LinkOk(v, p)
  }

  /** The next leaf starts where this one ends. */
  ghost predicate LinkOk(v: View, p: PageId)
    requires p in v.marks && p in v.pages && v.pages[p].Leaf?
  {
    match v.pages[p].next
    case None => v.marks[p].hi == PosInf
    case Some(q) => q in v.marks && v.marks[q].level == 0 && v.marks[q].lo == v.marks[p].hi
  }

  ghost predicate InternalOk(v: View, p: PageId)
    requires p in v.marks && p in v.pages && v.pages[p].Internal?
  {
    var m, n := v.marks[p], v.pages[p];
    && m.level > 0
    && |n.children| == |n.keys| + 1
    && Ascending(n.keys)
    && (forall i :: 0 <= i < |n.keys| ==> Less(m.lo, At(n.keys[i])) && Less(At(n.keys[i]), m.hi))
    && (forall i :: 0 <= i < |n.children| ==> SlotOk(v, p, i))
  }

  ghost predicate SlotOk(v: View, p: PageId, i: nat)
    requires p in v.marks && p in v.pages && v.pages[p].Internal? && v.marks[p].level > 0
    requires i < |v.pages[p].children| == |v.pages[p].keys| + 1
  {
    var c := v.pages[p].children[i];
    c in v.marks && v.marks[c] == ChildMark(v.marks[p], p, v.pages[p].keys, i)
  }

  ghost predicate DownOk(v: View, p: PageId) {
    && p in v.marks && p in v.pages
    && Less(v.marks[p].lo, v.marks[p].hi)
    && (if v.pages[p].Leaf? then LeafOk(v, p) else InternalOk(v, p))
  }

  /** The root covers everything; every other live page hangs below its parent. */
  ghost predicate UpOk(v: View, p: PageId)
    requires p in v.marks && v.root in v.marks
  {
    var m := v.marks[p];
    if p == v.root then m.lo == NegInf && m.hi == PosInf && m.parent == p
    else
      && m.level < v.marks[v.root].level
      && m.parent in v.marks && m.parent in v.pages
      && v.pages[m.parent].Internal?
      && p in v.pages[m.parent].children
  }

  ghost predicate Shape(v: View) {
    && v.root in v.marks && v.marks.Keys <= v.pages.Keys
    && forall p {:trigger DownOk(v, p)} {:trigger UpOk(v, p)} :: p in v.marks ==> DownOk(v, p) && UpOk(v, p)
  }

  /* ---------- consequences ---------- */

  lemma SlotOfChild(v: View, p: PageId, i: nat)
    requires DownOk(v, p) && v.pages[p].Internal? && i < |v.pages[p].children|
    ensures SlotOk(v, p, i)
    ensures var c := v.pages[p].children[i];
            forall k :: Covers(v.marks[c], k) ==> Covers(v.marks[p], k)
  {
    assert SlotOk(v, p, i);
  }

  /** A page and a slot in it determine each other. */
  lemma SlotUnique(v: View, p: PageId, i: nat, j: nat, k: Key)
    requires DownOk(v, p) && v.pages[p].Internal?
    requires i < |v.pages[p].children| && j < |v.pages[p].children|
    requires SlotOk(v, p, i) && SlotOk(v, p, j)
    requires Covers(v.marks[v.pages[p].children[i]], k) && Covers(v.marks[v.pages[p].children[j]], k)
    ensures i == j
  {
  }

  lemma SlotAt(v: View, p: PageId) returns (i: nat)
    requires Shape(v) && p in v.marks && p != v.root
    ensures var q := v.marks[p].parent; DownOk(v, q) && v.pages[q].Internal?
    ensures var q := v.marks[p].parent; i < |v.pages[q].children| && v.pages[q].children[i] == p
    ensures v.marks[v.marks[p].parent].level == v.marks[p].level + 1
  {
    var q := v.marks[p].parent;
    assert UpOk(v, p) && DownOk(v, q);
    i :| 0 <= i < |v.pages[q].children| && v.pages[q].children[i] == p;
    assert SlotOk(v, q, i);
  }

  /** At each level, at most one live page covers a key. */
  lemma {:induction false} OnePagePerKey(v: View, p: PageId, q: PageId, k: Key)
    requires Shape(v) && p in v.marks && q in v.marks
    requires v.marks[p].level == v.marks[q].level
    requires Covers(v.marks[p], k) && Covers(v.marks[q], k)
    ensures p == q
    decreases v.marks[v.root].level - v.marks[p].level
  {
    assert UpOk(v, p) && UpOk(v, q);
    if p != v.root && q != v.root {
      var i := SlotAt(v, p);
      var j := SlotAt(v, q);
      var pp, qq := v.marks[p].parent, v.marks[q].parent;
      SlotOfChild(v, pp, i);
      SlotOfChild(v, qq, j);
      OnePagePerKey(v, pp, qq, k);
      SlotUnique(v, pp, i, j, k);
    }
  }

  function Witness(m: Mark): (k: Key)
    requires Less(m.lo, m.hi)
    ensures Covers(m, k)
    ensures m.lo.At? ==> k == m.lo.k
  {
    if m.lo.At? then m.lo.k else if m.hi.At? then m.hi.k - 1 else 0
  }

  /** Live pages of one level are determined by where they start. */
  lemma SameStart(v: View, p: PageId, q: PageId)
    requires Shape(v) && p in v.marks && q in v.marks
    requires v.marks[p].level == v.marks[q].level && v.marks[p].lo == v.marks[q].lo
    ensures p == q
  {
    var a, b := v.marks[p], v.marks[q];
    assert DownOk(v, p) && DownOk(v, q);
    var k := if a.lo.At? then a.lo.k
             else if a.hi.At? && b.hi.At? then (if a.hi.k < b.hi.k then a.hi.k else b.hi.k) - 1
             else if a.hi.At? then a.hi.k - 1 else if b.hi.At? then b.hi.k - 1 else 0;
    OnePagePerKey(v, p, q, k);
  }

  /** ... and by where they end. */
  lemma SameEnd(v: View, p: PageId, q: PageId)
    requires Shape(v) && p in v.marks && q in v.marks
    requires v.marks[p].level == v.marks[q].level && v.marks[p].hi == v.marks[q].hi
    ensures p == q
  {
    var a, b := v.marks[p], v.marks[q];
    assert DownOk(v, p) && DownOk(v, q);
    var k := if a.hi.At? then a.hi.k - 1
             else if a.lo.At? && b.lo.At? then (if a.lo.k < b.lo.k then b.lo.k else a.lo.k)
             else if a.lo.At? then a.lo.k else if b.lo.At? then b.lo.k else 0;
    OnePagePerKey(v, p, q, k);
  }

  lemma SlotsDistinct(v: View, p: PageId, i: nat, j: nat)
    requires DownOk(v, p) && v.pages[p].Internal?
    requires i < |v.pages[p].children| && j < |v.pages[p].children|
    requires v.pages[p].children[i] == v.pages[p].children[j]
    ensures i == j
  {
    assert SlotOk(v, p, i) && SlotOk(v, p, j);
    var m, ks := v.marks[p], v.pages[p].keys;
    assert ChildMark(m, p, ks, i) == ChildMark(m, p, ks, j);
  }

  /** A level-0 page is a leaf and the others are internal. */
  lemma LevelKind(v: View, p: PageId)
    requires Shape(v) && p in v.marks
    ensures p in v.pages && (v.pages[p].Leaf? <==> v.marks[p].level == 0)
  {
    assert DownOk(v, p);
  }
}
