/** The structural steps of the tree, as functions on views, and the proof that
    each keeps the tree invariant. Borrowing, rotation and redistribution are a
    merge of two siblings followed by a split at another point. */
module BTreeSteps {
  import opened Sequences
  import opened BTreeEntries
  import opened BTreeShape

  ghost predicate HasSlot(v: View, p: PageId, i: nat) {
    && p in v.marks && p in v.pages && v.pages[p].Internal?
    && |v.pages[p].children| == |v.pages[p].keys| + 1 && i < |v.pages[p].children|
    && v.pages[p].children[i] in v.marks && v.pages[p].children[i] in v.pages
  }

  /** Child `i` of `p`. */
  ghost function Child(v: View, p: PageId, i: nat): (c: PageId)
    requires HasSlot(v, p, i)
  {
    v.pages[p].children[i]
  }

  lemma ShapeHasSlot(v: View, p: PageId, i: nat)
    requires Shape(v) && p in v.marks && v.pages[p].Internal? && i < |v.pages[p].children|
    ensures HasSlot(v, p, i) && DownOk(v, p) && SlotOk(v, p, i)
    ensures Child(v, p, i) != p && Child(v, p, i) != v.root
    ensures v.marks[Child(v, p, i)].level == v.marks[p].level - 1
  {
    assert DownOk(v, p) && SlotOk(v, p, i);
    var c := v.pages[p].children[i];
    assert DownOk(v, c) && UpOk(v, c) && UpOk(v, p);
  }

  function InsertChild(n: Node, i: nat, sep: Key, c: PageId): (r: Node)
    requires n.Internal? && |n.children| == |n.keys| + 1 && i < |n.children|
  {
    Internal(n.children[..i + 1] + [c] + n.children[i + 1..], n.keys[..i] + [sep] + n.keys[i..])
  }

  function DropChild(n: Node, i: nat): (r: Node)
    requires n.Internal? && |n.children| == |n.keys| + 1 && i + 1 < |n.children|
  {
    Internal(n.children[..i + 1] + n.children[i + 2..], n.keys[..i] + n.keys[i + 1..])
  }

  lemma ChildrenMarked(v: View, q: PageId)
    requires DownOk(v, q) && v.pages[q].Internal?
    ensures forall j :: 0 <= j < |v.pages[q].children| ==>
              && v.pages[q].children[j] in v.marks
              && v.marks[v.pages[q].children[j]].parent == q
              && v.marks[v.pages[q].children[j]].level == v.marks[q].level - 1
  {
    forall j | 0 <= j < |v.pages[q].children|
      ensures v.pages[q].children[j] in v.marks
      ensures v.marks[v.pages[q].children[j]].parent == q
      ensures v.marks[v.pages[q].children[j]].level == v.marks[q].level - 1
    {
      assert SlotOk(v, q, j);
    }
  }

  ghost predicate SamePage(v: View, w: View, q: PageId) {
    && q in v.marks && q in v.pages && q in w.marks && q in w.pages
    && w.marks[q] == v.marks[q] && w.pages[q] == v.pages[q]
  }

  /** A page whose own bytes, mark and children's marks are untouched stays in order. */
  lemma FrameInternal(v: View, w: View, q: PageId)
    requires DownOk(v, q) && SamePage(v, w, q) && v.pages[q].Internal?
    requires forall j :: 0 <= j < |v.pages[q].children| ==>
               var c := v.pages[q].children[j];
               c in v.marks && c in w.marks && w.marks[c] == v.marks[c]
    ensures DownOk(w, q)
  {
    forall j | 0 <= j < |v.pages[q].children| ensures SlotOk(w, q, j) {
      assert SlotOk(v, q, j);
    }
  }

  lemma FrameLeaf(v: View, w: View, q: PageId)
    requires DownOk(v, q) && SamePage(v, w, q) && v.pages[q].Leaf?
    requires v.pages[q].next.Some? ==>
               var x := v.pages[q].next.value;
               x in w.marks && w.marks[x].level == v.marks[x].level && w.marks[x].lo == v.marks[x].lo
    ensures DownOk(w, q)
  {
  }

  /** What splitting slot `i` does to the children and marks of a parent. */
  lemma InsertChildSlot(m: Mark, p: PageId, n: Node, i: nat, sep: Key, c: PageId, j: nat)
    requires n.Internal? && |n.children| == |n.keys| + 1 && i < |n.children| && m.level > 0
    requires j <= |n.children|
    ensures var r := InsertChild(n, i, sep, c);
            && |r.children| == |r.keys| + 1 == |n.children| + 1
            && r.children[j] == (if j <= i then n.children[j] else if j == i + 1 then c else n.children[j - 1])
            && ChildMark(m, p, r.keys, j) ==
               if j < i then ChildMark(m, p, n.keys, j)
               else if j == i then ChildMark(m, p, n.keys, i).(hi := At(sep))
               else if j == i + 1 then ChildMark(m, p, n.keys, i).(lo := At(sep))
               else ChildMark(m, p, n.keys, j - 1)
  {
  }

  /** A separator inside slot `i` keeps the separators ascending and in bounds. */
  lemma InsertChildKeys(v: View, p: PageId, i: nat, sep: Key, c: PageId)
    requires DownOk(v, p) && HasSlot(v, p, i)
    requires var m := v.marks[Child(v, p, i)]; Less(m.lo, At(sep)) && Less(At(sep), m.hi)
    ensures var r := InsertChild(v.pages[p], i, sep, c);
            && Ascending(r.keys)
            && forall j :: 0 <= j < |r.keys| ==>
              Less(v.marks[p].lo, At(r.keys[j])) && Less(At(r.keys[j]), v.marks[p].hi)
  {
    assert DownOk(v, p) && SlotOk(v, p, i);
  }

  lemma InsertChildMembers(n: Node, i: nat, sep: Key, c: PageId, q: PageId)
    requires n.Internal? && |n.children| == |n.keys| + 1 && i < |n.children|
    ensures q in InsertChild(n, i, sep, c).children <==> q == c || q in n.children
  {
    assert n.children == n.children[..i + 1] + n.children[i + 1..];
  }

  /** Marks of the siblings of child `c` of `p` carry over. */
  ghost predicate SiblingsKept(v: View, w: View, p: PageId, gone: set<PageId>)
    requires p in v.pages && v.pages[p].Internal?
  {
    forall j :: 0 <= j < |v.pages[p].children| ==>
      var x := v.pages[p].children[j];
      x !in gone ==> x in v.marks && x in w.marks && w.marks[x] == v.marks[x]
  }

  lemma SplitParent(v: View, w: View, p: PageId, i: nat, sep: Key, right: PageId)
    requires DownOk(v, p) && HasSlot(v, p, i) && p in w.marks && p in w.pages && right in w.marks
    requires var m := v.marks[Child(v, p, i)]; Less(m.lo, At(sep)) && Less(At(sep), m.hi)
    requires w.marks[p] == v.marks[p] && w.pages[p] == InsertChild(v.pages[p], i, sep, right)
    requires Child(v, p, i) in w.marks && w.marks[Child(v, p, i)] == v.marks[Child(v, p, i)].(hi := At(sep))
    requires w.marks[right] == v.marks[Child(v, p, i)].(lo := At(sep))
    requires SiblingsKept(v, w, p, {Child(v, p, i)})
    ensures DownOk(w, p)
  {
    var c := Child(v, p, i);
    assert SlotOk(v, p, i);
    InsertChildKeys(v, p, i, sep, right);
    InsertChildSlot(v.marks[p], p, v.pages[p], i, sep, right, 0);
    forall j | 0 <= j < |w.pages[p].children| ensures SlotOk(w, p, j) {
      InsertChildSlot(v.marks[p], p, v.pages[p], i, sep, right, j);
      if j != i && j != i + 1 {
        var j0 := if j < i then j else j - 1;
        assert SlotOk(v, p, j0);
        if v.pages[p].children[j0] == c { SlotsDistinct(v, p, j0, i); }
      }
    }
  }

  lemma DropChildSlot(m: Mark, p: PageId, n: Node, i: nat, j: nat)
    requires n.Internal? && |n.children| == |n.keys| + 1 && i + 1 < |n.children| && m.level > 0
    requires j + 1 < |n.children|
    ensures var r := DropChild(n, i);
            && |r.children| == |r.keys| + 1 == |n.children| - 1
            && r.children[j] == (if j <= i then n.children[j] else n.children[j + 1])
            && ChildMark(m, p, r.keys, j) ==
               if j < i then ChildMark(m, p, n.keys, j)
               else if j == i then ChildMark(m, p, n.keys, i).(hi := ChildMark(m, p, n.keys, i + 1).hi)
               else ChildMark(m, p, n.keys, j + 1)
  {
  }

  lemma DropChildMembers(n: Node, i: nat, q: PageId)
    requires n.Internal? && |n.children| == |n.keys| + 1 && i + 1 < |n.children|
    ensures q in n.children && q != n.children[i + 1] ==> q in DropChild(n, i).children
  {
    assert n.children == n.children[..i + 1] + [n.children[i + 1]] + n.children[i + 2..];
  }

  lemma MergeParent(v: View, w: View, p: PageId, i: nat)
    requires DownOk(v, p) && HasSlot(v, p, i) && HasSlot(v, p, i + 1) && p in w.marks && p in w.pages
    requires w.marks[p] == v.marks[p] && w.pages[p] == DropChild(v.pages[p], i)
    requires Child(v, p, i) in w.marks
    requires w.marks[Child(v, p, i)] == v.marks[Child(v, p, i)].(hi := v.marks[Child(v, p, i + 1)].hi)
    requires SiblingsKept(v, w, p, {Child(v, p, i), Child(v, p, i + 1)})
    ensures DownOk(w, p)
  {
    assert SlotOk(v, p, i) && SlotOk(v, p, i + 1);
    DropChildSlot(v.marks[p], p, v.pages[p], i, 0);
    forall j | 0 <= j < |w.pages[p].children| ensures SlotOk(w, p, j) {
      DropChildSlot(v.marks[p], p, v.pages[p], i, j);
      if j != i {
        var j0 := if j < i then j else j + 1;
        assert SlotOk(v, p, j0);
        if v.pages[p].children[j0] == Child(v, p, i) { SlotsDistinct(v, p, j0, i); }
        if v.pages[p].children[j0] == Child(v, p, i + 1) { SlotsDistinct(v, p, j0, i + 1); }
      }
    }
  }

  /* ---------- leaf split ---------- */

  ghost predicate CanSplitLeaf(v: View, p: PageId, i: nat, right: PageId, at: nat) {
    && HasSlot(v, p, i) && right !in v.marks && v.pages[Child(v, p, i)].Leaf?
    && var es := v.pages[Child(v, p, i)].entries;
       0 < at < |es| && es[at - 1].key < es[at].key
  }

  ghost function SplitLeaf(v: View, p: PageId, i: nat, right: PageId, at: nat): (r: View)
    requires CanSplitLeaf(v, p, i, right, at)
  {
    var c := Child(v, p, i);
    var n, m := v.pages[c], v.marks[c];
    var sep := n.entries[at].key;
    View(v.pages[c := Leaf(n.entries[..at], Some(right))]
                [right := Leaf(n.entries[at..], n.next)]
                [p := InsertChild(v.pages[p], i, sep, right)],
         v.root,
         v.marks[c := m.(hi := At(sep))][right := m.(lo := At(sep))])
  }

  lemma SplitLeafHalves(v: View, p: PageId, i: nat, right: PageId, at: nat)
    requires CanSplitLeaf(v, p, i, right, at) && Child(v, p, i) != p
    requires DownOk(v, Child(v, p, i))
    ensures var w := SplitLeaf(v, p, i, right, at); DownOk(w, Child(v, p, i)) && DownOk(w, right)
  {
    var c := Child(v, p, i);
    var es := v.pages[c].entries;
    assert LinkOk(v, c);
    assert Covers(v.marks[c], es[at - 1].key) && Covers(v.marks[c], es[at].key);
  }

  lemma SplitLeafOther(v: View, p: PageId, i: nat, right: PageId, at: nat, q: PageId)
    requires CanSplitLeaf(v, p, i, right, at) && v.marks[Child(v, p, i)].parent == p
    requires DownOk(v, q) && q != p && q != Child(v, p, i)
    ensures DownOk(SplitLeaf(v, p, i, right, at), q)
  {
    var w := SplitLeaf(v, p, i, right, at);
    if v.pages[q].Internal? {
      ChildrenMarked(v, q);
      FrameInternal(v, w, q);
    } else {
      FrameLeaf(v, w, q);
    }
  }

  lemma SplitLeafShape(v: View, p: PageId, i: nat, right: PageId, at: nat)
    requires Shape(v) && CanSplitLeaf(v, p, i, right, at)
    ensures Shape(SplitLeaf(v, p, i, right, at))
  {
    var w := SplitLeaf(v, p, i, right, at);
    var c := Child(v, p, i);
    var sep := v.pages[c].entries[at].key;
    ShapeHasSlot(v, p, i);
    assert DownOk(v, c) && DownOk(v, p) && UpOk(v, c);
    SplitLeafHalves(v, p, i, right, at);
    assert SiblingsKept(v, w, p, {c}) by { ChildrenMarked(v, p); }
    SplitParent(v, w, p, i, sep, right);
    forall q | q in w.marks ensures DownOk(w, q) && UpOk(w, q) {
      if q == right {
        assert w.pages[p].children[i + 1] == right;
      } else {
        if q != p && q != c { SplitLeafOther(v, p, i, right, at, q); }
        assert UpOk(v, q);
        InsertChildMembers(v.pages[p], i, sep, right, q);
      }
    }
  }

  /* ---------- leaf merge ---------- */

  ghost predicate CanMergeLeaf(v: View, p: PageId, i: nat) {
    && HasSlot(v, p, i) && HasSlot(v, p, i + 1)
    && v.pages[Child(v, p, i)].Leaf? && v.pages[Child(v, p, i + 1)].Leaf?
  }

  ghost function MergeLeaf(v: View, p: PageId, i: nat): (r: View)
    requires CanMergeLeaf(v, p, i)
  {
    var a, b := Child(v, p, i), Child(v, p, i + 1);
    View(v.pages[a := Leaf(v.pages[a].entries + v.pages[b].entries, v.pages[b].next)]
                [p := DropChild(v.pages[p], i)],
         v.root,
         (v.marks - {b})[a := v.marks[a].(hi := v.marks[b].hi)])
  }

  /** Neighbouring slots: what the merge steps need to know about them. */
  ghost predicate Adjacent(v: View, p: PageId, i: nat) {
    && HasSlot(v, p, i) && HasSlot(v, p, i + 1) && v.root in v.marks
    && var a, b := Child(v, p, i), Child(v, p, i + 1);
       && a != b && a != p && b != p && a != v.root && b != v.root
       && DownOk(v, p) && DownOk(v, a) && DownOk(v, b)
       && v.marks[a].hi == v.marks[b].lo == At(v.pages[p].keys[i])
       && v.marks[a].parent == v.marks[b].parent == p
       && v.marks[a].level == v.marks[b].level == v.marks[p].level - 1
  }

  lemma Neighbours(v: View, p: PageId, i: nat)
    requires Shape(v) && HasSlot(v, p, i) && HasSlot(v, p, i + 1)
    ensures Adjacent(v, p, i)
  {
    ShapeHasSlot(v, p, i);
    ShapeHasSlot(v, p, i + 1);
    assert DownOk(v, p) && DownOk(v, Child(v, p, i)) && DownOk(v, Child(v, p, i + 1));
  }

  lemma MergeLeafResult(v: View, p: PageId, i: nat)
    requires CanMergeLeaf(v, p, i) && Adjacent(v, p, i)
    ensures DownOk(MergeLeaf(v, p, i), Child(v, p, i))
  {
    var w, a, b := MergeLeaf(v, p, i), Child(v, p, i), Child(v, p, i + 1);
    var xs, ys := v.pages[a].entries, v.pages[b].entries;
    assert w.pages[a] == Leaf(xs + ys, v.pages[b].next);
    assert LinkOk(v, b);
    assert LinkOk(w, a);
    forall x | 0 <= x < |xs| ensures Less(At(xs[x].key), v.marks[a].hi) {
      assert Covers(v.marks[a], xs[x].key);
    }
  }

  /** Only its left neighbour links to a leaf. */
  lemma OnlyLink(v: View, p: PageId, i: nat, q: PageId)
    requires Shape(v) && CanMergeLeaf(v, p, i) && q in v.marks && v.pages[q].Leaf?
    requires v.pages[q].next == Some(Child(v, p, i + 1))
    ensures q == Child(v, p, i)
  {
    Neighbours(v, p, i);
    assert DownOk(v, q) && LinkOk(v, q);
    SameEnd(v, q, Child(v, p, i));
  }

  lemma MergeLeafOther(v: View, p: PageId, i: nat, q: PageId)
    requires CanMergeLeaf(v, p, i) && Adjacent(v, p, i) && DownOk(v, q)
    requires q != p && q != Child(v, p, i) && q != Child(v, p, i + 1)
    requires v.pages[q].Leaf? ==> v.pages[q].next != Some(Child(v, p, i + 1))
    ensures DownOk(MergeLeaf(v, p, i), q)
  {
    var w := MergeLeaf(v, p, i);
    if v.pages[q].Internal? {
      ChildrenMarked(v, q);
      FrameInternal(v, w, q);
    } else {
      FrameLeaf(v, w, q);
    }
  }

  lemma MergeLeafShape(v: View, p: PageId, i: nat)
    requires Shape(v) && CanMergeLeaf(v, p, i)
    ensures Shape(MergeLeaf(v, p, i))
  {
    var w, a, b := MergeLeaf(v, p, i), Child(v, p, i), Child(v, p, i + 1);
    Neighbours(v, p, i);
    MergeLeafResult(v, p, i);
    assert SiblingsKept(v, w, p, {a, b}) by { ChildrenMarked(v, p); }
    MergeParent(v, w, p, i);
    forall q | q in w.marks ensures DownOk(w, q) && UpOk(w, q) {
      assert DownOk(v, q) && UpOk(v, q);
      if q != p && q != a {
        if v.pages[q].Leaf? && v.pages[q].next == Some(b) { OnlyLink(v, p, i, q); }
        MergeLeafOther(v, p, i, q);
      }
      DropChildMembers(v.pages[p], i, q);
    }
  }

  /* ---------- root growth and shrinking, leaf rewriting ---------- */

  ghost function GrowRoot(v: View, top: PageId): (r: View)
    requires v.root in v.marks
  {
    View(v.pages[top := Internal([v.root], [])], top,
         v.marks[v.root := v.marks[v.root].(parent := top)]
                [top := Mark(v.marks[v.root].level + 1, NegInf, PosInf, top)])
  }

  lemma GrowRootShape(v: View, top: PageId)
    requires Shape(v) && top !in v.marks
    ensures Shape(GrowRoot(v, top))
  {
    var w := GrowRoot(v, top);
    assert UpOk(v, v.root);
    forall q | q in w.marks ensures DownOk(w, q) && UpOk(w, q) {
      if q == top {
        assert SlotOk(w, top, 0);
      } else {
        assert DownOk(v, q) && UpOk(v, q);
        if v.pages[q].Internal? {
          forall j | 0 <= j < |v.pages[q].children| ensures SlotOk(w, q, j) {
            ShapeHasSlot(v, q, j);
          }
        } else {
          FrameRootLeaf(v, w, q);
        }
      }
    }
  }

  lemma FrameRootLeaf(v: View, w: View, q: PageId)
    requires DownOk(v, q) && q in w.marks && q in w.pages && w.pages[q] == v.pages[q] && v.pages[q].Leaf?
    requires w.marks[q] == v.marks[q].(parent := w.marks[q].parent)
    requires v.pages[q].next.Some? ==>
               var x := v.pages[q].next.value;
               x in w.marks && w.marks[x].level == v.marks[x].level && w.marks[x].lo == v.marks[x].lo
    ensures DownOk(w, q)
  {
  }

  ghost predicate CanShrinkRoot(v: View) {
    && v.root in v.marks && v.root in v.pages
    && v.pages[v.root].Internal? && v.pages[v.root].keys == [] && |v.pages[v.root].children| == 1
    && v.pages[v.root].children[0] in v.marks
  }

  ghost function ShrinkRoot(v: View): (r: View)
    requires CanShrinkRoot(v)
  {
    var c := v.pages[v.root].children[0];
    View(v.pages, c, (v.marks - {v.root})[c := v.marks[c].(parent := c)])
  }

  lemma ShrinkRootShape(v: View)
    requires Shape(v) && CanShrinkRoot(v)
    ensures Shape(ShrinkRoot(v))
  {
    var w, r := ShrinkRoot(v), v.root;
    var c := v.pages[r].children[0];
    ShapeHasSlot(v, r, 0);
    assert UpOk(v, r);
    forall q | q in w.marks ensures DownOk(w, q) && UpOk(w, q) {
      assert DownOk(v, q) && UpOk(v, q);
      if q != c && v.marks[q].parent == r {
        var j := SlotAt(v, q);
        assert false;
      }
      OnlyChildIsTop(v, q);
      if v.pages[q].Internal? {
        forall j | 0 <= j < |v.pages[q].children| ensures SlotOk(w, q, j) {
          ShapeHasSlot(v, q, j);
        }
      } else {
        FrameRootLeaf(v, w, q);
      }
    }
  }

  /** Below a root with a single child, every other page is lower than that child. */
  lemma {:induction false} OnlyChildIsTop(v: View, q: PageId)
    requires Shape(v) && CanShrinkRoot(v) && q in v.marks && q != v.root
    ensures q != v.pages[v.root].children[0] ==> v.marks[q].level < v.marks[v.pages[v.root].children[0]].level
    decreases v.marks[v.root].level - v.marks[q].level
  {
    var c := v.pages[v.root].children[0];
    ShapeHasSlot(v, v.root, 0);
    assert UpOk(v, q) && UpOk(v, v.root) && UpOk(v, c);
    if q != c && v.marks[q].level == v.marks[c].level {
      OnePagePerKey(v, q, c, (assert DownOk(v, q); Witness(v.marks[q])));
    }
  }

  ghost function WriteLeaf(v: View, p: PageId, es: seq<Entry>): (r: View)
    requires p in v.pages && v.pages[p].Leaf?
  {
    v.(pages := v.pages[p := v.pages[p].(entries := es)])
  }

  lemma WriteLeafShape(v: View, p: PageId, es: seq<Entry>)
    requires Shape(v) && p in v.marks && v.pages[p].Leaf?
    requires Sorted(es) && forall i :: 0 <= i < |es| ==> Covers(v.marks[p], es[i].key)
    ensures Shape(WriteLeaf(v, p, es))
  {
    var w := WriteLeaf(v, p, es);
    forall q | q in w.marks ensures DownOk(w, q) && UpOk(w, q) {
      assert DownOk(v, q) && UpOk(v, q);
      if v.pages[q].Internal? {
        ChildrenMarked(v, q);
        FrameInternal(v, w, q);
      }
    }
  }
}
