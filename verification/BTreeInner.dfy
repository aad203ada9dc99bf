/** Splitting and merging internal pages. */
module BTreeInner {
  import opened BTreeEntries
  import opened BTreeShape
  import opened BTreeSteps

  /* ---------- split ---------- */

  ghost predicate CanSplitInner(v: View, p: PageId, i: nat, right: PageId, at: nat) {
    && HasSlot(v, p, i) && right !in v.marks && v.pages[Child(v, p, i)].Internal?
    && at < |v.pages[Child(v, p, i)].keys| == |v.pages[Child(v, p, i)].children| - 1
  }

  /** Children of `c` at or above the separator move to the new page. */
  ghost function MoveUp(marks: map<PageId, Mark>, c: PageId, sep: Key, right: PageId): (r: map<PageId, Mark>)
    ensures r.Keys == marks.Keys
  {
    map x | x in marks ::
      if marks[x].parent == c && !Less(marks[x].lo, At(sep)) then marks[x].(parent := right) else marks[x]
  }

  ghost function SplitInner(v: View, p: PageId, i: nat, right: PageId, at: nat): (r: View)
    requires CanSplitInner(v, p, i, right, at)
  {
    var c := Child(v, p, i);
    var n, m := v.pages[c], v.marks[c];
    var sep := n.keys[at];
    View(v.pages[c := Internal(n.children[..at + 1], n.keys[..at])]
                [right := Internal(n.children[at + 1..], n.keys[at + 1..])]
                [p := InsertChild(v.pages[p], i, sep, right)],
         v.root,
         MoveUp(v.marks, c, sep, right)[c := m.(hi := At(sep))][right := m.(lo := At(sep))])
  }

  /** Facts about the split page that the cases below share. */
  lemma SplitInnerFacts(v: View, p: PageId, i: nat, right: PageId, at: nat)
    requires Shape(v) && CanSplitInner(v, p, i, right, at)
    ensures var c := Child(v, p, i); var sep := v.pages[c].keys[at];
            && DownOk(v, p) && DownOk(v, c) && c != p && c != v.root && right != p && right != c
            && v.marks[c].parent == p && v.marks[p].parent != c && v.marks[c].level == v.marks[p].level - 1
            && Less(v.marks[c].lo, At(sep)) && Less(At(sep), v.marks[c].hi)
            && v.marks[v.root].parent != c
  {
    ShapeHasSlot(v, p, i);
    var c := Child(v, p, i);
    assert DownOk(v, p) && DownOk(v, c) && UpOk(v, p) && UpOk(v, v.root);
    if v.marks[p].parent == c && p != v.root { var j := SlotAt(v, p); }
  }

  lemma SplitInnerLeft(v: View, p: PageId, i: nat, right: PageId, at: nat)
    requires CanSplitInner(v, p, i, right, at) && Child(v, p, i) != p
    requires DownOk(v, Child(v, p, i)) && v.marks[Child(v, p, i)].parent == p
    ensures DownOk(SplitInner(v, p, i, right, at), Child(v, p, i))
  {
    var w, c := SplitInner(v, p, i, right, at), Child(v, p, i);
    var n := v.pages[c];
    assert w.pages[c] == Internal(n.children[..at + 1], n.keys[..at]);
    forall j | 0 <= j < |w.pages[c].children| ensures SlotOk(w, c, j) {
      assert SlotOk(v, c, j);
    }
  }

  lemma SplitInnerRight(v: View, p: PageId, i: nat, right: PageId, at: nat)
    requires CanSplitInner(v, p, i, right, at) && Child(v, p, i) != p && right != p
    requires DownOk(v, Child(v, p, i)) && v.marks[Child(v, p, i)].parent == p
    ensures DownOk(SplitInner(v, p, i, right, at), right)
  {
    var w, c := SplitInner(v, p, i, right, at), Child(v, p, i);
    var n := v.pages[c];
    assert w.pages[right] == Internal(n.children[at + 1..], n.keys[at + 1..]);
    forall j | 0 <= j < |w.pages[right].children| ensures SlotOk(w, right, j) {
      assert SlotOk(v, c, at + 1 + j);
    }
  }

  lemma SplitInnerOther(v: View, p: PageId, i: nat, right: PageId, at: nat, q: PageId)
    requires CanSplitInner(v, p, i, right, at) && v.marks[Child(v, p, i)].parent == p
    requires DownOk(v, q) && q != p && q != Child(v, p, i)
    ensures DownOk(SplitInner(v, p, i, right, at), q)
  {
    var w, c := SplitInner(v, p, i, right, at), Child(v, p, i);
    assert w.marks[q] == v.marks[q].(parent := w.marks[q].parent);
    if v.pages[q].Internal? {
      forall j | 0 <= j < |v.pages[q].children| ensures SlotOk(w, q, j) {
        assert SlotOk(v, q, j);
      }
    } else {
      FrameRootLeaf(v, w, q);
    }
  }

  lemma SplitInnerUp(v: View, p: PageId, i: nat, right: PageId, at: nat, q: PageId)
    requires Shape(v) && CanSplitInner(v, p, i, right, at) && q in v.marks
    ensures UpOk(SplitInner(v, p, i, right, at), q)
  {
    var w, c := SplitInner(v, p, i, right, at), Child(v, p, i);
    var n := v.pages[c];
    var sep := n.keys[at];
    SplitInnerFacts(v, p, i, right, at);
    assert UpOk(v, q) && UpOk(v, c);
    InsertChildMembers(v.pages[p], i, sep, right, q);
    if v.marks[q].parent == c && q != v.root {
      var j := SlotAt(v, q);
      assert SlotOk(v, c, j);
      if j <= at {
        assert w.pages[c].children[j] == q;
      } else {
        assert w.pages[right].children[j - at - 1] == q;
      }
    }
  }

  lemma SplitInnerShape(v: View, p: PageId, i: nat, right: PageId, at: nat)
    requires Shape(v) && CanSplitInner(v, p, i, right, at)
    ensures Shape(SplitInner(v, p, i, right, at))
  {
    var w, c := SplitInner(v, p, i, right, at), Child(v, p, i);
    var sep := v.pages[c].keys[at];
    SplitInnerFacts(v, p, i, right, at);
    SplitInnerLeft(v, p, i, right, at);
    SplitInnerRight(v, p, i, right, at);
    assert SiblingsKept(v, w, p, {c}) by { ChildrenMarked(v, p); }
    SplitParent(v, w, p, i, sep, right);
    forall q | q in w.marks ensures DownOk(w, q) && UpOk(w, q) {
      if q == right {
        assert w.pages[p].children[i + 1] == right;
        assert UpOk(v, c);
      } else {
        if q != p && q != c {
          assert DownOk(v, q);
          SplitInnerOther(v, p, i, right, at, q);
        }
        SplitInnerUp(v, p, i, right, at, q);
      }
    }
  }

  /* ---------- merge ---------- */

  ghost predicate CanMergeInner(v: View, p: PageId, i: nat) {
    && HasSlot(v, p, i) && HasSlot(v, p, i + 1)
    && v.pages[Child(v, p, i)].Internal? && v.pages[Child(v, p, i + 1)].Internal?
  }

  ghost function Reparent(marks: map<PageId, Mark>, from: PageId, to: PageId): (r: map<PageId, Mark>)
    ensures r.Keys == marks.Keys
  {
    map x | x in marks :: if marks[x].parent == from then marks[x].(parent := to) else marks[x]
  }

  /** Two siblings glued together around their separator. */
  function Glue(a: Node, sep: Key, b: Node): (r: Node)
    requires a.Internal? && b.Internal?
  {
    Internal(a.children + b.children, a.keys + [sep] + b.keys)
  }

  ghost function MergeInner(v: View, p: PageId, i: nat): (r: View)
    requires CanMergeInner(v, p, i)
  {
    var a, b := Child(v, p, i), Child(v, p, i + 1);
    View(v.pages[a := Glue(v.pages[a], v.pages[p].keys[i], v.pages[b])]
                [p := DropChild(v.pages[p], i)],
         v.root,
         (Reparent(v.marks, b, a) - {b})[a := v.marks[a].(hi := v.marks[b].hi)])
  }

  lemma MergeInnerKeys(v: View, a: PageId, sep: Key, b: PageId)
    requires DownOk(v, a) && DownOk(v, b) && v.pages[a].Internal? && v.pages[b].Internal?
    requires v.marks[a].hi == v.marks[b].lo == At(sep)
    ensures var r := Glue(v.pages[a], sep, v.pages[b]);
            && |r.children| == |r.keys| + 1 && Ascending(r.keys)
            && forall j :: 0 <= j < |r.keys| ==>
              Less(v.marks[a].lo, At(r.keys[j])) && Less(At(r.keys[j]), v.marks[b].hi)
  {
    var xs, ys := v.pages[a].keys, v.pages[b].keys;
    var ks := xs + [sep] + ys;
    forall j | 0 <= j < |ks|
      ensures ks[j] == if j < |xs| then xs[j] else if j == |xs| then sep else ys[j - |xs| - 1]
    {
    }
  }

  lemma MergeInnerResult(v: View, p: PageId, i: nat)
    requires CanMergeInner(v, p, i) && Adjacent(v, p, i)
    ensures DownOk(MergeInner(v, p, i), Child(v, p, i))
  {
    var w, a, b := MergeInner(v, p, i), Child(v, p, i), Child(v, p, i + 1);
    var sep := v.pages[p].keys[i];
    MergeInnerKeys(v, a, sep, b);
    assert w.pages[a] == Glue(v.pages[a], sep, v.pages[b]);
    var na := |v.pages[a].children|;
    forall j | 0 <= j < |w.pages[a].children| ensures SlotOk(w, a, j) {
      if j < na {
        assert SlotOk(v, a, j);
      } else {
        assert SlotOk(v, b, j - na);
      }
    }
  }

  lemma MergeInnerOther(v: View, p: PageId, i: nat, q: PageId)
    requires CanMergeInner(v, p, i) && Adjacent(v, p, i) && DownOk(v, q)
    requires q != p && q != Child(v, p, i) && q != Child(v, p, i + 1)
    ensures DownOk(MergeInner(v, p, i), q)
  {
    var w := MergeInner(v, p, i);
    assert w.marks[q] == v.marks[q].(parent := w.marks[q].parent);
    if v.pages[q].Internal? {
      forall j | 0 <= j < |v.pages[q].children| ensures SlotOk(w, q, j) {
        assert SlotOk(v, q, j);
      }
    } else {
      FrameRootLeaf(v, w, q);
    }
  }

  lemma MergeInnerUp(v: View, p: PageId, i: nat, q: PageId)
    requires CanMergeInner(v, p, i) && Adjacent(v, p, i) && q in v.marks && q != Child(v, p, i + 1)
    requires UpOk(v, q) && UpOk(v, v.root)
    ensures v.root in MergeInner(v, p, i).marks && UpOk(MergeInner(v, p, i), q)
  {
    var w, a, b := MergeInner(v, p, i), Child(v, p, i), Child(v, p, i + 1);
    if q != v.root {
      var m := v.marks[q].parent;
      if m == p {
        DropChildMembers(v.pages[p], i, q);
      } else if m == a || m == b {
        assert w.pages[a].children == v.pages[a].children + v.pages[b].children;
      }
    }
  }

  lemma MergeInnerShape(v: View, p: PageId, i: nat)
    requires Shape(v) && CanMergeInner(v, p, i)
    ensures Shape(MergeInner(v, p, i))
  {
    var w, a, b := MergeInner(v, p, i), Child(v, p, i), Child(v, p, i + 1);
    Neighbours(v, p, i);
    MergeInnerResult(v, p, i);
    assert v.marks[p].parent != b by {
      assert UpOk(v, p);
      if p != v.root { var j := SlotAt(v, p); }
    }
    assert SiblingsKept(v, w, p, {a, b}) by { ChildrenMarked(v, p); }
    MergeParent(v, w, p, i);
    forall q | q in w.marks ensures DownOk(w, q) && UpOk(w, q) {
      if q != p && q != a {
        assert DownOk(v, q);
        MergeInnerOther(v, p, i, q);
      }
      assert UpOk(v, q) && UpOk(v, v.root);
      MergeInnerUp(v, p, i, q);
    }
  }
}
