/** Range scans: what a scan must return, and one leaf's share of it. */
module BTreeScan {
  import opened Sequences
  import opened BTreeEntries
  import opened BTreeShape
  import opened BTreeContents

  predicate InRange(start: Option<Key>, end: Option<Key>, k: Key) {
    (start.Some? ==> start.value <= k) && (end.Some? ==> k <= end.value)
  }

  /** `out` lists, in key order, exactly what `refs` has under the keys of the
      range that lie below `bound`. */
  ghost predicate Scanned(out: seq<Entry>, refs: Refs, start: Option<Key>, end: Option<Key>, bound: Bound) {
    && Sorted(out)
    && forall k :: RidsFor(out, k) ==
                   if Less(At(k), bound) && InRange(start, end, k) then Under(refs, k) else []
  }

  /** A scan is determined by the model. */
  lemma {:induction false} ScanUnique(a: seq<Entry>, b: seq<Entry>)
    requires Sorted(a) && Sorted(b) && forall k :: RidsFor(a, k) == RidsFor(b, k)
    ensures a == b
  {
    HeadsAgree(a, b);
    if a != [] {
      forall x ensures RidsFor(a[1..], x) == RidsFor(b[1..], x) {
        assert RidsFor(a, x) == RidsFor(b, x);
        if x == a[0].key {
          assert RidsFor(a, x)[1..] == RidsFor(a[1..], x);
          assert RidsFor(b, x)[1..] == RidsFor(b[1..], x);
        }
      }
      ScanUnique(a[1..], b[1..]);
      assert a == [a[0]] + a[1..] && b == [b[0]] + b[1..];
    }
  }

  lemma HeadRids(es: seq<Entry>, k: Key)
    requires Sorted(es)
    ensures es != [] && k == es[0].key ==> RidsFor(es, k) != [] && RidsFor(es, k)[0] == es[0].rid
    ensures es == [] || k < es[0].key ==> RidsFor(es, k) == []
  {
    if es == [] || k < es[0].key {
      RidsForAbsent(es, k);
    }
  }

  lemma HeadsAgree(a: seq<Entry>, b: seq<Entry>)
    requires Sorted(a) && Sorted(b) && forall k :: RidsFor(a, k) == RidsFor(b, k)
    ensures a == [] <==> b == []
    ensures a != [] ==> a[0] == b[0]
  {
    if a != [] { HeadRids(a, a[0].key); HeadRids(b, a[0].key); }
    if b != [] { HeadRids(a, b[0].key); HeadRids(b, b[0].key); }
  }

  function ScanStart(es: seq<Entry>, start: Option<Key>): (lo: nat)
    ensures lo <= |es|
  {
    if start.None? then 0 else BisectLeft(es, start.value)
  }

  /** From the start of the range on, the leaf has a key past its end. */
  ghost predicate PastEnd(es: seq<Entry>, start: Option<Key>, end: Option<Key>) {
    end.Some? && exists i :: ScanStart(es, start) <= i < |es| && es[i].key > end.value
  }

  /** The entries a leaf contributes: from the first key of the range up to, and
      not including, the first key past its end. */
  method LeafShare(es: seq<Entry>, start: Option<Key>, end: Option<Key>) returns (part: seq<Entry>, stop: bool)
    requires Sorted(es)
    ensures Sorted(part) && forall e :: e in part ==> e in es
    ensures stop <==> PastEnd(es, start, end)
    ensures forall k :: RidsFor(part, k) == if InRange(start, end, k) then RidsFor(es, k) else []
  {
    var lo := ScanStart(es, start);
    var i := lo;
    part := [];
    stop := false;
    while i < |es| && !stop
      invariant lo <= i <= |es|
      invariant part == es[lo..i]
      invariant forall j :: lo <= j < i ==> end.None? || es[j].key <= end.value
      invariant stop ==> i < |es| && end.Some? && es[i].key > end.value
      decreases |es| - i, !stop
    {
      if end.Some? && es[i].key > end.value {
        stop := true;
      } else {
        part := part + [es[i]];
        i := i + 1;
      }
    }
    forall k ensures RidsFor(part, k) == if InRange(start, end, k) then RidsFor(es, k) else [] {
      SliceShare(es, lo, i, start, end, k);
    }
  }

  lemma SliceShare(es: seq<Entry>, lo: nat, i: nat, start: Option<Key>, end: Option<Key>, k: Key)
    requires Sorted(es) && lo <= i <= |es|
    requires lo == ScanStart(es, start)
    requires forall j :: lo <= j < i ==> end.None? || es[j].key <= end.value
    requires i < |es| ==> end.Some? && es[i].key > end.value
    ensures RidsFor(es[lo..i], k) == if InRange(start, end, k) then RidsFor(es, k) else []
  {
    if InRange(start, end, k) {
      MiddleRids(es, lo, i, k);
    } else {
      RidsForAbsent(es[lo..i], k);
    }
  }

  /** Adding a leaf's share extends a scan from where the leaf starts to where it
      ends. */
  lemma ExtendScan(v: View, p: PageId, refs: Refs, out: seq<Entry>, part: seq<Entry>,
                   start: Option<Key>, end: Option<Key>)
    requires Shape(v) && Holds(v, refs) && p in v.marks && v.pages[p].Leaf?
    requires Scanned(out, refs, start, end, v.marks[p].lo)
    requires Sorted(part) && forall e :: e in part ==> e in v.pages[p].entries
    requires forall k :: RidsFor(part, k) == if InRange(start, end, k) then RidsFor(v.pages[p].entries, k) else []
    ensures Scanned(out + part, refs, start, end, v.marks[p].hi)
  {
    assert DownOk(v, p) && LeafHolds(v, p, refs);
    var m, es := v.marks[p], v.pages[p].entries;
    forall i | 0 <= i < |part| ensures Covers(m, part[i].key) {
      assert part[i] in part;
      var x :| 0 <= x < |es| && es[x] == part[i];
    }
    forall k ensures RidsFor(part, k) == if Covers(m, k) && InRange(start, end, k) then Under(refs, k) else [] {
      OutsideLeaf(m, es, k);
    }
    ExtendShare(m, refs, out, part, start, end);
  }

  /** The same about the leaf's bounds alone. */
  lemma ExtendShare(m: Mark, refs: Refs, out: seq<Entry>, part: seq<Entry>, start: Option<Key>, end: Option<Key>)
    requires Less(m.lo, m.hi) && Scanned(out, refs, start, end, m.lo)
    requires Sorted(part) && forall i :: 0 <= i < |part| ==> Covers(m, part[i].key)
    requires forall k :: RidsFor(part, k) == if Covers(m, k) && InRange(start, end, k) then Under(refs, k) else []
    ensures Scanned(out + part, refs, start, end, m.hi)
  {
    ScannedBelow(out, refs, start, end, m.lo);
    SortedConcat(m, out, part);
    var both := out + part;
    forall k ensures RidsFor(both, k) == if Less(At(k), m.hi) && InRange(start, end, k) then Under(refs, k) else [] {
      RidsForConcat(out, part, k);
      assert RidsFor(out, k) == if Less(At(k), m.lo) && InRange(start, end, k) then Under(refs, k) else [];
      ShareOfKey(m, k, RidsFor(out, k), RidsFor(part, k), InRange(start, end, k), Under(refs, k));
    }
  }

  /** A key below the leaf, in it, or behind it. */
  lemma ShareOfKey(m: Mark, k: Key, before: seq<RID>, here: seq<RID>, wanted: bool, all: seq<RID>)
    requires Less(m.lo, m.hi)
    requires before == if Less(At(k), m.lo) && wanted then all else []
    requires here == if Covers(m, k) && wanted then all else []
    ensures before + here == if Less(At(k), m.hi) && wanted then all else []
  {
    if Less(At(k), m.lo) {
      assert Less(At(k), m.hi) && !Covers(m, k);
    } else if Less(At(k), m.hi) {
      assert Covers(m, k);
    }
  }

  lemma ScannedBelow(out: seq<Entry>, refs: Refs, start: Option<Key>, end: Option<Key>, bound: Bound)
    requires Scanned(out, refs, start, end, bound)
    ensures forall i :: 0 <= i < |out| ==> Less(At(out[i].key), bound)
  {
    forall i | 0 <= i < |out| ensures Less(At(out[i].key), bound) {
      RidMeansEntry(out, out[i]);
    }
  }

  lemma OutsideLeaf(m: Mark, es: seq<Entry>, k: Key)
    requires forall i :: 0 <= i < |es| ==> Covers(m, es[i].key)
    ensures !Covers(m, k) ==> RidsFor(es, k) == []
  {
    if !Covers(m, k) {
      RidsForAbsent(es, k);
    }
  }

  lemma SortedConcat(m: Mark, out: seq<Entry>, part: seq<Entry>)
    requires Sorted(out) && Sorted(part)
    requires forall i :: 0 <= i < |out| ==> Less(At(out[i].key), m.lo)
    requires forall i :: 0 <= i < |part| ==> Covers(m, part[i].key)
    ensures Sorted(out + part)
  {
    forall i, j | 0 <= i < |out| && 0 <= j < |part| ensures out[i].key <= part[j].key {
      assert Less(At(out[i].key), m.lo) && Covers(m, part[j].key);
    }
  }

  /** Past the end of the range nothing is left to scan. */
  lemma StopScan(out: seq<Entry>, refs: Refs, start: Option<Key>, end: Option<Key>, bound: Bound)
    requires Scanned(out, refs, start, end, bound) && end.Some? && Less(At(end.value), bound)
    ensures Scanned(out, refs, start, end, PosInf)
  {
  }

  /** The live leaves that start at or after `bound`. */
  ghost function LeavesFrom(v: View, bound: Bound): (s: set<PageId>)
    ensures forall q :: q in s <==> q in v.marks && v.marks[q].level == 0 && !Less(v.marks[q].lo, bound)
  {
    set q | q in v.marks && v.marks[q].level == 0 && !Less(v.marks[q].lo, bound)
  }

  /** Following `next` leaves a leaf behind for good. */
  lemma ChainShrinks(v: View, p: PageId)
    requires Shape(v) && p in v.marks && v.pages[p].Leaf?
    ensures v.pages[p].next.Some? ==>
              var q := v.pages[p].next.value;
              && q in v.marks && v.pages[q].Leaf? && v.marks[q].lo == v.marks[p].hi
              && LeavesFrom(v, v.marks[q].lo) < LeavesFrom(v, v.marks[p].lo)
    ensures v.pages[p].next.None? ==> v.marks[p].hi == PosInf
  {
    assert DownOk(v, p) && LinkOk(v, p);
    if v.pages[p].next.Some? {
      var q := v.pages[p].next.value;
      LevelKind(v, q);
      var a, b := LeavesFrom(v, v.marks[q].lo), LeavesFrom(v, v.marks[p].lo);
      assert p in b && p !in a;
      assert a <= b;
    }
  }

  /** The loop of `range_scan` over the leaf chain, from leaf `first` on. */
  method ScanChain(pages: map<PageId, Node>, first: PageId, start: Option<Key>, end: Option<Key>, ghost v: View,
                   ghost refs: Refs)
    returns (out: seq<Entry>)
    requires Shape(v) && Holds(v, refs) && v.pages == pages
    requires first in v.marks && first in pages && pages[first].Leaf?
    requires Scanned([], refs, start, end, v.marks[first].lo)
    ensures Scanned(out, refs, start, end, PosInf)
  {
    var leaf := Some(first);
    out := [];
    ghost var todo := LeavesFrom(v, v.marks[first].lo);
    while leaf.Some?
      invariant leaf.Some? ==> leaf.value in v.marks && leaf.value in pages && pages[leaf.value].Leaf?
      invariant Scanned(out, refs, start, end, if leaf.Some? then v.marks[leaf.value].lo else PosInf)
      invariant leaf.Some? ==> todo == LeavesFrom(v, v.marks[leaf.value].lo)
      decreases leaf.Some?, todo
    {
      var n := pages[leaf.value];
      assert DownOk(v, leaf.value);
      var part, stop := LeafShare(n.entries, start, end);
      ExtendScan(v, leaf.value, refs, out, part, start, end);
      out := out + part;
      if stop {
        StopScan(out, refs, start, end, v.marks[leaf.value].hi);
        return;
      }
      ChainShrinks(v, leaf.value);
      leaf := n.next;
      todo := if leaf.Some? then LeavesFrom(v, v.marks[leaf.value].lo) else {};
    }
  }
}
