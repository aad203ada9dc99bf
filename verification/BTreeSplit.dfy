/** Where a leaf may be cut: split points and runs of equal keys. */
module BTreeSplit {
  import opened Sequences
  import opened BTreeEntries

  /** Cutting at `s` separates two different keys. */
  ghost predicate Boundary(es: seq<Entry>, s: int) {
    0 < s < |es| && es[s - 1].key != es[s].key
  }

  ghost predicate AllEqual(es: seq<Entry>) {
    forall i :: 0 <= i < |es| ==> es[i].key == es[0].key
  }

  /** `s` is the first boundary at or after the middle or, when there is none,
      the last boundary before it. */
  ghost predicate IsSplitPoint(es: seq<Entry>, s: int) {
    && Boundary(es, s)
    && (forall x :: |es| / 2 <= x < s ==> !Boundary(es, x))
    && (s < |es| / 2 ==> forall x :: s < x < |es| ==> !Boundary(es, x))
  }

  /** `_split_point_avoiding_duplicates`: None stands for its ValueError. */
  method SplitPoint(es: seq<Entry>) returns (r: Option<nat>)
    requires Sorted(es) && |es| >= 2
    ensures r.None? <==> AllEqual(es)
    ensures r.Some? ==> IsSplitPoint(es, r.value)
  {
    var n := |es|;
    var mid := n / 2;
    if es[mid].key != es[mid - 1].key {
      return Some(mid);
    }
    var i := mid;
    while i < n && es[i].key == es[mid - 1].key
      invariant mid <= i <= n
      invariant forall x :: mid - 1 <= x < i ==> es[x].key == es[mid - 1].key
    {
      i := i + 1;
    }
    if i < n {
      return Some(i);
    }
    var j := mid - 1;
    while j > 0 && es[j - 1].key == es[mid - 1].key
      invariant 0 <= j <= mid - 1
      invariant forall x :: j <= x < n ==> es[x].key == es[mid - 1].key
    {
      j := j - 1;
    }
    if j > 0 {
      return Some(j);
    }
    return None;
  }

  lemma SplitPointUnique(es: seq<Entry>, s: int, t: int)
    requires IsSplitPoint(es, s) && IsSplitPoint(es, t)
    ensures s == t
  {
  }

  /** Length of the run of equal keys a leaf starts with (1 for an empty leaf,
      where the loop that counts it also stops at 1). */
  ghost predicate IsLeadingRun(es: seq<Entry>, k: int) {
    && 1 <= k && (k <= |es| || k == 1)
    && (forall i :: 0 <= i < k && i < |es| ==> es[i].key == es[0].key)
    && (k < |es| ==> es[k].key != es[0].key)
  }

  ghost predicate IsTrailingRun(es: seq<Entry>, k: int) {
    && 1 <= k && (k <= |es| || k == 1)
    && (forall i :: |es| - k <= i < |es| && 0 <= i ==> es[i].key == es[|es| - 1].key)
    && (k < |es| ==> es[|es| - 1 - k].key != es[|es| - 1].key)
  }

  method LeadingRun(es: seq<Entry>) returns (k: nat)
    ensures IsLeadingRun(es, k)
  {
    k := 1;
    while k < |es| && es[k].key == es[0].key
      invariant 1 <= k && (k <= |es| || k == 1)
      invariant forall i :: 0 <= i < k && i < |es| ==> es[i].key == es[0].key
    {
      k := k + 1;
    }
  }

  method TrailingRun(es: seq<Entry>) returns (k: nat)
    ensures IsTrailingRun(es, k)
  {
    k := 1;
    while k < |es| && es[|es| - 1 - k].key == es[|es| - 1].key
      invariant 1 <= k && (k <= |es| || k == 1)
      invariant forall i :: |es| - k <= i < |es| && 0 <= i ==> es[i].key == es[|es| - 1].key
    {
      k := k + 1;
    }
  }

  /** Every key of `a` is below every key of `b`. */
  ghost predicate Before(a: seq<Entry>, b: seq<Entry>) {
    forall i, j :: 0 <= i < |a| && 0 <= j < |b| ==> a[i].key < b[j].key
  }

  /** The borrow test of `_fixup_leaf`: the lender keeps another key and enough
      entries, and the borrower has room. */
  predicate CanLend(lender: nat, run: nat, borrower: nat, max: nat) {
    run < lender && lender - run >= max / 2 && borrower + run <= max
  }

  /** An underfull leaf that cannot borrow from its right sibling and does not
      fit into one page with it: the fresh split point exists, its right part
      always fits, and its left part overflows the page exactly when the
      sibling's leading run alone is too long for this leaf. */
  lemma RedistributeRight(a: seq<Entry>, b: seq<Entry>, k: nat, max: nat, s: int)
    requires max >= 4 && |a| < max / 2 && |b| <= max < |a| + |b|
    requires Before(a, b) && IsLeadingRun(b, k) && !CanLend(|b|, k, |a|, max)
    requires IsSplitPoint(a + b, s)
    ensures |a + b| - s <= max
    ensures s > max <==> k < |b| && |a| + k > max
  {
    var es := a + b;
    var mid := |es| / 2;
    var c := |a|;
    assert 0 < c < mid;
    forall x | c < x < c + k ensures !Boundary(es, x) {
      assert es[x - 1] == b[x - 1 - c] && es[x] == b[x - c];
    }
    if k == |b| {
      assert Boundary(es, c) by { assert es[c - 1] == a[c - 1] && es[c] == b[0]; }
      assert s == c;
    } else {
      assert Boundary(es, c + k) by { assert es[c + k - 1] == b[k - 1] && es[c + k] == b[k]; }
      assert mid <= c + k;
      assert s == c + k;
    }
  }

  /** Redistributing with a left sibling always fits. */
  lemma RedistributeLeft(a: seq<Entry>, b: seq<Entry>, max: nat, s: int)
    requires max >= 4 && |b| < max / 2 && |a| <= max < |a| + |b|
    requires Before(a, b)
    requires IsSplitPoint(a + b, s)
    ensures s <= max && |a + b| - s <= max
  {
    var es := a + b;
    assert Boundary(es, |a|) by { assert es[|a| - 1] == a[|a| - 1] && es[|a|] == b[0]; }
  }

  /** Two leaves with different keys never collapse into one run. */
  lemma CombinedNotEqual(a: seq<Entry>, b: seq<Entry>)
    requires Before(a, b) && a != [] && b != []
    ensures !AllEqual(a + b)
  {
    assert (a + b)[|a|] == b[0];
  }
}
