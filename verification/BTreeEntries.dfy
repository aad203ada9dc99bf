/** Leaf contents of the index: entries sorted by key, duplicates in insertion
    order, and the positions the tree code computes on them. */
module BTreeEntries {
  import opened Sequences

  /** A row identifier: the page a tuple lives on and its slot there. */
  datatype RID = RID(pageId: nat, slotId: nat)

  type Key = int

  datatype Entry = Entry(key: Key, rid: RID)

  ghost predicate Sorted(es: seq<Entry>) {
    forall i, j :: 0 <= i < j < |es| ==> es[i].key <= es[j].key
  }

  ghost predicate Ascending(ks: seq<Key>) {
    forall i, j :: 0 <= i < j < |ks| ==> ks[i] < ks[j]
  }

  /** Python's `bisect_left` on the keys of a leaf. */
  function BisectLeft(es: seq<Entry>, k: Key): (pos: nat)
    ensures pos <= |es|
    ensures Sorted(es) ==> forall i :: 0 <= i < pos ==> es[i].key < k
    ensures Sorted(es) ==> forall i :: pos <= i < |es| ==> k <= es[i].key
  {
    if es == [] || k <= es[0].key then 0 else 1 + BisectLeft(es[1..], k)
  }

  /** Python's `bisect_right` on the keys of a leaf. */
  function BisectRight(es: seq<Entry>, k: Key): (pos: nat)
    ensures pos <= |es|
    ensures Sorted(es) ==> forall i :: 0 <= i < pos ==> es[i].key <= k
    ensures Sorted(es) ==> forall i :: pos <= i < |es| ==> k < es[i].key
  {
    if es == [] || k < es[0].key then 0 else 1 + BisectRight(es[1..], k)
  }

  /** Python's `bisect_right` on the separators of an internal node. */
  function ChildIndex(ks: seq<Key>, k: Key): (pos: nat)
    ensures pos <= |ks|
    ensures Ascending(ks) ==> forall i :: 0 <= i < pos ==> ks[i] <= k
    ensures Ascending(ks) ==> forall i :: pos <= i < |ks| ==> k < ks[i]
  {
    if ks == [] || k < ks[0] then 0 else 1 + ChildIndex(ks[1..], k)
  }

  /** The RIDs stored under `k`, in list order. */
  function RidsFor(es: seq<Entry>, k: Key): (rs: seq<RID>)
    ensures |rs| <= |es|
  {
    if es == [] then []
    else if es[0].key == k then [es[0].rid] + RidsFor(es[1..], k)
    else RidsFor(es[1..], k)
  }

  function Rids(es: seq<Entry>): (rs: seq<RID>)
    ensures |rs| == |es|
  {
    seq(|es|, i requires 0 <= i < |es| => es[i].rid)
  }

  lemma {:induction false} RidsForConcat(a: seq<Entry>, b: seq<Entry>, k: Key)
    ensures RidsFor(a + b, k) == RidsFor(a, k) + RidsFor(b, k)
  {
    if a == [] {
      assert a + b == b;
    } else {
      var t := a[1..];
      RidsForConcat(t, b, k);
      assert (a + b)[1..] == t + b;
      if a[0].key == k {
        Assoc([a[0].rid], RidsFor(t, k), RidsFor(b, k));
      }
    }
  }

  lemma RidsForConcat3(a: seq<Entry>, b: seq<Entry>, c: seq<Entry>, k: Key)
    ensures RidsFor(a + b + c, k) == RidsFor(a, k) + RidsFor(b, k) + RidsFor(c, k)
  {
    RidsForConcat(a, b, k);
    RidsForConcat(a + b, c, k);
  }

  lemma RidsForOne(e: Entry, k: Key)
    ensures RidsFor([e], k) == if e.key == k then [e.rid] else []
  {
    assert [e][1..] == [];
  }

  lemma {:induction false} RidsForAbsent(es: seq<Entry>, k: Key)
    requires forall i :: 0 <= i < |es| ==> es[i].key != k
    ensures RidsFor(es, k) == []
  {
    if es != [] {
      RidsForAbsent(es[1..], k);
    }
  }

  lemma {:induction false} RidsForRun(es: seq<Entry>, k: Key)
    requires forall i :: 0 <= i < |es| ==> es[i].key == k
    ensures RidsFor(es, k) == Rids(es)
  {
    if es != [] {
      RidsForRun(es[1..], k);
      assert Rids(es) == [es[0].rid] + Rids(es[1..]);
    }
  }

  /** A leaf filled by one key is the only leaf whose RID list is as long as itself. */
  lemma {:induction false} RidsForFull(es: seq<Entry>, k: Key)
    ensures |RidsFor(es, k)| == |es| <==> forall i :: 0 <= i < |es| ==> es[i].key == k
  {
    if es != [] {
      RidsForFull(es[1..], k);
      assert forall i :: 1 <= i < |es| ==> es[i] == es[1..][i - 1];
    }
  }

  lemma {:induction false} BisectOrder(es: seq<Entry>, k: Key)
    ensures BisectLeft(es, k) <= BisectRight(es, k)
  {
    if es != [] && es[0].key < k {
      BisectOrder(es[1..], k);
    }
  }

  lemma MiddleRids(es: seq<Entry>, lo: nat, i: nat, k: Key)
    requires lo <= i <= |es|
    requires forall j :: 0 <= j < lo ==> es[j].key != k
    requires forall j :: i <= j < |es| ==> es[j].key != k
    ensures RidsFor(es[lo..i], k) == RidsFor(es, k)
  {
    var a, b, c := es[..lo], es[lo..i], es[i..];
    assert RidsFor(a, k) == [] by { RidsForAbsent(a, k); }
    assert RidsFor(c, k) == [] by { RidsForAbsent(c, k); }
    RidsForConcat3(a, b, c, k);
    assert es == a + b + c;
  }

  /** What the two bisections delimit is exactly the run of `k`. */
  lemma SearchSlice(es: seq<Entry>, k: Key)
    requires Sorted(es)
    ensures BisectLeft(es, k) <= BisectRight(es, k)
    ensures Rids(es[BisectLeft(es, k)..BisectRight(es, k)]) == RidsFor(es, k)
  {
    BisectOrder(es, k);
    var lo, hi := BisectLeft(es, k), BisectRight(es, k);
    MiddleRids(es, lo, hi, k);
    RidsForRun(es[lo..hi], k);
  }

  function InsertEntry(es: seq<Entry>, e: Entry): (r: seq<Entry>) {
    var pos := BisectRight(es, e.key);
    es[..pos] + [e] + es[pos..]
  }

  lemma InsertEntrySorted(es: seq<Entry>, e: Entry)
    requires Sorted(es)
    ensures Sorted(InsertEntry(es, e))
  {
  }

  /** Inserting after the run appends to that key's RIDs only. */
  lemma InsertEntryRids(es: seq<Entry>, e: Entry, k: Key)
    requires Sorted(es)
    ensures RidsFor(InsertEntry(es, e), k) ==
            if k == e.key then RidsFor(es, k) + [e.rid] else RidsFor(es, k)
  {
    var pos := BisectRight(es, e.key);
    var a, b := es[..pos], es[pos..];
    assert RidsFor(es, k) == RidsFor(a, k) + RidsFor(b, k) by {
      assert es == a + b;
      RidsForConcat(a, b, k);
    }
    RidsForConcat3(a, [e], b, k);
    RidsForOne(e, k);
    if k == e.key { RidsForAbsent(b, k); }
    MiddleLast(RidsFor(a, k), RidsFor([e], k), RidsFor(b, k));
  }

  lemma MiddleLast(a: seq<RID>, m: seq<RID>, b: seq<RID>)
    ensures m == [] || b == [] ==> a + m + b == a + b + m
  {
  }

  /** Position of the first entry equal to `e`. */
  ghost predicate IsFirst(es: seq<Entry>, e: Entry, t: nat) {
    t < |es| && es[t] == e && forall i :: 0 <= i < t ==> es[i] != e
  }

  function RemoveFirst(rs: seq<RID>, r: RID): (s: seq<RID>)
    ensures r !in rs ==> s == rs
    ensures r in rs ==> |s| == |rs| - 1 && multiset(s) == multiset(rs) - multiset{r}
  {
    if rs == [] then []
    else if rs[0] == r then (assert rs == [rs[0]] + rs[1..]; rs[1..])
    else (assert rs == [rs[0]] + rs[1..]; [rs[0]] + RemoveFirst(rs[1..], r))
  }

  function RemoveAt(es: seq<Entry>, t: nat): (r: seq<Entry>)
    requires t < |es|
    ensures |r| == |es| - 1
  {
    es[..t] + es[t + 1..]
  }

  lemma RemoveAtSorted(es: seq<Entry>, t: nat)
    requires Sorted(es) && t < |es|
    ensures Sorted(RemoveAt(es, t))
  {
  }

  /** Removing the first matching entry removes the first matching RID. */
  lemma {:induction false} RemoveAtRids(es: seq<Entry>, t: nat, k: Key)
    requires t < |es| && IsFirst(es, es[t], t)
    ensures RidsFor(RemoveAt(es, t), k) ==
            if k == es[t].key then RemoveFirst(RidsFor(es, k), es[t].rid) else RidsFor(es, k)
    decreases t
  {
    if t == 0 {
      assert RemoveAt(es, t) == es[1..];
    } else {
      var tail := es[1..];
      assert IsFirst(tail, es[t], t - 1);
      RemoveAtRids(tail, t - 1, k);
      RemoveAtTail(es, t);
      assert es[0] != es[t];
      if es[0].key == k {
        RemoveFirstTail(es[0].rid, RidsFor(tail, k), es[t].rid);
      }
    }
  }

  lemma RemoveAtTail(es: seq<Entry>, t: nat)
    requires 0 < t < |es|
    ensures RemoveAt(es, t)[0] == es[0]
    ensures RemoveAt(es, t)[1..] == RemoveAt(es[1..], t - 1)
  {
  }

  lemma RemoveFirstTail(h: RID, rs: seq<RID>, r: RID)
    ensures h != r ==> RemoveFirst([h] + rs, r) == [h] + RemoveFirst(rs, r)
  {
    assert ([h] + rs)[1..] == rs;
  }

  lemma {:induction false} RidMeansEntry(es: seq<Entry>, e: Entry)
    ensures e.rid in RidsFor(es, e.key) <==> e in es
  {
    if es != [] {
      RidMeansEntry(es[1..], e);
      assert es == [es[0]] + es[1..];
    }
  }
}
