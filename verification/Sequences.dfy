/** Optional values and facts about slices that several modules share. */
module Sequences {

  datatype Option<+T> = None | Some(value: T)

  lemma Assoc<T>(a: seq<T>, b: seq<T>, c: seq<T>)
    ensures (a + b) + c == a + (b + c)
  {
  }

  lemma TakeConcat<T>(a: seq<T>, b: seq<T>, c: nat)
    requires c <= |a| + |b|
    ensures c <= |a| ==> (a + b)[..c] == a[..c]
    ensures c >= |a| ==> (a + b)[..c] == a + b[..c - |a|]
  {
  }

  lemma SliceConcat<T>(s: seq<T>, t: nat, k: nat)
    requires t <= k <= |s|
    ensures s[..k][t..] == s[t..k]
    ensures s[t..] == s[t..k] + s[k..]
  {
  }

  lemma MiddleSlice<T>(a: seq<T>, b: seq<T>, c: seq<T>)
    ensures (a + b + c)[|a|..|a| + |b|] == b
  {
  }

  lemma PlusUpdate<K, V>(a: map<K, V>, b: map<K, V>, k: K, v: V)
    ensures (a + b)[k := v] == a + b[k := v]
  {
  }

  lemma SubsetCount<T>(a: set<T>, b: set<T>)
    requires a <= b
    ensures |a| <= |b|
  {
    assert b == a + (b - a);
  }

  /** `r` is what stands in `s` at the positions `at`, in order. */
  ghost predicate Picked<T>(r: seq<T>, s: seq<T>, at: seq<nat>) {
    && |r| == |at| && (forall j :: 0 <= j < |at| ==> at[j] < |s| && r[j] == s[at[j]])
    && (forall j, k :: 0 <= j < k < |at| ==> at[j] < at[k])
  }

  function Shifted(at: seq<nat>, n: nat): (r: seq<nat>)
    ensures |r| == |at| && forall j :: 0 <= j < |at| ==> r[j] == at[j] + n
  {
    seq(|at|, j requires 0 <= j < |at| => at[j] + n)
  }

  lemma ShiftedMembers(at: seq<nat>, n: nat, i: nat)
    ensures i in Shifted(at, n) <==> i >= n && i - n in at
  {
    if i >= n && i - n in at {
      var j :| 0 <= j < |at| && at[j] == i - n;
      assert Shifted(at, n)[j] == i;
    }
  }

  /** Positions behind a prefix. */
  lemma PickedBehind<T>(r: seq<T>, s: seq<T>, at: seq<nat>, n: nat)
    requires n <= |s| && Picked(r, s[n..], at)
    ensures Picked(r, s, Shifted(at, n))
  {
  }

  /** Picking the first element too, or not. */
  lemma PickedCons<T>(r: seq<T>, s: seq<T>, at: seq<nat>, take: bool) returns (more: seq<nat>)
    requires s != [] && Picked(r, s[1..], at)
    ensures Picked(if take then [s[0]] + r else r, s, more)
    ensures forall i: nat :: i < |s| ==> (i in more <==> if i == 0 then take else i - 1 in at)
  {
    var up := Shifted(at, 1);
    PickedBehind(r, s, at, 1);
    more := if take then [0] + up else up;
    if take { PickedFirst(r, s, up); }
    forall i: nat | i < |s| ensures i in more <==> if i == 0 then take else i - 1 in at {
      ShiftedMembers(at, 1, i);
      ConsMember(0, up, i);
    }
  }

  /** Picking the last element too, or not. */
  lemma PickedSnoc<T>(r: seq<T>, s: seq<T>, at: seq<nat>, take: bool) returns (more: seq<nat>)
    requires s != [] && Picked(r, s[..|s| - 1], at)
    ensures Picked(if take then r + [s[|s| - 1]] else r, s, more)
    ensures forall i: nat :: i < |s| ==> (i in more <==> if i == |s| - 1 then take else i in at)
  {
    var n := |s| - 1;
    more := if take then at + [n] else at;
    forall i: nat | i < |s| ensures i in more <==> if i == n then take else i in at {
      assert i in at + [n] <==> i in at || i == n;
      assert i in at ==> i < n;
    }
  }

  lemma PickedFirst<T>(r: seq<T>, s: seq<T>, up: seq<nat>)
    requires s != [] && Picked(r, s, up) && forall j :: 0 <= j < |up| ==> up[j] > 0
    ensures Picked([s[0]] + r, s, [0] + up)
  {
  }

  lemma ConsMember(x: nat, up: seq<nat>, i: nat)
    ensures i in [x] + up <==> i == x || i in up
  {
  }

  lemma ConsTake<T>(s: seq<T>, k: nat)
    requires s != [] && k < |s|
    ensures [s[0]] + s[1..][..k] == s[..k + 1]
  {
  }
}
