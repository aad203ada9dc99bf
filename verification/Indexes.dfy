/** Indexes beside a heap: their entries, which versions lack one, and when an index
    refuses a row. */
module Indexes {
  import opened Sequences
  import opened BTreeEntries
  import opened Expr
  import opened Mvcc
  import opened Pushdown
  import opened Schema

  type Heap = map<RID, Version<Tuple>>

  /** An index and, per key, the RIDs its tree holds, oldest first. */
  datatype Index = Index(column: nat, kind: ColumnType, unique: bool, entries: map<Value, seq<RID>>)

  function At(idx: Index, k: Value): (rs: seq<RID>) {
    if k in idx.entries then idx.entries[k] else []
  }

  function AddEntry(idx: Index, k: Value, r: RID): (i: Index) {
    idx.(entries := idx.entries[k := At(idx, k) + [r]])
  }

  lemma AddEntryAt(idx: Index, k: Value, r: RID)
    ensures forall x :: At(AddEntry(idx, k, r), x) == if x == k then At(idx, k) + [r] else At(idx, x)
  {
  }

  /** The key a stored row has in an index. */
  function KeyIn(idx: Index, row: Tuple): (k: Value) {
    if idx.column < |row| then IndexKey(row[idx.column]) else Null
  }

  /* ---------- entries and versions ---------- */

  /** Every entry stands for a version with that key, once. */
  ghost predicate Sound(heap: Heap, idx: Index) {
    && (forall r :: r in heap ==> idx.column < |heap[r].row|)
    && (forall k, i :: 0 <= i < |At(idx, k)| ==> At(idx, k)[i] in heap && KeyIn(idx, heap[At(idx, k)[i]].row) == k)
    && (forall k :: Distinct(At(idx, k)))
    && (forall k :: k in idx.entries ==> idx.entries[k] != [])
  }

  /** The versions an index has no entry for. */
  ghost function Gaps(heap: Heap, idx: Index): (s: set<RID>) {
    set r | r in heap && r !in At(idx, KeyIn(idx, heap[r].row))
  }

  lemma SoundMember(heap: Heap, idx: Index, k: Value, r: RID)
    requires Sound(heap, idx) && r in At(idx, k)
    ensures r in heap && KeyIn(idx, heap[r].row) == k
  {
    var i :| 0 <= i < |At(idx, k)| && At(idx, k)[i] == r;
  }

  /** A new version starts without an entry. */
  lemma InsertVersionKeeps(heap: Heap, idx: Index, r: RID, v: Version<Tuple>)
    requires Sound(heap, idx) && r !in heap && idx.column < |v.row|
    ensures Sound(heap[r := v], idx) && Gaps(heap[r := v], idx) == Gaps(heap, idx) + {r}
  {
    forall k | r in At(idx, k) ensures false { SoundMember(heap, idx, k, r); }
    assert r !in At(idx, KeyIn(idx, v.row));
  }

  /** Changing a header leaves the index right. */
  lemma StampKeeps(heap: Heap, idx: Index, r: RID, xmax: Xid)
    requires Sound(heap, idx) && r in heap
    ensures Sound(heap[r := heap[r].(xmax := xmax)], idx)
    ensures Gaps(heap[r := heap[r].(xmax := xmax)], idx) == Gaps(heap, idx)
  {
  }

  /** An entry for a version that had none fills its gap. */
  lemma AddEntryKeeps(heap: Heap, idx: Index, r: RID)
    requires Sound(heap, idx) && r in Gaps(heap, idx)
    ensures var w := AddEntry(idx, KeyIn(idx, heap[r].row), r);
            Sound(heap, w) && Gaps(heap, w) == Gaps(heap, idx) - {r}
  {
    AddEntrySound(heap, idx, r);
    var w := AddEntry(idx, KeyIn(idx, heap[r].row), r);
    forall q ensures q in Gaps(heap, w) <==> q in Gaps(heap, idx) - {r} { AddEntryGap(heap, idx, r, q); }
  }

  lemma AddEntrySound(heap: Heap, idx: Index, r: RID)
    requires Sound(heap, idx) && r in Gaps(heap, idx)
    ensures Sound(heap, AddEntry(idx, KeyIn(idx, heap[r].row), r))
  {
    var k := KeyIn(idx, heap[r].row);
    AddEntryAt(idx, k, r);
  }

  lemma AddEntryGap(heap: Heap, idx: Index, r: RID, q: RID)
    requires r in Gaps(heap, idx)
    ensures q in Gaps(heap, AddEntry(idx, KeyIn(idx, heap[r].row), r)) <==> q in Gaps(heap, idx) && q != r
  {
    var k := KeyIn(idx, heap[r].row);
    var w := AddEntry(idx, k, r);
    AddEntryAt(idx, k, r);
    if q in heap {
      assert KeyIn(w, heap[q].row) == KeyIn(idx, heap[q].row);
      assert q != r ==> (q in At(idx, k) + [r] <==> q in At(idx, k));
      assert r in At(idx, k) + [r];
    }
  }

  /* ---------- refusing a row ---------- */

  /** The key a lookup compares equal to: numbers by amount. */
  function SearchKey(v: Value): (k: Value) {
    if IsNumber(v) && Truncate(Number(v)) as real == Number(v) then Int(Truncate(Number(v))) else v
  }

  /** Among the keys of an index, a lookup meets exactly those Python calls equal. */
  lemma SearchKeyMeets(k: Value, v: Value)
    requires k.Int? || k.Text?
    ensures k == SearchKey(v) <==> SameValue(k, v)
  {
    if k.Int? && IsNumber(v) {
      assert Number(v) == k.n as real ==> Truncate(Number(v)) == k.n;
    }
  }

  /** Whether a value can be compared with the keys of an index. */
  predicate Ordered(kind: ColumnType, v: Value) {
    if kind == INT then IsNumber(v) else v.Text?
  }

  /** A row other than `exclude`, visible to the snapshot, sits at this RID. */
  predicate Holds(heap: Heap, aborted: set<Xid>, snap: Snapshot, r: RID, exclude: Option<RID>) {
    Some(r) != exclude && r in heap && IsVisible(aborted, heap[r].xmin, heap[r].xmax, snap)
  }

  /** What makes an index raise on a row given as `raw` and stored as `stored`: the value
      cannot be compared with the keys there are, the key is full, or the index is unique
      and another visible row holds the key. */
  ghost predicate Blocks(heap: Heap, aborted: set<Xid>, snap: Snapshot, idx: Index, raw: Tuple, stored: Tuple,
                         exclude: Option<RID>, most: nat)
    requires idx.column < |raw|
  {
    || (idx.entries != map[] && !Ordered(idx.kind, raw[idx.column]))
    || |At(idx, KeyIn(idx, stored))| >= most
    || (idx.unique && exists r :: r in At(idx, SearchKey(raw[idx.column])) && Holds(heap, aborted, snap, r, exclude))
  }

  /** What a tree behind a stale root does to a row is not modelled: the program's own tree
      decides, per index and RID, whether it raises. */
  type Whim = (string, RID) -> bool

  /** The first index, in creation order, that refuses the row; their number if none does.
      Names without an index are those with a stale root. */
  ghost function Stop(heap: Heap, aborted: set<Xid>, snap: Snapshot, indexes: map<string, Index>, names: seq<string>,
                      raw: Tuple, stored: Tuple, r: RID, exclude: Option<RID>, most: nat, whim: Whim, from: nat)
    : (j: nat)
    ensures from <= |names| ==> from <= j <= |names|
    ensures forall i :: from <= i < j && i < |names| && names[i] in indexes && indexes[names[i]].column < |raw| ==>
      !Blocks(heap, aborted, snap, indexes[names[i]], raw, stored, exclude, most)
    ensures from <= j < |names| && names[j] in indexes ==>
      && indexes[names[j]].column < |raw|
      && Blocks(heap, aborted, snap, indexes[names[j]], raw, stored, exclude, most)
    ensures from <= j < |names| && names[j] !in indexes ==> whim(names[j], r)
    decreases |names| - from
  {
    if from >= |names| then |names|
    else if names[from] !in indexes && whim(names[from], r) then from
    else if names[from] in indexes && indexes[names[from]].column < |raw|
            && Blocks(heap, aborted, snap, indexes[names[from]], raw, stored, exclude, most) then from
    else Stop(heap, aborted, snap, indexes, names, raw, stored, r, exclude, most, whim, from + 1)
  }

  /** The indexes in `done` have taken the row. */
  ghost function Filled(indexes: map<string, Index>, done: seq<string>, stored: Tuple, r: RID)
    : (m: map<string, Index>)
  {
    map n | n in indexes :: if n in done then AddEntry(indexes[n], KeyIn(indexes[n], stored), r) else indexes[n]
  }

  lemma FilledMore(indexes: map<string, Index>, names: seq<string>, i: nat, stored: Tuple, r: RID)
    requires i < |names| && names[i] in indexes && forall a, b :: 0 <= a < b < |names| ==> names[a] != names[b]
    ensures var m := Filled(indexes, names[..i], stored, r);
            && m[names[i]] == indexes[names[i]]
            && Filled(indexes, names[..i + 1], stored, r)
               == m[names[i] := AddEntry(indexes[names[i]], KeyIn(indexes[names[i]], stored), r)]
  {
    assert names[..i + 1] == names[..i] + [names[i]];
    assert names[i] !in names[..i];
  }

  lemma FilledSkip(indexes: map<string, Index>, names: seq<string>, i: nat, stored: Tuple, r: RID)
    requires i < |names| && names[i] !in indexes
    ensures Filled(indexes, names[..i + 1], stored, r) == Filled(indexes, names[..i], stored, r)
  {
    assert names[..i + 1] == names[..i] + [names[i]];
  }

  /** `_check_unique_constraint`: does another visible row hold the key? */
  method CheckUnique(heap: Heap, aborted: set<Xid>, snap: Snapshot, idx: Index, key: Value, exclude: Option<RID>)
    returns (clash: bool)
    ensures clash <==> idx.unique && exists r :: r in At(idx, SearchKey(key)) && Holds(heap, aborted, snap, r, exclude)
  {
    if !idx.unique {
      return false;
    }
    var rids := At(idx, SearchKey(key));
    for i := 0 to |rids|
      invariant forall j :: 0 <= j < i ==> !Holds(heap, aborted, snap, rids[j], exclude)
    {
      if Holds(heap, aborted, snap, rids[i], exclude) {
        return true;
      }
    }
    return false;
  }

  /** `_insert_into_indexes`: every index up to the first that raises takes the row, the
      others are as they were. */
  method FillIndexes(heap: Heap, aborted: set<Xid>, snap: Snapshot, indexes: map<string, Index>, names: seq<string>,
                     raw: Tuple, stored: Tuple, r: RID, exclude: Option<RID>, most: nat, whim: Whim)
    returns (stop: nat, after: map<string, Index>)
    requires forall i :: 0 <= i < |names| && names[i] in indexes ==> indexes[names[i]].column < |raw| == |stored|
    requires forall a, b :: 0 <= a < b < |names| ==> names[a] != names[b]
    ensures stop <= |names|
    ensures stop == Stop(heap, aborted, snap, indexes, names, raw, stored, r, exclude, most, whim, 0)
    ensures after == Filled(indexes, names[..stop], stored, r)
  {
    after := indexes;
    stop := 0;
    assert after == Filled(indexes, names[..0], stored, r);
    while stop < |names|
      invariant stop <= |names| && after == Filled(indexes, names[..stop], stored, r)
      invariant Stop(heap, aborted, snap, indexes, names, raw, stored, r, exclude, most, whim, 0)
             == Stop(heap, aborted, snap, indexes, names, raw, stored, r, exclude, most, whim, stop)
    {
      var refused := whim(names[stop], r);
      if names[stop] in indexes {
        FilledMore(indexes, names, stop, stored, r);
        refused := Refuses(heap, aborted, snap, after[names[stop]], raw, stored, exclude, most);
      }
      if refused {
        return;
      }
      after := TakenBy(indexes, names, stop, after, stored, r);
      stop := stop + 1;
    }
  }

  /** Index number `i` takes the row, if its root is not stale. */
  function TakenBy(indexes: map<string, Index>, names: seq<string>, i: nat, after: map<string, Index>, stored: Tuple,
                   r: RID)
    : (more: map<string, Index>)
    requires i < |names| && forall a, b :: 0 <= a < b < |names| ==> names[a] != names[b]
    requires after == Filled(indexes, names[..i], stored, r)
    ensures more == Filled(indexes, names[..i + 1], stored, r)
  {
    if names[i] in indexes then
      FilledMore(indexes, names, i, stored, r);
      after[names[i] := AddEntry(after[names[i]], KeyIn(after[names[i]], stored), r)]
    else
      FilledSkip(indexes, names, i, stored, r);
      after
  }

  /** One index: the uniqueness check, then what `tree.insert` raises. */
  method Refuses(heap: Heap, aborted: set<Xid>, snap: Snapshot, idx: Index, raw: Tuple, stored: Tuple,
                 exclude: Option<RID>, most: nat) returns (refused: bool)
    requires idx.column < |raw|
    ensures refused <==> Blocks(heap, aborted, snap, idx, raw, stored, exclude, most)
  {
    var clash := CheckUnique(heap, aborted, snap, idx, raw[idx.column], exclude);
    var disordered := idx.entries != map[] && !Ordered(idx.kind, raw[idx.column]);
    refused := clash || disordered || |At(idx, KeyIn(idx, stored))| >= most;
  }

  /** What filling does to the gaps: the new version lacks an entry exactly in the indexes
      that did not take it. */
  lemma FilledKeeps(heap: Heap, idx: Index, r: RID, v: Version<Tuple>, took: bool)
    requires Sound(heap, idx) && r !in heap && idx.column < |v.row|
    ensures var w := if took then AddEntry(idx, KeyIn(idx, v.row), r) else idx;
            && Sound(heap[r := v], w)
            && Gaps(heap[r := v], w) == Gaps(heap, idx) + (if took then {} else {r})
  {
    InsertVersionKeeps(heap, idx, r, v);
    if took { AddEntryKeeps(heap[r := v], idx, r); }
    assert r !in Gaps(heap, idx);
  }

  /* ---------- backfilling ---------- */

  /** The RIDs of a heap scan from position `i` on. */
  ghost function Rest(order: seq<RID>, i: nat): (s: set<RID>) {
    set j | i <= j < |order| :: order[j]
  }

  lemma RestStep(order: seq<RID>, i: nat)
    requires i < |order| && Distinct(order)
    ensures Rest(order, i) - {order[i]} == Rest(order, i + 1) && order[i] in Rest(order, i)
  {
    forall r ensures r in Rest(order, i) - {order[i]} <==> r in Rest(order, i + 1) {
      if r in Rest(order, i) && r != order[i] {
        var j :| i <= j < |order| && order[j] == r;
        assert j >= i + 1;
      }
    }
  }

  lemma BackfillStart(heap: Heap, idx: Index, order: seq<RID>)
    requires idx.entries == map[] && forall r :: r in heap ==> idx.column < |heap[r].row|
    requires forall r :: r in order <==> r in heap
    ensures Sound(heap, idx) && Gaps(heap, idx) == Rest(order, 0)
  {
    forall r | r in heap ensures r in Rest(order, 0) {
      var j :| 0 <= j < |order| && order[j] == r;
    }
  }

  ghost function Members(s: seq<RID>): (m: set<RID>) {
    set r | r in s
  }

  lemma {:induction false} MembersCount(s: seq<RID>)
    ensures |Members(s)| <= |s|
    ensures Distinct(s) ==> |Members(s)| == |s|
    decreases |s|
  {
    if s != [] {
      var n := |s| - 1;
      MembersCount(s[..n]);
      assert Members(s) == Members(s[..n]) + {s[n]};
      assert Distinct(s) ==> s[n] !in s[..n];
    }
  }

  /** The versions that share a key in a column. */
  ghost function Sharing(heap: Heap, column: nat, k: Value): (m: set<RID>) {
    set r | r in heap && column < |heap[r].row| && IndexKey(heap[r].row[column]) == k
  }

  /** No key of the column has more versions than a tree takes entries under one key. */
  ghost predicate Uncrowded(heap: Heap, column: nat, most: nat) {
    forall k :: |Sharing(heap, column, k)| <= most
  }

  lemma CrowdedAt(heap: Heap, idx: Index, r: RID)
    requires Sound(heap, idx) && r in Gaps(heap, idx)
    ensures var k := KeyIn(idx, heap[r].row); |Sharing(heap, idx.column, k)| > |At(idx, k)|
  {
    var k := KeyIn(idx, heap[r].row);
    MembersCount(At(idx, k));
    var m := Members(At(idx, k));
    forall q | q in m ensures q in Sharing(heap, idx.column, k) { SoundMember(heap, idx, k, q); }
    SubsetCount(m + {r}, Sharing(heap, idx.column, k));
  }

  lemma FullIndexUncrowded(heap: Heap, idx: Index, most: nat)
    requires Sound(heap, idx) && Gaps(heap, idx) == {} && forall k :: |At(idx, k)| <= most
    ensures Uncrowded(heap, idx.column, most)
  {
    forall k ensures |Sharing(heap, idx.column, k)| <= most {
      MembersCount(At(idx, k));
      forall r | r in Sharing(heap, idx.column, k) ensures r in At(idx, k) { assert r !in Gaps(heap, idx); }
      SubsetCount(Sharing(heap, idx.column, k), Members(At(idx, k)));
    }
  }

  lemma RoomStep(idx: Index, k: Value, r: RID, most: nat)
    requires |At(idx, k)| < most && forall x :: |At(idx, x)| <= most
    ensures forall x :: |At(AddEntry(idx, k, r), x)| <= most
  {
    forall x ensures |At(AddEntry(idx, k, r), x)| <= most { assert |At(idx, x)| <= most; }
  }

  /** The RIDs before position `i`. */
  ghost function Front(order: seq<RID>, i: nat): (s: set<RID>)
    requires i <= |order|
  {
    set j | 0 <= j < i :: order[j]
  }

  lemma {:induction false} FrontCount(order: seq<RID>, i: nat)
    requires i <= |order| && Distinct(order)
    ensures |Front(order, i)| == i
  {
    if i > 0 {
      FrontCount(order, i - 1);
      FrontStep(order, i - 1);
    }
  }

  lemma FrontStep(order: seq<RID>, i: nat)
    requires i < |order| && Distinct(order)
    ensures Front(order, i + 1) == Front(order, i) + {order[i]} && order[i] !in Front(order, i)
  {
    forall r | r in Front(order, i + 1) ensures r in Front(order, i) + {order[i]} {
      var j :| 0 <= j < i + 1 && order[j] == r;
    }
  }

  /** An index that has what stands before position `i` of the scan, and nothing else. */
  ghost predicate FilledTo(heap: Heap, idx: Index, order: seq<RID>, i: nat) {
    && Sound(heap, idx) && Distinct(order) && (forall r :: r in order <==> r in heap)
    && (forall j :: 0 <= j < |order| ==> order[j] in heap)
    && i <= |order| && Gaps(heap, idx) == Rest(order, i)
  }

  lemma InFront(heap: Heap, idx: Index, order: seq<RID>, i: nat, r: RID)
    requires FilledTo(heap, idx, order, i) && r in heap
    ensures r in Front(order, i) <==> r in At(idx, KeyIn(idx, heap[r].row))
  {
    var j :| 0 <= j < |order| && order[j] == r;
    assert r in Front(order, i) <==> r !in Rest(order, i);
  }

  /** The entries of a key come from the front; as many as it has only if all of it shares the key. */
  lemma EntriesInFront(heap: Heap, idx: Index, order: seq<RID>, i: nat, k: Value)
    requires FilledTo(heap, idx, order, i)
    ensures |At(idx, k)| <= i
    ensures |At(idx, k)| == i ==> forall j :: 0 <= j < i ==> KeyIn(idx, heap[order[j]].row) == k
  {
    MembersCount(At(idx, k));
    FrontCount(order, i);
    var m, f := Members(At(idx, k)), Front(order, i);
    forall r | r in m ensures r in f {
      SoundMember(heap, idx, k, r);
      InFront(heap, idx, order, i, r);
    }
    SubsetCount(m, f);
    if |At(idx, k)| == i {
      SameCount(m, f);
      forall j | 0 <= j < i ensures KeyIn(idx, heap[order[j]].row) == k {
        assert order[j] in f;
        SoundMember(heap, idx, k, order[j]);
      }
    }
  }

  lemma SameCount(a: set<RID>, b: set<RID>)
    requires a <= b && |a| == |b|
    ensures a == b
  {
    assert |b - a| == |b| - |a|;
  }

  /** A front that shares a key has an entry each. */
  lemma FrontShares(heap: Heap, idx: Index, order: seq<RID>, i: nat, n: nat, k: Value)
    requires FilledTo(heap, idx, order, i) && n <= i && forall j :: 0 <= j < n ==> KeyIn(idx, heap[order[j]].row) == k
    ensures |At(idx, k)| >= n
  {
    MembersCount(At(idx, k));
    FrontCount(order, n);
    forall r | r in Front(order, n) ensures r in Members(At(idx, k)) {
      var j :| 0 <= j < n && order[j] == r;
      assert r in Front(order, i);
      InFront(heap, idx, order, i, r);
    }
    SubsetCount(Front(order, n), Members(At(idx, k)));
  }

  /** The scan starts with one key too often for a page. */
  ghost predicate OneKeyFirst(heap: Heap, column: nat, order: seq<RID>, most: nat) {
    && |order| > most && order[0] in heap && column < |heap[order[0]].row|
    && forall j :: 0 <= j <= most ==>
         && order[j] in heap && column < |heap[order[j]].row|
         && IndexKey(heap[order[j]].row[column]) == IndexKey(heap[order[0]].row[column])
  }

  /** The backfill raises after the tree's first page was cut, so that the catalog keeps a
      page that is not the root any more. */
  ghost predicate LeavesStaleRoot(heap: Heap, column: nat, order: seq<RID>, most: nat) {
    !Uncrowded(heap, column, most) && !OneKeyFirst(heap, column, order, most)
  }

  /** It happens: one version of a key, then more of another than fit on a page. */
  function TwoKeys(n: nat): (heap: Heap) {
    map r | r in set i | 0 <= i < n :: RID(0, i) :: Version(1, INFINITY_TXN, [Int(if r.slotId == 0 then 0 else 1)])
  }

  function FirstSlots(n: nat): (order: seq<RID>) {
    seq(n, i requires 0 <= i < n => RID(0, i))
  }

  lemma StaleRootHappens(most: nat, order: seq<RID>)
    requires most >= 1 && order == FirstSlots(most + 2)
    ensures Distinct(order) && (forall r :: r in order <==> r in TwoKeys(most + 2))
    ensures LeavesStaleRoot(TwoKeys(most + 2), 0, order, most)
  {
    var heap := TwoKeys(most + 2);
    forall r | r in heap ensures r in order {
      assert order[r.slotId] == r;
    }
    var behind := order[1..];
    FrontCount(behind, most + 1);
    forall r | r in Front(behind, most + 1) ensures r in Sharing(heap, 0, Int(1)) {
      var j :| 0 <= j < most + 1 && behind[j] == r;
      assert r == order[j + 1];
    }
    SubsetCount(Front(behind, most + 1), Sharing(heap, 0, Int(1)));
    assert order[0] in heap && order[1] in heap;
  }

  lemma StaleWhen(heap: Heap, idx: Index, order: seq<RID>, i: nat, most: nat)
    requires FilledTo(heap, idx, order, i) && i < |order| && forall k :: |At(idx, k)| <= most
    requires |At(idx, KeyIn(idx, heap[order[i]].row))| >= most
    ensures i >= most && (i > most <==> !OneKeyFirst(heap, idx.column, order, most))
  {
    var k := KeyIn(idx, heap[order[i]].row);
    EntriesInFront(heap, idx, order, i, k);
    forall j | 0 <= j < |order| ensures order[j] in heap && idx.column < |heap[order[j]].row| {
      assert order[j] in order;
    }
    if i == most {
      assert OneKeyFirst(heap, idx.column, order, most);
    } else if OneKeyFirst(heap, idx.column, order, most) {
      var first := KeyIn(idx, heap[order[0]].row);
      FrontShares(heap, idx, order, i, most + 1, first);
    }
  }

  /** The backfill loop over a heap scan: it raises exactly when some key has too many
      versions, and then leaves a stale root exactly if the scan does not start with that key. */
  method Backfill(heap: Heap, column: nat, kind: ColumnType, unique: bool, order: seq<RID>, most: nat)
    returns (ok: bool, idx: Index, stale: bool)
    requires Distinct(order) && (forall r :: r in order <==> r in heap)
    requires forall r :: r in heap ==> column < |heap[r].row|
    ensures idx.column == column && idx.kind == kind && idx.unique == unique && Sound(heap, idx)
    ensures ok <==> Uncrowded(heap, column, most)
    ensures Gaps(heap, idx) == {} <==> ok
    ensures !ok && !stale ==> Gaps(heap, idx) == Rest(order, most)
    ensures stale <==> LeavesStaleRoot(heap, column, order, most)
  {
    idx := Index(column, kind, unique, map[]);
    BackfillStart(heap, idx, order);
    assert forall j :: 0 <= j < |order| ==> order[j] in order;
    for i := 0 to |order|
      invariant idx.column == column && idx.kind == kind && idx.unique == unique
      invariant FilledTo(heap, idx, order, i) && forall k :: |At(idx, k)| <= most
    {
      var r := order[i];
      var k := IndexKey(heap[r].row[column]);
      RestStep(order, i);
      if |At(idx, k)| >= most {
        CrowdedAt(heap, idx, r);
        StaleWhen(heap, idx, order, i, most);
        return false, idx, i > most;
      }
      AddEntryKeeps(heap, idx, r);
      RoomStep(idx, k, r, most);
      idx := AddEntry(idx, k, r);
    }
    assert Rest(order, |order|) == {};
    FullIndexUncrowded(heap, idx, most);
    return true, idx, false;
  }

  /* ---------- queries through an index ---------- */

  /** A full scan of the index, as (key, RID) pairs. */
  ghost predicate Listed(entries: Entries, idx: Index) {
    && (forall i :: 0 <= i < |entries| ==> entries[i].1 in At(idx, entries[i].0))
    && (forall i, j :: 0 <= i < j < |entries| ==> entries[i] != entries[j])
    && (forall k, r :: r in At(idx, k) ==> (k, r) in entries)
  }

  /** What transaction `t` has to scan. */
  ghost function TableFor(s: State<Tuple>, t: Xid, alias: string, columns: seq<string>): (tbl: Table)
    requires t in s.snaps
  {
    Table(alias, columns, map r | r in s.heap :: s.heap[r].row,
          set r | r in s.heap && IsVisible(s.aborted, s.heap[r].xmin, s.heap[r].xmax, s.snaps[t]))
  }

  /** What a scan of an index lists: every version but its gaps, once, under its key. */
  lemma ListedIsFaithful(s: State<Tuple>, t: Xid, idx: Index, entries: Entries, tbl: Table)
    requires Sound(s.heap, idx) && Listed(entries, idx) && t in s.snaps
    requires tbl == TableFor(s, t, tbl.alias, tbl.columns) && WellTyped(tbl) && idx.column < |tbl.columns|
    ensures Faithful(tbl, idx.column, entries)
    ensures forall r :: r in tbl.tuples ==> (InIndex(entries, r) <==> r !in Gaps(s.heap, idx))
  {
    forall i | 0 <= i < |entries|
      ensures entries[i].1 in tbl.tuples && entries[i].0 == IndexKey(tbl.tuples[entries[i].1][idx.column])
    {
      SoundMember(s.heap, idx, entries[i].0, entries[i].1);
    }
    forall i, j | 0 <= i < j < |entries| ensures entries[i].1 != entries[j].1 {
      assert entries[i] != entries[j];
    }
    forall r | r in s.heap ensures r !in Gaps(s.heap, idx) <==> InIndex(entries, r) {
      var k := KeyIn(idx, s.heap[r].row);
      if r in At(idx, k) {
        assert (k, r) in entries;
        var i :| 0 <= i < |entries| && entries[i] == (k, r);
        assert entries[i].1 == r;
      }
      if i :| 0 <= i < |entries| && entries[i].1 == r {
        SoundMember(s.heap, idx, entries[i].0, r);
      }
    }
  }

  /** An index covers what a transaction sees if and only if no version it sees lacks an
      entry. */
  lemma CoversIff(s: State<Tuple>, t: Xid, idx: Index, entries: Entries, tbl: Table)
    requires Sound(s.heap, idx) && Listed(entries, idx) && t in s.snaps
    requires tbl == TableFor(s, t, tbl.alias, tbl.columns) && WellTyped(tbl) && idx.column < |tbl.columns|
    ensures Covering(tbl, idx.column, entries) <==> tbl.visible !! Gaps(s.heap, idx)
  {
    ListedIsFaithful(s, t, idx, entries, tbl);
  }
}
