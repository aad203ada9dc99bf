/** A heap file: a chain of slotted pages that behaves as a map from RID to bytes. */
module HeapFile {
  import opened Sequences
  import opened BTreeEntries
  import opened Bytes
  import opened HeapPage

  /** The data file, page id by page id; a new page gets the next id. */
  type Pages = seq<Page>

  /** Page `chain[i]` is sound and links to the next one; the last links nowhere. */
  ghost predicate Linked(ps: Pages, chain: seq<nat>, i: nat)
    requires i < |chain|
  {
    && chain[i] < |ps| && chain[i] < NO_PAGE && PageOk(ps[chain[i]])
    && NextPage(ps[chain[i]]) == (if i + 1 < |chain| then chain[i + 1] else NO_PAGE)
    && (i + 1 < |chain| ==> chain[i] < chain[i + 1])
  }

  ghost predicate HeapOk(ps: Pages, chain: seq<nat>) {
    |chain| > 0 && forall i :: 0 <= i < |chain| ==> Linked(ps, chain, i)
  }

  ghost predicate Has(ps: Pages, chain: seq<nat>, r: RID) {
    r.pageId in chain && r.pageId < |ps| && PageOk(ps[r.pageId]) && r.slotId in Tuples(ps[r.pageId])
  }

  /** What the file holds. */
  ghost function Contents(ps: Pages, chain: seq<nat>): (m: imap<RID, seq<Byte>>) {
    imap r: RID | Has(ps, chain, r) :: Tuples(ps[r.pageId])[r.slotId]
  }

  lemma {:induction false} ChainAscends(ps: Pages, chain: seq<nat>, i: nat, j: nat)
    requires HeapOk(ps, chain) && i < j < |chain|
    ensures chain[i] < chain[j]
    decreases j - i
  {
    assert Linked(ps, chain, i);
    if i + 1 < j { ChainAscends(ps, chain, i + 1, j); }
  }

  lemma ChainIndex(ps: Pages, chain: seq<nat>, p: nat) returns (i: nat)
    requires HeapOk(ps, chain) && p in chain
    ensures i < |chain| && chain[i] == p && Linked(ps, chain, i)
    ensures forall j :: 0 <= j < |chain| && chain[j] == p ==> j == i
  {
    i :| 0 <= i < |chain| && chain[i] == p;
    forall j | 0 <= j < |chain| && chain[j] == p ensures j == i {
      if j < i { ChainAscends(ps, chain, j, i); }
      if i < j { ChainAscends(ps, chain, i, j); }
    }
  }

  /** Rewriting one page without relinking it keeps the chain. */
  lemma RewriteOk(ps: Pages, chain: seq<nat>, p: nat, d: Page)
    requires HeapOk(ps, chain) && p in chain && p < |ps| && PageOk(d) && NextPage(d) == NextPage(ps[p])
    ensures HeapOk(ps[p := d], chain)
  {
    var qs := ps[p := d];
    forall i | 0 <= i < |chain| ensures Linked(qs, chain, i) { assert Linked(ps, chain, i); }
  }

  /** Every RID of another page keeps its tuple; the rewritten page shows its new tuples. */
  lemma {:induction false} RewriteAt(ps: Pages, chain: seq<nat>, p: nat, d: Page, r: RID)
    requires p in chain && p < |ps| && PageOk(ps[p]) && PageOk(d)
    ensures r.pageId == p ==> Agree(Contents(ps[p := d], chain), r, Tuples(d), r.slotId)
    ensures r.pageId == p ==> Agree(Contents(ps, chain), r, Tuples(ps[p]), r.slotId)
    ensures r.pageId != p ==> (r in Contents(ps[p := d], chain) <==> r in Contents(ps, chain))
    ensures r.pageId != p && r in Contents(ps, chain) ==> Contents(ps[p := d], chain)[r] == Contents(ps, chain)[r]
  {
  }

  ghost predicate Agree(m: imap<RID, seq<Byte>>, r: RID, t: map<nat, seq<Byte>>, i: nat) {
    (r in m <==> i in t) && (r in m ==> m[r] == t[i])
  }

  ghost predicate Same(m: imap<RID, seq<Byte>>, w: imap<RID, seq<Byte>>, r: RID) {
    (r in m <==> r in w) && (r in m ==> m[r] == w[r])
  }

  lemma AllSame(m: imap<RID, seq<Byte>>, w: imap<RID, seq<Byte>>)
    requires forall r: RID :: Same(m, w, r)
    ensures m == w
  {
    forall r: RID ensures r in m <==> r in w { assert Same(m, w, r); }
    forall r: RID | r in m ensures m[r] == w[r] { assert Same(m, w, r); }
  }

  lemma WithoutMissing(m: imap<RID, seq<Byte>>, r: RID)
    requires r !in m
    ensures m - {r} == m
  {
  }

  /** Rewriting a page so that one slot changes changes one RID. */
  lemma RewriteSlot(ps: Pages, chain: seq<nat>, p: nat, d: Page, i: nat, row: seq<Byte>)
    requires p in chain && p < |ps| && PageOk(ps[p]) && PageOk(d) && Tuples(d) == Tuples(ps[p])[i := row]
    ensures Contents(ps[p := d], chain) == Contents(ps, chain)[RID(p, i) := row]
  {
    var m, w := Contents(ps[p := d], chain), Contents(ps, chain)[RID(p, i) := row];
    forall r: RID ensures Same(m, w, r) { RewriteAt(ps, chain, p, d, r); }
    AllSame(m, w);
  }

  lemma {:induction false} WithoutAt(ps: Pages, chain: seq<nat>, p: nat, d: Page, i: nat, r: RID)
    requires p in chain && p < |ps| && PageOk(ps[p]) && PageOk(d) && Tuples(d) == Tuples(ps[p]) - {i}
    ensures Same(Contents(ps[p := d], chain), Contents(ps, chain) - {RID(p, i)}, r)
  {
    RewriteAt(ps, chain, p, d, r);
  }

  lemma RewriteWithout(ps: Pages, chain: seq<nat>, p: nat, d: Page, i: nat)
    requires p in chain && p < |ps| && PageOk(ps[p]) && PageOk(d) && Tuples(d) == Tuples(ps[p]) - {i}
    ensures Contents(ps[p := d], chain) == Contents(ps, chain) - {RID(p, i)}
  {
    var m, w := Contents(ps[p := d], chain), Contents(ps, chain) - {RID(p, i)};
    forall r: RID ensures Same(m, w, r) { WithoutAt(ps, chain, p, d, i, r); }
    AllSame(m, w);
  }

  /** Linking an empty page in at the end adds no tuple. */
  lemma ExtendKeeps(ps: Pages, chain: seq<nat>, e: Page)
    requires HeapOk(ps, chain) && |ps| < NO_PAGE
    requires PageOk(e) && Tuples(e) == map[] && NextPage(e) == NO_PAGE
    ensures chain[|chain| - 1] < |ps| && PageOk(ps[chain[|chain| - 1]])
    ensures var last := chain[|chain| - 1];
            var qs := ps[last := WriteHeader(ps[last], NumSlots(ps[last]), FreePtr(ps[last]), |ps|)] + [e];
            HeapOk(qs, chain + [|ps|]) && Contents(qs, chain + [|ps|]) == Contents(ps, chain)
  {
    var n := |chain|;
    var last := chain[n - 1];
    assert Linked(ps, chain, n - 1);
    RelinkRefines(ps[last], |ps|);
    var d := WriteHeader(ps[last], NumSlots(ps[last]), FreePtr(ps[last]), |ps|);
    var qs := ps[last := d] + [e];
    var more := chain + [|ps|];
    forall i | 0 <= i < |more| ensures Linked(qs, more, i) {
      if i < n {
        assert Linked(ps, chain, i);
        if i < n - 1 { ChainAscends(ps, chain, i, n - 1); }
      }
    }
    forall r: RID ensures Same(Contents(qs, more), Contents(ps, chain), r) {
      ExtendAt(ps, chain, last, d, e, r);
    }
    AllSame(Contents(qs, more), Contents(ps, chain));
  }

  lemma {:induction false} ExtendAt(ps: Pages, chain: seq<nat>, last: nat, d: Page, e: Page, r: RID)
    requires HeapOk(ps, chain) && last in chain && last < |ps| && PageOk(e) && Tuples(e) == map[]
    requires PageOk(ps[last]) && PageOk(d) && Tuples(d) == Tuples(ps[last])
    ensures Same(Contents(ps[last := d] + [e], chain + [|ps|]), Contents(ps, chain), r)
  {
    var qs := ps[last := d] + [e];
    if r.pageId in chain {
      var i := ChainIndex(ps, chain, r.pageId);
      assert qs[r.pageId] == if r.pageId == last then d else ps[r.pageId];
    }
  }

  /* ---------- opening a file ---------- */

  /** A walk along the links, never visiting a page twice. */
  ghost predicate Walk(ps: Pages, path: seq<nat>, first: nat) {
    && |path| > 0 && path[0] == first
    && (forall i :: 0 <= i < |path| ==> path[i] < |ps|)
    && (forall i :: 0 < i < |path| ==> NextPage(ps[path[i - 1]]) == path[i] != NO_PAGE)
    && (forall i, j :: 0 <= i < j < |path| ==> path[i] != path[j])
  }

  /** How `_find_last_page` can end. */
  datatype Opened = Last(pageId: nat) | Cycle(pageId: nat) | Missing(pageId: nat)

  /** Two walks from one page agree as far as both go. */
  lemma {:induction false} WalksAgree(ps: Pages, a: seq<nat>, b: seq<nat>, first: nat, i: nat)
    requires Walk(ps, a, first) && Walk(ps, b, first) && i < |a| && i < |b|
    ensures a[i] == b[i]
  {
    if i > 0 { WalksAgree(ps, a, b, first, i - 1); }
  }

  lemma ChainIsWalk(ps: Pages, chain: seq<nat>)
    requires HeapOk(ps, chain)
    ensures Walk(ps, chain, chain[0])
  {
    forall i | 0 <= i < |chain| ensures chain[i] < |ps| { assert Linked(ps, chain, i); }
    forall i | 0 < i < |chain| ensures NextPage(ps[chain[i - 1]]) == chain[i] != NO_PAGE {
      assert Linked(ps, chain, i - 1) && Linked(ps, chain, i);
    }
    forall i, j | 0 <= i < j < |chain| ensures chain[i] != chain[j] { ChainAscends(ps, chain, i, j); }
  }

  lemma WalkIsShort(ps: Pages, chain: seq<nat>, path: seq<nat>)
    requires HeapOk(ps, chain) && Walk(ps, path, chain[0])
    ensures |path| <= |chain|
  {
    ChainIsWalk(ps, chain);
    var k := if |path| > |chain| then |chain| - 1 else |path| - 1;
    WalksAgree(ps, path, chain, chain[0], k);
    WalkNext(ps, path, chain[0], k);
    ChainEnds(ps, chain);
  }

  lemma WalkNext(ps: Pages, path: seq<nat>, first: nat, k: nat)
    requires Walk(ps, path, first) && k < |path|
    ensures k + 1 < |path| ==> NextPage(ps[path[k]]) != NO_PAGE
  {
    if k + 1 < |path| { assert NextPage(ps[path[k]]) == path[k + 1]; }
  }

  lemma ChainEnds(ps: Pages, chain: seq<nat>)
    requires HeapOk(ps, chain)
    ensures chain[|chain| - 1] < |ps| && NextPage(ps[chain[|chain| - 1]]) == NO_PAGE
  {
    assert Linked(ps, chain, |chain| - 1);
  }

  /** On a sound file a walk is the start of the chain. */
  lemma WalkIsChain(ps: Pages, chain: seq<nat>, path: seq<nat>)
    requires HeapOk(ps, chain) && Walk(ps, path, chain[0])
    ensures |path| <= |chain| && path == chain[..|path|]
    ensures NextPage(ps[path[|path| - 1]]) == if |path| == |chain| then NO_PAGE else chain[|path|]
  {
    ChainIsWalk(ps, chain);
    WalkIsShort(ps, chain, path);
    var k := |path| - 1;
    WalksAgree(ps, path, chain, chain[0], k);
    assert Linked(ps, chain, k);
    forall i | 0 <= i < |path| ensures path[i] == chain[i] { WalksAgree(ps, path, chain, chain[0], i); }
  }

  /** On a sound file the next page of a walk exists and is new. */
  lemma WalkGoesOn(ps: Pages, chain: seq<nat>, path: seq<nat>)
    requires HeapOk(ps, chain) && Walk(ps, path, chain[0])
    ensures |path| <= |chain| && path == chain[..|path|]
    ensures var next := NextPage(ps[path[|path| - 1]]);
            if next == NO_PAGE then path == chain else next < |ps| && next !in path
  {
    WalkIsChain(ps, chain, path);
    if |path| < |chain| {
      assert Linked(ps, chain, |path|);
      forall i | 0 <= i < |path| ensures path[i] != chain[|path|] { ChainAscends(ps, chain, i, |path|); }
    } else {
      assert chain[..|chain|] == chain;
    }
  }

  lemma DistinctBounded(s: seq<nat>, n: nat)
    requires forall i :: 0 <= i < |s| ==> s[i] < n
    requires forall i, j :: 0 <= i < j < |s| ==> s[i] != s[j]
    ensures |s| <= n
    decreases n
  {
    assert |s| == 0 || s[0] < n;
    if n > 0 {
      if k :| 0 <= k < |s| && s[k] == n - 1 {
        DistinctBounded(s[..k] + s[k + 1..], n - 1);
      } else {
        DistinctBounded(s, n - 1);
      }
    }
  }

  lemma WalkFurther(ps: Pages, path: seq<nat>, first: nat, next: nat)
    requires Walk(ps, path, first) && next == NextPage(ps[path[|path| - 1]]) != NO_PAGE && next < |ps| && next !in path
    ensures Walk(ps, path + [next], first) && |path| < |ps|
  {
    var more := path + [next];
    forall i | 0 < i < |more| ensures NextPage(ps[more[i - 1]]) == more[i] != NO_PAGE {
      assert more[i - 1] == path[i - 1];
    }
    DistinctBounded(more, |ps|);
  }

  /** What `_find_last_page` found out along `path`. */
  ghost predicate Ends(ps: Pages, path: seq<nat>, first: nat, r: Opened) {
    if first >= |ps| then r == Missing(first) else Walk(ps, path, first) && match r
      case Last(p) => path[|path| - 1] == p && NextPage(ps[p]) == NO_PAGE
      case Cycle(p) => p in path && NextPage(ps[path[|path| - 1]]) == p
      case Missing(p) => p >= |ps| && NextPage(ps[path[|path| - 1]]) == p != NO_PAGE
  }

  /** On a sound file the search ends at the last page of the chain. */
  lemma SoundFileOpens(ps: Pages, chain: seq<nat>, path: seq<nat>, r: Opened)
    requires HeapOk(ps, chain) && Ends(ps, path, chain[0], r) && !(r.Cycle? && r.pageId == NO_PAGE)
    ensures r == Last(chain[|chain| - 1]) && path == chain
  {
    assert Linked(ps, chain, 0);
    WalkGoesOn(ps, chain, path);
  }

  /** Follow the links to the last page; a link back into the walk is an error. */
  method FindLastPage(ps: Pages, first: nat) returns (r: Opened, ghost path: seq<nat>)
    ensures Ends(ps, path, first, r) && !(r.Cycle? && r.pageId == NO_PAGE)
  {
    path := [first];
    if first >= |ps| { return Missing(first), path; }
    var pageId := first;
    var seen := {pageId};
    while true
      invariant Walk(ps, path, first) && pageId == path[|path| - 1] && seen == set p | p in path
      decreases |ps| - |path|
    {
      var next := NextPage(ps[pageId]);
      if next == NO_PAGE { return Last(pageId), path; }
      if next in seen { return Cycle(next), path; }
      seen := seen + {next};
      if next >= |ps| { return Missing(next), path; }
      WalkFurther(ps, path, first, next);
      path := path + [next];
      pageId := next;
    }
  }

  /* ---------- scanning ---------- */

  datatype Tuple = Tuple(rid: RID, bytes: seq<Byte>)

  predicate Before(a: RID, b: RID) {
    a.pageId < b.pageId || (a.pageId == b.pageId && a.slotId < b.slotId)
  }

  ghost predicate Ascending(ts: seq<Tuple>) {
    forall i, j :: 0 <= i < j < |ts| ==> Before(ts[i].rid, ts[j].rid)
  }

  /** `r` lies on the first `k` pages of the chain, or below slot `i` of the next one. */
  ghost predicate Passed(chain: seq<nat>, k: nat, i: nat, r: RID)
    requires k <= |chain|
  {
    r.pageId in chain[..k] || (k < |chain| && r.pageId == chain[k] && r.slotId < i)
  }

  /** What a scan of `m` has produced once it stands at slot `i` of page `k`. */
  ghost predicate ScannedTo(chain: seq<nat>, m: imap<RID, seq<Byte>>, k: nat, i: nat, ts: seq<Tuple>)
    requires k <= |chain|
  {
    && Ascending(ts)
    && (forall t :: t in ts ==> Passed(chain, k, i, t.rid) && t.rid in m && m[t.rid] == t.bytes)
    && (forall r :: r in m && Passed(chain, k, i, r) ==> Tuple(r, m[r]) in ts)
  }

  ghost predicate Climbs(chain: seq<nat>) {
    forall i, j :: 0 <= i < j < |chain| ==> chain[i] < chain[j]
  }

  /** A tuple of the current slot comes after all that was passed. */
  lemma PassedIsBefore(chain: seq<nat>, k: nat, i: nat, r: RID)
    requires Climbs(chain) && k < |chain| && Passed(chain, k, i, r)
    ensures Before(r, RID(chain[k], i))
  {
    if r.pageId in chain[..k] {
      var j :| 0 <= j < k && chain[j] == r.pageId;
    }
  }

  /** Passing one slot passes one RID. */
  lemma PassedNext(chain: seq<nat>, k: nat, i: nat, r: RID)
    requires k < |chain|
    ensures Passed(chain, k, i + 1, r) <==> Passed(chain, k, i, r) || r == RID(chain[k], i)
  {
  }

  lemma SkipSlot(chain: seq<nat>, m: imap<RID, seq<Byte>>, k: nat, i: nat, ts: seq<Tuple>)
    requires k < |chain| && ScannedTo(chain, m, k, i, ts) && RID(chain[k], i) !in m
    ensures ScannedTo(chain, m, k, i + 1, ts)
  {
    forall t | t in ts ensures Passed(chain, k, i + 1, t.rid) { PassedNext(chain, k, i, t.rid); }
    forall r | r in m && Passed(chain, k, i + 1, r) ensures Tuple(r, m[r]) in ts { PassedNext(chain, k, i, r); }
  }

  lemma YieldSlot(chain: seq<nat>, m: imap<RID, seq<Byte>>, k: nat, i: nat, ts: seq<Tuple>, t: Tuple)
    requires Climbs(chain) && k < |chain| && ScannedTo(chain, m, k, i, ts)
    requires t.rid == RID(chain[k], i) && t.rid in m && m[t.rid] == t.bytes
    ensures ScannedTo(chain, m, k, i + 1, ts + [t])
  {
    var more := ts + [t];
    forall x, y | 0 <= x < y < |more| ensures Before(more[x].rid, more[y].rid) {
      if y == |ts| {
        assert more[x] in ts;
        PassedIsBefore(chain, k, i, more[x].rid);
      }
    }
    forall u | u in more ensures Passed(chain, k, i + 1, u.rid) { PassedNext(chain, k, i, u.rid); }
    forall r | r in m && Passed(chain, k, i + 1, r) ensures Tuple(r, m[r]) in more { PassedNext(chain, k, i, r); }
  }

  /** At the end of a page every tuple of the page was passed. */
  lemma NextChainPage(chain: seq<nat>, m: imap<RID, seq<Byte>>, k: nat, slots: nat, ts: seq<Tuple>)
    requires k < |chain| && ScannedTo(chain, m, k, slots, ts)
    requires forall r :: r in m && r.pageId == chain[k] ==> r.slotId < slots
    ensures ScannedTo(chain, m, k + 1, 0, ts)
  {
    assert chain[..k + 1] == chain[..k] + [chain[k]];
    forall t | t in ts ensures Passed(chain, k + 1, 0, t.rid) { assert Passed(chain, k, slots, t.rid); }
    forall r | r in m && Passed(chain, k + 1, 0, r) ensures Tuple(r, m[r]) in ts { assert Passed(chain, k, slots, r); }
  }

  lemma SlotsBound(ps: Pages, chain: seq<nat>, p: nat)
    requires HeapOk(ps, chain) && p in chain && p < |ps|
    ensures forall r :: r in Contents(ps, chain) && r.pageId == p ==> r.slotId < NumSlots(ps[p])
  {
  }

  /** The live tuples of a file, each once, in RID order. */
  ghost predicate Lists(ts: seq<Tuple>, m: imap<RID, seq<Byte>>) {
    && Ascending(ts)
    && (forall t :: t in ts ==> t.rid in m && m[t.rid] == t.bytes)
    && (forall r :: r in m ==> Tuple(r, m[r]) in ts)
  }

  lemma ScanDone(ps: Pages, chain: seq<nat>, ts: seq<Tuple>)
    requires ScannedTo(chain, Contents(ps, chain), |chain|, 0, ts)
    ensures Lists(ts, Contents(ps, chain))
  {
    assert chain[..|chain|] == chain;
    forall r | r in Contents(ps, chain) ensures Passed(chain, |chain|, 0, r) { }
  }

  lemma ScanStart(chain: seq<nat>, m: imap<RID, seq<Byte>>)
    ensures ScannedTo(chain, m, 0, 0, [])
  {
  }

  /** Reading slot `i` of a chain page tells whether the RID is live, and its bytes. */
  lemma SlotTells(ps: Pages, chain: seq<nat>, p: nat, i: nat)
    requires HeapOk(ps, chain) && p in chain
    ensures p < |ps| && PageOk(ps[p])
    ensures i < NumSlots(ps[p]) ==> HasSlot(ps[p], i)
    ensures RID(p, i) in Contents(ps, chain) <==> Live(ps[p], i)
    ensures Live(ps[p], i) ==> TupleOffset(ps[p], i) + TupleLength(ps[p], i) <= PAGE_SIZE
    ensures Live(ps[p], i) ==>
      Contents(ps, chain)[RID(p, i)] == ps[p][TupleOffset(ps[p], i)..TupleOffset(ps[p], i) + TupleLength(ps[p], i)]
  {
    var k := ChainIndex(ps, chain, p);
    assert InArea(ps[p], i);
  }

  /** Slot `i` of the page bytes `d` shows what `m` holds under its RID. */
  ghost predicate Shows(d: Page, p: nat, m: imap<RID, seq<Byte>>, i: nat) {
    && SlotOffset(i) + SLOT_SIZE <= PAGE_SIZE
    && (TupleLength(d, i) == DELETED ==> RID(p, i) !in m)
    && (TupleLength(d, i) != DELETED ==>
          && TupleOffset(d, i) + TupleLength(d, i) <= PAGE_SIZE
          && RID(p, i) in m && m[RID(p, i)] == d[TupleOffset(d, i)..TupleOffset(d, i) + TupleLength(d, i)])
  }

  lemma PageShows(ps: Pages, chain: seq<nat>, p: nat)
    requires HeapOk(ps, chain) && p in chain && p < |ps|
    ensures forall i :: 0 <= i < NumSlots(ps[p]) ==> Shows(ps[p], p, Contents(ps, chain), i)
  {
    var m := Contents(ps, chain);
    forall i | 0 <= i < NumSlots(ps[p]) ensures Shows(ps[p], p, m, i) { SlotTells(ps, chain, p, i); }
  }

  lemma ChainClimbs(ps: Pages, chain: seq<nat>)
    requires HeapOk(ps, chain)
    ensures Climbs(chain)
  {
    forall i, j | 0 <= i < j < |chain| ensures chain[i] < chain[j] { ChainAscends(ps, chain, i, j); }
  }

  /** The inner loop of `scan`: the live slots of one page. */
  method ScanPage(data: Page, pageId: nat, before: seq<Tuple>, ghost chain: seq<nat>, ghost m: imap<RID, seq<Byte>>,
                  ghost k: nat)
    returns (ts: seq<Tuple>)
    requires Climbs(chain) && k < |chain| && chain[k] == pageId
    requires forall i :: 0 <= i < NumSlots(data) ==> Shows(data, pageId, m, i)
    requires ScannedTo(chain, m, k, 0, before)
    ensures ScannedTo(chain, m, k, NumSlots(data), ts)
  {
    ts := before;
    var i := 0;
    while i < NumSlots(data)
      invariant i <= NumSlots(data) && ScannedTo(chain, m, k, i, ts)
    {
      assert Shows(data, pageId, m, i);
      var offset, length := TupleOffset(data, i), TupleLength(data, i);
      if length != DELETED {
        var t := Tuple(RID(pageId, i), data[offset..offset + length]);
        YieldSlot(chain, m, k, i, ts, t);
        ts := ts + [t];
      } else {
        SkipSlot(chain, m, k, i, ts);
      }
      i := i + 1;
    }
  }

  /** The loop of `scan` over the page chain. */
  method ScanChain(ps: Pages, first: nat, ghost chain: seq<nat>) returns (ts: seq<Tuple>)
    requires HeapOk(ps, chain) && chain[0] == first
    ensures Lists(ts, Contents(ps, chain))
  {
    ts := [];
    var pageId := first;
    ghost var k, m := 0, Contents(ps, chain);
    ScanStart(chain, m);
    ChainClimbs(ps, chain);
    assert Linked(ps, chain, 0);
    while pageId != NO_PAGE
      invariant k <= |chain| && ScannedTo(chain, m, k, 0, ts)
      invariant pageId == if k < |chain| then chain[k] else NO_PAGE
      decreases |chain| - k
    {
      assert Linked(ps, chain, k);
      PageShows(ps, chain, pageId);
      SlotsBound(ps, chain, pageId);
      ts := ScanPage(ps[pageId], pageId, ts, chain, m, k);
      NextChainPage(chain, m, k, NumSlots(ps[pageId]), ts);
      pageId := NextPage(ps[pageId]);
      k := k + 1;
    }
    assert k < |chain| ==> Linked(ps, chain, k);
    ScanDone(ps, chain, ts);
  }

  /** Two listings of one file are the same list. */
  lemma {:induction false} ListsUnique(a: seq<Tuple>, b: seq<Tuple>, m: imap<RID, seq<Byte>>)
    requires Lists(a, m) && Lists(b, m)
    ensures a == b
    decreases |a|
  {
    SameHead(a, b, m);
    if a != [] {
      ListsTail(a, m);
      ListsTail(b, m);
      ListsUnique(a[1..], b[1..], m - {a[0].rid});
      assert a == [a[0]] + a[1..] && b == [b[0]] + b[1..];
    }
  }

  lemma ListsMember(a: seq<Tuple>, b: seq<Tuple>, m: imap<RID, seq<Byte>>, i: nat) returns (j: nat)
    requires Lists(a, m) && Lists(b, m) && i < |a|
    ensures j < |b| && b[j] == a[i]
  {
    assert a[i] in a;
    assert Tuple(a[i].rid, m[a[i].rid]) in b;
    j :| 0 <= j < |b| && b[j] == a[i];
  }

  lemma SameHead(a: seq<Tuple>, b: seq<Tuple>, m: imap<RID, seq<Byte>>)
    requires Lists(a, m) && Lists(b, m)
    ensures a == [] <==> b == []
    ensures a != [] && b != [] ==> a[0] == b[0]
  {
    if a != [] { var i := ListsMember(a, b, m, 0); }
    if b != [] { var i := ListsMember(b, a, m, 0); }
    if a != [] && b != [] {
      var i := ListsMember(a, b, m, 0);
      var j := ListsMember(b, a, m, 0);
      assert i > 0 ==> Before(b[0].rid, b[i].rid);
      assert j > 0 ==> Before(a[0].rid, a[j].rid);
    }
  }

  lemma ListsTail(a: seq<Tuple>, m: imap<RID, seq<Byte>>)
    requires Lists(a, m) && a != []
    ensures Lists(a[1..], m - {a[0].rid})
  {
    forall t | t in a[1..] ensures t.rid != a[0].rid && t in a {
      var k :| 0 <= k < |a[1..]| && a[1..][k] == t;
      assert a[k + 1] == t && Before(a[0].rid, a[k + 1].rid);
    }
    forall r | r in m && r != a[0].rid ensures Tuple(r, m[r]) in a[1..] {
      var k :| 0 <= k < |a| && a[k] == Tuple(r, m[r]);
      assert a[1..][k - 1] == a[k];
    }
  }

  /* ---------- inserting ---------- */

  lemma TargetUnique(d: Page, i: nat, j: nat)
    requires IsTarget(d, i) && IsTarget(d, j)
    ensures i == j
  {
  }

  /** The first free slot: the first deleted one, else one more. */
  method FindSlot(d: Page) returns (index: nat)
    requires PageOk(d)
    ensures index <= NumSlots(d) && IsTarget(d, index)
  {
    index := 0;
    while index < NumSlots(d)
      invariant index <= NumSlots(d)
      invariant forall j :: 0 <= j < index ==> Live(d, j)
    {
      if TupleLength(d, index) == DELETED { return; }
      index := index + 1;
    }
  }

  /** The row finds room on the page. */
  ghost predicate Room(d: Page, row: seq<Byte>) {
    exists i :: CanStore(d, i, row)
  }

  /** Pages outside the chain keep their bytes. */
  ghost predicate Untouched(ps: Pages, qs: Pages, chain: seq<nat>) {
    |ps| <= |qs| && forall p :: 0 <= p < |ps| && p !in chain ==> qs[p] == ps[p]
  }

  lemma UntouchedOn(ps: Pages, qs: Pages, rs: Pages, chain: seq<nat>, links: seq<nat>)
    requires Untouched(ps, qs, chain) && Untouched(qs, rs, links) && links == chain + [|ps|]
    ensures Untouched(ps, rs, chain)
  {
    forall p | 0 <= p < |ps| && p !in chain ensures rs[p] == ps[p] { assert p !in links && qs[p] == ps[p]; }
  }

  /** `qs` holds what `ps` holds and `row` under a RID that was free; only chain pages changed. */
  ghost predicate Inserted(ps: Pages, chain: seq<nat>, qs: Pages, links: seq<nat>, rid: RID, row: seq<Byte>) {
    && rid !in Contents(ps, chain)
    && Contents(qs, links) == Contents(ps, chain)[rid := row]
    && Untouched(ps, qs, chain)
  }

  lemma StoreInserts(ps: Pages, chain: seq<nat>, p: nat, index: nat, row: seq<Byte>)
    requires HeapOk(ps, chain) && p in chain && p < |ps| && CanStore(ps[p], index, row)
    ensures HeapOk(ps[p := Stored(ps[p], index, row)], chain)
    ensures Inserted(ps, chain, ps[p := Stored(ps[p], index, row)], chain, RID(p, index), row)
    ensures Room(ps[p], row)
  {
    var d := Stored(ps[p], index, row);
    StoreRefines(ps[p], index, row);
    RewriteOk(ps, chain, p, d);
    RewriteSlot(ps, chain, p, d, index, row);
    RewriteAt(ps, chain, p, d, RID(p, index));
    RewriteElsewhere(ps, chain, p, d);
  }

  lemma RewriteElsewhere(ps: Pages, chain: seq<nat>, p: nat, d: Page)
    requires p in chain && p < |ps|
    ensures Untouched(ps, ps[p := d], chain)
  {
  }

  lemma GrowThenInsert(ps: Pages, chain: seq<nat>, qs: Pages, links: seq<nat>, rs: Pages, rid: RID, row: seq<Byte>)
    requires Contents(qs, links) == Contents(ps, chain) && Untouched(ps, qs, chain) && links == chain + [|ps|]
    requires Inserted(qs, links, rs, links, rid, row)
    ensures Inserted(ps, chain, rs, links, rid, row)
  {
    UntouchedOn(ps, qs, rs, chain, links);
  }

  /** The page is full when the space between directory and tuples is too short. */
  lemma NoRoom(d: Page, index: nat, row: seq<Byte>)
    requires PageOk(d) && IsTarget(d, index)
    ensures Room(d, row)
       <==> FreePtr(d) - SlotOffset(NumSlots(d)) - (if index < NumSlots(d) then 0 else SLOT_SIZE) >= |row|
    ensures Room(d, row) ==> CanStore(d, index, row)
  {
    forall i | CanStore(d, i, row) ensures i == index { TargetUnique(d, i, index); }
    assert Fits(d, index, row) ==> CanStore(d, index, row);
  }

  /** The slot a row would get and the bytes left for it. */
  method Measure(d: Page, ghost row: seq<Byte>) returns (index: nat, available: int)
    requires PageOk(d)
    ensures available >= |row| <==> Room(d, row)
    ensures available >= |row| ==> CanStore(d, index, row)
  {
    index := FindSlot(d);
    var reuse := index < NumSlots(d);
    var neededSlotBytes := if reuse then 0 else SLOT_SIZE;
    available := FreePtr(d) - SlotOffset(NumSlots(d)) - neededSlotBytes;
    NoRoom(d, index, row);
  }

  datatype Outcome<T> = Done(value: T) | RowTooLong | NoSuchPage

  class HeapFile {
    var pages: Pages
    const firstPageId: nat
    var lastPageId: nat
    ghost var chain: seq<nat>

    ghost predicate Valid()
      reads this
    {
      HeapOk(pages, chain) && chain[0] == firstPageId && chain[|chain| - 1] == lastPageId < |pages|
    }

    ghost function Rows(): (m: imap<RID, seq<Byte>>)
      reads this
    {
      Contents(pages, chain)
    }

    /** A RID names a page of this file, or no page at all. */
    ghost predicate Ours(r: RID)
      reads this
    {
      r.pageId < |pages| ==> r.pageId in chain
    }

    /** A new file: one empty page after the pages there are. */
    constructor (ps: Pages)
      requires |ps| < NO_PAGE
      ensures Valid() && Rows() == imap[] && firstPageId == |ps|
      ensures |pages| == |ps| + 1 && pages[..|ps|] == ps
    {
      var blank: Page := seq(PAGE_SIZE, _ => 0);
      EmptyPage(blank, []);
      firstPageId, lastPageId := |ps|, |ps|;
      pages := ps + [InitPage(blank)];
      chain := [|ps|];
      new;
      assert Linked(pages, chain, 0);
    }

    /** Reopening a sound file finds its last page. */
    constructor Open(ps: Pages, first: nat, ghost links: seq<nat>)
      requires HeapOk(ps, links) && links[0] == first
      ensures Valid() && pages == ps && chain == links && firstPageId == first
    {
      var r, path := FindLastPage(ps, first);
      SoundFileOpens(ps, links, path, r);
      firstPageId, lastPageId, pages, chain := first, r.pageId, ps, links;
    }

    /** Link an empty page in at the end; any row that fits a page fits it. */
    method AddPage(ghost row: seq<Byte>)
      requires Valid() && |pages| < NO_PAGE && HEADER_SIZE + SLOT_SIZE + |row| <= PAGE_SIZE
      modifies this
      ensures Valid() && Rows() == old(Rows()) && chain == old(chain) + [|old(pages)|] && |pages| == |old(pages)| + 1
      ensures Room(pages[lastPageId], row)
      ensures Untouched(old(pages), pages, old(chain))
    {
      var blank: Page := seq(PAGE_SIZE, _ => 0);
      EmptyPage(blank, row);
      ExtendKeeps(pages, chain, InitPage(blank));
      var data := pages[lastPageId];
      var newPageId := |pages|;
      pages := pages[lastPageId := WriteHeader(data, NumSlots(data), FreePtr(data), newPageId)] + [InitPage(blank)];
      lastPageId := newPageId;
      chain := chain + [newPageId];
    }

    /** Store a row: one new RID, nothing else moves, one more page only if there is no room. */
    method Insert(row: seq<Byte>) returns (r: Outcome<RID>)
      requires Valid() && (|pages| < NO_PAGE || Room(pages[lastPageId], row))
      modifies this
      ensures Valid()
      ensures r.RowTooLong? <==> HEADER_SIZE + SLOT_SIZE + |row| > PAGE_SIZE
      ensures !r.NoSuchPage?
      ensures r.RowTooLong? ==> pages == old(pages) && chain == old(chain)
      ensures r.Done? ==> Inserted(old(pages), old(chain), pages, chain, r.value, row) && r.value.pageId == lastPageId
      ensures r.Done? ==> |pages| == |old(pages)| + |chain| - |old(chain)|
      ensures r.Done? ==>
        chain == if Room(old(pages)[old(lastPageId)], row) then old(chain) else old(chain) + [|old(pages)|]
      decreases if Room(pages[lastPageId], row) then 0 else 1
    {
      if HEADER_SIZE + SLOT_SIZE + |row| > PAGE_SIZE { return RowTooLong; }
      var pageId := lastPageId;
      assert Linked(pages, chain, |chain| - 1);
      var data := pages[pageId];
      var index, available := Measure(data, row);
      if available < |row| {
        AddPage(row);
        ghost var grown, links := pages, chain;
        r := Insert(row);
        GrowThenInsert(old(pages), old(chain), grown, links, pages, r.value, row);
      } else {
        StoreInserts(pages, chain, pageId, index, row);
        pages := pages[pageId := Stored(data, index, row)];
        r := Done(RID(pageId, index));
      }
    }

    /** The tuple at a RID, if it is live. */
    method Get(rid: RID) returns (r: Outcome<Option<seq<Byte>>>)
      requires Valid() && Ours(rid)
      ensures r.NoSuchPage? <==> rid.pageId >= |pages|
      ensures !r.RowTooLong?
      ensures r.Done? ==> r.value == if rid in Rows() then Some(Rows()[rid]) else None
    {
      if rid.pageId >= |pages| { return NoSuchPage; }
      SlotTells(pages, chain, rid.pageId, rid.slotId);
      var data := pages[rid.pageId];
      if rid.slotId >= NumSlots(data) || TupleLength(data, rid.slotId) == DELETED { return Done(None); }
      var offset, length := TupleOffset(data, rid.slotId), TupleLength(data, rid.slotId);
      return Done(Some(data[offset..offset + length]));
    }

    /** Overwrite a live tuple by one of the same length; anything else is refused. */
    method UpdateInPlace(rid: RID, bytes: seq<Byte>) returns (r: Outcome<bool>)
      requires Valid() && Ours(rid)
      modifies this`pages
      ensures Valid() && |pages| == |old(pages)|
      ensures r.NoSuchPage? <==> rid.pageId >= |pages|
      ensures !r.RowTooLong?
      ensures r.Done? ==> (r.value <==> rid in old(Rows()) && |old(Rows())[rid]| == |bytes|)
      ensures Rows() == if r.Done? && r.value then old(Rows())[rid := bytes] else old(Rows())
      ensures forall p :: 0 <= p < |pages| && p != rid.pageId ==> pages[p] == old(pages)[p]
    {
      if rid.pageId >= |pages| { return NoSuchPage; }
      SlotTells(pages, chain, rid.pageId, rid.slotId);
      var data := pages[rid.pageId];
      if rid.slotId >= NumSlots(data) { return Done(false); }
      if TupleLength(data, rid.slotId) == DELETED || TupleLength(data, rid.slotId) != |bytes| { return Done(false); }
      OverwriteRefines(data, rid.slotId, bytes);
      var next := Splice(data, TupleOffset(data, rid.slotId), bytes);
      RewriteOk(pages, chain, rid.pageId, next);
      RewriteSlot(pages, chain, rid.pageId, next, rid.slotId, bytes);
      pages := pages[rid.pageId := next];
      return Done(true);
    }

    /** Free a live slot. */
    method Delete(rid: RID) returns (r: Outcome<bool>)
      requires Valid() && Ours(rid)
      modifies this`pages
      ensures Valid() && |pages| == |old(pages)|
      ensures r.NoSuchPage? <==> rid.pageId >= |pages|
      ensures !r.RowTooLong?
      ensures r.Done? ==> (r.value <==> rid in old(Rows()))
      ensures Rows() == old(Rows()) - {rid}
      ensures forall p :: 0 <= p < |pages| && p != rid.pageId ==> pages[p] == old(pages)[p]
    {
      if rid.pageId >= |pages| {
        WithoutMissing(Rows(), rid);
        return NoSuchPage;
      }
      SlotTells(pages, chain, rid.pageId, rid.slotId);
      var data := pages[rid.pageId];
      if rid.slotId >= NumSlots(data) || TupleLength(data, rid.slotId) == DELETED {
        WithoutMissing(Rows(), rid);
        return Done(false);
      }
      DeleteRefines(data, rid.slotId);
      var next := WriteSlot(data, rid.slotId, 0, DELETED);
      RewriteOk(pages, chain, rid.pageId, next);
      RewriteWithout(pages, chain, rid.pageId, next, rid.slotId);
      pages := pages[rid.pageId := next];
      return Done(true);
    }

    /** Every live tuple once, in ascending RID order. */
    method Scan() returns (ts: seq<Tuple>)
      requires Valid()
      ensures Lists(ts, Rows())
    {
      ts := ScanChain(pages, firstPageId, chain);
    }
  }
}
