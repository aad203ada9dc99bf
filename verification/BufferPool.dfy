/** The buffer pool: a fixed number of frames that behaves as a plain page map. */
module BufferPool {
  import opened Sequences
  import opened Bytes

  type PageId = nat

  function ZeroPage(): (p: Page) { seq(PAGE_SIZE, _ => 0) }

  datatype Frame = Frame(page: Option<PageId>, data: Page, pin: nat, dirty: bool)

  datatype Fetched = Got(data: Page) | PoolFull | NoSuchPage

  /** A frame holds the page the table says it holds. */
  ghost predicate Mapped(frames: seq<Frame>, table: map<PageId, nat>, f: int) {
    0 <= f < |frames| && frames[f].page.Some? && frames[f].page.value in table && table[frames[f].page.value] == f
  }

  ghost predicate NoDuplicates(s: seq<nat>) {
    forall i, j :: 0 <= i < j < |s| ==> s[i] != s[j]
  }

  function Remove(s: seq<nat>, x: nat): (r: seq<nat>) {
    if s == [] then [] else if s[0] == x then s[1..] else [s[0]] + Remove(s[1..], x)
  }

  lemma {:induction false} RemoveMembers(s: seq<nat>, x: nat)
    requires NoDuplicates(s)
    ensures forall y :: y in Remove(s, x) <==> y in s && y != x
    ensures NoDuplicates(Remove(s, x))
  {
    if s != [] {
      var t := s[1..];
      assert s == [s[0]] + t;
      assert s[0] !in t;
      RemoveMembers(t, x);
      NoDuplicatesCons(s[0], Remove(t, x));
    }
  }

  lemma NoDuplicatesCons(h: nat, t: seq<nat>)
    requires NoDuplicates(t)
    ensures h !in t ==> NoDuplicates([h] + t)
  {
  }

  /** Strictly increasing times along a queue. */
  ghost predicate InOrder(s: seq<nat>, since: map<nat, nat>) {
    && (forall i :: 0 <= i < |s| ==> s[i] in since)
    && forall i, j :: 0 <= i < j < |s| ==> since[s[i]] < since[s[j]]
  }

  lemma InOrderCons(h: nat, t: seq<nat>, since: map<nat, nat>)
    requires InOrder(t, since) && h in since && forall y :: y in t ==> since[h] < since[y]
    ensures InOrder([h] + t, since)
  {
  }

  lemma {:induction false} RemoveInOrder(s: seq<nat>, x: nat, since: map<nat, nat>)
    requires InOrder(s, since) && NoDuplicates(s)
    ensures InOrder(Remove(s, x), since)
  {
    if s != [] {
      var t := s[1..];
      RemoveInOrder(t, x, since);
      RemoveMembers(t, x);
      forall y | y in Remove(t, x) ensures since[s[0]] < since[y] {
        var j :| 0 <= j < |t| && t[j] == y;
        assert s[j + 1] == y;
      }
      InOrderCons(s[0], Remove(t, x), since);
    }
  }

  /** The state of a pool, with the bookkeeping the specification needs. */
  datatype Pool = Pool(
    disk: map<PageId, Page>,
    numPages: nat,
    frames: seq<Frame>,
    table: map<PageId, nat>,
    free: seq<nat>,
    lru: seq<nat>)

  /** `mem` is the plain page map; `touched` are pages written by a holder that
      has not yet unpinned them as dirty; `leaked` are frames lost to fetches of
      pages that do not exist. `released` tells when a page was last fully unpinned, on
      a clock `now` that ticks with every unpin; `since` tells it per frame. */
  datatype Book = Book(mem: map<PageId, Page>, touched: set<PageId>, leaked: set<nat>, released: map<PageId, nat>,
                       since: map<nat, nat>, now: nat)

  /** Every frame is exactly one of free, mapped, leaked; the mapped frames nobody
      holds are exactly the LRU queue. */
  ghost predicate Partition(s: Pool, b: Book) {
    && (forall p :: p in s.table ==> Mapped(s.frames, s.table, s.table[p]) && s.frames[s.table[p]].page == Some(p))
    && NoDuplicates(s.free) && NoDuplicates(s.lru)
    && (forall f :: f in s.free || f in b.leaked ==> f < |s.frames|)
    && (forall f :: f in s.free ==> f !in b.leaked)
    && (forall f :: 0 <= f < |s.frames| ==> (Mapped(s.frames, s.table, f) <==> f !in s.free && f !in b.leaked))
    && (forall f :: f in s.lru <==> Mapped(s.frames, s.table, f) && s.frames[f].pin == 0)
  }

  /** Frames hold the page map, and the disk does wherever nothing is unsaved. */
  ghost predicate Coherent(s: Pool, b: Book) {
    && b.mem.Keys == s.disk.Keys && (forall p :: p in s.disk <==> p < s.numPages)
    && s.table.Keys <= s.disk.Keys && b.touched <= s.table.Keys
    && (forall p {:trigger PageOk(s, b, p)} :: p in s.table ==> PageOk(s, b, p))
    && (forall p :: p in s.disk && p !in s.table ==> s.disk[p] == b.mem[p])
  }

  ghost predicate PageOk(s: Pool, b: Book, p: PageId)
    requires p in s.table && p in b.mem && p in s.disk
  {
    && s.table[p] < |s.frames|
    && var f := s.frames[s.table[p]];
       && f.data == b.mem[p]
       && (!f.dirty && p !in b.touched ==> s.disk[p] == b.mem[p])
       && (p in b.touched ==> f.pin > 0)
       && (f.pin == 0 ==> p in b.released && s.table[p] in b.since && b.released[p] == b.since[s.table[p]])
  }

  ghost predicate Good(s: Pool, b: Book) {
    && Partition(s, b) && Coherent(s, b)
    && InOrder(s.lru, b.since) && forall f :: f in b.since ==> b.since[f] < b.now
  }

  /* ---------- eviction ---------- */

  /** Taking a free frame. */
  lemma TakeFree(s: Pool, b: Book)
    requires Good(s, b) && s.free != []
    ensures var n := |s.free| - 1;
            var f := s.free[n];
            f !in b.leaked && f < |s.frames| && Good(s.(free := s.free[..n]), b.(leaked := b.leaked + {f}))
  {
    var n := |s.free| - 1;
    var f := s.free[n];
    var w := s.(free := s.free[..n]);
    assert s.free == w.free + [f];
    assert forall g :: g in s.free <==> g in w.free || g == f;
    forall q | q in w.table ensures PageOk(w, b.(leaked := b.leaked + {f}), q) {
      assert PageOk(s, b, q);
    }
  }

  /** The pool after its LRU victim has gone, saved first if it was dirty. */
  ghost function Evicted(s: Pool): (w: Pool)
    requires s.lru != [] && s.lru[0] < |s.frames| && s.frames[s.lru[0]].page.Some?
  {
    var f := s.lru[0];
    var p := s.frames[f].page.value;
    s.(disk := if s.frames[f].dirty then s.disk[p := s.frames[f].data] else s.disk,
       table := s.table - {p}, lru := s.lru[1..])
  }

  lemma EvictFacts(s: Pool, b: Book)
    requires Good(s, b) && s.lru != []
    ensures var f := s.lru[0];
            && f < |s.frames| && s.frames[f].page.Some? && f !in b.leaked && f !in s.free
            && s.frames[f].page.value in s.table && s.table[s.frames[f].page.value] == f
            && s.frames[f].page.value in s.disk && s.frames[f].pin == 0
  {
    assert s.lru[0] in s.lru;
  }

  lemma EvictPartition(s: Pool, b: Book)
    requires Good(s, b) && s.lru != [] && s.lru[0] < |s.frames| && s.frames[s.lru[0]].page.Some?
    ensures Partition(Evicted(s), b.(leaked := b.leaked + {s.lru[0]}))
  {
    EvictFacts(s, b);
    var f, w := s.lru[0], Evicted(s);
    var p := s.frames[f].page.value;
    assert s.lru == [f] + w.lru;
    assert f !in w.lru;
    forall g | 0 <= g < |s.frames| ensures Mapped(w.frames, w.table, g) <==> Mapped(s.frames, s.table, g) && g != f {
    }
    forall g ensures g in w.lru <==> Mapped(w.frames, w.table, g) && w.frames[g].pin == 0 {
      assert g in w.lru ==> g in s.lru;
      assert g in s.lru ==> g == f || g in w.lru;
    }
  }

  lemma EvictGood(s: Pool, b: Book)
    requires Good(s, b) && s.lru != [] && s.lru[0] < |s.frames| && s.frames[s.lru[0]].page.Some?
    ensures Good(Evicted(s), b.(leaked := b.leaked + {s.lru[0]}))
  {
    EvictFacts(s, b);
    EvictPartition(s, b);
    var f, w := s.lru[0], Evicted(s);
    var p := s.frames[f].page.value;
    assert PageOk(s, b, p);
    forall q | q in w.table ensures PageOk(w, b, q) {
      assert PageOk(s, b, q);
    }
  }

  /** A resident page that nobody holds. */
  ghost predicate Idle(s: Pool, p: PageId) {
    p in s.table && Holders(s, p) == 0
  }

  /** No idle page was fully unpinned before `v`. */
  ghost predicate Oldest(s: Pool, b: Book, v: PageId) {
    Idle(s, v) && v in b.released && forall q :: Idle(s, q) ==> q in b.released && b.released[v] <= b.released[q]
  }

  /** The victim is the idle page unpinned longest ago. */
  lemma VictimIsOldest(s: Pool, b: Book)
    requires Good(s, b) && s.lru != []
    ensures s.lru[0] < |s.frames| && s.frames[s.lru[0]].page.Some? && Oldest(s, b, s.frames[s.lru[0]].page.value)
  {
    EvictFacts(s, b);
    var v := s.frames[s.lru[0]].page.value;
    assert PageOk(s, b, v);
    forall q | Idle(s, q) ensures q in b.released && b.released[v] <= b.released[q] {
      var f := s.table[q];
      assert PageOk(s, b, q);
      assert Mapped(s.frames, s.table, f) && f in s.lru;
      var i :| 0 <= i < |s.lru| && s.lru[i] == f;
    }
  }

  /** What making room for `p` does to the resident pages: nothing leaves while a frame is
      free or `p` is there already; otherwise only the oldest idle page may. */
  ghost predicate Displaced(s: Pool, b: Book, w: Pool, p: PageId) {
    && w.table.Keys <= s.table.Keys + {p}
    && (|| s.table.Keys <= w.table.Keys
        || (s.free == [] && p !in s.table && exists v :: Oldest(s, b, v) && s.table.Keys - {v} <= w.table.Keys))
  }

  /** Allocating on disk first makes no difference to who is displaced. */
  lemma DisplacedBy(s: Pool, b: Book, a: Pool, c: Book, w: Pool, p: PageId)
    requires a.table == s.table && a.frames == s.frames && a.free == s.free && c.released == b.released
    requires Displaced(a, c, w, p)
    ensures Displaced(s, b, w, p)
  {
    forall v | Oldest(a, c, v) ensures Oldest(s, b, v) {
      assert Idle(a, v) && Idle(s, v);
      forall q | Idle(s, q) ensures q in b.released && b.released[v] <= b.released[q] { assert Idle(a, q); }
    }
  }

  /** Page `v` is gone, and `p` may be there. */
  ghost predicate Without(s: Pool, w: Pool, v: PageId, p: PageId) {
    w.table == s.table - {v} || w.table.Keys == s.table.Keys - {v} + {p}
  }

  /** What an eviction and the loading of `p` leave. */
  lemma EvictDisplaces(s: Pool, b: Book, w: Pool, p: PageId)
    requires p !in s.table
    requires || w.table == s.table || w.table.Keys == s.table.Keys + {p}
             || (s.free == [] && exists v :: Oldest(s, b, v) && Without(s, w, v, p))
    ensures Displaced(s, b, w, p)
  {
  }

  lemma LaterStays(s: Pool, b: Book, w: Pool, x: PageId, y: PageId, p: PageId)
    requires Displaced(s, b, w, p) && Idle(s, x) && Idle(s, y) && x in b.released && y in b.released
    requires b.released[x] < b.released[y]
    ensures y in w.table
  {
    if v :| Oldest(s, b, v) && s.table.Keys - {v} <= w.table.Keys { assert v != y; }
  }

  /* ---------- pinning ---------- */

  /** Putting a page into a frame that belongs to nobody, held once. */
  ghost function Installed(s: Pool, f: nat, p: PageId, data: Page): (w: Pool)
    requires f < |s.frames|
  {
    s.(frames := s.frames[f := Frame(Some(p), data, 1, false)], table := s.table[p := f])
  }

  lemma InstallGood(s: Pool, b: Book, f: nat, p: PageId)
    requires Good(s, b) && f in b.leaked && f < |s.frames| && p in s.disk && p !in s.table
    ensures Good(Installed(s, f, p, s.disk[p]), b.(leaked := b.leaked - {f}))
  {
    var w := Installed(s, f, p, s.disk[p]);
    var c := b.(leaked := b.leaked - {f});
    forall q | q in s.table ensures s.table[q] != f {
      assert Mapped(s.frames, s.table, s.table[q]);
    }
    forall g | 0 <= g < |s.frames| && g != f ensures Mapped(w.frames, w.table, g) <==> Mapped(s.frames, s.table, g) {
    }
    assert f !in s.lru;
    forall q | q in w.table ensures PageOk(w, c, q) {
      if q != p { assert PageOk(s, b, q); }
    }
  }

  ghost function Pinned(s: Pool, f: nat): (w: Pool)
    requires f < |s.frames|
  {
    s.(frames := s.frames[f := s.frames[f].(pin := s.frames[f].pin + 1)], lru := Remove(s.lru, f))
  }

  lemma PinGood(s: Pool, b: Book, f: nat)
    requires Good(s, b) && Mapped(s.frames, s.table, f)
    ensures Good(Pinned(s, f), b)
  {
    var w := Pinned(s, f);
    RemoveMembers(s.lru, f);
    RemoveInOrder(s.lru, f, b.since);
    forall g | 0 <= g < |s.frames| ensures Mapped(w.frames, w.table, g) <==> Mapped(s.frames, s.table, g) {
    }
    forall q | q in w.table ensures PageOk(w, b, q) {
      assert PageOk(s, b, q);
    }
  }

  /** One hold less: the last one puts the frame at the end of the queue. */
  ghost function Unpinned(s: Pool, f: nat, dirty: bool): (w: Pool)
    requires f < |s.frames|
  {
    var x := s.frames[f];
    var pin := if x.pin > 0 then x.pin - 1 else 0;
    s.(frames := s.frames[f := x.(pin := pin, dirty := x.dirty || dirty)],
       lru := if pin == 0 && f !in s.lru then s.lru + [f] else s.lru)
  }

  ghost function UnpinnedBook(s: Pool, b: Book, f: nat, p: PageId, dirty: bool): (c: Book)
    requires f < |s.frames|
  {
    b.(touched := if dirty then b.touched - {p} else b.touched,
       released := if s.frames[f].pin == 1 then b.released[p := b.now] else b.released,
       since := if s.frames[f].pin == 1 then b.since[f := b.now] else b.since,
       now := b.now + 1)
  }

  lemma UnpinPartition(s: Pool, b: Book, f: nat, p: PageId, dirty: bool)
    requires Good(s, b) && p in s.table && s.table[p] == f && f < |s.frames|
    ensures Partition(Unpinned(s, f, dirty), UnpinnedBook(s, b, f, p, dirty))
  {
    var w := Unpinned(s, f, dirty);
    assert Mapped(s.frames, s.table, f);
    forall g | 0 <= g < |s.frames| ensures Mapped(w.frames, w.table, g) <==> Mapped(s.frames, s.table, g) {
    }
    assert forall g :: g in w.lru <==> g in s.lru || (g == f && w.frames[f].pin == 0);
  }

  lemma UnpinInOrder(s: Pool, b: Book, f: nat, p: PageId, dirty: bool)
    requires Good(s, b) && p in s.table && s.table[p] == f && f < |s.frames|
    ensures InOrder(Unpinned(s, f, dirty).lru, UnpinnedBook(s, b, f, p, dirty).since)
  {
    assert Mapped(s.frames, s.table, f);
    if s.frames[f].pin == 0 {
      assert f in s.lru;
    } else {
      assert f !in s.lru;
    }
  }

  /** Unpinning is sound when a page that was written is unpinned as dirty before
      its last holder lets go. */
  lemma UnpinGood(s: Pool, b: Book, f: nat, p: PageId, dirty: bool)
    requires Good(s, b) && p in s.table && s.table[p] == f && f < |s.frames|
    requires p in b.touched && !dirty ==> s.frames[f].pin > 1
    ensures Good(Unpinned(s, f, dirty), UnpinnedBook(s, b, f, p, dirty))
  {
    UnpinPartition(s, b, f, p, dirty);
    UnpinInOrder(s, b, f, p, dirty);
    var w, c := Unpinned(s, f, dirty), UnpinnedBook(s, b, f, p, dirty);
    forall q | q in w.table ensures PageOk(w, c, q) {
      assert PageOk(s, b, q);
      if q != p { assert s.frames[s.table[q]].page == Some(q) && s.table[q] != f; }
    }
  }

  /* ---------- writing ---------- */

  ghost function Written(s: Pool, f: nat, data: Page): (w: Pool)
    requires f < |s.frames|
  {
    s.(frames := s.frames[f := s.frames[f].(data := data)])
  }

  lemma WritePartition(s: Pool, b: Book, f: nat, p: PageId, data: Page)
    requires Partition(s, b) && f < |s.frames|
    ensures Partition(Written(s, f, data), b.(mem := b.mem[p := data], touched := b.touched + {p}))
  {
    var w := Written(s, f, data);
    forall g | 0 <= g < |s.frames| ensures Mapped(w.frames, w.table, g) <==> Mapped(s.frames, s.table, g) {
    }
  }

  /** A holder changes the bytes of its page in place. */
  lemma WriteGood(s: Pool, b: Book, f: nat, p: PageId, data: Page)
    requires Good(s, b) && p in s.table && s.table[p] == f && f < |s.frames| && s.frames[f].pin > 0
    ensures Good(Written(s, f, data), b.(mem := b.mem[p := data], touched := b.touched + {p}))
  {
    var w, c := Written(s, f, data), b.(mem := b.mem[p := data], touched := b.touched + {p});
    WritePartition(s, b, f, p, data);
    forall q | q in w.table ensures PageOk(w, c, q) {
      assert PageOk(s, b, q);
      if q != p { assert s.frames[s.table[q]].page == Some(q) && s.table[q] != f; }
    }
  }

  ghost function Flushed(s: Pool, f: nat, p: PageId): (w: Pool)
    requires f < |s.frames|
  {
    s.(disk := s.disk[p := s.frames[f].data], frames := s.frames[f := s.frames[f].(dirty := false)])
  }

  lemma FlushGood(s: Pool, b: Book, f: nat, p: PageId)
    requires Good(s, b) && p in s.table && s.table[p] == f && f < |s.frames|
    ensures Good(Flushed(s, f, p), b)
  {
    var w := Flushed(s, f, p);
    forall g | 0 <= g < |s.frames| ensures Mapped(w.frames, w.table, g) <==> Mapped(s.frames, s.table, g) {
    }
    forall q | q in w.table ensures PageOk(w, b, q) {
      assert PageOk(s, b, q);
      if q != p { assert s.frames[s.table[q]].page == Some(q) && s.table[q] != f; }
    }
  }

  /** A page allocated on disk is a zero page of the map. */
  lemma AllocateGood(s: Pool, b: Book)
    requires Good(s, b)
    ensures Good(s.(disk := s.disk[s.numPages := ZeroPage()], numPages := s.numPages + 1),
                 b.(mem := b.mem[s.numPages := ZeroPage()]))
  {
    var w, c := s.(disk := s.disk[s.numPages := ZeroPage()], numPages := s.numPages + 1),
                b.(mem := b.mem[s.numPages := ZeroPage()]);
    forall q | q in w.table ensures PageOk(w, c, q) {
      assert PageOk(s, b, q);
    }
  }

  lemma Allocate(s: Pool, b: Book) returns (w: Pool, c: Book)
    requires Good(s, b)
    ensures s.numPages !in b.mem && s.numPages !in s.table
    ensures w == s.(disk := s.disk[s.numPages := ZeroPage()], numPages := s.numPages + 1)
    ensures c == b.(mem := b.mem[s.numPages := ZeroPage()])
    ensures Good(w, c) && forall q :: Holders(w, q) == Holders(s, q)
  {
    AllocateGood(s, b);
    w := s.(disk := s.disk[s.numPages := ZeroPage()], numPages := s.numPages + 1);
    c := b.(mem := b.mem[s.numPages := ZeroPage()]);
  }

  /** With nothing written and not yet marked, saving every dirty page makes the
      disk the page map. */
  lemma AllSaved(s: Pool, b: Book)
    requires Good(s, b) && forall p :: !Dirty(s, p)
    ensures b.touched == {} ==> s.disk == b.mem
  {
    if b.touched == {} {
      forall p | p in s.disk ensures s.disk[p] == b.mem[p] {
        if p in s.table { assert PageOk(s, b, p) && !Dirty(s, p); }
      }
    }
  }

  /** The page is cached and waits to be saved. */
  ghost predicate Dirty(s: Pool, p: PageId) {
    p in s.table && s.table[p] < |s.frames| && s.frames[s.table[p]].dirty
  }

  ghost predicate SameHolders(s: Pool, w: Pool) {
    forall q :: Holders(w, q) == Holders(s, q)
  }

  /** `flush_page` on a cached page: the pool it leaves if the page was dirty. */
  lemma Flush(s: Pool, b: Book, p: PageId) returns (w: Pool)
    requires Good(s, b) && p in s.table
    ensures s.table[p] < |s.frames|
    ensures var f := s.table[p];
            w == s.(disk := s.disk[p := s.frames[f].data], frames := s.frames[f := s.frames[f].(dirty := false)])
    ensures Good(w, b) && SameHolders(s, w) && forall q :: Dirty(w, q) <==> q != p && Dirty(s, q)
  {
    var f := s.table[p];
    assert PageOk(s, b, p);
    w := Flushed(s, f, p);
    FlushGood(s, b, f, p);
    forall q ensures Dirty(w, q) <==> q != p && Dirty(s, q) {
      if q in s.table && q != p { OneFramePerPage(s, b, p, q); }
    }
  }

  /** How many holders a page has. */
  ghost function Holders(s: Pool, p: PageId): (n: nat) {
    if p in s.table && s.table[p] < |s.frames| then s.frames[s.table[p]].pin else 0
  }

  lemma EvictHolders(s: Pool, b: Book, q: PageId)
    requires Good(s, b) && s.lru != [] && s.lru[0] < |s.frames| && s.frames[s.lru[0]].page.Some?
    ensures Holders(Evicted(s), q) == Holders(s, q)
  {
    EvictFacts(s, b);
  }

  lemma OneFramePerPage(s: Pool, b: Book, p: PageId, q: PageId)
    requires Good(s, b) && p in s.table && q in s.table && p != q
    ensures s.table[p] != s.table[q] && s.table[p] < |s.frames| && s.table[q] < |s.frames|
  {
    assert s.frames[s.table[p]].page == Some(p) && s.frames[s.table[q]].page == Some(q);
  }

  lemma UnpinHolders(s: Pool, b: Book, f: nat, p: PageId, dirty: bool, q: PageId)
    requires Good(s, b) && p in s.table && s.table[p] == f && f < |s.frames|
    ensures Holders(Unpinned(s, f, dirty), q) ==
      if q == p && Holders(s, p) > 0 then Holders(s, p) - 1 else Holders(s, q)
    ensures Holders(s, p) == 1 ==> f !in s.lru
  {
    assert Mapped(s.frames, s.table, f);
    if q in s.table && q != p { OneFramePerPage(s, b, p, q); }
  }

  /** `unpin_page` on a cached page: the pool and book it leaves. */
  lemma Unpin(s: Pool, b: Book, p: PageId, dirty: bool) returns (w: Pool, c: Book)
    requires Good(s, b) && p in s.table
    requires p in b.touched && !dirty ==> Holders(s, p) > 1
    ensures s.table[p] < |s.frames|
    ensures var x := s.frames[s.table[p]];
            var pin := if x.pin > 0 then x.pin - 1 else 0;
            w == s.(frames := s.frames[s.table[p] := x.(pin := pin, dirty := x.dirty || dirty)],
                    lru := if pin == 0 && s.table[p] !in s.lru then s.lru + [s.table[p]] else s.lru)
    ensures Good(w, c) && c.mem == b.mem && c.leaked == b.leaked
    ensures c.touched == if dirty then b.touched - {p} else b.touched
    ensures Holders(w, p) == if Holders(s, p) > 0 then Holders(s, p) - 1 else 0
    ensures forall q :: q != p ==> Holders(w, q) == Holders(s, q)
    ensures Holders(s, p) == 1 ==> w.lru == s.lru + [s.table[p]]
    ensures c.now == b.now + 1 && c.released == if Holders(s, p) == 1 then b.released[p := b.now] else b.released
  {
    var f := s.table[p];
    assert PageOk(s, b, p) && Mapped(s.frames, s.table, f);
    w, c := Unpinned(s, f, dirty), UnpinnedBook(s, b, f, p, dirty);
    UnpinGood(s, b, f, p, dirty);
    UnpinHolders(s, b, f, p, dirty, p);
    forall q | q != p ensures Holders(w, q) == Holders(s, q) { UnpinHolders(s, b, f, p, dirty, q); }
  }

  class BufferPoolManager {
    /** The disk manager's pages, 0 .. numPages - 1. */
    var disk: map<PageId, Page>
    var numPages: nat
    var frames: seq<Frame>
    var pageTable: map<PageId, nat>
    var freeFrames: seq<nat>
    /** Unpinned frames, the one unpinned longest ago first. */
    var lru: seq<nat>
    ghost var book: Book

    ghost function P(): (s: Pool)
      reads this
    {
      Pool(disk, numPages, frames, pageTable, freeFrames, lru)
    }

    ghost predicate Valid()
      reads this
    {
      Good(P(), book)
    }

    constructor (disk: map<PageId, Page>, numPages: nat, poolSize: nat)
      requires forall p :: p in disk <==> p < numPages
      ensures Valid() && book.mem == disk && book.touched == {} && book.leaked == {} && pageTable == map[]
      ensures |frames| == poolSize
    {
      this.disk, this.numPages := disk, numPages;
      frames := seq(poolSize, _ => Frame(None, ZeroPage(), 0, false));
      pageTable, lru := map[], [];
      freeFrames := seq(poolSize, i => i);
      book := Book(disk, {}, {}, map[], map[], 0);
      new;
      forall f | 0 <= f < poolSize ensures f in freeFrames { assert freeFrames[f] == f; }
    }

    /** `_evict_one`: a frame that belongs to nobody, or None when all are held. */
    method EvictOne() returns (r: Option<nat>)
      requires Valid()
      modifies this`disk, this`pageTable, this`freeFrames, this`lru, this`book
      ensures Valid() && book == old(book).(leaked := book.leaked)
      ensures r.None? <==> old(freeFrames) == [] && old(lru) == []
      ensures r.None? ==> P() == old(P()) && book == old(book)
      ensures r.Some? ==>
        r.value < |frames| && r.value !in old(book).leaked && book.leaked == old(book).leaked + {r.value}
      ensures old(freeFrames) != [] ==> pageTable == old(pageTable) && lru == old(lru)
      ensures r.Some? && old(freeFrames) == [] ==> r.value == old(lru)[0] && lru == old(lru)[1..]
      ensures r.Some? && old(freeFrames) == [] ==>
        exists v :: Oldest(old(P()), old(book), v) && pageTable == old(pageTable) - {v}
      ensures numPages == old(numPages) && forall q :: Holders(P(), q) == Holders(old(P()), q)
      ensures pageTable.Keys <= old(pageTable).Keys
    {
      ghost var s := P();
      if freeFrames != [] {
        TakeFree(s, book);
        var f := freeFrames[|freeFrames| - 1];
        freeFrames := freeFrames[..|freeFrames| - 1];
        book := book.(leaked := book.leaked + {f});
        return Some(f);
      }
      if lru == [] {
        return None;
      }
      VictimIsOldest(s, book);
      EvictFacts(s, book);
      EvictGood(s, book);
      forall q ensures Holders(Evicted(s), q) == Holders(s, q) { EvictHolders(s, book, q); }
      var f := lru[0];
      lru := lru[1..];
      var page := frames[f].page.value;
      if frames[f].dirty {
        disk := disk[page := frames[f].data];
      }
      pageTable := pageTable - {page};
      book := book.(leaked := book.leaked + {f});
      assert P() == Evicted(s);
      return Some(f);
    }

    /** `_pin` of a resident page. */
    method Pin(p: PageId) returns (data: Page)
      requires Valid() && p in pageTable
      modifies this`frames, this`lru
      ensures Valid() && p in book.mem && data == book.mem[p] && Holders(P(), p) == Holders(old(P()), p) + 1
      ensures forall q :: q != p ==> Holders(P(), q) == Holders(old(P()), q)
      ensures pageTable == old(pageTable)
    {
      var f := pageTable[p];
      ghost var s := P();
      assert PageOk(s, book, p) && Mapped(frames, pageTable, f);
      PinGood(s, book, f);
      forall q | q in pageTable && q != p ensures pageTable[q] != f { OneFramePerPage(s, book, p, q); }
      frames := frames[f := frames[f].(pin := frames[f].pin + 1)];
      lru := Remove(lru, f);
      assert P() == Pinned(s, f);
      return frames[f].data;
    }

    /** `fetch_page`: pin the page and return its contents. */
    method FetchPage(p: PageId) returns (r: Fetched)
      requires Valid()
      modifies this
      ensures Valid() && book.mem == old(book).mem && book.touched == old(book).touched
      ensures r.Got? ==> p in book.mem && r.data == book.mem[p] && Holders(P(), p) == Holders(old(P()), p) + 1
      ensures r.Got? ==> book.leaked == old(book).leaked
      ensures !r.Got? ==> Holders(P(), p) == Holders(old(P()), p)
      ensures r.PoolFull? <==> p !in old(pageTable) && old(freeFrames) == [] && old(lru) == []
      ensures r.PoolFull? ==> P() == old(P()) && book == old(book)
      ensures r.NoSuchPage? ==> p !in book.mem && old(book).leaked < book.leaked
      ensures book.released == old(book).released && book.now == old(book).now
      ensures Displaced(old(P()), old(book), P(), p)
      ensures forall q :: q != p ==> Holders(P(), q) == Holders(old(P()), q)
    {
      if p in pageTable {
        var data := Pin(p);
        return Got(data);
      }
      var victim := EvictOne();
      if victim.None? {
        return PoolFull;
      }
      if p >= numPages {
        return NoSuchPage;
      }
      LoadPage(victim.value, p, disk[p]);
      return Got(disk[p]);
    }

    /** A frame nobody owns takes a page, held once. */
    method LoadPage(f: nat, p: PageId, data: Page)
      requires Valid() && f in book.leaked && f < |frames| && p in disk && p !in pageTable && data == disk[p]
      modifies this`frames, this`pageTable, this`book
      ensures Valid() && book == old(book).(leaked := old(book).leaked - {f}) && data == book.mem[p]
      ensures Holders(P(), p) == 1 && pageTable == old(pageTable)[p := f]
      ensures forall q :: q != p ==> Holders(P(), q) == Holders(old(P()), q)
    {
      ghost var s := P();
      InstallGood(s, book, f, p);
      forall q | q in pageTable ensures pageTable[q] != f { assert Mapped(frames, pageTable, pageTable[q]); }
      frames := frames[f := Frame(Some(p), data, 1, false)];
      pageTable := pageTable[p := f];
      book := book.(leaked := book.leaked - {f});
      assert P() == Installed(s, f, p, data);
    }

    /** `new_page`: a zero page; the page stays allocated when no frame is left. */
    method NewPage() returns (p: PageId, ok: bool)
      requires Valid()
      modifies this
      ensures Valid() && p == old(numPages) && p !in old(book).mem
      ensures book.mem == old(book).mem[p := ZeroPage()] && book.touched == old(book).touched
      ensures ok <==> !(old(freeFrames) == [] && old(lru) == [])
      ensures Holders(P(), p) == if ok then 1 else 0
      ensures book.leaked == old(book).leaked && book.released == old(book).released && book.now == old(book).now
      ensures Displaced(old(P()), old(book), P(), p)
      ensures forall q :: q != p ==> Holders(P(), q) == Holders(old(P()), q)
    {
      p := AllocatePage();
      ghost var s, b := P(), book;
      ok := Admit(p);
      DisplacedBy(old(P()), old(book), s, b, P(), p);
    }

    /** Make room for an absent page and load it, held once; false when all frames are held. */
    method Admit(p: PageId) returns (ok: bool)
      requires Valid() && p in disk && p !in pageTable
      modifies this`disk, this`frames, this`pageTable, this`freeFrames, this`lru, this`book
      ensures Valid() && book == old(book)
      ensures ok <==> !(old(freeFrames) == [] && old(lru) == [])
      ensures Holders(P(), p) == if ok then 1 else 0
      ensures Displaced(old(P()), old(book), P(), p)
      ensures forall q :: q != p ==> Holders(P(), q) == Holders(old(P()), q)
    {
      var victim := EvictOne();
      if victim.None? {
        return false;
      }
      LoadPage(victim.value, p, disk[p]);
      EvictDisplaces(old(P()), old(book), P(), p);
      return true;
    }

    /** The disk manager grows the file by one zero page. */
    method AllocatePage() returns (p: PageId)
      requires Valid()
      modifies this`disk, this`numPages, this`book
      ensures Valid() && p == old(numPages) && p !in old(book).mem
      ensures p !in pageTable && p in disk && disk[p] == ZeroPage()
      ensures book == old(book).(mem := old(book).mem[p := ZeroPage()])
      ensures forall q :: Holders(P(), q) == Holders(old(P()), q)
    {
      ghost var w, c := Allocate(P(), book);
      p := numPages;
      disk := disk[p := ZeroPage()];
      numPages := numPages + 1;
      book := c;
      assert P() == w;
    }

    /** What a holder does to the bytes it was given. */
    method WriteInPlace(p: PageId, data: Page)
      requires Valid() && Holders(P(), p) > 0
      modifies this`frames, this`book
      ensures Valid() && book == old(book).(mem := old(book).mem[p := data], touched := old(book).touched + {p})
      ensures forall q :: Holders(P(), q) == Holders(old(P()), q)
    {
      ghost var s := P();
      var f := pageTable[p];
      WriteGood(s, book, f, p, data);
      frames := frames[f := frames[f].(data := data)];
      book := book.(mem := book.mem[p := data], touched := book.touched + {p});
      assert P() == Written(s, f, data);
    }

    /** `unpin_page`: release one hold; `dirty` sticks until the next flush. */
    method UnpinPage(p: PageId, dirty: bool)
      requires Valid()
      requires p in book.touched && !dirty ==> Holders(P(), p) > 1
      modifies this`frames, this`lru, this`book
      ensures Valid() && book.mem == old(book).mem && book.leaked == old(book).leaked
      ensures book.touched == if dirty then old(book).touched - {p} else old(book).touched
      ensures Holders(P(), p) == if Holders(old(P()), p) > 0 then Holders(old(P()), p) - 1 else 0
      ensures forall q :: q != p ==> Holders(P(), q) == Holders(old(P()), q)
      ensures Holders(old(P()), p) == 1 ==> lru == old(lru) + [pageTable[p]]
      ensures book.released ==
        if Holders(old(P()), p) == 1 then old(book).released[p := old(book).now] else old(book).released
      ensures book.now == if p in pageTable then old(book).now + 1 else old(book).now
    {
      if p !in pageTable {
        return;
      }
      ghost var s := P();
      var f := pageTable[p];
      ghost var w, c := Unpin(s, book, p, dirty);
      var x := frames[f];
      var pin := if x.pin > 0 then x.pin - 1 else 0;
      var held := frames[f := x.(pin := pin, dirty := x.dirty || dirty)];
      var queue := if pin == 0 && f !in lru then lru + [f] else lru;
      assert w == s.(frames := held, lru := queue);
      frames, lru, book := held, queue, c;
      assert P() == w;
    }

    /** `flush_page`. */
    method FlushPage(p: PageId)
      requires Valid()
      modifies this`disk, this`frames
      ensures Valid() && pageTable == old(pageTable) && |frames| == |old(frames)|
      ensures SameHolders(old(P()), P())
      ensures forall q :: Dirty(P(), q) <==> q != p && Dirty(old(P()), q)
      ensures disk == if Dirty(old(P()), p) then old(disk)[p := old(frames)[pageTable[p]].data] else old(disk)
    {
      if p !in pageTable {
        return;
      }
      ghost var s := P();
      var f := pageTable[p];
      ghost var w := Flush(s, book, p);
      if frames[f].dirty {
        disk := disk[p := frames[f].data];
        frames := frames[f := frames[f].(dirty := false)];
        assert P() == w;
      }
    }

    /** `flush_all`: with no unmarked write outstanding, the disk becomes the page
        map. Nothing pinned implies that. */
    method FlushAll()
      requires Valid()
      modifies this`disk, this`frames
      ensures Valid() && pageTable == old(pageTable)
      ensures SameHolders(old(P()), P())
      ensures forall q :: !Dirty(P(), q)
      ensures book.touched == {} ==> disk == book.mem
    {
      var todo := pageTable.Keys;
      ghost var s := P();
      while todo != {}
        invariant Valid() && pageTable == s.table && SameHolders(s, P())
        invariant forall q :: Dirty(P(), q) ==> q in todo
        decreases todo
      {
        var p :| p in todo;
        FlushPage(p);
        todo := todo - {p};
      }
      AllSaved(P(), book);
    }
  }

  /** Of two pages released one after the other, the next fetch does not displace the later one. */
  method LaterReleasedStays(pool: BufferPoolManager, a: PageId, b: PageId, c: PageId) returns (r: Fetched)
    requires pool.Valid() && a != b && Holders(pool.P(), a) == 1 && Holders(pool.P(), b) == 1
    modifies pool
    ensures pool.Valid() && b in pool.pageTable
  {
    ReleaseBoth(pool, a, b);
    ghost var s, book := pool.P(), pool.book;
    r := pool.FetchPage(c);
    LaterStays(s, book, pool.P(), a, b, c);
  }

  method ReleaseBoth(pool: BufferPoolManager, a: PageId, b: PageId)
    requires pool.Valid() && a != b && Holders(pool.P(), a) == 1 && Holders(pool.P(), b) == 1
    modifies pool
    ensures pool.Valid() && Idle(pool.P(), a) && Idle(pool.P(), b)
    ensures a in pool.book.released && b in pool.book.released && pool.book.released[a] < pool.book.released[b]
  {
    pool.UnpinPage(a, true);
    pool.UnpinPage(b, true);
  }

  /** A page nobody holds has no unmarked write. */
  lemma UnheldIsUntouched(s: Pool, b: Book, p: PageId)
    requires Good(s, b) && Holders(s, p) == 0
    ensures p !in b.touched
  {
    if p in s.table { assert PageOk(s, b, p); }
  }
}
