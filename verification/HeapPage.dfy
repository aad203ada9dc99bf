/** Slotted heap pages as bytes: slot directory at the front, tuples at the back. */
module HeapPage {
  import opened Bytes

  const HEADER_SIZE := 9
  const SLOT_SIZE := 4
  const DELETED := 0xFFFF
  const NO_PAGE := 0xFFFF_FFFF

  /** Overwriting part of a page. */
  function Splice(d: Page, off: nat, bytes: seq<Byte>): (r: Page)
    requires off + |bytes| <= PAGE_SIZE
  {
    d[..off] + bytes + d[off + |bytes|..]
  }

  lemma SpliceRead(d: Page, off: nat, bytes: seq<Byte>, lo: nat, hi: nat)
    requires off + |bytes| <= PAGE_SIZE && lo <= hi <= PAGE_SIZE
    ensures hi <= off || lo >= off + |bytes| ==> Splice(d, off, bytes)[lo..hi] == d[lo..hi]
    ensures lo == off && hi == off + |bytes| ==> Splice(d, off, bytes)[lo..hi] == bytes
  {
    var r := Splice(d, off, bytes);
    forall i | 0 <= i < PAGE_SIZE ensures r[i] == if off <= i < off + |bytes| then bytes[i - off] else d[i] {
      SpliceAt(d, off, bytes, i);
    }
  }

  lemma SpliceAt(d: Page, off: nat, bytes: seq<Byte>, i: nat)
    requires off + |bytes| <= PAGE_SIZE && i < PAGE_SIZE
    ensures Splice(d, off, bytes)[i] == if off <= i < off + |bytes| then bytes[i - off] else d[i]
  {
    var end := off + |bytes|;
    var head := d[..off] + bytes;
    assert |head| == end;
    if i < end {
      assert Splice(d, off, bytes)[i] == head[i];
    } else {
      assert Splice(d, off, bytes)[i] == d[end..][i - end];
    }
  }

  function ReadU16(d: Page, off: nat): (x: nat)
    requires off + 2 <= PAGE_SIZE
    ensures x < TWO_16
  {
    d[off] as int + 256 * (d[off + 1] as int)
  }

  function ReadU32(d: Page, off: nat): (x: nat)
    requires off + 4 <= PAGE_SIZE
  {
    d[off] as int + 256 * (d[off + 1] as int) + 65536 * (d[off + 2] as int) + 16777216 * (d[off + 3] as int)
  }

  /* ---------- header and slots ---------- */

  function NumSlots(d: Page): nat { ReadU16(d, 1) }

  function FreePtr(d: Page): nat { ReadU16(d, 3) }

  function NextPage(d: Page): nat { ReadU32(d, 5) }

  function SlotOffset(i: nat): nat { HEADER_SIZE + i * SLOT_SIZE }

  function TupleOffset(d: Page, i: nat): nat
    requires SlotOffset(i) + SLOT_SIZE <= PAGE_SIZE
  {
    ReadU16(d, SlotOffset(i))
  }

  function TupleLength(d: Page, i: nat): nat
    requires SlotOffset(i) + SLOT_SIZE <= PAGE_SIZE
  {
    ReadU16(d, SlotOffset(i) + 2)
  }

  /** `_write_header` for a heap page. */
  function WriteHeader(d: Page, numSlots: nat, freePtr: nat, next: nat): (r: Page)
    requires numSlots < TWO_16 && freePtr < TWO_16 && next < TWO_32
  {
    Splice(d, 0, [1] + U16(numSlots) + U16(freePtr) + U32(next))
  }

  function WriteSlot(d: Page, i: nat, off: nat, length: nat): (r: Page)
    requires SlotOffset(i) + SLOT_SIZE <= PAGE_SIZE && off < TWO_16 && length < TWO_16
  {
    Splice(d, SlotOffset(i), U16(off) + U16(length))
  }

  function InitPage(d: Page): (r: Page) {
    WriteHeader(d, 0, PAGE_SIZE, NO_PAGE)
  }

  lemma HeaderRead(d: Page, numSlots: nat, freePtr: nat, next: nat)
    requires numSlots < TWO_16 && freePtr < TWO_16 && next < TWO_32
    ensures var r := WriteHeader(d, numSlots, freePtr, next);
            NumSlots(r) == numSlots && FreePtr(r) == freePtr && NextPage(r) == next
  {
    var h := [1] + U16(numSlots) + U16(freePtr) + U32(next);
    assert |h| == 9;
    assert h[1] == U16(numSlots)[0] && h[2] == U16(numSlots)[1] && h[3] == U16(freePtr)[0] && h[4] == U16(freePtr)[1];
    assert h[5] == U32(next)[0] && h[6] == U32(next)[1] && h[7] == U32(next)[2] && h[8] == U32(next)[3];
    forall i | 1 <= i < 9 ensures WriteHeader(d, numSlots, freePtr, next)[i] == h[i] {
      SpliceAt(d, 0, h, i);
    }
  }

  lemma SlotRead(d: Page, i: nat, off: nat, length: nat)
    requires SlotOffset(i) + SLOT_SIZE <= PAGE_SIZE && off < TWO_16 && length < TWO_16
    ensures var r := WriteSlot(d, i, off, length); TupleOffset(r, i) == off && TupleLength(r, i) == length
  {
    var s := U16(off) + U16(length);
    forall j | 0 <= j < 4 ensures WriteSlot(d, i, off, length)[SlotOffset(i) + j] == s[j] {
      SpliceAt(d, SlotOffset(i), s, SlotOffset(i) + j);
    }
  }

  /** Bytes outside the written range keep their values. */
  lemma U16Kept(d: Page, off: nat, bytes: seq<Byte>, at: nat)
    requires off + |bytes| <= PAGE_SIZE && at + 2 <= PAGE_SIZE && (at + 2 <= off || at >= off + |bytes|)
    ensures ReadU16(Splice(d, off, bytes), at) == ReadU16(d, at)
  {
    SpliceAt(d, off, bytes, at);
    SpliceAt(d, off, bytes, at + 1);
  }

  lemma HeaderKept(d: Page, off: nat, bytes: seq<Byte>)
    requires HEADER_SIZE <= off && off + |bytes| <= PAGE_SIZE
    ensures var r := Splice(d, off, bytes);
            NumSlots(r) == NumSlots(d) && FreePtr(r) == FreePtr(d) && NextPage(r) == NextPage(d)
  {
    forall i | 0 <= i < 9 ensures Splice(d, off, bytes)[i] == d[i] { SpliceAt(d, off, bytes, i); }
  }

  lemma SlotKept(d: Page, off: nat, bytes: seq<Byte>, i: nat)
    requires off + |bytes| <= PAGE_SIZE && SlotOffset(i) + SLOT_SIZE <= PAGE_SIZE
    requires SlotOffset(i) + SLOT_SIZE <= off || SlotOffset(i) >= off + |bytes|
    ensures var r := Splice(d, off, bytes);
            TupleOffset(r, i) == TupleOffset(d, i) && TupleLength(r, i) == TupleLength(d, i)
  {
    U16Kept(d, off, bytes, SlotOffset(i));
    U16Kept(d, off, bytes, SlotOffset(i) + 2);
  }

  /* ---------- the page invariant ---------- */

  ghost predicate HasSlot(d: Page, i: nat) {
    i < NumSlots(d) && SlotOffset(i) + SLOT_SIZE <= PAGE_SIZE
  }

  ghost predicate Live(d: Page, i: nat) {
    HasSlot(d, i) && TupleLength(d, i) != DELETED
  }

  /** A live tuple lies between the free pointer and the end of the page. */
  ghost predicate InArea(d: Page, i: nat) {
    Live(d, i) ==> FreePtr(d) <= TupleOffset(d, i) && TupleOffset(d, i) + TupleLength(d, i) <= PAGE_SIZE
  }

  ghost predicate Apart(d: Page, i: nat, j: nat) {
    Live(d, i) && Live(d, j) && i != j ==>
      || TupleOffset(d, i) + TupleLength(d, i) <= TupleOffset(d, j)
      || TupleOffset(d, j) + TupleLength(d, j) <= TupleOffset(d, i)
  }

  /** Slot directory, free space and tuples do not overlap. */
  ghost predicate PageOk(d: Page) {
    && SlotOffset(NumSlots(d)) <= FreePtr(d) <= PAGE_SIZE
    && (forall i :: InArea(d, i))
    && (forall i, j :: Apart(d, i, j))
  }

  /** The bytes of tuple `i`. */
  ghost function TupleBytes(d: Page, i: nat): (s: seq<Byte>)
    requires PageOk(d) && Live(d, i)
  {
    assert InArea(d, i);
    d[TupleOffset(d, i)..TupleOffset(d, i) + TupleLength(d, i)]
  }

  /** The page as a map from slots to tuples. */
  ghost function Tuples(d: Page): (m: map<nat, seq<Byte>>)
    requires PageOk(d)
  {
    map i: nat | i < NumSlots(d) && Live(d, i) :: TupleBytes(d, i)
  }

  /* ---------- storing a tuple ---------- */

  /** The slot a new tuple gets, if it fits: the first deleted one, else a new one. */
  ghost predicate IsTarget(d: Page, index: nat) {
    && (forall j :: 0 <= j < index && j < NumSlots(d) ==> Live(d, j))
    && (index == NumSlots(d) || (HasSlot(d, index) && !Live(d, index)))
  }

  function SlotsWith(d: Page, index: nat): nat {
    if index == NumSlots(d) then NumSlots(d) + 1 else NumSlots(d)
  }

  ghost predicate Fits(d: Page, index: nat, row: seq<Byte>) {
    SlotOffset(SlotsWith(d, index)) + |row| <= FreePtr(d)
  }

  ghost predicate CanStore(d: Page, index: nat, row: seq<Byte>) {
    PageOk(d) && IsTarget(d, index) && Fits(d, index, row)
  }

  /** The three writes of `insert`: tuple bytes, slot, header. */
  function Stored(d: Page, index: nat, row: seq<Byte>): (r: Page)
    requires index <= NumSlots(d) && SlotOffset(SlotsWith(d, index)) + |row| <= FreePtr(d) <= PAGE_SIZE
  {
    var ptr := FreePtr(d) - |row|;
    WriteHeader(WriteSlot(Splice(d, ptr, row), index, ptr, |row|), SlotsWith(d, index), ptr, NextPage(d))
  }

  lemma StoredHeader(d: Page, index: nat, row: seq<Byte>)
    requires CanStore(d, index, row)
    ensures var r := Stored(d, index, row);
            NumSlots(r) == SlotsWith(d, index) && FreePtr(r) == FreePtr(d) - |row| && NextPage(r) == NextPage(d)
  {
    var ptr := FreePtr(d) - |row|;
    HeaderRead(WriteSlot(Splice(d, ptr, row), index, ptr, |row|), SlotsWith(d, index), ptr, NextPage(d));
  }

  lemma StoredSlot(d: Page, index: nat, row: seq<Byte>, j: nat)
    requires CanStore(d, index, row) && j < SlotsWith(d, index)
    ensures SlotOffset(j) + SLOT_SIZE <= PAGE_SIZE
    ensures var r := Stored(d, index, row);
            if j == index then TupleOffset(r, j) == FreePtr(d) - |row| && TupleLength(r, j) == |row|
            else TupleOffset(r, j) == TupleOffset(d, j) && TupleLength(r, j) == TupleLength(d, j)
  {
    var ptr := FreePtr(d) - |row|;
    var a := Splice(d, ptr, row);
    var b := WriteSlot(a, index, ptr, |row|);
    SlotKept(b, 0, [1] + U16(SlotsWith(d, index)) + U16(ptr) + U32(NextPage(d)), j);
    if j == index {
      SlotRead(a, index, ptr, |row|);
    } else {
      SlotKept(a, SlotOffset(index), U16(ptr) + U16(|row|), j);
      SlotKept(d, ptr, row, j);
    }
  }

  lemma StoredBytes(d: Page, index: nat, row: seq<Byte>, lo: nat, hi: nat)
    requires CanStore(d, index, row) && lo <= hi <= PAGE_SIZE
    ensures var r, ptr := Stored(d, index, row), FreePtr(d) - |row|;
            && (lo == ptr && hi == FreePtr(d) ==> r[lo..hi] == row)
            && (lo >= FreePtr(d) ==> r[lo..hi] == d[lo..hi])
  {
    var ptr := FreePtr(d) - |row|;
    var a := Splice(d, ptr, row);
    var b := WriteSlot(a, index, ptr, |row|);
    SpliceRead(d, ptr, row, lo, hi);
    SpliceRead(a, SlotOffset(index), U16(ptr) + U16(|row|), lo, hi);
    SpliceRead(b, 0, [1] + U16(SlotsWith(d, index)) + U16(ptr) + U32(NextPage(d)), lo, hi);
  }

  lemma StoredLive(d: Page, index: nat, row: seq<Byte>, j: nat)
    requires CanStore(d, index, row)
    ensures Live(Stored(d, index, row), j) <==> j == index || Live(d, j)
  {
    StoredHeader(d, index, row);
    if j < SlotsWith(d, index) { StoredSlot(d, index, row, j); }
  }

  lemma StoredOk(d: Page, index: nat, row: seq<Byte>)
    requires CanStore(d, index, row)
    ensures PageOk(Stored(d, index, row))
  {
    var r := Stored(d, index, row);
    StoredHeader(d, index, row);
    forall i ensures InArea(r, i) {
      StoredLive(d, index, row, i);
      if Live(r, i) {
        StoredSlot(d, index, row, i);
        assert InArea(d, i);
      }
    }
    forall i, j ensures Apart(r, i, j) {
      StoredLive(d, index, row, i);
      StoredLive(d, index, row, j);
      if Live(r, i) && Live(r, j) && i != j {
        StoredSlot(d, index, row, i);
        StoredSlot(d, index, row, j);
        assert InArea(d, i) && InArea(d, j) && Apart(d, i, j);
      }
    }
  }

  lemma StoredTuple(d: Page, index: nat, row: seq<Byte>, j: nat)
    requires CanStore(d, index, row) && PageOk(Stored(d, index, row)) && Live(Stored(d, index, row), j)
    ensures j == index || Live(d, j)
    ensures TupleBytes(Stored(d, index, row), j) == if j == index then row else TupleBytes(d, j)
  {
    StoredHeader(d, index, row);
    StoredLive(d, index, row, j);
    StoredSlot(d, index, row, j);
    if j == index {
      StoredBytes(d, index, row, FreePtr(d) - |row|, FreePtr(d));
    } else {
      assert InArea(d, j);
      StoredBytes(d, index, row, TupleOffset(d, j), TupleOffset(d, j) + TupleLength(d, j));
    }
  }

  /** Storing adds exactly one tuple, in a slot that was not live. */
  lemma StoreRefines(d: Page, index: nat, row: seq<Byte>)
    requires CanStore(d, index, row)
    ensures PageOk(Stored(d, index, row)) && index !in Tuples(d)
    ensures Tuples(Stored(d, index, row)) == Tuples(d)[index := row]
    ensures NextPage(Stored(d, index, row)) == NextPage(d)
  {
    var r := Stored(d, index, row);
    StoredOk(d, index, row);
    StoredHeader(d, index, row);
    forall j: nat ensures j in Tuples(r) <==> j == index || j in Tuples(d) {
      StoredLive(d, index, row, j);
    }
    forall j | j in Tuples(r) ensures Tuples(r)[j] == Tuples(d)[index := row][j] {
      StoredTuple(d, index, row, j);
    }
  }

  /* ---------- overwriting and deleting ---------- */

  /** Writing inside tuple `i` changes no header, no slot and no other tuple. */
  lemma OverwriteKeeps(d: Page, i: nat, bytes: seq<Byte>, j: nat)
    requires PageOk(d) && Live(d, i) && |bytes| == TupleLength(d, i) && TupleOffset(d, i) + |bytes| <= PAGE_SIZE
    ensures var r := Splice(d, TupleOffset(d, i), bytes);
            && NumSlots(r) == NumSlots(d) && FreePtr(r) == FreePtr(d) && NextPage(r) == NextPage(d)
            && (HasSlot(d, j) ==> TupleOffset(r, j) == TupleOffset(d, j) && TupleLength(r, j) == TupleLength(d, j))
            && (Live(d, j) && j != i ==>
                  && TupleOffset(d, j) + TupleLength(d, j) <= PAGE_SIZE
                  && r[TupleOffset(d, j)..TupleOffset(d, j) + TupleLength(d, j)]
                     == d[TupleOffset(d, j)..TupleOffset(d, j) + TupleLength(d, j)])
  {
    assert InArea(d, i) && InArea(d, j) && Apart(d, i, j);
    HeaderKept(d, TupleOffset(d, i), bytes);
    if HasSlot(d, j) { SlotKept(d, TupleOffset(d, i), bytes, j); }
    if Live(d, j) && j != i {
      SpliceRead(d, TupleOffset(d, i), bytes, TupleOffset(d, j), TupleOffset(d, j) + TupleLength(d, j));
    }
  }

  lemma OverwriteOk(d: Page, i: nat, bytes: seq<Byte>)
    requires PageOk(d) && Live(d, i) && |bytes| == TupleLength(d, i)
    ensures TupleOffset(d, i) + |bytes| <= PAGE_SIZE && PageOk(Splice(d, TupleOffset(d, i), bytes))
  {
    assert InArea(d, i);
    var r := Splice(d, TupleOffset(d, i), bytes);
    OverwriteKeeps(d, i, bytes, i);
    forall j ensures InArea(r, j) {
      OverwriteKeeps(d, i, bytes, j);
      assert InArea(d, j);
    }
    forall j, k ensures Apart(r, j, k) {
      OverwriteKeeps(d, i, bytes, j);
      OverwriteKeeps(d, i, bytes, k);
      assert Apart(d, j, k);
    }
  }

  /** `update_in_place` changes one tuple. */
  lemma OverwriteRefines(d: Page, i: nat, bytes: seq<Byte>)
    requires PageOk(d) && Live(d, i) && |bytes| == TupleLength(d, i)
    ensures TupleOffset(d, i) + |bytes| <= PAGE_SIZE
    ensures var r := Splice(d, TupleOffset(d, i), bytes);
            PageOk(r) && Tuples(r) == Tuples(d)[i := bytes] && NextPage(r) == NextPage(d)
  {
    OverwriteOk(d, i, bytes);
    var r := Splice(d, TupleOffset(d, i), bytes);
    OverwriteKeeps(d, i, bytes, i);
    forall j: nat ensures j in Tuples(r) <==> j in Tuples(d) { OverwriteKeeps(d, i, bytes, j); }
    forall j | j in Tuples(r) ensures Tuples(r)[j] == Tuples(d)[i := bytes][j] {
      OverwriteKeeps(d, i, bytes, j);
      if j == i { SpliceRead(d, TupleOffset(d, i), bytes, TupleOffset(d, i), TupleOffset(d, i) + |bytes|); }
    }
  }

  lemma DeletedKeeps(d: Page, i: nat, j: nat)
    requires PageOk(d) && HasSlot(d, i)
    ensures var r := WriteSlot(d, i, 0, DELETED);
            && NumSlots(r) == NumSlots(d) && FreePtr(r) == FreePtr(d) && NextPage(r) == NextPage(d)
            && (Live(r, j) <==> Live(d, j) && j != i)
            && (HasSlot(d, j) && j != i ==>
                  TupleOffset(r, j) == TupleOffset(d, j) && TupleLength(r, j) == TupleLength(d, j))
            && (Live(r, j) ==>
                  && TupleOffset(d, j) + TupleLength(d, j) <= PAGE_SIZE
                  && r[TupleOffset(d, j)..TupleOffset(d, j) + TupleLength(d, j)]
                     == d[TupleOffset(d, j)..TupleOffset(d, j) + TupleLength(d, j)])
  {
    var mark := U16(0) + U16(DELETED);
    HeaderKept(d, SlotOffset(i), mark);
    SlotRead(d, i, 0, DELETED);
    if HasSlot(d, j) && j != i { SlotKept(d, SlotOffset(i), mark, j); }
    if Live(d, j) {
      assert InArea(d, j);
      SpliceRead(d, SlotOffset(i), mark, TupleOffset(d, j), TupleOffset(d, j) + TupleLength(d, j));
    }
  }

  /** `delete` frees one slot. */
  lemma DeleteRefines(d: Page, i: nat)
    requires PageOk(d) && HasSlot(d, i)
    ensures var r := WriteSlot(d, i, 0, DELETED);
            PageOk(r) && Tuples(r) == Tuples(d) - {i} && NextPage(r) == NextPage(d)
  {
    var r := WriteSlot(d, i, 0, DELETED);
    DeletedKeeps(d, i, i);
    forall j ensures InArea(r, j) {
      DeletedKeeps(d, i, j);
      assert InArea(d, j);
    }
    forall j, k ensures Apart(r, j, k) {
      DeletedKeeps(d, i, j);
      DeletedKeeps(d, i, k);
      assert Apart(d, j, k);
    }
    forall j: nat ensures j in Tuples(r) <==> j in Tuples(d) - {i} { DeletedKeeps(d, i, j); }
    forall j | j in Tuples(r) ensures Tuples(r)[j] == Tuples(d)[j] { DeletedKeeps(d, i, j); }
  }

  /** An empty page takes any row that fits a page at all. */
  lemma EmptyPage(d: Page, row: seq<Byte>)
    requires HEADER_SIZE + SLOT_SIZE + |row| <= PAGE_SIZE
    ensures PageOk(InitPage(d)) && Tuples(InitPage(d)) == map[] && NextPage(InitPage(d)) == NO_PAGE
    ensures CanStore(InitPage(d), 0, row)
  {
    HeaderRead(d, 0, PAGE_SIZE, NO_PAGE);
  }

  /** Relinking a page keeps its tuples. */
  lemma RelinkRefines(d: Page, next: nat)
    requires PageOk(d) && next < TWO_32
    ensures var r := WriteHeader(d, NumSlots(d), FreePtr(d), next);
            PageOk(r) && Tuples(r) == Tuples(d) && NextPage(r) == next
  {
    var r := WriteHeader(d, NumSlots(d), FreePtr(d), next);
    HeaderRead(d, NumSlots(d), FreePtr(d), next);
    forall j: nat ensures RelinkSame(d, r, j) { RelinkSlot(d, next, j); }
    forall j ensures InArea(r, j) { assert InArea(d, j) && RelinkSame(d, r, j); }
    forall j, k ensures Apart(r, j, k) { assert Apart(d, j, k) && RelinkSame(d, r, j) && RelinkSame(d, r, k); }
    forall j: nat ensures j in Tuples(r) <==> j in Tuples(d) { assert RelinkSame(d, r, j); }
    forall j | j in Tuples(r) ensures Tuples(r)[j] == Tuples(d)[j] { assert RelinkSame(d, r, j) && InArea(d, j); }
  }

  ghost predicate RelinkSame(d: Page, r: Page, j: nat) {
    && (Live(r, j) <==> Live(d, j))
    && (HasSlot(d, j) ==> TupleOffset(r, j) == TupleOffset(d, j) && TupleLength(r, j) == TupleLength(d, j))
    && (Live(d, j) && TupleOffset(d, j) + TupleLength(d, j) <= PAGE_SIZE ==>
          r[TupleOffset(d, j)..TupleOffset(d, j) + TupleLength(d, j)]
          == d[TupleOffset(d, j)..TupleOffset(d, j) + TupleLength(d, j)])
  }

  lemma RelinkSlot(d: Page, next: nat, j: nat)
    requires PageOk(d) && next < TWO_32
    ensures RelinkSame(d, WriteHeader(d, NumSlots(d), FreePtr(d), next), j)
  {
    var h := [1] + U16(NumSlots(d)) + U16(FreePtr(d)) + U32(next);
    HeaderRead(d, NumSlots(d), FreePtr(d), next);
    if HasSlot(d, j) { SlotKept(d, 0, h, j); }
    if Live(d, j) {
      assert InArea(d, j);
      SpliceRead(d, 0, h, TupleOffset(d, j), TupleOffset(d, j) + TupleLength(d, j));
    }
  }
}
