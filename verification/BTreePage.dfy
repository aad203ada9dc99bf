/** Tree nodes as page bytes. Leaves and internal pages share one layout: a seven-byte
    head (type, number of records, one page id) and fixed-width records. */
module BTreePage {
  import opened Sequences
  import opened Bytes
  import opened HeapPage

  const NODE_HEADER := 7

  /** A node before its keys are decoded: `link` is a leaf's `next_leaf` or an internal
      page's first child. */
  datatype RawNode = RawNode(kind: Byte, link: nat, records: seq<seq<Byte>>)

  ghost predicate Packable(n: RawNode, width: nat) {
    && n.link < TWO_32 && |n.records| < TWO_16
    && forall i :: 0 <= i < |n.records| ==> |n.records[i]| == width
  }

  function Concat(rs: seq<seq<Byte>>): (s: seq<Byte>) {
    if rs == [] then [] else Concat(rs[..|rs| - 1]) + rs[|rs| - 1]
  }

  function Head(n: RawNode): (s: seq<Byte>)
    requires n.link < TWO_32 && |n.records| < TWO_16
    ensures |s| == NODE_HEADER
  {
    [n.kind] + U16(|n.records|) + U32(n.link)
  }

  /** Where record `i` starts, counted from the end of the head. */
  function Offset(i: nat, width: nat): (o: nat) {
    if i == 0 then 0 else Offset(i - 1, width) + width
  }

  lemma {:induction false} OffsetGrows(i: nat, n: nat, width: nat)
    requires i < n
    ensures Offset(i, width) + width == Offset(i + 1, width) <= Offset(n, width)
    decreases n
  {
    if i + 1 < n { OffsetGrows(i, n - 1, width); }
  }

  lemma {:induction false} OffsetIsProduct(i: nat, width: nat)
    ensures Offset(i, width) == i * width
  {
    if i > 0 {
      OffsetIsProduct(i - 1, width);
      assert i * width == (i - 1) * width + width;
    }
  }

  lemma {:induction false} ConcatLength(rs: seq<seq<Byte>>, width: nat)
    requires forall i :: 0 <= i < |rs| ==> |rs[i]| == width
    ensures |Concat(rs)| == Offset(|rs|, width)
    decreases |rs|
  {
    if rs != [] { ConcatLength(rs[..|rs| - 1], width); }
  }

  /** Record `i` starts at its offset. */
  lemma {:induction false} ConcatAt(rs: seq<seq<Byte>>, width: nat, i: nat)
    requires i < |rs| && forall j :: 0 <= j < |rs| ==> |rs[j]| == width
    ensures var lo := Offset(i, width); lo + width <= |Concat(rs)| && Concat(rs)[lo..lo + width] == rs[i]
    decreases |rs|
  {
    var front := rs[..|rs| - 1];
    ConcatLength(front, width);
    ConcatLength(rs, width);
    if i < |rs| - 1 {
      ConcatAt(front, width, i);
      TakeSlice(Concat(front), rs[|rs| - 1], Offset(i, width), Offset(i, width) + width);
    }
  }

  lemma TakeSlice(a: seq<Byte>, b: seq<Byte>, lo: nat, hi: nat)
    requires lo <= hi <= |a|
    ensures (a + b)[lo..hi] == a[lo..hi]
  {
  }

  /* ---------- writing ---------- */

  /** Writing behind what was written is writing both. */
  lemma SpliceMore(d: Page, a: seq<Byte>, b: seq<Byte>)
    requires |a| + |b| <= PAGE_SIZE
    ensures Splice(Splice(d, 0, a), |a|, b) == Splice(d, 0, a + b)
  {
    var x, y := Splice(Splice(d, 0, a), |a|, b), Splice(d, 0, a + b);
    forall i | 0 <= i < PAGE_SIZE ensures x[i] == y[i] {
      SpliceAt(Splice(d, 0, a), |a|, b, i);
      SpliceAt(d, 0, a, i);
      SpliceAt(d, 0, a + b, i);
    }
  }

  ghost function Packed(n: RawNode): (s: seq<Byte>)
    requires n.link < TWO_32 && |n.records| < TWO_16
  {
    Head(n) + Concat(n.records)
  }

  /** `_write_leaf` and `_write_internal`: head, then record by record; None when a
      record runs over the end of the page. */
  method WriteNode(d: Page, n: RawNode, width: nat) returns (r: Option<Page>)
    requires Packable(n, width)
    ensures r.Some? <==> NODE_HEADER + Offset(|n.records|, width) <= PAGE_SIZE
    ensures r.Some? ==> |Packed(n)| <= PAGE_SIZE && r.value == Splice(d, 0, Packed(n))
  {
    var page := Splice(d, 0, Head(n));
    var offset := NODE_HEADER;
    assert Head(n) + Concat([]) == Head(n);
    for i := 0 to |n.records|
      invariant offset == NODE_HEADER + Offset(i, width) <= PAGE_SIZE
      invariant |Head(n) + Concat(n.records[..i])| == offset && page == Splice(d, 0, Head(n) + Concat(n.records[..i]))
    {
      var rec := n.records[i];
      OffsetGrows(i, |n.records|, width);
      if offset + width > PAGE_SIZE { return None; }
      SpliceMore(d, Head(n) + Concat(n.records[..i]), rec);
      assert n.records[..i + 1][..i] == n.records[..i];
      Assoc(Head(n), Concat(n.records[..i]), rec);
      page := Splice(page, offset, rec);
      offset := offset + width;
    }
    assert n.records[..|n.records|] == n.records;
    return Some(page);
  }

  /* ---------- reading ---------- */

  function Count(d: Page): nat { ReadU16(d, 1) }

  function Link(d: Page): nat { ReadU32(d, 3) }

  function RecordAt(d: Page, width: nat, i: nat): (r: seq<Byte>)
    requires NODE_HEADER + Offset(i, width) + width <= PAGE_SIZE
  {
    d[NODE_HEADER + Offset(i, width)..NODE_HEADER + Offset(i, width) + width]
  }

  ghost predicate IsRecord(d: Page, width: nat, i: nat, r: seq<Byte>) {
    NODE_HEADER + Offset(i, width) + width <= PAGE_SIZE && r == RecordAt(d, width, i)
  }

  /** `_read_leaf` and `_read_internal`; None when the count runs over the page. */
  method ReadNode(d: Page, width: nat) returns (r: Option<RawNode>)
    ensures r.Some? <==> NODE_HEADER + Offset(Count(d), width) <= PAGE_SIZE
    ensures r.Some? ==> r.value.kind == d[0] && r.value.link == Link(d) && |r.value.records| == Count(d)
    ensures r.Some? ==> forall i :: 0 <= i < Count(d) ==> IsRecord(d, width, i, r.value.records[i])
  {
    var records: seq<seq<Byte>> := [];
    for i := 0 to Count(d)
      invariant |records| == i && NODE_HEADER + Offset(i, width) <= PAGE_SIZE
      invariant forall j :: 0 <= j < i ==> IsRecord(d, width, j, records[j])
    {
      OffsetGrows(i, Count(d), width);
      if NODE_HEADER + Offset(i, width) + width > PAGE_SIZE { return None; }
      var rec := RecordAt(d, width, i);
      assert IsRecord(d, width, i, rec);
      records := records + [rec];
    }
    return Some(RawNode(d[0], Link(d), records));
  }

  lemma HeadReads(d: Page, n: RawNode, rest: seq<Byte>)
    requires n.link < TWO_32 && |n.records| < TWO_16 && NODE_HEADER + |rest| <= PAGE_SIZE
    ensures var p := Splice(d, 0, Head(n) + rest); p[0] == n.kind && Count(p) == |n.records| && Link(p) == n.link
  {
    var h, s := Head(n), Head(n) + rest;
    var a, b := U16(|n.records|), U32(n.link);
    assert h[1] == a[0] && h[2] == a[1] && h[3] == b[0] && h[4] == b[1] && h[5] == b[2] && h[6] == b[3];
    forall i | 0 <= i < NODE_HEADER ensures Splice(d, 0, s)[i] == h[i] { SpliceAt(d, 0, s, i); }
  }

  lemma RecordReads(d: Page, n: RawNode, width: nat, i: nat)
    requires Packable(n, width) && NODE_HEADER + Offset(|n.records|, width) <= PAGE_SIZE && i < |n.records|
    ensures |Packed(n)| <= PAGE_SIZE && NODE_HEADER + Offset(i, width) + width <= PAGE_SIZE
    ensures RecordAt(Splice(d, 0, Packed(n)), width, i) == n.records[i]
  {
    var body := Concat(n.records);
    ConcatLength(n.records, width);
    ConcatAt(n.records, width, i);
    OffsetGrows(i, |n.records|, width);
    var lo := Offset(i, width);
    var p := Splice(d, 0, Packed(n));
    assert body[lo..lo + width] == n.records[i];
    forall j | 0 <= j < width ensures RecordAt(p, width, i)[j] == n.records[i][j] {
      SpliceAt(d, 0, Packed(n), NODE_HEADER + lo + j);
      assert body[lo + j] == body[lo..lo + width][j];
    }
  }

  /** Reading back what was written gives the node, whatever the page held before. */
  method WriteThenRead(d: Page, n: RawNode, width: nat) returns (r: Option<RawNode>)
    requires Packable(n, width)
    ensures r == if NODE_HEADER + Offset(|n.records|, width) <= PAGE_SIZE then Some(n) else None
  {
    var page := WriteNode(d, n, width);
    if page.None? { return None; }
    HeadReads(d, n, Concat(n.records));
    r := ReadNode(page.value, width);
    forall i | 0 <= i < |n.records| ensures r.value.records[i] == n.records[i] {
      assert IsRecord(page.value, width, i, r.value.records[i]);
      RecordReads(d, n, width, i);
    }
    assert r.value.records == n.records;
  }

  /* ---------- capacities ---------- */

  function Max(a: nat, b: nat): nat { if a < b then b else a }

  function LeafCapacity(keySize: nat): (n: nat) { Max(4, (PAGE_SIZE - NODE_HEADER) / (keySize + 6)) }

  function InnerCapacity(keySize: nat): (n: nat) { Max(4, (PAGE_SIZE - NODE_HEADER) / (keySize + 4)) }

  lemma DivideFits(n: nat, width: nat, room: nat)
    requires width > 0
    ensures n * width <= room <==> n <= room / width
  {
    var q := room / width;
    assert room == q * width + room % width;
    if n <= q {
      assert q * width == n * width + (q - n) * width;
      assert (q - n) * width >= 0;
    } else {
      assert n * width == (q + 1) * width + (n - q - 1) * width;
      assert (n - q - 1) * width >= 0 && (q + 1) * width == q * width + width;
    }
  }

  /** For keys of up to 1016 bytes a leaf write succeeds exactly up to the leaf capacity,
      and an internal write up to the internal one; for longer keys the floor of four
      entries promises a leaf that does not fit its page. */
  lemma CapacityIsExact(keySize: nat, n: nat)
    ensures keySize <= 1016 ==> (NODE_HEADER + n * (keySize + 6) <= PAGE_SIZE <==> n <= LeafCapacity(keySize))
    ensures keySize <= 1016 ==> (NODE_HEADER + n * (keySize + 4) <= PAGE_SIZE <==> n <= InnerCapacity(keySize))
    ensures keySize > 1016 ==> NODE_HEADER + LeafCapacity(keySize) * (keySize + 6) > PAGE_SIZE
  {
    var room := PAGE_SIZE - NODE_HEADER;
    DivideFits(n, keySize + 6, room);
    DivideFits(n, keySize + 4, room);
    DivideFits(4, keySize + 6, room);
    DivideFits(4, keySize + 4, room);
    DivideFits(LeafCapacity(keySize), keySize + 6, room);
  }

  /* ---------- keys ---------- */

  /** `struct.pack("<q", key)`: eight bytes, two's complement. */
  function IntKey(k: int): (s: seq<Byte>)
    requires -TWO_63 <= k < TWO_63
    ensures |s| == 8
  {
    var u := if k < 0 then k + 2 * TWO_63 else k;
    LowBytes(u, 8)
  }

  function LowBytes(u: nat, n: nat): (s: seq<Byte>)
    ensures |s| == n
  {
    if n == 0 then [] else [u % 256] + LowBytes(u / 256, n - 1)
  }

  function Amount(s: seq<Byte>): (u: nat) {
    if s == [] then 0 else s[0] as int + 256 * Amount(s[1..])
  }

  function IntFrom(s: seq<Byte>): (k: int)
    requires |s| == 8
  {
    var u := Amount(s);
    if u >= TWO_63 then u - 2 * TWO_63 else u
  }

  function Power256(n: nat): (p: nat)
    ensures p > 0
  {
    if n == 0 then 1 else 256 * Power256(n - 1)
  }

  lemma {:induction false} LowBytesAmount(u: nat, n: nat)
    requires u < Power256(n)
    ensures Amount(LowBytes(u, n)) == u
  {
    if n > 0 {
      assert LowBytes(u, n)[1..] == LowBytes(u / 256, n - 1);
      LowBytesAmount(u / 256, n - 1);
    }
  }

  /** An integer key survives exactly as a 64-bit value. */
  lemma IntKeySurvives(k: int)
    requires -TWO_63 <= k < TWO_63
    ensures IntFrom(IntKey(k)) == k
  {
    assert Power256(8) == 2 * TWO_63 by {
      assert Power256(4) == TWO_32;
      assert Power256(8) == 256 * (256 * (256 * (256 * Power256(4))));
    }
    LowBytesAmount(if k < 0 then k + 2 * TWO_63 else k, 8);
  }

  function Zeros(n: nat): (s: seq<Byte>)
    ensures |s| == n && forall i :: 0 <= i < n ==> s[i] == 0
  {
    seq(n, _ => 0)
  }

  /** A TEXT key: cut to the key size, padded with zero bytes. */
  function TextKey(raw: seq<Byte>, keySize: nat): (s: seq<Byte>)
    ensures |s| == keySize
  {
    var cut := if |raw| <= keySize then raw else raw[..keySize];
    cut + Zeros(keySize - |cut|)
  }

  /** `rstrip(b"\\x00")`. */
  function Stripped(s: seq<Byte>): (r: seq<Byte>)
    ensures |r| <= |s| && r == s[..|r|]
    ensures r == [] || r[|r| - 1] != 0
    ensures forall i :: |r| <= i < |s| ==> s[i] == 0
  {
    if s != [] && s[|s| - 1] == 0 then Stripped(s[..|s| - 1]) else s
  }

  /** A TEXT key survives exactly when it is short enough and does not end in a zero byte. */
  lemma TextKeySurvives(raw: seq<Byte>, keySize: nat)
    ensures Stripped(TextKey(raw, keySize)) == raw <==> |raw| <= keySize && (raw == [] || raw[|raw| - 1] != 0)
  {
    var s := TextKey(raw, keySize);
    var r := Stripped(s);
    if |raw| <= keySize && (raw == [] || raw[|raw| - 1] != 0) {
      assert raw == [] || s[|raw| - 1] == raw[|raw| - 1];
      assert forall i :: |raw| <= i < |s| ==> s[i] == 0;
      assert s[..|raw|] == raw;
    }
  }

  /* ---------- records ---------- */

  /** A leaf record: key and RID. */
  function LeafRecord(key: seq<Byte>, pageId: nat, slotId: nat): (s: seq<Byte>)
    requires pageId < TWO_32 && slotId < TWO_16
    ensures |s| == |key| + 6
  {
    key + U32(pageId) + U16(slotId)
  }

  /** An internal record: separator and the child to its right. */
  function InnerRecord(key: seq<Byte>, child: nat): (s: seq<Byte>)
    requires child < TWO_32
    ensures |s| == |key| + 4
  {
    key + U32(child)
  }

  lemma U32Injective(x: nat, y: nat)
    requires x < TWO_32 && y < TWO_32 && U32(x) == U32(y)
    ensures x == y
  {
  }

  /** Records tell their parts apart. */
  lemma RecordsInjective(k1: seq<Byte>, p1: nat, s1: nat, k2: seq<Byte>, p2: nat, s2: nat)
    requires |k1| == |k2| && p1 < TWO_32 && p2 < TWO_32 && s1 < TWO_16 && s2 < TWO_16
    ensures LeafRecord(k1, p1, s1) == LeafRecord(k2, p2, s2) ==> k1 == k2 && p1 == p2 && s1 == s2
    ensures InnerRecord(k1, p1) == InnerRecord(k2, p2) ==> k1 == k2 && p1 == p2
  {
    var n := |k1|;
    var a, b := LeafRecord(k1, p1, s1), LeafRecord(k2, p2, s2);
    assert a[..n] == k1 && b[..n] == k2;
    assert a[n..n + 4] == U32(p1) && b[n..n + 4] == U32(p2);
    assert a[n + 4..] == U16(s1) && b[n + 4..] == U16(s2);
    var c, d := InnerRecord(k1, p1), InnerRecord(k2, p2);
    assert c[..n] == k1 && d[..n] == k2 && c[n..] == U32(p1) && d[n..] == U32(p2);
    if U32(p1) == U32(p2) { U32Injective(p1, p2); }
  }
}
