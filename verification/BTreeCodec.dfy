/** The nodes of the tree proofs as the pages the program writes, for integer keys. */
module BTreeCodec {
  import opened Sequences
  import opened Bytes
  import opened BTreeEntries
  import opened BTreeShape
  import opened BTreeContents
  import opened BTreePage

  const BTREE_INTERNAL: Byte := 2
  const BTREE_LEAF: Byte := 3
  const INVALID_PAGE_ID := 0xFFFF_FFFF
  const KEY_SIZE := 8

  predicate WordKey(k: Key) { -TWO_63 <= k < TWO_63 }

  predicate PageRef(p: PageId) { p < INVALID_PAGE_ID }

  /** Keys and references fit their fields. */
  predicate EntryFits(e: Entry) {
    WordKey(e.key) && e.rid.pageId < TWO_32 && e.rid.slotId < TWO_16
  }

  predicate Writable(n: Node) {
    match n
    case Leaf(es, next) =>
      |es| < TWO_16 && (next.Some? ==> PageRef(next.value)) && forall i :: 0 <= i < |es| ==> EntryFits(es[i])
    case Internal(cs, ks) =>
      && |cs| == |ks| + 1 && |ks| < TWO_16
      && (forall i :: 0 <= i < |cs| ==> PageRef(cs[i]))
      && forall i :: 0 <= i < |ks| ==> WordKey(ks[i])
  }

  function Width(n: Node): (w: nat) { if n.Leaf? then KEY_SIZE + 6 else KEY_SIZE + 4 }

  function Size(n: Node): (k: nat) { if n.Leaf? then |n.entries| else |n.keys| }

  function PutEntry(e: Entry): (rec: seq<Byte>)
    requires EntryFits(e)
    ensures |rec| == KEY_SIZE + 6
  {
    LeafRecord(IntKey(e.key), e.rid.pageId, e.rid.slotId)
  }

  function PutChild(k: Key, c: PageId): (rec: seq<Byte>)
    requires WordKey(k) && PageRef(c)
    ensures |rec| == KEY_SIZE + 4
  {
    InnerRecord(IntKey(k), c)
  }

  /** What `_write_leaf` and `_write_internal` put on the page. */
  function ToRaw(n: Node): (raw: RawNode)
    requires Writable(n)
    ensures |raw.records| == Size(n) && Packable(raw, Width(n))
  {
    match n
    case Leaf(es, next) =>
      RawNode(BTREE_LEAF, if next.Some? then next.value else INVALID_PAGE_ID,
              seq(|es|, i requires 0 <= i < |es| => PutEntry(es[i])))
    case Internal(cs, ks) =>
      RawNode(BTREE_INTERNAL, cs[0], seq(|ks|, i requires 0 <= i < |ks| => PutChild(ks[i], cs[i + 1])))
  }

  function GetEntry(rec: seq<Byte>): (e: Entry)
    requires |rec| == KEY_SIZE + 6
  {
    Entry(IntFrom(rec[..8]), RID(FromU32(rec[8..12]), rec[12] as int + 256 * (rec[13] as int)))
  }

  function GetChild(rec: seq<Byte>): (c: PageId)
    requires |rec| == KEY_SIZE + 4
  {
    FromU32(rec[8..])
  }

  function GetKey(rec: seq<Byte>): (k: Key)
    requires |rec| == KEY_SIZE + 4
  {
    IntFrom(rec[..8])
  }

  function ReadWidth(kind: Byte): (w: nat) { if kind == BTREE_LEAF then KEY_SIZE + 6 else KEY_SIZE + 4 }

  predicate Readable(raw: RawNode) {
    forall i :: 0 <= i < |raw.records| ==> |raw.records[i]| == ReadWidth(raw.kind)
  }

  /** What `_read_leaf` and `_read_internal` make of it. */
  function FromRaw(raw: RawNode): (n: Node)
    requires Readable(raw)
  {
    if raw.kind == BTREE_LEAF then
      Leaf(seq(|raw.records|, i requires 0 <= i < |raw.records| => GetEntry(raw.records[i])),
           if raw.link == INVALID_PAGE_ID then None else Some(raw.link))
    else
      Internal([raw.link] + seq(|raw.records|, i requires 0 <= i < |raw.records| => GetChild(raw.records[i])),
               seq(|raw.records|, i requires 0 <= i < |raw.records| => GetKey(raw.records[i])))
  }

  lemma EntrySurvives(e: Entry)
    requires EntryFits(e)
    ensures GetEntry(PutEntry(e)) == e
  {
    var key, a, b := IntKey(e.key), U32(e.rid.pageId), U16(e.rid.slotId);
    var rec := PutEntry(e);
    assert rec[..8] == key && rec[8..12] == a && rec[12] == b[0] && rec[13] == b[1];
    IntKeySurvives(e.key);
  }

  lemma ChildSurvives(k: Key, c: PageId)
    requires WordKey(k) && PageRef(c)
    ensures GetKey(PutChild(k, c)) == k && GetChild(PutChild(k, c)) == c
  {
    var rec := PutChild(k, c);
    assert rec[..8] == IntKey(k) && rec[8..] == U32(c);
    IntKeySurvives(k);
  }

  lemma RawSurvives(n: Node)
    requires Writable(n)
    ensures Readable(ToRaw(n)) && FromRaw(ToRaw(n)) == n
  {
    match n
    case Leaf(es, _) =>
      forall i | 0 <= i < |es| ensures GetEntry(PutEntry(es[i])) == es[i] { EntrySurvives(es[i]); }
    case Internal(cs, ks) =>
      forall i | 0 <= i < |ks|
        ensures GetKey(PutChild(ks[i], cs[i + 1])) == ks[i] && GetChild(PutChild(ks[i], cs[i + 1])) == cs[i + 1]
      {
        ChildSurvives(ks[i], cs[i + 1]);
      }
      var m := FromRaw(ToRaw(n));
      assert m.children == cs && m.keys == ks;
  }

  /** The page capacities the constructor computes for integer keys. */
  function IntCapacity(): (cap: Capacity) { Capacity(LeafCapacity(KEY_SIZE), InnerCapacity(KEY_SIZE)) }

  /** A node with storable keys goes to its page and comes back as it was if and only if it
      has no more records than the tree allows; otherwise the write raises. */
  method SaveThenLoad(d: Page, n: Node) returns (r: Option<Node>)
    requires Writable(n)
    ensures r == if Size(n) <= (if n.Leaf? then IntCapacity().leaf else IntCapacity().inner) then Some(n) else None
  {
    var raw := WriteThenRead(d, ToRaw(n), Width(n));
    OffsetIsProduct(Size(n), Width(n));
    CapacityIsExact(KEY_SIZE, Size(n));
    RawSurvives(n);
    r := if raw.None? then None else Some(FromRaw(raw.value));
  }
}
