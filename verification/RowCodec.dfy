/** Rows as the bytes of a heap tuple: column by column behind the two stamps. */
module RowCodec {
  import opened Sequences
  import opened Bytes
  import opened Expr
  import opened Schema
  import opened BTreePage
  import HeapPage

  /** UTF-8 and the eight bytes of a double, with their inverses. */
  datatype Codec = Codec(text: string -> seq<Byte>, untext: seq<Byte> -> string,
                         double: real -> seq<Byte>, undouble: seq<Byte> -> real)

  /** They are inverses; a character takes one byte. */
  ghost predicate Faithful(c: Codec) {
    && (forall s :: |c.text(s)| == |s| && c.untext(c.text(s)) == s)
    && (forall x :: |c.double(x)| == 8 && c.undouble(c.double(x)) == x)
  }

  /* ---------- values ---------- */

  /** `encode_value` of a value that has the column's type. */
  function EncodeValue(c: Codec, t: ColumnType, v: Value): (s: seq<Byte>)
    requires HasType(t, v) && Faithful(c)
    ensures |s| == Width(v)
  {
    match t
    case INT => IntKey(v.n)
    case FLOAT => c.double(v.r)
    case BOOL => [if v.b then 1 else 0]
    case TEXT => U16(|c.text(v.s)|) + c.text(v.s)
  }

  datatype Decoded = Decoded(value: Value, consumed: nat)

  /** `decode_value` at an offset; None when the bytes run out. */
  function DecodeValue(c: Codec, t: ColumnType, data: seq<Byte>, offset: nat): (r: Option<Decoded>)
    ensures r.Some? ==> offset + r.value.consumed <= |data|
  {
    match t
    case INT =>
      if offset + 8 > |data| then None else Some(Decoded(Int(IntFrom(data[offset..offset + 8])), 8))
    case FLOAT =>
      if offset + 8 > |data| then None else Some(Decoded(Float(c.undouble(data[offset..offset + 8])), 8))
    case BOOL =>
      if offset + 1 > |data| then None else Some(Decoded(Bool(data[offset] != 0), 1))
    case TEXT =>
      if offset + 2 > |data| then None
      else
        var n := data[offset] as int + 256 * (data[offset + 1] as int);
        if offset + 2 + n > |data| then None
        else Some(Decoded(Text(c.untext(data[offset + 2..offset + 2 + n])), 2 + n))
  }

  /** A value that stands at the offset is read back, and its bytes are consumed. */
  lemma ValueSurvives(c: Codec, t: ColumnType, v: Value, before: seq<Byte>, behind: seq<Byte>)
    requires HasType(t, v) && Faithful(c)
    ensures DecodeValue(c, t, before + EncodeValue(c, t, v) + behind, |before|) == Some(Decoded(v, Width(v)))
  {
    var e, o := EncodeValue(c, t, v), |before|;
    var data := before + e + behind;
    assert data[o..o + |e|] == e;
    match t
    case INT => IntKeySurvives(v.n);
    case TEXT =>
      var raw := c.text(v.s);
      assert data[o] == e[0] && data[o + 1] == e[1];
      assert data[o + 2..o + 2 + |raw|] == e[2..] == raw;
    case _ =>
  }

  /* ---------- rows ---------- */

  /** `encode_row`. */
  function EncodeRow(c: Codec, types: seq<ColumnType>, row: Tuple): (s: seq<Byte>)
    requires TypedRow(types, row) && Faithful(c)
  {
    if row == [] then [] else EncodeValue(c, types[0], row[0]) + EncodeRow(c, types[1..], row[1..])
  }

  lemma {:induction false} EncodedSize(c: Codec, types: seq<ColumnType>, row: Tuple)
    requires TypedRow(types, row) && Faithful(c)
    ensures |EncodeRow(c, types, row)| == PayloadSize(row)
    decreases |row|
  {
    if row != [] { EncodedSize(c, types[1..], row[1..]); }
  }

  /** The first `i` columns take up what stands before column `i`. */
  lemma {:induction false} EncodedParts(c: Codec, types: seq<ColumnType>, row: Tuple, i: nat)
    requires TypedRow(types, row) && Faithful(c) && i <= |row|
    ensures EncodeRow(c, types, row) == EncodeRow(c, types[..i], row[..i]) + EncodeRow(c, types[i..], row[i..])
    decreases i
  {
    if i == 0 {
      assert types[0..] == types && row[0..] == row && row[..0] == [];
    } else {
      EncodedParts(c, types[1..], row[1..], i - 1);
      assert types[1..][..i - 1] == types[..i][1..] && row[1..][..i - 1] == row[..i][1..];
      assert types[1..][i - 1..] == types[i..] && row[1..][i - 1..] == row[i..];
      Assoc(EncodeValue(c, types[0], row[0]), EncodeRow(c, types[..i][1..], row[..i][1..]),
            EncodeRow(c, types[i..], row[i..]));
    }
  }

  lemma {:induction false} EncodedSnoc(c: Codec, types: seq<ColumnType>, row: Tuple, i: nat)
    requires TypedRow(types, row) && Faithful(c) && i < |row|
    ensures EncodeRow(c, types[..i + 1], row[..i + 1])
         == EncodeRow(c, types[..i], row[..i]) + EncodeValue(c, types[i], row[i])
  {
    var ts, vs := types[..i + 1], row[..i + 1];
    EncodedParts(c, ts, vs, i);
    assert ts[..i] == types[..i] && vs[..i] == row[..i] && ts[i..] == [types[i]] && vs[i..] == [row[i]];
    assert EncodeRow(c, [types[i]], [row[i]]) == EncodeValue(c, types[i], row[i]) + EncodeRow(c, [], []) by {
      assert [types[i]][1..] == [] && [row[i]][1..] == [];
    }
  }

  /** `decode_row`: the loop with a moving offset gives back the row that was encoded. */
  method DecodeRow(c: Codec, types: seq<ColumnType>, data: seq<Byte>, ghost row: Tuple) returns (values: Option<Tuple>)
    requires Faithful(c) && TypedRow(types, row) && data == EncodeRow(c, types, row)
    ensures values == Some(row)
  {
    var out: Tuple := [];
    var offset := 0;
    for i := 0 to |types|
      invariant out == row[..i] && offset == |EncodeRow(c, types[..i], row[..i])| <= |data|
    {
      EncodedParts(c, types, row, i);
      ColumnAt(c, types, row, i);
      var r := DecodeValue(c, types[i], data, offset);
      if r.None? { return None; }
      EncodedSnoc(c, types, row, i);
      out := out + [r.value.value];
      offset := offset + r.value.consumed;
    }
    assert row[..|types|] == row;
    return Some(out);
  }

  lemma ColumnAt(c: Codec, types: seq<ColumnType>, row: Tuple, i: nat)
    requires TypedRow(types, row) && Faithful(c) && i < |row|
    ensures var offset := |EncodeRow(c, types[..i], row[..i])|;
            DecodeValue(c, types[i], EncodeRow(c, types, row), offset) == Some(Decoded(row[i], Width(row[i])))
  {
    var before, behind := EncodeRow(c, types[..i], row[..i]), EncodeRow(c, types[i + 1..], row[i + 1..]);
    EncodedParts(c, types, row, i);
    assert types[i..][0] == types[i] && types[i..][1..] == types[i + 1..];
    assert row[i..][0] == row[i] && row[i..][1..] == row[i + 1..];
    Assoc(before, EncodeValue(c, types[i], row[i]), behind);
    ValueSurvives(c, types[i], row[i], before, behind);
  }

  /* ---------- tuples ---------- */

  /** `pack_tuple`. */
  function PackTuple(xmin: nat, xmax: nat, payload: seq<Byte>): (s: seq<Byte>)
    requires xmin < TWO_32 && xmax < TWO_32
  {
    U32(xmin) + U32(xmax) + payload
  }

  /** `unpack_tuple_header` and `tuple_payload`. */
  function Stamps(data: seq<Byte>): (h: (nat, nat))
    requires |data| >= 8
    ensures h.0 < TWO_32 && h.1 < TWO_32
  {
    (FromU32(data[0..4]), FromU32(data[4..8]))
  }

  function Payload(data: seq<Byte>): (s: seq<Byte>)
    requires |data| >= 8
  {
    data[8..]
  }

  /** `with_xmax`. */
  function WithXmax(data: seq<Byte>, xmax: nat): (s: seq<Byte>)
    requires |data| >= 8 && xmax < TWO_32
  {
    PackTuple(Stamps(data).0, xmax, Payload(data))
  }

  lemma TupleSurvives(xmin: nat, xmax: nat, payload: seq<Byte>)
    requires xmin < TWO_32 && xmax < TWO_32
    ensures var s := PackTuple(xmin, xmax, payload);
            |s| == 8 + |payload| && Stamps(s) == (xmin, xmax) && Payload(s) == payload
  {
    var s := PackTuple(xmin, xmax, payload);
    assert s[0..4] == U32(xmin) && s[4..8] == U32(xmax) && s[8..] == payload;
  }

  /** Stamping changes the second stamp and nothing else, least of all the length, so the
      tuple can be written back in place. */
  lemma StampKeepsRest(data: seq<Byte>, xmax: nat)
    requires |data| >= 8 && xmax < TWO_32
    ensures var s := WithXmax(data, xmax);
            |s| == |data| && Stamps(s) == (Stamps(data).0, xmax) && Payload(s) == Payload(data)
  {
    TupleSurvives(Stamps(data).0, xmax, Payload(data));
  }

  /** A row can be stored exactly if its values can be encoded and its tuple passes the heap's
      size check. */
  lemma StorableIff(c: Codec, casts: Casts, types: seq<ColumnType>, row: Tuple, xmin: nat, xmax: nat)
    requires Faithful(c) && |row| == |types| && xmin < TWO_32 && xmax < TWO_32
    ensures CoerceAll(casts, types, row).None? ==> StoredRow(casts, types, row).None?
    ensures CoerceAll(casts, types, row).Some? ==>
      && var stored := CoerceAll(casts, types, row).value;
         && TypedRow(types, stored)
         && var bytes := PackTuple(xmin, xmax, EncodeRow(c, types, stored));
            StoredRow(casts, types, row) == Some(stored) <==>
              HeapPage.HEADER_SIZE + HeapPage.SLOT_SIZE + |bytes| <= PAGE_SIZE
  {
    CoerceAllAt(casts, types, row);
    if CoerceAll(casts, types, row).Some? {
      var stored := CoerceAll(casts, types, row).value;
      forall i | 0 <= i < |stored| ensures HasType(types[i], stored[i]) { CoerceTyped(casts, types[i], row[i]); }
      EncodedSize(c, types, stored);
      TupleSurvives(xmin, xmax, EncodeRow(c, types, stored));
    }
  }
}
