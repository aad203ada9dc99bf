/** Bytes, little-endian numbers and fixed-size pages. */
module Bytes {

  type Byte = b: int | 0 <= b < 256

  const PAGE_SIZE := 4096

  /** A page's bytes. */
  type Page = p: seq<Byte> | |p| == PAGE_SIZE witness seq(PAGE_SIZE, _ => 0)

  const TWO_16 := 0x1_0000
  const TWO_32 := 0x1_0000_0000
  const TWO_63 := 0x8000_0000_0000_0000

  /** Little-endian u16 and u32. */
  function U16(x: nat): (s: seq<Byte>)
    requires x < TWO_16
    ensures |s| == 2 && s[0] as int + 256 * (s[1] as int) == x
  {
    [x % 256, x / 256]
  }

  function U32(x: nat): (s: seq<Byte>)
    requires x < TWO_32
    ensures |s| == 4 && FromU32(s) == x
  {
    var a := x / 256;
    var b := a / 256;
    var c := b / 256;
    assert c < 256 && x == x % 256 + 256 * (a % 256 + 256 * (b % 256 + 256 * c));
    [x % 256, a % 256, b % 256, c]
  }

  function FromU32(s: seq<Byte>): (x: nat)
    requires |s| == 4
    ensures x < TWO_32
  {
    s[0] as int + 256 * (s[1] as int) + 65536 * (s[2] as int) + 16777216 * (s[3] as int)
  }
}
