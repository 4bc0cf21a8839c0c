/** Bytes and the endian readers the decoders share. */
module Bytes {
  type byte = x: int | 0 <= x < 256

  function U16(hi: nat, lo: nat): nat {
    256 * hi + lo
  }

  /** A 16-bit value in network order. */
  function Be16(p: seq<byte>): nat
    requires |p| >= 2
  {
    U16(p[0], p[1])
  }

  /** A 16-bit value as a little-endian host reads it in place. */
  function Host16(p: seq<byte>): nat
    requires |p| >= 2
  {
    U16(p[1], p[0])
  }

  function Be32(p: seq<byte>): nat
    requires |p| >= 4
  {
    0x1_0000 * U16(p[0], p[1]) + U16(p[2], p[3])
  }

  function Le32(p: seq<byte>): nat
    requires |p| >= 4
  {
    0x1_0000 * U16(p[3], p[2]) + U16(p[1], p[0])
  }

  function ToBe16(n: nat): (r: seq<byte>)
    requires n < 0x1_0000
    ensures |r| == 2 && Be16(r) == n
  {
    [n / 256, n % 256]
  }

  function ToBe32(n: nat): (r: seq<byte>)
    requires n < 0x1_0000_0000
    ensures |r| == 4 && Be32(r) == n
  {
    ToBe16(n / 0x1_0000) + ToBe16(n % 0x1_0000)
  }

  function ToLe32(n: nat): (r: seq<byte>)
    requires n < 0x1_0000_0000
    ensures |r| == 4 && Le32(r) == n
  {
    var lo, hi := n % 0x1_0000, n / 0x1_0000;
    [lo % 256, lo / 256, hi % 256, hi / 256]
  }

  lemma LowByte(hi: nat, lo: byte)
    ensures U16(hi, lo) % 256 == lo && U16(hi, lo) / 256 == hi
  {
  }
}
