/** Fixed-width unsigned integers and byte order, as a little-endian host sees them. */
module Bytes {

  type byte = x: int | 0 <= x < 0x100
  type u16 = x: int | 0 <= x < 0x1_0000
  type u32 = x: int | 0 <= x < 0x1_0000_0000

  /** A 16-bit load of two consecutive bytes. */
  function Load16(first: byte, second: byte): u16 {
    first + 0x100 * second
  }

  /** 16-bit addition. */
  function Add16(x: nat, y: nat): u16 {
    (x + y) % 0x1_0000
  }

  /** 8-bit subtraction. */
  function Sub8(x: int, y: int): byte {
    (x - y) % 0x100
  }

  /** 16-bit subtraction. */
  function Sub16(x: nat, y: nat): u16 {
    (x - y) % 0x1_0000
  }

  /** The two bytes as a number in network order. */
  function Net16(first: byte, second: byte): u16 {
    0x100 * first + second
  }

  function Net32(b0: byte, b1: byte, b2: byte, b3: byte): u32 {
    0x1_0000 * Net16(b0, b1) + Net16(b2, b3)
  }

  /** The bytes of a number in network order. */
  function Wire16(x: u16): (bs: seq<byte>)
    ensures |bs| == 2 && Net16(bs[0], bs[1]) == x
  {
    [x / 0x100, x % 0x100]
  }

  function Wire32(x: u32): (bs: seq<byte>)
    ensures |bs| == 4 && Net32(bs[0], bs[1], bs[2], bs[3]) == x
  {
    Wire16(x / 0x1_0000) + Wire16(x % 0x1_0000)
  }

  /** Elements off, off+1, ... of s replaced by bs. */
  function StoreAt<T>(s: seq<T>, off: nat, bs: seq<T>): (r: seq<T>)
    requires off + |bs| <= |s|
    ensures |r| == |s|
    ensures forall i :: 0 <= i < |s| ==> r[i] == if off <= i < off + |bs| then bs[i - off] else s[i]
  {
    s[..off] + bs + s[off + |bs|..]
  }
}
