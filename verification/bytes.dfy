/** Fixed-width unsigned integers and their little-endian byte layout.

    The C code stores the 32-bit length header and the 16-bit token word
    through native pointer casts (lz.c:11, 44, 59, 64). This module states
    the layout explicitly as little-endian byte assembly, so the model does
    not depend on the host's byte order. */
module Bytes {

  type uint8 = x: int | 0 <= x < 0x100
  type uint16 = x: int | 0 <= x < 0x1_0000
  type uint32 = x: int | 0 <= x < 0x1_0000_0000

  /** The two bytes of a 16-bit word, least significant first. */
  function Word16ToBytes(w: uint16): (bs: seq<uint8>)
    ensures |bs| == 2
    ensures bs[0] as int + 0x100 * (bs[1] as int) == w
  {
    [w % 0x100, w / 0x100]
  }

  /** Reassembles a 16-bit word from two bytes, least significant first. */
  function BytesToWord16(bs: seq<uint8>): (w: uint16)
    requires |bs| == 2
    ensures w % 0x100 == bs[0] && w / 0x100 == bs[1]
  {
    bs[0] as int + 0x100 * (bs[1] as int)
  }

  /** The four bytes of a 32-bit value, least significant first: the low
      16-bit half, then the high half. */
  function Word32ToBytes(n: uint32): (bs: seq<uint8>)
    ensures |bs| == 4
    ensures BytesToWord16(bs[..2]) + 0x1_0000 * BytesToWord16(bs[2..]) == n
  {
    var lo, hi := Word16ToBytes(n % 0x1_0000), Word16ToBytes(n / 0x1_0000);
    assert (lo + hi)[..2] == lo && (lo + hi)[2..] == hi;
    lo + hi
  }

  /** Reassembles a 32-bit value from four bytes, least significant first. */
  function BytesToWord32(bs: seq<uint8>): (n: uint32)
    requires |bs| == 4
    ensures n % 0x1_0000 == BytesToWord16(bs[..2]) && n / 0x1_0000 == BytesToWord16(bs[2..])
  {
    BytesToWord16(bs[..2]) + 0x1_0000 * BytesToWord16(bs[2..])
  }

  /** Writing a word and reading it back gives the same word. */
  lemma Word16RoundTrip(w: uint16)
    ensures BytesToWord16(Word16ToBytes(w)) == w
  {
  }

  /** Reading two bytes and writing the word back gives the same bytes. */
  lemma Word16BytesRoundTrip(bs: seq<uint8>)
    requires |bs| == 2
    ensures Word16ToBytes(BytesToWord16(bs)) == bs
  {
  }

  /** Writing a 32-bit value and reading it back gives the same value. */
  lemma Word32RoundTrip(n: uint32)
    ensures BytesToWord32(Word32ToBytes(n)) == n
  {
  }

  /** Reading four bytes and writing the value back gives the same bytes. */
  lemma Word32BytesRoundTrip(bs: seq<uint8>)
    requires |bs| == 4
    ensures Word32ToBytes(BytesToWord32(bs)) == bs
  {
    var n := BytesToWord32(bs);
    Word16BytesRoundTrip(bs[..2]);
    Word16BytesRoundTrip(bs[2..]);
    assert bs == bs[..2] + bs[2..];
  }
}
