/** The 3-byte token: a 16-bit word holding `distance << 4 | length`,
    stored little-endian, followed by one literal byte (lz.c:36-46, 64-71). */
module Tokens {
  import opened Bytes

  /** Largest back-reference distance: candidates stop below 4096 (lz.c:18). */
  const MaxDistance: nat := 4095
  /** Largest match length: growth stops at 15 (lz.c:23, 29). */
  const MaxLength: nat := 15
  /** Bytes in one serialized token: a 2-byte word and a literal. */
  const TokenSize: nat := 3

  /** One coding step: copy `length` bytes from `distance` back, then emit
      `literal`. A distance of 0 means "no back-reference". */
  datatype Token = Token(distance: nat, length: nat, literal: uint8)

  /** The fields fit their 12-bit and 4-bit slots of the word. */
  predicate Valid(t: Token)
  {
    t.distance <= MaxDistance && t.length <= MaxLength
  }

  /** Number of output bytes the token stands for: the copied bytes (only
      when the distance is non-zero, lz.c:68) plus the literal. */
  function Produced(t: Token): (n: nat)
    ensures 1 <= n <= t.length + 1
    ensures t.distance == 0 ==> n == 1
  {
    (if t.distance == 0 then 0 else t.length) + 1
  }

  /** Output bytes a whole token sequence stands for, summed in order. */
  function TotalProduced(ts: seq<Token>): (n: nat)
    ensures n >= |ts|
  {
    if ts == [] then 0 else Produced(ts[0]) + TotalProduced(ts[1..])
  }

  /** `distance << 4 | length` on a 16-bit word. Because `length` < 16 the
      or-ing is an addition; ShiftOrIsMulAdd states this on bit-vectors. */
  function Pack(distance: nat, length: nat): (w: uint16)
    requires distance <= MaxDistance && length <= MaxLength
    ensures UnpackDistance(w) == distance && UnpackLength(w) == length
  {
    distance * 16 + length
  }

  /** `word >> 4` (lz.c:66). */
  function UnpackDistance(w: uint16): (d: nat)
    ensures d <= MaxDistance
  {
    w / 16
  }

  /** `word & 15` (lz.c:67). */
  function UnpackLength(w: uint16): (l: nat)
    ensures l <= MaxLength
  {
    w % 16
  }

  /** The bit-level operations of lz.c:36, 41, 66-67 agree with the integer
      arithmetic Pack and Unpack use. */
  lemma ShiftOrIsMulAdd(d: bv16, l: bv16)
    requires d <= 4095 && l <= 15
    ensures (d << 4) | l == d * 16 + l
    ensures ((d << 4) | l) >> 4 == d
    ensures ((d << 4) | l) & 15 == l
  {
  }

  /** The word lz.c:36 and 41 build with shift and or is, read as an
      integer, exactly the word Pack computes. */
  lemma PackIsShiftOr(d: bv16, l: bv16)
    requires d <= 4095 && l <= 15
    ensures ((d << 4) | l) as int == Pack(d as int, l as int)
  {
    ShiftOrIsMulAdd(d, l);
  }

  /** Every word the decoder reads unpacks into a word Pack produces. */
  lemma UnpackPack(w: uint16)
    ensures Pack(UnpackDistance(w), UnpackLength(w)) == w
  {
  }

  /** The three bytes of a token on the wire (lz.c:44-46). */
  function Serialize(t: Token): (bs: seq<uint8>)
    requires Valid(t)
    ensures |bs| == TokenSize
    ensures bs[2] == t.literal
  {
    Word16ToBytes(Pack(t.distance, t.length)) + [t.literal]
  }

  /** Reads a token from three bytes (lz.c:64-67, 71). */
  function Parse(bs: seq<uint8>): (t: Token)
    requires |bs| == TokenSize
    ensures Valid(t)
    ensures t.literal == bs[2]
  {
    var w := BytesToWord16(bs[..2]);
    Token(UnpackDistance(w), UnpackLength(w), bs[2])
  }

  /** Decoding the bytes of a valid token gives the token back. */
  lemma ParseSerialize(t: Token)
    requires Valid(t)
    ensures Parse(Serialize(t)) == t
  {
    var bs := Serialize(t);
    assert bs[..2] == Word16ToBytes(Pack(t.distance, t.length));
    Word16RoundTrip(Pack(t.distance, t.length));
  }

  /** Every 3-byte group is the wire form of the token read from it. */
  lemma SerializeParse(bs: seq<uint8>)
    requires |bs| == TokenSize
    ensures Serialize(Parse(bs)) == bs
  {
    var w := BytesToWord16(bs[..2]);
    UnpackPack(w);
    Word16BytesRoundTrip(bs[..2]);
    assert bs == bs[..2] + [bs[2]];
  }

  /** The concatenated wire form of a token sequence. */
  function SerializeAll(ts: seq<Token>): (bs: seq<uint8>)
    requires forall i :: 0 <= i < |ts| ==> Valid(ts[i])
    ensures |bs| == TokenSize * |ts|
  {
    if ts == [] then [] else Serialize(ts[0]) + SerializeAll(ts[1..])
  }

  /** The wire form of a token sequence starts with its first token. */
  lemma SerializeAllCons(t: Token, ts: seq<Token>)
    requires Valid(t) && forall i :: 0 <= i < |ts| ==> Valid(ts[i])
    ensures SerializeAll([t] + ts) == Serialize(t) + SerializeAll(ts)
  {
    assert ([t] + ts)[1..] == ts;
  }
}
