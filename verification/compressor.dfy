/** lz77_compress (lz.c:5-51): a 4-byte length header, then one token per
    coding step until the whole input is covered. */
module Compressor {
  import opened Bytes
  import opened Tokens
  import opened MatchFinder

  /** The token emitted at a coding position and the coding position after it. */
  datatype Step = Step(token: Token, next: nat)

  /** Boundary mode (lz.c:34): the match runs exactly to the end of the
      input, so no byte is left to serve as the trailing literal. */
  predicate Boundary(text: seq<uint8>, p: nat, m: Match)
  {
    m.length > 0 && p + m.length == |text|
  }

  /** One coding step (lz.c:16-46). In boundary mode the last matched byte
      becomes the literal and the copy is one byte shorter; otherwise the
      literal is the byte right after the match. */
  function EncodeStep(text: seq<uint8>, p: nat): (s: Step)
    requires p < |text|
    ensures Valid(s.token)
    ensures p < s.next <= |text|
    ensures s.next == p + Produced(s.token)
    ensures s.token.literal == text[s.next - 1]
    ensures s.token.distance == FindMatch(text, p).distance
    ensures s.token.distance > 0 ==> s.token.distance <= p && Matches(text, p, s.token.distance, s.token.length)
  {
    var m := FindMatch(text, p);
    if Boundary(text, p, m) then
      Step(Token(m.distance, m.length - 1, text[|text| - 1]), |text|)
    else
      Step(Token(m.distance, m.length, text[p + m.length]), p + m.length + 1)
  }

  /** Which token the step emits, by mode, and that the normal-mode literal
      lies inside the input (lz.c:33-43). */
  lemma LiteralSelection(text: seq<uint8>, p: nat)
    requires p < |text|
    ensures var m, s := FindMatch(text, p), EncodeStep(text, p);
      if Boundary(text, p, m) then
        s.token == Token(m.distance, m.length - 1, text[|text| - 1]) && s.next == |text|
      else
        p + m.length < |text|
        && s.token == Token(m.distance, m.length, text[p + m.length])
        && s.next == p + m.length + 1
  {
  }

  /** Boundary mode (lz.c:34) is exactly the case where the emitted token
      copies fewer bytes than the match found; in normal mode the whole
      match is copied. */
  lemma BoundaryShortensMatch(text: seq<uint8>, p: nat)
    requires p < |text|
    ensures Boundary(text, p, FindMatch(text, p)) <==> EncodeStep(text, p).token.length < FindMatch(text, p).length
    ensures !Boundary(text, p, FindMatch(text, p)) ==> EncodeStep(text, p).token.length == FindMatch(text, p).length
  {
  }

  /** The tokens for the input from coding position p on. */
  function EncodeFrom(text: seq<uint8>, p: nat): (ts: seq<Token>)
    requires p <= |text|
    ensures forall i :: 0 <= i < |ts| ==> Valid(ts[i])
    ensures TotalProduced(ts) == |text| - p
    ensures |ts| <= |text| - p
    ensures (MaxLength + 1) * |ts| >= |text| - p
    decreases |text| - p
  {
    if p == |text| then
      []
    else
      var s := EncodeStep(text, p);
      [s.token] + EncodeFrom(text, s.next)
  }

  /** The compressed artifact: the input length as a little-endian 32-bit
      header, then the serialized tokens (lz.c:11-14, 44-50). */
  function Compress(text: seq<uint8>): (out: seq<uint8>)
    requires |text| < 0x1_0000_0000
    ensures |out| == 4 + TokenSize * |EncodeFrom(text, 0)|
    ensures BytesToWord32(out[..4]) == |text|
    ensures |out| <= 4 + TokenSize * |text|
    ensures TokenSize * |text| <= (MaxLength + 1) * (|out| - 4)
  {
    var ts := EncodeFrom(text, 0);
    var out := Word32ToBytes(|text|) + SerializeAll(ts);
    assert out[..4] == Word32ToBytes(|text|);
    Word32RoundTrip(|text|);
    out
  }

  /** The wire form of the tokens from p on: this step's token, then the rest. */
  lemma SerializeEncodeFrom(text: seq<uint8>, p: nat)
    requires p < |text|
    ensures SerializeAll(EncodeFrom(text, p))
      == Serialize(EncodeStep(text, p).token) + SerializeAll(EncodeFrom(text, EncodeStep(text, p).next))
  {
    var s := EncodeStep(text, p);
    SerializeAllCons(s.token, EncodeFrom(text, s.next));
  }

  /** Emitting the step's token moves it from the pending tokens to the
      output. */
  lemma EmitStep(text: seq<uint8>, p: nat, out: seq<uint8>)
    requires p < |text|
    ensures var s := EncodeStep(text, p);
      out + SerializeAll(EncodeFrom(text, p)) == (out + Serialize(s.token)) + SerializeAll(EncodeFrom(text, s.next))
  {
    SerializeEncodeFrom(text, p);
  }

  /** One pass of the outer loop of lz77_compress (lz.c:16-46): the search
      loops, then the choice between boundary and normal mode. */
  method CodingStep(text: seq<uint8>, pos: nat) returns (s: Step)
    requires pos < |text|
    ensures s == EncodeStep(text, pos)
  {
    var distance, length := FindLongestMatch(text, pos);
    if length > 0 && pos + length == |text| {
      s := Step(Token(distance, length - 1, text[|text| - 1]), |text|);
    } else {
      s := Step(Token(distance, length, text[pos + length]), pos + length + 1);
    }
    FindMatchIsBest(text, pos, Match(distance, length));
    LiteralSelection(text, pos);
  }

  /** The main loop of lz77_compress (lz.c:11-50) with an explicit
      coding position; it builds exactly the artifact Compress describes. */
  method CompressBuffer(text: seq<uint8>) returns (out: seq<uint8>)
    requires |text| < 0x1_0000_0000
    ensures out == Compress(text)
  {
    var header := Word32ToBytes(|text|);
    out := header;
    var pos := 0;
    while pos < |text|
      invariant pos <= |text|
      invariant out + SerializeAll(EncodeFrom(text, pos)) == header + SerializeAll(EncodeFrom(text, 0))
      decreases |text| - pos
    {
      var s := CodingStep(text, pos);
      EmitStep(text, pos, out);
      out := out + Serialize(s.token);
      pos := s.next;
    }
    assert EncodeFrom(text, pos) == [];
  }
}
