/** Concrete coding steps: the boundary rule on "ABCABC", a
    self-overlapping back-reference on a run of ten equal bytes, and the
    rejection of a back-reference before the start of the output. */
module Scenarios {
  import opened Bytes
  import opened Tokens
  import opened MatchFinder
  import opened Compressor
  import opened Decompressor

  const A: uint8 := 65
  const B: uint8 := 66
  const C: uint8 := 67

  /** At a position whose byte occurs nowhere in the window there is no
      match, so the step emits a bare literal. */
  lemma LiteralStep(text: seq<uint8>, p: nat)
    requires p < |text|
    requires forall j :: p - Window(p) <= j < p ==> text[j] != text[p]
    ensures EncodeStep(text, p) == Step(Token(0, 0, text[p]), p + 1)
  {
    forall d, l | 1 <= d <= Window(p) && 0 < l <= MaxLength
      ensures !Matches(text, p, d, l)
    {
      assert text[p - d] != text[p];
    }
    FindMatchIsBest(text, p, NoMatch);
  }

  /** "ABCABC": three literals, then at position 3 the 3-byte match at
      distance 3 reaches the end of the input, so the encoder emits
      (3, 2, 'C') and stops (lz.c:34-37). */
  lemma BoundaryModeOnABCABC()
    ensures EncodeFrom([A, B, C, A, B, C], 0)
      == [Token(0, 0, A), Token(0, 0, B), Token(0, 0, C), Token(3, 2, C)]
  {
    var text := [A, B, C, A, B, C];
    LiteralStep(text, 0);
    assert Window(1) == 1 && Window(2) == 2 && Window(3) == 3;
    LiteralStep(text, 1);
    LiteralStep(text, 2);
    var m := Match(3, 3);
    assert Matches(text, 3, 3, 3);
    forall d, l | 1 <= d <= 3 && 3 < l <= MaxLength
      ensures !Matches(text, 3, d, l)
    {
    }
    forall d | 1 <= d < 3
      ensures !Matches(text, 3, d, 3)
    {
      assert text[3 - d] != text[3];
    }
    FindMatchIsBest(text, 3, m);
    assert EncodeStep(text, 3) == Step(Token(3, 2, C), 6);
    assert EncodeFrom(text, 3) == [Token(3, 2, C)];
    assert EncodeFrom(text, 2) == [Token(0, 0, C), Token(3, 2, C)];
    assert EncodeFrom(text, 1) == [Token(0, 0, B), Token(0, 0, C), Token(3, 2, C)];
  }

  /** Ten equal bytes: one literal, then a single back-reference at
      distance 1 covering the other nine bytes. It is in boundary mode,
      so it copies 8 bytes from one byte back and supplies the last byte
      as its literal; its distance is shorter than its length. */
  lemma OverlappingRun()
    ensures EncodeFrom(seq(10, i => A), 0) == [Token(0, 0, A), Token(1, 8, A)]
  {
    var text: seq<uint8> := seq(10, i => A);
    assert Window(0) == 0 && Window(1) == 1;
    LiteralStep(text, 0);
    assert Matches(text, 1, 1, 9);
    forall d, l | 1 <= d <= 1 && 9 < l <= MaxLength
      ensures !Matches(text, 1, d, l)
    {
    }
    FindMatchIsBest(text, 1, Match(1, 9));
    assert EncodeStep(text, 1) == Step(Token(1, 8, A), 10);
    assert EncodeFrom(text, 1) == [Token(1, 8, A)];
  }

  /** A first token that copies one byte from one byte back, before any
      output exists, is rejected. In the C code the offset
      `coding_pos - pointer_pos` wraps at lz.c:69, so lz.c:70 would read
      outside the output buffer. */
  lemma DistanceBeforeStartRejected()
    ensures Decompress(Word32ToBytes(2) + Serialize(Token(1, 1, A))) == Failure(DistanceBeforeStart)
  {
    var data := Word32ToBytes(2) + Serialize(Token(1, 1, A));
    assert data[..4] == Word32ToBytes(2);
    Word32RoundTrip(2);
    assert data[4..] == Serialize(Token(1, 1, A)) + [];
    DecodeTokensCons(Token(1, 1, A), [], 2, []);
  }

  /** A first token with distance 1 but length 0 copies nothing, so the
      stream decodes to its literal alone, as the C decoder's zero-trip
      copy loop does (lz.c:69-71). */
  lemma EmptyReferenceAccepted()
    ensures Decompress(Word32ToBytes(1) + Serialize(Token(1, 0, A))) == Success([A])
  {
    var data := Word32ToBytes(1) + Serialize(Token(1, 0, A));
    assert data[..4] == Word32ToBytes(1);
    Word32RoundTrip(1);
    assert data[4..] == Serialize(Token(1, 0, A)) + [];
    DecodeTokensCons(Token(1, 0, A), [], 1, []);
  }
}
