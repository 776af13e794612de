/** Encoder and decoder agree: every token reproduces exactly the input
    bytes the encoder covered with it, so decompressing the compressed
    input gives the input back. */
module RoundTrip {
  import opened Bytes
  import opened Tokens
  import opened MatchFinder
  import opened Compressor
  import opened Decompressor

  /** A back-reference over a genuine match rebuilds the matched bytes. */
  lemma {:induction false} BackCopyOfMatch(text: seq<uint8>, q: nat, d: nat, n: nat)
    requires 0 < d <= q
    requires Matches(text, q, d, n)
    ensures BackCopy(text[..q], d, n) == text[..q + n]
    decreases n
  {
    if n > 0 {
      assert text[q - d] == text[q];
      assert text[..q] + [text[..q][q - d]] == text[..q + 1];
      BackCopyOfMatch(text, q + 1, d, n - 1);
    }
  }

  /** A token whose back-reference is a genuine match and whose literal is
      the next input byte rebuilds the input from cursor p to `next`. */
  lemma TokenReproduces(text: seq<uint8>, p: nat, t: Token, next: nat)
    requires p < next <= |text| && next == p + Produced(t)
    requires t.literal == text[next - 1]
    requires t.distance > 0 ==> t.distance <= p && Matches(text, p, t.distance, t.length)
    ensures ApplyToken(text[..p], t) == Success(text[..next])
  {
    var copied := next - 1;
    if t.distance > 0 {
      BackCopyOfMatch(text, p, t.distance, t.length);
    }
    assert text[..copied] + [text[copied]] == text[..next];
  }

  /** Cursor synchronisation: decoding the token of one encoder step at
      cursor p produces exactly the input bytes up to the next coding
      position (lz.c:33-46 against lz.c:62-72). */
  lemma StepReproduces(text: seq<uint8>, p: nat)
    requires p < |text|
    ensures ApplyToken(text[..p], EncodeStep(text, p).token) == Success(text[..EncodeStep(text, p).next])
  {
    var s := EncodeStep(text, p);
    TokenReproduces(text, p, s.token, s.next);
  }

  /** The stream from coding position p starts with that step's token. */
  lemma StreamStartsWithStep(text: seq<uint8>, p: nat, rest: seq<uint8>)
    requires p < |text|
    ensures var s := EncodeStep(text, p);
      SerializeAll(EncodeFrom(text, p)) + rest == Serialize(s.token) + (SerializeAll(EncodeFrom(text, s.next)) + rest)
  {
    SerializeEncodeFrom(text, p);
  }

  /** One encoder token consumed by the decoder: the stream and the output
      both advance to the next coding position. */
  lemma DecodeOneStep(text: seq<uint8>, p: nat, rest: seq<uint8>)
    requires p < |text|
    ensures var next := EncodeStep(text, p).next;
      DecodeTokens(SerializeAll(EncodeFrom(text, p)) + rest, |text|, text[..p])
      == DecodeTokens(SerializeAll(EncodeFrom(text, next)) + rest, |text|, text[..next])
  {
    var s := EncodeStep(text, p);
    var tail := SerializeAll(EncodeFrom(text, s.next)) + rest;
    StreamStartsWithStep(text, p, rest);
    DecodeTokensCons(s.token, tail, |text|, text[..p]);
    StepReproduces(text, p);
  }

  /** Decoding the tokens the encoder emits from coding position p, with
      the first p input bytes already produced, finishes the input and
      ignores whatever follows the tokens. */
  lemma {:induction false} DecodeEncodeFrom(text: seq<uint8>, p: nat, rest: seq<uint8>)
    requires p <= |text|
    ensures DecodeTokens(SerializeAll(EncodeFrom(text, p)) + rest, |text|, text[..p]) == Success(text)
    decreases |text| - p
  {
    if p < |text| {
      DecodeOneStep(text, p, rest);
      DecodeEncodeFrom(text, EncodeStep(text, p).next, rest);
    } else {
      assert text[..p] == text;
    }
  }

  /** The central law: decompress(compress(x)) == x, so the decoder's final
      cursor equals the header length (the check at lz.c:134 passes). */
  lemma RoundTrip(text: seq<uint8>)
    requires |text| < 0x1_0000_0000
    ensures Decompress(Compress(text)) == Success(text)
  {
    var data := Compress(text);
    var ts := EncodeFrom(text, 0);
    assert data[4..] == SerializeAll(ts) + [];
    DecodeEncodeFrom(text, 0, []);
    assert text[..0] == [];
  }
}
