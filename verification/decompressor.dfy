/** lz77_decompress (lz.c:53-75): reads the length header, then decodes
    tokens until the output reaches that length. Where the C code reads or
    writes out of bounds on a malformed stream, the model fails instead. */
module Decompressor {
  import opened Bytes
  import opened Tokens

  /** Ways a compressed stream can be malformed. */
  datatype Error =
    | TruncatedHeader      // fewer than 4 bytes: no length header
    | TruncatedToken       // the stream ends inside or before a needed token
    | DistanceBeforeStart  // a non-empty back-reference reaches before the first output byte
    | LengthMismatch       // the last token overruns the header's length

  datatype Result<T> = Success(value: T) | Failure(error: Error)

  /** The sequential back-copy of lz.c:69-70: n bytes, each taken from d
      bytes before the write cursor after the previous byte is written, so
      a distance shorter than the length repeats the copied bytes. */
  function BackCopy(out: seq<uint8>, d: nat, n: nat): (r: seq<uint8>)
    requires 0 < d <= |out|
    ensures |r| == |out| + n
    ensures r[..|out|] == out
    ensures forall i :: |out| <= i < |r| ==> r[i] == r[i - d]
    decreases n
  {
    if n == 0 then out else BackCopy(out + [out[|out| - d]], d, n - 1)
  }

  /** The copied bytes repeat the last d bytes of the output with period d. */
  lemma {:induction false} BackCopyRepeats(out: seq<uint8>, d: nat, n: nat, i: nat)
    requires 0 < d <= |out| && i < n
    ensures BackCopy(out, d, n)[|out| + i] == out[|out| - d + i % d]
    decreases i
  {
    var r := BackCopy(out, d, n);
    assert r[|out| + i] == r[|out| + i - d];
    if i >= d {
      BackCopyRepeats(out, d, n, i - d);
      ModShift(i - d, d);
    } else {
      ModSmall(i, d);
    }
  }

  // Arithmetic helpers for BackCopyRepeats.

  lemma {:induction false} MulAtLeast(a: int, d: int)
    requires a >= 1 && d > 0
    ensures a * d >= d
    decreases a
  {
    if a > 1 {
      MulAtLeast(a - 1, d);
      assert a * d == (a - 1) * d + d;
    }
  }

  lemma ModUnique(x: int, d: int, q: int, r: int)
    requires 0 < d && 0 <= r < d && x == q * d + r
    ensures x % d == r
  {
    var Q, R := x / d, x % d;
    assert x == Q * d + R;
    assert Q * d - q * d == r - R;
    assert (Q - q) * d == Q * d - q * d;
    if Q - q > 0 {
      MulAtLeast(Q - q, d);
    } else if Q - q < 0 {
      MulAtLeast(q - Q, d);
    }
  }

  lemma ModShift(i: nat, d: nat)
    requires 0 < d
    ensures (i + d) % d == i % d
  {
    assert i == (i / d) * d + i % d;
    assert i + d == (i / d + 1) * d + i % d;
    ModUnique(i + d, d, i / d + 1, i % d);
  }

  lemma ModSmall(i: nat, d: nat)
    requires i < d
    ensures i % d == i
  {
  }

  /** Applies one token at the write cursor |out| (lz.c:66-71). A token
      with a non-zero distance but length 0 copies nothing (the copy loop
      of lz.c:69 runs zero times), so only a copy of at least one byte
      from before the start of the output is rejected. */
  function ApplyToken(out: seq<uint8>, t: Token): (r: Result<seq<uint8>>)
    ensures r.Failure? <==> 0 < t.distance && 0 < t.length && |out| < t.distance
    ensures r.Failure? ==> r.error == DistanceBeforeStart
    ensures r.Success? ==>
      && |r.value| == |out| + Produced(t)
      && r.value[..|out|] == out
      && r.value[|r.value| - 1] == t.literal
      && forall i :: |out| <= i < |r.value| - 1 ==> r.value[i] == r.value[i - t.distance]
  {
    if t.distance == 0 || t.length == 0 then
      Success(out + [t.literal])
    else if |out| < t.distance then
      Failure(DistanceBeforeStart)
    else
      Success(BackCopy(out, t.distance, t.length) + [t.literal])
  }

  /** With distance 0 the length field is ignored and only the literal is
      appended (lz.c:68). */
  lemma NoDistanceIgnoresLength(out: seq<uint8>, length: nat, literal: uint8)
    ensures ApplyToken(out, Token(0, length, literal)) == Success(out + [literal])
  {
  }

  /** A back-reference of length 0 copies nothing, whatever its distance,
      so it succeeds even at a cursor smaller than the distance (lz.c:69). */
  lemma EmptyCopyAppendsLiteral(out: seq<uint8>, distance: nat, literal: uint8)
    ensures ApplyToken(out, Token(distance, 0, literal)) == Success(out + [literal])
  {
  }

  /** The token loop (lz.c:62-72) over the bytes after the header: decodes
      while the cursor is below n and ignores anything after that. */
  function DecodeTokens(stream: seq<uint8>, n: nat, out: seq<uint8>): (r: Result<seq<uint8>>)
    ensures r.Success? ==> n <= |r.value| && |out| <= |r.value| && r.value[..|out|] == out
    ensures r.Success? && |out| < n ==> |r.value| <= n + MaxLength
    ensures n <= |out| ==> r == Success(out)
    ensures r.Failure? ==> r.error != TruncatedHeader && r.error != LengthMismatch
    decreases |stream|
  {
    if n <= |out| then
      Success(out)
    else if |stream| < TokenSize then
      Failure(TruncatedToken)
    else
      var step := ApplyToken(out, Parse(stream[..TokenSize]));
      if step.Failure? then Failure(step.error) else DecodeTokens(stream[TokenSize..], n, step.value)
  }

  /** The whole decoder. The final comparison with the header is the check
      the file wrapper makes on the returned cursor (lz.c:134). */
  function Decompress(data: seq<uint8>): (r: Result<seq<uint8>>)
    ensures |data| < 4 <==> r == Failure(TruncatedHeader)
    ensures r.Success? ==> |r.value| == BytesToWord32(data[..4])
  {
    if |data| < 4 then
      Failure(TruncatedHeader)
    else
      var n := BytesToWord32(data[..4]);
      match DecodeTokens(data[4..], n, [])
      case Failure(e) => Failure(e)
      case Success(out) => if |out| == n then Success(out) else Failure(LengthMismatch)
  }

  /** One step of the token loop: the token at the front of the stream,
      then the rest. */
  lemma DecodeTokensUnfold(stream: seq<uint8>, n: nat, out: seq<uint8>)
    requires |out| < n && TokenSize <= |stream|
    ensures var step := ApplyToken(out, Parse(stream[..TokenSize]));
      DecodeTokens(stream, n, out)
      == if step.Failure? then Failure(step.error) else DecodeTokens(stream[TokenSize..], n, step.value)
  {
  }

  /** Decoding a stream that starts with a serialized token applies that
      token, then decodes the rest. */
  lemma DecodeTokensCons(t: Token, tail: seq<uint8>, n: nat, out: seq<uint8>)
    requires Valid(t) && |out| < n
    ensures var step := ApplyToken(out, t);
      DecodeTokens(Serialize(t) + tail, n, out)
      == if step.Failure? then Failure(step.error) else DecodeTokens(tail, n, step.value)
  {
    var stream := Serialize(t) + tail;
    assert stream[..TokenSize] == Serialize(t);
    assert stream[TokenSize..] == tail;
    ParseSerialize(t);
    DecodeTokensUnfold(stream, n, out);
  }

  /** The body of the token loop (lz.c:68-71) on a growing output: the
      byte-by-byte back-copy, then the literal. */
  method ApplyTokenLoop(out: seq<uint8>, t: Token) returns (r: Result<seq<uint8>>)
    ensures r == ApplyToken(out, t)
  {
    var buf := out;
    if t.distance > 0 && t.length > 0 {
      if |buf| < t.distance {
        return Failure(DistanceBeforeStart);
      }
      var offset := |buf| - t.distance;
      var k := t.length;
      while k > 0
        invariant 0 <= offset == |buf| - t.distance
        invariant BackCopy(buf, t.distance, k) == BackCopy(out, t.distance, t.length)
        decreases k
      {
        buf := buf + [buf[offset]];
        offset := offset + 1;
        k := k - 1;
      }
    }
    return Success(buf + [t.literal]);
  }

  /** lz77_decompress (lz.c:53-75) as a loop over the token stream; it
      agrees with Decompress on every input, well-formed or not. */
  method DecompressBuffer(data: seq<uint8>) returns (r: Result<seq<uint8>>)
    ensures r == Decompress(data)
  {
    if |data| < 4 {
      return Failure(TruncatedHeader);
    }
    var n := BytesToWord32(data[..4]);
    var pos := 4;
    var out: seq<uint8> := [];
    while |out| < n
      invariant 4 <= pos <= |data|
      invariant DecodeTokens(data[4..], n, []) == DecodeTokens(data[pos..], n, out)
      decreases |data| - pos
    {
      if |data| - pos < TokenSize {
        return Failure(TruncatedToken);
      }
      var token := data[pos..pos + TokenSize];
      assert token == data[pos..][..TokenSize];
      assert data[pos + TokenSize..] == data[pos..][TokenSize..];
      DecodeTokensUnfold(data[pos..], n, out);
      var step := ApplyTokenLoop(out, Parse(token));
      if step.Failure? {
        return Failure(step.error);
      }
      out := step.value;
      pos := pos + TokenSize;
    }
    if |out| != n {
      return Failure(LengthMismatch);
    }
    return Success(out);
  }
}
