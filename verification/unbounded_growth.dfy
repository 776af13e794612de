/** The growth loop of lz.c:22 as written: it compares bytes of memory
    with no end-of-input bound, so a match can run past the input when the
    bytes stored after it happen to agree. `mem` is the memory from the
    start of the input on; the input is its first `size` bytes. */
module UnboundedGrowth {
  import opened Bytes
  import opened Tokens
  import MatchFinder
  import Decompressor
  import Compressor

  /** The `len` bytes of memory from p equal the `len` bytes d earlier,
      whether or not they lie inside the input. */
  predicate AgreesInMemory(mem: seq<uint8>, p: nat, d: nat, len: nat)
    requires d <= p && p + len <= |mem|
  {
    len == 0 || (mem[p + len - 1 - d] == mem[p + len - 1] && AgreesInMemory(mem, p, d, len - 1))
  }

  /** lz.c:22-24: compare, then stop at 15; no comparison with `size`.
      Every comparison made reads at most index p + 15 of `mem`. */
  function GrowAsWritten(mem: seq<uint8>, p: nat, d: nat, len: nat): (r: nat)
    requires 0 < d <= p && len <= MaxLength && p + MaxLength < |mem|
    requires AgreesInMemory(mem, p, d, len)
    ensures len <= r <= MaxLength
    ensures AgreesInMemory(mem, p, d, r)
    decreases MaxLength - len
  {
    if mem[p - d + len] != mem[p + len] then len
    else if len == MaxLength then len
    else GrowAsWritten(mem, p, d, len + 1)
  }

  /** The input [7, 7] followed in memory by more 7s: at coding position 1
      the as-written match takes 15 bytes, 14 of them past the input,
      while the bounded match takes the one byte that exists. */
  lemma {:induction false} GrowthRunsPastInput()
    ensures var mem := seq(17, i => 7);
      GrowAsWritten(mem, 1, 1, 0) == 15
      && MatchFinder.MatchLength(mem[..2], 1, 1) == 1
  {
    var mem: seq<uint8> := seq(17, i => 7);
    GrowAllEqual(mem, 0);
    var text := mem[..2];
    assert MatchFinder.Matches(text, 1, 1, 1);
  }

  lemma {:induction false} GrowAllEqual(mem: seq<uint8>, len: nat)
    requires |mem| == 17 && len <= MaxLength
    requires forall i :: 0 <= i < |mem| ==> mem[i] == 7
    requires AgreesInMemory(mem, 1, 1, len)
    ensures GrowAsWritten(mem, 1, 1, len) == MaxLength
    decreases MaxLength - len
  {
    if len < MaxLength {
      GrowAllEqual(mem, len + 1);
    }
  }

  /** The candidate loop of lz.c:18-32 over the as-written growth: the
      first strictly longest candidate wins and 15 bytes end the search.
      `best` is the incumbent after distances 1..d-1. */
  function SearchAsWritten(mem: seq<uint8>, p: nat, d: nat, best: MatchFinder.Match): (m: MatchFinder.Match)
    requires p + MaxLength < |mem|
    requires 1 <= d <= MatchFinder.Window(p) + 1
    requires best.distance < d && best.length <= MaxLength
    requires best.distance == 0 <==> best.length == 0
    requires best.distance <= p && AgreesInMemory(mem, p, best.distance, best.length)
    ensures best.length <= m.length <= MaxLength && m.distance <= MatchFinder.Window(p)
    ensures m.distance == 0 <==> m.length == 0
    ensures m.distance <= p && AgreesInMemory(mem, p, m.distance, m.length)
    decreases MatchFinder.Window(p) + 1 - d
  {
    if d > MatchFinder.Window(p) then
      best
    else
      var len := GrowAsWritten(mem, p, d, 0);
      if len > best.length then
        if len == MaxLength then MatchFinder.Match(d, len)
        else SearchAsWritten(mem, p, d + 1, MatchFinder.Match(d, len))
      else
        SearchAsWritten(mem, p, d + 1, best)
  }

  /** The token and next coding position lz.c:33-46 derive from the
      search result m: `coding_pos += length`, the boundary test against
      `size`, then the loop increment. */
  function StepFromMatch(mem: seq<uint8>, size: nat, p: nat, m: MatchFinder.Match): (s: Compressor.Step)
    requires p < size && size + MaxLength <= |mem|
    requires m.distance <= MaxDistance && m.length <= MaxLength
    ensures Valid(s.token) && s.token.distance == m.distance
    ensures s.next == p + m.length + 1
    ensures s.next != size + 1 ==> s.token == Token(m.distance, m.length, mem[s.next - 1])
    ensures s.next == size + 1 ==> m.length > 0 && s.token == Token(m.distance, m.length - 1, mem[size - 1])
  {
    var q := p + m.length;
    if m.length > 0 && q == size then
      Compressor.Step(Token(m.distance, m.length - 1, mem[size - 1]), size + 1)
    else
      Compressor.Step(Token(m.distance, m.length, mem[q]), q + 1)
  }

  /** One coding step of lz.c:16-46 as written, on an input of `size`
      bytes at the start of `mem`. The next coding position is one past the
      match in both modes (lz.c:33 and the loop increment), and in normal
      mode the literal is read at that match end, which need not lie
      inside the input. */
  function EncodeStepAsWritten(mem: seq<uint8>, size: nat, p: nat): (s: Compressor.Step)
    requires p < size && size + MaxLength <= |mem|
    ensures Valid(s.token)
    ensures p < s.next <= p + MaxLength + 1
    ensures var m := SearchAsWritten(mem, p, 1, MatchFinder.NoMatch);
      s.next == p + m.length + 1 && s.token.distance == m.distance
    ensures s.next != size + 1 ==> s.token.literal == mem[s.next - 1]
    ensures s.next == size + 1 ==> s.token.literal == mem[size - 1]
  {
    var m := SearchAsWritten(mem, p, 1, MatchFinder.NoMatch);
    StepFromMatch(mem, size, p, m)
  }

  /** The as-written compression loop from coding position p: it stops
      once the coding position reaches or passes `size`. */
  function EncodeFromAsWritten(mem: seq<uint8>, size: nat, p: nat): (ts: seq<Token>)
    requires size + MaxLength <= |mem|
    ensures forall i :: 0 <= i < |ts| ==> Valid(ts[i])
    ensures p < size ==> 1 <= |ts| <= size - p
    ensures size <= p ==> ts == []
    decreases size - p
  {
    if size <= p then
      []
    else
      var s := EncodeStepAsWritten(mem, size, p);
      var rest := EncodeFromAsWritten(mem, size, s.next);
      assert |rest| <= size - p - 1;
      [s.token] + rest
  }

  /** The as-written artifact: header, then the as-written tokens. */
  function CompressAsWritten(mem: seq<uint8>, size: nat): (out: seq<uint8>)
    requires size < 0x1_0000_0000 && size + MaxLength <= |mem|
    ensures |out| == 4 + TokenSize * |EncodeFromAsWritten(mem, size, 0)|
    ensures out[..4] == Word32ToBytes(size)
  {
    var out := Word32ToBytes(size) + SerializeAll(EncodeFromAsWritten(mem, size, 0));
    assert out[..4] == Word32ToBytes(size);
    out
  }

  /** For the input [7, 7] followed in memory by more 7s, the as-written
      encoder emits a literal token, then a 15-byte back-reference whose
      literal lies beyond the input (coding position 16 != 2). */
  lemma OverrunTokens()
    ensures EncodeFromAsWritten(seq(17, i => 7), 2, 0) == [Token(0, 0, 7), Token(1, 15, 7)]
  {
    var mem: seq<uint8> := seq(17, i => 7);
    assert MatchFinder.Window(0) == 0 && MatchFinder.Window(1) == 1;
    assert EncodeStepAsWritten(mem, 2, 0) == Compressor.Step(Token(0, 0, 7), 1);
    GrowAllEqual(mem, 0);
    assert SearchAsWritten(mem, 1, 1, MatchFinder.NoMatch) == MatchFinder.Match(1, 15);
    assert EncodeStepAsWritten(mem, 2, 1) == Compressor.Step(Token(1, 15, 7), 17);
    assert EncodeFromAsWritten(mem, 2, 17) == [];
  }

  /** The as-written artifact for that input declares 2 bytes, but its
      second token produces 16, so decoding fails: the round trip does
      not hold for the code as written. */
  lemma OverrunStreamFails()
    ensures Decompressor.Decompress(CompressAsWritten(seq(17, i => 7), 2)) == Decompressor.Failure(Decompressor.LengthMismatch)
  {
    var mem: seq<uint8> := seq(17, i => 7);
    OverrunTokens();
    SerializeAllCons(Token(0, 0, 7), [Token(1, 15, 7)]);
    SerializeAllCons(Token(1, 15, 7), []);
    var data := CompressAsWritten(mem, 2);
    assert data == Word32ToBytes(2) + Serialize(Token(0, 0, 7)) + Serialize(Token(1, 15, 7));
    var stream := data[4..];
    assert data[..4] == Word32ToBytes(2);
    Word32RoundTrip(2);
    assert stream[..TokenSize] == Serialize(Token(0, 0, 7));
    ParseSerialize(Token(0, 0, 7));
    var rest := stream[TokenSize..];
    assert rest == Serialize(Token(1, 15, 7));
    ParseSerialize(Token(1, 15, 7));
    assert rest[..TokenSize] == rest;
    Decompressor.DecodeTokensUnfold(stream, 2, []);
    Decompressor.DecodeTokensUnfold(rest, 2, [7]);
  }
}
