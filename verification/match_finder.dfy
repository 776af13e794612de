/** The longest-match search of lz77_compress (lz.c:16-32).

    For coding position `p` it tries every distance `d = 1, 2, ...` while
    `d < 4096` and `d <= p`, grows each candidate byte by byte up to 15
    bytes, and keeps the first candidate of strictly greatest length. The
    growth loop here stops at the end of the input; lz.c:22 does not (see
    the UnboundedGrowth module). */
module MatchFinder {
  import opened Bytes
  import opened Tokens

  /** The search result: distance 0 and length 0 when nothing matches. */
  datatype Match = Match(distance: nat, length: nat)

  const NoMatch := Match(0, 0)

  /** Largest distance tried at coding position p: min(4095, p) (lz.c:18). */
  function Window(p: nat): (w: nat)
    ensures w <= MaxDistance && w <= p
    ensures w == MaxDistance || w == p
  {
    if p < MaxDistance then p else MaxDistance
  }

  /** The `len` bytes at p equal the `len` bytes starting d bytes earlier,
      all within the input. The two ranges may overlap when d < len. */
  predicate Matches(text: seq<uint8>, p: nat, d: nat, len: nat)
    requires d <= p
  {
    p + len <= |text| && forall i :: p <= i < p + len ==> text[i - d] == text[i]
  }

  /** The inner growth loop (lz.c:22-24), bounded by the end of input:
      extends a match of `len` bytes while the next byte agrees, the cap of
      15 is not reached and the next byte exists. */
  function Grow(text: seq<uint8>, p: nat, d: nat, len: nat): (r: nat)
    requires 0 < d <= p < |text| && len <= MaxLength
    requires Matches(text, p, d, len)
    ensures len <= r <= MaxLength
    ensures Matches(text, p, d, r)
    ensures forall l :: r < l <= MaxLength ==> !Matches(text, p, d, l)
    decreases MaxLength - len
  {
    if len < MaxLength && p + len < |text| && text[p - d + len] == text[p + len] then
      Grow(text, p, d, len + 1)
    else
      len
  }

  /** Length of the longest match (at most 15 bytes) at distance d. */
  function MatchLength(text: seq<uint8>, p: nat, d: nat): (r: nat)
    requires 0 < d <= p < |text|
    ensures r <= MaxLength && Matches(text, p, d, r)
    ensures forall l :: r < l <= MaxLength ==> !Matches(text, p, d, l)
  {
    Grow(text, p, d, 0)
  }

  /** m is the result the search should report after trying distances
      1..hi: no tried distance admits a longer match, and m is either
      NoMatch or a genuine match at the smallest distance reaching its
      length. */
  predicate BestAmong(text: seq<uint8>, p: nat, hi: nat, m: Match)
    requires hi <= p
  {
    && (forall d, l :: 1 <= d <= hi && m.length < l <= MaxLength ==> !Matches(text, p, d, l))
    && (m == NoMatch
        || (&& 1 <= m.distance <= hi
            && 1 <= m.length <= MaxLength
            && Matches(text, p, m.distance, m.length)
            && forall d :: 1 <= d < m.distance ==> !Matches(text, p, d, m.length)))
  }

  /** Trying distance d keeps the incumbent when the candidate is not
      strictly longer (lz.c:25). */
  lemma KeepIncumbent(text: seq<uint8>, p: nat, d: nat, best: Match)
    requires p < |text| && 1 <= d <= Window(p)
    requires BestAmong(text, p, d - 1, best)
    requires MatchLength(text, p, d) <= best.length
    ensures BestAmong(text, p, d, best)
  {
    var len := MatchLength(text, p, d);
    forall d', l | 1 <= d' <= d && best.length < l <= MaxLength
      ensures !Matches(text, p, d', l)
    {
      if d' == d {
        assert len < l;
      }
    }
  }

  /** A strictly longer candidate at distance d replaces the incumbent
      (lz.c:25-28). */
  lemma ReplaceIncumbent(text: seq<uint8>, p: nat, d: nat, best: Match)
    requires p < |text| && 1 <= d <= Window(p)
    requires BestAmong(text, p, d - 1, best)
    requires MatchLength(text, p, d) > best.length
    ensures BestAmong(text, p, d, Match(d, MatchLength(text, p, d)))
  {
    var len := MatchLength(text, p, d);
    forall d', l | 1 <= d' <= d && len < l <= MaxLength
      ensures !Matches(text, p, d', l)
    {
      if d' < d {
        assert best.length < l;
      }
    }
    forall d' | 1 <= d' < d
      ensures !Matches(text, p, d', len)
    {
      assert best.length < len;
    }
  }

  /** Trying distance d keeps the incumbent unless the candidate is
      strictly longer (lz.c:25-28). */
  lemma TryCandidate(text: seq<uint8>, p: nat, d: nat, best: Match)
    requires p < |text| && 1 <= d <= Window(p)
    requires BestAmong(text, p, d - 1, best)
    ensures var len := MatchLength(text, p, d);
      if len > best.length then BestAmong(text, p, d, Match(d, len)) else BestAmong(text, p, d, best)
  {
    if MatchLength(text, p, d) > best.length {
      ReplaceIncumbent(text, p, d, best);
    } else {
      KeepIncumbent(text, p, d, best);
    }
  }

  /** A 15-byte match cannot be beaten by any farther distance, so the
      search may stop there (lz.c:29-30). */
  lemma FullLengthEndsSearch(text: seq<uint8>, p: nat, d: nat, hi: nat)
    requires d <= hi <= p
    requires BestAmong(text, p, d, Match(d, MaxLength))
    ensures BestAmong(text, p, hi, Match(d, MaxLength))
  {
  }

  /** The outer candidate loop (lz.c:18-32) from distance d onwards, with
      `best` the incumbent after distances 1..d-1. Only a strictly longer
      candidate replaces the incumbent, and a 15-byte match ends the search. */
  function Search(text: seq<uint8>, p: nat, d: nat, best: Match): (m: Match)
    requires p < |text|
    requires 1 <= d <= Window(p) + 1
    requires best.length < MaxLength
    requires BestAmong(text, p, d - 1, best)
    ensures BestAmong(text, p, Window(p), m)
    decreases Window(p) + 1 - d
  {
    if d > Window(p) then
      best
    else
      var len := MatchLength(text, p, d);
      TryCandidate(text, p, d, best);
      if len > best.length then
        if len == MaxLength then
          FullLengthEndsSearch(text, p, d, Window(p));
          Match(d, len)
        else
          Search(text, p, d + 1, Match(d, len))
      else
        Search(text, p, d + 1, best)
  }

  /** The match the encoder uses at coding position p. */
  function FindMatch(text: seq<uint8>, p: nat): (m: Match)
    requires p < |text|
    ensures m == NoMatch || (1 <= m.distance <= Window(p) && 1 <= m.length <= MaxLength)
    ensures Matches(text, p, m.distance, m.length)
    ensures forall d, l :: 1 <= d <= Window(p) && m.length < l <= MaxLength ==> !Matches(text, p, d, l)
    ensures m.length > 0 ==> forall d :: 1 <= d < m.distance ==> !Matches(text, p, d, m.length)
  {
    Search(text, p, 1, NoMatch)
  }

  /** At most one result meets the search specification, so FindMatch is
      the only correct answer, tie-break included. */
  lemma BestAmongUnique(text: seq<uint8>, p: nat, hi: nat, m1: Match, m2: Match)
    requires hi <= p
    requires BestAmong(text, p, hi, m1) && BestAmong(text, p, hi, m2)
    ensures m1 == m2
  {
  }

  /** FindMatch returns exactly the specified match. */
  lemma FindMatchIsBest(text: seq<uint8>, p: nat, m: Match)
    requires p < |text|
    ensures BestAmong(text, p, Window(p), m) <==> m == FindMatch(text, p)
  {
    if BestAmong(text, p, Window(p), m) {
      BestAmongUnique(text, p, Window(p), m, FindMatch(text, p));
    }
  }

  /** The search loops of lz.c:16-32 written as loops: the outer loop over
      candidate distances, the inner growth loop bounded by the end of the
      input. The result meets the same specification as FindMatch. */
  method FindLongestMatch(text: seq<uint8>, p: nat) returns (distance: nat, length: nat)
    requires p < |text|
    ensures BestAmong(text, p, Window(p), Match(distance, length))
  {
    distance, length := 0, 0;
    var d := 1;
    while d <= MaxDistance && d <= p
      invariant 1 <= d <= Window(p) + 1
      invariant length < MaxLength
      invariant BestAmong(text, p, d - 1, Match(distance, length))
      decreases Window(p) + 1 - d
    {
      var len := 0;
      while len < MaxLength && p + len < |text| && text[p - d + len] == text[p + len]
        invariant len <= MaxLength && Matches(text, p, d, len)
        decreases MaxLength - len
      {
        len := len + 1;
      }
      assert len == MatchLength(text, p, d);
      TryCandidate(text, p, d, Match(distance, length));
      if len > length {
        distance, length := d, len;
        if length == MaxLength {
          FullLengthEndsSearch(text, p, d, Window(p));
          return;
        }
      }
      d := d + 1;
    }
  }
}
