# LZ77 token codec — a Dafny model

This project models the token codec of a small LZ77 compressor: `lz77_compress`
and `lz77_decompress` in `lz.c`. The compressor writes the input length as a
4-byte header. At each coding position it searches back up to 4095 bytes for
the longest match of at most 15 bytes. It then emits a 3-byte token: a 16-bit
word `distance << 4 | length`, then one literal byte. When the match reaches
exactly to the end of the input ("boundary mode"), the match is shortened by
one byte and its last byte becomes the literal. The decompressor reads the
header, then decodes tokens until the output reaches that length. For each
token it copies bytes back one at a time, so overlapping references work, and
then appends the literal.

Bytes are `uint8` (naturals below 256). The header and the token word are laid
out as explicit little-endian bytes. Every operation is a pure function over
sequences. The C loops are also written as Dafny methods with loop invariants
(`FindLongestMatch`, `CompressBuffer`, `ApplyTokenLoop`, `DecompressBuffer`),
and each is proved equal to its functional counterpart.

The central theorem is `RoundTrip.RoundTrip`: `Decompress(Compress(x)) ==
Success(x)` for every input of fewer than 2^32 bytes. So the decoder's final
cursor equals the header length, which is what the file wrapper checks.

Modules, one per component:

- `Bytes` (bytes.dfy): fixed-width integers and the little-endian layout.
- `Tokens` (tokens.dfy): the token, its word packing and its 3-byte wire form.
- `MatchFinder` (match_finder.dfy): the longest-match search.
- `Compressor` (compressor.dfy): the coding steps, the boundary rule and the artifact.
- `Decompressor` (decompressor.dfy): the back-copy, the token loop and the error results.
- `RoundTrip` (round_trip.dfy): cursor synchronisation and the round trip.
- `UnboundedGrowth` (unbounded_growth.dfy): the growth loop as written, for the finding below.
- `Scenarios` (scenarios.dfy): concrete coding steps (boundary mode, an overlapping run) and decoder cases (a rejected stream, a zero-length reference).

Two facts about `lz.c` that the model reproduces:

- A boundary-mode token whose match had length 1 is `(distance > 0, length 0)`
  (lz.c:36). So the encoder can emit a token whose distance is non-zero while
  its length is 0.
- `lz77_decompress` has no overrun check of its own. It returns its cursor, and
  the file wrapper compares that cursor with the header (lz.c:134). `Decompress`
  makes that comparison and reports `LengthMismatch`.

## Model

| member | source | states |
|---|---|---|
| Bytes.Word16ToBytes | lz.c:44 | The two stored bytes, low byte first, have the value of the word. |
| Bytes.BytesToWord16 | lz.c:64 | The word read from two bytes has them as its low and high byte. |
| Bytes.Word32ToBytes | lz.c:11 | The four header bytes are the low 16-bit half, then the high half, of the stored length. |
| Bytes.BytesToWord32 | lz.c:59 | The length read from four bytes has the first two as its low half and the last two as its high half. |
| Bytes.Word32RoundTrip | lz.c:11 | The 4-byte little-endian header read back gives the stored length. |
| Bytes.Word32BytesRoundTrip | lz.c:59 | Any 4 header bytes are exactly the layout of the value read from them. |
| Bytes.Word16RoundTrip | lz.c:44 | The two stored bytes of a token word read back as the same word. |
| Bytes.Word16BytesRoundTrip | lz.c:64 | Any two word bytes are exactly the layout of the word read from them. |
| Tokens.Produced | lz.c:68-71 | A token yields between 1 and length + 1 output bytes, and exactly 1 (the literal) when its distance is 0. |
| Tokens.Pack | lz.c:41 | For distance ≤ 4095 and length ≤ 15 the word fits in 16 bits, and unpacking it gives back the same distance and length. |
| Tokens.ShiftOrIsMulAdd | lz.c:36-41 | On 16-bit words, d shifted left by 4 and or-ed with l equals 16 * d + l, and `>> 4` and `& 15` recover d and l. |
| Tokens.PackIsShiftOr | lz.c:36-41 | The 16-bit word built with `d << 4 \| l`, read as an integer, equals Pack(d, l). |
| Tokens.UnpackDistance | lz.c:66 | `word >> 4` gives a distance of at most 4095. |
| Tokens.UnpackLength | lz.c:67 | `word & 15` gives a length of at most 15. |
| Tokens.UnpackPack | lz.c:66-67 | Every 16-bit word is the packing of its own unpacked distance and length. |
| Tokens.Serialize | lz.c:44-46 | A valid token is written as 3 bytes: the packed word, then the literal as the third byte. |
| Tokens.Parse | lz.c:64-67 | Any 3 bytes read as a valid token whose literal is the third byte. |
| Tokens.SerializeAll | lz.c:44-47 | A token sequence is written as 3 bytes per token. |
| Tokens.ParseSerialize | lz.c:44-46 | Parsing the three bytes of a valid token gives back that token. |
| Tokens.SerializeParse | lz.c:64-71 | Any three bytes are the serialization of the token parsed from them. |
| MatchFinder.Window | lz.c:18 | The largest distance tried at coding position p is 4095 or p, whichever is smaller. |
| MatchFinder.Grow | lz.c:22-24 | Growth returns a match of at most 15 bytes that stays inside the input. No longer match at that distance exists. |
| MatchFinder.MatchLength | lz.c:20-24 | Gives the length of the longest legal match at a distance: it matches, and every longer length up to 15 does not. |
| MatchFinder.TryCandidate | lz.c:25-28 | After trying distance d, the incumbent is still the best over 1..d when the candidate is not strictly longer. Otherwise the candidate is. |
| MatchFinder.FullLengthEndsSearch | lz.c:29-30 | A 15-byte match at distance d stays the best over the whole window, so stopping the search there loses nothing. |
| MatchFinder.Search | lz.c:18-32 | Given an incumbent that is best over distances 1..d-1 and below 15 bytes, the rest of the loop returns the best match over the whole window. |
| MatchFinder.FindMatch | lz.c:16-32 | The result is (0, 0) or a real match with distance in [1, min(4095, p)] and length in [1, 15]. No window distance gives a longer match. No smaller distance reaches the same length. |
| MatchFinder.BestAmongUnique | lz.c:25-30 | At most one result meets the search specification, so the tie-break fixes the answer. |
| MatchFinder.FindMatchIsBest | lz.c:16-32 | A match meets the search specification if and only if it is the result of FindMatch. |
| MatchFinder.FindLongestMatch | lz.c:16-32 | The two nested search loops, with early exit at 15 bytes, return the specified longest, nearest match. |
| Compressor.EncodeStep | lz.c:33-46 | One coding step emits a valid token and advances by exactly the bytes the token produces. Its literal is the last byte covered, its back-reference is a genuine match, and it never passes the end of input. |
| Compressor.LiteralSelection | lz.c:34-43 | Boundary mode emits (d, len-1, last input byte) and ends the input. Otherwise the step emits (d, len, text[p+len]) with p+len inside the input. |
| Compressor.Boundary | lz.c:34 | The boundary-mode test: a non-empty match that ends exactly at the end of the input. BoundaryShortensMatch states what it means for the emitted token. |
| Compressor.BoundaryShortensMatch | lz.c:34-43 | The boundary-mode condition `Boundary` holds exactly when the emitted token copies fewer bytes than the match found. Otherwise the whole match is copied. |
| Compressor.EncodeFrom | lz.c:14-48 | The tokens from position p are all valid. Together they produce exactly the remaining N - p bytes, and there are between (N-p)/16 and N-p of them. |
| Compressor.Compress | lz.c:11-50 | The header reads back as the input length. The output is 4 + 3 × (number of tokens) bytes, at most 4 + 3N and at least 4 + 3N/16, so empty input yields only the header. |
| Compressor.CodingStep | lz.c:16-46 | One pass of the outer loop (search loops, then mode choice) computes exactly the specified coding step. |
| Compressor.CompressBuffer | lz.c:5-51 | The compression loop over coding positions builds exactly the artifact Compress describes. |
| Decompressor.BackCopy | lz.c:69-70 | Copying n bytes from d back keeps the existing output and adds n bytes. Each new byte equals the byte d positions before it, which allows overlap. |
| Decompressor.BackCopyRepeats | lz.c:69-70 | An overlapping copy repeats the last d output bytes periodically: copied byte i is `out[len - d + i mod d]`. |
| Decompressor.ApplyToken | lz.c:66-71 | A token fails exactly when it copies at least one byte and its non-zero distance exceeds the cursor. A length-0 back-reference copies nothing and always succeeds. Otherwise the earlier output is unchanged, Produced(t) bytes are added (the copy, then the literal) and each copied byte repeats the one d back. |
| Decompressor.NoDistanceIgnoresLength | lz.c:68 | With distance 0 only the literal is appended, whatever the length field says. |
| Decompressor.EmptyCopyAppendsLiteral | lz.c:69-71 | With length 0 only the literal is appended, whatever the distance, even one larger than the cursor: the copy loop runs zero times. |
| Decompressor.DecodeTokens | lz.c:62-72 | A successful token loop extends the output it starts with to at least the target length. It overshoots by at most 15 bytes and stops at once when the target is already reached. |
| Decompressor.Decompress | lz.c:59-74 | A stream shorter than 4 bytes fails with TruncatedHeader, and only such a stream does. A successful result has exactly the header's length. |
| Decompressor.ApplyTokenLoop | lz.c:68-71 | The byte-by-byte copy loop, then the literal store, compute exactly ApplyToken. |
| Decompressor.DecompressBuffer | lz.c:53-75 | The decoder loop over the byte stream agrees with Decompress on every input, malformed ones included. |
| RoundTrip.BackCopyOfMatch | lz.c:69-70 | A back-reference over a genuine match rebuilds exactly the matched input bytes. |
| RoundTrip.TokenReproduces | lz.c:68-71 | A token is decoded at cursor p into input[..next] when its back-reference is a genuine match, its literal is input[next-1] and next = p + Produced(t). |
| RoundTrip.StepReproduces | lz.c:33-46 | Decoding one encoder token at cursor p turns input[..p] into input[..next]. So encoder and decoder cursors stay in step, in both modes. |
| RoundTrip.DecodeOneStep | lz.c:62-72 | Decoding the first encoder token moves the remaining stream and the output together to the next coding position. |
| RoundTrip.DecodeEncodeFrom | lz.c:62-72 | Decoding the tokens emitted from position p, with input[..p] already produced, yields the whole input. Bytes after the tokens are ignored. |
| RoundTrip.RoundTrip | lz.c:5-75 | `Decompress(Compress(x)) == Success(x)`. The decoder's final cursor therefore equals the header length. |
| Scenarios.LiteralStep | lz.c:39-46 | At a position whose byte occurs nowhere in the window, the step emits (0, 0, that byte) and advances by one. |
| Scenarios.BoundaryModeOnABCABC | lz.c:33-37 | "ABCABC" encodes as three literals, then (3, 2, 'C'): the 3-byte match reaching the end is cut to 2 and its last byte becomes the literal. |
| Scenarios.OverlappingRun | lz.c:33-37 | Ten equal bytes encode as one literal, then one boundary-mode token (1, 8, byte), whose distance is shorter than its length. |
| Scenarios.DistanceBeforeStartRejected | lz.c:68-70 | A first token (1, 1, 'A') refers one byte back at cursor 0. The C offset wraps and the copy would read outside the output buffer, so decompression fails with DistanceBeforeStart. |
| Scenarios.EmptyReferenceAccepted | lz.c:68-71 | A header of 1 followed by the token (1, 0, 'A') decodes to "A": the zero-length copy reads nothing and the literal is stored. |
| UnboundedGrowth.GrowAsWritten | lz.c:22-24 | The unbounded growth loop returns at most 15, and every byte it counted matched in memory, even past the input. |
| UnboundedGrowth.GrowthRunsPastInput | lz.c:22 | For input [7, 7] followed by 7s in memory, the as-written match at position 1 has length 15. The bounded match has length 1. |
| UnboundedGrowth.SearchAsWritten | lz.c:18-32 | The candidate loop over the as-written growth returns (0, 0) or a match of at most 15 bytes within the window, and every byte it covers agrees in memory. |
| UnboundedGrowth.StepFromMatch | lz.c:33-46 | From a search result (d, len), the step keeps distance d and sets the next coding position to p + len + 1. In boundary mode the token is (d, len-1, last input byte); otherwise it is (d, len, byte at p + len), even when that byte lies past the input. |
| UnboundedGrowth.EncodeStepAsWritten | lz.c:16-46 | An as-written coding step emits a valid token that carries the as-written search's distance. It moves the coding position to one past that match. Its literal is the byte at the match end, even past the input, except in boundary mode, where it is the last input byte. |
| UnboundedGrowth.EncodeFromAsWritten | lz.c:14-48 | The as-written loop emits valid tokens, at least one and at most one per remaining input byte, and nothing once the coding position reaches the size. |
| UnboundedGrowth.CompressAsWritten | lz.c:11-50 | The as-written artifact is the length header followed by 3 bytes per as-written token. |
| UnboundedGrowth.OverrunTokens | lz.c:16-46 | For [7, 7] followed by 7s in memory, the as-written encoder emits (0, 0, 7), then (1, 15, 7). |
| UnboundedGrowth.OverrunStreamFails | lz.c:53-75 | The artifact the as-written encoder produces for that input declares 2 bytes, but it fails to decompress with LengthMismatch. |

## Left out

- `fsize`, `file_lz77_compress`, `file_lz77_decompress` and `main` (lz.c:77-158): file I/O, allocation and console output only.
- The fixed 655360-byte output buffer of the compression wrapper (lz.c:102): the model's output is an unbounded sequence. `Compress` bounds its size by 4 + 3N.
- The comparison past the end of the input in the growth loop (lz.c:22): the model stops growth at the end of the input. The as-written loop is kept only in `UnboundedGrowth` (see Findings).
- The two extra bytes written by the 4-byte store of the token word (lz.c:44): they are overwritten by the literal and the next token, or lie past the returned size. Only the 2-byte word is modelled.
- The 4-byte load of the token word (lz.c:64): it reads one byte past the last token of the stream. Only its low 16 bits are used, and the model reads exactly two bytes.
- Host byte order and pointer-cast aliasing (lz.c:11, 44, 59, 64): modelled as explicit little-endian bytes.
- 32-bit positions and sizes: all positions and sizes are `nat`, and `Compress` requires the input to be shorter than 2^32 bytes, as its `uint32_t` size parameter does. The C code keeps them in 32-bit unsigned variables, and the model reproduces none of their wrap-around. The coding position becomes the input size plus one after a boundary-mode token, which wraps to 0 for an input of 2^32 - 1 bytes (lz.c:9, 14, 33). The compressor's `compressed_pointer` and `output_size` (lz.c:9, 12, 45-47) wrap once the stream reaches 2^32 bytes, that is at 1,431,655,764 tokens. An input of about 2.9e9 bytes with no 2-byte string repeated within 4095 bytes needs that many tokens, and the C then writes later tokens over its own header. The decompressor's `compressed_pointer` (lz.c:57, 60, 65, 71) wraps the same way on such a stream. `Compress` and `Decompress` describe the unwrapped stream.
- Malformed streams: where the C decoder reads past the stream or outside its output buffer, it has undefined behaviour; the model returns an error instead. A stream shorter than 4 bytes, whose header load at lz.c:59 reads past the stream, gives `TruncatedHeader`. A stream that ends inside or before a needed token (lz.c:64, 71) gives `TruncatedToken`. A copy of at least one byte whose distance is larger than the cursor gives `DistanceBeforeStart`: the offset wraps at lz.c:69, so the read at lz.c:70 lies outside the output buffer.
- The return values of the C functions: for streams shorter than 2^32 bytes, the compressor's `output_size` is the length of `Compress`'s result (see the 32-bit bullet above for longer ones). The decompressor's returned cursor is the length of the decoded output; when it differs from the header, `Decompress` reports `LengthMismatch`.

## Findings

| source | as written | input that shows it | evidently intended | confidence | as-written member | corrected member |
|---|---|---|---|---|---|---|
| lz.c:22 | Match growth compares bytes with no end-of-input bound, so it can count bytes stored after the input as matching. | Input [7, 7] with 7s in memory after it. At position 1 the match grows to 15 bytes, the literal is read from beyond the input, and the resulting artifact declares 2 bytes but decodes 17. | Growth stops at the end of the input, so the round trip holds. | high; not executed | UnboundedGrowth.GrowAsWritten, UnboundedGrowth.GrowthRunsPastInput, UnboundedGrowth.OverrunTokens, UnboundedGrowth.OverrunStreamFails | MatchFinder.Grow, RoundTrip.RoundTrip |
