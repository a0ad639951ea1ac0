/** Printing requests and chunked bodies. Every random choice of the source is a parameter. */
module Http1Print {
  import opened Wire
  import opened HttpText
  import opened Http1

  const EXTENSION: Bytes := [59, 97, 98, 99, 61, 49, 50, 51]  // ;abc=123
  const TRAILER: Bytes := Ascii("Trailer-Is: This")
  const LAST_CHUNK: Bytes := [48, 13, 10]

  /** Where to cut a body, which chunks get an extension, and whether a trailer follows. */
  datatype Choices = Choices(cuts: seq<nat>, extensions: seq<bool>, trailer: bool)

  /** Strictly increasing cuts inside the data, and one extension flag for each chunk. */
  predicate Fits(c: Choices, data: Bytes) {
    && |c.extensions| == |c.cuts| + 1
    && (forall i | 0 <= i < |c.cuts| :: 0 < c.cuts[i] < |data|)
    && (forall i, j | 0 <= i < j < |c.cuts| :: c.cuts[i] < c.cuts[j])
  }

  /** The pieces between `start`, the cuts, and the end. */
  function Pieces(data: Bytes, start: nat, cuts: seq<nat>): (r: seq<Bytes>)
    requires start < |data|
    requires forall i | 0 <= i < |cuts| :: start < cuts[i] < |data|
    requires forall i, j | 0 <= i < j < |cuts| :: cuts[i] < cuts[j]
    ensures |r| == |cuts| + 1
    ensures forall i | 0 <= i < |r| :: r[i] != []
    decreases |cuts|
  {
    if cuts == [] then [data[start..]]
    else [data[start..cuts[0]]] + Pieces(data, cuts[0], cuts[1..])
  }

  function ChunkBytes(chunk: Bytes, extension: bool): (r: Bytes) {
    Hex(|chunk|) + ((if extension then EXTENSION else []) + (CRLF + (chunk + CRLF)))
  }

  function ChunksBytes(chunks: seq<Bytes>, extensions: seq<bool>): (r: Bytes)
    requires |chunks| == |extensions|
  {
    if chunks == [] then [] else ChunkBytes(chunks[0], extensions[0]) + ChunksBytes(chunks[1..], extensions[1..])
  }

  function Trailer(c: Choices): (r: Bytes) {
    if c.trailer then TRAILER + CRLF else []
  }

  /** _randomly_chunk. */
  function Chunked(data: Bytes, c: Choices): (r: Bytes)
    requires data != [] ==> Fits(c, data)
  {
    if data == [] then LAST_CHUNK + CRLF
    else
      ChunksBytes(Pieces(data, 0, c.cuts), c.extensions)
      + (LAST_CHUNK + (Trailer(c) + CRLF))
  }

  function HeaderBytes(h: HeaderLine): (r: Bytes) {
    h.name + ([COLON] + ([SP] + h.value))
  }

  function HeadersBytes(headers: seq<HeaderLine>): (r: Bytes) {
    if headers == [] then [] else HeaderBytes(headers[0]) + (CRLF + HeadersBytes(headers[1..]))
  }

  predicate IsChunked(r: Request) {
    exists i | 0 <= i < |r.headers| :: Lower(r.headers[i].name) == TRANSFER_ENCODING
  }

  function LineBytes(r: Request): (s: Bytes) {
    r.method_ + ([SP] + (r.uri + ([SP] + (HTTP_SLASH + r.version))))
  }

  /** _unparse_request. */
  function Unparse(r: Request, c: Choices): (s: Bytes)
    requires IsChunked(r) && r.body != [] ==> Fits(c, r.body)
  {
    LineBytes(r) + (CRLF + (HeadersBytes(r.headers) + (CRLF + if IsChunked(r) then Chunked(r.body, c) else r.body)))
  }

  // Chunks.

  lemma {:induction false} HexRunStops(s: Bytes, rest: Bytes)
    requires forall i | 0 <= i < |s| :: IsHexDigit(s[i])
    requires rest != [] && !IsHexDigit(rest[0])
    ensures HexRun(s + rest) == |s|
  {
    assert forall i | 0 <= i < |s| :: (s + rest)[i] == s[i];
    assert (s + rest)[|s|] == rest[0];
  }

  lemma LineEndAt(s: Bytes, rest: Bytes)
    requires OneLine(s)
    ensures LineEnd(s + ([LF] + rest)) == |s|
  {
    assert forall i | 0 <= i < |s| :: (s + ([LF] + rest))[i] == s[i];
    assert (s + ([LF] + rest))[|s|] == LF;
  }

  lemma HexIsOneLine(n: nat)
    ensures OneLine(Hex(n))
  {}

  lemma ChunkHeaderRegroups(h: Bytes, e: Bytes, rest: Bytes)
    ensures h + (e + (CRLF + rest)) == (h + (e + [CR])) + ([LF] + rest)
  {
    var tail := [LF] + rest;
    assert CRLF + rest == [CR] + tail;
    Reassociate(e, [CR], tail);
    Reassociate(h, e + [CR], tail);
  }

  lemma ChunkHeaderParses(n: nat, e: Bytes, rest: Bytes)
    requires OneLine(e) && (e == [] || !IsHexDigit(e[0]))
    ensures ParseChunkHeader(Hex(n) + (e + (CRLF + rest))) == Done(n, rest)
  {
    var s, line := Hex(n) + (e + (CRLF + rest)), Hex(n) + (e + [CR]);
    assert (e + (CRLF + rest))[0] == if e != [] then e[0] else CR;
    HexRunStops(Hex(n), e + (CRLF + rest));
    HexIsOneLine(n);
    ChunkHeaderRegroups(Hex(n), e, rest);
    LineEndAt(line, rest);
    FromHexHex(n);
    assert s[..|Hex(n)|] == Hex(n) && s[|line| + 1..] == rest;
  }

  lemma TakeChunkParses(chunk: Bytes, rest: Bytes)
    ensures TakeChunk(chunk + (CRLF + rest), |chunk|) == if |chunk| >= MAX_REPEAT then Refusal(|chunk|) else Done(chunk, rest)
  {
    var s := chunk + (CRLF + rest);
    assert s[..|chunk|] == chunk && s[|chunk|..|chunk| + 2] == CRLF && s[|chunk| + 2..] == rest;
  }

  /** What a chunk in front does to the result of the chunks behind it. */
  ghost function WithChunk(chunk: Bytes, r: Http<Bytes>): Http<Bytes> {
    if |chunk| >= MAX_REPEAT then Refusal(|chunk|)
    else
      match r
      case Done(others, after) => Done(chunk + others, after)
      case Invalid => Invalid
      case Crash => Crash
  }

  lemma ChunkRegroups(h: Bytes, e: Bytes, chunk: Bytes, rest: Bytes)
    ensures (h + (e + (CRLF + (chunk + CRLF)))) + rest == h + (e + (CRLF + (chunk + (CRLF + rest))))
  {
    Reassociate(chunk, CRLF, rest);
    Reassociate(CRLF, chunk + CRLF, rest);
    Reassociate(e, CRLF + (chunk + CRLF), rest);
    Reassociate(h, e + (CRLF + (chunk + CRLF)), rest);
  }

  lemma ChunkStep(s: Bytes, chunk: Bytes, after: Bytes, rest: Bytes)
    requires chunk != [] && ParseChunkHeader(s) == Done(|chunk|, after)
    requires TakeChunk(after, |chunk|) == if |chunk| >= MAX_REPEAT then Refusal(|chunk|) else Done(chunk, rest)
    ensures ParseChunks(s) == WithChunk(chunk, ParseChunks(rest))
  {}

  lemma SpelledChunkParses(chunk: Bytes, e: Bytes, rest: Bytes)
    requires chunk != [] && OneLine(e) && (e == [] || !IsHexDigit(e[0]))
    ensures ParseChunks(Hex(|chunk|) + (e + (CRLF + (chunk + (CRLF + rest))))) == WithChunk(chunk, ParseChunks(rest))
  {
    var after := chunk + (CRLF + rest);
    ChunkHeaderParses(|chunk|, e, after);
    TakeChunkParses(chunk, rest);
    ChunkStep(Hex(|chunk|) + (e + (CRLF + after)), chunk, after, rest);
  }

  lemma FirstChunkParses(chunk: Bytes, extension: bool, rest: Bytes)
    requires chunk != []
    ensures ParseChunks(ChunkBytes(chunk, extension) + rest) == WithChunk(chunk, ParseChunks(rest))
  {
    var e := if extension then EXTENSION else [];
    SpelledChunkParses(chunk, e, rest);
    ChunkRegroups(Hex(|chunk|), e, chunk, rest);
  }

  lemma LastHeaderParses(rest: Bytes)
    ensures ParseChunkHeader(LAST_CHUNK + rest) == Done(0, rest)
  {
    assert Hex(0) + ([] + (CRLF + rest)) == LAST_CHUNK + rest;
    ChunkHeaderParses(0, [], rest);
  }

  lemma TakeNothing(rest: Bytes)
    ensures TakeChunk(rest, 0) == if CRLF <= rest then Done([], rest[2..]) else Invalid
  {
    if |rest| >= 2 {
      assert rest[0..2] == rest[..2];
    }
  }

  lemma LastChunkParses(rest: Bytes)
    ensures ParseChunks(LAST_CHUNK + rest) == if CRLF <= rest then Done([], rest[2..]) else Invalid
  {
    LastHeaderParses(rest);
    TakeNothing(rest);
  }

  predicate AllSmall(chunks: seq<Bytes>) {
    forall i | 0 <= i < |chunks| :: |chunks[i]| < MAX_REPEAT
  }

  lemma {:induction false} ChunksParse(chunks: seq<Bytes>, extensions: seq<bool>, rest: Bytes)
    requires |chunks| == |extensions| && forall i | 0 <= i < |chunks| :: chunks[i] != []
    ensures ParseChunks(rest).Done? && AllSmall(chunks) ==>
              ParseChunks(ChunksBytes(chunks, extensions) + rest)
              == Done(Join(chunks) + ParseChunks(rest).value, ParseChunks(rest).rest)
    ensures !ParseChunks(rest).Done? || !AllSmall(chunks) ==>
              !ParseChunks(ChunksBytes(chunks, extensions) + rest).Done?
    ensures ParseChunks(rest).Invalid? && AllSmall(chunks) ==>
              ParseChunks(ChunksBytes(chunks, extensions) + rest).Invalid?
  {
    if chunks == [] {
      assert [] + rest == rest;
      assert ParseChunks(rest).Done? ==> [] + ParseChunks(rest).value == ParseChunks(rest).value;
    } else {
      var others := ChunksBytes(chunks[1..], extensions[1..]);
      ChunksParse(chunks[1..], extensions[1..], rest);
      FirstChunkParses(chunks[0], extensions[0], others + rest);
      Reassociate(ChunkBytes(chunks[0], extensions[0]), others, rest);
      assert AllSmall(chunks) <==> |chunks[0]| < MAX_REPEAT && AllSmall(chunks[1..]);
      if ParseChunks(rest).Done? {
        Reassociate(chunks[0], Join(chunks[1..]), ParseChunks(rest).value);
      }
    }
  }

  lemma {:induction false} PiecesJoin(data: Bytes, start: nat, cuts: seq<nat>)
    requires start < |data|
    requires forall i | 0 <= i < |cuts| :: start < cuts[i] < |data|
    requires forall i, j | 0 <= i < j < |cuts| :: cuts[i] < cuts[j]
    ensures Join(Pieces(data, start, cuts)) == data[start..]
    decreases |cuts|
  {
    if cuts == [] {
      assert data[start..] + [] == data[start..];
    } else {
      PiecesJoin(data, cuts[0], cuts[1..]);
      assert data[start..] == data[start..cuts[0]] + data[cuts[0]..];
    }
  }

  lemma ChunkedRegroups(data: Bytes, c: Choices, rest: Bytes)
    requires data != [] && Fits(c, data)
    ensures Chunked(data, c) + rest
         == ChunksBytes(Pieces(data, 0, c.cuts), c.extensions) + (LAST_CHUNK + (Trailer(c) + CRLF + rest))
  {
    Reassociate(LAST_CHUNK, Trailer(c) + CRLF, rest);
    Reassociate(ChunksBytes(Pieces(data, 0, c.cuts), c.extensions), LAST_CHUNK + (Trailer(c) + CRLF), rest);
  }

  lemma TrailerInFront(c: Choices, rest: Bytes)
    ensures var after := Trailer(c) + CRLF + rest;
            if c.trailer then !(CRLF <= after) else CRLF <= after && after[2..] == rest
  {
    var after := Trailer(c) + CRLF + rest;
    if c.trailer {
      assert after[0] == TRAILER[0];
    } else {
      assert after == CRLF + rest;
    }
  }

  lemma AfterLastChunk(c: Choices, rest: Bytes)
    ensures ParseChunks(LAST_CHUNK + (Trailer(c) + CRLF + rest)) == if c.trailer then Invalid else Done([], rest)
  {
    var after := Trailer(c) + CRLF + rest;
    LastChunkParses(after);
    TrailerInFront(c, rest);
  }

  /** A chunked body parses back exactly when it has no trailer and no chunk too long for the pattern;
      then what follows it is left untouched. */
  lemma ChunkedRoundTrip(data: Bytes, c: Choices, rest: Bytes)
    requires data != [] ==> Fits(c, data)
    ensures ParseChunks(Chunked(data, c) + rest) == Done(data, rest)
       <==> data == [] || (!c.trailer && AllSmall(Pieces(data, 0, c.cuts)))
  {
    if data == [] {
      LastChunkParses(CRLF + rest);
      Reassociate(LAST_CHUNK, CRLF, rest);
      assert (CRLF + rest)[2..] == rest;
    } else {
      ChunkedRegroups(data, c, rest);
      AfterLastChunk(c, rest);
      ChunksParse(Pieces(data, 0, c.cuts), c.extensions, LAST_CHUNK + (Trailer(c) + CRLF + rest));
      PiecesJoin(data, 0, c.cuts);
      assert data[0..] + [] == data;
    }
  }

  /** With a trailer, and chunks that the pattern can count, parsing raises ValueError. */
  lemma TrailerIsRefused(data: Bytes, c: Choices, rest: Bytes)
    requires data != [] && Fits(c, data) && c.trailer && AllSmall(Pieces(data, 0, c.cuts))
    ensures ParseChunks(Chunked(data, c) + rest) == Invalid
  {
    ChunkedRegroups(data, c, rest);
    AfterLastChunk(c, rest);
    ChunksParse(Pieces(data, 0, c.cuts), c.extensions, LAST_CHUNK + (Trailer(c) + CRLF + rest));
  }

  /** One octet in one chunk, with a trailer. */
  lemma TrailerIsPossible()
    ensures var c := Choices([], [false], true);
            Fits(c, [97]) && ParseChunks(Chunked([97], c)) == Invalid
  {
    var c := Choices([], [false], true);
    TrailerIsRefused([97], c, []);
    assert Chunked([97], c) + [] == Chunked([97], c);
  }
}
