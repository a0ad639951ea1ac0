/** Where parsing an HTTP/1 request fails with something other than ValueError, and what that does to a stream. */
module Http1Failures {
  import opened Wire
  import opened HttpText
  import opened Http1
  import opened Http1Print
  import opened Http1RoundTrip

  // Chunks, as octets.

  /** A line that announces a chunk of `n` octets. */
  predicate Announces(line: Bytes, n: nat) {
    OneLine(line) && HexRun(line) > 0 && FromHex(line[..HexRun(line)]) == n
  }

  datatype Chunk = Chunk(line: Bytes, data: Bytes)

  predicate WholeChunk(c: Chunk) {
    Announces(c.line, |c.data|) && 0 < |c.data| < MAX_REPEAT
  }

  predicate WholeChunks(chunks: seq<Chunk>) {
    forall i | 0 <= i < |chunks| :: WholeChunk(chunks[i])
  }

  function ChunkOctets(c: Chunk): (r: Bytes) {
    c.line + ([LF] + (c.data + CRLF))
  }

  function ChunksOctets(chunks: seq<Chunk>): (r: Bytes) {
    if chunks == [] then [] else ChunkOctets(chunks[0]) + ChunksOctets(chunks[1..])
  }

  /** Too large for a repeat count, but not for decimal digits. */
  predicate Overflows(n: nat) {
    n >= MAX_REPEAT && |Decimal(n)| <= MAX_STR_DIGITS
  }

  predicate AnnouncesOverflow(line: Bytes) {
    OneLine(line) && HexRun(line) > 0 && Overflows(FromHex(line[..HexRun(line)]))
  }

  /** Whole chunks, then a line that announces a length that overflows, then anything. */
  ghost predicate OverflowsAfter(s: Bytes, chunks: seq<Chunk>, line: Bytes, rest: Bytes) {
    WholeChunks(chunks) && AnnouncesOverflow(line) && s == ChunksOctets(chunks) + (line + ([LF] + rest))
  }

  ghost predicate HoldsOverflow(s: Bytes) {
    exists chunks, line, rest :: OverflowsAfter(s, chunks, line, rest)
  }

  lemma {:induction false} HexRunOfLine(line: Bytes, rest: Bytes)
    ensures HexRun(line + ([LF] + rest)) == HexRun(line)
  {
    var s := line + ([LF] + rest);
    if line != [] {
      assert s[1..] == line[1..] + ([LF] + rest);
      HexRunOfLine(line[1..], rest);
    }
  }

  lemma LineParses(line: Bytes, rest: Bytes)
    requires OneLine(line) && HexRun(line) > 0
    ensures ParseChunkHeader(line + ([LF] + rest)) == Done(FromHex(line[..HexRun(line)]), rest)
  {
    var s := line + ([LF] + rest);
    HexRunOfLine(line, rest);
    LineEndAt(line, rest);
    assert s[..HexRun(line)] == line[..HexRun(line)] && s[|line| + 1..] == rest;
  }

  /** Every header that parses is a line. */
  lemma HeaderIsLine(s: Bytes) returns (line: Bytes)
    requires ParseChunkHeader(s).Done?
    ensures Announces(line, ParseChunkHeader(s).value)
    ensures s == line + ([LF] + ParseChunkHeader(s).rest)
  {
    var end := LineEnd(s);
    line := s[..end];
    assert s == line + ([LF] + s[end + 1..]);
    HexRunOfLine(line, s[end + 1..]);
    assert s[..HexRun(s)] == line[..HexRun(line)];
  }

  lemma WholeChunkStep(c: Chunk, rest: Bytes)
    requires WholeChunk(c)
    ensures ParseChunks(ChunkOctets(c) + rest) == WithChunk(c.data, ParseChunks(rest))
  {
    var after := c.data + (CRLF + rest);
    Reassociate(c.data, CRLF, rest);
    Reassociate([LF], c.data + CRLF, rest);
    Reassociate(c.line, [LF] + (c.data + CRLF), rest);
    LineParses(c.line, after);
    TakeChunkParses(c.data, rest);
    ChunkStep(c.line + ([LF] + after), c.data, after, rest);
  }

  lemma {:induction false} OverflowCrashes(chunks: seq<Chunk>, line: Bytes, rest: Bytes)
    requires WholeChunks(chunks) && AnnouncesOverflow(line)
    ensures ParseChunks(ChunksOctets(chunks) + (line + ([LF] + rest))) == Crash
  {
    var tail := line + ([LF] + rest);
    if chunks == [] {
      LineParses(line, rest);
      assert [] + tail == tail;
    } else {
      OverflowCrashes(chunks[1..], line, rest);
      WholeChunkStep(chunks[0], ChunksOctets(chunks[1..]) + tail);
      Reassociate(ChunkOctets(chunks[0]), ChunksOctets(chunks[1..]), tail);
    }
  }

  lemma ChunkInFront(s: Bytes, c: Chunk, after: Bytes)
    requires WholeChunk(c) && s == ChunkOctets(c) + after && HoldsOverflow(after)
    ensures HoldsOverflow(s)
  {
    var chunks, line, rest :| OverflowsAfter(after, chunks, line, rest);
    var all := [c] + chunks;
    assert all[1..] == chunks;
    Reassociate(ChunkOctets(c), ChunksOctets(chunks), line + ([LF] + rest));
    assert OverflowsAfter(s, all, line, rest);
  }

  /** What a taken chunk was. */
  lemma TakenChunk(s: Bytes, line: Bytes, after: Bytes, n: nat) returns (c: Chunk)
    requires Announces(line, n) && n > 0 && s == line + ([LF] + after) && TakeChunk(after, n).Done?
    ensures WholeChunk(c) && s == ChunkOctets(c) + TakeChunk(after, n).rest && c.data == TakeChunk(after, n).value
  {
    var rest := TakeChunk(after, n).rest;
    c := Chunk(line, after[..n]);
    assert after == c.data + (CRLF + rest);
    Reassociate(c.data, CRLF, rest);
    Reassociate([LF], c.data + CRLF, rest);
    Reassociate(line, [LF] + (c.data + CRLF), rest);
  }

  /** What a chunk loop that fails so did with its first chunk. */
  lemma CrashStep(s: Bytes)
    requires ParseChunks(s) == Crash
    ensures var header := ParseChunkHeader(s);
            && header.Done?
            && var taken := TakeChunk(header.rest, header.value);
               if taken.Crash? then Overflows(header.value)
               else taken.Done? && header.value > 0 && |taken.rest| < |s| && ParseChunks(taken.rest) == Crash
  {}

  lemma OverflowFirst(s: Bytes, line: Bytes, after: Bytes, n: nat)
    requires Announces(line, n) && Overflows(n) && s == line + ([LF] + after)
    ensures HoldsOverflow(s)
  {
    assert ChunksOctets([]) + s == s;
    assert OverflowsAfter(s, [], line, after);
  }

  lemma {:induction false} CrashHoldsOverflow(s: Bytes)
    requires ParseChunks(s) == Crash
    ensures HoldsOverflow(s)
    decreases |s|
  {
    var header := ParseChunkHeader(s);
    CrashStep(s);
    var line := HeaderIsLine(s);
    var taken := TakeChunk(header.rest, header.value);
    if taken.Crash? {
      OverflowFirst(s, line, header.rest, header.value);
    } else {
      var c := TakenChunk(s, line, header.rest, header.value);
      CrashHoldsOverflow(taken.rest);
      ChunkInFront(s, c, taken.rest);
    }
  }

  /** The chunk loop fails with OverflowError exactly on whole chunks and then a length that overflows. */
  lemma ChunksCrashExactly(s: Bytes)
    ensures ParseChunks(s) == Crash <==> HoldsOverflow(s)
  {
    if ParseChunks(s) == Crash {
      CrashHoldsOverflow(s);
    }
    if HoldsOverflow(s) {
      var chunks, line, rest :| OverflowsAfter(s, chunks, line, rest);
      OverflowCrashes(chunks, line, rest);
    }
  }

  function DataOf(chunks: seq<Chunk>): (r: seq<Bytes>) {
    if chunks == [] then [] else [chunks[0].data] + DataOf(chunks[1..])
  }

  /** Whole chunks, the last chunk, and then `rest`; together the chunks hold `body`. */
  ghost predicate IsChunkedBody(s: Bytes, chunks: seq<Chunk>, line: Bytes, body: Bytes, rest: Bytes) {
    WholeChunks(chunks) && Announces(line, 0) && body == Join(DataOf(chunks))
    && s == ChunksOctets(chunks) + (line + ([LF] + (CRLF + rest)))
  }

  lemma LastChunkEnds(line: Bytes, rest: Bytes)
    requires Announces(line, 0)
    ensures ParseChunks(line + ([LF] + (CRLF + rest))) == Done([], rest)
  {
    LineParses(line, CRLF + rest);
    TakeNothing(CRLF + rest);
    assert (CRLF + rest)[2..] == rest;
  }

  lemma {:induction false} ChunkedBodyParses(chunks: seq<Chunk>, line: Bytes, rest: Bytes)
    requires WholeChunks(chunks) && Announces(line, 0)
    ensures ParseChunks(ChunksOctets(chunks) + (line + ([LF] + (CRLF + rest)))) == Done(Join(DataOf(chunks)), rest)
  {
    var tail := line + ([LF] + (CRLF + rest));
    if chunks == [] {
      LastChunkEnds(line, rest);
      assert [] + tail == tail;
    } else {
      ChunkedBodyParses(chunks[1..], line, rest);
      WholeChunkStep(chunks[0], ChunksOctets(chunks[1..]) + tail);
      Reassociate(ChunkOctets(chunks[0]), ChunksOctets(chunks[1..]), tail);
      assert DataOf(chunks)[1..] == DataOf(chunks[1..]);
    }
  }

  lemma OnlyLastChunk(s: Bytes, line: Bytes, after: Bytes)
    requires Announces(line, 0) && s == line + ([LF] + after) && TakeChunk(after, 0).Done?
    ensures TakeChunk(after, 0).value == [] && IsChunkedBody(s, [], line, [], TakeChunk(after, 0).rest)
  {
    TakeNothing(after);
    assert after == CRLF + after[2..];
    assert ChunksOctets([]) + s == s;
  }

  /** What a chunk loop that succeeds did with its first chunk. */
  lemma ParsedStep(s: Bytes)
    requires ParseChunks(s).Done?
    ensures var header := ParseChunkHeader(s);
            && header.Done? && TakeChunk(header.rest, header.value).Done?
            && var taken := TakeChunk(header.rest, header.value);
               && |taken.rest| < |s|
               && if header.value == 0 then ParseChunks(s) == taken
                  else ParseChunks(taken.rest).Done?
                       && ParseChunks(s) == Done(taken.value + ParseChunks(taken.rest).value, ParseChunks(taken.rest).rest)
  {}

  lemma {:induction false} ParsedIsChunkedBody(s: Bytes) returns (chunks: seq<Chunk>, last: Bytes)
    requires ParseChunks(s).Done?
    ensures IsChunkedBody(s, chunks, last, ParseChunks(s).value, ParseChunks(s).rest)
    decreases |s|
  {
    var header := ParseChunkHeader(s);
    ParsedStep(s);
    var line := HeaderIsLine(s);
    var taken := TakeChunk(header.rest, header.value);
    if header.value == 0 {
      chunks, last := [], line;
      OnlyLastChunk(s, line, header.rest);
    } else {
      var c := TakenChunk(s, line, header.rest, header.value);
      var others: seq<Chunk>;
      others, last := ParsedIsChunkedBody(taken.rest);
      chunks := [c] + others;
      MoreChunks(s, c, taken.rest, others, last, ParseChunks(taken.rest).value, ParseChunks(taken.rest).rest);
    }
  }

  lemma MoreChunks(s: Bytes, c: Chunk, after: Bytes, chunks: seq<Chunk>, line: Bytes, body: Bytes, rest: Bytes)
    requires WholeChunk(c) && s == ChunkOctets(c) + after && IsChunkedBody(after, chunks, line, body, rest)
    ensures IsChunkedBody(s, [c] + chunks, line, c.data + body, rest)
  {
    var all := [c] + chunks;
    assert all[1..] == chunks;
    assert DataOf(all)[1..] == DataOf(chunks);
    Reassociate(ChunkOctets(c), ChunksOctets(chunks), line + ([LF] + (CRLF + rest)));
  }

  /** The chunk loop returns a body and what follows it exactly on whole chunks with that body, a last chunk of length
      zero, and what follows. */
  lemma ChunksParseExactly(s: Bytes, body: Bytes, rest: Bytes)
    ensures ParseChunks(s) == Done(body, rest) <==> exists chunks, line :: IsChunkedBody(s, chunks, line, body, rest)
  {
    if ParseChunks(s) == Done(body, rest) {
      var chunks, line := ParsedIsChunkedBody(s);
    }
    if chunks, line :| IsChunkedBody(s, chunks, line, body, rest) {
      ChunkedBodyParses(chunks, line, rest);
    }
  }

  // Bodies and requests.

  /** A chunk length that overflows, or a counted gzip body that does not decompress. */
  ghost predicate FailingBody(gunzip: Gunzip, headers: seq<HeaderLine>, rest: Bytes) {
    && FramingOf(headers).Some?
    && var f := FramingOf(headers).value;
       if CHUNKED in f.transfer then GZIP !in f.content && HoldsOverflow(rest)
       else
         && f.length.Some? && GZIP in f.content
         && gunzip(rest[..if f.length.value <= |rest| then f.length.value else |rest|]) == None
  }

  lemma BodyCrashesExactly(gunzip: Gunzip, headers: seq<HeaderLine>, rest: Bytes)
    ensures ParseBody(gunzip, headers, rest, false) == Crash <==> FailingBody(gunzip, headers, rest)
  {
    ChunksCrashExactly(rest);
  }

  /** A request line and headers that parse, and a failing body. */
  ghost predicate FailingRequest(gunzip: Gunzip, raw: Bytes) {
    && ParseRequestLine(raw).Done?
    && var headers := HeadersOf(ParseRequestLine(raw).rest);
       headers.Done? && FailingBody(gunzip, headers.value, headers.rest)
  }

  lemma RequestCrashesExactly(gunzip: Gunzip, raw: Bytes)
    ensures ParseRequest(gunzip, raw) == Crash <==> FailingRequest(gunzip, raw)
  {
    if ParseRequestLine(raw).Done? {
      var headers := HeadersOf(ParseRequestLine(raw).rest);
      if headers.Done? {
        BodyCrashesExactly(gunzip, headers.value, headers.rest);
      }
    }
  }

  // Streams.

  /** What follows the first `n` requests, if there are so many. */
  function AfterRequests(gunzip: Gunzip, payload: Bytes, n: nat): (r: Option<Bytes>)
    decreases n
  {
    if n == 0 then Some(payload)
    else
      match ParseRequest(gunzip, payload)
      case Done(_, rest) => AfterRequests(gunzip, rest, n - 1)
      case _ => None
  }

  ghost predicate FailsAfter(gunzip: Gunzip, payload: Bytes, n: nat) {
    AfterRequests(gunzip, payload, n).Some? && FailingRequest(gunzip, AfterRequests(gunzip, payload, n).value)
  }

  /** Whole requests, then a failing one. */
  ghost predicate FailingStream(gunzip: Gunzip, payload: Bytes) {
    exists n: nat :: FailsAfter(gunzip, payload, n)
  }

  lemma FailingStreamStep(gunzip: Gunzip, payload: Bytes)
    ensures FailingStream(gunzip, payload) <==>
            || FailingRequest(gunzip, payload)
            || (ParseRequest(gunzip, payload).Done? && FailingStream(gunzip, ParseRequest(gunzip, payload).rest))
  {
    RequestCrashesExactly(gunzip, payload);
    if FailingStream(gunzip, payload) {
      var n: nat :| FailsAfter(gunzip, payload, n);
      if n > 0 {
        assert FailsAfter(gunzip, ParseRequest(gunzip, payload).rest, n - 1);
      }
    }
    if FailingRequest(gunzip, payload) {
      assert FailsAfter(gunzip, payload, 0);
    }
    if ParseRequest(gunzip, payload).Done? && FailingStream(gunzip, ParseRequest(gunzip, payload).rest) {
      var n: nat :| FailsAfter(gunzip, ParseRequest(gunzip, payload).rest, n);
      assert FailsAfter(gunzip, payload, n + 1);
    }
  }

  /** parse_request_stream fails exactly on whole requests followed by a failing one. */
  lemma {:induction false} StreamCrashesExactly(gunzip: Gunzip, payload: Bytes)
    ensures ParseStream(gunzip, payload) == Crash <==> FailingStream(gunzip, payload)
    decreases |payload|
  {
    FailingStreamStep(gunzip, payload);
    RequestCrashesExactly(gunzip, payload);
    if ParseRequest(gunzip, payload).Done? {
      StreamCrashesExactly(gunzip, ParseRequest(gunzip, payload).rest);
    }
  }

  /** On every other input, what a stream of requests leaves over is a suffix, empty or one on which parsing a
      request raises ValueError. */
  lemma {:induction false} StreamLeavesSuffix(gunzip: Gunzip, payload: Bytes)
    requires !FailingStream(gunzip, payload)
    ensures ParseStream(gunzip, payload).Done?
    ensures var left := ParseStream(gunzip, payload).rest;
            && IsSuffix(left, payload)
            && (left == [] || ParseRequest(gunzip, left).Invalid?)
    decreases |payload|
  {
    StreamCrashesExactly(gunzip, payload);
    if payload != [] && ParseRequest(gunzip, payload).Done? {
      var rest := ParseRequest(gunzip, payload).rest;
      FailingStreamStep(gunzip, payload);
      RequestLeavesSuffix(gunzip, payload);
      StreamLeavesSuffix(gunzip, rest);
      SuffixOfSuffix(payload, rest, ParseStream(gunzip, payload).rest);
    }
  }

  // An input.

  const POST: Bytes := Ascii("POST")
  const SLASH: Bytes := Ascii("/")
  const ONE_ONE: Bytes := Ascii("1.1")
  const CHUNKED_LINE: HeaderLine := HeaderLine(TRANSFER_ENCODING, CHUNKED)
  const EIGHT_FS: Bytes := [102, 102, 102, 102, 102, 102, 102, 102]

  lemma OneMoreF(n: nat)
    requires n > 0
    ensures Hex(16 * n + 15) == Hex(n) + [102]
  {
    DivisionIsUnique(16 * n + 15, 16, n, 15);
  }

  lemma HexOfMaxRepeat()
    ensures Hex(MAX_REPEAT) == EIGHT_FS
  {
    assert Hex(0xf) == [102];
    OneMoreF(0xf);
    OneMoreF(0xff);
    OneMoreF(0xfff);
    OneMoreF(0xffff);
    OneMoreF(0xf_ffff);
    OneMoreF(0xff_ffff);
    OneMoreF(0xfff_ffff);
  }

  lemma MaxRepeatOverflows()
    ensures Overflows(MAX_REPEAT)
  {
    assert Pow10(10) > MAX_REPEAT by {
      assert Pow10(5) == 100000;
    }
    DecimalLength(MAX_REPEAT, 10);
  }

  lemma EightFsOverflow()
    ensures AnnouncesOverflow(EIGHT_FS)
  {
    HexOfMaxRepeat();
    FromHexHex(MAX_REPEAT);
    MaxRepeatOverflows();
    HexRunStops(EIGHT_FS, [LF]);
    HexRunOfLine(EIGHT_FS, []);
    assert [LF] + [] == [LF] && EIGHT_FS[..8] == EIGHT_FS;
  }

  lemma ChunkedHeader()
    ensures AddHeader(Framing(None, [], []), CHUNKED_LINE) == Some(Framing(None, [CHUNKED], []))
  {
    assert Lower(TRANSFER_ENCODING) == TRANSFER_ENCODING && Lower(CHUNKED) == CHUNKED;
    assert |CONTENT_LENGTH| == 14 && |CONTENT_ENCODING| == 16 && |TRANSFER_ENCODING| == 17;
    assert StripCommas(CHUNKED) == CHUNKED;
    assert [] + [CHUNKED] == [CHUNKED];
  }

  lemma OverflowAtOnce(line: Bytes, rest: Bytes)
    requires AnnouncesOverflow(line)
    ensures HoldsOverflow(line + ([LF] + rest))
  {
    var s := line + ([LF] + rest);
    assert ChunksOctets([]) + s == s;
    assert OverflowsAfter(s, [], line, rest);
  }

  lemma OneHeader(h: HeaderLine, f: Framing)
    requires AddHeader(Framing(None, [], []), h) == Some(f)
    ensures FramingOf([h]) == Some(f)
  {
    assert [h][1..] == [];
    assert FramingFrom(f, []) == Some(f);
  }

  lemma ChunkedFraming()
    ensures FramingOf([CHUNKED_LINE]) == Some(Framing(None, [CHUNKED], []))
  {
    ChunkedHeader();
    OneHeader(CHUNKED_LINE, Framing(None, [CHUNKED], []));
  }

  lemma OverflowingBody(gunzip: Gunzip, headers: seq<HeaderLine>, body: Bytes)
    requires FramingOf(headers) == Some(Framing(None, [CHUNKED], [])) && HoldsOverflow(body)
    ensures FailingBody(gunzip, headers, body)
  {}

  function RequestWith(method_: Bytes, uri: Bytes, version: Bytes, headers: seq<HeaderLine>, body: Bytes): (r: Bytes) {
    method_ + ([SP] + (uri + ([SP] + (HTTP_SLASH + (version + (CRLF + (HeadersBytes(headers) + (CRLF + body))))))))
  }

  lemma RequestWithFails(gunzip: Gunzip, method_: Bytes, uri: Bytes, version: Bytes, headers: seq<HeaderLine>, body: Bytes)
    requires Word(method_) && Word(uri) && Word(version) && GoodHeaders(headers) && FailingBody(gunzip, headers, body)
    ensures FailingRequest(gunzip, RequestWith(method_, uri, version, headers, body))
  {
    RequestLineParses(method_, uri, version, HeadersBytes(headers) + (CRLF + body));
    HeadersParse(headers, body);
  }

  lemma GoodWords()
    ensures Word(POST) && Word(SLASH) && Word(ONE_ONE)
  {}

  lemma GoodLine()
    ensures GoodHeaders([CHUNKED_LINE])
  {}

  lemma FirstRequestFails(gunzip: Gunzip, payload: Bytes)
    requires FailingRequest(gunzip, payload)
    ensures ParseStream(gunzip, payload) == Crash
  {
    FailingStreamStep(gunzip, payload);
    StreamCrashesExactly(gunzip, payload);
  }

  /** A chunked POST whose first chunk announces ffffffff octets: the stream parser fails instead of returning
      what is left over. */
  lemma OverflowIsPossible(gunzip: Gunzip)
    ensures ParseStream(gunzip, RequestWith(POST, SLASH, ONE_ONE, [CHUNKED_LINE], EIGHT_FS + ([LF] + []))) == Crash
  {
    EightFsOverflow();
    OverflowAtOnce(EIGHT_FS, []);
    ChunkedFraming();
    OverflowingBody(gunzip, [CHUNKED_LINE], EIGHT_FS + ([LF] + []));
    GoodWords();
    GoodLine();
    RequestWithFails(gunzip, POST, SLASH, ONE_ONE, [CHUNKED_LINE], EIGHT_FS + ([LF] + []));
    FirstRequestFails(gunzip, RequestWith(POST, SLASH, ONE_ONE, [CHUNKED_LINE], EIGHT_FS + ([LF] + [])));
  }
}
