/** Printed requests parse back, one after the other, whatever follows them. */
module Http1RoundTrip {
  import opened Wire
  import opened HttpText
  import opened Http1
  import opened Http1Print

  // The request line.

  predicate Word(s: Bytes) {
    s != [] && forall i | 0 <= i < |s| :: !IsSpace(s[i])
  }

  lemma WordThenSpace(word: Bytes, rest: Bytes)
    requires Word(word) && rest != [] && IsSpace(rest[0])
    ensures Run(word + rest, false) == |word| && (word + rest)[..|word|] == word && (word + rest)[|word|..] == rest
  {
    RunStops(word, false, rest);
  }

  lemma SpaceThenWord(word: Bytes, rest: Bytes)
    requires Word(word)
    ensures Run([SP] + (word + rest), true) == 1 && ([SP] + (word + rest))[1..] == word + rest
  {
    assert (word + rest)[0] == word[0];
    RunStops([SP], true, word + rest);
  }

  lemma VersionParses(method_: Bytes, uri: Bytes, version: Bytes, rest: Bytes)
    requires Word(version)
    ensures ParseVersion(method_, uri, [SP] + (HTTP_SLASH + (version + (CRLF + rest))))
         == Done(RequestLine(method_, uri, version), rest)
  {
    var after := version + (CRLF + rest);
    var s := [SP] + (HTTP_SLASH + after);
    RunStops([SP], true, HTTP_SLASH + after);
    WordThenSpace(version, CRLF + rest);
    assert s[1..] == HTTP_SLASH + after;
    assert s[6..] == after;
    var v := 6 + |version|;
    assert s[6..v] == after[..|version|];
    assert s[v..] == CRLF + rest by {
      assert s[v..] == s[6..][|version|..];
    }
    assert s[v + 2..] == rest by {
      assert s[v + 2..] == s[v..][2..];
    }
  }

  lemma TakeWord(word: Bytes, rest: Bytes)
    requires Word(word) && rest != [] && IsSpace(rest[0])
    ensures TakeRun(word + rest, false) == Done(word, rest)
  {
    WordThenSpace(word, rest);
  }

  lemma TakeSpace(word: Bytes, rest: Bytes)
    requires Word(word)
    ensures TakeRun([SP] + (word + rest), true) == Done([SP], word + rest)
  {
    SpaceThenWord(word, rest);
    assert ([SP] + (word + rest))[..1] == [SP];
  }

  lemma RequestLineParses(method_: Bytes, uri: Bytes, version: Bytes, rest: Bytes)
    requires Word(method_) && Word(uri) && Word(version)
    ensures ParseRequestLine(method_ + ([SP] + (uri + ([SP] + (HTTP_SLASH + (version + (CRLF + rest)))))))
         == Done(RequestLine(method_, uri, version), rest)
  {
    var afterUri := [SP] + (HTTP_SLASH + (version + (CRLF + rest)));
    TakeWord(method_, [SP] + (uri + afterUri));
    TakeSpace(uri, afterUri);
    TakeWord(uri, afterUri);
    VersionParses(method_, uri, version, rest);
  }

  // Headers.

  predicate GoodHeader(h: HeaderLine) {
    && h.name != []
    && (forall i | 0 <= i < |h.name| :: h.name[i] != COLON && h.name[i] != LF)
    && OneLine(h.value)
    && (h.value != [] ==> !IsBlank(h.value[0]) && !IsBlank(h.value[|h.value| - 1]))
  }

  lemma HeaderIsOneLine(h: HeaderLine)
    requires GoodHeader(h)
    ensures OneLine(HeaderBytes(h)) && HeaderBytes(h) != []
  {}

  lemma HeaderParses(h: HeaderLine)
    requires GoodHeader(h)
    ensures ParseHeaderLine(HeaderBytes(h)) == Some(h)
  {
    var line := HeaderBytes(h);
    assert forall i | 0 <= i < |h.name| :: line[i] == h.name[i];
    assert line[|h.name|] == COLON;
    assert FirstColon(line) == |h.name|;
    assert line[..|h.name|] == h.name;
    assert line[|h.name| + 1..] == [SP] + h.value;
    assert ([SP] + h.value)[1..] == h.value;
    assert TrimLeft([SP] + h.value) == TrimLeft(h.value) == h.value;
    assert TrimRight(h.value) == h.value;
  }

  function Lines(headers: seq<HeaderLine>): (r: seq<Bytes>)
    ensures |r| == |headers|
    ensures forall i | 0 <= i < |r| :: r[i] == HeaderBytes(headers[i])
  {
    if headers == [] then [] else [HeaderBytes(headers[0])] + Lines(headers[1..])
  }

  predicate GoodHeaders(headers: seq<HeaderLine>) {
    forall i | 0 <= i < |headers| :: GoodHeader(headers[i])
  }

  /** The header lines without the last line end. */
  function Unterminated(headers: seq<HeaderLine>): (r: Bytes)
    requires headers != []
  {
    if |headers| == 1 then HeaderBytes(headers[0])
    else HeaderBytes(headers[0]) + (CRLF + Unterminated(headers[1..]))
  }

  lemma {:induction false} HeadersUntilBlankLine(headers: seq<HeaderLine>, rest: Bytes)
    requires headers != [] && GoodHeaders(headers)
    ensures UntilBlankLine(HeadersBytes(headers) + (CRLF + rest)) == Some(Around(Unterminated(headers), rest))
    decreases |headers|
  {
    var line, others := HeaderBytes(headers[0]), HeadersBytes(headers[1..]);
    HeaderIsOneLine(headers[0]);
    Reassociate(CRLF, others, CRLF + rest);
    Reassociate(line, CRLF + others, CRLF + rest);
    if |headers| == 1 {
      assert others + (CRLF + rest) == CRLF + rest;
      BlankLineHere(line, rest);
    } else {
      var next := headers[1..];
      HeadersUntilBlankLine(next, rest);
      HeadersStartInLine(next, CRLF + rest);
      BlankLineAfter(line, others + (CRLF + rest));
      Reassociate(line, CRLF, Unterminated(next));
    }
  }

  lemma HeadersStartInLine(headers: seq<HeaderLine>, rest: Bytes)
    requires headers != [] && GoodHeaders(headers)
    ensures Newline(HeadersBytes(headers) + rest) == 0
    ensures !(CRLF <= HeadersBytes(headers) + rest)
  {
    var line, others := HeaderBytes(headers[0]), HeadersBytes(headers[1..]);
    HeaderIsOneLine(headers[0]);
    Reassociate(CRLF, others, rest);
    Reassociate(line, CRLF + others, rest);
    NoNewlineYet(line, others + rest);
  }

  lemma {:induction false} HeadersSplit(headers: seq<HeaderLine>)
    requires headers != [] && GoodHeaders(headers)
    ensures SplitLines(Unterminated(headers)) == Lines(headers)
    decreases |headers|
  {
    HeaderIsOneLine(headers[0]);
    if |headers| == 1 {
      SplitOneLine(HeaderBytes(headers[0]));
      assert headers[1..] == [];
    } else {
      HeadersSplit(headers[1..]);
      SplitFirstLine(HeaderBytes(headers[0]), Unterminated(headers[1..]));
    }
  }

  lemma {:induction false} LinesParse(headers: seq<HeaderLine>)
    requires GoodHeaders(headers)
    ensures ParseHeaderLines(Lines(headers)) == Some(headers)
  {
    if headers != [] {
      HeaderParses(headers[0]);
      LinesParse(headers[1..]);
      assert Lines(headers)[1..] == Lines(headers[1..]);
      assert [headers[0]] + headers[1..] == headers;
    }
  }

  lemma HeadersParse(headers: seq<HeaderLine>, rest: Bytes)
    requires GoodHeaders(headers)
    ensures HeadersOf(HeadersBytes(headers) + (CRLF + rest)) == Done(headers, rest)
  {
    if headers == [] {
      assert HeadersBytes(headers) + (CRLF + rest) == CRLF + rest;
      assert (CRLF + rest)[2..] == rest;
    } else {
      HeadersStartInLine(headers, CRLF + rest);
      HeadersUntilBlankLine(headers, rest);
      HeadersSplit(headers);
      LinesParse(headers);
    }
  }

  // Bodies.

  /** The choices are some that the printer could make. */
  predicate Possible(r: Request, c: Choices) {
    IsChunked(r) && r.body != [] ==> Fits(c, r.body)
  }

  function BodyBytes(r: Request, c: Choices): (s: Bytes)
    requires Possible(r, c)
  {
    if IsChunked(r) then Chunked(r.body, c) else r.body
  }

  /** The headers describe the body as it is printed. */
  predicate GoodFraming(gunzip: Gunzip, r: Request, c: Choices)
    requires Possible(r, c)
  {
    && FramingOf(r.headers).Some?
    && var f, printed := FramingOf(r.headers).value, BodyBytes(r, c);
       if CHUNKED in f.transfer then
         GZIP !in f.content && (r.body != [] ==> Fits(c, r.body) && !c.trailer && AllSmall(Pieces(r.body, 0, c.cuts)))
       else if f.length.Some? then
         f.length.value == |printed| && (if GZIP in f.content then gunzip(printed) == Some(r.body) else printed == r.body)
       else printed == r.body == []
  }

  lemma {:induction false} FramingCodings(f: Framing, headers: seq<HeaderLine>)
    requires FramingFrom(f, headers).Some?
    requires forall i | 0 <= i < |headers| :: Lower(headers[i].name) != TRANSFER_ENCODING
    ensures FramingFrom(f, headers).value.transfer == f.transfer
    decreases |headers|
  {
    if headers != [] {
      assert Lower(headers[0].name) != TRANSFER_ENCODING;
      FramingCodings(AddHeader(f, headers[0]).value, headers[1..]);
    }
  }

  /** A chunked coding in the headers makes the printer chunk. */
  lemma ChunkedIsPrintedChunked(r: Request)
    requires FramingOf(r.headers).Some? && CHUNKED in FramingOf(r.headers).value.transfer
    ensures IsChunked(r)
  {
    if !IsChunked(r) {
      FramingCodings(Framing(None, [], []), r.headers);
    }
  }

  lemma BodyParses(gunzip: Gunzip, r: Request, c: Choices, rest: Bytes)
    requires Possible(r, c) && GoodFraming(gunzip, r, c)
    ensures ParseBody(gunzip, r.headers, BodyBytes(r, c) + rest, false) == Done(r.body, rest)
  {
    var printed := BodyBytes(r, c);
    if CHUNKED in FramingOf(r.headers).value.transfer {
      ChunkedIsPrintedChunked(r);
      ChunkedRoundTrip(r.body, c, rest);
    } else {
      assert (printed + rest)[..|printed|] == printed && (printed + rest)[|printed|..] == rest;
    }
  }

  // Requests.

  /** Well-formed lines and a body framed as the headers say. */
  predicate WellFormed(gunzip: Gunzip, r: Request, c: Choices) {
    GoodLines(r) && Possible(r, c) && GoodFraming(gunzip, r, c)
  }

  lemma LineRegroups(r: Request, rest: Bytes)
    ensures LineBytes(r) + (CRLF + rest)
         == r.method_ + ([SP] + (r.uri + ([SP] + (HTTP_SLASH + (r.version + (CRLF + rest))))))
  {
    var tail := CRLF + rest;
    var a := HTTP_SLASH + r.version;
    var b := [SP] + a;
    var c := r.uri + b;
    var d := [SP] + c;
    Reassociate(HTTP_SLASH, r.version, tail);
    Reassociate([SP], a, tail);
    Reassociate(r.uri, b, tail);
    Reassociate([SP], c, tail);
    Reassociate(r.method_, d, tail);
  }

  lemma UnparseRegroups(r: Request, c: Choices, rest: Bytes)
    requires Possible(r, c)
    ensures Unparse(r, c) + rest
         == LineBytes(r) + (CRLF + (HeadersBytes(r.headers) + (CRLF + (BodyBytes(r, c) + rest))))
  {
    var body, headers := BodyBytes(r, c), HeadersBytes(r.headers);
    Reassociate(CRLF, body, rest);
    Reassociate(headers, CRLF + body, rest);
    Reassociate(CRLF, headers + (CRLF + body), rest);
    Reassociate(LineBytes(r), CRLF + (headers + (CRLF + body)), rest);
  }

  lemma PartsParse(gunzip: Gunzip, raw: Bytes, line: RequestLine, afterLine: Bytes, headers: seq<HeaderLine>,
                   afterHeaders: Bytes)
    requires ParseRequestLine(raw) == Done(line, afterLine)
    requires HeadersOf(afterLine) == Done(headers, afterHeaders)
    ensures ParseRequest(gunzip, raw)
         == match ParseBody(gunzip, headers, afterHeaders, false)
            case Done(body, rest) => Done(Request(line.method_, line.uri, headers, body, line.version), rest)
            case Invalid => Invalid
            case Crash => Crash
  {}

  predicate GoodLines(r: Request) {
    Word(r.method_) && Word(r.uri) && Word(r.version) && GoodHeaders(r.headers)
  }

  /** With well-formed lines, a printed request parses as its body does. */
  lemma LinesThenBody(gunzip: Gunzip, r: Request, c: Choices, rest: Bytes)
    requires GoodLines(r) && Possible(r, c)
    ensures ParseRequest(gunzip, Unparse(r, c) + rest)
         == match ParseBody(gunzip, r.headers, BodyBytes(r, c) + rest, false)
            case Done(body, left) => Done(r.(body := body), left)
            case Invalid => Invalid
            case Crash => Crash
  {
    var afterHeaders := BodyBytes(r, c) + rest;
    var afterLine := HeadersBytes(r.headers) + (CRLF + afterHeaders);
    UnparseRegroups(r, c, rest);
    LineRegroups(r, afterLine);
    RequestLineParses(r.method_, r.uri, r.version, afterLine);
    HeadersParse(r.headers, afterHeaders);
    PartsParse(gunzip, Unparse(r, c) + rest, RequestLine(r.method_, r.uri, r.version), afterLine, r.headers, afterHeaders);
  }

  /** Printing then parsing gives the request back and leaves exactly what follows it. */
  lemma RequestRoundTrip(gunzip: Gunzip, r: Request, c: Choices, rest: Bytes)
    requires WellFormed(gunzip, r, c)
    ensures ParseRequest(gunzip, Unparse(r, c) + rest) == Done(r, rest)
  {
    LinesThenBody(gunzip, r, c, rest);
    BodyParses(gunzip, r, c, rest);
  }

  // The framing is necessary.

  /** A count that takes `n` octets off a string of `n`, and of `n + 1`, is `n`. */
  lemma CountIsExact(length: nat, n: nat)
    requires (if length <= n then length else n) == n && (if length <= n + 1 then length else n + 1) == n
    ensures length == n
  {}

  /** A body that comes back in front of nothing and in front of one octet is framed as the headers say. */
  lemma FramingIsNecessary(gunzip: Gunzip, r: Request, c: Choices)
    requires Possible(r, c)
    requires ParseBody(gunzip, r.headers, BodyBytes(r, c) + [], false) == Done(r.body, [])
    requires ParseBody(gunzip, r.headers, BodyBytes(r, c) + [0], false) == Done(r.body, [0])
    ensures GoodFraming(gunzip, r, c)
  {
    if CHUNKED in FramingOf(r.headers).value.transfer {
      ChunkedIsPrintedChunked(r);
      ChunkedRoundTrip(r.body, c, []);
    } else {
      CountedFraming(gunzip, r.headers, BodyBytes(r, c), r.body);
    }
  }

  /** What a body without chunks says of its framing. */
  lemma CountedFraming(gunzip: Gunzip, headers: seq<HeaderLine>, printed: Bytes, body: Bytes)
    requires FramingOf(headers).Some? && CHUNKED !in FramingOf(headers).value.transfer
    requires ParseBody(gunzip, headers, printed + [], false) == Done(body, [])
    requires ParseBody(gunzip, headers, printed + [0], false) == Done(body, [0])
    ensures var f := FramingOf(headers).value;
            if f.length.None? then printed == [] && body == []
            else f.length.value == |printed| && (if GZIP in f.content then gunzip(printed) == Some(body) else body == printed)
  {
    var f := FramingOf(headers).value;
    assert printed + [] == printed;
    if f.length.Some? {
      CountIsExact(f.length.value, |printed|);
    }
  }

  /** A request with well-formed lines comes back, whatever follows it, if and only if its body is framed as its
      headers say. */
  lemma RequestRoundTripExactly(gunzip: Gunzip, r: Request, c: Choices)
    requires GoodLines(r) && Possible(r, c)
    ensures (forall rest :: ParseRequest(gunzip, Unparse(r, c) + rest) == Done(r, rest)) <==> GoodFraming(gunzip, r, c)
  {
    if GoodFraming(gunzip, r, c) {
      forall rest
        ensures ParseRequest(gunzip, Unparse(r, c) + rest) == Done(r, rest)
      {
        RequestRoundTrip(gunzip, r, c, rest);
      }
    }
    if forall rest :: ParseRequest(gunzip, Unparse(r, c) + rest) == Done(r, rest) {
      LinesThenBody(gunzip, r, c, []);
      LinesThenBody(gunzip, r, c, [0]);
      FramingIsNecessary(gunzip, r, c);
    }
  }

  ghost predicate AllWellFormed(gunzip: Gunzip, requests: seq<Request>, choices: seq<Choices>) {
    |choices| == |requests| && forall i | 0 <= i < |requests| :: WellFormed(gunzip, requests[i], choices[i])
  }

  ghost function StreamBytes(gunzip: Gunzip, requests: seq<Request>, choices: seq<Choices>): Bytes
    requires AllWellFormed(gunzip, requests, choices)
  {
    if requests == [] then [] else Unparse(requests[0], choices[0]) + StreamBytes(gunzip, requests[1..], choices[1..])
  }

  lemma RequestThenRest(gunzip: Gunzip, r: Request, c: Choices, rest: Bytes)
    requires WellFormed(gunzip, r, c)
    ensures ParseStream(gunzip, Unparse(r, c) + rest) == Ahead([r], ParseStream(gunzip, rest))
  {
    RequestRoundTrip(gunzip, r, c, rest);
    RequestLeavesSuffix(gunzip, Unparse(r, c) + rest);
    StreamStep(gunzip, Unparse(r, c) + rest);
  }

  /** Printed requests in front of anything parse first, and the rest parses as it would alone. */
  lemma {:induction false} RequestsThenRest(gunzip: Gunzip, requests: seq<Request>, choices: seq<Choices>, rest: Bytes)
    requires AllWellFormed(gunzip, requests, choices)
    ensures ParseStream(gunzip, StreamBytes(gunzip, requests, choices) + rest) == Ahead(requests, ParseStream(gunzip, rest))
    decreases |requests|
  {
    if requests == [] {
      assert [] + rest == rest;
      AheadTwice([], [], ParseStream(gunzip, rest));
    } else {
      var first, others := Unparse(requests[0], choices[0]), StreamBytes(gunzip, requests[1..], choices[1..]);
      RequestsThenRest(gunzip, requests[1..], choices[1..], rest);
      RequestThenRest(gunzip, requests[0], choices[0], others + rest);
      Reassociate(first, others, rest);
      AheadTwice([requests[0]], requests[1..], ParseStream(gunzip, rest));
      assert [requests[0]] + requests[1..] == requests;
    }
  }

  /** Any list of well-formed requests, printed one after the other, parses back to the same list with
      nothing left over. */
  lemma StreamRoundTrip(gunzip: Gunzip, requests: seq<Request>, choices: seq<Choices>)
    requires AllWellFormed(gunzip, requests, choices)
    ensures ParseStream(gunzip, StreamBytes(gunzip, requests, choices)) == Done(requests, [])
  {
    RequestsThenRest(gunzip, requests, choices, []);
    assert StreamBytes(gunzip, requests, choices) + [] == StreamBytes(gunzip, requests, choices);
    assert requests + [] == requests;
  }
}
