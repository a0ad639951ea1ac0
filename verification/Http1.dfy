/** Parsing HTTP/1 requests: request line, headers, body, and streams of requests. */
module Http1 {
  import opened Wire
  import opened HttpText

  datatype HeaderLine = HeaderLine(name: Bytes, value: Bytes)

  datatype Request = Request(method_: Bytes, uri: Bytes, headers: seq<HeaderLine>, body: Bytes, version: Bytes)

  /** Done: a value and the octets not consumed. Invalid: ValueError. Crash: any other exception. */
  datatype Http<+T> = Done(value: T, rest: Bytes) | Invalid | Crash {
    predicate IsFailure() {
      !Done?
    }

    function PropagateFailure<U>(): Http<U>
      requires IsFailure()
    {
      if Invalid? then Invalid else Crash
    }

    function Extract(): (T, Bytes)
      requires Done?
    {
      (value, rest)
    }
  }

  /** gzip.decompress, which may raise. */
  type Gunzip = Bytes -> Option<Bytes>

  // The request line.

  datatype RequestLine = RequestLine(method_: Bytes, uri: Bytes, version: Bytes)

  const HTTP_SLASH: Bytes := [72, 84, 84, 80, 47]  // HTTP/
  const V09: Bytes := [48, 46, 57]                 // 0.9

  /** One past the last line feed of `s` at position 1 or later, or zero: where the pattern ends when it
      gives up on a version and backs out of the white space. */
  function LastLineFeed(s: Bytes): (r: nat)
    ensures r <= |s|
  {
    if |s| <= 1 then 0
    else if s[|s| - 1] == LF then |s|
    else LastLineFeed(s[..|s| - 1])
  }

  /** The longest run with or without white space, at least one octet. */
  function TakeRun(s: Bytes, space: bool): (r: Http<Bytes>)
    ensures !r.Crash?
    ensures r.Done? ==> |r.rest| < |s|
  {
    var n := Run(s, space);
    if n == 0 then Invalid else Done(s[..n], s[n..])
  }

  function ParseRequestLine(raw: Bytes): (r: Http<RequestLine>)
    ensures !r.Crash?
    ensures r.Done? ==> |r.rest| < |raw|
  {
    var (method_, rest) :- TakeRun(raw, false);
    var (_, rest) :- TakeRun(rest, true);
    var (uri, rest) :- TakeRun(rest, false);
    ParseVersion(method_, uri, rest)
  }

  /** The end of the request line: white space, perhaps a version, the line end. */
  function ParseVersion(method_: Bytes, uri: Bytes, s: Bytes): (r: Http<RequestLine>)
    ensures !r.Crash?
    ensures r.Done? ==> |r.rest| <= |s|
  {
    var x := Run(s, true);
    if x == 0 then Invalid
    else
      var v := if HTTP_SLASH <= s[x..] then x + 5 + Run(s[x + 5..], false) else x + 5;
      if v > x + 5 && Newline(s[v..]) > 0 then
        Done(RequestLine(method_, uri, s[x + 5..v]), s[v + Newline(s[v..])..])
      else
        var n := LastLineFeed(s[..x]);
        if n == 0 then Invalid else Done(RequestLine(method_, uri, V09), s[n..])
  }

  // Headers.

  /** The position of the first colon, or the length. */
  function FirstColon(s: Bytes): (r: nat)
    ensures r <= |s|
    ensures forall i | 0 <= i < r :: s[i] != COLON
    ensures r < |s| ==> s[r] == COLON
  {
    if s == [] || s[0] == COLON then 0 else 1 + FirstColon(s[1..])
  }

  function ParseHeaderLine(line: Bytes): (r: Option<HeaderLine>) {
    var colon := FirstColon(line);
    if colon == 0 || colon == |line| then None
    else Some(HeaderLine(line[..colon], TrimRight(TrimLeft(line[colon + 1..]))))
  }

  function ParseHeaderLines(lines: seq<Bytes>): (r: Option<seq<HeaderLine>>) {
    if lines == [] then Some([])
    else
      var first, others := ParseHeaderLine(lines[0]), ParseHeaderLines(lines[1..]);
      if first.None? || others.None? then None else Some([first.value] + others.value)
  }

  /** parse_headers as a function. */
  function HeadersOf(raw: Bytes): (r: Http<seq<HeaderLine>>)
    ensures !r.Crash?
    ensures r.Done? ==> |r.rest| < |raw|
  {
    if CRLF <= raw then Done([], raw[2..])
    else
      match UntilBlankLine(raw)
      case None => Invalid
      case Some(a) =>
        var headers := ParseHeaderLines(SplitLines(a.before));
        if headers.None? then Invalid else Done(headers.value, a.after)
  }

  /** parse_headers: the lines are matched one after the other. */
  method ParseHeaders(raw: Bytes) returns (r: Http<seq<HeaderLine>>)
    ensures r == HeadersOf(raw)
  {
    if CRLF <= raw {
      return Done([], raw[2..]);
    }
    var terminator := UntilBlankLine(raw);
    if terminator.None? {
      return Invalid;
    }
    var lines := SplitLines(terminator.value.before);
    var headers: seq<HeaderLine> := [];
    assert lines[0..] == lines;
    assert ParseHeaderLines(lines).Some? ==> [] + ParseHeaderLines(lines).value == ParseHeaderLines(lines).value;
    for i := 0 to |lines|
      invariant match ParseHeaderLines(lines[i..])
                case None => ParseHeaderLines(lines) == None
                case Some(others) => ParseHeaderLines(lines) == Some(headers + others)
    {
      assert lines[i..][1..] == lines[i + 1..];
      var header := ParseHeaderLine(lines[i]);
      if header.None? {
        return Invalid;
      }
      assert forall others: seq<HeaderLine> :: headers + ([header.value] + others) == (headers + [header.value]) + others;
      headers := headers + [header.value];
    }
    assert headers + [] == headers;
    return Done(headers, terminator.value.after);
  }

  // Framing.

  const CONTENT_LENGTH: Bytes := Ascii("content-length")
  const TRANSFER_ENCODING: Bytes := Ascii("transfer-encoding")
  const CONTENT_ENCODING: Bytes := Ascii("content-encoding")
  const CHUNKED: Bytes := Ascii("chunked")
  const GZIP: Bytes := Ascii("gzip")
  const MAX_STR_DIGITS: nat := 4300          // where int() gives up with ValueError
  const MAX_REPEAT: nat := 4294967295        // where a pattern's repeat count raises OverflowError

  predicate IsLength(v: Bytes) {
    0 < |v| <= MAX_STR_DIGITS && forall i | 0 <= i < |v| :: IsDigit(v[i])
  }

  /** What the headers say about the body: the last Content-Length, and the two lists of codings. */
  datatype Framing = Framing(length: Option<nat>, transfer: seq<Bytes>, content: seq<Bytes>)

  function Coding(v: Bytes): Bytes {
    StripCommas(Lower(v))
  }

  function AddHeader(f: Framing, h: HeaderLine): (r: Option<Framing>) {
    var name := Lower(h.name);
    if name == CONTENT_LENGTH && !IsLength(h.value) then None
    else
      Some(Framing(if name == CONTENT_LENGTH then Some(FromDecimal(h.value)) else f.length,
                   if name == TRANSFER_ENCODING then f.transfer + [Coding(h.value)] else f.transfer,
                   if name == CONTENT_ENCODING then f.content + [Coding(h.value)] else f.content))
  }

  function FramingFrom(f: Framing, headers: seq<HeaderLine>): (r: Option<Framing>)
    decreases |headers|
  {
    if headers == [] then Some(f)
    else
      match AddHeader(f, headers[0])
      case None => None
      case Some(g) => FramingFrom(g, headers[1..])
  }

  function FramingOf(headers: seq<HeaderLine>): (r: Option<Framing>) {
    FramingFrom(Framing(None, [], []), headers)
  }

  // Bodies.

  /** Hexadecimal digits, anything up to the line end. */
  function ParseChunkHeader(s: Bytes): (r: Http<nat>)
    ensures r.Done? ==> |r.rest| < |s|
    ensures !r.Crash?
  {
    var n, end := HexRun(s), LineEnd(s);
    if n == 0 || end == |s| then Invalid else Done(FromHex(s[..n]), s[end + 1..])
  }

  /** A length that makes no pattern: writing more than MAX_STR_DIGITS digits raises ValueError, compiling so
      large a count OverflowError. */
  function Refusal(n: nat): (r: Http<Bytes>)
    ensures !r.Done?
  {
    if |Decimal(n)| > MAX_STR_DIGITS then Invalid else Crash
  }

  /** No length below MAX_REPEAT has so many digits. */
  lemma SmallLengthsAreWritten(n: nat)
    requires n < MAX_REPEAT
    ensures |Decimal(n)| <= 10
  {
    assert Pow10(10) > MAX_REPEAT by {
      assert Pow10(5) == 100000;
    }
    DecimalLength(n, 10);
  }

  /** Exactly `n` octets and a line end. */
  function TakeChunk(s: Bytes, n: nat): (r: Http<Bytes>)
    ensures r.Done? ==> |r.rest| <= |s|
  {
    if n >= MAX_REPEAT then Refusal(n)
    else if |s| >= n + 2 && s[n..n + 2] == CRLF then Done(s[..n], s[n + 2..])
    else Invalid
  }

  /** The chunk loop of parse_body as a function. */
  function ParseChunks(s: Bytes): (r: Http<Bytes>)
    ensures r.Done? ==> |r.rest| < |s|
    decreases |s|
  {
    var (length, rest) :- ParseChunkHeader(s);
    var (data, rest) :- TakeChunk(rest, length);
    if length == 0 then Done(data, rest)
    else
      var (others, rest) :- ParseChunks(rest);
      Done(data + others, rest)
  }

  /** The chunk loop of parse_body. */
  method ReadChunks(s: Bytes) returns (r: Http<Bytes>)
    ensures r == ParseChunks(s)
  {
    var body: Bytes := [];
    var rest := s;
    assert ParseChunks(s).Done? ==> [] + ParseChunks(s).value == ParseChunks(s).value;
    while true
      invariant ParseChunks(s) == match ParseChunks(rest)
                                  case Done(others, after) => Done(body + others, after)
                                  case Invalid => Invalid
                                  case Crash => Crash
      decreases |rest|
    {
      var header := ParseChunkHeader(rest);
      if !header.Done? {
        return Invalid;
      }
      var chunk := TakeChunk(header.rest, header.value);
      if chunk.Invalid? {
        return Invalid;
      }
      if chunk.Crash? {
        return Crash;
      }
      ghost var remaining := ParseChunks(chunk.rest);
      if header.value != 0 && remaining.Done? {
        Reassociate(body, chunk.value, remaining.value);
      }
      body := body + chunk.value;
      rest := chunk.rest;
      if header.value == 0 {
        return Done(body, rest);
      }
    }
  }

  /** parse_body. */
  function ParseBody(gunzip: Gunzip, headers: seq<HeaderLine>, rest: Bytes, isResponse: bool): (r: Http<Bytes>)
    ensures r.Done? ==> |r.rest| <= |rest|
  {
    var framing := FramingOf(headers);
    if framing.None? then Invalid
    else
      var f := framing.value;
      if isResponse && f.length.None? && CHUNKED !in f.transfer then Done(rest, [])
      else if CHUNKED in f.transfer then
        if GZIP in f.content then Invalid else ParseChunks(rest)
      else if f.length.Some? then
        var n := if f.length.value <= |rest| then f.length.value else |rest|;
        if GZIP in f.content then
          match gunzip(rest[..n])
          case None => Crash
          case Some(body) => Done(body, rest[n..])
        else Done(rest[..n], rest[n..])
      else Done([], rest)
  }

  // Requests.

  /** parse_request. */
  function ParseRequest(gunzip: Gunzip, raw: Bytes): (r: Http<Request>)
    ensures r.Done? ==> |r.rest| < |raw|
  {
    var (line, afterLine) :- ParseRequestLine(raw);
    var (headers, afterHeaders) :- HeadersOf(afterLine);
    var (body, rest) :- ParseBody(gunzip, headers, afterHeaders, false);
    Done(Request(line.method_, line.uri, headers, body, line.version), rest)
  }

  /** parse_request_stream as a function: the requests and what is left when one does not parse. */
  function ParseStream(gunzip: Gunzip, payload: Bytes): (r: Http<seq<Request>>)
    ensures !r.Invalid?
    decreases |payload|
  {
    if payload == [] then Done([], [])
    else
      match ParseRequest(gunzip, payload)
      case Invalid => Done([], payload)
      case Crash => Crash
      case Done(request, rest) =>
        var (others, left) :- ParseStream(gunzip, rest);
        Done([request] + others, left)
  }

  /** The result of a stream when `done` requests came before. */
  ghost function Ahead(done: seq<Request>, r: Http<seq<Request>>): Http<seq<Request>> {
    match r
    case Done(others, left) => Done(done + others, left)
    case Invalid => Invalid
    case Crash => Crash
  }

  lemma AheadTwice(a: seq<Request>, b: seq<Request>, r: Http<seq<Request>>)
    ensures Ahead(a, Ahead(b, r)) == Ahead(a + b, r)
    ensures Ahead([], r) == r
  {
    if r.Done? {
      assert a + (b + r.value) == (a + b) + r.value;
      assert [] + r.value == r.value;
    }
  }

  lemma StreamStep(gunzip: Gunzip, payload: Bytes)
    requires payload != [] && ParseRequest(gunzip, payload).Done?
    ensures ParseStream(gunzip, payload)
         == Ahead([ParseRequest(gunzip, payload).value], ParseStream(gunzip, ParseRequest(gunzip, payload).rest))
  {}

  /** parse_request_stream: each parsed request makes the payload strictly shorter. */
  method ParseRequestStream(gunzip: Gunzip, payload: Bytes) returns (r: Http<seq<Request>>)
    ensures r == ParseStream(gunzip, payload)
  {
    var requests: seq<Request> := [];
    var remaining := payload;
    AheadTwice([], [], ParseStream(gunzip, payload));
    while remaining != []
      invariant ParseStream(gunzip, payload) == Ahead(requests, ParseStream(gunzip, remaining))
      decreases |remaining|
    {
      var parsed := ParseRequest(gunzip, remaining);
      if parsed.Crash? {
        return Crash;
      }
      if parsed.Invalid? {
        break;
      }
      StreamStep(gunzip, remaining);
      AheadTwice(requests, [parsed.value], ParseStream(gunzip, parsed.rest));
      requests := requests + [parsed.value];
      remaining := parsed.rest;
    }
    assert requests + [] == requests;
    return Done(requests, remaining);
  }

  // What is left over.

  ghost predicate IsSuffix(s: Bytes, t: Bytes) {
    |s| <= |t| && s == t[|t| - |s|..]
  }

  lemma SuffixOfSuffix(a: Bytes, b: Bytes, c: Bytes)
    requires IsSuffix(b, a) && IsSuffix(c, b)
    ensures IsSuffix(c, a)
  {}

  lemma RunSuffix(s: Bytes, space: bool)
    requires TakeRun(s, space).Done?
    ensures IsSuffix(TakeRun(s, space).rest, s)
  {}

  lemma LineSuffix(raw: Bytes)
    requires ParseRequestLine(raw).Done?
    ensures IsSuffix(ParseRequestLine(raw).rest, raw)
  {
    var m := TakeRun(raw, false);
    var w := TakeRun(m.rest, true);
    var u := TakeRun(w.rest, false);
    var v := ParseVersion(m.value, u.value, u.rest);
    RunSuffix(raw, false);
    RunSuffix(m.rest, true);
    RunSuffix(w.rest, false);
    VersionSuffix(m.value, u.value, u.rest);
    SuffixOfSuffix(raw, m.rest, w.rest);
    SuffixOfSuffix(raw, w.rest, u.rest);
    SuffixOfSuffix(raw, u.rest, v.rest);
  }

  lemma VersionSuffix(method_: Bytes, uri: Bytes, s: Bytes)
    requires ParseVersion(method_, uri, s).Done?
    ensures IsSuffix(ParseVersion(method_, uri, s).rest, s)
  {}

  lemma HeadersSuffix(raw: Bytes)
    requires HeadersOf(raw).Done?
    ensures IsSuffix(HeadersOf(raw).rest, raw)
  {}

  lemma {:induction false} ChunksSuffix(s: Bytes)
    requires ParseChunks(s).Done?
    ensures IsSuffix(ParseChunks(s).rest, s)
    decreases |s|
  {
    var header := ParseChunkHeader(s);
    var chunk := TakeChunk(header.rest, header.value);
    SuffixOfSuffix(s, header.rest, chunk.rest);
    if header.value != 0 {
      ChunksSuffix(chunk.rest);
      SuffixOfSuffix(s, chunk.rest, ParseChunks(chunk.rest).rest);
    }
  }

  lemma BodySuffix(gunzip: Gunzip, headers: seq<HeaderLine>, rest: Bytes)
    requires ParseBody(gunzip, headers, rest, false).Done?
    ensures IsSuffix(ParseBody(gunzip, headers, rest, false).rest, rest)
  {
    if ParseChunks(rest).Done? {
      ChunksSuffix(rest);
    }
  }

  /** A parsed request takes a non-empty prefix of the input. */
  lemma RequestLeavesSuffix(gunzip: Gunzip, raw: Bytes)
    requires ParseRequest(gunzip, raw).Done?
    ensures IsSuffix(ParseRequest(gunzip, raw).rest, raw) && |ParseRequest(gunzip, raw).rest| < |raw|
  {
    var afterLine := ParseRequestLine(raw).rest;
    var headers := HeadersOf(afterLine);
    LineSuffix(raw);
    HeadersSuffix(afterLine);
    BodySuffix(gunzip, headers.value, headers.rest);
    SuffixOfSuffix(raw, afterLine, headers.rest);
    SuffixOfSuffix(raw, headers.rest, ParseBody(gunzip, headers.value, headers.rest, false).rest);
  }
}
