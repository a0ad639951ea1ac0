/** What header lines mean, told without the code's own reading of them, and requests that come back because of what
    their headers say. */
module Http1Meaning {
  import opened Wire
  import opened HttpText
  import opened Http1
  import opened Http1Print
  import opened Http1RoundTrip

  // Names and values.

  /** The same letter in either case, or the same octet. */
  predicate SameLetter(a: Byte, b: Byte) {
    a == b || (65 <= a <= 90 && b == a + 32) || (65 <= b <= 90 && a == b + 32)
  }

  /** `name` is in lower case; the header may be in any. */
  predicate IsNamed(h: HeaderLine, name: string) {
    |h.name| == |name| && forall i | 0 <= i < |name| :: SameLetter(h.name[i], name[i] as int % 256)
  }

  predicate InLowerCase(name: string) {
    forall i | 0 <= i < |name| :: name[i] as int < 256 && !(65 <= name[i] as int <= 90)
  }

  lemma LowerIsNamed(h: HeaderLine, name: string)
    requires InLowerCase(name)
    ensures Lower(h.name) == Ascii(name) <==> IsNamed(h, name)
  {
    if Lower(h.name) == Ascii(name) {
      forall i | 0 <= i < |name|
        ensures SameLetter(h.name[i], name[i] as int % 256)
      {
        assert Lower(h.name)[i] == Ascii(name)[i];
      }
    }
    if IsNamed(h, name) {
      forall i | 0 <= i < |name|
        ensures Lower(h.name)[i] == Ascii(name)[i]
      {
        assert SameLetter(h.name[i], name[i] as int % 256);
      }
    }
  }

  lemma NamesAreLower()
    ensures InLowerCase("content-length") && InLowerCase("transfer-encoding") && InLowerCase("content-encoding")
  {}

  /** The values of all headers of a name, in order. */
  function ValuesOf(headers: seq<HeaderLine>, name: string): (r: seq<Bytes>) {
    if headers == [] then []
    else if IsNamed(headers[0], name) then [headers[0].value] + ValuesOf(headers[1..], name)
    else ValuesOf(headers[1..], name)
  }

  /** A number that `int` reads: one to 4300 decimal digits. */
  predicate IsNumber(v: Bytes) {
    1 <= |v| <= 4300 && forall i | 0 <= i < |v| :: '0' as int <= v[i] <= '9' as int
  }

  predicate AllCommas(s: Bytes) {
    forall i | 0 <= i < |s| :: s[i] == ',' as int
  }

  /** A coding: the value in lower case without the commas at its ends. */
  ghost predicate IsCoding(v: Bytes, c: Bytes) {
    && (c != [] ==> c[0] != ',' as int && c[|c| - 1] != ',' as int)
    && exists a, b :: AllCommas(a) && AllCommas(b) && Lower(v) == a + (c + b)
  }

  lemma CommaBehind(a: Bytes, c: Bytes, b: Bytes)
    ensures (a + (c + b)) + [COMMA] == a + (c + (b + [COMMA]))
  {
    Reassociate(c, b, [COMMA]);
    Reassociate(a, c + b, [COMMA]);
  }

  lemma {:induction false} StrippedIsCoding(s: Bytes) returns (a: Bytes, b: Bytes)
    ensures var c := StripCommas(s);
            && (c != [] ==> c[0] != ',' as int && c[|c| - 1] != ',' as int)
            && AllCommas(a) && AllCommas(b) && s == a + (c + b)
    decreases |s|
  {
    if s != [] && s[0] == COMMA {
      a, b := StrippedIsCoding(s[1..]);
      assert s == [COMMA] + s[1..];
      Reassociate([COMMA], a, StripCommas(s) + b);
      a := [COMMA] + a;
    } else if s != [] && s[|s| - 1] == COMMA {
      a, b := StrippedIsCoding(s[..|s| - 1]);
      assert s == s[..|s| - 1] + [COMMA];
      CommaBehind(a, StripCommas(s), b);
      b := b + [COMMA];
    } else {
      a, b := [], [];
      assert s == [] + (s + []);
    }
  }

  lemma CodingIsCoding(v: Bytes)
    ensures IsCoding(v, Coding(v))
  {
    var a, b := StrippedIsCoding(Lower(v));
    assert Lower(v) == a + (Coding(v) + b);
  }

  /** The codings of some values, one by one. */
  ghost predicate AreCodings(values: seq<Bytes>, codings: seq<Bytes>) {
    |values| == |codings| && forall i | 0 <= i < |values| :: IsCoding(values[i], codings[i])
  }

  // What the headers say of a body.

  predicate AllNumbers(values: seq<Bytes>) {
    forall i | 0 <= i < |values| :: IsNumber(values[i])
  }

  /** The length that the last of some values announces. */
  function LastLength(values: seq<Bytes>): (r: Option<nat>)
    requires AllNumbers(values)
  {
    if values == [] then None
    else
      assert IsNumber(values[|values| - 1]);
      Some(FromDecimal(values[|values| - 1]))
  }

  /** A list of codings grows by those of some values. */
  ghost predicate Grows(before: seq<Bytes>, values: seq<Bytes>, after: seq<Bytes>) {
    before <= after && AreCodings(values, after[|before|..])
  }

  /** What some headers add to a framing. */
  ghost predicate Adds(f: Framing, headers: seq<HeaderLine>, g: Framing) {
    var lengths := ValuesOf(headers, "content-length");
    && AllNumbers(lengths)
    && g.length == (if lengths == [] then f.length else LastLength(lengths))
    && Grows(f.transfer, ValuesOf(headers, "transfer-encoding"), g.transfer)
    && Grows(f.content, ValuesOf(headers, "content-encoding"), g.content)
  }

  lemma NumbersAreLengths(v: Bytes)
    ensures IsLength(v) <==> IsNumber(v)
  {}

  lemma OneHeaderMeans(f: Framing, h: HeaderLine)
    ensures AddHeader(f, h).None? <==> IsNamed(h, "content-length") && !IsNumber(h.value)
    ensures AddHeader(f, h).Some? ==> AddHeader(f, h) == Some(Framing(
      if IsNamed(h, "content-length") && IsNumber(h.value) then Some(FromDecimal(h.value)) else f.length,
      if IsNamed(h, "transfer-encoding") then f.transfer + [Coding(h.value)] else f.transfer,
      if IsNamed(h, "content-encoding") then f.content + [Coding(h.value)] else f.content))
  {
    NamesAreLower();
    LowerIsNamed(h, "content-length");
    LowerIsNamed(h, "transfer-encoding");
    LowerIsNamed(h, "content-encoding");
    NumbersAreLengths(h.value);
  }

  lemma GrowsByNothing(before: seq<Bytes>)
    ensures Grows(before, [], before)
  {
    assert before[|before|..] == [];
  }

  lemma GrowsByOne(before: seq<Bytes>, v: Bytes, values: seq<Bytes>, after: seq<Bytes>)
    requires Grows(before + [Coding(v)], values, after)
    ensures Grows(before, [v] + values, after)
  {
    CodingIsCoding(v);
    assert after[|before|..] == [Coding(v)] + after[|before| + 1..];
  }

  /** The codings of one more header in front. */
  lemma GrowsOneMore(before: seq<Bytes>, headers: seq<HeaderLine>, name: string, after: seq<Bytes>)
    requires headers != []
    requires Grows(if IsNamed(headers[0], name) then before + [Coding(headers[0].value)] else before,
                   ValuesOf(headers[1..], name), after)
    ensures Grows(before, ValuesOf(headers, name), after)
  {
    if IsNamed(headers[0], name) {
      GrowsByOne(before, headers[0].value, ValuesOf(headers[1..], name), after);
    }
  }

  lemma {:induction false} HeadersAdd(f: Framing, headers: seq<HeaderLine>)
    ensures FramingFrom(f, headers).None? <==> !AllNumbers(ValuesOf(headers, "content-length"))
    ensures FramingFrom(f, headers).Some? ==> Adds(f, headers, FramingFrom(f, headers).value)
    decreases |headers|
  {
    if headers == [] {
      GrowsByNothing(f.transfer);
      GrowsByNothing(f.content);
    } else {
      var h := headers[0];
      OneHeaderMeans(f, h);
      LengthsUnfold(headers);
      var g := AddHeader(f, h);
      if g.Some? {
        HeadersAdd(g.value, headers[1..]);
        if FramingFrom(g.value, headers[1..]).Some? {
          AddsOneMore(f, h, g.value, headers, FramingFrom(g.value, headers[1..]).value);
        }
      }
    }
  }

  lemma LengthsUnfold(headers: seq<HeaderLine>)
    requires headers != []
    ensures var rest := ValuesOf(headers[1..], "content-length");
            && (IsNamed(headers[0], "content-length") ==>
                  (AllNumbers(ValuesOf(headers, "content-length")) <==> IsNumber(headers[0].value) && AllNumbers(rest)))
            && (!IsNamed(headers[0], "content-length") ==> ValuesOf(headers, "content-length") == rest)
  {
    var rest := ValuesOf(headers[1..], "content-length");
    var all := [headers[0].value] + rest;
    assert all[0] == headers[0].value && all[1..] == rest;
    assert forall i | 0 <= i < |rest| :: all[i + 1] == rest[i];
  }

  lemma AddsOneMore(f: Framing, h: HeaderLine, g: Framing, headers: seq<HeaderLine>, end: Framing)
    requires headers != [] && h == headers[0] && AddHeader(f, h) == Some(g) && Adds(g, headers[1..], end)
    ensures Adds(f, headers, end)
  {
    OneHeaderMeans(f, h);
    LengthsUnfold(headers);
    GrowsOneMore(f.transfer, headers, "transfer-encoding", end.transfer);
    GrowsOneMore(f.content, headers, "content-encoding", end.content);
  }

  /** The framing that headers say: it fails exactly if some Content-Length is no number; its length is that of the last
      one, and its codings are those of the two encoding headers, in order. Names may be in any letter case. */
  lemma FramingMeans(headers: seq<HeaderLine>)
    ensures FramingOf(headers).None? <==> !AllNumbers(ValuesOf(headers, "content-length"))
    ensures FramingOf(headers).Some? ==>
              var f := FramingOf(headers).value;
              && AllNumbers(ValuesOf(headers, "content-length"))
              && f.length == LastLength(ValuesOf(headers, "content-length"))
              && AreCodings(ValuesOf(headers, "transfer-encoding"), f.transfer)
              && AreCodings(ValuesOf(headers, "content-encoding"), f.content)
  {
    HeadersAdd(Framing(None, [], []), headers);
    if FramingOf(headers).Some? {
      var f := FramingOf(headers).value;
      assert f.transfer[0..] == f.transfer && f.content[0..] == f.content;
    }
  }

  // The body that headers announce.

  /** Some value of a header is, without commas and in lower case, this coding. */
  ghost predicate HasCoding(headers: seq<HeaderLine>, name: string, coding: string) {
    exists i | 0 <= i < |ValuesOf(headers, name)| :: IsCoding(ValuesOf(headers, name)[i], Ascii(coding))
  }

  /** A value has one coding. */
  lemma CodingIsUnique(v: Bytes, c: Bytes, d: Bytes)
    requires IsCoding(v, c) && IsCoding(v, d) && c != []
    ensures c == d
  {
    var a, b :| AllCommas(a) && AllCommas(b) && Lower(v) == a + (c + b);
    var e, f :| AllCommas(e) && AllCommas(f) && Lower(v) == e + (d + f);
    OneMiddle(a, c, b, e, d, f);
  }

  lemma OneMiddle(a: Bytes, c: Bytes, b: Bytes, e: Bytes, d: Bytes, f: Bytes)
    requires AllCommas(a) && AllCommas(b) && AllCommas(e) && AllCommas(f)
    requires c != [] && c[0] != ',' as int && c[|c| - 1] != ',' as int
    requires d != [] ==> d[0] != ',' as int && d[|d| - 1] != ',' as int
    requires a + (c + b) == e + (d + f)
    ensures c == d
  {
    var s := a + (c + b);
    var t := e + (d + f);
    assert s[|a|] == c[0] && s[|a| + |c| - 1] == c[|c| - 1];
    CommasAround(e, d, f, |a|);
    CommasAround(e, d, f, |a| + |c| - 1);
    assert t[|e|] == d[0] && t[|e| + |d| - 1] == d[|d| - 1];
    CommasAround(a, c, b, |e|);
    CommasAround(a, c, b, |e| + |d| - 1);
    assert s[|a|..|a| + |c|] == c && t[|e|..|e| + |d|] == d;
  }

  /** Outside the middle there are commas. */
  lemma CommasAround(a: Bytes, c: Bytes, b: Bytes, i: nat)
    requires AllCommas(a) && AllCommas(b) && i < |a + (c + b)|
    ensures i < |a| || i >= |a| + |c| ==> (a + (c + b))[i] == ',' as int
  {
    if i < |a| {
      assert (a + (c + b))[i] == a[i];
    } else if i >= |a| + |c| {
      assert (a + (c + b))[i] == b[i - |a| - |c|];
    }
  }

  lemma CodingIsListed(values: seq<Bytes>, codings: seq<Bytes>, c: Bytes)
    requires AreCodings(values, codings) && c != []
    ensures c in codings <==> exists i | 0 <= i < |values| :: IsCoding(values[i], c)
  {
    if c in codings {
      var i :| 0 <= i < |codings| && codings[i] == c;
      assert IsCoding(values[i], c);
    }
    if i :| 0 <= i < |values| && IsCoding(values[i], c) {
      CodingIsUnique(values[i], c, codings[i]);
    }
  }

  /** The body, told by the headers alone: a Content-Length that is no number is refused; chunks come before a length,
      but not compressed; the last length counts octets, as many as there are; and otherwise a response takes
      everything and a request nothing. */
  lemma BodyMeans(gunzip: Gunzip, headers: seq<HeaderLine>, rest: Bytes, isResponse: bool)
    ensures var lengths := ValuesOf(headers, "content-length");
            var chunked, gzip := HasCoding(headers, "transfer-encoding", "chunked"), HasCoding(headers, "content-encoding", "gzip");
            ParseBody(gunzip, headers, rest, isResponse)
            == if !AllNumbers(lengths) then Invalid
               else if isResponse && lengths == [] && !chunked then Done(rest, [])
               else if chunked then (if gzip then Invalid else ParseChunks(rest))
               else if lengths == [] then Done([], rest)
               else
                 var n := if LastLength(lengths).value <= |rest| then LastLength(lengths).value else |rest|;
                 if !gzip then Done(rest[..n], rest[n..])
                 else if gunzip(rest[..n]) == None then Crash
                 else Done(gunzip(rest[..n]).value, rest[n..])
  {
    FramingMeans(headers);
    if FramingOf(headers).Some? {
      var f := FramingOf(headers).value;
      assert CHUNKED != [] && GZIP != [];
      CodingIsListed(ValuesOf(headers, "transfer-encoding"), f.transfer, CHUNKED);
      CodingIsListed(ValuesOf(headers, "content-encoding"), f.content, GZIP);
    }
  }

  // Requests that come back because of what their headers say.

  lemma {:induction false} NoTransferEncoding(headers: seq<HeaderLine>)
    ensures ValuesOf(headers, "transfer-encoding") == []
       <==> forall i | 0 <= i < |headers| :: Lower(headers[i].name) != TRANSFER_ENCODING
  {
    if headers != [] {
      NamesAreLower();
      LowerIsNamed(headers[0], "transfer-encoding");
      NoTransferEncoding(headers[1..]);
      assert headers == [headers[0]] + headers[1..];
    }
  }

  /** One Content-Length, the number of octets of the body, and no encodings. */
  predicate IsCounted(r: Request) {
    && ValuesOf(r.headers, "content-length") == [Decimal(|r.body|)] && |Decimal(|r.body|)| <= 4300
    && ValuesOf(r.headers, "transfer-encoding") == []
    && ValuesOf(r.headers, "content-encoding") == []
  }

  /** One `Transfer-Encoding: chunked`, in any letter case, printed without trailer in chunks that can be counted. */
  predicate IsPlainlyChunked(r: Request, c: Choices) {
    && AllNumbers(ValuesOf(r.headers, "content-length"))
    && |ValuesOf(r.headers, "transfer-encoding")| == 1
    && Lower(ValuesOf(r.headers, "transfer-encoding")[0]) == Ascii("chunked")
    && ValuesOf(r.headers, "content-encoding") == []
    && (r.body != [] ==> Fits(c, r.body) && !c.trailer && AllSmall(Pieces(r.body, 0, c.cuts)))
  }

  /** No body and no header that announces one. */
  predicate IsBodyless(r: Request) {
    && r.body == []
    && ValuesOf(r.headers, "content-length") == []
    && ValuesOf(r.headers, "transfer-encoding") == []
  }

  lemma CountedIsWellFormed(gunzip: Gunzip, r: Request, c: Choices)
    requires GoodLines(r) && IsCounted(r)
    ensures WellFormed(gunzip, r, c)
  {
    FramingMeans(r.headers);
    NoTransferEncoding(r.headers);
    DecimalReadsBack(|r.body|);
  }

  lemma BodylessIsWellFormed(gunzip: Gunzip, r: Request, c: Choices)
    requires GoodLines(r) && IsBodyless(r)
    ensures WellFormed(gunzip, r, c)
  {
    FramingMeans(r.headers);
    NoTransferEncoding(r.headers);
  }

  /** A coding of "chunked" is "chunked". */
  lemma ChunkedCoding(v: Bytes, c: Bytes)
    requires Lower(v) == Ascii("chunked") && IsCoding(v, c)
    ensures c == CHUNKED
  {
    var a, b :| AllCommas(a) && AllCommas(b) && Lower(v) == a + (c + b);
    NothingToStrip(a, c, b);
  }

  lemma NothingToStrip(a: Bytes, c: Bytes, b: Bytes)
    requires AllCommas(a) && AllCommas(b)
    ensures var s := a + (c + b); s != [] && s[0] != ',' as int && s[|s| - 1] != ',' as int ==> s == c
  {
    var s := a + (c + b);
    assert a != [] ==> s[0] == a[0];
    assert b != [] ==> s[|s| - 1] == b[|b| - 1];
    assert a == [] && b == [] ==> s == c;
  }

  lemma ChunkedIsWellFormed(gunzip: Gunzip, r: Request, c: Choices)
    requires GoodLines(r) && IsPlainlyChunked(r, c)
    ensures WellFormed(gunzip, r, c)
  {
    FramingMeans(r.headers);
    var f := FramingOf(r.headers).value;
    ChunkedCoding(ValuesOf(r.headers, "transfer-encoding")[0], f.transfer[0]);
    assert CHUNKED in f.transfer;
  }

  predicate IsPlain(r: Request, c: Choices) {
    GoodLines(r) && (IsCounted(r) || IsPlainlyChunked(r, c) || IsBodyless(r))
  }

  /** Such a request comes back, in front of anything. */
  lemma PlainRequestComesBack(gunzip: Gunzip, r: Request, c: Choices, rest: Bytes)
    requires IsPlain(r, c)
    ensures WellFormed(gunzip, r, c) && ParseRequest(gunzip, Unparse(r, c) + rest) == Done(r, rest)
  {
    if IsCounted(r) {
      CountedIsWellFormed(gunzip, r, c);
    } else if IsBodyless(r) {
      BodylessIsWellFormed(gunzip, r, c);
    } else {
      ChunkedIsWellFormed(gunzip, r, c);
    }
    RequestRoundTrip(gunzip, r, c, rest);
  }

  /** And so does any list of them. */
  lemma PlainStreamComesBack(gunzip: Gunzip, requests: seq<Request>, choices: seq<Choices>)
    requires |choices| == |requests| && forall i | 0 <= i < |requests| :: IsPlain(requests[i], choices[i])
    ensures AllWellFormed(gunzip, requests, choices)
    ensures ParseStream(gunzip, StreamBytes(gunzip, requests, choices)) == Done(requests, [])
  {
    forall i | 0 <= i < |requests|
      ensures WellFormed(gunzip, requests[i], choices[i])
    {
      PlainRequestComesBack(gunzip, requests[i], choices[i], []);
    }
    StreamRoundTrip(gunzip, requests, choices);
  }

  // The text.

  lemma Punctuation()
    ensures CRLF == Ascii("\r\n") && [SP] == Ascii(" ") && [COLON] + [SP] == Ascii(": ") && HTTP_SLASH == Ascii("HTTP/")
    ensures LAST_CHUNK == Ascii("0\r\n") && EXTENSION == Ascii(";abc=123") && V09 == Ascii("0.9")
  {}

  /** White space is tab, line feed, vertical tab, form feed, carriage return, and space. */
  lemma WhiteSpace(b: Byte)
    ensures IsSpace(b) <==> b == '\t' as int || b == '\n' as int || b == 11 || b == 12 || b == '\r' as int || b == ' ' as int
  {}

  function HeaderText(headers: seq<HeaderLine>): (r: Bytes) {
    if headers == [] then []
    else headers[0].name + Ascii(": ") + headers[0].value + Ascii("\r\n") + HeaderText(headers[1..])
  }

  lemma {:induction false} HeadersAreText(headers: seq<HeaderLine>)
    ensures HeadersBytes(headers) == HeaderText(headers)
  {
    if headers != [] {
      Punctuation();
      HeadersAreText(headers[1..]);
      var n, v := headers[0].name, headers[0].value;
      Reassociate([COLON], [SP], v);
      Reassociate(n, [COLON] + [SP], v);
      Reassociate(HeaderBytes(headers[0]), CRLF, HeadersBytes(headers[1..]));
    }
  }

  /** A printed request, as the text it is. */
  lemma RequestIsText(r: Request, c: Choices)
    requires Possible(r, c)
    ensures Unparse(r, c)
         == (r.method_ + Ascii(" ") + r.uri + Ascii(" ") + Ascii("HTTP/") + r.version + Ascii("\r\n"))
            + (HeaderText(r.headers) + Ascii("\r\n") + if IsChunked(r) then Chunked(r.body, c) else r.body)
  {
    Punctuation();
    HeadersAreText(r.headers);
    LineRegroups(r, HeadersBytes(r.headers) + (CRLF + BodyBytes(r, c)));
    LineIsText(r.method_, r.uri, r.version);
    Reassociate(LineBytes(r), CRLF, HeadersBytes(r.headers) + (CRLF + BodyBytes(r, c)));
    Reassociate(HeadersBytes(r.headers), CRLF, BodyBytes(r, c));
  }

  lemma LineIsText(m: Bytes, u: Bytes, v: Bytes)
    ensures m + ([SP] + (u + ([SP] + (HTTP_SLASH + v)))) == m + [SP] + u + [SP] + HTTP_SLASH + v
  {
    Reassociate([SP], HTTP_SLASH, v);
    Reassociate(u, [SP] + HTTP_SLASH, v);
    Reassociate(u, [SP], HTTP_SLASH);
    Reassociate([SP], u + [SP] + HTTP_SLASH, v);
    Reassociate(m, [SP] + (u + [SP] + HTTP_SLASH), v);
    Reassociate([SP], u + [SP], HTTP_SLASH);
    Reassociate(m, [SP] + (u + [SP]), HTTP_SLASH);
    Reassociate([SP], u, [SP]);
    Reassociate(m, [SP] + u, [SP]);
    Reassociate(m, [SP], u);
  }

  // What the parser takes and the printer never makes.

  predicate AllBlank(s: Bytes) {
    forall i | 0 <= i < |s| :: s[i] == ' ' as int || s[i] == '\t' as int
  }

  lemma {:induction false} LeftBlanks(left: Bytes, s: Bytes)
    requires AllBlank(left) && (s == [] || !IsBlank(s[0]))
    ensures TrimLeft(left + s) == s
  {
    if left == [] {
      assert [] + s == s;
    } else {
      assert (left + s)[1..] == left[1..] + s;
      LeftBlanks(left[1..], s);
    }
  }

  lemma {:induction false} RightBlanks(s: Bytes, right: Bytes)
    requires AllBlank(right) && (s == [] || !IsBlank(s[|s| - 1]))
    ensures TrimRight(s + right) == s
  {
    if right == [] {
      assert s + [] == s;
    } else {
      var all := s + right;
      assert all[..|all| - 1] == s + right[..|right| - 1] && all[|all| - 1] == right[|right| - 1];
      RightBlanks(s, right[..|right| - 1]);
    }
  }

  lemma OnlyBlanks(left: Bytes, right: Bytes)
    requires AllBlank(left) && AllBlank(right)
    ensures TrimRight(TrimLeft(left + right)) == []
  {
    assert left + right == (left + right) + [];
    LeftBlanks(left + right, []);
  }

  /** Blanks around a value are no part of it. */
  lemma BlanksAreTrimmed(h: HeaderLine, left: Bytes, right: Bytes)
    requires GoodHeader(h) && AllBlank(left) && AllBlank(right)
    ensures ParseHeaderLine(h.name + ([COLON] + (left + (h.value + right)))) == Some(h)
  {
    var line := h.name + ([COLON] + (left + (h.value + right)));
    ColonAt(h.name, left + (h.value + right));
    if h.value == [] {
      assert [] + right == right;
      OnlyBlanks(left, right);
    } else {
      LeftBlanks(left, h.value + right);
      RightBlanks(h.value, right);
    }
  }

  lemma {:induction false} ColonAt(name: Bytes, rest: Bytes)
    requires forall i | 0 <= i < |name| :: name[i] != COLON
    ensures var line := name + ([COLON] + rest);
            FirstColon(line) == |name| && line[..|name|] == name && line[|name| + 1..] == rest
  {
    var line := name + ([COLON] + rest);
    if name != [] {
      assert line[1..] == name[1..] + ([COLON] + rest);
      ColonAt(name[1..], rest);
    }
  }

  /** A request line without a version is of version 0.9. */
  lemma NoVersion(method_: Bytes, uri: Bytes, rest: Bytes)
    requires Word(method_) && Word(uri) && rest != [] && !IsSpace(rest[0]) && !(Ascii("HTTP/") <= rest)
    ensures ParseRequestLine(method_ + ([SP] + (uri + (CRLF + rest)))) == Done(RequestLine(method_, uri, Ascii("0.9")), rest)
  {
    Punctuation();
    TakeWord(method_, [SP] + (uri + (CRLF + rest)));
    TakeSpace(uri, CRLF + rest);
    TakeWord(uri, CRLF + rest);
    NoVersionHere(method_, uri, rest);
  }

  lemma NoVersionHere(method_: Bytes, uri: Bytes, rest: Bytes)
    requires rest != [] && !IsSpace(rest[0]) && !(HTTP_SLASH <= rest)
    ensures ParseVersion(method_, uri, CRLF + rest) == Done(RequestLine(method_, uri, V09), rest)
  {
    RunStops(CRLF, true, rest);
    var s := CRLF + rest;
    assert s[2..] == rest && s[..2] == CRLF;
    assert LastLineFeed(CRLF) == 2;
  }

  /** Hexadecimal digits, in both cases. */
  lemma HexLetters(i: nat)
    requires i < 16
    ensures i < 10 ==> HexValue('0' as int + i) == i
    ensures i >= 10 ==> HexValue('a' as int + i - 10) == i && HexValue('A' as int + i - 10) == i
    ensures HexDigit(i) == if i < 10 then '0' as int + i else 'a' as int + i - 10
  {}

  /** A number and its digits. */
  lemma DecimalDigits()
    ensures Decimal(90210) == Ascii("90210")
  {
    assert Decimal(902) == [57, 48, 50];
  }

  /** Five octets of `hello`, counted by a capitalised header, and no more. */
  lemma HelloIsFive(gunzip: Gunzip, rest: Bytes)
    ensures ParseBody(gunzip, [HeaderLine(Ascii("Content-Length"), Ascii("5"))], Ascii("hello") + rest, false) == Done(Ascii("hello"), rest)
  {
    var h := HeaderLine(Ascii("Content-Length"), Ascii("5"));
    OneLengthNamed(h);
    FramingMeans([h]);
    assert (Ascii("hello") + rest)[..5] == Ascii("hello") && (Ascii("hello") + rest)[5..] == rest;
  }

  lemma OneLengthNamed(h: HeaderLine)
    requires h == HeaderLine(Ascii("Content-Length"), Ascii("5"))
    ensures ValuesOf([h], "content-length") == [Ascii("5")] && IsNumber(Ascii("5")) && FromDecimal(Ascii("5")) == 5
    ensures ValuesOf([h], "transfer-encoding") == [] && ValuesOf([h], "content-encoding") == []
  {
    assert [h][1..] == [];
    assert IsNamed(h, "content-length") && |h.name| == 14;
    assert Ascii("5") == [53];
    assert [53][..0] == [];
  }

  predicate AllSpace(s: Bytes) {
    s != [] && forall i | 0 <= i < |s| :: (9 <= s[i] <= 13 || s[i] == 32)
  }

  /** Any white space separates the words of a request line, and a bare line feed may end it. */
  lemma LooseRequestLine(m: Bytes, s1: Bytes, u: Bytes, s2: Bytes, v: Bytes, end: Bytes, rest: Bytes)
    requires Word(m) && Word(u) && Word(v) && AllSpace(s1) && AllSpace(s2) && (end == Ascii("\r\n") || end == Ascii("\n"))
    ensures ParseRequestLine(m + (s1 + (u + (s2 + (Ascii("HTTP/") + (v + (end + rest))))))) == Done(RequestLine(m, u, v), rest)
  {
    Punctuation();
    assert Ascii("\n") == [LF];
    var afterUri := s2 + (HTTP_SLASH + (v + (end + rest)));
    TakeWord(m, s1 + (u + afterUri));
    TakeSpaces(s1, u + afterUri);
    TakeWord(u, afterUri);
    LooseVersion(m, u, s2, v, end, rest);
  }

  lemma TakeSpaces(space: Bytes, rest: Bytes)
    requires AllSpace(space) && rest != [] && !IsSpace(rest[0])
    ensures Run(space + rest, true) == |space| && TakeRun(space + rest, true) == Done(space, rest)
  {
    RunStops(space, true, rest);
    assert (space + rest)[..|space|] == space && (space + rest)[|space|..] == rest;
  }

  lemma Slices(a: Bytes, b: Bytes, c: Bytes, d: Bytes)
    ensures var s := a + (b + (c + d)); var i := |a| + |b|;
            s[|a|..] == b + (c + d) && s[i..] == c + d && s[i..i + |c|] == c && s[i + |c|..] == d
  {
    var s := a + (b + (c + d));
    assert s[|a|..] == b + (c + d);
    assert s[|a| + |b|..] == c + d;
  }

  lemma VersionAt(m: Bytes, u: Bytes, s: Bytes, x: nat, v: Bytes, tail: Bytes)
    requires 0 < x == Run(s, true) && HTTP_SLASH <= s[x..]
    requires v != [] && Run(s[x + 5..], false) == |v|
    requires s[x + 5..x + 5 + |v|] == v && s[x + 5 + |v|..] == tail && Newline(tail) > 0
    ensures ParseVersion(m, u, s) == Done(RequestLine(m, u, v), tail[Newline(tail)..])
  {
    var n := x + 5 + |v|;
    assert s[n + Newline(tail)..] == tail[Newline(tail)..];
  }

  lemma LooseVersion(m: Bytes, u: Bytes, space: Bytes, v: Bytes, end: Bytes, rest: Bytes)
    requires Word(v) && AllSpace(space) && (end == CRLF || end == [LF])
    ensures ParseVersion(m, u, space + (HTTP_SLASH + (v + (end + rest)))) == Done(RequestLine(m, u, v), rest)
  {
    var tail := end + rest;
    var s := space + (HTTP_SLASH + (v + tail));
    TakeSpaces(space, HTTP_SLASH + (v + tail));
    WordThenSpace(v, tail);
    Slices(space, HTTP_SLASH, v, tail);
    LineEndTaken(end, rest);
    assert HTTP_SLASH <= s[|space|..];
    VersionAt(m, u, s, |space|, v, tail);
  }

  lemma LineEndTaken(end: Bytes, rest: Bytes)
    requires end == CRLF || end == [LF]
    ensures Newline(end + rest) == |end| && (end + rest)[|end|..] == rest && IsSpace((end + rest)[0])
  {}

  lemma HeadersFrom(raw: Bytes, before: Bytes, after: Bytes, headers: seq<HeaderLine>)
    requires !(CRLF <= raw) && UntilBlankLine(raw) == Some(Around(before, after))
    requires ParseHeaderLines(SplitLines(before)) == Some(headers)
    ensures HeadersOf(raw) == Done(headers, after)
  {}

  lemma OneHeaderLine(h: HeaderLine)
    requires GoodHeader(h)
    ensures ParseHeaderLines([HeaderBytes(h)]) == Some([h])
  {
    HeaderParses(h);
    assert [HeaderBytes(h)][1..] == [] && [h] + [] == [h];
    assert ParseHeaderLines([]) == Some([]);
  }

  /** A bare line feed ends a header line, and two end the headers. */
  lemma BareLineFeeds(h: HeaderLine, rest: Bytes)
    requires GoodHeader(h) && HeaderBytes(h)[|HeaderBytes(h)| - 1] != CR
    ensures HeadersOf(HeaderBytes(h) + ([LF] + ([LF] + rest))) == Done([h], rest)
  {
    var line := HeaderBytes(h);
    HeaderIsOneLine(h);
    TwoLineFeeds(line, rest);
    SplitOneLine(line);
    OneHeaderLine(h);
    NoLineEndFirst(line, rest);
    HeadersFrom(line + ([LF] + ([LF] + rest)), line, rest, [h]);
  }

  lemma NoLineEndFirst(line: Bytes, rest: Bytes)
    requires OneLine(line) && line != [] && line[|line| - 1] != CR
    ensures !(CRLF <= line + ([LF] + ([LF] + rest))) && Newline(line + ([LF] + ([LF] + rest))) == 0
  {
    var s := line + ([LF] + ([LF] + rest));
    assert s[0] == line[0];
    assert |line| > 1 ==> s[1] == line[1];
  }

  lemma {:induction false} TwoLineFeeds(line: Bytes, rest: Bytes)
    requires OneLine(line) && (line != [] ==> line[|line| - 1] != CR)
    ensures UntilBlankLine(line + ([LF] + ([LF] + rest))) == Some(Around(line, rest))
  {
    var tail := [LF] + ([LF] + rest);
    if line == [] {
      assert [] + tail == tail && tail[1..] == [LF] + rest && tail[2..] == rest;
      assert Newline(tail) == 1 && Newline([LF] + rest) == 1;
    } else {
      NoLineEndFirst(line, rest);
      Reassociate([line[0]], line[1..], tail);
      assert line == [line[0]] + line[1..];
      SearchMovesOn(line[0], line[1..] + tail);
      TwoLineFeeds(line[1..], rest);
    }
  }
}
