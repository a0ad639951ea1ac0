/** What the echo server answers over a whole connection. */
module EchoRuns {
  import opened Wire
  import opened H2Generic
  import opened H2Frame
  import opened H2RoundTrip
  import opened HpackString
  import opened HpackField
  import opened StaticTable
  import opened EchoServer
  import HpackState

  // Arrivals, told without the connection's own dictionary.

  predicate IsLogged(f: WireFrame) {
    f.typ !in {PRIORITY, RST_STREAM, PING, GOAWAY, WINDOW_UPDATE}
  }

  /** The frames for which respond_and_close_stream is called. */
  predicate Triggers(f: WireFrame) {
    f.flags.endStreamOrAck && (f.typ == DATA || (f.typ == HEADERS && f.flags.endHeaders))
  }

  predicate Closes(f: WireFrame, stream: nat) {
    f.streamId == stream && (f.typ == RST_STREAM || Triggers(f))
  }

  /** Every logged frame of a connection, in order of arrival. */
  function Arrivals(first: nat, frames: seq<WireFrame>): (r: seq<Logged>) {
    if frames == [] then []
    else
      var earlier, last := Arrivals(first, frames[..|frames| - 1]), frames[|frames| - 1];
      if IsLogged(last) then earlier + [Logged(first + |earlier|, last)] else earlier
  }

  /** The counter when a stream was last closed. */
  function ClosedAt(first: nat, frames: seq<WireFrame>, stream: nat): (r: nat) {
    if frames == [] then first
    else if Closes(frames[|frames| - 1], stream) then first + |Arrivals(first, frames)|
    else ClosedAt(first, frames[..|frames| - 1], stream)
  }

  predicate IsFor(l: Logged, stream: nat, since: nat) {
    l.frame.streamId == stream && l.counter >= since
  }

  /** The part of a log that belongs to a stream since some counter. */
  function Of(log: seq<Logged>, stream: nat, since: nat): (r: seq<Logged>) {
    if log == [] then []
    else
      var earlier, last := Of(log[..|log| - 1], stream, since), log[|log| - 1];
      if IsFor(last, stream, since) then earlier + [last] else earlier
  }

  /** The same for two streams at once, in the order of the log. */
  function OfBoth(log: seq<Logged>, a: nat, sinceA: nat, b: nat, sinceB: nat): (r: seq<Logged>) {
    if log == [] then []
    else
      var earlier, last := OfBoth(log[..|log| - 1], a, sinceA, b, sinceB), log[|log| - 1];
      if IsFor(last, a, sinceA) || IsFor(last, b, sinceB) then earlier + [last] else earlier
  }

  // Counters.

  ghost predicate Increasing(log: seq<Logged>) {
    forall i, j | 0 <= i < j < |log| :: log[i].counter < log[j].counter
  }

  lemma {:induction false} ArrivalsCount(first: nat, frames: seq<WireFrame>)
    ensures forall i | 0 <= i < |Arrivals(first, frames)| :: Arrivals(first, frames)[i].counter == first + i
    ensures Increasing(Arrivals(first, frames))
  {
    if frames != [] {
      ArrivalsCount(first, frames[..|frames| - 1]);
    }
  }

  lemma {:induction false} ClosedInThePast(first: nat, frames: seq<WireFrame>, stream: nat)
    ensures first <= ClosedAt(first, frames, stream) <= first + |Arrivals(first, frames)|
  {
    if frames != [] {
      ClosedInThePast(first, frames[..|frames| - 1], stream);
    }
  }

  /** Nothing is left of a stream when the whole log lies before the cut. */
  lemma {:induction false} OfTheFuture(log: seq<Logged>, stream: nat, since: nat)
    requires forall i | 0 <= i < |log| :: log[i].counter < since
    ensures Of(log, stream, since) == []
  {
    if log != [] {
      OfTheFuture(log[..|log| - 1], stream, since);
    }
  }

  // The dictionary is exactly the arrivals since the last close.

  function Fresh(first: nat): Conn {
    Conn(first, map[], {}, [])
  }

  lemma {:induction false} HandleAllConcat(code: Table, c: Conn, a: seq<WireFrame>, b: seq<WireFrame>)
    ensures HandleAll(code, c, a + b)
         == if HandleAll(code, c, a).status.Running? then HandleAll(code, HandleAll(code, c, a).conn, b)
            else HandleAll(code, c, a)
    decreases |a|
  {
    if a == [] {
      assert a + b == b;
    } else {
      assert (a + b)[1..] == a[1..] + b;
      var first := Handle(code, c, a[0]);
      if first.status.Running? {
        HandleAllConcat(code, first.conn, a[1..], b);
      }
    }
  }

  lemma HandleAllSnoc(code: Table, c: Conn, frames: seq<WireFrame>, f: WireFrame)
    ensures HandleAll(code, c, frames + [f])
         == if HandleAll(code, c, frames).status.Running? then Handle(code, HandleAll(code, c, frames).conn, f)
            else HandleAll(code, c, frames)
  {
    HandleAllConcat(code, c, frames, [f]);
    var next := Handle(code, HandleAll(code, c, frames).conn, f);
    assert [f][1..] == [];
    assert next.status.Running? ==> HandleAll(code, next.conn, []) == next;
  }

  /** What the connection holds for a stream, compared with the arrivals. */
  ghost predicate Tracks(c: Conn, first: nat, frames: seq<WireFrame>) {
    && c.counter == first + |Arrivals(first, frames)|
    && (forall s :: LogOf(c, s) == Of(Arrivals(first, frames), s, ClosedAt(first, frames, s)))
    && (forall s | s in c.collected :: c.collected[s] != [])
  }

  lemma CollectTracks(c: Conn, first: nat, frames: seq<WireFrame>, f: WireFrame, s: nat)
    requires Tracks(c, first, frames) && IsLogged(f)
    ensures var arrivals := Arrivals(first, frames + [f]);
            && arrivals == Arrivals(first, frames) + [Logged(c.counter, f)]
            && LogOf(Collect(c, f), s) == Of(arrivals, s, ClosedAt(first, frames, s))
  {
    var all := frames + [f];
    assert all[..|all| - 1] == frames;
    var arrivals := Arrivals(first, all);
    assert arrivals[..|arrivals| - 1] == Arrivals(first, frames);
    ClosedInThePast(first, frames, s);
  }

  /** What one step does to the logs: collect, and forget a stream that closes. */
  lemma HandleShape(code: Table, c: Conn, f: WireFrame)
    requires Handle(code, c, f).status.Running?
    ensures var collected, next := if IsLogged(f) then Collect(c, f) else c, Handle(code, c, f).conn;
            && next.counter == collected.counter
            && next.collected == if f.typ == RST_STREAM || Triggers(f) then collected.collected - {f.streamId} else collected.collected
  {}

  /** One step keeps the correspondence. */
  lemma HandleTracks(code: Table, c: Conn, first: nat, frames: seq<WireFrame>, f: WireFrame)
    requires Tracks(c, first, frames) && Handle(code, c, f).status.Running?
    ensures Tracks(Handle(code, c, f).conn, first, frames + [f])
  {
    HandleShape(code, c, f);
    StepTracks(c, if IsLogged(f) then Collect(c, f) else c, Handle(code, c, f).conn, first, frames, f);
  }

  lemma StepTracks(c: Conn, collected: Conn, next: Conn, first: nat, frames: seq<WireFrame>, f: WireFrame)
    requires Tracks(c, first, frames)
    requires collected == if IsLogged(f) then Collect(c, f) else c
    requires next.counter == collected.counter
    requires next.collected == if f.typ == RST_STREAM || Triggers(f) then collected.collected - {f.streamId} else collected.collected
    ensures Tracks(next, first, frames + [f])
  {
    var all := frames + [f];
    assert all[..|all| - 1] == frames && all[|all| - 1] == f;
    ArrivalsCount(first, all);
    forall s
      ensures LogOf(next, s) == Of(Arrivals(first, all), s, ClosedAt(first, all, s))
    {
      if IsLogged(f) {
        CollectTracks(c, first, frames, f, s);
      }
      if Closes(f, s) {
        OfTheFuture(Arrivals(first, all), s, ClosedAt(first, all, s));
      }
    }
  }

  lemma FreshTracks(first: nat)
    ensures Tracks(Fresh(first), first, [])
  {}

  lemma {:induction false} ConnectionTracks(code: Table, first: nat, frames: seq<WireFrame>)
    requires HandleAll(code, Fresh(first), frames).status.Running?
    ensures Tracks(HandleAll(code, Fresh(first), frames).conn, first, frames)
    decreases |frames|
  {
    if frames == [] {
      FreshTracks(first);
    } else {
      var earlier, last := frames[..|frames| - 1], frames[|frames| - 1];
      assert frames == earlier + [last];
      HandleAllSnoc(code, Fresh(first), earlier, last);
      ConnectionTracks(code, first, earlier);
      HandleTracks(code, HandleAll(code, Fresh(first), earlier).conn, first, earlier, last);
    }
  }

  // Sorting two logs is merging them.

  ghost predicate Ascending(log: seq<Logged>) {
    forall i, j | 0 <= i < j < |log| :: log[i].counter <= log[j].counter
  }

  lemma LargestLast(init: seq<Logged>, l: Logged, r: seq<Logged>, last: Logged)
    requires Ascending(init + [last]) && Ascending(r) && l.counter <= last.counter
    requires multiset(r) == multiset(init) + multiset{l}
    ensures Ascending(r + [last])
  {
    forall i | 0 <= i < |r|
      ensures r[i].counter <= last.counter
    {
      assert r[i] in multiset(r);
      if r[i] != l {
        assert r[i] in init;
        var j :| 0 <= j < |init| && init[j] == r[i];
        assert (init + [last])[j] == r[i] && (init + [last])[|init|] == last;
      }
    }
  }

  lemma {:induction false} InsertAfterSorts(sorted: seq<Logged>, l: Logged)
    requires Ascending(sorted)
    ensures Ascending(InsertAfter(sorted, l))
    ensures multiset(InsertAfter(sorted, l)) == multiset(sorted) + multiset{l}
  {
    if sorted != [] && sorted[|sorted| - 1].counter > l.counter {
      var init, last := sorted[..|sorted| - 1], sorted[|sorted| - 1];
      InsertAfterSorts(init, l);
      assert sorted == init + [last];
      LargestLast(init, l, InsertAfter(init, l), last);
    }
  }

  lemma {:induction false} SortSorts(logs: seq<Logged>)
    ensures Ascending(Sort(logs)) && multiset(Sort(logs)) == multiset(logs)
  {
    if logs != [] {
      var init, last := logs[..|logs| - 1], logs[|logs| - 1];
      SortSorts(init);
      InsertAfterSorts(Sort(init), last);
      assert logs == init + [last];
    }
  }

  lemma HeadsAgree(a: seq<Logged>, b: seq<Logged>)
    requires Increasing(a) && Ascending(b) && multiset(a) == multiset(b) && a != []
    ensures b != [] && a[0] == b[0]
  {
    assert |multiset(a)| == |a| && |multiset(b)| == |b|;
    assert a[0] in multiset(b) && b[0] in multiset(a);
    var i :| 0 <= i < |a| && a[i] == b[0];
    var j :| 0 <= j < |b| && b[j] == a[0];
    assert b[0].counter <= b[j].counter;
    assert i == 0;
  }

  lemma Tail(a: seq<Logged>)
    requires a != []
    ensures a == [a[0]] + a[1..] && multiset(a[1..]) == multiset(a) - multiset{a[0]}
  {
    assert a == [a[0]] + a[1..];
    assert multiset(a) == multiset{a[0]} + multiset(a[1..]);
  }

  /** There is only one way to order distinct counters. */
  lemma {:induction false} OrderIsUnique(a: seq<Logged>, b: seq<Logged>)
    requires Increasing(a) && Ascending(b) && multiset(a) == multiset(b)
    ensures a == b
  {
    if a == [] {
      assert |multiset(b)| == |b|;
    } else {
      HeadsAgree(a, b);
      Tail(a);
      Tail(b);
      OrderIsUnique(a[1..], b[1..]);
    }
  }

  /** The last of an increasing log comes after what was taken from before it. */
  lemma IncreasingSnoc(part: seq<Logged>, init: seq<Logged>, last: Logged)
    requires Increasing(init + [last]) && Increasing(part) && forall i | 0 <= i < |part| :: part[i] in init
    ensures Increasing(part + [last]) && Increasing(init)
  {
    forall i | 0 <= i < |part|
      ensures part[i].counter < last.counter
    {
      var j :| 0 <= j < |init| && init[j] == part[i];
      assert (init + [last])[j] == init[j] && (init + [last])[|init|] == last;
    }
    assert forall i | 0 <= i < |init| :: (init + [last])[i] == init[i];
  }

  lemma {:induction false} OfBothIsBoth(log: seq<Logged>, a: nat, sinceA: nat, b: nat, sinceB: nat)
    requires a != b && Increasing(log)
    ensures multiset(OfBoth(log, a, sinceA, b, sinceB)) == multiset(Of(log, a, sinceA)) + multiset(Of(log, b, sinceB))
    ensures Increasing(OfBoth(log, a, sinceA, b, sinceB))
    ensures forall i | 0 <= i < |OfBoth(log, a, sinceA, b, sinceB)| :: OfBoth(log, a, sinceA, b, sinceB)[i] in log
  {
    if log != [] {
      var init, last := log[..|log| - 1], log[|log| - 1];
      OfBothIsBoth(init, a, sinceA, b, sinceB);
      assert log == init + [last];
      IncreasingSnoc(OfBoth(init, a, sinceA, b, sinceB), init, last);
    }
  }

  /** Sorting the log of one stream together with that of another gives both, in order of arrival. */
  lemma SortMerges(log: seq<Logged>, a: nat, sinceA: nat, b: nat, sinceB: nat)
    requires a != b && Increasing(log)
    ensures Sort(Of(log, a, sinceA) + Of(log, b, sinceB)) == OfBoth(log, a, sinceA, b, sinceB)
  {
    var both := Of(log, a, sinceA) + Of(log, b, sinceB);
    SortSorts(both);
    OfBothIsBoth(log, a, sinceA, b, sinceB);
    OrderIsUnique(OfBoth(log, a, sinceA, b, sinceB), Sort(both));
  }

  // The answer.

  /** What has arrived for the stream of `f` and for stream zero, each since its last close, `f` included. */
  function ToEcho(first: nat, frames: seq<WireFrame>, f: WireFrame): (r: seq<WireFrame>) {
    Frames(OfBoth(Arrivals(first, frames + [f]), f.streamId, ClosedAt(first, frames, f.streamId),
                  0, ClosedAt(first, frames, 0)))
  }

  lemma RelevantIsToEcho(c: Conn, first: nat, frames: seq<WireFrame>, f: WireFrame)
    requires Tracks(c, first, frames) && Triggers(f) && f.streamId != 0
    ensures Frames(RelevantFrames(Collect(c, f), f.streamId)) == ToEcho(first, frames, f)
  {
    CollectTracks(c, first, frames, f, f.streamId);
    CollectTracks(c, first, frames, f, 0);
    ArrivalsCount(first, frames + [f]);
    SortMerges(Arrivals(first, frames + [f]), f.streamId, ClosedAt(first, frames, f.streamId),
               0, ClosedAt(first, frames, 0));
  }

  /** Uncompressed texts print as they are. */
  lemma RawOctets(code: Table, data: Bytes)
    ensures Octets(code, data, false) == data
  {
    assert PadOnes(Bits.Unpack(data)) == Bits.Unpack(data);
    Bits.PackUnpack(data);
  }

  lemma ShortText(code: Table, data: Bytes)
    requires |data| < 127
    ensures TextBytes(code, Text(data)) == Some([|data|] + data)
  {
    RawOctets(code, data);
    PrefixPowers();
  }

  lemma StatusBlockIsShort(code: Table)
    ensures |StatusBlock(code)| == 13
  {
    ShortText(code, Ascii(":status"));
    ShortText(code, Ascii("200"));
  }

  lemma OneFieldBlock(code: Table, f: Field)
    requires HpackCode(code) && Printable(code, f)
    ensures ParseBlock(code, FieldBytes(code, f).value) == Some([Normal(f)])
  {
    BlockRoundTrip(code, [f]);
    assert [f][1..] == [];
    assert FieldBytes(code, f).value + [] == FieldBytes(code, f).value;
    assert NormalBlock([f]) == [Normal(f)];
  }

  lemma OneFieldProcesses(s: HpackState.State, f: Field)
    requires f.Literal? && f.prop.Uncached?
    ensures HpackState.ProcessBlock(s, [f]) == HpackState.Result(s, Some([Header(f.key.data, f.val.data)]))
  {
    var h := Header(f.key.data, f.val.data);
    assert [f][1..] == [] && [h] + [] == [h];
    assert HpackState.ProcessBlock(s, []) == HpackState.Result(s, Some([]));
  }

  lemma LiteralDecodes(code: Table, s: HpackState.State, key: Bytes, val: Bytes)
    requires HpackCode(code)
    ensures var block := FieldBytes(code, Literal(Text(key), Text(val), Uncached));
            && block.Some?
            && ParseBlock(code, block.value).Some?
            && HpackState.ProcessBlock(s, ParseBlock(code, block.value).value)
               == HpackState.Result(s, Some([Header(key, val)]))
  {
    var f := Literal(Text(key), Text(val), Uncached);
    assert TextBytes(code, Text(key)).Some? && TextBytes(code, Text(val)).Some?;
    OneFieldBlock(code, f);
    OneFieldProcesses(s, Normal(f));
  }

  /** The answer decodes to one header line. */
  lemma StatusBlockDecodes(code: Table, s: HpackState.State)
    requires HpackCode(code)
    ensures var parsed := ParseBlock(code, StatusBlock(code));
            && parsed.Some?
            && HpackState.ProcessBlock(s, parsed.value)
               == HpackState.Result(s, Some([Header(Ascii(":status"), Ascii("200"))]))
  {
    LiteralDecodes(code, s, Ascii(":status"), Ascii("200"));
  }

  lemma HeadersPrint(stream: nat, block: Bytes)
    requires |block| < MAX_PAYLOAD && stream < MAX_STREAM
    ensures Printed(HeadersWith(stream, block)).Some? <==> stream != 0
    ensures stream != 0 ==> Sendable(HeadersWith(stream, block))
  {}

  lemma DataPrints(stream: nat, body: Bytes)
    requires 0 < stream < MAX_STREAM
    ensures Printed(Data(true, stream, body, None)).Some? <==> |body| < MAX_PAYLOAD
    ensures |body| < MAX_PAYLOAD ==> Sendable(Data(true, stream, body, None))
  {}

  lemma AnswerPrints(code: Table, stream: nat, body: Bytes)
    requires stream < MAX_STREAM
    ensures var frames := Answer(code, stream, body);
            Printed(frames[0]).Some? && Printed(frames[1]).Some? <==> stream != 0 && |body| < MAX_PAYLOAD
  {
    StatusBlockIsShort(code);
    HeadersPrint(stream, StatusBlock(code));
    if stream != 0 {
      DataPrints(stream, body);
    }
  }

  lemma RespondExactly(code: Table, c: Conn, stream: nat)
    requires stream in c.collected && stream < MAX_STREAM
    ensures var body := AllFrameBytes(Frames(RelevantFrames(c, stream)));
            var headers, data := Printed(Answer(code, stream, body)[0]), Printed(Answer(code, stream, body)[1]);
            var step := Respond(code, c, stream);
            && (step.status.Running? <==> headers.Some? && data.Some?)
            && (step.status.Running? ==> step.conn.sent == c.sent + [headers.value + data.value])
  {}

  lemma TriggerResponds(code: Table, c: Conn, f: WireFrame)
    requires Triggers(f)
    ensures Handle(code, c, f) == Respond(code, Collect(c, f), f.streamId)
    ensures f.streamId in Collect(c, f).collected && Collect(c, f).sent == c.sent
  {}

  /** Responding succeeds exactly when the stream is not zero and its log fits in one DATA frame. */
  lemma TriggerSurvives(code: Table, first: nat, frames: seq<WireFrame>, f: WireFrame)
    requires HandleAll(code, Fresh(first), frames).status.Running? && Triggers(f)
    ensures var step := HandleAll(code, Fresh(first), frames + [f]);
            step.status.Running? <==> f.streamId != 0 && |AllFrameBytes(ToEcho(first, frames, f))| < MAX_PAYLOAD
  {
    var c := HandleAll(code, Fresh(first), frames).conn;
    HandleAllSnoc(code, Fresh(first), frames, f);
    ConnectionTracks(code, first, frames);
    TriggerResponds(code, c, f);
    RespondExactly(code, Collect(c, f), f.streamId);
    AnswerPrints(code, f.streamId, AllFrameBytes(Frames(RelevantFrames(Collect(c, f), f.streamId))));
    if f.streamId != 0 {
      RelevantIsToEcho(c, first, frames, f);
    }
  }

  lemma TwoFrameBytes(g: seq<GenericFrame>)
    requires |g| == 2 && AllValid(g)
    ensures AllFrameBytes(g) == FrameBytes(g[0]) + FrameBytes(g[1])
  {
    assert g[1..] == [g[1]] && g[1..][1..] == [];
    assert AllFrameBytes(g[1..]) == FrameBytes(g[1]) + [];
  }

  lemma TwoFramesParse(frames: seq<Frame>)
    requires |frames| == 2 && AllSendable(frames)
    ensures Printed(frames[0]).Some? && Printed(frames[1]).Some?
    ensures ParseTyped(Printed(frames[0]).value + Printed(frames[1]).value) == Ok(frames)
  {
    TypedRoundTrip(frames);
    TwoFrameBytes(GenericForms(frames));
    SendablePrints(frames[0]);
    SendablePrints(frames[1]);
  }

  lemma BothSendable(a: Frame, b: Frame)
    requires Sendable(a) && Sendable(b)
    ensures AllSendable([a, b])
  {}

  lemma SendablePrints(f: Frame)
    requires Sendable(f)
    ensures Printed(f) == Some(FrameBytes(ToGeneric(f).value))
  {}

  /** The answer's DATA is the concatenation of exactly the frames that arrived for the stream and for
      stream zero, each since its last close, in order of arrival; reading the answer with the codec
      gives back the two frames, and reading its DATA gives back those frames. */
  lemma AnswerEchoesArrivals(code: Table, first: nat, frames: seq<WireFrame>, f: WireFrame)
    requires HandleAll(code, Fresh(first), frames).status.Running? && Triggers(f)
    requires HandleAll(code, Fresh(first), frames + [f]).status.Running?
    ensures var before, after := HandleAll(code, Fresh(first), frames).conn, HandleAll(code, Fresh(first), frames + [f]).conn;
            var body := AllFrameBytes(ToEcho(first, frames, f));
            && |after.sent| == |before.sent| + 1
            && after.sent[..|before.sent|] == before.sent
            && ParseTyped(after.sent[|before.sent|])
               == Ok([Headers(true, false, f.streamId, None, None, None, StatusBlock(code), None), Data(true, f.streamId, body, None)])
            && ParseFrames(body) == Some(ToEcho(first, frames, f))
  {
    var c := HandleAll(code, Fresh(first), frames).conn;
    HandleAllSnoc(code, Fresh(first), frames, f);
    ConnectionTracks(code, first, frames);
    TriggerSurvives(code, first, frames, f);
    RelevantIsToEcho(c, first, frames, f);
    var body := AllFrameBytes(ToEcho(first, frames, f));
    FramesAreABijection(body, ToEcho(first, frames, f));
    TriggerResponds(code, c, f);
    RespondExactly(code, Collect(c, f), f.streamId);
    AnswerParses(code, f.streamId, body);
  }

  lemma AnswerParses(code: Table, stream: nat, body: Bytes)
    requires 0 < stream < MAX_STREAM && |body| < MAX_PAYLOAD
    ensures var frames := Answer(code, stream, body);
            && Printed(frames[0]).Some? && Printed(frames[1]).Some?
            && ParseTyped(Printed(frames[0]).value + Printed(frames[1]).value) == Ok(frames)
  {
    StatusBlockIsShort(code);
    HeadersPrint(stream, StatusBlock(code));
    DataPrints(stream, body);
    BothSendable(HeadersWith(stream, StatusBlock(code)), Data(true, stream, body, None));
    TwoFramesParse(Answer(code, stream, body));
  }

  lemma OneFrameBytes(g: seq<GenericFrame>)
    requires |g| == 1 && AllValid(g)
    ensures AllFrameBytes(g) == FrameBytes(g[0])
  {
    assert g[1..] == [];
    assert FrameBytes(g[0]) + [] == FrameBytes(g[0]);
  }

  lemma OneFrameParses(f: Frame)
    requires Sendable(f)
    ensures ParseTyped(FrameBytes(ToGeneric(f).value)) == Ok([f])
  {
    TypedRoundTrip([f]);
    OneFrameBytes(GenericForms([f]));
  }

  ghost predicate Sends(before: Conn, after: Conn, f: Frame) {
    && |after.sent| == |before.sent| + 1
    && after.sent[..|before.sent|] == before.sent
    && ParseTyped(after.sent[|before.sent|]) == Ok([f])
  }

  lemma SendSends(c: Conn, f: Frame)
    requires Sendable(f)
    ensures Send(c, f).status.Running? && Sends(c, Send(c, f).conn, f)
  {
    SendablePrints(f);
    OneFrameParses(f);
  }

  /** What acknowledges a PING or SETTINGS frame. */
  function Acknowledgement(f: WireFrame): (r: Frame)
    requires f.typ == PING || f.typ == SETTINGS
  {
    if f.typ == SETTINGS then Settings(true, []) else Ping(true, if |f.payload| <= 8 then f.payload else f.payload[..8])
  }

  lemma AcknowledgementIsSendable(f: WireFrame)
    requires f.typ == PING || f.typ == SETTINGS
    ensures f.typ == SETTINGS || |f.payload| >= 8 ==> Sendable(Acknowledgement(f))
    ensures f.typ == PING && |f.payload| < 8 ==> !Constructible(Acknowledgement(f))
  {}

  lemma AcknowledgesBySending(code: Table, c: Conn, f: WireFrame)
    requires (f.typ == PING || f.typ == SETTINGS) && !f.flags.endStreamOrAck
    ensures Handle(code, c, f) == Send(if f.typ == SETTINGS then Collect(c, f) else c, Acknowledgement(f))
    ensures Collect(c, f).sent == c.sent
  {}

  /** A PING or SETTINGS that is no acknowledgement is acknowledged, a PING with its first eight octets; a PING
      shorter than that raises. */
  lemma Acknowledges(code: Table, c: Conn, f: WireFrame)
    requires (f.typ == PING || f.typ == SETTINGS) && !f.flags.endStreamOrAck
    ensures var step := Handle(code, c, f);
            && (step.status.Running? <==> f.typ == SETTINGS || |f.payload| >= 8)
            && (step.status.Running? ==> Sends(c, step.conn, Acknowledgement(f)))
  {
    AcknowledgesBySending(code, c, f);
    AcknowledgementIsSendable(f);
    if f.typ == SETTINGS || |f.payload| >= 8 {
      SendSends(if f.typ == SETTINGS then Collect(c, f) else c, Acknowledgement(f));
    }
  }

  // What every reachable state keeps.

  ghost predicate ConsistentLogs(counter: nat, collected: map<nat, seq<Logged>>, ending: set<nat>) {
    && ending <= collected.Keys
    && (forall s | s in collected ::
          && collected[s] != []
          && Increasing(collected[s])
          && forall i | 0 <= i < |collected[s]| ::
               collected[s][i].frame.streamId == s && collected[s][i].counter < counter)
    && (forall s, t, i, j | s in collected && t in collected && s != t
                            && 0 <= i < |collected[s]| && 0 <= j < |collected[t]| ::
          collected[s][i].counter != collected[t][j].counter)
  }

  ghost predicate Consistent(c: Conn) {
    ConsistentLogs(c.counter, c.collected, c.ending)
  }

  lemma CollectKeeps(c: Conn, f: WireFrame)
    requires Consistent(c)
    ensures Consistent(Collect(c, f)) && f.streamId in Collect(c, f).collected
  {}

  lemma ForgettingKeeps(counter: nat, collected: map<nat, seq<Logged>>, ending: set<nat>, stream: nat)
    requires ConsistentLogs(counter, collected, ending)
    ensures ConsistentLogs(counter, collected - {stream}, ending - {stream})
  {}

  lemma EndingKeeps(counter: nat, collected: map<nat, seq<Logged>>, ending: set<nat>, stream: nat)
    requires ConsistentLogs(counter, collected, ending) && stream in collected
    ensures ConsistentLogs(counter, collected, ending + {stream})
  {}

  lemma RespondShape(code: Table, c: Conn, stream: nat)
    ensures var next := Respond(code, c, stream).conn;
            && next.counter == c.counter
            && (|| (next.collected == c.collected && next.ending == c.ending)
                || (next.collected == c.collected - {stream} && next.ending == c.ending - {stream}))
  {}

  lemma ControlShape(code: Table, c: Conn, f: WireFrame)
    requires f.typ != DATA && f.typ != HEADERS
    ensures var logged, next := if IsLogged(f) then Collect(c, f) else c, Handle(code, c, f).conn;
            && next.counter == logged.counter
            && (|| (next.collected == logged.collected && next.ending == logged.ending)
                || (next.collected == logged.collected - {f.streamId} && next.ending == logged.ending - {f.streamId}))
  {}

  lemma HeadersShape(code: Table, c: Conn, f: WireFrame)
    requires f.typ == HEADERS
    ensures var logged, next := Collect(c, f), Handle(code, c, f).conn;
            || next == Respond(code, logged, f.streamId).conn
            || next == logged
            || next == logged.(ending := logged.ending + {f.streamId})
  {}

  lemma DataShape(code: Table, c: Conn, f: WireFrame)
    requires f.typ == DATA
    ensures var logged, next := Collect(c, f), Handle(code, c, f).conn;
            next == Respond(code, logged, f.streamId).conn || next == logged
  {}

  /** A step logs the frame or not; then it forgets its stream, marks it as ending, or neither. */
  lemma StepShape(code: Table, c: Conn, f: WireFrame)
    ensures var logged, next := if IsLogged(f) then Collect(c, f) else c, Handle(code, c, f).conn;
            && next.counter == logged.counter
            && (|| (next.collected == logged.collected && next.ending == logged.ending)
                || (next.collected == logged.collected - {f.streamId} && next.ending == logged.ending - {f.streamId})
                || (next.collected == logged.collected && next.ending == logged.ending + {f.streamId} && IsLogged(f)))
  {
    if f.typ == DATA {
      DataShape(code, c, f);
      RespondShape(code, Collect(c, f), f.streamId);
    } else if f.typ == HEADERS {
      HeadersShape(code, c, f);
      RespondShape(code, Collect(c, f), f.streamId);
    } else {
      ControlShape(code, c, f);
    }
  }

  /** Every step keeps the bookkeeping consistent, also one that raises. */
  lemma HandleKeeps(code: Table, c: Conn, f: WireFrame)
    requires Consistent(c)
    ensures Consistent(Handle(code, c, f).conn)
  {
    StepShape(code, c, f);
    CollectKeeps(c, f);
    var logged := if IsLogged(f) then Collect(c, f) else c;
    ForgettingKeeps(logged.counter, logged.collected, logged.ending, f.streamId);
    if IsLogged(f) {
      EndingKeeps(logged.counter, logged.collected, logged.ending, f.streamId);
    }
  }

  lemma {:induction false} ConnectionKeeps(code: Table, c: Conn, frames: seq<WireFrame>)
    requires Consistent(c)
    ensures Consistent(HandleAll(code, c, frames).conn)
    decreases |frames|
  {
    if frames != [] {
      HandleKeeps(code, c, frames[0]);
      var first := Handle(code, c, frames[0]);
      if first.status.Running? {
        ConnectionKeeps(code, first.conn, frames[1..]);
      }
    }
  }

  /** In every reachable state: ending streams are collected, every frame sits under its own stream id in
      a non-empty list, counters increase within a list, differ across lists, and lie below the counter. */
  lemma ReachableIsConsistent(code: Table, first: nat, frames: seq<WireFrame>)
    ensures Consistent(HandleAll(code, Fresh(first), frames).conn)
  {
    ConnectionKeeps(code, Fresh(first), frames);
  }
}
