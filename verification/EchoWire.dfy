/** The echo server octet by octet: what it makes of octets that arrive, and which octets it sends, with the numbers
    of RFC 9113 written out. */
module EchoWire {
  import opened Wire
  import opened BigEndian
  import opened H2Generic
  import opened H2Frame
  import opened H2RoundTrip
  import opened H2Layout
  import opened HpackString
  import opened HpackField
  import opened StaticTable
  import opened EchoServer
  import opened EchoRuns
  import opened EchoAnswers
  import HpackState

  // What is sent.

  /** An answer: HEADERS with END_HEADERS alone, then DATA with END_STREAM alone, on the stream that ended. */
  function AnswerLayout(code: Table, stream: nat, body: Bytes): (r: Bytes) {
    OnTheWire(1, 0x04, stream, StatusBlock(code)) + OnTheWire(0, 0x01, stream, body)
  }

  /** What is due for one frame, told by type number: an answer, a SETTINGS or PING acknowledgement, or nothing. */
  function Due(code: Table, first: nat, frames: seq<WireFrame>, f: WireFrame): (r: seq<Bytes>) {
    if f.flags.endStreamOrAck && (f.typ == 0 || (f.typ == 1 && f.flags.endHeaders)) then
      [AnswerLayout(code, f.streamId, AllFrameBytes(ToEcho(first, frames, f)))]
    else if f.typ == 4 && !f.flags.endStreamOrAck then [OnTheWire(4, 0x01, 0, [])]
    else if f.typ == 6 && !f.flags.endStreamOrAck then
      [OnTheWire(6, 0x01, 0, if |f.payload| <= 8 then f.payload else f.payload[..8])]
    else []
  }

  function AllDue(code: Table, first: nat, frames: seq<WireFrame>): (r: seq<Bytes>) {
    if frames == [] then []
    else
      var earlier, last := frames[..|frames| - 1], frames[|frames| - 1];
      AllDue(code, first, earlier) + Due(code, first, earlier, last)
  }

  lemma HeadersOctets(stream: nat, block: Bytes)
    requires 0 < stream < MAX_STREAM && |block| < MAX_PAYLOAD
    ensures Printed(HeadersWith(stream, block)) == Some(OnTheWire(1, 0x04, stream, block))
  {
    var f := HeadersWith(stream, block);
    HeadersPrint(stream, block);
    FrameLayout(f);
    assert [] + block == block;
  }

  lemma DataOctets(stream: nat, body: Bytes)
    requires 0 < stream < MAX_STREAM && |body| < MAX_PAYLOAD
    ensures Printed(Data(true, stream, body, None)) == Some(OnTheWire(0, 0x01, stream, body))
  {
    DataPrints(stream, body);
    FrameLayout(Data(true, stream, body, None));
  }

  lemma AnswerOctets(code: Table, stream: nat, body: Bytes)
    requires 0 < stream < MAX_STREAM && |body| < MAX_PAYLOAD
    ensures var frames := Answer(code, stream, body);
            && Printed(frames[0]).Some? && Printed(frames[1]).Some?
            && Printed(frames[0]).value + Printed(frames[1]).value == AnswerLayout(code, stream, body)
  {
    StatusBlockIsShort(code);
    HeadersOctets(stream, StatusBlock(code));
    DataOctets(stream, body);
  }

  lemma AcknowledgementOctets(f: WireFrame)
    requires f.typ == 4 || (f.typ == 6 && |f.payload| >= 8)
    ensures Printed(Acknowledgement(f))
         == Some(if f.typ == 4 then OnTheWire(4, 0x01, 0, [])
                 else OnTheWire(6, 0x01, 0, if |f.payload| <= 8 then f.payload else f.payload[..8]))
  {
    AcknowledgementIsSendable(f);
    SendablePrints(Acknowledgement(f));
    FrameLayout(Acknowledgement(f));
  }

  lemma TriggerSends(code: Table, first: nat, frames: seq<WireFrame>, f: WireFrame)
    requires Runs(code, first, frames) && Runs(code, first, frames + [f]) && Triggers(f)
    ensures HandleAll(code, Fresh(first), frames + [f]).conn.sent
         == HandleAll(code, Fresh(first), frames).conn.sent + [AnswerLayout(code, f.streamId, Echo(first, frames, f))]
  {
    var c := HandleAll(code, Fresh(first), frames).conn;
    HandleAllSnoc(code, Fresh(first), frames, f);
    ConnectionTracks(code, first, frames);
    TriggerSurvives(code, first, frames, f);
    RelevantIsToEcho(c, first, frames, f);
    TriggerResponds(code, c, f);
    RespondExactly(code, Collect(c, f), f.streamId);
    AnswerOctets(code, f.streamId, Echo(first, frames, f));
  }

  lemma AcknowledgementSends(code: Table, c: Conn, f: WireFrame)
    requires AsksForAcknowledgement(f) && Handle(code, c, f).status.Running?
    ensures Handle(code, c, f).conn.sent == c.sent + Due(code, 0, [], f)
  {
    Acknowledges(code, c, f);
    AcknowledgesBySending(code, c, f);
    AcknowledgementOctets(f);
  }

  lemma StepSends(code: Table, first: nat, frames: seq<WireFrame>, f: WireFrame)
    requires Runs(code, first, frames) && Runs(code, first, frames + [f])
    ensures HandleAll(code, Fresh(first), frames + [f]).conn.sent
         == HandleAll(code, Fresh(first), frames).conn.sent + Due(code, first, frames, f)
  {
    if Triggers(f) {
      TriggerSends(code, first, frames, f);
    } else if AsksForAcknowledgement(f) {
      HandleAllSnoc(code, Fresh(first), frames, f);
      AcknowledgementSends(code, HandleAll(code, Fresh(first), frames).conn, f);
    } else {
      SendsNothing(code, first, frames, f);
    }
  }

  /** What a run has sent. */
  function Sent(code: Table, first: nat, frames: seq<WireFrame>): (r: seq<Bytes>) {
    HandleAll(code, Fresh(first), frames).conn.sent
  }

  predicate SentWhatIsDue(code: Table, first: nat, frames: seq<WireFrame>) {
    Sent(code, first, frames) == AllDue(code, first, frames)
  }

  lemma SentOneMore(code: Table, first: nat, frames: seq<WireFrame>, f: WireFrame)
    requires Runs(code, first, frames + [f]) && SentWhatIsDue(code, first, frames)
    ensures SentWhatIsDue(code, first, frames + [f])
  {
    RanBefore(code, first, frames, f);
    StepSends(code, first, frames, f);
    var all := frames + [f];
    assert all[..|all| - 1] == frames && all[|all| - 1] == f;
  }

  lemma SentPrefix(code: Table, first: nat, frames: seq<WireFrame>, k: nat)
    requires k < |frames| && Runs(code, first, frames) && SentWhatIsDue(code, first, frames[..k])
    ensures SentWhatIsDue(code, first, frames[..k + 1])
  {
    Prefixes(frames, k);
    if !Runs(code, first, frames[..k + 1]) {
      StoppedStaysStopped(code, first, frames[..k + 1], frames[k + 1..]);
    }
    SentOneMore(code, first, frames[..k], frames[k]);
  }

  lemma {:induction false} StepByStep(p: nat -> bool, n: nat)
    requires p(0) && forall k: nat | k < n && p(k) :: p(k + 1)
    ensures p(n)
  {
    if n != 0 {
      StepByStep(p, n - 1);
    }
  }

  /** A run that goes on has sent exactly the octets that are due, frame by frame. */
  lemma RunSendsOctets(code: Table, first: nat, frames: seq<WireFrame>)
    requires Runs(code, first, frames)
    ensures SentWhatIsDue(code, first, frames)
  {
    var p := (k: nat) => k <= |frames| && SentWhatIsDue(code, first, frames[..k]);
    assert frames[..0] == [] && frames[..|frames|] == frames;
    forall k: nat | k < |frames| && p(k)
      ensures p(k + 1)
    {
      SentPrefix(code, first, frames, k);
    }
    StepByStep(p, |frames|);
  }

  /** An answer parses to its two frames, of which only the last ends the stream, and its header block decodes from any
      HPACK state to `:status: 200`. */
  lemma AnswerReads(code: Table, stream: nat, body: Bytes, s: HpackState.State)
    requires HpackCode(code) && 0 < stream < MAX_STREAM && |body| < MAX_PAYLOAD
    ensures ParseTyped(AnswerLayout(code, stream, body))
         == Ok([Headers(true, false, stream, None, None, None, StatusBlock(code), None), Data(true, stream, body, None)])
    ensures ParseBlock(code, StatusBlock(code)).Some?
    ensures HpackState.ProcessBlock(s, ParseBlock(code, StatusBlock(code)).value)
         == HpackState.Result(s, Some([Header(Ascii(":status"), Ascii("200"))]))
  {
    AnswerOctets(code, stream, body);
    AnswerParses(code, stream, body);
    StatusBlockDecodes(code, s);
  }

  // What arrives.

  /** The octets of one frame are read as that frame. */
  lemma OctetsAreAFrame(typ: Byte, flags: Byte, stream: nat, payload: Bytes)
    requires stream < MAX_STREAM && |payload| < MAX_PAYLOAD
    ensures FramesOf(OnTheWire(typ, flags, stream, payload)) == Some([GenericFrame(typ, ParseFlags(flags), false, stream, payload)])
  {
    var f := GenericFrame(typ, ParseFlags(flags), false, stream, payload);
    GenericLayout(f);
    FlagsByteParse(flags);
    OneFrameBytes([f]);
    FramesAreABijection(FrameBytes(f), [f]);
  }

  lemma OneRoundOfOne(code: Table, c: Conn, received: Bytes, f: WireFrame)
    requires FramesOf(received) == Some([f])
    ensures HandleRounds(code, c, [received]) == Handle(code, c, f)
  {
    assert [f][1..] == [] && [received][1..] == [];
    var step := Handle(code, c, f);
    assert HandleAll(code, c, [f]) == step by {
      assert step.status.Running? ==> HandleAll(code, step.conn, []) == step;
    }
    assert step.status.Running? ==> HandleRounds(code, step.conn, []) == step;
  }

  /** The dispatch by type number and flag bits, from the octets that arrive. */
  lemma DispatchByOctets(code: Table, c: Conn, typ: Byte, flags: Byte, stream: nat, payload: Bytes)
    requires stream < MAX_STREAM && |payload| < MAX_PAYLOAD
    ensures var step := HandleRounds(code, c, [OnTheWire(typ, flags, stream, payload)]);
            var logged := Collect(c, GenericFrame(typ, ParseFlags(flags), false, stream, payload));
            var endStream, endHeaders := flags % 2 == 1, flags / 4 % 2 == 1;
            step == match typ
                    case 0 => if endStream then Respond(code, logged, stream) else Step(logged, Running)
                    case 1 =>
                      if endStream && endHeaders then Respond(code, logged, stream)
                      else Step(if endStream then logged.(ending := logged.ending + {stream}) else logged, Running)
                    case 2 => Step(c, Running)
                    case 3 => CloseStream(c, stream)
                    case 4 => if endStream then Step(logged, Running) else Send(logged, Settings(true, []))
                    case 6 =>
                      if endStream then Step(c, Running)
                      else Send(c, Ping(true, if |payload| <= 8 then payload else payload[..8]))
                    case 7 => Step(c, Returned)
                    case 8 => Step(c, Running)
                    case _ => Step(logged, Running)
  {
    var f: WireFrame := GenericFrame(typ, ParseFlags(flags), false, stream, payload);
    OctetsAreAFrame(typ, flags, stream, payload);
    OneRoundOfOne(code, c, OnTheWire(typ, flags, stream, payload), f);
    LowestFlag(flags);
    ThirdFlag(flags);
    HandleByNumber(code, c, f);
  }

  lemma HandleByNumber(code: Table, c: Conn, f: WireFrame)
    ensures var logged := Collect(c, f);
            var endStream, endHeaders := f.flags.endStreamOrAck, f.flags.endHeaders;
            Handle(code, c, f)
            == match f.typ
               case 0 => if endStream then Respond(code, logged, f.streamId) else Step(logged, Running)
               case 1 =>
                 if endStream && endHeaders then Respond(code, logged, f.streamId)
                 else Step(if endStream then logged.(ending := logged.ending + {f.streamId}) else logged, Running)
               case 2 => Step(c, Running)
               case 3 => CloseStream(c, f.streamId)
               case 4 => if endStream then Step(logged, Running) else Send(logged, Settings(true, []))
               case 6 =>
                 if endStream then Step(c, Running)
                 else Send(c, Ping(true, if |f.payload| <= 8 then f.payload else f.payload[..8]))
               case 7 => Step(c, Returned)
               case 8 => Step(c, Running)
               case _ => Step(logged, Running)
  {}

  /** A PING that arrives with eight octets or more and without ACK is acknowledged with its first eight. */
  lemma PingIsAnswered(code: Table, c: Conn, flags: Byte, stream: nat, payload: Bytes)
    requires flags % 2 == 0 && stream < MAX_STREAM && 8 <= |payload| < MAX_PAYLOAD
    ensures HandleRounds(code, c, [OnTheWire(6, flags, stream, payload)])
         == Step(c.(sent := c.sent + [OnTheWire(6, 0x01, 0, payload[..8])]), Running)
  {
    var f: WireFrame := GenericFrame(6, ParseFlags(flags), false, stream, payload);
    OctetsAreAFrame(6, flags, stream, payload);
    OneRoundOfOne(code, c, OnTheWire(6, flags, stream, payload), f);
    LowestFlag(flags);
    AcknowledgesBySending(code, c, f);
    AcknowledgementOctets(f);
    assert |payload| == 8 ==> payload[..8] == payload;
  }

  /** Which frames are logged and which trigger a response, by number. */
  lemma TypesByNumber(f: WireFrame)
    ensures IsLogged(f) <==> f.typ !in {2, 3, 6, 7, 8}
    ensures Triggers(f) <==> f.flags.endStreamOrAck && (f.typ == 0 || (f.typ == 1 && f.flags.endHeaders))
    ensures forall stream :: Closes(f, stream) <==> f.streamId == stream && (f.typ == 3 || Triggers(f))
  {}
}
