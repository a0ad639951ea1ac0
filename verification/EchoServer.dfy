/** The echo server's HTTP/2 connection: frames are logged per stream with a counter, and when a
    stream ends, its log and the log of stream zero are merged into one answer. */
module EchoServer {
  import opened Wire
  import opened H2Generic
  import opened H2Frame
  import opened HpackString
  import opened HpackField

  datatype Logged = Logged(counter: nat, frame: WireFrame)

  // The connection as a value.

  datatype Conn = Conn(counter: nat, collected: map<nat, seq<Logged>>, ending: set<nat>, sent: seq<Bytes>)

  /** How a step ends: the loop goes on, GOAWAY returns, or an exception ends the connection. */
  datatype Status = Running | Returned | Raised

  datatype Step = Step(conn: Conn, status: Status)

  function LogOf(c: Conn, stream: nat): (r: seq<Logged>) {
    if stream in c.collected then c.collected[stream] else []
  }

  /** collect_frame. */
  function Collect(c: Conn, f: WireFrame): (r: Conn) {
    c.(counter := c.counter + 1,
       collected := c.collected[f.streamId := LogOf(c, f.streamId) + [Logged(c.counter, f)]])
  }

  /** close_stream: an unknown stream raises KeyError. */
  function CloseStream(c: Conn, stream: nat): (r: Step) {
    if stream !in c.collected then Step(c, Raised)
    else Step(c.(collected := c.collected - {stream}, ending := c.ending - {stream}), Running)
  }

  /** list.sort by counter: stable. */
  function Sort(logs: seq<Logged>): (r: seq<Logged>) {
    if logs == [] then [] else InsertAfter(Sort(logs[..|logs| - 1]), logs[|logs| - 1])
  }

  function InsertAfter(sorted: seq<Logged>, l: Logged): (r: seq<Logged>) {
    if sorted == [] || sorted[|sorted| - 1].counter <= l.counter then sorted + [l]
    else InsertAfter(sorted[..|sorted| - 1], l) + [sorted[|sorted| - 1]]
  }

  function Frames(logs: seq<Logged>): (r: seq<WireFrame>)
    ensures |r| == |logs|
    ensures forall i | 0 <= i < |r| :: r[i] == logs[i].frame
  {
    seq(|logs|, i requires 0 <= i < |logs| => logs[i].frame)
  }

  function StatusBlock(code: Table): (r: Bytes) {
    var block := FieldBytes(code, Literal(Text(Ascii(":status")), Text(Ascii("200")), Uncached));
    if block.Some? then block.value else []
  }

  function HeadersWith(stream: nat, block: Bytes): Frame {
    Headers(true, false, stream, None, None, None, block, None)
  }

  /** The two frames of an answer. */
  function Answer(code: Table, stream: nat, body: Bytes): (r: seq<Frame>)
    ensures |r| == 2
  {
    [HeadersWith(stream, StatusBlock(code)), Data(true, stream, body, None)]
  }

  /** The octets of a frame, or None where building or printing it raises H2Error. */
  function Printed(f: Frame): (r: Option<Bytes>) {
    if !Constructible(f) || ToGeneric(f).None? then None else Some(FrameBytes(ToGeneric(f).value))
  }

  /** What is logged for a stream and for stream zero, in the order of the counters. */
  function RelevantFrames(c: Conn, stream: nat): (r: seq<Logged>) {
    Sort(LogOf(c, stream) + LogOf(c, 0))
  }

  /** respond_and_close_stream. */
  function Respond(code: Table, c: Conn, stream: nat): (r: Step) {
    if stream !in c.collected then Step(c, Raised)
    else
      var frames := Answer(code, stream, AllFrameBytes(Frames(RelevantFrames(c, stream))));
      var headers, data := Printed(frames[0]), Printed(frames[1]);
      if headers.None? || data.None? then Step(c, Raised)
      else CloseStream(c.(sent := c.sent + [headers.value + data.value]), stream)
  }

  function Send(c: Conn, f: Frame): (r: Step) {
    var octets := Printed(f);
    if octets.None? then Step(c, Raised) else Step(c.(sent := c.sent + [octets.value]), Running)
  }

  /** The dispatch of handle_h2_connection. */
  function Handle(code: Table, c: Conn, f: WireFrame): (r: Step) {
    if f.typ == DATA then
      var logged := Collect(c, f);
      if f.flags.endStreamOrAck then Respond(code, logged, f.streamId) else Step(logged, Running)
    else if f.typ == HEADERS then
      var logged := Collect(c, f);
      if f.flags.endHeaders && f.flags.endStreamOrAck then Respond(code, logged, f.streamId)
      else if f.flags.endStreamOrAck then Step(logged.(ending := logged.ending + {f.streamId}), Running)
      else Step(logged, Running)
    else if f.typ == PRIORITY || f.typ == WINDOW_UPDATE then Step(c, Running)
    else if f.typ == RST_STREAM then CloseStream(c, f.streamId)
    else if f.typ == SETTINGS then
      var logged := Collect(c, f);
      if f.flags.endStreamOrAck then Step(logged, Running) else Send(logged, Settings(true, []))
    else if f.typ == PING then
      if f.flags.endStreamOrAck then Step(c, Running)
      else Send(c, Ping(true, if |f.payload| <= 8 then f.payload else f.payload[..8]))
    else if f.typ == GOAWAY then Step(c, Returned)
    else Step(Collect(c, f), Running)
  }

  function HandleAll(code: Table, c: Conn, frames: seq<WireFrame>): (r: Step)
    decreases |frames|
  {
    if frames == [] then Step(c, Running)
    else
      var first := Handle(code, c, frames[0]);
      if first.status.Running? then HandleAll(code, first.conn, frames[1..]) else first
  }

  /** The frames of what was received, or None where parsing raises H2Error. */
  function FramesOf(received: Bytes): (r: Option<seq<WireFrame>>) {
    match ParseFrames(received)
    case None => None
    case Some(frames) =>
      ParsedFramesArePrinted(received);
      Some(frames)
  }

  /** The outer loop of handle_h2_connection, as far as `rounds` have been received. */
  function HandleRounds(code: Table, c: Conn, rounds: seq<Bytes>): (r: Step)
    decreases |rounds|
  {
    if rounds == [] then Step(c, Running)
    else
      match FramesOf(rounds[0])
      case None => Step(c, Raised)
      case Some(frames) =>
        var first := HandleAll(code, c, frames);
        if first.status.Running? then HandleRounds(code, first.conn, rounds[1..]) else first
  }

  // The connection as the source keeps it.

  class Connection {
    var frameCounter: nat
    var collectedFrames: map<nat, seq<Logged>>
    var streamsEnding: set<nat>
    var sent: seq<Bytes>  // what went to the socket

    ghost function Value(): Conn
      reads this
    {
      Conn(frameCounter, collectedFrames, streamsEnding, sent)
    }

    /** A new connection; the counter is shared and may have any value. */
    constructor (counter: nat)
      ensures Value() == Conn(counter, map[], {}, [])
    {
      frameCounter, collectedFrames, streamsEnding, sent := counter, map[], {}, [];
    }

    method CollectFrame(f: WireFrame)
      modifies this`frameCounter, this`collectedFrames
      ensures Value() == Collect(old(Value()), f)
    {
      if f.streamId !in collectedFrames {
        collectedFrames := collectedFrames[f.streamId := []];
      }
      collectedFrames := collectedFrames[f.streamId := collectedFrames[f.streamId] + [Logged(frameCounter, f)]];
      frameCounter := frameCounter + 1;
    }

    method Close(stream: nat) returns (status: Status)
      modifies this`collectedFrames, this`streamsEnding
      ensures Step(Value(), status) == CloseStream(old(Value()), stream)
    {
      if stream !in collectedFrames {
        return Raised;
      }
      collectedFrames := collectedFrames - {stream};
      if stream in streamsEnding {
        streamsEnding := streamsEnding - {stream};
      }
      return Running;
    }

    method RespondAndClose(code: Table, stream: nat) returns (status: Status)
      modifies this`collectedFrames, this`streamsEnding, this`sent
      ensures Step(Value(), status) == Respond(code, old(Value()), stream)
    {
      if stream !in collectedFrames {
        return Raised;
      }
      var relevant := collectedFrames[stream];
      if 0 in collectedFrames {
        relevant := relevant + collectedFrames[0];
      } else {
        assert relevant + [] == relevant;
      }
      relevant := Sort(relevant);
      var frames := Answer(code, stream, AllFrameBytes(Frames(relevant)));
      var headers, data := Printed(frames[0]), Printed(frames[1]);
      if headers.None? || data.None? {
        return Raised;
      }
      sent := sent + [headers.value + data.value];
      status := Close(stream);
    }

    method SendFrame(f: Frame) returns (status: Status)
      modifies this`sent
      ensures Step(Value(), status) == Send(old(Value()), f)
    {
      var octets := Printed(f);
      if octets.None? {
        return Raised;
      }
      sent := sent + [octets.value];
      return Running;
    }

    method HandleFrame(code: Table, f: WireFrame) returns (status: Status)
      modifies this
      ensures Step(Value(), status) == Handle(code, old(Value()), f)
    {
      status := Running;
      if f.typ == DATA {
        CollectFrame(f);
        if f.flags.endStreamOrAck {
          status := RespondAndClose(code, f.streamId);
        }
      } else if f.typ == HEADERS {
        CollectFrame(f);
        if f.flags.endHeaders && f.flags.endStreamOrAck {
          status := RespondAndClose(code, f.streamId);
        } else if f.flags.endStreamOrAck {
          streamsEnding := streamsEnding + {f.streamId};
        }
      } else if f.typ == PRIORITY || f.typ == WINDOW_UPDATE {
      } else if f.typ == RST_STREAM {
        status := Close(f.streamId);
      } else if f.typ == SETTINGS {
        CollectFrame(f);
        if !f.flags.endStreamOrAck {
          status := SendFrame(Settings(true, []));
        }
      } else if f.typ == PING {
        if !f.flags.endStreamOrAck {
          status := SendFrame(Ping(true, if |f.payload| <= 8 then f.payload else f.payload[..8]));
        }
      } else if f.typ == GOAWAY {
        status := Returned;
      } else {
        CollectFrame(f);
      }
    }

    /** One round of handle_h2_connection: parse what was received, then handle frame by frame. */
    method HandleReceived(code: Table, received: Bytes) returns (status: Status)
      modifies this
      ensures match FramesOf(received)
              case None => status == Raised && Value() == old(Value())
              case Some(frames) => Step(Value(), status) == HandleAll(code, old(Value()), frames)
    {
      var parsed := ParseGenericFrames(received);
      if parsed.None? {
        return Raised;
      }
      ParsedFramesArePrinted(received);
      var frames: seq<WireFrame> := parsed.value;
      assert frames[0..] == frames;
      for i := 0 to |frames|
        invariant HandleAll(code, old(Value()), frames) == HandleAll(code, Value(), frames[i..])
      {
        assert frames[i..][1..] == frames[i + 1..];
        status := HandleFrame(code, frames[i]);
        if !status.Running? {
          return;
        }
      }
      status := Running;
    }

    /** The loop of handle_h2_connection over what the socket delivers. */
    method HandleConnection(code: Table, rounds: seq<Bytes>) returns (status: Status)
      modifies this
      ensures Step(Value(), status) == HandleRounds(code, old(Value()), rounds)
    {
      assert rounds[0..] == rounds;
      for i := 0 to |rounds|
        invariant HandleRounds(code, old(Value()), rounds) == HandleRounds(code, Value(), rounds[i..])
      {
        assert rounds[i..][1..] == rounds[i + 1..];
        status := HandleReceived(code, rounds[i]);
        if !status.Running? {
          return;
        }
      }
      status := Running;
    }
  }
}
