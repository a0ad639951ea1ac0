/** The ten typed frames of HTTP/2 (sections 6.1 to 6.10 of RFC 9113) above the generic layer. */
module H2Frame {
  import opened Wire
  import opened BigEndian
  import opened H2Generic

  const DATA: Byte := 0
  const HEADERS: Byte := 1
  const PRIORITY: Byte := 2
  const RST_STREAM: Byte := 3
  const SETTINGS: Byte := 4
  const PUSH_PROMISE: Byte := 5
  const PING: Byte := 6
  const GOAWAY: Byte := 7
  const WINDOW_UPDATE: Byte := 8
  const CONTINUATION: Byte := 9

  datatype Setting = Setting(id: nat, value: nat)

  datatype Frame =
    | Data(endStream: bool, streamId: nat, data: Bytes, padLength: Option<nat>)
    | Headers(endHeaders: bool, endStream: bool, streamId: nat, exclusive: Option<bool>, dependency: Option<nat>,
              weight: Option<nat>, fragment: Bytes, padLength: Option<nat>)
    | Priority(streamId: nat, exclusively: bool, dependsOn: nat, weighs: nat)
    | RstStream(streamId: nat, errorCode: nat)
    | Settings(ack: bool, settings: seq<Setting>)
    | PushPromise(endHeaders: bool, streamId: nat, promisedId: nat, fragment: Bytes, padLength: Option<nat>)
    | Ping(ack: bool, opaqueData: Bytes)
    | GoAway(lastStreamId: nat, errorCode: nat, debugData: Bytes)
    | WindowUpdate(streamId: nat, increment: nat)
    | Continuation(endHeaders: bool, streamId: nat, fragment: Bytes)
    | Generic(frame: GenericFrame)

  // What the constructors check.

  predicate GoodStream(id: nat) {
    0 < id < MAX_STREAM
  }

  predicate GoodPad(pad: Option<nat>) {
    pad.Some? ==> pad.value < 256
  }

  /** check_priority. Its first test is a chained comparison: it refuses only if both links differ. */
  predicate GoodPriority(exclusive: Option<bool>, dependency: Option<nat>, weight: Option<nat>) {
    && !(exclusive.None? != weight.None? && weight.None? != dependency.None?)
    && (weight.Some? ==> weight.value < 256)
    && (dependency.Some? ==> dependency.value < MAX_STREAM)
  }

  predicate Constructible(f: Frame) {
    match f
    case Data(_, id, _, pad) => GoodPad(pad) && GoodStream(id)
    case Headers(_, _, id, exclusive, dependency, weight, _, pad) =>
      GoodStream(id) && GoodPriority(exclusive, dependency, weight) && GoodPad(pad)
    case Priority(id, exclusive, dependency, weight) =>
      GoodStream(id) && GoodPriority(Some(exclusive), Some(dependency), Some(weight))
    case RstStream(id, error) => GoodStream(id) && error < 0x1_0000_0000
    case Settings(ack, settings) => ack ==> settings == []
    case PushPromise(_, id, promised, _, pad) => GoodPad(pad) && GoodStream(id) && GoodStream(promised)
    case Ping(_, opaque_) => |opaque_| == 8
    case GoAway(last, error, _) => last < MAX_STREAM && error < 0x1_0000_0000
    case WindowUpdate(id, increment) => id < MAX_STREAM && 0 < increment < MAX_STREAM
    case Continuation(_, id, _) => GoodStream(id)
    case Generic(g) => g.Valid()
  }

  function Construct(f: Frame): (r: Outcome<Frame>) {
    if Constructible(f) then Ok(f) else ProtocolError
  }

  // From typed to generic.

  /** Pad Length in front, zeros behind. */
  function Padded(body: Bytes, pad: Option<nat>): (r: Bytes)
    requires GoodPad(pad)
    ensures |r| == |body| + if pad.Some? then 1 + pad.value else 0
  {
    if pad.None? then body else [pad.value] + body + Zeros(pad.value)
  }

  function PriorityBytes(exclusive: bool, dependency: nat, weight: nat): (r: Bytes)
    requires weight < 256
    ensures |r| == 5
  {
    ToBE((if exclusive then MAX_STREAM else 0) + dependency, 4) + [weight]
  }

  predicate HasPriority(f: Frame)
    requires f.Headers?
  {
    f.exclusive.Some? && f.dependency.Some? && f.weight.Some?
  }

  function HeadersBody(f: Frame): (r: Bytes)
    requires f.Headers? && Constructible(f)
  {
    if HasPriority(f) then PriorityBytes(f.exclusive.value, f.dependency.value, f.weight.value) + f.fragment
    else f.fragment
  }

  function SettingsBytes(settings: seq<Setting>): (r: Bytes)
    ensures |r| == 6 * |settings|
  {
    if settings == [] then [] else ToBE(settings[0].id, 2) + ToBE(settings[0].value, 4) + SettingsBytes(settings[1..])
  }

  predicate SettingsFit(settings: seq<Setting>) {
    forall i | 0 <= i < |settings| :: settings[i].id < 0x1_0000 && settings[i].value < 0x1_0000_0000
  }

  function Finished(g: GenericFrame): (r: Option<GenericFrame>) {
    if g.Valid() then Some(g) else None
  }

  /** The `to_generic` of the typed frames; None where it raises (payload or setting too large). */
  function ToGeneric(f: Frame): (r: Option<GenericFrame>)
    requires Constructible(f)
    ensures r.Some? ==> r.value.Valid()
  {
    match f
    case Data(endStream, id, data, pad) =>
      Finished(GenericFrame(DATA, Flags(endStreamOrAck := endStream, padded := pad.Some?), false, id, Padded(data, pad)))
    case Headers(endHeaders, endStream, id, _, _, _, _, pad) =>
      Finished(GenericFrame(HEADERS,
                            Flags(priority := HasPriority(f), padded := pad.Some?, endStreamOrAck := endStream, endHeaders := endHeaders),
                            false, id, Padded(HeadersBody(f), pad)))
    case Priority(id, exclusive, dependency, weight) =>
      Finished(GenericFrame(PRIORITY, Flags(), false, id, PriorityBytes(exclusive, dependency, weight)))
    case RstStream(id, error) =>
      Finished(GenericFrame(RST_STREAM, Flags(), false, id, ToBE(error, 4)))
    case Settings(ack, settings) =>
      if SettingsFit(settings) then
        Finished(GenericFrame(SETTINGS, Flags(endStreamOrAck := ack), false, 0, SettingsBytes(settings)))
      else None
    case PushPromise(endHeaders, id, promised, fragment, pad) =>
      Finished(GenericFrame(PUSH_PROMISE, Flags(endHeaders := endHeaders, padded := pad.Some?), false, id,
                            Padded(ToBE(promised, 4) + fragment, pad)))
    case Ping(ack, opaque_) =>
      Finished(GenericFrame(PING, Flags(endStreamOrAck := ack), false, 0, opaque_))
    case GoAway(last, error, debug) =>
      Finished(GenericFrame(GOAWAY, Flags(), false, 0, ToBE(last, 4) + ToBE(error, 4) + debug))
    case WindowUpdate(id, increment) =>
      Finished(GenericFrame(WINDOW_UPDATE, Flags(), false, id, ToBE(increment, 4)))
    case Continuation(endHeaders, id, fragment) =>
      Finished(GenericFrame(CONTINUATION, Flags(endHeaders := endHeaders), false, id, fragment))
    case Generic(g) => Some(g)
  }

  // From generic to typed.

  datatype Cut = Cut(taken: Bytes, rest: Bytes)

  /** bslice: a negative length trips its assertion, a missing octet raises H2Error. */
  function Slice(data: Bytes, n: int): (r: Outcome<Cut>) {
    if n < 0 then AssertionError
    else if |data| < n then ProtocolError
    else Ok(Cut(data[..n], data[n..]))
  }

  /** The tail of three parsers: the body, then the padding, then nothing. */
  function BodyThenPadding(rest: Bytes, bodyLength: int, pad: Option<nat>): (r: Outcome<Bytes>) {
    var body :- Slice(rest, bodyLength);
    if pad.None? then if body.rest == [] then Ok(body.taken) else ProtocolError
    else
      var padding :- Slice(body.rest, pad.value);
      if padding.rest == [] then Ok(body.taken) else ProtocolError
  }

  datatype Start = Start(pad: Option<nat>, rest: Bytes)

  /** The Pad Length octet, if the flag announces one and the `prefix` octets before the body fit. */
  function TakePadLength(g: GenericFrame, prefix: nat): (r: Outcome<Start>)
    requires prefix > 0
  {
    if !g.flags.padded then Ok(Start(None, g.payload))
    else if prefix > |g.payload| then ProtocolError
    else Ok(Start(Some(g.payload[0]), g.payload[1..]))
  }

  function PadOr0(pad: Option<nat>): nat {
    if pad.Some? then pad.value else 0
  }

  function FromData(g: GenericFrame): (r: Outcome<Frame>) {
    var start :- TakePadLength(g, 1);
    var bodyLength := |g.payload| - if start.pad.Some? then start.pad.value + 1 else 0;
    var data :- BodyThenPadding(start.rest, bodyLength, start.pad);
    Construct(Data(g.flags.endStreamOrAck, g.streamId, data, start.pad))
  }

  function FromHeaders(g: GenericFrame): (r: Outcome<Frame>) {
    var start :- TakePadLength(g, 1);
    var prefix := if g.flags.padded then 1 else 0;
    if g.flags.priority then
      if prefix + 5 > |g.payload| then ProtocolError
      else
        var word := FromBE(start.rest[..4]);
        var weight := start.rest[4];
        var fragment :- BodyThenPadding(start.rest[5..], |g.payload| - (prefix + 5) - PadOr0(start.pad), start.pad);
        Construct(Headers(g.flags.endHeaders, g.flags.endStreamOrAck, g.streamId, Some(word >= MAX_STREAM),
                          Some(word % MAX_STREAM), Some(weight), fragment, start.pad))
    else
      var fragment :- BodyThenPadding(start.rest, |g.payload| - prefix - PadOr0(start.pad), start.pad);
      Construct(Headers(g.flags.endHeaders, g.flags.endStreamOrAck, g.streamId, None, None, None, fragment, start.pad))
  }

  function FromPriority(g: GenericFrame): (r: Outcome<Frame>) {
    if |g.payload| != 5 then ProtocolError
    else Construct(Priority(g.streamId, g.payload[0] / 128 == 1, FromBE(g.payload[..4]) % MAX_STREAM, g.payload[4]))
  }

  function FromRstStream(g: GenericFrame): (r: Outcome<Frame>) {
    if |g.payload| != 4 then ProtocolError
    else Construct(RstStream(g.streamId, FromBE(g.payload)))
  }

  function ParseSettings(payload: Bytes): (r: seq<Setting>)
    requires |payload| % 6 == 0
    ensures 6 * |r| == |payload|
  {
    if payload == [] then []
    else [Setting(FromBE(payload[..2]), FromBE(payload[2..6]))] + ParseSettings(payload[6..])
  }

  function FromSettings(g: GenericFrame): (r: Outcome<Frame>) {
    if g.streamId != 0 then ProtocolError
    else if |g.payload| % 6 != 0 then ProtocolError
    else Construct(Settings(g.flags.endStreamOrAck, ParseSettings(g.payload)))
  }

  function FromPushPromise(g: GenericFrame): (r: Outcome<Frame>) {
    var start :- TakePadLength(g, 5);
    var prefix := if g.flags.padded then 5 else 4;
    var promised :- Slice(start.rest, 4);
    var fragment :- BodyThenPadding(promised.rest, |g.payload| - prefix - PadOr0(start.pad), start.pad);
    Construct(PushPromise(g.flags.endHeaders, g.streamId, FromBE(promised.taken) % MAX_STREAM, fragment, start.pad))
  }

  function FromPing(g: GenericFrame): (r: Outcome<Frame>) {
    if g.streamId != 0 then ProtocolError else Construct(Ping(g.flags.endStreamOrAck, g.payload))
  }

  function FromGoAway(g: GenericFrame): (r: Outcome<Frame>) {
    if g.streamId != 0 || |g.payload| < 8 then ProtocolError
    else Construct(GoAway(FromBE(g.payload[..4]) % MAX_STREAM, FromBE(g.payload[4..8]), g.payload[8..]))
  }

  function FromWindowUpdate(g: GenericFrame): (r: Outcome<Frame>) {
    if |g.payload| != 4 then ProtocolError
    else Construct(WindowUpdate(g.streamId, FromBE(g.payload) % MAX_STREAM))
  }

  function FromContinuation(g: GenericFrame): (r: Outcome<Frame>) {
    Construct(Continuation(g.flags.endHeaders, g.streamId, g.payload))
  }

  /** The `from_h2frame` that the type selects. */
  function FromGeneric(g: GenericFrame): (r: Outcome<Frame>) {
    if g.typ == DATA then FromData(g)
    else if g.typ == HEADERS then FromHeaders(g)
    else if g.typ == PRIORITY then FromPriority(g)
    else if g.typ == RST_STREAM then FromRstStream(g)
    else if g.typ == SETTINGS then FromSettings(g)
    else if g.typ == PUSH_PROMISE then FromPushPromise(g)
    else if g.typ == PING then FromPing(g)
    else if g.typ == GOAWAY then FromGoAway(g)
    else if g.typ == WINDOW_UPDATE then FromWindowUpdate(g)
    else if g.typ == CONTINUATION then FromContinuation(g)
    else Ok(Generic(g))
  }

  /** H2GenericFrame.specialize: H2Error means the frame stays generic; an assertion gets through. */
  function Specialize(g: GenericFrame): (r: Outcome<Frame>) {
    match FromGeneric(g)
    case Ok(f) => Ok(f)
    case ProtocolError => Ok(Generic(g))
    case AssertionError => AssertionError
  }

  /** The list comprehension of parse_frames. */
  function SpecializeAll(frames: seq<GenericFrame>): (r: Outcome<seq<Frame>>) {
    if frames == [] then Ok([])
    else
      var first :- Specialize(frames[0]);
      var others :- SpecializeAll(frames[1..]);
      Ok([first] + others)
  }

  /** parse_frames. */
  function ParseTyped(data: Bytes): (r: Outcome<seq<Frame>>) {
    var frames := ParseFrames(data);
    if frames.None? then ProtocolError else SpecializeAll(frames.value)
  }
}
