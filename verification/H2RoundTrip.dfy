/** Typed frames survive the wire, and specialising a generic frame normalises it. */
module H2RoundTrip {
  import opened Wire
  import opened BigEndian
  import opened H2Generic
  import opened H2Frame

  // The parts.

  lemma BodyParses(body: Bytes, pad: Option<nat>)
    ensures BodyThenPadding(body + Zeros(PadOr0(pad)), |body|, pad) == Ok(body)
  {
    var rest := body + Zeros(PadOr0(pad));
    assert rest[..|body|] == body && rest[|body|..] == Zeros(PadOr0(pad));
  }

  lemma PaddedParses(g: GenericFrame, body: Bytes, pad: Option<nat>, prefix: nat)
    requires GoodPad(pad) && g.payload == Padded(body, pad) && g.flags.padded == pad.Some?
    requires 0 < prefix <= |body| + 1
    ensures TakePadLength(g, prefix) == Ok(Start(pad, body + Zeros(PadOr0(pad))))
    ensures |g.payload| == |body| + (if pad.Some? then 1 + pad.value else 0)
  {
    if pad.Some? {
      Reassociate([pad.value], body, Zeros(pad.value));
    } else {
      assert body + Zeros(0) == body;
    }
  }

  lemma WordSplits(top: bool, low: nat)
    requires low < MAX_STREAM
    ensures var word := (if top then MAX_STREAM else 0) + low;
            && FromBE(ToBE(word, 4)) == word
            && (word >= MAX_STREAM <==> top)
            && word % MAX_STREAM == low
  {
    Powers();
    FromToBE((if top then MAX_STREAM else 0) + low, 4);
  }

  /** The first octet of a 32-bit word carries its top bit. */
  lemma TopBit(word: nat)
    requires word < 0x1_0000_0000
    ensures ToBE(word, 4)[0] / 128 == 1 <==> word >= MAX_STREAM
  {
    assert ToBE(word, 4)[0] == ToBE(word / 256 / 256 / 256, 1)[0] by {
      assert ToBE(word / 256, 3)[..2] == ToBE(word / 256 / 256, 2);
      assert ToBE(word / 256 / 256, 2)[..1] == ToBE(word / 256 / 256 / 256, 1);
    }
    assert ToBE(word / 256 / 256 / 256, 1) == [word / 256 / 256 / 256 % 256];
  }

  lemma {:induction false} SettingsParse(settings: seq<Setting>)
    requires SettingsFit(settings)
    ensures ParseSettings(SettingsBytes(settings)) == settings
  {
    if settings != [] {
      var s := settings[0];
      var id, value, others := ToBE(s.id, 2), ToBE(s.value, 4), SettingsBytes(settings[1..]);
      Powers();
      FromToBE(s.id, 2);
      FromToBE(s.value, 4);
      SettingsParse(settings[1..]);
      var all := SettingsBytes(settings);
      assert all[..2] == id && all[2..6] == value && all[6..] == others;
    }
  }

  lemma {:induction false} ParsedSettingsFit(payload: Bytes)
    requires |payload| % 6 == 0
    ensures SettingsFit(ParseSettings(payload))
  {
    if payload != [] {
      Powers();
      ParsedSettingsFit(payload[6..]);
    }
  }

  // One lemma for each frame type with a structured payload.

  predicate AllOrNone(f: Frame)
    requires f.Headers?
  {
    HasPriority(f) || (f.exclusive.None? && f.dependency.None? && f.weight.None?)
  }

  lemma DataRoundTrip(f: Frame)
    requires f.Data? && Constructible(f) && ToGeneric(f).Some?
    ensures FromData(ToGeneric(f).value) == Ok(f)
  {
    PaddedParses(ToGeneric(f).value, f.data, f.padLength, 1);
    BodyParses(f.data, f.padLength);
  }

  lemma HeadersRoundTrip(f: Frame)
    requires f.Headers? && Constructible(f) && ToGeneric(f).Some? && AllOrNone(f)
    ensures FromHeaders(ToGeneric(f).value) == Ok(f)
  {
    var g := ToGeneric(f).value;
    var body := HeadersBody(f);
    PaddedParses(g, body, f.padLength, 1);
    if HasPriority(f) {
      var dependency, top := f.dependency.value, f.exclusive.value;
      WordSplits(top, dependency);
      var start := body + Zeros(PadOr0(f.padLength));
      var word := ToBE((if top then MAX_STREAM else 0) + dependency, 4);
      assert start[..4] == word && start[4] == f.weight.value;
      assert start[5..] == f.fragment + Zeros(PadOr0(f.padLength));
    }
    BodyParses(f.fragment, f.padLength);
  }

  lemma SliceAt(a: Bytes, b: Bytes)
    ensures Slice(a + b, |a|) == Ok(Cut(a, b))
  {
    assert (a + b)[..|a|] == a && (a + b)[|a|..] == b;
  }

  lemma PushPromiseRoundTrip(f: Frame)
    requires f.PushPromise? && Constructible(f) && ToGeneric(f).Some?
    ensures FromPushPromise(ToGeneric(f).value) == Ok(f)
  {
    var promised := ToBE(f.promisedId, 4);
    PaddedParses(ToGeneric(f).value, promised + f.fragment, f.padLength, 5);
    WordSplits(false, f.promisedId);
    Reassociate(promised, f.fragment, Zeros(PadOr0(f.padLength)));
    SliceAt(promised, f.fragment + Zeros(PadOr0(f.padLength)));
    BodyParses(f.fragment, f.padLength);
  }

  lemma PriorityRoundTrip(f: Frame)
    requires f.Priority? && Constructible(f)
    ensures FromPriority(ToGeneric(f).value) == Ok(f)
  {
    var word := (if f.exclusively then MAX_STREAM else 0) + f.dependsOn;
    WordSplits(f.exclusively, f.dependsOn);
    TopBit(word);
    assert PriorityBytes(f.exclusively, f.dependsOn, f.weighs)[..4] == ToBE(word, 4);
  }

  lemma GoAwayRoundTrip(f: Frame)
    requires f.GoAway? && Constructible(f) && ToGeneric(f).Some?
    ensures FromGoAway(ToGeneric(f).value) == Ok(f)
  {
    WordSplits(false, f.lastStreamId);
    Powers();
    FromToBE(f.errorCode, 4);
    var payload := ToGeneric(f).value.payload;
    assert payload[..4] == ToBE(f.lastStreamId, 4) && payload[4..8] == ToBE(f.errorCode, 4) && payload[8..] == f.debugData;
  }

  lemma SimpleRoundTrip(f: Frame)
    requires f.RstStream? || f.Settings? || f.Ping? || f.WindowUpdate? || f.Continuation?
    requires Constructible(f) && ToGeneric(f).Some?
    ensures FromGeneric(ToGeneric(f).value) == Ok(f)
  {
    Powers();
    match f
    case RstStream(_, error) => FromToBE(error, 4);
    case Settings(_, settings) => SettingsParse(settings);
    case WindowUpdate(_, increment) => WordSplits(false, increment);
    case _ =>
  }

  /** A frame that can be built, printed, and has all or none of its priority fields. A generic frame
      counts if specialising leaves it generic. */
  predicate Sendable(f: Frame) {
    && Constructible(f)
    && ToGeneric(f).Some?
    && (f.Headers? ==> AllOrNone(f))
    && (f.Generic? ==> Specialize(f.frame) == Ok(f))
  }

  /** All ten typed frames: specialising the generic form gives the frame back. */
  lemma FrameSurvives(f: Frame)
    requires Sendable(f)
    ensures Specialize(ToGeneric(f).value) == Ok(f)
  {
    match f
    case Data(_, _, _, _) => DataRoundTrip(f);
    case Headers(_, _, _, _, _, _, _, _) => HeadersRoundTrip(f);
    case Priority(_, _, _, _) => PriorityRoundTrip(f);
    case PushPromise(_, _, _, _, _) => PushPromiseRoundTrip(f);
    case GoAway(_, _, _) => GoAwayRoundTrip(f);
    case Generic(_) =>
    case _ => SimpleRoundTrip(f);
  }

  /** A HEADERS frame with some but not all priority fields is constructible, prints without priority,
      and so loses them: it survives exactly when it has all or none. */
  lemma HeadersSurviveExactly(f: Frame)
    requires f.Headers? && Constructible(f) && ToGeneric(f).Some?
    ensures Specialize(ToGeneric(f).value) == Ok(f) <==> AllOrNone(f)
  {
    if AllOrNone(f) {
      HeadersRoundTrip(f);
    } else {
      HeadersRoundTrip(f.(exclusive := None, dependency := None, weight := None));
    }
  }

  lemma PartialPriorityIsConstructible()
    ensures var f := Headers(true, false, 1, None, Some(3), None, [], None);
            Constructible(f) && ToGeneric(f).Some? && !AllOrNone(f)
  {}

  // Lists of frames.

  ghost predicate AllSendable(frames: seq<Frame>) {
    forall i | 0 <= i < |frames| :: Sendable(frames[i])
  }

  ghost function GenericForms(frames: seq<Frame>): (r: seq<GenericFrame>)
    requires AllSendable(frames)
    ensures |r| == |frames| && AllValid(r)
    ensures forall i | 0 <= i < |r| :: r[i] == ToGeneric(frames[i]).value
  {
    seq(|frames|, i requires 0 <= i < |frames| => ToGeneric(frames[i]).value)
  }

  /** The concatenated `to_bytes` of a list of frames. */
  ghost function TypedBytes(frames: seq<Frame>): Bytes
    requires AllSendable(frames)
  {
    AllFrameBytes(GenericForms(frames))
  }

  lemma {:induction false} AllSurvive(frames: seq<Frame>)
    requires AllSendable(frames)
    ensures SpecializeAll(GenericForms(frames)) == Ok(frames)
  {
    if frames != [] {
      FrameSurvives(frames[0]);
      AllSurvive(frames[1..]);
      assert GenericForms(frames)[1..] == GenericForms(frames[1..]);
      assert [frames[0]] + frames[1..] == frames;
    }
  }

  /** Parsing the concatenated octets of any list of frames gives the same list. */
  lemma TypedRoundTrip(frames: seq<Frame>)
    requires AllSendable(frames)
    ensures ParseTyped(TypedBytes(frames)) == Ok(frames)
  {
    FramesAreABijection(TypedBytes(frames), GenericForms(frames));
    AllSurvive(frames);
  }

  // Specialising an arbitrary generic frame.

  lemma BodyLengths(rest: Bytes, n: int, pad: Option<nat>)
    ensures var r := BodyThenPadding(rest, n, pad);
            && (r.AssertionError? <==> n < 0)
            && (r.Ok? ==> |r.value| == n && |rest| == n + PadOr0(pad))
  {}

  /** What is the same before and after: the type, the stream and the payload length. */
  predicate SameOutline(g: GenericFrame, h: GenericFrame) {
    g.typ == h.typ && g.streamId == h.streamId && |g.payload| == |h.payload|
  }

  lemma DataOutline(g: GenericFrame)
    requires g.Valid() && g.typ == DATA && FromData(g).Ok?
    ensures ToGeneric(FromData(g).value).Some? && SameOutline(g, ToGeneric(FromData(g).value).value)
  {
    var start := TakePadLength(g, 1).value;
    BodyLengths(start.rest, |g.payload| - if start.pad.Some? then start.pad.value + 1 else 0, start.pad);
  }

  lemma PlainHeadersOutline(g: GenericFrame)
    requires g.Valid() && g.typ == HEADERS && FromHeaders(g).Ok? && !g.flags.priority
    ensures AllOrNone(FromHeaders(g).value)
    ensures ToGeneric(FromHeaders(g).value).Some? && SameOutline(g, ToGeneric(FromHeaders(g).value).value)
  {
    var start := TakePadLength(g, 1).value;
    BodyLengths(start.rest, |g.payload| - (if g.flags.padded then 1 else 0) - PadOr0(start.pad), start.pad);
  }

  lemma HeadersOutline(g: GenericFrame)
    requires g.Valid() && g.typ == HEADERS && FromHeaders(g).Ok?
    ensures AllOrNone(FromHeaders(g).value)
    ensures ToGeneric(FromHeaders(g).value).Some? && SameOutline(g, ToGeneric(FromHeaders(g).value).value)
  {
    if g.flags.priority {
      var start := TakePadLength(g, 1).value;
      BodyLengths(start.rest[5..], |g.payload| - ((if g.flags.padded then 1 else 0) + 5) - PadOr0(start.pad), start.pad);
    } else {
      PlainHeadersOutline(g);
    }
  }

  lemma PushPromiseOutline(g: GenericFrame)
    requires g.Valid() && g.typ == PUSH_PROMISE && FromPushPromise(g).Ok?
    ensures ToGeneric(FromPushPromise(g).value).Some? && SameOutline(g, ToGeneric(FromPushPromise(g).value).value)
  {
    var start := TakePadLength(g, 5).value;
    var prefix := if g.flags.padded then 5 else 4;
    BodyLengths(start.rest[4..], |g.payload| - prefix - PadOr0(start.pad), start.pad);
  }

  /** Settings are read back by value; the other frames without padding have a fixed layout. */
  lemma SimpleOutline(g: GenericFrame)
    requires g.Valid() && g.typ !in {DATA, HEADERS, PUSH_PROMISE} && FromGeneric(g).Ok?
    ensures var f := FromGeneric(g).value;
            && Constructible(f) && !f.Headers?
            && ToGeneric(f).Some? && SameOutline(g, ToGeneric(f).value)
            && (f.Generic? ==> f == Generic(g))
  {
    Powers();
    if g.typ == SETTINGS && |g.payload| % 6 == 0 {
      ParsedSettingsFit(g.payload);
    }
  }

  /** A frame made from `g` that can be sent in its place. */
  predicate Replaces(g: GenericFrame, f: Frame) {
    && Constructible(f) && (f.Headers? ==> AllOrNone(f)) && (f.Generic? ==> f == Generic(g))
    && ToGeneric(f).Some? && SameOutline(g, ToGeneric(f).value)
  }

  lemma PaddedReplaces(g: GenericFrame)
    requires g.Valid() && g.typ in {DATA, HEADERS, PUSH_PROMISE} && FromGeneric(g).Ok?
    ensures Replaces(g, FromGeneric(g).value)
  {
    if g.typ == DATA {
      DataOutline(g);
    } else if g.typ == HEADERS {
      HeadersOutline(g);
    } else {
      PushPromiseOutline(g);
    }
  }

  lemma FromGenericReplaces(g: GenericFrame)
    requires g.Valid() && FromGeneric(g).Ok?
    ensures Replaces(g, FromGeneric(g).value)
  {
    if g.typ in {DATA, HEADERS, PUSH_PROMISE} {
      PaddedReplaces(g);
    } else {
      SimpleOutline(g);
    }
  }

  /** A frame that specialises is sendable again, with the same type, stream and payload length. */
  lemma SpecializedIsSendable(g: GenericFrame)
    requires g.Valid() && Specialize(g).Ok?
    ensures var f := Specialize(g).value;
            && Sendable(f)
            && SameOutline(g, ToGeneric(f).value)
  {
    if FromGeneric(g).Ok? {
      FromGenericReplaces(g);
    }
  }

  /** Specialising normalises: printing the typed frame and specialising again gives the same typed frame. */
  lemma SpecializeIsIdempotent(g: GenericFrame)
    requires g.Valid() && Specialize(g).Ok?
    ensures var f := Specialize(g).value;
            && ToGeneric(f).Some?
            && SameOutline(g, ToGeneric(f).value)
            && Specialize(ToGeneric(f).value) == Ok(f)
  {
    SpecializedIsSendable(g);
    FrameSurvives(Specialize(g).value);
  }

  /** Padding that does not fit, after a prefix that does: where `bslice` is asked for a negative length. */
  predicate Overpadded(g: GenericFrame) {
    && g.flags.padded
    && g.payload != []
    && var prefix := if g.typ == PUSH_PROMISE then 5 else if g.typ == HEADERS && g.flags.priority then 6 else 1;
       && g.typ in {DATA, HEADERS, PUSH_PROMISE}
       && prefix <= |g.payload| < prefix + g.payload[0]
  }

  lemma DataFails(g: GenericFrame)
    requires g.typ == DATA
    ensures FromData(g) == AssertionError <==> Overpadded(g)
  {
    if TakePadLength(g, 1).Ok? {
      var start := TakePadLength(g, 1).value;
      BodyLengths(start.rest, |g.payload| - if start.pad.Some? then start.pad.value + 1 else 0, start.pad);
    }
  }

  lemma HeadersFail(g: GenericFrame)
    requires g.typ == HEADERS
    ensures FromHeaders(g) == AssertionError <==> Overpadded(g)
  {
    if TakePadLength(g, 1).Ok? {
      var start := TakePadLength(g, 1).value;
      var prefix := if g.flags.padded then 1 else 0;
      if !g.flags.priority {
        BodyLengths(start.rest, |g.payload| - prefix - PadOr0(start.pad), start.pad);
      } else if prefix + 5 <= |g.payload| {
        BodyLengths(start.rest[5..], |g.payload| - (prefix + 5) - PadOr0(start.pad), start.pad);
      }
    }
  }

  lemma PushPromiseFails(g: GenericFrame)
    requires g.typ == PUSH_PROMISE
    ensures FromPushPromise(g) == AssertionError <==> Overpadded(g)
  {
    if TakePadLength(g, 5).Ok? && |TakePadLength(g, 5).value.rest| >= 4 {
      var start := TakePadLength(g, 5).value;
      var prefix := if g.flags.padded then 5 else 4;
      BodyLengths(start.rest[4..], |g.payload| - prefix - PadOr0(start.pad), start.pad);
    }
  }

  /** specialize gets through with an AssertionError exactly on over-padded frames. */
  lemma SpecializeFailsExactly(g: GenericFrame)
    ensures Specialize(g) == AssertionError <==> Overpadded(g)
  {
    if g.typ == DATA {
      DataFails(g);
    } else if g.typ == HEADERS {
      HeadersFail(g);
    } else if g.typ == PUSH_PROMISE {
      PushPromiseFails(g);
    }
  }

  /** A DATA frame whose only octet announces one octet of padding. */
  lemma OverpaddedIsPossible()
    ensures var g := GenericFrame(DATA, Flags(padded := true), false, 1, [1]);
            g.Valid() && Specialize(g) == AssertionError && ParseTyped(FrameBytes(g)) == AssertionError
  {
    var g := GenericFrame(DATA, Flags(padded := true), false, 1, [1]);
    SpecializeFailsExactly(g);
    assert AllFrameBytes([g]) == FrameBytes(g) + [] == FrameBytes(g);
    FramesAreABijection(FrameBytes(g), [g]);
  }

  /** So parse_frames fails on whole frames exactly when one of them is over-padded. */
  lemma {:induction false} ParseTypedFailsExactly(frames: seq<GenericFrame>)
    requires AllValid(frames)
    ensures ParseTyped(AllFrameBytes(frames)).Ok? <==> forall i | 0 <= i < |frames| :: !Overpadded(frames[i])
    ensures !ParseTyped(AllFrameBytes(frames)).ProtocolError?
  {
    FramesAreABijection(AllFrameBytes(frames), frames);
    SpecializeAllFails(frames);
  }

  lemma {:induction false} SpecializeAllFails(frames: seq<GenericFrame>)
    ensures SpecializeAll(frames).Ok? <==> forall i | 0 <= i < |frames| :: !Overpadded(frames[i])
    ensures !SpecializeAll(frames).ProtocolError?
  {
    if frames != [] {
      SpecializeFailsExactly(frames[0]);
      SpecializeAllFails(frames[1..]);
      assert frames == [frames[0]] + frames[1..];
    }
  }
}
