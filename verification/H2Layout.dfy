/** HTTP/2 frames octet by octet, with the numbers of RFC 9113 written out. */
module H2Layout {
  import opened Wire
  import opened Bits
  import opened BigEndian
  import opened H2Generic
  import opened H2Frame
  import opened H2RoundTrip

  // Numbers and bits.

  /** The most significant octet comes first. */
  lemma {:induction false} BigEndianAt(v: nat, n: nat, i: nat)
    requires i < n
    ensures ToBE(v, n)[i] == v / Pow256(n - 1 - i) % 256
  {
    if i < n - 1 {
      BigEndianAt(v / 256, n - 1, i);
      DivideTwice(v, 256, Pow256(n - 2 - i));
    }
  }

  lemma DivideTwice(v: nat, a: nat, b: nat)
    requires a > 0 && b > 0
    ensures a * b > 0 && v / a / b == v / (a * b)
  {
    var q := v / a;
    var x, y := q / b, q % b;
    var r := v % a;
    Regroup(x, b, a);
    assert v == (x * b + y) * a + r;
    assert (x * b + y) * a == x * (a * b) + y * a by {
      Distribute(x * b, y, a);
    }
    ProductGrows(y + 1, b, a);
    assert y * a + r < a * b by {
      Distribute(y, 1, a);
    }
    DivisionIsUnique(v, a * b, x, y * a + r);
  }

  lemma Regroup(x: nat, b: nat, a: nat)
    ensures (x * b) * a == x * (a * b)
  {}

  lemma Distribute(x: nat, y: nat, a: nat)
    ensures (x + y) * a == x * a + y * a
  {}

  function Bit(set_: bool, mask: nat): nat {
    if set_ then mask else 0
  }

  lemma EightBits(bits: Bitstring)
    requires |bits| == 8
    ensures ValueOf(bits) == Bit(bits[0], 0x80) + Bit(bits[1], 0x40) + Bit(bits[2], 0x20) + Bit(bits[3], 0x10)
                             + Bit(bits[4], 0x08) + Bit(bits[5], 0x04) + Bit(bits[6], 0x02) + Bit(bits[7], 0x01)
  {
    FourBits(bits[..4]);
    FourBits(bits[4..]);
    assert bits == bits[..4] + bits[4..];
    ValueOfConcat(bits[..4], bits[4..]);
    assert Pow2(4) == 16;
  }

  lemma FourBits(bits: Bitstring)
    requires |bits| == 4
    ensures ValueOf(bits) == Bit(bits[0], 8) + Bit(bits[1], 4) + Bit(bits[2], 2) + Bit(bits[3], 1)
  {
    TwoBits(bits[..2]);
    TwoBits(bits[2..]);
    assert bits == bits[..2] + bits[2..];
    ValueOfConcat(bits[..2], bits[2..]);
    assert Pow2(2) == 4;
  }

  lemma TwoBits(bits: Bitstring)
    requires |bits| == 2
    ensures ValueOf(bits) == Bit(bits[0], 2) + Bit(bits[1], 1)
  {
    assert bits == ([] + [bits[0]]) + [bits[1]];
    ValueOfSnoc([], bits[0]);
    ValueOfSnoc([] + [bits[0]], bits[1]);
  }

  /** The flags octet, mask by mask (sections 6.1 to 6.10). */
  lemma FlagsByMask(f: Flags)
    ensures FlagsByte(f) == Bit(f.unused7, 0x80) + Bit(f.unused6, 0x40) + Bit(f.priority, 0x20) + Bit(f.unused4, 0x10)
                            + Bit(f.padded, 0x08) + Bit(f.endHeaders, 0x04) + Bit(f.unused1, 0x02) + Bit(f.endStreamOrAck, 0x01)
  {
    EightBits(FlagBits(f));
  }

  /** The flags that are read from an octet are those whose masks make it up. */
  lemma ParsedFlagsByMask(b: Byte)
    ensures var f := ParseFlags(b);
            b == Bit(f.unused7, 0x80) + Bit(f.unused6, 0x40) + Bit(f.priority, 0x20) + Bit(f.unused4, 0x10)
                 + Bit(f.padded, 0x08) + Bit(f.endHeaders, 0x04) + Bit(f.unused1, 0x02) + Bit(f.endStreamOrAck, 0x01)
  {
    FlagsByteParse(b);
    FlagsByMask(ParseFlags(b));
  }

  /** Bit 0 is END_STREAM or ACK. */
  lemma LowestFlag(b: Byte)
    ensures ParseFlags(b).endStreamOrAck <==> b % 2 == 1
  {
    var f := ParseFlags(b);
    ParsedFlagsByMask(b);
    DivisionIsUnique(b, 2, Bit(f.unused7, 0x40) + Bit(f.unused6, 0x20) + Bit(f.priority, 0x10) + Bit(f.unused4, 0x08)
                           + Bit(f.padded, 0x04) + Bit(f.endHeaders, 0x02) + Bit(f.unused1, 0x01), Bit(f.endStreamOrAck, 1));
  }

  /** Bit 2 is END_HEADERS. */
  lemma ThirdFlag(b: Byte)
    ensures ParseFlags(b).endHeaders <==> b / 4 % 2 == 1
  {
    var f := ParseFlags(b);
    ParsedFlagsByMask(b);
    var high := Bit(f.unused7, 0x10) + Bit(f.unused6, 0x08) + Bit(f.priority, 0x04) + Bit(f.unused4, 0x02) + Bit(f.padded, 0x01);
    DivisionIsUnique(b, 4, 2 * high + Bit(f.endHeaders, 1), Bit(f.unused1, 2) + Bit(f.endStreamOrAck, 1));
    DivisionIsUnique(2 * high + Bit(f.endHeaders, 1), 2, high, Bit(f.endHeaders, 1));
  }

  /** The bits of an octet, most significant first. */
  lemma BitsByMask(b: Byte)
    ensures var bits := ToBits(b);
            b == Bit(bits[0], 0x80) + Bit(bits[1], 0x40) + Bit(bits[2], 0x20) + Bit(bits[3], 0x10)
                 + Bit(bits[4], 0x08) + Bit(bits[5], 0x04) + Bit(bits[6], 0x02) + Bit(bits[7], 0x01)
  {
    Pow2Of8();
    ValueOfBitsOf(b, 8);
    EightBits(ToBits(b));
  }

  // What section 4.1 and sections 6.1 to 6.10 say a frame is on the wire.

  function OnTheWire(typ: nat, flags: nat, stream: nat, payload: Bytes): (r: Bytes)
    requires typ < 256 && flags < 256
  {
    ToBE(|payload|, 3) + [typ] + [flags] + ToBE(stream, 4) + payload
  }

  function WithPadding(pad: Option<nat>, body: Bytes): (r: Bytes)
    requires GoodPad(pad)
  {
    match pad
    case None => body
    case Some(n) => [n] + body + Zeros(n)
  }

  /** Identifier and value of each setting. */
  function SettingsLayout(settings: seq<Setting>): (r: Bytes) {
    if settings == [] then [] else ToBE(settings[0].id, 2) + ToBE(settings[0].value, 4) + SettingsLayout(settings[1..])
  }

  /** A 31-bit number under one bit. */
  function Under(top: bool, low: nat): nat {
    Bit(top, 0x8000_0000) + low
  }

  function PriorityLayout(f: Frame): (r: Bytes)
    requires f.Headers? && Constructible(f)
  {
    if f.exclusive.Some? && f.dependency.Some? && f.weight.Some? then
      ToBE(Under(f.exclusive.value, f.dependency.value), 4) + [f.weight.value]
    else []
  }

  /** A typed frame on the wire. */
  function Layout(f: Frame): (r: Bytes)
    requires Constructible(f) && !f.Generic?
  {
    match f
    case Data(endStream, id, data, pad) =>
      OnTheWire(0, Bit(endStream, 0x01) + Bit(pad.Some?, 0x08), id, WithPadding(pad, data))
    case Headers(endHeaders, endStream, id, _, _, _, fragment, pad) =>
      OnTheWire(1, Bit(endStream, 0x01) + Bit(endHeaders, 0x04) + Bit(pad.Some?, 0x08) + Bit(PriorityLayout(f) != [], 0x20), id,
                WithPadding(pad, PriorityLayout(f) + fragment))
    case Priority(id, exclusive, dependency, weight) => OnTheWire(2, 0, id, ToBE(Under(exclusive, dependency), 4) + [weight])
    case RstStream(id, error) => OnTheWire(3, 0, id, ToBE(error, 4))
    case Settings(ack, settings) => OnTheWire(4, Bit(ack, 0x01), 0, SettingsLayout(settings))
    case PushPromise(endHeaders, id, promised, fragment, pad) =>
      OnTheWire(5, Bit(endHeaders, 0x04) + Bit(pad.Some?, 0x08), id, WithPadding(pad, ToBE(promised, 4) + fragment))
    case Ping(ack, opaque_) => OnTheWire(6, Bit(ack, 0x01), 0, opaque_)
    case GoAway(last, error, debug) => OnTheWire(7, 0, 0, ToBE(last, 4) + ToBE(error, 4) + debug)
    case WindowUpdate(id, increment) => OnTheWire(8, 0, id, ToBE(increment, 4))
    case Continuation(endHeaders, id, fragment) => OnTheWire(9, Bit(endHeaders, 0x04), id, fragment)
  }

  lemma {:induction false} SettingsByLayout(settings: seq<Setting>)
    ensures SettingsBytes(settings) == SettingsLayout(settings)
  {
    if settings != [] {
      SettingsByLayout(settings[1..]);
    }
  }

  lemma GenericLayout(g: GenericFrame)
    requires g.Valid()
    ensures FrameBytes(g) == OnTheWire(g.typ, FlagsByte(g.flags), Under(g.reserved, g.streamId), g.payload)
  {}

  lemma DataLayout(f: Frame)
    requires f.Data? && Constructible(f) && ToGeneric(f).Some?
    ensures FrameBytes(ToGeneric(f).value) == Layout(f)
  {
    GenericLayout(ToGeneric(f).value);
    FlagsByMask(ToGeneric(f).value.flags);
  }

  lemma HeadersLayout(f: Frame)
    requires f.Headers? && Constructible(f) && ToGeneric(f).Some?
    ensures FrameBytes(ToGeneric(f).value) == Layout(f)
  {
    GenericLayout(ToGeneric(f).value);
    FlagsByMask(ToGeneric(f).value.flags);
    HeadersBodyLayout(f);
  }

  lemma HeadersBodyLayout(f: Frame)
    requires f.Headers? && Constructible(f)
    ensures HeadersBody(f) == PriorityLayout(f) + f.fragment && (HasPriority(f) <==> PriorityLayout(f) != [])
  {
    assert [] + f.fragment == f.fragment;
  }

  lemma PushPromiseLayout(f: Frame)
    requires f.PushPromise? && Constructible(f) && ToGeneric(f).Some?
    ensures FrameBytes(ToGeneric(f).value) == Layout(f)
  {
    GenericLayout(ToGeneric(f).value);
    FlagsByMask(ToGeneric(f).value.flags);
  }

  lemma FixedLayout(f: Frame)
    requires f.Priority? || f.RstStream? || f.GoAway? || f.WindowUpdate?
    requires Constructible(f) && ToGeneric(f).Some?
    ensures FrameBytes(ToGeneric(f).value) == Layout(f)
  {
    GenericLayout(ToGeneric(f).value);
    FlagsByMask(ToGeneric(f).value.flags);
  }

  lemma FlaggedLayout(f: Frame)
    requires f.Settings? || f.Ping? || f.Continuation?
    requires Constructible(f) && ToGeneric(f).Some?
    ensures FrameBytes(ToGeneric(f).value) == Layout(f)
  {
    GenericLayout(ToGeneric(f).value);
    FlagsByMask(ToGeneric(f).value.flags);
    if f.Settings? {
      SettingsByLayout(f.settings);
    }
  }

  /** Every typed frame prints as its section says. */
  lemma FrameLayout(f: Frame)
    requires Constructible(f) && !f.Generic? && ToGeneric(f).Some?
    ensures FrameBytes(ToGeneric(f).value) == Layout(f)
  {
    match f
    case Data(_, _, _, _) => DataLayout(f);
    case Headers(_, _, _, _, _, _, _, _) => HeadersLayout(f);
    case PushPromise(_, _, _, _, _) => PushPromiseLayout(f);
    case Settings(_, _) => FlaggedLayout(f);
    case Ping(_, _) => FlaggedLayout(f);
    case Continuation(_, _, _) => FlaggedLayout(f);
    case _ => FixedLayout(f);
  }

  /** Octet 3 is the type, and octet 4 is the sum of the masks of the flags that are set. */
  lemma TypeAndFlagsOctets(typ: nat, flags: nat, stream: nat, payload: Bytes)
    requires typ < 256 && flags < 256
    ensures var octets := OnTheWire(typ, flags, stream, payload);
            |octets| == 9 + |payload| && octets[3] == typ && octets[4] == flags && octets[9..] == payload
  {}

  /** The octets of a list of typed frames, one layout after the other. */
  function Layouts(frames: seq<Frame>): (r: Bytes)
    requires forall i | 0 <= i < |frames| :: Constructible(frames[i]) && !frames[i].Generic?
  {
    if frames == [] then [] else Layout(frames[0]) + Layouts(frames[1..])
  }

  lemma {:induction false} TypedLayouts(frames: seq<Frame>)
    requires AllSendable(frames) && forall i | 0 <= i < |frames| :: !frames[i].Generic?
    ensures TypedBytes(frames) == Layouts(frames)
  {
    if frames != [] {
      TypedLayouts(frames[1..]);
      FrameLayout(frames[0]);
      assert GenericForms(frames)[1..] == GenericForms(frames[1..]);
    }
  }

  /** parse_frames reads the layouts of the standard. */
  lemma LayoutsParse(frames: seq<Frame>)
    requires AllSendable(frames) && forall i | 0 <= i < |frames| :: !frames[i].Generic?
    ensures ParseTyped(Layouts(frames)) == Ok(frames)
  {
    TypedLayouts(frames);
    TypedRoundTrip(frames);
  }

  // Which frames specialise.

  /** The Pad Length octet and the fixed part fit. */
  predicate PrefixFits(g: GenericFrame, fixed: nat) {
    |g.payload| >= fixed + if g.flags.padded then 1 else 0
  }

  /** What sections 6.1 to 6.10 ask of a frame, as far as the code does. */
  predicate Acceptable(g: GenericFrame) {
    match g.typ
    case 0 => g.streamId > 0 && PrefixFits(g, 0)
    case 1 => g.streamId > 0 && PrefixFits(g, if g.flags.priority then 5 else 0)
    case 2 => g.streamId > 0 && |g.payload| == 5
    case 3 => g.streamId > 0 && |g.payload| == 4
    case 4 => g.streamId == 0 && |g.payload| % 6 == 0 && (g.flags.endStreamOrAck ==> g.payload == [])
    case 5 => g.streamId > 0 && PrefixFits(g, 4) && FromBE(g.payload[if g.flags.padded then 1 else 0..][..4]) % 0x8000_0000 > 0
    case 6 => g.streamId == 0 && |g.payload| == 8
    case 7 => g.streamId == 0 && |g.payload| >= 8
    case 8 => |g.payload| == 4 && FromBE(g.payload) % 0x8000_0000 > 0
    case 9 => g.streamId > 0
    case _ => false
  }

  /** The body of a padded frame behind `fixed` octets of its own. */
  lemma PaddedBody(g: GenericFrame, fixed: nat) returns (start: Start)
    requires g.flags.padded ==> g.payload != [] && |g.payload| >= 1 + fixed + g.payload[0]
    requires |g.payload| >= fixed
    ensures TakePadLength(g, 1 + fixed) == Ok(start)
    ensures start.rest == g.payload[if g.flags.padded then 1 else 0..] && |start.rest| >= fixed
    ensures start.pad == if g.flags.padded then Some(g.payload[0]) else None
    ensures var n := |g.payload| - fixed - (if g.flags.padded then 1 else 0) - PadOr0(start.pad);
            BodyThenPadding(start.rest[fixed..], n, start.pad).Ok?
  {
    start := TakePadLength(g, 1 + fixed).value;
    BodyExactly(start.rest[fixed..], |g.payload| - fixed - (if g.flags.padded then 1 else 0) - PadOr0(start.pad), start.pad);
  }

  lemma AcceptableData(g: GenericFrame)
    requires g.Valid() && g.typ == 0 && !Overpadded(g)
    ensures FromData(g).Ok? <==> Acceptable(g)
  {
    if PrefixFits(g, 0) {
      var start := PaddedBody(g, 0);
      assert start.rest[0..] == start.rest;
    }
  }

  lemma AcceptableHeaders(g: GenericFrame)
    requires g.Valid() && g.typ == 1 && !Overpadded(g)
    ensures FromHeaders(g).Ok? <==> Acceptable(g)
  {
    if TakePadLength(g, 1).Ok? {
      var start := TakePadLength(g, 1).value;
      var prefix := if g.flags.padded then 1 else 0;
      if !g.flags.priority {
        BodyExactly(start.rest, |g.payload| - prefix - PadOr0(start.pad), start.pad);
      } else if prefix + 5 <= |g.payload| {
        BodyExactly(start.rest[5..], |g.payload| - (prefix + 5) - PadOr0(start.pad), start.pad);
      }
    }
  }

  lemma AcceptablePushPromise(g: GenericFrame)
    requires g.Valid() && g.typ == 5 && !Overpadded(g)
    ensures FromPushPromise(g).Ok? <==> Acceptable(g)
  {
    if PrefixFits(g, 4) {
      var start := PaddedBody(g, 4);
      PromiseOfStart(g, start);
    }
  }

  /** What remains of the parser when the body is known to fit. */
  lemma PromiseOfStart(g: GenericFrame, start: Start)
    requires TakePadLength(g, 5) == Ok(start) && |start.rest| >= 4 && GoodPad(start.pad)
    requires start.pad.Some? == g.flags.padded && g.Valid()
    requires BodyThenPadding(start.rest[4..], |g.payload| - 4 - (if g.flags.padded then 1 else 0) - PadOr0(start.pad), start.pad).Ok?
    ensures FromPushPromise(g).Ok? <==> g.streamId > 0 && FromBE(start.rest[..4]) % 0x8000_0000 > 0
  {
    LowBits(FromBE(start.rest[..4]));
    assert Slice(start.rest, 4) == Ok(Cut(start.rest[..4], start.rest[4..]));
  }

  lemma LowBits(v: nat)
    ensures 0 <= v % 0x8000_0000 < MAX_STREAM
  {}

  lemma BodyExactly(rest: Bytes, n: int, pad: Option<nat>)
    requires n >= 0 && |rest| == n + PadOr0(pad)
    ensures BodyThenPadding(rest, n, pad).Ok?
  {}

  lemma AcceptableSimple(g: GenericFrame)
    requires g.Valid() && g.typ in {2, 3, 4, 6, 7, 8, 9}
    ensures FromGeneric(g).Ok? <==> Acceptable(g)
  {
    Powers();
    if g.typ == 4 && |g.payload| % 6 == 0 {
      assert |g.payload| == 6 * |ParseSettings(g.payload)|;
    }
  }

  /** A frame becomes a typed one exactly when its section lets it; otherwise, if its padding fits, it stays generic. */
  lemma SpecializesExactly(g: GenericFrame)
    requires g.Valid() && !Overpadded(g)
    ensures Specialize(g) == Ok(Generic(g)) <==> !Acceptable(g)
  {
    if g.typ == 0 {
      AcceptableData(g);
    } else if g.typ == 1 {
      AcceptableHeaders(g);
    } else if g.typ == 5 {
      AcceptablePushPromise(g);
    } else if g.typ <= 9 {
      AcceptableSimple(g);
    }
    TypedIsNotGeneric(g);
  }

  lemma TypedIsNotGeneric(g: GenericFrame)
    ensures FromGeneric(g).Ok? && g.typ <= 9 ==> !FromGeneric(g).value.Generic?
  {}

  // What the constructors refuse.

  predicate StreamNumber(id: nat) {
    1 <= id <= 0x7FFF_FFFF
  }

  predicate OctetOrNone(n: Option<nat>) {
    n.None? || n.value <= 255
  }

  /** The ranges of the fields. The priority fields of a HEADERS frame are refused only if the weight is there without
      the two others, or they without the weight. */
  predicate InRange(f: Frame) {
    match f
    case Data(_, id, _, pad) => StreamNumber(id) && OctetOrNone(pad)
    case Headers(_, _, id, exclusive, dependency, weight, _, pad) =>
      && StreamNumber(id) && OctetOrNone(pad) && OctetOrNone(weight)
      && (dependency.None? || dependency.value <= 0x7FFF_FFFF)
      && !(weight.Some? && exclusive.None? && dependency.None?)
      && !(weight.None? && exclusive.Some? && dependency.Some?)
    case Priority(id, _, dependency, weight) => StreamNumber(id) && dependency <= 0x7FFF_FFFF && weight <= 255
    case RstStream(id, error) => StreamNumber(id) && error <= 0xFFFF_FFFF
    case Settings(ack, settings) => !ack || settings == []
    case PushPromise(_, id, promised, _, pad) => StreamNumber(id) && StreamNumber(promised) && OctetOrNone(pad)
    case Ping(_, opaque_) => |opaque_| == 8
    case GoAway(last, error, _) => last <= 0x7FFF_FFFF && error <= 0xFFFF_FFFF
    case WindowUpdate(id, increment) => id <= 0x7FFF_FFFF && 1 <= increment <= 0x7FFF_FFFF
    case Continuation(_, id, _) => StreamNumber(id)
    case Generic(g) => g.streamId <= 0x7FFF_FFFF && |g.payload| <= 0xFF_FFFF
  }

  lemma ConstructibleExactly(f: Frame)
    ensures Constructible(f) <==> InRange(f)
  {}
}
