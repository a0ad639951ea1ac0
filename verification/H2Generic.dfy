/** The generic frame layer of HTTP/2 (section 4.1 of RFC 9113). */
module H2Generic {
  import opened Wire
  import opened Bits
  import opened BigEndian

  const MAX_STREAM: nat := 0x8000_0000   // stream ids have 31 bits
  const MAX_PAYLOAD: nat := 0x100_0000   // payload lengths have 24 bits

  datatype Flags = Flags(
    unused7: bool := false,
    unused6: bool := false,
    priority: bool := false,
    unused4: bool := false,
    padded: bool := false,
    endHeaders: bool := false,
    unused1: bool := false,
    endStreamOrAck: bool := false)

  function FlagsOf(bits: Bitstring): (r: Flags)
    requires |bits| == 8
  {
    Flags(bits[0], bits[1], bits[2], bits[3], bits[4], bits[5], bits[6], bits[7])
  }

  function FlagBits(f: Flags): (r: Bitstring)
    ensures |r| == 8
  {
    [f.unused7, f.unused6, f.priority, f.unused4, f.padded, f.endHeaders, f.unused1, f.endStreamOrAck]
  }

  function ParseFlags(b: Byte): (r: Flags) {
    FlagsOf(ToBits(b))
  }

  function FlagsByte(f: Flags): (r: Byte) {
    Pow2Of8();
    ValueOf(FlagBits(f))
  }

  lemma ParseFlagsByte(f: Flags)
    ensures ParseFlags(FlagsByte(f)) == f
  {
    BitsOfValueOf(FlagBits(f));
  }

  lemma FlagBitsOf(bits: Bitstring)
    requires |bits| == 8
    ensures FlagBits(FlagsOf(bits)) == bits
  {}

  lemma FlagsByteParse(b: Byte)
    ensures FlagsByte(ParseFlags(b)) == b
  {
    Pow2Of8();
    ValueOfBitsOf(b, 8);
    FlagBitsOf(ToBits(b));
  }

  datatype GenericFrame = GenericFrame(typ: Byte, flags: Flags, reserved: bool, streamId: nat, payload: Bytes) {
    /** What the constructor checks. */
    predicate Valid() {
      streamId < MAX_STREAM && |payload| < MAX_PAYLOAD
    }
  }

  /** A frame as its constructor leaves it. */
  type WireFrame = f: GenericFrame | f.Valid() witness GenericFrame(0, Flags(), false, 0, [])

  // Printing.

  function StreamWord(f: GenericFrame): (r: nat)
    requires f.Valid()
    ensures r < Pow256(4)
  {
    Powers();
    (if f.reserved then MAX_STREAM else 0) + f.streamId
  }

  /** H2GenericFrame.to_bytes. */
  function FrameBytes(f: GenericFrame): (r: Bytes)
    requires f.Valid()
    ensures |r| == 9 + |f.payload|
  {
    ToBE(|f.payload|, 3) + [f.typ] + [FlagsByte(f.flags)] + ToBE(StreamWord(f), 4) + f.payload
  }

  // Parsing.

  /** bslice with a length that is not negative. */
  function Take(data: Bytes, n: nat): (r: Parse<Bytes>) {
    if |data| < n then Bad else Parsed(data[..n], data[n..])
  }

  function NextByte(data: Bytes): (r: Parse<Byte>) {
    if data == [] then Bad else Parsed(data[0], data[1..])
  }

  /** H2GenericFrame.parse. */
  function ParseFrame(data: Bytes): (r: Parse<GenericFrame>)
    ensures r.Stop? <==> data == []
    ensures r.Parsed? ==> r.value.Valid() && |r.rest| < |data|
  {
    if data == [] then Stop
    else
      var (rawLength, rest) :- Take(data, 3);
      var (typ, rest) :- NextByte(rest);
      var (flags, rest) :- NextByte(rest);
      var (rawStream, rest) :- Take(rest, 4);
      var (payload, rest) :- Take(rest, FromBE(rawLength));
      var word := FromBE(rawStream);
      Powers();
      Parsed(GenericFrame(typ, ParseFlags(flags), word / MAX_STREAM == 1, word % MAX_STREAM, payload), rest)
  }

  /** parse_generic_frames as a function; None where it raises H2Error. */
  function ParseFrames(data: Bytes): (r: Option<seq<GenericFrame>>)
    decreases |data|
  {
    match ParseFrame(data)
    case Stop => Some([])
    case Bad => None
    case Parsed(f, rest) =>
      var frames := ParseFrames(rest);
      if frames.None? then None else Some([f] + frames.value)
  }

  /** parse_generic_frames: frames are appended until the iterator is empty. */
  method ParseGenericFrames(data: Bytes) returns (r: Option<seq<GenericFrame>>)
    ensures r == ParseFrames(data)
  {
    var result: seq<GenericFrame> := [];
    var rest := data;
    assert ParseFrames(data).Some? ==> [] + ParseFrames(data).value == ParseFrames(data).value;
    while true
      invariant match ParseFrames(rest)
                case None => ParseFrames(data) == None
                case Some(frames) => ParseFrames(data) == Some(result + frames)
      decreases |rest|
    {
      match ParseFrame(rest) {
        case Stop =>
          assert result + [] == result;
          return Some(result);
        case Bad =>
          return None;
        case Parsed(f, after) =>
          assert forall frames: seq<GenericFrame> :: result + ([f] + frames) == (result + [f]) + frames;
          result := result + [f];
          rest := after;
      }
    }
  }

  // The layer is a bijection.

  lemma TakeConcat(a: Bytes, b: Bytes)
    ensures Take(a + b, |a|) == Parsed(a, b)
  {
    assert (a + b)[..|a|] == a && (a + b)[|a|..] == b;
  }

  lemma SplitFrame(length: Bytes, typ: Byte, flags: Byte, stream: Bytes, payload: Bytes, rest: Bytes)
    requires |length| == 3 && |stream| == 4 && FromBE(length) == |payload|
    ensures ParseFrame(length + ([typ] + ([flags] + (stream + (payload + rest)))))
         == Parsed(GenericFrame(typ, ParseFlags(flags), FromBE(stream) / MAX_STREAM == 1, FromBE(stream) % MAX_STREAM, payload), rest)
  {
    var e := payload + rest;
    var d := stream + e;
    var c := [flags] + d;
    var b := [typ] + c;
    TakeConcat(length, b);
    assert b[1..] == c && c[1..] == d;
    TakeConcat(stream, e);
    TakeConcat(payload, rest);
  }

  /** A printed frame parses back to itself and leaves exactly what follows it. */
  lemma FrameRoundTrip(f: GenericFrame, rest: Bytes)
    requires f.Valid()
    ensures ParseFrame(FrameBytes(f) + rest) == Parsed(f, rest)
  {
    var length, typ, flags, stream := ToBE(|f.payload|, 3), [f.typ], [FlagsByte(f.flags)], ToBE(StreamWord(f), 4);
    Powers();
    FromToBE(|f.payload|, 3);
    FromToBE(StreamWord(f), 4);
    ParseFlagsByte(f.flags);
    SplitFrame(length, f.typ, FlagsByte(f.flags), stream, f.payload, rest);
    FiveParts(length, typ, flags, stream, f.payload, rest);
  }

  lemma FiveParts(a: Bytes, b: Bytes, c: Bytes, d: Bytes, e: Bytes, rest: Bytes)
    ensures a + b + c + d + e + rest == a + (b + (c + (d + (e + rest))))
  {}

  /** Whatever parses is a printed frame followed by the rest. */
  lemma ParsedFrameIsPrinted(data: Bytes)
    requires ParseFrame(data).Parsed?
    ensures ParseFrame(data).value.Valid()
    ensures data == FrameBytes(ParseFrame(data).value) + ParseFrame(data).rest
  {
    var f, rest := ParseFrame(data).value, ParseFrame(data).rest;
    Powers();
    var length, stream := data[..3], data[3..][1..][1..][..4];
    ToFromBE(length);
    ToFromBE(stream);
    FlagsByteParse(data[3..][1..][0]);
    assert StreamWord(f) == FromBE(stream);
    assert data == length + [f.typ] + [FlagsByte(f.flags)] + stream + f.payload + rest;
  }

  function AllFrameBytes(frames: seq<GenericFrame>): (r: Bytes)
    requires forall i | 0 <= i < |frames| :: frames[i].Valid()
  {
    if frames == [] then [] else FrameBytes(frames[0]) + AllFrameBytes(frames[1..])
  }

  ghost predicate AllValid(frames: seq<GenericFrame>) {
    forall i | 0 <= i < |frames| :: frames[i].Valid()
  }

  ghost function Before(frames: seq<GenericFrame>, r: Option<seq<GenericFrame>>): Option<seq<GenericFrame>> {
    if r.None? then None else Some(frames + r.value)
  }

  lemma BeforeTwice(f: GenericFrame, frames: seq<GenericFrame>, r: Option<seq<GenericFrame>>)
    ensures Before([f], Before(frames, r)) == Before([f] + frames, r)
    ensures Before([], r) == r
  {
    if r.Some? {
      assert [f] + (frames + r.value) == ([f] + frames) + r.value;
      assert [] + r.value == r.value;
    }
  }

  lemma FrameThenRest(f: GenericFrame, rest: Bytes)
    requires f.Valid()
    ensures ParseFrames(FrameBytes(f) + rest) == Before([f], ParseFrames(rest))
  {
    FrameRoundTrip(f, rest);
  }

  /** Whole frames in front of anything parse first, and the rest parses as it would alone. */
  lemma {:induction false} FramesThenRest(frames: seq<GenericFrame>, rest: Bytes)
    requires AllValid(frames)
    ensures ParseFrames(AllFrameBytes(frames) + rest) == Before(frames, ParseFrames(rest))
  {
    if frames == [] {
      assert [] + rest == rest;
      assert ParseFrames(rest).Some? ==> [] + ParseFrames(rest).value == ParseFrames(rest).value;
    } else {
      var tail := AllFrameBytes(frames[1..]);
      FramesThenRest(frames[1..], rest);
      FrameThenRest(frames[0], tail + rest);
      Reassociate(FrameBytes(frames[0]), tail, rest);
      BeforeTwice(frames[0], frames[1..], ParseFrames(rest));
      assert [frames[0]] + frames[1..] == frames;
    }
  }

  lemma {:induction false} ParsedFramesArePrinted(data: Bytes)
    requires ParseFrames(data).Some?
    ensures AllValid(ParseFrames(data).value)
    ensures AllFrameBytes(ParseFrames(data).value) == data
    decreases |data|
  {
    if data != [] {
      ParsedFrameIsPrinted(data);
      ParsedFramesArePrinted(ParseFrame(data).rest);
      assert ParseFrames(data).value[1..] == ParseFrames(ParseFrame(data).rest).value;
    }
  }

  /** Parsing succeeds with `frames` exactly on the concatenation of their octets. */
  lemma FramesAreABijection(data: Bytes, frames: seq<GenericFrame>)
    ensures ParseFrames(data) == Some(frames) <==> AllValid(frames) && data == AllFrameBytes(frames)
  {
    if ParseFrames(data) == Some(frames) {
      ParsedFramesArePrinted(data);
    }
    if AllValid(frames) && data == AllFrameBytes(frames) {
      FramesThenRest(frames, []);
      assert AllFrameBytes(frames) + [] == data;
      assert frames + [] == frames;
    }
  }

  /** A frame cut short anywhere is an error. */
  lemma TruncatedFrameIsBad(f: GenericFrame, k: nat)
    requires f.Valid() && 0 < k < |FrameBytes(f)|
    ensures ParseFrame(FrameBytes(f)[..k]) == Bad
  {
    var head, tail := FrameBytes(f)[..k], FrameBytes(f)[k..];
    assert head + tail == FrameBytes(f);
    assert FrameBytes(f) + [] == FrameBytes(f);
    FrameRoundTrip(f, []);
    if ParseFrame(head).Parsed? {
      ParsedFrameIsPrinted(head);
      Reassociate(FrameBytes(ParseFrame(head).value), ParseFrame(head).rest, tail);
      FrameRoundTrip(ParseFrame(head).value, ParseFrame(head).rest + tail);
    }
  }

  /** Whole frames, then part of one: the whole input is refused. */
  lemma TruncationIsAnError(frames: seq<GenericFrame>, last: GenericFrame, k: nat)
    requires AllValid(frames) && last.Valid() && 0 < k < |FrameBytes(last)|
    ensures ParseFrames(AllFrameBytes(frames) + FrameBytes(last)[..k]) == None
  {
    TruncatedFrameIsBad(last, k);
    FramesThenRest(frames, FrameBytes(last)[..k]);
  }
}
