/** Parsing, then printing: which accepted octets are what the printer makes of some value. */
module HpackReprint {
  import opened Wire
  import opened Bits
  import opened PrefixCode
  import opened HpackInt
  import opened HpackString
  import opened HpackField

  // Strings.

  /** The octets of a string behind its length, where it parses. */
  function Contents(code: Table, data: Bytes): (r: Bytes)
    requires ParseText(code, data).Parsed?
  {
    var p := ParseInt(data, 7);
    p.rest[..p.value]
  }

  /** What parsing took from the front. */
  function Taken(data: Bytes, rest: Bytes): (r: Bytes)
    requires |rest| <= |data|
  {
    data[..|data| - |rest|]
  }

  lemma TakenOf(a: Bytes, b: Bytes)
    ensures Taken(a + b, b) == a
  {}

  /** A raw string, or one that leaves at most seven bits after its last codeword. */
  predicate TidyText(code: Table, data: Bytes)
    requires ParseText(code, data).Parsed?
  {
    ParseText(code, data).value.compressed ==> |Walk(code, Unpack(Contents(code, data)), []).residual| <= 7
  }

  /** The octets are printed from a text with its true length, one that parses as `t`. */
  ghost predicate PrintsText(code: Table, u: Text, octets: Bytes, t: Text) {
    Honest(code, u) && TextBytes(code, u) == Some(octets) && Reparsed(u) == t
  }

  lemma PaddingIsShortfall(n: nat, k: nat)
    requires k <= 7 && (n + k) % 8 == 0
    ensures k == Shortfall(n)
  {}

  /** The printer makes tidy contents again from what they decode to. */
  lemma TidyContents(code: Table, raw: Bytes, text: Bytes)
    requires HpackCode(code) && Decode(code, raw) == Plain(text) && |Walk(code, Unpack(raw), []).residual| <= 7
    ensures Octets(code, text, true) == raw
  {
    DecodeMeetsStandard(code, raw, text);
    var n :| 0 <= n <= 7 && Unpack(raw) == BitsOfText(code, text, true) + Ones(n);
    PaddingIsShortfall(|BitsOfText(code, text, true)|, n);
    PackUnpack(raw);
  }

  lemma RawContents(code: Table, raw: Bytes)
    ensures Octets(code, raw, false) == raw
  {
    assert PadOnes(Unpack(raw)) == Unpack(raw);
    PackUnpack(raw);
  }

  /** What the printer makes is tidy. */
  lemma OctetsAreTidy(code: Table, text: Bytes)
    requires HpackCode(code)
    ensures |Walk(code, Unpack(Octets(code, text, true)), []).residual| <= 7
  {
    var bits := BitsOfText(code, text, true);
    UnpackPack(PadOnes(bits));
    ShortOnesAreResidual(code, Shortfall(|bits|));
    UniqueSplit(code, PadOnes(bits), text, Ones(Shortfall(|bits|)));
  }

  lemma TextParts(code: Table, data: Bytes)
    requires ParseText(code, data).Parsed?
    ensures var p, t := ParseInt(data, 7), ParseText(code, data);
            && p.Parsed? && p.rest == Contents(code, data) + t.rest && |Contents(code, data)| == p.value
            && (t.value.compressed <==> data[0] / 128 == 1)
            && (if t.value.compressed then Decode(code, Contents(code, data)) == Plain(t.value.data)
                else t.value.data == Contents(code, data))
            && t.value == Reparsed(Text(t.value.data, t.value.compressed))
  {}

  /** A prefix that parses was printed with the top bit it shows. */
  lemma LengthIsPrinted(data: Bytes) returns (padding: nat)
    requires ParseInt(data, 7).Parsed?
    ensures var prefix := IntBytes(PrefixInt(ParseInt(data, 7).value, padding), 7, data[0] / 128);
            prefix.Some? && data == prefix.value + ParseInt(data, 7).rest
  {
    var preprefix: nat;
    padding, preprefix := ParsedIntIsPrinted(data, 7);
    PrefixPowers();
    FirstOctet(PrefixInt(ParseInt(data, 7).value, padding), preprefix);
  }

  lemma TidyTextIsPrinted(code: Table, data: Bytes) returns (u: Text)
    requires HpackCode(code) && ParseText(code, data).Parsed? && TidyText(code, data)
    ensures var p := ParseText(code, data);
            |p.rest| <= |data| && data == Taken(data, p.rest) + p.rest && PrintsText(code, u, Taken(data, p.rest), p.value)
  {
    var p, raw := ParseText(code, data), Contents(code, data);
    TextParts(code, data);
    var padding := LengthIsPrinted(data);
    u := Text(p.value.data, p.value.compressed, Some(PrefixInt(|raw|, padding)));
    if p.value.compressed {
      TidyContents(code, raw, p.value.data);
    } else {
      RawContents(code, raw);
    }
    var prefix := TextPrints(code, u, data[0] / 128);
    Reassociate(prefix, raw, p.rest);
    TakenOf(prefix + raw, p.rest);
  }

  lemma TextPrints(code: Table, u: Text, top: nat) returns (prefix: Bytes)
    requires top == (if u.compressed then 1 else 0) && IntBytes(PrintedLength(code, u), 7, top).Some?
    ensures IntBytes(PrintedLength(code, u), 7, top) == Some(prefix)
    ensures TextBytes(code, u) == Some(prefix + Octets(code, u.data, u.compressed))
  {
    prefix := IntBytes(PrintedLength(code, u), 7, top).value;
  }

  lemma PrintedTextIsTidy(code: Table, u: Text, octets: Bytes, rest: Bytes)
    requires HpackCode(code) && Honest(code, u) && TextBytes(code, u) == Some(octets)
    ensures ParseText(code, octets + rest) == Parsed(Reparsed(u), rest) && TidyText(code, octets + rest)
  {
    TextRoundTrip(code, u, rest);
    var prefix := TextBytesSplit(code, u);
    var contents := Octets(code, u.data, u.compressed);
    Reassociate(prefix, contents, rest);
    PrefixParses(prefix, PrintedLength(code, u), u.compressed, contents + rest);
    assert (contents + rest)[..|contents|] == contents;
    if u.compressed {
      OctetsAreTidy(code, u.data);
    }
  }

  /** What a string parser takes was printed, from some text with its true length that parses the same, if and only
      if it is raw or leaves at most seven bits. */
  lemma TextIsPrintedExactly(code: Table, data: Bytes)
    requires HpackCode(code) && ParseText(code, data).Parsed?
    ensures var p := ParseText(code, data);
            && |p.rest| <= |data| && data == Taken(data, p.rest) + p.rest
            && (TidyText(code, data) <==> exists u :: PrintsText(code, u, Taken(data, p.rest), p.value))
  {
    var p := ParseText(code, data);
    TextSplits(code, data);
    if TidyText(code, data) {
      var u := TidyTextIsPrinted(code, data);
    }
    if u :| PrintsText(code, u, Taken(data, p.rest), p.value) {
      PrintedTextIsTidy(code, u, Taken(data, p.rest), p.rest);
    }
  }

  lemma TextSplits(code: Table, data: Bytes)
    requires ParseText(code, data).Parsed?
    ensures var p := ParseText(code, data); |p.rest| <= |data| && data == Taken(data, p.rest) + p.rest
  {
    TextParts(code, data);
    var padding := LengthIsPrinted(data);
    var prefix := IntBytes(PrefixInt(ParseInt(data, 7).value, padding), 7, data[0] / 128).value;
    Reassociate(prefix, Contents(code, data), ParseText(code, data).rest);
    TakenOf(prefix + Contents(code, data), ParseText(code, data).rest);
  }

  // Fields.

  /** What follows the index of a partial or literal field. */
  function AfterIndex(data: Bytes): (r: Bytes)
    requires data != []
  {
    var p := ParseInt(data, if data[0] / 64 == 1 then 6 else 4);
    if p.Parsed? then p.rest else []
  }

  /** All strings of the field are tidy. */
  predicate TidyField(code: Table, data: Bytes)
    requires ParseField(code, data).Parsed?
  {
    match ParseField(code, data).value
    case Partial(_, _, _) =>
      ParseText(code, AfterIndex(data)).Parsed? && TidyText(code, AfterIndex(data))
    case Literal(_, _, _) =>
      var key := ParseText(code, AfterIndex(data));
      && key.Parsed? && TidyText(code, AfterIndex(data))
      && ParseText(code, key.rest).Parsed? && TidyText(code, key.rest)
    case _ => true
  }

  /** The octets are printed from a field whose strings announce their true lengths, one that parses as `f`. */
  ghost predicate PrintsField(code: Table, g: Field, octets: Bytes, f: Field) {
    HonestTexts(code, g) && FieldBytes(code, g) == Some(octets) && Normal(g) == f
  }

  /** The bits of the first octet above a prefix. */
  function Opcode(data: Bytes, prefixLen: nat): (r: nat)
    requires data != []
  {
    QuotientIsNatural(data[0], Pow2(prefixLen));
    data[0] / Pow2(prefixLen)
  }

  lemma QuotientIsNatural(a: nat, m: nat)
    requires m > 0
    ensures a / m >= 0
  {}

  /** An integer that parses was printed, with the opcode it shows. */
  lemma IndexIsPrinted(data: Bytes, prefixLen: nat) returns (padding: nat)
    requires 1 <= prefixLen <= 8 && ParseInt(data, prefixLen).Parsed?
    ensures var i := PrefixInt(ParseInt(data, prefixLen).value, padding);
            var octets := IntBytes(i, prefixLen, Opcode(data, prefixLen));
            octets.Some? && data == octets.value + ParseInt(data, prefixLen).rest
  {
    var preprefix: nat;
    padding, preprefix := ParsedIntIsPrinted(data, prefixLen);
    IntOpcode(PrefixInt(ParseInt(data, prefixLen).value, padding), prefixLen, preprefix);
  }

  lemma NumberIsPrinted(code: Table, data: Bytes) returns (g: Field)
    requires ParseField(code, data).Parsed?
    requires ParseField(code, data).value.Indexed? || ParseField(code, data).value.SizeUpdate?
    ensures var p := ParseField(code, data);
            |p.rest| <= |data| && data == Taken(data, p.rest) + p.rest && PrintsField(code, g, Taken(data, p.rest), p.value)
  {
    PrefixPowers();
    var p := ParseField(code, data);
    var prefixLen := if p.value.Indexed? then 7 else 5;
    var padding := IndexIsPrinted(data, prefixLen);
    var i := PrefixInt(ParseInt(data, prefixLen).value, padding);
    g := if p.value.Indexed? then Indexed(i) else SizeUpdate(i);
    TakenOf(FieldBytes(code, g).value, p.rest);
  }

  /** A partial or literal field: its prefix length, and what its parser sees. */
  lemma NamedParts(code: Table, data: Bytes) returns (prop: Property)
    requires ParseField(code, data).Parsed?
    requires ParseField(code, data).value.Partial? || ParseField(code, data).value.Literal?
    ensures var prefixLen := PartialPrefixLen(prop);
            && PropertyOf(ParseField(code, data).value) == Some(prop)
            && prefixLen == (if data[0] / 64 == 1 then 6 else 4)
            && Opcode(data, prefixLen) == (if prop.Uncached? then 0 else 1)
            && ParseField(code, data) == ParseNamed(code, data, prefixLen, prop)
            && ParseInt(data, prefixLen).Parsed? && AfterIndex(data) == ParseInt(data, prefixLen).rest
  {
    PrefixPowers();
    prop := PropertyOf(ParseField(code, data).value).value;
  }

  /** A partial field: its index, its value. */
  lemma PartialParts(code: Table, data: Bytes) returns (prop: Property)
    requires ParseField(code, data).Parsed? && ParseField(code, data).value.Partial?
    ensures var i, val := ParseInt(data, PartialPrefixLen(prop)), ParseText(code, AfterIndex(data));
            && i.Parsed? && i.rest == AfterIndex(data) && val.Parsed?
            && Opcode(data, PartialPrefixLen(prop)) == (if prop.Uncached? then 0 else 1)
            && ParseField(code, data) == Parsed(Partial(PrefixInt(i.value), val.value, prop), val.rest)
  {
    prop := NamedParts(code, data);
  }

  lemma PartialPrints(code: Table, i: PrefixInt, index: Bytes, u: Text, v: Bytes, prop: Property)
    requires PartialIndexBytes(i, prop) == Some(index) && TextBytes(code, u) == Some(v)
    ensures FieldBytes(code, Partial(i, u, prop)) == Some(index + v)
  {}

  lemma PartialTaken(index: Bytes, val: Bytes, rest: Bytes)
    ensures var data := index + (val + rest); data == (index + val) + rest && Taken(data, rest) == index + val
  {
    Reassociate(index, val, rest);
    TakenOf(index + val, rest);
  }

  lemma PartialIsPrinted(code: Table, data: Bytes) returns (g: Field)
    requires HpackCode(code) && ParseField(code, data).Parsed? && ParseField(code, data).value.Partial?
    requires TidyField(code, data)
    ensures var p := ParseField(code, data);
            |p.rest| <= |data| && data == Taken(data, p.rest) + p.rest && PrintsField(code, g, Taken(data, p.rest), p.value)
  {
    var prop := PartialParts(code, data);
    var after := AfterIndex(data);
    var padding := IndexIsPrinted(data, PartialPrefixLen(prop));
    var i := PrefixInt(ParseInt(data, PartialPrefixLen(prop)).value, padding);
    var u := TidyTextIsPrinted(code, after);
    var index, rest := PartialIndexBytes(i, prop).value, ParseText(code, after).rest;
    g := Partial(i, u, prop);
    PartialTaken(index, Taken(after, rest), rest);
    PartialPrints(code, i, index, u, Taken(after, rest), prop);
  }

  /** An index of zero is one octet, the opcode of a literal field. */
  lemma ZeroIndex(data: Bytes, prop: Property)
    requires data != []
    requires Opcode(data, PartialPrefixLen(prop)) == (if prop.Uncached? then 0 else 1)
    requires ParseInt(data, PartialPrefixLen(prop)).Parsed? && ParseInt(data, PartialPrefixLen(prop)).value == 0
    ensures data == [LiteralOpcode(prop)] + ParseInt(data, PartialPrefixLen(prop)).rest
  {
    PrefixPowers();
    OctetSplits(data[0], PartialPrefixLen(prop));
    assert data == [data[0]] + data[1..];
  }

  lemma LiteralTaken(opcode: Byte, key: Bytes, val: Bytes, rest: Bytes)
    ensures var data := [opcode] + (key + (val + rest));
            data == ([opcode] + (key + val)) + rest && Taken(data, rest) == [opcode] + (key + val)
  {
    Reassociate(key, val, rest);
    Reassociate([opcode], key + val, rest);
    TakenOf([opcode] + (key + val), rest);
  }

  /** A literal field: its opcode, its name, its value. */
  lemma LiteralParts(code: Table, data: Bytes) returns (prop: Property)
    requires ParseField(code, data).Parsed? && ParseField(code, data).value.Literal?
    ensures data == [LiteralOpcode(prop)] + AfterIndex(data)
    ensures var p, key := ParseField(code, data), ParseText(code, AfterIndex(data));
            && key.Parsed? && ParseText(code, key.rest).Parsed?
            && p == Parsed(Literal(key.value, ParseText(code, key.rest).value, prop), ParseText(code, key.rest).rest)
  {
    prop := NamedParts(code, data);
    ZeroIndex(data, prop);
  }

  lemma LiteralPrints(code: Table, key: Text, k: Bytes, val: Text, v: Bytes, prop: Property)
    requires TextBytes(code, key) == Some(k) && TextBytes(code, val) == Some(v)
    ensures FieldBytes(code, Literal(key, val, prop)) == Some([LiteralOpcode(prop)] + (k + v))
  {}

  lemma LiteralIsPrinted(code: Table, data: Bytes) returns (g: Field)
    requires HpackCode(code) && ParseField(code, data).Parsed? && ParseField(code, data).value.Literal?
    requires TidyField(code, data)
    ensures var p := ParseField(code, data);
            |p.rest| <= |data| && data == Taken(data, p.rest) + p.rest && PrintsField(code, g, Taken(data, p.rest), p.value)
  {
    var prop := LiteralParts(code, data);
    var afterIndex := AfterIndex(data);
    var afterKey := ParseText(code, afterIndex).rest;
    var rest := ParseText(code, afterKey).rest;
    var key := TidyTextIsPrinted(code, afterIndex);
    var val := TidyTextIsPrinted(code, afterKey);
    var k, v := Taken(afterIndex, afterKey), Taken(afterKey, rest);
    g := Literal(key, val, prop);
    LiteralTaken(LiteralOpcode(prop), k, v, rest);
    LiteralPrints(code, key, k, val, v, prop);
  }

  lemma TidyFieldIsPrinted(code: Table, data: Bytes) returns (g: Field)
    requires HpackCode(code) && ParseField(code, data).Parsed? && TidyField(code, data)
    ensures var p := ParseField(code, data);
            |p.rest| <= |data| && data == Taken(data, p.rest) + p.rest && PrintsField(code, g, Taken(data, p.rest), p.value)
  {
    match ParseField(code, data).value
    case Partial(_, _, _) => g := PartialIsPrinted(code, data);
    case Literal(_, _, _) => g := LiteralIsPrinted(code, data);
    case _ => g := NumberIsPrinted(code, data);
  }

  lemma NoParsedPartialZero(code: Table, data: Bytes)
    requires ParseField(code, data).Parsed? && ParseField(code, data).value.Partial?
    ensures ParseField(code, data).value.index.val > 0
  {}

  lemma PrintedPartialIsTidy(code: Table, g: Field, octets: Bytes, rest: Bytes)
    requires HpackCode(code) && HonestTexts(code, g) && FieldBytes(code, g) == Some(octets)
    requires g.Partial? && g.index.val > 0
    ensures ParseField(code, octets + rest).Parsed? && TidyField(code, octets + rest)
  {
    FieldRoundTrip(code, g, rest);
    var prop := NamedParts(code, octets + rest);
    var index, val := PartialIndexBytes(g.index, g.prop).value, TextBytes(code, g.val).value;
    Reassociate(index, val, rest);
    IntRoundTrip(g.index, PartialPrefixLen(prop), if prop.Uncached? then 0 else 1, val + rest);
    PrintedTextIsTidy(code, g.val, val, rest);
  }

  lemma PrintedLiteralIsTidy(code: Table, g: Field, octets: Bytes, rest: Bytes)
    requires HpackCode(code) && HonestTexts(code, g) && FieldBytes(code, g) == Some(octets)
    requires g.Literal?
    ensures ParseField(code, octets + rest).Parsed? && TidyField(code, octets + rest)
  {
    FieldRoundTrip(code, g, rest);
    var prop := NamedParts(code, octets + rest);
    var key, val := TextBytes(code, g.key).value, TextBytes(code, g.val).value;
    Reassociate(key, val, rest);
    Reassociate([LiteralOpcode(prop)], key + val, rest);
    OpcodeIsZeroIndex(prop, key + (val + rest));
    PrintedTextIsTidy(code, g.key, key, val + rest);
    PrintedTextIsTidy(code, g.val, val, rest);
  }

  lemma OpcodeIsZeroIndex(prop: Property, after: Bytes)
    ensures ParseInt([LiteralOpcode(prop)] + after, PartialPrefixLen(prop)) == Parsed(0, after)
  {
    PrefixPowers();
    assert ([LiteralOpcode(prop)] + after)[1..] == after;
  }

  lemma TakenTwice(a: Bytes, b: Bytes, rest: Bytes)
    requires |rest| <= |b| && b == Taken(b, rest) + rest
    ensures a + b == Taken(a + b, rest) + rest
  {
    Reassociate(a, Taken(b, rest), rest);
    TakenOf(a + Taken(b, rest), rest);
  }

  /** A field parser leaves a suffix. */
  lemma FieldSplits(code: Table, data: Bytes)
    requires ParseField(code, data).Parsed?
    ensures var p := ParseField(code, data); |p.rest| <= |data| && data == Taken(data, p.rest) + p.rest
  {
    var p := ParseField(code, data);
    if p.value.Indexed? || p.value.SizeUpdate? {
      var g := NumberIsPrinted(code, data);
    } else {
      var prop := NamedParts(code, data);
      var padding := IndexIsPrinted(data, PartialPrefixLen(prop));
      var after := AfterIndex(data);
      TextSplits(code, after);
      if p.value.Literal? {
        var afterKey := ParseText(code, after).rest;
        TextSplits(code, afterKey);
        TakenTwice(Taken(after, afterKey), afterKey, p.rest);
      }
      var i := PrefixInt(ParseInt(data, PartialPrefixLen(prop)).value, padding);
      TakenTwice(IntBytes(i, PartialPrefixLen(prop), Opcode(data, PartialPrefixLen(prop))).value, after, p.rest);
    }
  }

  /** What a field parser takes was printed, from some field whose strings announce their true lengths and that parses
      the same, if and only if its strings are tidy. */
  lemma FieldIsPrintedExactly(code: Table, data: Bytes)
    requires HpackCode(code) && ParseField(code, data).Parsed?
    ensures var p := ParseField(code, data);
            && |p.rest| <= |data| && data == Taken(data, p.rest) + p.rest
            && (TidyField(code, data) <==> exists g :: PrintsField(code, g, Taken(data, p.rest), p.value))
  {
    var p := ParseField(code, data);
    FieldSplits(code, data);
    if TidyField(code, data) {
      var g := TidyFieldIsPrinted(code, data);
    }
    if g :| PrintsField(code, g, Taken(data, p.rest), p.value) {
      PrintedFieldIsTidy(code, g, Taken(data, p.rest), p.rest);
    }
  }

  lemma PrintedFieldIsTidy(code: Table, g: Field, octets: Bytes, rest: Bytes)
    requires HpackCode(code) && HonestTexts(code, g) && FieldBytes(code, g) == Some(octets)
    requires ParseField(code, octets + rest).Parsed? && ParseField(code, octets + rest).value == Normal(g)
    ensures TidyField(code, octets + rest)
  {
    match g
    case Partial(_, _, _) =>
      NoParsedPartialZero(code, octets + rest);
      PrintedPartialIsTidy(code, g, octets, rest);
    case Literal(_, _, _) =>
      PrintedLiteralIsTidy(code, g, octets, rest);
    case _ =>
  }

  // Blocks.

  /** Every field of the block is tidy. */
  predicate TidyBlock(code: Table, data: Bytes)
    decreases |data|
  {
    match ParseField(code, data)
    case Parsed(_, rest) =>
      FieldExtends(code, data, []);
      TidyField(code, data) && TidyBlock(code, rest)
    case _ => true
  }

  ghost predicate PrintsBlock(code: Table, block: seq<Field>, data: Bytes, fields: seq<Field>) {
    && (forall i | 0 <= i < |block| :: HonestTexts(code, block[i]))
    && BlockBytes(code, block) == Some(data) && NormalBlock(block) == fields
  }

  lemma {:induction false} TidyBlockIsPrinted(code: Table, data: Bytes) returns (block: seq<Field>)
    requires HpackCode(code) && ParseBlock(code, data).Some? && TidyBlock(code, data)
    ensures PrintsBlock(code, block, data, ParseBlock(code, data).value)
    decreases |data|
  {
    if data == [] {
      block := [];
    } else {
      var p := ParseField(code, data);
      FieldExtends(code, data, []);
      var g := TidyFieldIsPrinted(code, data);
      var others := TidyBlockIsPrinted(code, p.rest);
      block := [g] + others;
      assert block[1..] == others;
    }
  }

  lemma {:induction false} PrintedBlockIsTidy(code: Table, block: seq<Field>, data: Bytes)
    requires HpackCode(code) && ParseBlock(code, data).Some?
    requires PrintsBlock(code, block, data, ParseBlock(code, data).value)
    ensures TidyBlock(code, data)
    decreases |data|
  {
    if data != [] {
      var p := ParseField(code, data);
      FieldExtends(code, data, []);
      assert NormalBlock(block)[0] == Normal(block[0]) == p.value;
      var octets, tail := FieldBytes(code, block[0]).value, BlockBytes(code, block[1..]).value;
      assert ParseBlock(code, data).value[1..] == ParseBlock(code, p.rest).value;
      if block[0].Partial? {
        NoParsedPartialZero(code, data);
      }
      FieldRoundTrip(code, block[0], tail);
      PrintedFieldIsTidy(code, block[0], octets, tail);
      assert NormalBlock(block)[1..] == NormalBlock(block[1..]);
      PrintedBlockIsTidy(code, block[1..], p.rest);
    }
  }

  /** An accepted block was printed, from fields whose strings announce their true lengths and that parse the same,
      if and only if all its strings are tidy. */
  lemma BlockIsPrintedExactly(code: Table, data: Bytes)
    requires HpackCode(code) && ParseBlock(code, data).Some?
    ensures TidyBlock(code, data) <==> exists block :: PrintsBlock(code, block, data, ParseBlock(code, data).value)
  {
    if TidyBlock(code, data) {
      var block := TidyBlockIsPrinted(code, data);
    }
    if block :| PrintsBlock(code, block, data, ParseBlock(code, data).value) {
      PrintedBlockIsTidy(code, block, data);
    }
  }
}
