/** Header field representations (section 6 of RFC 7541) and field blocks. */
module HpackField {
  import opened Wire
  import opened Bits
  import opened HpackInt
  import opened HpackString

  datatype Property = Cached | Uncached | Verbatim

  datatype Field =
    | Indexed(index: HpackInt.PrefixInt)
    | Partial(index: HpackInt.PrefixInt, val: Text, prop: Property)
    | Literal(key: Text, val: Text, prop: Property)
    | SizeUpdate(size: HpackInt.PrefixInt)

  // Printing.

  function Concat(a: Option<Bytes>, b: Option<Bytes>): (r: Option<Bytes>) {
    if a.None? || b.None? then None else Some(a.value + b.value)
  }

  lemma PrefixPowers()
    ensures Pow2(1) == 2 && Pow2(2) == 4 && Pow2(3) == 8 && Pow2(4) == 16
    ensures Pow2(5) == 32 && Pow2(6) == 64 && Pow2(7) == 128 && Pow2(8) == 256
  {
    assert Pow2(4) == 16;
  }

  /** The prefix of a partial field: six bits after 01, or four bits after 0000 or 0001. */
  function PartialIndexBytes(index: HpackInt.PrefixInt, prop: Property): (r: Option<Bytes>)
    ensures r.Some? ==> r.value != []
  {
    match prop
    case Cached => IntBytes(index, 6, 1)
    case Uncached => IntBytes(index, 4, 0)
    case Verbatim => IntBytes(index, 4, 1)
  }

  function LiteralOpcode(prop: Property): Byte {
    match prop
    case Cached => 0x40
    case Uncached => 0x00
    case Verbatim => 0x10
  }

  /** The `to_bytes` of the four field classes; None where one raises HPACKError. */
  function FieldBytes(code: Table, f: Field): (r: Option<Bytes>)
    ensures r.Some? ==> r.value != []
  {
    match f
    case Indexed(index) => IntBytes(index, 7, 1)
    case Partial(index, val, prop) => Concat(PartialIndexBytes(index, prop), TextBytes(code, val))
    case Literal(key, val, prop) => Concat(Some([LiteralOpcode(prop)]), Concat(TextBytes(code, key), TextBytes(code, val)))
    case SizeUpdate(size) => IntBytes(size, 5, 1)
  }

  // Parsing.

  function ParseLiteral(code: Table, data: Bytes, prop: Property): (r: Parse<Field>)
    ensures !r.Stop?
  {
    var (key, rest) :- ParseText(code, data);
    var (val, rest) :- ParseText(code, rest);
    Parsed(Literal(key, val, prop), rest)
  }

  /** An index of `prefixLen` bits and a value, or two texts when the index is zero. */
  function ParseNamed(code: Table, data: Bytes, prefixLen: nat, prop: Property): (r: Parse<Field>)
    requires 1 <= prefixLen <= 8
    ensures !r.Stop?
  {
    var (index, rest) :- ParseInt(data, prefixLen);
    if index == 0 then ParseLiteral(code, rest, prop)
    else
      var (val, rest) :- ParseText(code, rest);
      Parsed(Partial(HpackInt.PrefixInt(index), val, prop), rest)
  }

  /** The property of a partial or literal field. */
  function PropertyOf(f: Field): (r: Option<Property>) {
    match f
    case Partial(_, _, prop) => Some(prop)
    case Literal(_, _, prop) => Some(prop)
    case _ => None
  }

  /** parse_hpack_field. The five opcode patterns leave no octet over, and each belongs to one kind of field. */
  function ParseField(code: Table, data: Bytes): (r: Parse<Field>)
    ensures r.Stop? <==> data == []
    ensures r.Parsed? ==> && (r.value.Indexed? <==> data[0] / 128 == 1)
                          && (PropertyOf(r.value) == Some(Cached) <==> data[0] / 64 == 1)
                          && (r.value.SizeUpdate? <==> data[0] / 32 == 1)
                          && (PropertyOf(r.value) == Some(Verbatim) <==> data[0] / 16 == 1)
                          && (PropertyOf(r.value) == Some(Uncached) <==> data[0] / 16 == 0)
  {
    if data == [] then Stop
    else if data[0] / 128 == 1 then
      var (index, rest) :- ParseInt(data, 7);
      Parsed(Indexed(HpackInt.PrefixInt(index)), rest)
    else if data[0] / 64 == 1 then ParseNamed(code, data, 6, Cached)
    else if data[0] / 16 == 0 then ParseNamed(code, data, 4, Uncached)
    else if data[0] / 16 == 1 then ParseNamed(code, data, 4, Verbatim)
    else
      assert data[0] / 32 == 1;
      var (size, rest) :- ParseInt(data, 5);
      Parsed(SizeUpdate(HpackInt.PrefixInt(size)), rest)
  }

  // Parsers take a prefix of their input and look no further.

  lemma {:induction false} GroupsExtend(data: Bytes, more: Bytes)
    requires ParseGroups(data).Parsed?
    ensures ParseGroups(data + more) == Parsed(ParseGroups(data).value, ParseGroups(data).rest + more)
    ensures |ParseGroups(data).rest| < |data|
  {
    assert (data + more)[1..] == data[1..] + more;
    if data[0] >= 128 {
      GroupsExtend(data[1..], more);
    }
  }

  lemma IntExtends(data: Bytes, prefixLen: nat, more: Bytes)
    requires 1 <= prefixLen <= 8 && ParseInt(data, prefixLen).Parsed?
    ensures ParseInt(data + more, prefixLen) == Parsed(ParseInt(data, prefixLen).value, ParseInt(data, prefixLen).rest + more)
    ensures |ParseInt(data, prefixLen).rest| < |data|
  {
    assert (data + more)[1..] == data[1..] + more;
    if data[0] % Pow2(prefixLen) == PrefixMax(prefixLen) {
      GroupsExtend(data[1..], more);
    }
  }

  lemma TextExtends(code: Table, data: Bytes, more: Bytes)
    requires ParseText(code, data).Parsed?
    ensures ParseText(code, data + more) == Parsed(ParseText(code, data).value, ParseText(code, data).rest + more)
    ensures |ParseText(code, data).rest| < |data|
  {
    IntExtends(data, 7, more);
    var p := ParseInt(data, 7);
    assert (p.rest + more)[..p.value] == p.rest[..p.value];
    assert (p.rest + more)[p.value..] == p.rest[p.value..] + more;
  }

  lemma NamedExtends(code: Table, data: Bytes, prefixLen: nat, prop: Property, more: Bytes)
    requires 1 <= prefixLen <= 8 && ParseNamed(code, data, prefixLen, prop).Parsed?
    ensures ParseNamed(code, data + more, prefixLen, prop)
         == Parsed(ParseNamed(code, data, prefixLen, prop).value, ParseNamed(code, data, prefixLen, prop).rest + more)
    ensures |ParseNamed(code, data, prefixLen, prop).rest| < |data|
  {
    IntExtends(data, prefixLen, more);
    var after := ParseInt(data, prefixLen).rest;
    TextExtends(code, after, more);
    if ParseInt(data, prefixLen).value == 0 {
      TextExtends(code, ParseText(code, after).rest, more);
    }
  }

  /** Octets after a field do not change how it parses, and every field takes at least one octet. */
  lemma FieldExtends(code: Table, data: Bytes, more: Bytes)
    requires ParseField(code, data).Parsed?
    ensures ParseField(code, data + more) == Parsed(ParseField(code, data).value, ParseField(code, data).rest + more)
    ensures |ParseField(code, data).rest| < |data|
  {
    if data[0] / 128 == 1 {
      IntExtends(data, 7, more);
    } else if data[0] / 64 == 1 {
      NamedExtends(code, data, 6, Cached, more);
    } else if data[0] / 16 == 0 {
      NamedExtends(code, data, 4, Uncached, more);
    } else if data[0] / 16 == 1 {
      NamedExtends(code, data, 4, Verbatim, more);
    } else {
      IntExtends(data, 5, more);
    }
  }

  // Printing and parsing one field.

  /** No text announces a false length; by default the printer computes the true one. */
  predicate HonestTexts(code: Table, f: Field) {
    match f
    case Partial(_, val, _) => Honest(code, val)
    case Literal(key, val, _) => Honest(code, key) && Honest(code, val)
    case _ => true
  }

  /** What the parser makes of a printed field: padding is forgotten, texts are `Reparsed`. */
  function Normal(f: Field): (r: Field) {
    match f
    case Indexed(index) => Indexed(HpackInt.PrefixInt(index.val))
    case Partial(index, val, prop) => Partial(HpackInt.PrefixInt(index.val), Reparsed(val), prop)
    case Literal(key, val, prop) => Literal(Reparsed(key), Reparsed(val), prop)
    case SizeUpdate(size) => SizeUpdate(HpackInt.PrefixInt(size.val))
  }

  /** A printed integer begins with its preprefix. */
  lemma IntOpcode(i: HpackInt.PrefixInt, prefixLen: nat, preprefix: nat)
    requires 1 <= prefixLen <= 8 && IntBytes(i, prefixLen, preprefix).Some?
    ensures IntBytes(i, prefixLen, preprefix).value[0] / Pow2(prefixLen) == preprefix
  {
    OctetLow(prefixLen, preprefix, if i.val < PrefixMax(prefixLen) then i.val else PrefixMax(prefixLen));
  }

  function PartialPrefixLen(prop: Property): nat {
    if prop.Cached? then 6 else 4
  }

  /** An octet of a partial or literal field selects ParseNamed with the right prefix. */
  lemma NamedDispatch(code: Table, data: Bytes, prop: Property)
    requires data != []
    requires data[0] / (if prop.Cached? then 64 else 16) == if prop.Uncached? then 0 else 1
    ensures ParseField(code, data) == ParseNamed(code, data, PartialPrefixLen(prop), prop)
  {}

  lemma PartialParses(code: Table, index: HpackInt.PrefixInt, val: Text, prop: Property, rest: Bytes)
    requires HpackCode(code) && TextBytes(code, val).Some? && Honest(code, val) && PartialIndexBytes(index, prop).Some? && index.val > 0
    ensures ParseField(code, PartialIndexBytes(index, prop).value + (TextBytes(code, val).value + rest))
         == Parsed(Partial(HpackInt.PrefixInt(index.val), Reparsed(val), prop), rest)
  {
    PrefixPowers();
    var preprefix := if prop.Uncached? then 0 else 1;
    var after := TextBytes(code, val).value + rest;
    IntOpcode(index, PartialPrefixLen(prop), preprefix);
    IntRoundTrip(index, PartialPrefixLen(prop), preprefix, after);
    NamedDispatch(code, PartialIndexBytes(index, prop).value + after, prop);
    TextRoundTrip(code, val, rest);
  }

  lemma OpcodeAlone(code: Table, prop: Property, after: Bytes)
    ensures ParseField(code, [LiteralOpcode(prop)] + after) == ParseLiteral(code, after, prop)
  {
    PrefixPowers();
    NamedDispatch(code, [LiteralOpcode(prop)] + after, prop);
    assert ([LiteralOpcode(prop)] + after)[1..] == after;
  }

  lemma LiteralParses(code: Table, key: Text, val: Text, prop: Property, rest: Bytes)
    requires HpackCode(code) && TextBytes(code, key).Some? && TextBytes(code, val).Some?
    requires Honest(code, key) && Honest(code, val)
    ensures ParseField(code, [LiteralOpcode(prop)] + (TextBytes(code, key).value + (TextBytes(code, val).value + rest)))
         == Parsed(Literal(Reparsed(key), Reparsed(val), prop), rest)
  {
    var after := TextBytes(code, val).value + rest;
    OpcodeAlone(code, prop, TextBytes(code, key).value + after);
    TextRoundTrip(code, key, after);
    TextRoundTrip(code, val, rest);
  }

  lemma IndexedParses(code: Table, f: Field, rest: Bytes)
    requires f.Indexed? || f.SizeUpdate?
    requires FieldBytes(code, f).Some?
    ensures ParseField(code, FieldBytes(code, f).value + rest) == Parsed(Normal(f), rest)
  {
    PrefixPowers();
    match f
    case Indexed(index) =>
      IntOpcode(index, 7, 1);
      IntRoundTrip(index, 7, 1, rest);
    case SizeUpdate(size) =>
      IntOpcode(size, 5, 1);
      IntRoundTrip(size, 5, 1, rest);
  }

  /** Printing then parsing a field gives it back in normal form and takes exactly its octets. */
  lemma FieldRoundTrip(code: Table, f: Field, rest: Bytes)
    requires HpackCode(code) && HonestTexts(code, f) && FieldBytes(code, f).Some?
    requires f.Partial? ==> f.index.val > 0
    ensures ParseField(code, FieldBytes(code, f).value + rest) == Parsed(Normal(f), rest)
  {
    match f
    case Partial(index, val, prop) =>
      PartialParses(code, index, val, prop, rest);
      Reassociate(PartialIndexBytes(index, prop).value, TextBytes(code, val).value, rest);
    case Literal(key, val, prop) =>
      LiteralParses(code, key, val, prop, rest);
      var k, v := TextBytes(code, key).value, TextBytes(code, val).value;
      Reassociate(k, v, rest);
      Reassociate([LiteralOpcode(prop)], k + v, rest);
    case _ =>
      IndexedParses(code, f, rest);
  }

  /** A partial field with index zero prints a literal field's opcode: it never parses back as a partial field. */
  lemma PartialZeroIsNotPartial(code: Table, f: Field, rest: Bytes)
    requires f.Partial? && f.index.val == 0 && FieldBytes(code, f).Some?
    ensures var p := ParseField(code, FieldBytes(code, f).value + rest);
            p.Parsed? ==> p.value.Literal?
  {
    PrefixPowers();
    var tail := TextBytes(code, f.val).value;
    assert PartialIndexBytes(f.index, f.prop) == Some([LiteralOpcode(f.prop)]);
    Reassociate([LiteralOpcode(f.prop)], tail, rest);
    OpcodeAlone(code, f.prop, tail + rest);
  }

  /** So a printable field comes back if and only if it is not a partial field with index zero. */
  lemma FieldRoundTripExactly(code: Table, f: Field, rest: Bytes)
    requires HpackCode(code) && HonestTexts(code, f) && FieldBytes(code, f).Some?
    ensures ParseField(code, FieldBytes(code, f).value + rest) == Parsed(Normal(f), rest)
       <==> !(f.Partial? && f.index.val == 0)
  {
    if f.Partial? && f.index.val == 0 {
      PartialZeroIsNotPartial(code, f, rest);
    } else {
      FieldRoundTrip(code, f, rest);
    }
  }

  /** What parses to its end does not parse when cut. */
  lemma CutIsBad(code: Table, printed: Bytes, k: nat)
    requires ParseField(code, printed).Parsed? && ParseField(code, printed).rest == []
    requires 0 < k < |printed|
    ensures ParseField(code, printed[..k]) == Bad
  {
    assert printed[..k] + printed[k..] == printed;
    if ParseField(code, printed[..k]).Parsed? {
      FieldExtends(code, printed[..k], printed[k..]);
    }
  }

  /** A field cut short is an error, never a silent end. */
  lemma TruncatedFieldIsBad(code: Table, f: Field, k: nat)
    requires HpackCode(code) && HonestTexts(code, f) && FieldBytes(code, f).Some?
    requires f.Partial? ==> f.index.val > 0
    requires 0 < k < |FieldBytes(code, f).value|
    ensures ParseField(code, FieldBytes(code, f).value[..k]) == Bad
  {
    var printed := FieldBytes(code, f).value;
    FieldRoundTrip(code, f, []);
    assert printed + [] == printed;
    CutIsBad(code, printed, k);
  }

  // Field blocks.

  /** The concatenation of the printed fields; None if one of them cannot be printed. */
  function BlockBytes(code: Table, fields: seq<Field>): (r: Option<Bytes>) {
    if fields == [] then Some([]) else Concat(FieldBytes(code, fields[0]), BlockBytes(code, fields[1..]))
  }

  /** What parse_field_block returns; None where it raises HPACKError. */
  function ParseBlock(code: Table, data: Bytes): (r: Option<seq<Field>>)
    decreases |data|
  {
    match ParseField(code, data)
    case Stop => Some([])
    case Bad => None
    case Parsed(f, rest) =>
      FieldExtends(code, data, []);
      var fields := ParseBlock(code, rest);
      if fields.None? then None else Some([f] + fields.value)
  }

  /** parse_field_block: fields are appended until the iterator is empty. */
  method ParseFieldBlock(code: Table, data: Bytes) returns (r: Option<seq<Field>>)
    ensures r == ParseBlock(code, data)
  {
    var result: seq<Field> := [];
    var rest := data;
    assert ParseBlock(code, data).Some? ==> [] + ParseBlock(code, data).value == ParseBlock(code, data).value;
    while true
      invariant match ParseBlock(code, rest)
                case None => ParseBlock(code, data) == None
                case Some(fields) => ParseBlock(code, data) == Some(result + fields)
      decreases |rest|
    {
      match ParseField(code, rest) {
        case Stop =>
          assert result + [] == result;
          return Some(result);
        case Bad =>
          return None;
        case Parsed(f, after) =>
          FieldExtends(code, rest, []);
          assert forall fields: seq<Field> :: result + ([f] + fields) == (result + [f]) + fields;
          result := result + [f];
          rest := after;
      }
    }
  }

  predicate Printable(code: Table, f: Field) {
    HonestTexts(code, f) && FieldBytes(code, f).Some? && (f.Partial? ==> f.index.val > 0)
  }

  function NormalBlock(fields: seq<Field>): (r: seq<Field>)
    ensures |r| == |fields|
    ensures forall i | 0 <= i < |r| :: r[i] == Normal(fields[i])
  {
    if fields == [] then [] else [Normal(fields[0])] + NormalBlock(fields[1..])
  }

  /** Fields put in front of what the rest of a block gives. */
  ghost function InFront(fields: seq<Field>, rest: Option<seq<Field>>): Option<seq<Field>> {
    if rest.None? then None else Some(fields + rest.value)
  }

  lemma InFrontTwice(a: seq<Field>, b: seq<Field>, rest: Option<seq<Field>>)
    ensures InFront(a, InFront(b, rest)) == InFront(a + b, rest)
    ensures InFront([], rest) == rest
  {
    if rest.Some? {
      assert a + (b + rest.value) == (a + b) + rest.value;
      assert [] + rest.value == rest.value;
    }
  }

  lemma FieldInFront(code: Table, f: Field, rest: Bytes)
    requires HpackCode(code) && Printable(code, f)
    ensures ParseBlock(code, FieldBytes(code, f).value + rest) == InFront([Normal(f)], ParseBlock(code, rest))
  {
    FieldRoundTrip(code, f, rest);
  }

  /** A printed block followed by anything: its fields come first, and the rest parses as it would alone. */
  lemma {:induction false} BlockThenRest(code: Table, fields: seq<Field>, rest: Bytes)
    requires HpackCode(code)
    requires forall i | 0 <= i < |fields| :: Printable(code, fields[i])
    ensures BlockBytes(code, fields).Some?
    ensures ParseBlock(code, BlockBytes(code, fields).value + rest) == InFront(NormalBlock(fields), ParseBlock(code, rest))
  {
    if fields == [] {
      assert [] + rest == rest;
      InFrontTwice([], [], ParseBlock(code, rest));
    } else {
      BlockThenRest(code, fields[1..], rest);
      var head, tail := FieldBytes(code, fields[0]).value, BlockBytes(code, fields[1..]).value;
      FieldInFront(code, fields[0], tail + rest);
      Reassociate(head, tail, rest);
      InFrontTwice([Normal(fields[0])], NormalBlock(fields[1..]), ParseBlock(code, rest));
    }
  }

  /** Parsing a printed block gives the same fields, in normal form. */
  lemma BlockRoundTrip(code: Table, fields: seq<Field>)
    requires HpackCode(code)
    requires forall i | 0 <= i < |fields| :: Printable(code, fields[i])
    ensures BlockBytes(code, fields).Some?
    ensures ParseBlock(code, BlockBytes(code, fields).value) == Some(NormalBlock(fields))
  {
    BlockThenRest(code, fields, []);
    assert BlockBytes(code, fields).value + [] == BlockBytes(code, fields).value;
    assert NormalBlock(fields) + [] == NormalBlock(fields);
  }

  ghost predicate NoPartialZero(fields: seq<Field>) {
    forall i | 0 <= i < |fields| :: !(fields[i].Partial? && fields[i].index.val == 0)
  }

  /** A block of fields that print, with honest texts, parses back if and only if no partial field has index zero. */
  lemma {:induction false} BlockRoundTripExactly(code: Table, fields: seq<Field>)
    requires HpackCode(code) && BlockBytes(code, fields).Some?
    requires forall i | 0 <= i < |fields| :: HonestTexts(code, fields[i])
    ensures ParseBlock(code, BlockBytes(code, fields).value) == Some(NormalBlock(fields)) <==> NoPartialZero(fields)
  {
    if fields != [] {
      var head, tail := FieldBytes(code, fields[0]).value, BlockBytes(code, fields[1..]).value;
      BlockRoundTripExactly(code, fields[1..]);
      assert NoPartialZero(fields) <==> NoPartialZero(fields[..1]) && NoPartialZero(fields[1..]) by {
        assert fields == fields[..1] + fields[1..];
      }
      BlockStep(code, fields[0], head, tail);
      assert NormalBlock(fields)[0] == Normal(fields[0]) && NormalBlock(fields)[1..] == NormalBlock(fields[1..]);
    }
  }

  /** The first field of a block: lost if it is a partial field with index zero, else followed by the others. */
  lemma BlockStep(code: Table, f: Field, head: Bytes, tail: Bytes)
    requires HpackCode(code) && HonestTexts(code, f) && FieldBytes(code, f) == Some(head)
    ensures var block := ParseBlock(code, head + tail);
            if f.Partial? && f.index.val == 0 then
              block.Some? ==> block.value != [] && block.value[0] != Normal(f)
            else
              block == match ParseBlock(code, tail)
                       case None => None
                       case Some(more) => Some([Normal(f)] + more)
  {
    if f.Partial? && f.index.val == 0 {
      PartialZeroIsNotPartial(code, f, tail);
    } else {
      FieldRoundTrip(code, f, tail);
    }
  }

  /** A block that ends inside a field is an error: nothing is dropped silently. */
  lemma TruncatedBlockIsAnError(code: Table, fields: seq<Field>, last: Field, k: nat)
    requires HpackCode(code)
    requires forall i | 0 <= i < |fields| :: Printable(code, fields[i])
    requires Printable(code, last) && 0 < k < |FieldBytes(code, last).value|
    ensures BlockBytes(code, fields).Some?
    ensures ParseBlock(code, BlockBytes(code, fields).value + FieldBytes(code, last).value[..k]) == None
  {
    TruncatedFieldIsBad(code, last, k);
    BlockThenRest(code, fields, FieldBytes(code, last).value[..k]);
  }
}
