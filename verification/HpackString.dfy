/** String literals (section 5.2 of RFC 7541): raw octets, or a Huffman code padded with ones.

    The code table is a parameter. The theorems ask it to be a complete prefix code whose last
    codeword, EOS, is thirty ones; HuffmanTable shows that the table of RFC 7541 is one.
  */
module HpackString {
  import opened Wire
  import opened Bits
  import opened PrefixCode
  import opened HuffmanTree
  import HpackInt

  type PrefixInt = HpackInt.PrefixInt

  /** An HPACKString. `length` overrides the printed length; the parser stores the decoded length there. */
  datatype Text = Text(data: Bytes, compressed: bool := false, length: Option<PrefixInt> := None)

  const SYMBOLS: nat := 257
  const EOS: nat := 256

  type Table = code: Code | |code| == SYMBOLS witness seq(257, _ => [])

  ghost predicate HpackCode(code: Table) {
    GoodCode(code) && code[EOS] == Ones(30)
  }

  /** Up to seven ones never complete a codeword: they stop inside EOS. */
  lemma ShortOnesAreResidual(code: Table, n: nat)
    requires HpackCode(code) && n < 30
    ensures IsResidual(code, Ones(n))
  {
    assert Ones(n) < code[EOS];
  }

  // Printing.

  function BitsOfText(code: Table, data: Bytes, compressed: bool): (r: Bitstring) {
    if compressed then Encode(code, data) else Unpack(data)
  }

  function Shortfall(n: nat): (r: nat)
    ensures r < 8
  {
    (8 - n % 8) % 8
  }

  lemma ShortfallEnds(n: nat, k: nat)
    requires k <= Shortfall(n)
    ensures (n + k) % 8 == 0 <==> k == Shortfall(n)
  {}

  /** Ones up to the next octet boundary. */
  function PadOnes(bits: Bitstring): (r: Bitstring)
    ensures |r| % 8 == 0 && bits <= r
  {
    ShortfallEnds(|bits|, Shortfall(|bits|));
    bits + Ones(Shortfall(|bits|))
  }

  function Octets(code: Table, data: Bytes, compressed: bool): (r: Bytes) {
    Pack(PadOnes(BitsOfText(code, data, compressed)))
  }

  /** The length that is printed: the number of octets, unless another is given. */
  function PrintedLength(code: Table, t: Text): (r: PrefixInt) {
    if t.length.None? then HpackInt.PrefixInt(|Octets(code, t.data, t.compressed)|) else t.length.value
  }

  /** HPACKString.to_bytes; None where it raises HPACKError for an impossible explicit length. */
  function TextBytes(code: Table, t: Text): (r: Option<Bytes>)
    ensures r.Some? ==> r.value != []
    ensures t.length.None? ==> r.Some?
  {
    var octets := Octets(code, t.data, t.compressed);
    assert Pow2(1) == 2;
    var prefix := HpackInt.IntBytes(PrintedLength(code, t), 7, if t.compressed then 1 else 0);
    if prefix.None? then None else Some(prefix.value + octets)
  }

  /** The loop of HPACKString.to_bytes that collects the bits. */
  method CollectBits(code: Table, data: Bytes, compressed: bool) returns (bits: Bitstring)
    ensures bits == PadOnes(BitsOfText(code, data, compressed))
  {
    bits := [];
    for i := 0 to |data|
      invariant bits == BitsOfText(code, data[..i], compressed)
    {
      assert data[..i + 1] == data[..i] + [data[i]];
      BitsOfTextSnoc(code, data[..i], data[i], compressed);
      bits := bits + if compressed then code[data[i]] else ToBits(data[i]);
    }
    assert data[..|data|] == data;
    bits := PadToOctet(bits);
  }

  method PadToOctet(unpadded: Bitstring) returns (bits: Bitstring)
    ensures bits == PadOnes(unpadded)
  {
    bits := unpadded;
    ghost var n := 0;
    ShortfallEnds(|unpadded|, 0);
    while |bits| % 8 > 0
      invariant n <= Shortfall(|unpadded|)
      invariant bits == unpadded + Ones(n)
      invariant |bits| % 8 == 0 <==> n == Shortfall(|unpadded|)
      decreases Shortfall(|unpadded|) - n
    {
      ShortfallEnds(|unpadded|, n + 1);
      assert Ones(n) + [true] == Ones(n + 1);
      bits := bits + [true];
      n := n + 1;
    }
  }

  lemma BitsOfTextSnoc(code: Table, data: Bytes, c: Byte, compressed: bool)
    ensures BitsOfText(code, data + [c], compressed)
         == BitsOfText(code, data, compressed) + if compressed then code[c] else ToBits(c)
  {
    if compressed {
      EncodeConcat(code, data, [c]);
      assert Encode(code, [c]) == code[c] + Encode(code, []);
    } else {
      UnpackConcat(data, [c]);
      assert Unpack([c]) == ToBits(c) + Unpack([]);
    }
  }

  /** HPACKString.to_bytes. */
  method ToBytes(code: Table, t: Text) returns (r: Option<Bytes>)
    ensures r == TextBytes(code, t)
  {
    var bits := CollectBits(code, t.data, t.compressed);
    var octets := Pack(bits);
    var length := if t.length.None? then HpackInt.PrefixInt(|octets|) else t.length.value;
    var prefix := HpackInt.ToBytes(length, 7, if t.compressed then 1 else 0);
    if prefix.None? {
      return None;
    }
    return Some(prefix.value + octets);
  }

  // Huffman decoding.

  datatype Decoded = Plain(data: Bytes) | EosFound | BadPadding

  lemma OctetsWithoutEos(symbols: seq<nat>)
    requires EOS !in symbols && forall i | 0 <= i < |symbols| :: symbols[i] < SYMBOLS
    ensures forall i | 0 <= i < |symbols| :: symbols[i] < 256
  {
    assert forall i | 0 <= i < |symbols| :: symbols[i] in symbols;
  }

  function Decode(code: Table, raw: Bytes): (r: Decoded) {
    var w := Walk(code, Unpack(raw), []);
    WalkConserves(code, Unpack(raw), []);
    if EOS in w.symbols then EosFound
    else if !AllOnes(w.residual) && |w.residual| <= 7 then BadPadding
    else
      OctetsWithoutEos(w.symbols);
      Plain(w.symbols)
  }

  /** The decoding loop of HPACKString.parse, over the tree. */
  method DecodeWithTree(ghost code: Table, tree: Tree, raw: Bytes) returns (r: Decoded)
    requires GoodCode(code) && tree.Valid(code, SYMBOLS)
    ensures r == Decode(code, raw)
  {
    var result: Bytes := [];
    var path := tree.root;
    var codeword: Bitstring := [];
    ghost var whole := Walk(code, Unpack(raw), []);
    ghost var todo := Unpack(raw);
    for i := 0 to |raw|
      invariant path in tree.nodes && path.path == codeword
      invariant todo == Unpack(raw[i..])
      invariant whole == After(result, Walk(code, todo, codeword))
    {
      var bits := ToBits(raw[i]);
      assert todo == bits + Unpack(raw[i + 1..]) by {
        assert raw[i..][1..] == raw[i + 1..];
      }
      for j := 0 to 8
        invariant path in tree.nodes && path.path == codeword
        invariant todo == bits[j..] + Unpack(raw[i + 1..])
        invariant whole == After(result, Walk(code, todo, codeword))
      {
        assert todo[0] == bits[j] && todo[1..] == bits[j + 1..] + Unpack(raw[i + 1..]);
        tree.Step(code, path, bits[j]);
        todo := todo[1..];
        codeword := codeword + [bits[j]];
        match path.At(bits[j]) {
          case Branch(node) =>
            path := node;
          case Leaf(symbol) =>
            AfterSymbol(result, symbol, Walk(code, todo, []));
            if symbol == EOS {
              return EosFound;
            }
            result := result + [symbol];
            path := tree.root;
            codeword := [];
        }
      }
    }
    assert whole == Walked(result, codeword);
    if !AllOnes(codeword) && |codeword| <= 7 {
      return BadPadding;
    }
    return Plain(result);
  }

  /** A walk that has already emitted `done`. */
  ghost function After(done: seq<nat>, w: Walked): Walked {
    Walked(done + w.symbols, w.residual)
  }

  lemma AfterSymbol(done: seq<nat>, symbol: nat, w: Walked)
    ensures After(done, Walked([symbol] + w.symbols, w.residual)) == After(done + [symbol], w)
    ensures symbol in After(done + [symbol], w).symbols
  {
    assert done + ([symbol] + w.symbols) == (done + [symbol]) + w.symbols;
    assert (done + [symbol] + w.symbols)[|done|] == symbol;
  }

  // Parsing.

  function ParseText(code: Table, data: Bytes): (r: Parse<Text>)
    ensures !r.Stop?
  {
    if data == [] then Bad
    else
      var compressed := data[0] / 128 == 1;
      var (length, rest) :- HpackInt.ParseInt(data, 7);
      if |rest| < length then Bad
      else if !compressed then Parsed(Text(rest[..length]), rest[length..])
      else
        match Decode(code, rest[..length])
        case Plain(text) => Parsed(Text(text, true, Some(HpackInt.PrefixInt(|text|))), rest[length..])
        case _ => Bad
  }

  /** HPACKString.parse. */
  method ParseHpackString(ghost code: Table, tree: Tree, data: Bytes) returns (r: Parse<Text>)
    requires GoodCode(code) && tree.Valid(code, SYMBOLS)
    ensures r == ParseText(code, data)
  {
    if data == [] {
      return Bad;
    }
    var compressed := data[0] / 128 == 1;
    var length := HpackInt.ParseHpackInt(data, 7);
    if !length.Parsed? || |length.rest| < length.value {
      return Bad;
    }
    var raw, rest := length.rest[..length.value], length.rest[length.value..];
    if !compressed {
      return Parsed(Text(raw), rest);
    }
    var decoded := DecodeWithTree(code, tree, raw);
    match decoded
    case Plain(text) => return Parsed(Text(text, true, Some(HpackInt.PrefixInt(|text|))), rest);
    case _ => return Bad;
  }

  // What decoding means.

  /** A decoded text, its codewords and its padding make up the input; nothing else does. */
  lemma DecodeIsTheSplit(code: Table, raw: Bytes, text: Bytes)
    requires GoodCode(code)
    ensures Decode(code, raw) == Plain(text) <==>
            exists residual ::
              && IsResidual(code, residual)
              && (AllOnes(residual) || |residual| > 7)
              && Unpack(raw) == BitsOfText(code, text, true) + residual
  {
    var bits := Unpack(raw);
    var w := Walk(code, bits, []);
    UniqueSplit(code, bits, w.symbols, w.residual);
    if residual :| IsResidual(code, residual) && (AllOnes(residual) || |residual| > 7)
                   && bits == BitsOfText(code, text, true) + residual {
      UniqueSplit(code, bits, text, residual);
    }
  }

  /** The EOS error is raised exactly when EOS is a symbol of the one split of the input. */
  lemma EosExactly(code: Table, raw: Bytes)
    requires GoodCode(code)
    ensures Decode(code, raw) == EosFound <==>
            exists symbols, residual ::
              && AreSymbols(code, symbols)
              && EOS in symbols
              && IsResidual(code, residual)
              && Unpack(raw) == Encode(code, symbols) + residual
  {
    var bits := Unpack(raw);
    var w := Walk(code, bits, []);
    UniqueSplit(code, bits, w.symbols, w.residual);
    if symbols, residual :| AreSymbols(code, symbols) && EOS in symbols && IsResidual(code, residual)
                            && bits == Encode(code, symbols) + residual {
      UniqueSplit(code, bits, symbols, residual);
    }
  }

  lemma DecodeEncoded(code: Table, text: Bytes)
    requires HpackCode(code)
    ensures Decode(code, Octets(code, text, true)) == Plain(text)
  {
    var bits := BitsOfText(code, text, true);
    var n := Shortfall(|bits|);
    UnpackPack(PadOnes(bits));
    ShortOnesAreResidual(code, n);
    DecodeIsTheSplit(code, Octets(code, text, true), text);
  }

  /** What the parser makes of a printed text: the decoded length ends up in `length`. */
  function Reparsed(t: Text): (r: Text) {
    Text(t.data, t.compressed, if t.compressed then Some(HpackInt.PrefixInt(|t.data|)) else None)
  }

  /** What the prefix of a printed text tells the parser. */
  lemma PrefixParses(prefix: Bytes, length: PrefixInt, compressed: bool, after: Bytes)
    requires HpackInt.IntBytes(length, 7, if compressed then 1 else 0) == Some(prefix)
    ensures prefix + after != []
    ensures (prefix + after)[0] / 128 == if compressed then 1 else 0
    ensures HpackInt.ParseInt(prefix + after, 7) == Parsed(length.val, after)
  {
    var top := if compressed then 1 else 0;
    FirstOctet(length, top);
    HpackInt.IntRoundTrip(length, 7, top, after);
  }

  /** The parser undoes the octets of a text, whatever announced their length. */
  lemma OctetsParse(code: Table, t: Text, prefix: Bytes, rest: Bytes)
    requires HpackCode(code)
    requires var octets := Octets(code, t.data, t.compressed);
             && prefix + (octets + rest) != []
             && (prefix + (octets + rest))[0] / 128 == (if t.compressed then 1 else 0)
             && HpackInt.ParseInt(prefix + (octets + rest), 7) == Parsed(|octets|, octets + rest)
    ensures ParseText(code, prefix + (Octets(code, t.data, t.compressed) + rest)) == Parsed(Reparsed(t), rest)
  {
    var octets := Octets(code, t.data, t.compressed);
    assert (octets + rest)[..|octets|] == octets && (octets + rest)[|octets|..] == rest;
    if t.compressed {
      DecodeEncoded(code, t.data);
    } else {
      assert PadOnes(Unpack(t.data)) == Unpack(t.data);
      PackUnpack(t.data);
    }
  }

  lemma TextBytesSplit(code: Table, t: Text) returns (prefix: Bytes)
    requires TextBytes(code, t).Some?
    ensures HpackInt.IntBytes(PrintedLength(code, t), 7, if t.compressed then 1 else 0) == Some(prefix)
    ensures TextBytes(code, t) == Some(prefix + Octets(code, t.data, t.compressed))
  {
    prefix := HpackInt.IntBytes(PrintedLength(code, t), 7, if t.compressed then 1 else 0).value;
  }

  /** The printed length is the true one. */
  predicate Honest(code: Table, t: Text) {
    t.length.Some? ==> t.length.value.val == |Octets(code, t.data, t.compressed)|
  }

  /** Printing then parsing: the same octets, whether compressed or not, and exactly `rest` left. */
  lemma TextRoundTrip(code: Table, t: Text, rest: Bytes)
    requires HpackCode(code) && TextBytes(code, t).Some? && Honest(code, t)
    ensures ParseText(code, TextBytes(code, t).value + rest) == Parsed(Reparsed(t), rest)
  {
    var prefix := TextBytesSplit(code, t);
    var octets := Octets(code, t.data, t.compressed);
    PrefixParses(prefix, PrintedLength(code, t), t.compressed, octets + rest);
    OctetsParse(code, t, prefix, rest);
    Reassociate(prefix, octets, rest);
  }

  /** A parsed text leaves what is behind the announced length. */
  lemma ParsedTextLeaves(code: Table, data: Bytes)
    requires ParseText(code, data).Parsed?
    ensures var p := HpackInt.ParseInt(data, 7);
            p.Parsed? && |ParseText(code, data).rest| == |p.rest| - p.value
  {}

  /** A text printed with any explicit length comes back, leaving `rest`, exactly when that length is the true one. */
  lemma TextRoundTripExactly(code: Table, t: Text, rest: Bytes)
    requires HpackCode(code) && TextBytes(code, t).Some?
    ensures ParseText(code, TextBytes(code, t).value + rest) == Parsed(Reparsed(t), rest) <==> Honest(code, t)
  {
    if Honest(code, t) {
      TextRoundTrip(code, t, rest);
    } else {
      var prefix := TextBytesSplit(code, t);
      var octets := Octets(code, t.data, t.compressed);
      PrefixParses(prefix, PrintedLength(code, t), t.compressed, octets + rest);
      Reassociate(prefix, octets, rest);
      var data := prefix + (octets + rest);
      if ParseText(code, data).Parsed? {
        ParsedTextLeaves(code, data);
      }
    }
  }

  lemma FirstOctet(length: PrefixInt, top: nat)
    requires top < 2 && HpackInt.IntBytes(length, 7, top).Some?
    ensures HpackInt.IntBytes(length, 7, top).value[0] / 128 == top
  {
    assert Pow2(7) == 128 by {
      assert Pow2(4) == 16;
    }
  }

  // Where the code departs from what one would expect.

  /** Section 5.2 of RFC 7541: the codewords of the text, then at most seven ones. */
  ghost predicate StandardDecodes(code: Table, raw: Bytes, text: Bytes) {
    exists n | 0 <= n <= 7 :: Unpack(raw) == BitsOfText(code, text, true) + Ones(n)
  }

  lemma AllOnesAreOnes(bits: Bitstring)
    requires AllOnes(bits)
    ensures bits == Ones(|bits|)
  {}

  /** The code accepts what the standard accepts, with the same text, and beyond that exactly the inputs
      that leave more than seven bits after the last codeword. */
  lemma DecodeMeetsStandard(code: Table, raw: Bytes, text: Bytes)
    requires HpackCode(code)
    ensures StandardDecodes(code, raw, text)
       <==> Decode(code, raw) == Plain(text) && |Walk(code, Unpack(raw), []).residual| <= 7
  {
    var bits := Unpack(raw);
    var w := Walk(code, bits, []);
    if n :| 0 <= n <= 7 && bits == BitsOfText(code, text, true) + Ones(n) {
      ShortOnesAreResidual(code, n);
      UniqueSplit(code, bits, text, Ones(n));
    }
    if Decode(code, raw) == Plain(text) && |w.residual| <= 7 {
      UniqueSplit(code, bits, w.symbols, w.residual);
      AllOnesAreOnes(w.residual);
    }
  }

  /** One octet of ones is eight bits of padding, which the standard refuses; the code decodes it to the empty text. */
  lemma LongPaddingIsAccepted(code: Table, text: Bytes)
    requires HpackCode(code)
    ensures Decode(code, [0xFF]) == Plain([]) && !StandardDecodes(code, [0xFF], text)
  {
    ShortOnesAreResidual(code, 8);
    Pow2Of8();
    OnesValue(8);
    BitsOfValueOf(Ones(8));
    assert Unpack([0xFF]) == Ones(8) + [];
    assert Encode(code, []) + Ones(8) == Unpack([0xFF]);
    UniqueSplit(code, Unpack([0xFF]), [], Ones(8));
    DecodeMeetsStandard(code, [0xFF], text);
  }

  /** So is one whose last codeword is broken off after its first octet. */
  lemma BrokenCodewordIsAccepted(code: Table, b: Byte, k: nat)
    requires HpackCode(code) && k < |code| && ToBits(b) < code[k]
    ensures Decode(code, [b]) == Plain([])
  {
    assert Unpack([b]) == ToBits(b) + [] == ToBits(b);
    assert IsResidual(code, ToBits(b));
    assert Encode(code, []) + ToBits(b) == ToBits(b);
    UniqueSplit(code, ToBits(b), [], ToBits(b));
  }

  /** A parsed compressed text announces its decoded length when printed again, so it parses back
      exactly when the code happens to be as long as the text. */
  lemma ReprintOfCompressed(code: Table, text: Bytes)
    requires HpackCode(code)
    ensures var t := Reparsed(Text(text, true));
            && TextBytes(code, t).Some?
            && (ParseText(code, TextBytes(code, t).value) == Parsed(t, []) <==> |text| == |Octets(code, text, true)|)
  {
    var t := Reparsed(Text(text, true));
    assert Pow2(1) == 2;
    TextRoundTripExactly(code, t, []);
    assert TextBytes(code, t).value + [] == TextBytes(code, t).value;
  }

  /** An octet with a codeword of more than eight bits, once parsed, does not come back. */
  lemma LongCodewordDoesNotReprint(code: Table, c: Byte)
    requires HpackCode(code) && |code[c]| > 8
    ensures var t := Reparsed(Text([c], true));
            TextBytes(code, t).Some? && ParseText(code, TextBytes(code, t).value) != Parsed(t, [])
  {
    EncodeCons(code, c, []);
    assert [c] + [] == [c] && Encode(code, [c]) == code[c] + [];
    ReprintOfCompressed(code, [c]);
  }
}
