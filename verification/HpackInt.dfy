/** Prefix integers (section 5.1 of RFC 7541), with the optional zero-padding of the printer. */
module HpackInt {
  import opened Wire
  import opened Bits

  /** An HPACKInt: its value, and how many redundant octets the printer appends. */
  datatype PrefixInt = PrefixInt(val: nat, padding: nat := 0)

  function PrefixMax(prefixLen: nat): nat {
    Pow2(prefixLen) - 1
  }

  // Printing.

  /** Seven-bit groups that add nothing to the value: `n` octets, the last without continuation bit. */
  function EmptyGroups(n: nat): (r: Bytes)
    ensures |r| == n
  {
    if n == 0 then [] else if n == 1 then [0] else [0x80] + EmptyGroups(n - 1)
  }

  /** The octets after the prefix octet: seven bits each, least significant first. */
  function Groups(val: nat, padding: nat): (r: Bytes)
    ensures r != []
  {
    if val >= 128 then [0x80 + val % 128] + Groups(val / 128, padding)
    else if padding == 0 then [val]
    else [0x80 + val] + EmptyGroups(padding)
  }

  lemma PrefixOctetFits(prefixLen: nat, preprefix: nat, low: nat)
    requires 1 <= prefixLen <= 8 && preprefix < Pow2(8 - prefixLen) && low < Pow2(prefixLen)
    ensures preprefix * Pow2(prefixLen) + low < 256
  {
    assert Pow2(8 - prefixLen) * Pow2(prefixLen) == 256 by {
      Pow2Add(8 - prefixLen, prefixLen);
      Pow2Of8();
    }
    assert (preprefix + 1) * Pow2(prefixLen) <= Pow2(8 - prefixLen) * Pow2(prefixLen);
  }

  /** The octets of an integer, or None where the printer raises HPACKError. */
  function IntBytes(i: PrefixInt, prefixLen: nat, preprefix: nat): (r: Option<Bytes>)
    requires 1 <= prefixLen <= 8
    ensures r.Some? ==> r.value != []
  {
    if preprefix >= Pow2(8 - prefixLen) then None
    else
      PrefixOctetFits(prefixLen, preprefix, PrefixMax(prefixLen));
      if i.val < PrefixMax(prefixLen) then
        PrefixOctetFits(prefixLen, preprefix, i.val);
        if i.padding != 0 then None else Some([preprefix * Pow2(prefixLen) + i.val])
      else
        Some([preprefix * Pow2(prefixLen) + PrefixMax(prefixLen)] + Groups(i.val - PrefixMax(prefixLen), i.padding))
  }

  /** HPACKInt.to_bytes. */
  method ToBytes(i: PrefixInt, prefixLen: nat, preprefix: nat) returns (r: Option<Bytes>)
    requires 1 <= prefixLen <= 8
    ensures r == IntBytes(i, prefixLen, preprefix)
  {
    if preprefix >= Pow2(8 - prefixLen) {
      return None;
    }
    PrefixOctetFits(prefixLen, preprefix, PrefixMax(prefixLen));
    var val: nat := i.val;
    if val < Pow2(prefixLen) - 1 {
      if i.padding != 0 {
        return None;
      }
      PrefixOctetFits(prefixLen, preprefix, val);
      return Some([preprefix * Pow2(prefixLen) + val]);
    }
    var groups := PrintGroups(val - PrefixMax(prefixLen), i.padding);
    return Some([preprefix * Pow2(prefixLen) + PrefixMax(prefixLen)] + groups);
  }

  /** The loop of HPACKInt.to_bytes, and the padding after it. */
  method PrintGroups(n: nat, padding: nat) returns (result: Bytes)
    ensures result == Groups(n, padding)
  {
    var val := n;
    result := [];
    while val >= 128
      invariant result + Groups(val, padding) == Groups(n, padding)
    {
      var group: Byte := 0x80 + val % 128;
      Reassociate(result, [group], Groups(val / 128, padding));
      result := result + [group];
      val := val / 128;
    }
    result := AppendLast(result, val, padding);
  }

  method AppendLast(front: Bytes, val: nat, padding: nat) returns (result: Bytes)
    requires val < 128
    ensures result == front + Groups(val, padding)
  {
    result := front + [val];
    if padding != 0 {
      EmptyGroupsAre(padding);
      result := result[..|result| - 1] + [result[|result| - 1] + 0x80];
      result := result + (seq(padding - 1, _ => 0x80) + [0]);
    }
  }

  lemma {:induction false} EmptyGroupsAre(n: nat)
    requires n > 0
    ensures EmptyGroups(n) == seq(n - 1, _ => 0x80) + [0]
  {
    if n > 1 {
      EmptyGroupsAre(n - 1);
    }
  }

  // Parsing.

  function ParseGroups(data: Bytes): (r: Parse<nat>)
    ensures !r.Stop?
  {
    if data == [] then Bad
    else if data[0] < 128 then Parsed(data[0], data[1..])
    else
      var (high, rest) :- ParseGroups(data[1..]);
      Parsed(data[0] - 128 + 128 * high, rest)
  }

  /** What `_parse_hpack_int` takes from the iterator. */
  function ParseInt(data: Bytes, prefixLen: nat): (r: Parse<nat>)
    requires 1 <= prefixLen <= 8
    ensures !r.Stop?
  {
    if data == [] then Bad
    else
      var low := data[0] % Pow2(prefixLen);
      if low != PrefixMax(prefixLen) then Parsed(low, data[1..])
      else
        var (high, rest) :- ParseGroups(data[1..]);
        Parsed(low + high, rest)
  }

  /** `_parse_hpack_int`: the groups are added up with a growing shift. */
  method ParseHpackInt(data: Bytes, prefixLen: nat) returns (r: Parse<nat>)
    requires 1 <= prefixLen <= 8
    ensures r == ParseInt(data, prefixLen)
  {
    if data == [] {
      return Bad;
    }
    var result := data[0] % Pow2(prefixLen);
    var rest := data[1..];
    if result != Pow2(prefixLen) - 1 {
      return Parsed(result, rest);
    }
    var shift := 0;
    while rest != []
      invariant match ParseGroups(rest)
                case Parsed(high, after) => ParseInt(data, prefixLen) == Parsed(result + high * Pow2(shift), after)
                case _ => ParseInt(data, prefixLen) == Bad
      decreases |rest|
    {
      var b := rest[0];
      ShiftedGroup(rest, shift);
      result := result + b % 128 * Pow2(shift);
      shift := shift + 7;
      rest := rest[1..];
      if b / 128 % 2 == 0 {
        return Parsed(result, rest);
      }
    }
    return Bad;
  }

  /** Taking one group off adds its seven bits at the current shift. */
  lemma ShiftedGroup(data: Bytes, shift: nat)
    requires data != []
    ensures data[0] < 128 ==> data[0] * Pow2(shift) == data[0] % 128 * Pow2(shift)
    ensures data[0] >= 128 && ParseGroups(data).Parsed? ==>
              && ParseGroups(data[1..]).Parsed?
              && ParseGroups(data).value * Pow2(shift)
                 == data[0] % 128 * Pow2(shift) + ParseGroups(data[1..]).value * Pow2(shift + 7)
  {
    if data[0] >= 128 && ParseGroups(data).Parsed? {
      var high, w := ParseGroups(data[1..]).value, Pow2(shift);
      Pow2Add(7, shift);
      assert Pow2(7) == 128 by {
        assert Pow2(4) == 16;
      }
      assert Pow2(shift + 7) == 128 * w;
      Distribute(data[0] - 128, 128 * high, w);
      Regroup(high, w);
    }
  }

  lemma Distribute(a: nat, b: nat, w: nat)
    ensures (a + b) * w == a * w + b * w
  {}

  lemma Regroup(high: nat, w: nat)
    ensures (128 * high) * w == high * (128 * w)
  {}

  // Printing and parsing are inverse to each other.

  lemma {:induction false} EmptyGroupsParse(n: nat, rest: Bytes)
    requires n > 0
    ensures ParseGroups(EmptyGroups(n) + rest) == Parsed(0, rest)
  {
    var data := EmptyGroups(n) + rest;
    if n == 1 {
      assert data[1..] == rest;
    } else {
      EmptyGroupsParse(n - 1, rest);
      assert data[1..] == EmptyGroups(n - 1) + rest;
    }
  }

  lemma {:induction false} GroupsParse(val: nat, padding: nat, rest: Bytes)
    ensures ParseGroups(Groups(val, padding) + rest) == Parsed(val, rest)
  {
    var data := Groups(val, padding) + rest;
    if val >= 128 {
      GroupsParse(val / 128, padding, rest);
      assert data[1..] == Groups(val / 128, padding) + rest;
    } else if padding == 0 {
      assert data[1..] == rest;
    } else {
      EmptyGroupsParse(padding, rest);
      assert data[1..] == EmptyGroups(padding) + rest;
    }
  }

  lemma GroupInFront(low: nat, high: nat, padding: nat)
    requires low < 128
    ensures high > 0 ==> Groups(low + 128 * high, padding) == [0x80 + low] + Groups(high, padding)
    ensures Groups(low, padding + 1) == [0x80 + low] + EmptyGroups(padding + 1)
  {
    DivisionIsUnique(low + 128 * high, 128, high, low);
  }

  /** Every string of groups that parses is a printed one, for exactly one amount of padding. */
  lemma {:induction false} ParsedGroupsArePrinted(data: Bytes) returns (padding: nat)
    requires ParseGroups(data).Parsed?
    ensures data == Groups(ParseGroups(data).value, padding) + ParseGroups(data).rest
    ensures ParseGroups(data).value == 0 ==> Groups(0, padding) == EmptyGroups(padding + 1)
  {
    padding := 0;
    if data[0] >= 128 {
      padding := ParsedGroupsArePrinted(data[1..]);
      var high := ParseGroups(data[1..]);
      GroupInFront(data[0] - 128, high.value, padding);
      Reassociate([data[0]], Groups(high.value, padding), high.rest);
      assert data == [data[0]] + data[1..];
      if ParseGroups(data[1..]).value == 0 {
        padding := padding + 1;
      }
    }
  }

  lemma OctetSplits(b: Byte, prefixLen: nat)
    requires 1 <= prefixLen <= 8
    ensures b == b / Pow2(prefixLen) * Pow2(prefixLen) + b % Pow2(prefixLen)
    ensures b / Pow2(prefixLen) < Pow2(8 - prefixLen)
  {
    assert Pow2(8 - prefixLen) * Pow2(prefixLen) == 256 by {
      Pow2Add(8 - prefixLen, prefixLen);
      Pow2Of8();
    }
    ProductGrows(Pow2(8 - prefixLen), b / Pow2(prefixLen), Pow2(prefixLen));
  }

  lemma OctetLow(prefixLen: nat, preprefix: nat, low: nat)
    requires low < Pow2(prefixLen)
    ensures (preprefix * Pow2(prefixLen) + low) % Pow2(prefixLen) == low
    ensures (preprefix * Pow2(prefixLen) + low) / Pow2(prefixLen) == preprefix
  {
    DivisionIsUnique(preprefix * Pow2(prefixLen) + low, Pow2(prefixLen), preprefix, low);
  }

  /** Printing then parsing gives the value back and takes exactly the printed octets. */
  lemma IntRoundTrip(i: PrefixInt, prefixLen: nat, preprefix: nat, rest: Bytes)
    requires 1 <= prefixLen <= 8 && IntBytes(i, prefixLen, preprefix).Some?
    ensures ParseInt(IntBytes(i, prefixLen, preprefix).value + rest, prefixLen) == Parsed(i.val, rest)
  {
    var printed := IntBytes(i, prefixLen, preprefix).value;
    var data := printed + rest;
    OctetLow(prefixLen, preprefix, if i.val < PrefixMax(prefixLen) then i.val else PrefixMax(prefixLen));
    if i.val < PrefixMax(prefixLen) {
      assert data[1..] == rest;
    } else {
      GroupsParse(i.val - PrefixMax(prefixLen), i.padding, rest);
      assert data[1..] == Groups(i.val - PrefixMax(prefixLen), i.padding) + rest;
    }
  }

  /** Whatever parses was printed: the printer, with its padding and preprefix, reaches every accepted string. */
  lemma ParsedIntIsPrinted(data: Bytes, prefixLen: nat) returns (padding: nat, preprefix: nat)
    requires 1 <= prefixLen <= 8 && ParseInt(data, prefixLen).Parsed?
    ensures var i := PrefixInt(ParseInt(data, prefixLen).value, padding);
            && IntBytes(i, prefixLen, preprefix).Some?
            && data == IntBytes(i, prefixLen, preprefix).value + ParseInt(data, prefixLen).rest
  {
    OctetSplits(data[0], prefixLen);
    preprefix := data[0] / Pow2(prefixLen);
    padding := 0;
    assert data == [data[0]] + data[1..];
    if data[0] % Pow2(prefixLen) == PrefixMax(prefixLen) {
      padding := ParsedGroupsArePrinted(data[1..]);
      var p := ParseGroups(data[1..]);
      Reassociate([data[0]], Groups(p.value, padding), p.rest);
      LongIntPrints(data[0], prefixLen, preprefix, p.value, padding);
    } else {
      ShortIntPrints(data[0], prefixLen, preprefix);
    }
  }

  lemma ShortIntPrints(b: Byte, prefixLen: nat, preprefix: nat)
    requires 1 <= prefixLen <= 8 && preprefix < Pow2(8 - prefixLen)
    requires b == preprefix * Pow2(prefixLen) + b % Pow2(prefixLen) && b % Pow2(prefixLen) != PrefixMax(prefixLen)
    ensures IntBytes(PrefixInt(b % Pow2(prefixLen)), prefixLen, preprefix) == Some([b])
  {}

  lemma LongIntPrints(b: Byte, prefixLen: nat, preprefix: nat, high: nat, padding: nat)
    requires 1 <= prefixLen <= 8 && preprefix < Pow2(8 - prefixLen)
    requires b == preprefix * Pow2(prefixLen) + PrefixMax(prefixLen)
    ensures IntBytes(PrefixInt(PrefixMax(prefixLen) + high, padding), prefixLen, preprefix) == Some([b] + Groups(high, padding))
  {}

  lemma {:induction false} GroupsLength(val: nat, padding: nat)
    ensures |Groups(val, padding)| == |Groups(val, 0)| + padding
  {
    if val >= 128 {
      GroupsLength(val / 128, padding);
    }
  }

  /** The unpadded form is the shortest string that parses to a value, and padding costs one octet each. */
  lemma UnpaddedIsShortest(data: Bytes, prefixLen: nat, preprefix: nat)
    requires 1 <= prefixLen <= 8 && preprefix < Pow2(8 - prefixLen)
    requires ParseInt(data, prefixLen).Parsed? && ParseInt(data, prefixLen).rest == []
    ensures var shortest := IntBytes(PrefixInt(ParseInt(data, prefixLen).value), prefixLen, preprefix);
            && shortest.Some?
            && |shortest.value| <= |data|
            && (|shortest.value| == |data| ==> data[1..] == shortest.value[1..])
  {
    var padding, pre := ParsedIntIsPrinted(data, prefixLen);
    var val := ParseInt(data, prefixLen).value;
    if val >= PrefixMax(prefixLen) {
      GroupsLength(val - PrefixMax(prefixLen), padding);
    }
  }

  /** The examples of RFC 7541, Appendix C.1: 10 and 1337 with five bits, 42 with eight. */
  lemma StandardExamples()
    ensures IntBytes(PrefixInt(10), 5, 0) == Some([10])
    ensures IntBytes(PrefixInt(1337), 5, 0) == Some([31, 154, 10])
    ensures IntBytes(PrefixInt(42), 8, 0) == Some([42])
  {
    Pow2Of8();
    assert Pow2(5) == 32 && Pow2(3) == 8;
    assert Groups(10, 0) == [10];
    assert Groups(1306, 0) == [154] + Groups(10, 0);
    assert [31] + ([154] + [10]) == [31, 154, 10];
  }
}
