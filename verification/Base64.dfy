/** The Base64 encoder of the libevent server (section 4 of RFC 4648), writing into a caller's buffer.

    The C code masks and shifts `char` values; on octets, `x >> 2 & 0x3F` is `x / 4`, and joining
    two groups of bits that do not overlap is addition.
  */
module Base64 {
  import opened Wire
  import opened BigEndian

  const PAD: Byte := 61  // =

  /** basis_64. */
  function Letter(v: nat): (r: Byte)
    requires v < 64
    ensures r != PAD
  {
    if v < 26 then 65 + v else if v < 52 then 71 + v else if v < 62 then v - 4 else if v == 62 then 43 else 47
  }

  function LetterValue(c: Byte): (r: Option<nat>)
    ensures r.Some? ==> r.value < 64
  {
    if 65 <= c <= 90 then Some(c - 65)
    else if 97 <= c <= 122 then Some(c - 71)
    else if 48 <= c <= 57 then Some(c + 4)
    else if c == 43 then Some(62)
    else if c == 47 then Some(63)
    else None
  }

  lemma LetterValueOfLetter(v: nat)
    requires v < 64
    ensures LetterValue(Letter(v)) == Some(v)
  {}

  // The standard: three octets are one number, written as four digits of six bits.

  type Sextet = v: nat | v < 64

  function Sextets(n: nat, k: nat): (r: seq<Sextet>)
    ensures |r| == k
  {
    if k == 0 then [] else Sextets(n / 64, k - 1) + [n % 64]
  }

  function FromSextets(v: seq<Sextet>): (r: nat) {
    if v == [] then 0 else 64 * FromSextets(v[..|v| - 1]) + v[|v| - 1]
  }

  function Letters(v: seq<Sextet>): (r: Bytes)
    ensures |r| == |v|
    ensures forall i | 0 <= i < |v| :: r[i] == Letter(v[i])
  {
    seq(|v|, i requires 0 <= i < |v| => Letter(v[i]))
  }

  function LetterValues(s: Bytes): (r: Option<seq<Sextet>>) {
    if s == [] then Some([])
    else
      var earlier, last := LetterValues(s[..|s| - 1]), LetterValue(s[|s| - 1]);
      if earlier.None? || last.None? then None else Some(earlier.value + [last.value])
  }

  function Pads(n: nat): (r: Bytes)
    ensures |r| == n && forall i | 0 <= i < n :: r[i] == PAD
  {
    seq(n, _ => PAD)
  }

  function GroupSextets(octets: Bytes): (r: seq<Sextet>)
    requires |octets| <= 3
    ensures |r| == 4
  {
    Sextets(FromBE(octets + Zeros(3 - |octets|)), 4)
  }

  /** A group of one to three octets, filled up with zero bits, then with `=`. */
  function Group(octets: Bytes): (r: Bytes)
    requires 1 <= |octets| <= 3
    ensures |r| == 4
  {
    Letters(GroupSextets(octets)[..|octets| + 1]) + Pads(3 - |octets|)
  }

  function Encoded(data: Bytes): (r: Bytes) {
    if data == [] then [] else if |data| <= 3 then Group(data) else Group(data[..3]) + Encoded(data[3..])
  }

  function PadCount(s: Bytes): (r: nat)
    requires |s| == 4
    ensures r <= 2
  {
    if s[3] != PAD then 0 else if s[2] != PAD then 1 else 2
  }

  function DecodedGroup(s: Bytes): (r: Option<Bytes>)
    requires |s| == 4
  {
    var pads := PadCount(s);
    var values := LetterValues(s[..4 - pads]);
    if values.None? then None else Some(ToBE(FromSextets(values.value + Zeros(pads)), 3)[..3 - pads])
  }

  /** Decoding of whole groups; padding is accepted in the last one only. */
  function Decoded(s: Bytes): (r: Option<Bytes>) {
    if s == [] then Some([])
    else if |s| < 4 then None
    else
      var first, others := DecodedGroup(s[..4]), Decoded(s[4..]);
      if first.None? || others.None? || (s[3] == PAD && |s| > 4) then None else Some(first.value + others.value)
  }

  lemma Quads(n: nat)
    ensures n > 3 ==> (n + 2) / 3 == (n - 3 + 2) / 3 + 1
    ensures 0 < n <= 3 ==> (n + 2) / 3 == 1
    ensures (n + 2) / 3 <= n / 3 + 1
  {
    if n > 3 {
      DivisionIsUnique(n + 2, 3, (n - 1) / 3 + 1, (n - 1) % 3);
    }
  }

  /** Four characters for every three octets, counting a last group that is not full; with the terminator they fit
      what the callers allocate. */
  lemma {:induction false} EncodedLength(data: Bytes)
    ensures |Encoded(data)| == (|data| + 2) / 3 * 4
    ensures |Encoded(data)| + 1 <= (|data| / 3 + 1) * 4 + 1
  {
    Quads(|data|);
    if |data| > 3 {
      EncodedLength(data[3..]);
    }
  }

  // Decoding undoes encoding.

  lemma {:induction false} LetterValuesOfLetters(v: seq<Sextet>)
    ensures LetterValues(Letters(v)) == Some(v)
  {
    if v != [] {
      var s := Letters(v);
      LetterValuesOfLetters(v[..|v| - 1]);
      LetterValueOfLetter(v[|v| - 1]);
      assert s[..|s| - 1] == Letters(v[..|v| - 1]);
      assert v == v[..|v| - 1] + [v[|v| - 1]];
    }
  }

  function Pow64(k: nat): (r: nat) {
    if k == 0 then 1 else 64 * Pow64(k - 1)
  }

  lemma {:induction false} FromSextetsOf(n: nat, k: nat)
    requires n < Pow64(k)
    ensures FromSextets(Sextets(n, k)) == n
  {
    if k != 0 {
      FromSextetsOf(n / 64, k - 1);
      var v := Sextets(n, k);
      assert v[..|v| - 1] == Sextets(n / 64, k - 1) && v[|v| - 1] == n % 64;
    }
  }

  lemma Powers64()
    ensures Pow64(4) == 0x100_0000
  {
    assert Pow64(2) == 64 * 64;
  }

  lemma FromBESnoc(s: Bytes, b: Byte)
    ensures FromBE(s + [b]) == 256 * FromBE(s) + b
  {
    assert (s + [b])[..|s|] == s;
  }

  lemma SextetsSnoc(n: nat, v: nat, k: nat)
    requires n == 64 * v && k > 0
    ensures Sextets(n, k) == Sextets(v, k - 1) + [0]
  {
    DivisionIsUnique(n, 64, v, 0);
  }

  lemma FilledValue(octets: Bytes)
    ensures FromBE(octets + Zeros(1)) == 256 * FromBE(octets)
    ensures FromBE(octets + Zeros(2)) == 0x1_0000 * FromBE(octets)
  {
    FromBESnoc(octets, 0);
    FromBESnoc(octets + [0], 0);
    assert octets + Zeros(1) == octets + [0] && octets + Zeros(2) == octets + [0] + [0];
  }

  lemma LowZeros(v: nat)
    ensures Sextets(256 * v, 4) == Sextets(4 * v, 3) + [0]
    ensures Sextets(0x1_0000 * v, 4) == Sextets(16 * v, 2) + [0] + [0]
  {
    SextetsSnoc(256 * v, 4 * v, 4);
    SextetsSnoc(0x1_0000 * v, 0x400 * v, 4);
    SextetsSnoc(0x400 * v, 16 * v, 3);
  }

  /** The sextets that `=` replaces are zero. */
  lemma FillIsZero(octets: Bytes)
    requires 1 <= |octets| <= 3
    ensures GroupSextets(octets) == GroupSextets(octets)[..|octets| + 1] + Zeros(3 - |octets|)
  {
    FilledValue(octets);
    LowZeros(FromBE(octets));
  }

  lemma GroupValue(octets: Bytes)
    requires |octets| <= 3
    ensures ToBE(FromSextets(GroupSextets(octets)), 3) == octets + Zeros(3 - |octets|)
  {
    var padded := octets + Zeros(3 - |octets|);
    Powers();
    Powers64();
    FromSextetsOf(FromBE(padded), 4);
    ToFromBE(padded);
  }

  lemma GroupDecodes(octets: Bytes)
    requires 1 <= |octets| <= 3
    ensures DecodedGroup(Group(octets)) == Some(octets)
  {
    var s, pads, v := Group(octets), 3 - |octets|, GroupSextets(octets);
    assert PadCount(s) == pads;
    assert s[..4 - pads] == Letters(v[..4 - pads]);
    LetterValuesOfLetters(v[..4 - pads]);
    FillIsZero(octets);
    GroupValue(octets);
    assert (octets + Zeros(pads))[..|octets|] == octets;
  }

  lemma LastGroupDecodes(s: Bytes, data: Bytes)
    requires |s| == 4 && DecodedGroup(s) == Some(data)
    ensures Decoded(s) == Some(data)
  {
    assert s[..4] == s && s[4..] == [];
    assert data + [] == data;
  }

  lemma FullGroupDecodes(first: Bytes, others: Bytes, a: Bytes, b: Bytes)
    requires |first| == 4 && first[3] != PAD && DecodedGroup(first) == Some(a) && Decoded(others) == Some(b)
    ensures Decoded(first + others) == Some(a + b)
  {
    assert (first + others)[..4] == first && (first + others)[4..] == others;
  }

  lemma FullGroupHasNoPad(octets: Bytes)
    requires |octets| == 3
    ensures Group(octets)[3] != PAD
  {}

  /** Decoding recovers every input. */
  lemma {:induction false} DecodedEncoded(data: Bytes)
    ensures Decoded(Encoded(data)) == Some(data)
  {
    if data == [] {
    } else if |data| <= 3 {
      GroupDecodes(data);
      LastGroupDecodes(Group(data), data);
    } else {
      GroupDecodes(data[..3]);
      FullGroupHasNoPad(data[..3]);
      DecodedEncoded(data[3..]);
      FullGroupDecodes(Group(data[..3]), Encoded(data[3..]), data[..3], data[3..]);
      assert data[..3] + data[3..] == data;
    }
  }

  predicate IsText(c: Byte) {
    LetterValue(c).Some? || c == PAD
  }

  predicate AllText(s: Bytes) {
    forall i | 0 <= i < |s| :: IsText(s[i])
  }

  lemma GroupIsText(octets: Bytes)
    requires 1 <= |octets| <= 3
    ensures AllText(Group(octets))
  {
    var s, v := Group(octets), GroupSextets(octets);
    forall i | 0 <= i < |s|
      ensures IsText(s[i])
    {
      if i < |octets| + 1 {
        LetterValueOfLetter(v[i]);
      }
    }
  }

  lemma {:induction false} EncodedIsText(data: Bytes)
    ensures AllText(Encoded(data))
  {
    if data == [] {
    } else if |data| <= 3 {
      GroupIsText(data);
    } else {
      GroupIsText(data[..3]);
      EncodedIsText(data[3..]);
    }
  }

  // The C code.

  lemma FourSextets(n: nat, q1: nat, q2: nat, q3: nat, r1: Sextet, r2: Sextet, r3: Sextet)
    requires n == 64 * q1 + r3 && q1 == 64 * q2 + r2 && q2 == 64 * q3 + r1 && q3 < 64
    ensures Sextets(n, 4) == [q3, r1, r2, r3]
  {
    DivisionIsUnique(n, 64, q1, r3);
    DivisionIsUnique(q1, 64, q2, r2);
    DivisionIsUnique(q2, 64, q3, r1);
    DivisionIsUnique(q3, 64, 0, q3);
    assert Sextets(q3, 1) == Sextets(0, 0) + [q3];
    assert Sextets(q2, 2) == [q3] + [r1];
    assert Sextets(q1, 3) == [q3, r1] + [r2];
  }

  lemma ThreeOctets(a: Byte, b: Byte, c: Byte)
    ensures FromBE([a, b, c]) == 0x1_0000 * a + 0x100 * b + c
  {
    FromBESnoc([a, b], c);
    FromBESnoc([a], b);
    FromBESnoc([], a);
    assert [a, b, c] == [a, b] + [c] && [a, b] == [a] + [b] && [a] == [] + [a];
  }

  lemma Halves(x: Byte, k: nat)
    requires 0 < k < 256
    ensures x == x / k * k + x % k
  {}

  /** The shifts and masks of the C code give the four digits. */
  lemma ShiftsAreSextets(a: Byte, b: Byte, c: Byte)
    ensures a / 4 < 64 && a % 4 * 16 + b / 16 < 64 && b % 16 * 4 + c / 64 < 64
    ensures Sextets(FromBE([a, b, c]), 4) == [a / 4, a % 4 * 16 + b / 16, b % 16 * 4 + c / 64, c % 64]
  {
    ThreeOctets(a, b, c);
    var a1, a0, b1, b0, c1, c0 := a / 4, a % 4, b / 16, b % 16, c / 64, c % 64;
    Halves(a, 4);
    Halves(b, 16);
    Halves(c, 64);
    var q2 := 64 * a1 + (a0 * 16 + b1);
    var q1 := 64 * q2 + (b0 * 4 + c1);
    FourSextets(FromBE([a, b, c]), q1, q2, a1, a0 * 16 + b1, b0 * 4 + c1, c0);
  }

  lemma GroupByShifts(octets: Bytes)
    requires 1 <= |octets| <= 3
    ensures var a, b, c := octets[0], if |octets| > 1 then octets[1] else 0, if |octets| > 2 then octets[2] else 0;
            Group(octets) == [Letter(a / 4), Letter(a % 4 * 16 + b / 16),
                              if |octets| == 1 then PAD else Letter(b % 16 * 4 + c / 64),
                              if |octets| < 3 then PAD else Letter(c % 64)]
  {
    var a, b, c := octets[0], if |octets| > 1 then octets[1] else 0, if |octets| > 2 then octets[2] else 0;
    ShiftsAreSextets(a, b, c);
    assert octets + Zeros(3 - |octets|) == [a, b, c];
  }

  /** The body of the main loop. */
  method PutGroup(encoded: array<Byte>, p: nat, octets: Bytes)
    requires p + 4 <= encoded.Length && |octets| == 3
    modifies encoded
    ensures encoded[..p + 4] == old(encoded[..p]) + Group(octets)
    ensures encoded[p + 4..] == old(encoded[p + 4..])
  {
    GroupByShifts(octets);
    encoded[p] := Letter(octets[0] / 4);
    encoded[p + 1] := Letter(octets[0] % 4 * 16 + octets[1] / 16);
    encoded[p + 2] := Letter(octets[1] % 16 * 4 + octets[2] / 64);
    encoded[p + 3] := Letter(octets[2] % 64);
  }

  /** The one or two octets after the last full group. */
  method PutTail(encoded: array<Byte>, p: nat, tail: Bytes)
    requires p + 4 <= encoded.Length && 1 <= |tail| <= 2
    modifies encoded
    ensures encoded[..p + 4] == old(encoded[..p]) + Group(tail)
    ensures encoded[p + 4..] == old(encoded[p + 4..])
  {
    GroupByShifts(tail);
    encoded[p] := Letter(tail[0] / 4);
    if |tail| == 1 {
      encoded[p + 1] := Letter(tail[0] % 4 * 16);
      encoded[p + 2] := PAD;
    } else {
      encoded[p + 1] := Letter(tail[0] % 4 * 16 + tail[1] / 16);
      encoded[p + 2] := Letter(tail[1] % 16 * 4);
    }
    encoded[p + 3] := PAD;
  }

  lemma EncodedThree(data: Bytes)
    requires |data| == 3
    ensures Encoded(data) == Group(data[..3]) + Encoded(data[3..])
  {
    assert data[..3] == data && data[3..] == [];
    NothingAfter(Group(data));
  }

  lemma NothingAfter(s: Bytes)
    ensures s + [] == s
  {}

  lemma Slices(data: Bytes, i: nat)
    requires i + 3 <= |data|
    ensures data[i..][..3] == data[i..i + 3] && data[i..][3..] == data[i + 3..]
  {}

  /** One step of the main loop takes one full group off the input. */
  lemma TakeGroup(data: Bytes, i: nat, before: Bytes)
    requires i + 2 < |data| && Encoded(data) == before + Encoded(data[i..])
    ensures Encoded(data) == before + Group(data[i..i + 3]) + Encoded(data[i + 3..])
  {
    var left := data[i..];
    if |left| == 3 {
      EncodedThree(left);
    }
    Slices(data, i);
    Reassociate(before, Group(data[i..i + 3]), Encoded(data[i + 3..]));
  }

  lemma TakeTail(data: Bytes, i: nat, before: Bytes)
    requires |data| - 2 <= i <= |data| && Encoded(data) == before + Encoded(data[i..])
    ensures Encoded(data) == if i < |data| then before + Group(data[i..]) else before
  {}

  /** Base64encode: fills `encoded` from the front and returns the number of octets written, terminator included. */
  method Base64Encode(encoded: array<Byte>, data: Bytes) returns (written: nat)
    requires encoded.Length >= (|data| + 2) / 3 * 4 + 1
    modifies encoded
    ensures written == (|data| + 2) / 3 * 4 + 1
    ensures encoded[..written] == Encoded(data) + [0]
    ensures encoded[written..] == old(encoded[written..])
  {
    EncodedLength(data);
    ghost var text := Encoded(data);
    var p := Fill(encoded, data);
    encoded[p] := 0;
    written := p + 1;
    assert encoded[..p] == text;
    assert encoded[..written] == text + [0];
  }

  /** Everything before the terminator. */
  method Fill(encoded: array<Byte>, data: Bytes) returns (p: nat)
    requires encoded.Length > |Encoded(data)|
    modifies encoded
    ensures p == |Encoded(data)| && encoded[..p] == Encoded(data)
    ensures encoded[p..] == old(encoded[p..])
  {
    var i := 0;
    p := 0;
    assert data[0..] == data;
    while i + 2 < |data|
      invariant 0 <= i <= |data| && p <= encoded.Length
      invariant Encoded(data) == encoded[..p] + Encoded(data[i..])
      invariant encoded[p..] == old(encoded[p..])
    {
      TakeGroup(data, i, encoded[..p]);
      PutGroup(encoded, p, data[i..i + 3]);
      p, i := p + 4, i + 3;
    }
    TakeTail(data, i, encoded[..p]);
    if i < |data| {
      PutTail(encoded, p, data[i..]);
      p := p + 4;
    }
  }

  /** Table 1 of RFC 4648. */
  lemma Alphabet(v: nat)
    requires v < 64
    ensures v < 26 ==> Letter(v) == 'A' as int + v
    ensures 26 <= v < 52 ==> Letter(v) == 'a' as int + v - 26
    ensures 52 <= v < 62 ==> Letter(v) == '0' as int + v - 52
    ensures v == 62 ==> Letter(v) == '+' as int
    ensures v == 63 ==> Letter(v) == '/' as int
    ensures PAD == '=' as int
  {}
}
