/** Which symbol has which codeword: the code of HuffmanTable is the only complete prefix code with the lengths of
    Appendix B whose codewords ascend, read as binary fractions, with length and then with symbol. */
module HuffmanUnique {
  import opened Wire
  import opened Bits
  import opened PrefixCode
  import opened TilingCode
  import opened HpackString
  import opened HuffmanLengths
  import opened HuffmanTable

  /** Shorter codewords first, and smaller symbols first within a length. */
  predicate Before(s: nat, t: nat) {
    LengthOf(s) < LengthOf(t) || (LengthOf(s) == LengthOf(t) && s < t)
  }

  ghost predicate HasLengths(code: Table) {
    forall s | 0 <= s < SYMBOLS :: 0 < |code[s]| == LengthOf(s) <= LONGEST
  }

  ghost predicate Ascends(code: Table)
    requires HasLengths(code)
  {
    forall s, t | 0 <= s < SYMBOLS && 0 <= t < SYMBOLS && Before(s, t) :: Low(code[s], LONGEST) < Low(code[t], LONGEST)
  }

  /** A canonical code with the lengths of Appendix B. */
  ghost predicate IsCanonicalCode(code: Table) {
    GoodCode(code) && HasLengths(code) && Ascends(code)
  }

  // The table is one.

  lemma LengthAt(i: nat)
    requires i < SYMBOLS
    ensures Ordered(i) < SYMBOLS && CanonicalOrder()[i] == Ordered(i)
    ensures 0 < |HuffmanCode()[Ordered(i)]| == LengthOf(Ordered(i)) == Canonical(i).length <= LONGEST
  {
    TableIsCanonical(i);
    CodewordAt(i);
  }

  lemma LengthsDoNotFall(i: nat)
    ensures Canonical(i).length <= Canonical(i + 1).length
  {}

  lemma {:induction false} OrderAscends(i: nat, j: nat)
    requires i < j < SYMBOLS
    ensures Before(Ordered(i), Ordered(j))
    decreases j - i
  {
    TableIsCanonical(j - 1);
    LengthAt(j - 1);
    LengthAt(j);
    LengthsDoNotFall(j - 1);
    if i < j - 1 {
      OrderAscends(i, j - 1);
    }
  }

  lemma PlaceOf(s: nat) returns (i: nat)
    requires s < SYMBOLS
    ensures i < SYMBOLS && Ordered(i) == s
  {
    CanonicalOrderTiles();
    i := PositionOf(HuffmanCode(), CanonicalOrder(), LONGEST, s);
  }

  lemma TableHasLengths()
    ensures HasLengths(HuffmanCode())
  {
    forall s | 0 <= s < SYMBOLS
      ensures 0 < |HuffmanCode()[s]| == LengthOf(s) <= LONGEST
    {
      var i := PlaceOf(s);
      LengthAt(i);
    }
  }

  lemma TableAscends(s: nat, t: nat)
    requires s < SYMBOLS && t < SYMBOLS && Before(s, t) && HasLengths(HuffmanCode())
    ensures Low(HuffmanCode()[s], LONGEST) < Low(HuffmanCode()[t], LONGEST)
  {
    var i := PlaceOf(s);
    var j := PlaceOf(t);
    if j < i {
      OrderAscends(j, i);
    }
    CanonicalOrderTiles();
    LowGrows(HuffmanCode(), CanonicalOrder(), LONGEST, i, j);
    WeightIsPositive(HuffmanCode()[s], LONGEST);
  }

  /** The table is a complete prefix code with these lengths, in ascending order. */
  lemma TableIsCanonicalCode()
    ensures IsCanonicalCode(HuffmanCode())
  {
    HuffmanCodeIsGood();
    TableHasLengths();
    forall s, t | 0 <= s < SYMBOLS && 0 <= t < SYMBOLS && Before(s, t)
      ensures Low(HuffmanCode()[s], LONGEST) < Low(HuffmanCode()[t], LONGEST)
    {
      TableAscends(s, t);
    }
  }

  /** Of two symbols with codewords of one length, the greater has the greater codeword. */
  lemma CodewordsAscend(s: nat, t: nat)
    requires s < t < SYMBOLS && |HuffmanCode()[s]| == |HuffmanCode()[t]|
    ensures ValueOf(HuffmanCode()[s]) < ValueOf(HuffmanCode()[t])
  {
    TableHasLengths();
    TableAscends(s, t);
    LowOrdersValues(HuffmanCode()[s], HuffmanCode()[t], LONGEST);
  }

  // And no other code is.

  lemma CanonicalCodeResembles(code: Table)
    requires IsCanonicalCode(code) && Tiles(HuffmanCode(), CanonicalOrder(), LONGEST)
    ensures Resembles(code, HuffmanCode(), CanonicalOrder(), LONGEST)
  {
    TableHasLengths();
    forall i, j | 0 <= i < j < SYMBOLS
      ensures Low(code[CanonicalOrder()[i]], LONGEST) < Low(code[CanonicalOrder()[j]], LONGEST)
    {
      LengthAt(i);
      LengthAt(j);
      OrderAscends(i, j);
    }
  }

  /** The lengths and the order determine the code. */
  lemma CanonicalCodeIsUnique(code: Table)
    requires IsCanonicalCode(code)
    ensures code == HuffmanCode()
  {
    CanonicalOrderTiles();
    CanonicalCodeResembles(code);
    TilingCodeIsUnique(code, HuffmanCode(), CanonicalOrder(), LONGEST);
  }

  lemma OneCodewordDecodes(code: Table, b: Byte, k: Byte, n: nat)
    requires HpackCode(code) && n <= 7 && ToBits(b) == code[k] + Ones(n)
    ensures Decode(code, [b]) == Plain([k])
  {
    EncodeCons(code, k, []);
    assert [k] + [] == [k] && Encode(code, [k]) == code[k] + [] == code[k];
    assert Unpack([b]) == ToBits(b) + [] == ToBits(b);
    ShortOnesAreResidual(code, n);
    DecodeIsTheSplit(code, [b], [k]);
  }

  /** Zeros and then ones. */
  lemma ZeroesThenOnes(m: nat, n: nat)
    ensures BitsOf(Pow2(n) - 1, m + n) == Zeroes(m) + Ones(n)
  {
    ValueOfZeroes(m);
    OnesValue(n);
    ValueOfConcat(Zeroes(m), Ones(n));
    BitsOfValueOf(Zeroes(m) + Ones(n));
  }

  lemma CodewordOfA()
    ensures HuffmanCode()[97] == Zeroes(3) + Ones(2)
  {
    assert CodewordOf(97) == Entry(3, 5);
    ZeroesThenOnes(3, 2);
    assert Pow2(2) == 4;
  }

  lemma BitsOf1F()
    ensures ToBits(0x1F) == (Zeroes(3) + Ones(2)) + Ones(3)
  {
    ZeroesThenOnes(3, 5);
    assert Pow2(5) == 32;
    assert Zeroes(3) + Ones(5) == (Zeroes(3) + Ones(2)) + Ones(3);
  }

  /** The octet 1F is 00011, the codeword of `a`, and three ones. */
  lemma LowerAIsRead()
    ensures Decode(HuffmanCode(), [0x1F]) == Plain(Ascii("a"))
  {
    HuffmanCodeFits();
    CodewordOfA();
    BitsOf1F();
    assert Ascii("a") == [97];
    OneCodewordDecodes(HuffmanCode(), 0x1F, 97, 3);
  }
}
