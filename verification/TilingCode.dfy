/** Codes whose codewords tile an interval.

    A codeword `c` of at most `width` bits stands for the numbers of `width` bits that begin
    with it. If the codewords of a code, listed in some order, cover [0, 2^width) end to end,
    the code is prefix-free and complete. This is a check of one pass over the table, where
    comparing all pairs would be quadratic.
  */
module TilingCode {
  import opened Bits
  import opened PrefixCode

  function Weight(c: Bitstring, width: nat): nat
    requires |c| <= width
  {
    Pow2(width - |c|)
  }

  lemma WeightIsPositive(c: Bitstring, width: nat)
    requires |c| <= width
    ensures Low(c, width) < High(c, width)
  {}

  function Low(c: Bitstring, width: nat): nat
    requires |c| <= width
  {
    ValueOf(c) * Weight(c, width)
  }

  function High(c: Bitstring, width: nat): nat
    requires |c| <= width
  {
    Low(c, width) + Weight(c, width)
  }

  /** `order` lists symbols of `code` so that each interval starts where the one before ends. */
  ghost predicate Tiles(code: Code, order: seq<nat>, width: nat) {
    && |order| == |code| > 0
    && (forall i | 0 <= i < |order| :: order[i] < |code| && 0 < |code[order[i]]| <= width)
    && Low(code[order[0]], width) == 0
    && (forall i, j | 0 <= i && j == i + 1 < |order| :: Low(code[order[j]], width) == High(code[order[i]], width))
    && High(code[order[|order| - 1]], width) == Pow2(width)
  }

  lemma {:induction false} LowGrows(code: Code, order: seq<nat>, width: nat, i: nat, j: nat)
    requires Tiles(code, order, width) && i < j < |order|
    ensures High(code[order[i]], width) <= Low(code[order[j]], width)
    decreases j - i
  {
    if i + 1 < j {
      LowGrows(code, order, width, i, j - 1);
      assert Low(code[order[j]], width) == High(code[order[j - 1]], width);
    }
  }

  /** The position whose interval contains `v`, searched from `i` on. */
  lemma {:induction false} IntervalOf(code: Code, order: seq<nat>, width: nat, v: nat, i: nat) returns (p: nat)
    requires Tiles(code, order, width)
    requires i < |order| && Low(code[order[i]], width) <= v < Pow2(width)
    ensures p < |order| && Low(code[order[p]], width) <= v < High(code[order[p]], width)
    decreases |order| - i
  {
    if v < High(code[order[i]], width) {
      p := i;
    } else {
      assert i + 1 < |order|;
      p := IntervalOf(code, order, width, v, i + 1);
    }
  }

  lemma QuotientIsUnique(a: nat, c: nat, m: nat, r: nat)
    requires r < m
    ensures a == c <==> c * m <= a * m + r < c * m + m
  {
    if a < c {
      assert (a + 1) * m <= c * m;
    } else if c < a {
      assert (c + 1) * m <= a * m;
    }
  }

  lemma SameValue(a: Bitstring, b: Bitstring)
    requires |a| == |b|
    ensures a == b <==> ValueOf(a) == ValueOf(b)
  {
    BitsOfValueOf(a);
    BitsOfValueOf(b);
  }

  /** A bit string is a prefix of `x` exactly when the value of `x` lies in its interval. */
  lemma PrefixIsInterval(c: Bitstring, x: Bitstring)
    requires |c| <= |x|
    ensures c <= x <==> Low(c, |x|) <= ValueOf(x) < High(c, |x|)
  {
    var head, tail := x[..|c|], x[|c|..];
    assert x == head + tail;
    SameValue(c, head);
    ValueOfConcat(head, tail);
    QuotientIsUnique(ValueOf(head), ValueOf(c), Pow2(|tail|), ValueOf(tail));
  }

  ghost function FirstOf(order: seq<nat>, n: nat): set<nat>
    requires n <= |order|
  {
    set i | 0 <= i < n :: order[i]
  }

  lemma {:induction false} FirstOfSize(code: Code, order: seq<nat>, width: nat, n: nat)
    requires Tiles(code, order, width) && n <= |order|
    ensures |FirstOf(order, n)| == n
  {
    if n != 0 {
      FirstOfSize(code, order, width, n - 1);
      NotSeenBefore(code, order, width, n - 1);
      assert FirstOf(order, n) == FirstOf(order, n - 1) + {order[n - 1]};
    }
  }

  lemma NotSeenBefore(code: Code, order: seq<nat>, width: nat, j: nat)
    requires Tiles(code, order, width) && j < |order|
    ensures order[j] !in FirstOf(order, j)
  {
    forall i | 0 <= i < j
      ensures order[i] != order[j]
    {
      LowGrows(code, order, width, i, j);
      assert Weight(code[order[i]], width) > 0;
    }
  }

  ghost function Below(n: nat): set<nat> {
    set i: nat {:trigger Itself(i)} | i < n :: Itself(i)
  }

  ghost function Itself(i: nat): nat {
    i
  }

  lemma {:induction false} BelowSize(n: nat)
    ensures |Below(n)| == n
    ensures forall i: nat | i < n :: i in Below(n)
  {
    if n != 0 {
      BelowSize(n - 1);
      assert Below(n) == Below(n - 1) + {Itself(n - 1)};
    }
  }

  lemma {:induction false} SubsetSize(a: set<nat>, b: set<nat>)
    requires a <= b
    ensures |a| <= |b|
    ensures |a| == |b| ==> a == b
  {
    if a != {} {
      var x :| x in a;
      SubsetSize(a - {x}, b - {x});
    } else if b != {} {
      var x :| x in b;
      assert |b| == |b - {x}| + 1;
    }
  }

  /** Every symbol is somewhere in the order: the order is injective and has as many places as there are symbols. */
  lemma PositionOf(code: Code, order: seq<nat>, width: nat, s: nat) returns (i: nat)
    requires Tiles(code, order, width) && s < |code|
    ensures i < |order| && order[i] == s
  {
    var n := |order|;
    FirstOfSize(code, order, width, n);
    BelowSize(n);
    assert FirstOf(order, n) <= Below(n);
    SubsetSize(FirstOf(order, n), Below(n));
    assert s in FirstOf(order, n);
    i :| 0 <= i < n && order[i] == s;
  }

  lemma CodewordsDoNotOverlap(code: Code, order: seq<nat>, width: nat, s: nat, t: nat)
    requires Tiles(code, order, width) && s < |code| && t < |code| && s != t
    ensures !(code[s] <= code[t])
  {
    var i := PositionOf(code, order, width, s);
    var j := PositionOf(code, order, width, t);
    var x := code[t] + Ones(width - |code[t]|);
    PrefixIsInterval(code[s], x);
    PrefixIsInterval(code[t], x);
    if i < j {
      LowGrows(code, order, width, i, j);
    } else {
      LowGrows(code, order, width, j, i);
    }
  }

  lemma EveryStringReachesACodeword(code: Code, order: seq<nat>, width: nat, q: Bitstring)
    requires Tiles(code, order, width)
    ensures Reaches(code, q)
  {
    var x := if |q| <= width then q + Ones(width - |q|) else q[..width];
    var p := IntervalOf(code, order, width, ValueOf(x), 0);
    var c := code[order[p]];
    PrefixIsInterval(c, x);
    assert q <= x || x <= q;
    assert c <= q || q <= c;
  }

  /** A code that tiles is prefix-free, complete, and has no empty codeword. */
  lemma TilingCodeIsGood(code: Code, order: seq<nat>, width: nat)
    requires Tiles(code, order, width)
    ensures GoodCode(code)
  {
    forall i, j | 0 <= i < |code| && 0 <= j < |code| && i != j
      ensures !(code[i] <= code[j])
    {
      CodewordsDoNotOverlap(code, order, width, i, j);
    }
    forall q: Bitstring
      ensures Reaches(code, q)
    {
      EveryStringReachesACodeword(code, order, width, q);
    }
    forall i | 0 <= i < |code|
      ensures code[i] != []
    {
      var p := PositionOf(code, order, width, i);
    }
  }

  // A tiling code is the only one with its lengths and its order.

  /** The same lengths as `code`, and complete, with codewords that ascend in the order. */
  ghost predicate Resembles(other: Code, code: Code, order: seq<nat>, width: nat)
    requires Tiles(code, order, width)
  {
    && GoodCode(other)
    && |other| == |code|
    && (forall s | 0 <= s < |code| :: |other[s]| == |code[s]| <= width)
    && (forall i, j | 0 <= i < j < |order| :: Low(other[order[i]], width) < Low(other[order[j]], width))
  }

  /** The symbol whose codeword begins the number `v` of `width` bits. */
  lemma SymbolCovering(code: Code, width: nat, v: nat) returns (s: nat)
    requires GoodCode(code) && v < Pow2(width) && (forall s | 0 <= s < |code| :: |code[s]| <= width)
    ensures s < |code| && Low(code[s], width) <= v < High(code[s], width)
  {
    var q := BitsOf(v, width);
    ValueOfBitsOf(v, width);
    assert Reaches(code, q);
    s :| 0 <= s < |code| && (code[s] <= q || q <= code[s]);
    PrefixIsInterval(code[s], q);
  }

  function Zeroes(n: nat): (r: Bitstring)
    ensures |r| == n
  {
    seq(n, _ => false)
  }

  lemma {:induction false} ValueOfZeroes(n: nat)
    ensures ValueOf(Zeroes(n)) == 0
  {
    if n != 0 {
      ValueOfZeroes(n - 1);
      assert Zeroes(n)[..n - 1] == Zeroes(n - 1);
    }
  }

  /** Of a prefix code, only one codeword begins a string. */
  lemma OnlyOnePrefix(code: Code, s: nat, t: nat, x: Bitstring)
    requires PrefixFree(code) && s < |code| && t < |code| && s != t && code[t] <= x
    ensures !(code[s] <= x)
  {}

  /** Intervals of a prefix code do not overlap. */
  lemma IntervalsAreDisjoint(code: Code, width: nat, s: nat, t: nat)
    requires PrefixFree(code) && s < |code| && t < |code| && |code[s]| <= width && |code[t]| <= width
    requires Low(code[s], width) < Low(code[t], width)
    ensures High(code[s], width) <= Low(code[t], width)
  {
    var zeroes := Zeroes(width - |code[t]|);
    var x := code[t] + zeroes;
    ValueOfZeroes(width - |code[t]|);
    ValueOfConcat(code[t], zeroes);
    PrefixIsInterval(code[s], x);
    OnlyOnePrefix(code, s, t, x);
  }

  lemma ProductCancels(a: nat, b: nat, m: nat)
    requires m > 0
    ensures a * m == b * m <==> a == b
    ensures a * m < b * m <==> a < b
  {
    if a < b {
      assert (a + 1) * m <= b * m;
    } else if b < a {
      assert (b + 1) * m <= a * m;
    }
  }

  lemma LowIsSmall(c: Bitstring, width: nat)
    requires |c| <= width
    ensures Low(c, width) < Pow2(width)
  {
    Pow2Add(|c|, width - |c|);
    ProductCancels(ValueOf(c), Pow2(|c|), Weight(c, width));
  }

  lemma LowOrdersValues(c: Bitstring, d: Bitstring, width: nat)
    requires |c| == |d| <= width
    ensures Low(c, width) < Low(d, width) <==> ValueOf(c) < ValueOf(d)
    ensures Low(c, width) == Low(d, width) <==> c == d
  {
    ProductCancels(ValueOf(c), ValueOf(d), Weight(c, width));
    SameValue(c, d);
  }

  /** No codeword before position `i` reaches to where position `i` starts. */
  lemma StartIsNotBefore(other: Code, code: Code, order: seq<nat>, width: nat, i: nat, j: nat)
    requires Tiles(code, order, width) && Resembles(other, code, order, width) && j < i < |order|
    ensures High(other[order[j]], width) <= High(other[order[i - 1]], width)
  {
    if j < i - 1 {
      IntervalsAreDisjoint(other, width, order[j], order[i - 1]);
    }
  }

  lemma {:induction false} LowsAgree(other: Code, code: Code, order: seq<nat>, width: nat, i: nat)
    requires Tiles(code, order, width) && Resembles(other, code, order, width) && i < |order|
    ensures Low(other[order[i]], width) == Low(code[order[i]], width)
  {
    var start := Low(code[order[i]], width);
    LowIsSmall(code[order[i]], width);
    if i > 0 {
      LowsAgree(other, code, order, width, i - 1);
      IntervalsAreDisjoint(other, width, order[i - 1], order[i]);
      assert start == High(code[order[i - 1]], width) == High(other[order[i - 1]], width);
    }
    var s := SymbolCovering(other, width, start);
    var j := PositionOf(code, order, width, s);
    if j < i {
      StartIsNotBefore(other, code, order, width, i, j);
    }
  }

  /** The lengths and the order determine a complete prefix code. */
  lemma TilingCodeIsUnique(other: Code, code: Code, order: seq<nat>, width: nat)
    requires Tiles(code, order, width) && Resembles(other, code, order, width)
    ensures other == code
  {
    forall s | 0 <= s < |code|
      ensures other[s] == code[s]
    {
      var i := PositionOf(code, order, width, s);
      LowsAgree(other, code, order, width, i);
      LowOrdersValues(other[s], code[s], width);
    }
  }
}
