/** `itoa` of the aws_c_http server: the decimal digits of a 64-bit number, in a fixed buffer. */
module Itoa {
  import opened Wire
  import opened HttpText

  const BUFFER: nat := 21                            // sizeof "18446744073709551615"
  const LIMIT: nat := 0x1_0000_0000_0000_0000

  lemma FitsInBuffer(n: nat)
    requires n < LIMIT
    ensures |Decimal(n)| <= 20
  {
    assert Pow10(10) == 1_0000_0000_00 by {
      assert Pow10(5) == 100000;
    }
    assert Pow10(20) == 1_0000_0000_0000_0000_0000 by {
      assert Pow10(15) == 100000 * Pow10(10);
    }
    DecimalLength(n, 20);
  }

  function Reversed(s: Bytes): (r: Bytes)
    ensures |r| == |s|
    ensures forall i | 0 <= i < |s| :: r[i] == s[|s| - 1 - i]
  {
    seq(|s|, i requires 0 <= i < |s| => s[|s| - 1 - i])
  }

  /** `strlen`: the position of the first zero. */
  function StrLen(s: Bytes): (r: nat)
    ensures r <= |s|
    ensures forall i | 0 <= i < r :: s[i] != 0
    ensures r < |s| ==> s[r] == 0
  {
    if s == [] || s[0] == 0 then 0 else 1 + StrLen(s[1..])
  }

  /** The low digits of `n` come first; what is left of `n` still has to be written. */
  lemma LowDigit(n: nat, written: Bytes)
    requires n > 0
    ensures Reversed(written + [48 + n % 10]) == [48 + n % 10] + Reversed(written)
    ensures n >= 10 ==> Decimal(n) + Reversed(written) == Decimal(n / 10) + Reversed(written + [48 + n % 10])
    ensures n < 10 ==> Decimal(n) + Reversed(written) == Reversed(written + [48 + n % 10])
  {}

  /** itoa: the digits from the front, zeros behind them. */
  method Itoa(result: array<Byte>, n: nat) returns (length: nat)
    requires result.Length == BUFFER && n < LIMIT
    modifies result
    ensures 0 < length <= 20
    ensures result[..] == Decimal(n) + Zeros(BUFFER - length) && |Decimal(n)| == length
    ensures StrLen(result[..]) == length
  {
    forall i | 0 <= i < result.Length {
      result[i] := 0;
    }
    FitsInBuffer(n);
    if n == 0 {
      result[0] := 48;
      length := 1;
      assert result[..] == [48] + Zeros(20);
      return;
    }
    length := WriteDigits(result, n);
    assert forall i | 0 <= i < length :: result[i] == Decimal(n)[length - 1 - i] by {
      assert forall i | 0 <= i < length :: result[..length][i] == Reversed(result[..length])[length - 1 - i];
    }
    ReverseDigits(result, length);
    assert result[..] == Decimal(n) + Zeros(BUFFER - length);
  }

  /** The digit loop: least significant digit first. */
  method WriteDigits(result: array<Byte>, n: nat) returns (length: nat)
    requires result.Length == BUFFER && 0 < n < LIMIT
    requires forall i | 0 <= i < BUFFER :: result[i] == 0
    modifies result
    ensures length == |Decimal(n)| <= 20
    ensures Reversed(result[..length]) == Decimal(n)
    ensures forall i | length <= i < BUFFER :: result[i] == 0
  {
    FitsInBuffer(n);
    var m := n;
    length := 0;
    while m > 0
      invariant 0 <= m && length <= 20
      invariant if m > 0 then Decimal(m) + Reversed(result[..length]) == Decimal(n)
                else Reversed(result[..length]) == Decimal(n)
      invariant forall i | length <= i < BUFFER :: result[i] == 0
      decreases m
    {
      LowDigit(m, result[..length]);
      ghost var before := result[..length];
      assert |Decimal(m)| + |before| == |Decimal(n)|;
      result[length] := 48 + m % 10;
      assert result[..length + 1] == before + [48 + m % 10];
      m := m / 10;
      length := length + 1;
    }
  }

  /** The reversal loop: the length is computed anew each time, and never changes. */
  method ReverseDigits(result: array<Byte>, ghost length: nat)
    requires result.Length == BUFFER && length <= 20
    requires forall i | 0 <= i < length :: result[i] != 0
    requires forall i | length <= i < BUFFER :: result[i] == 0
    modifies result
    ensures result[..length] == old(Reversed(result[..length]))
    ensures forall i | length <= i < BUFFER :: result[i] == 0
    ensures StrLen(result[..]) == length
  {
    var i := 0;
    LengthIs(result[..], length);
    while i < StrLen(result[..]) / 2
      invariant 0 <= i <= length / 2
      invariant PartlyReversed(result[..], old(result[..]), i, length)
      invariant StrLen(result[..]) == length
      decreases length - i
    {
      SwapOneMore(result[..], old(result[..]), i, length);
      SwapEnds(result, i, length);
      LengthIs(result[..], length);
      i := i + 1;
    }
    WhollyReversed(result[..], old(result[..]), i, length);
    assert result[..length] == result[..][..length];
  }

  /** The body of that loop. Between its two writes the length is computed again, from a half-swapped string. */
  method SwapEnds(result: array<Byte>, i: nat, ghost length: nat)
    requires 2 * i + 1 < length < result.Length
    requires (forall k | 0 <= k < length :: result[k] != 0) && result[length] == 0
    modifies result
    ensures result[..] == old(result[..])[i := old(result[length - 1 - i])][length - 1 - i := old(result[i])]
  {
    LengthIs(result[..], length);
    var tmp := result[i];
    result[i] := result[StrLen(result[..]) - i - 1];
    LengthIs(result[..], length);
    result[StrLen(result[..]) - i - 1] := tmp;
  }

  /** Of the first `length` octets, the first `i` and the last `i` have changed places. */
  ghost predicate PartlyReversed(now: Bytes, was: Bytes, i: nat, length: nat)
    requires 2 * i <= length < |now| == |was|
  {
    && (forall k | i <= k < length - i :: now[k] == was[k])
    && (forall k | 0 <= k < i || length - i <= k < length :: now[k] == was[length - 1 - k])
    && (forall k | 0 <= k < length :: now[k] != 0)
    && (forall k | length <= k < |now| :: now[k] == 0)
  }

  lemma SwapOneMore(now: Bytes, was: Bytes, i: nat, length: nat)
    requires 2 * i + 1 < length < |now| == |was| && PartlyReversed(now, was, i, length)
    ensures PartlyReversed(now[i := now[length - 1 - i]][length - 1 - i := now[i]], was, i + 1, length)
  {
    var last := length - 1 - i;
    var next := now[i := now[last]][last := now[i]];
    assert next[i] == was[last] && next[last] == was[i];
    assert forall k | 0 <= k < |now| && k != i && k != last :: next[k] == now[k];
  }

  lemma WhollyReversed(now: Bytes, was: Bytes, i: nat, length: nat)
    requires length / 2 <= i && 2 * i <= length < |now| == |was| && PartlyReversed(now, was, i, length)
    ensures now[..length] == Reversed(was[..length])
  {}

  lemma LengthIs(s: Bytes, length: nat)
    requires length < |s| && s[length] == 0
    requires forall i | 0 <= i < length :: s[i] != 0
    ensures StrLen(s) == length
  {}
}
