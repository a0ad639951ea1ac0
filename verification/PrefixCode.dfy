/** Prefix codes in general: what it means to split a bit string into codewords, and the
    bit-by-bit reading that finds the split. Nothing here depends on a particular table. */
module PrefixCode {
  import opened Wire
  import opened Bits

  type Code = seq<Bitstring>

  /** No codeword is a prefix of another. */
  ghost predicate PrefixFree(code: Code) {
    forall i, j | 0 <= i < |code| && 0 <= j < |code| && i != j :: !(code[i] <= code[j])
  }

  ghost predicate Reaches(code: Code, q: Bitstring) {
    exists i | 0 <= i < |code| :: code[i] <= q || q <= code[i]
  }

  /** Every bit string runs into a codeword or stops inside one. */
  ghost predicate Complete(code: Code) {
    forall q: Bitstring :: Reaches(code, q)
  }

  ghost predicate GoodCode(code: Code) {
    && PrefixFree(code)
    && Complete(code)
    && forall i | 0 <= i < |code| :: code[i] != []
  }

  /** What may be left over at the end: a proper prefix of some codeword. */
  ghost predicate IsResidual(code: Code, r: Bitstring) {
    exists i | 0 <= i < |code| :: r < code[i]
  }

  ghost predicate AreSymbols(code: Code, symbols: seq<nat>) {
    forall i | 0 <= i < |symbols| :: symbols[i] < |code|
  }

  /** The symbol at or after `from` whose codeword is `w`. */
  function Symbol(code: Code, w: Bitstring, from: nat := 0): (r: Option<nat>)
    requires from <= |code|
    ensures r.Some? ==> from <= r.value < |code| && code[r.value] == w
    ensures r.None? ==> w !in code[from..]
    decreases |code| - from
  {
    if from == |code| then None
    else if code[from] == w then Some(from)
    else Symbol(code, w, from + 1)
  }

  lemma SymbolOfCodeword(code: Code, k: nat)
    requires PrefixFree(code) && k < |code|
    ensures Symbol(code, code[k]) == Some(k)
  {
    assert code[k] in code[0..];
  }

  function Encode(code: Code, symbols: seq<nat>): Bitstring
    requires AreSymbols(code, symbols)
  {
    if symbols == [] then [] else code[symbols[0]] + Encode(code, symbols[1..])
  }

  lemma EncodeCons(code: Code, k: nat, symbols: seq<nat>)
    requires k < |code| && AreSymbols(code, symbols)
    ensures AreSymbols(code, [k] + symbols)
    ensures Encode(code, [k] + symbols) == code[k] + Encode(code, symbols)
  {
    assert ([k] + symbols)[1..] == symbols;
  }

  lemma {:induction false} EncodeConcat(code: Code, a: seq<nat>, b: seq<nat>)
    requires AreSymbols(code, a) && AreSymbols(code, b)
    ensures AreSymbols(code, a + b)
    ensures Encode(code, a + b) == Encode(code, a) + Encode(code, b)
  {
    if a == [] {
      assert a + b == b;
    } else {
      assert (a + b)[1..] == a[1..] + b;
      EncodeConcat(code, a[1..], b);
    }
  }

  datatype Walked = Walked(symbols: seq<nat>, residual: Bitstring)

  /** Read `bits` one at a time after having read `current` since the last codeword. */
  function Walk(code: Code, bits: Bitstring, current: Bitstring): (r: Walked)
    decreases |bits|
  {
    if bits == [] then Walked([], current)
    else
      var next := current + [bits[0]];
      match Symbol(code, next)
      case None => Walk(code, bits[1..], next)
      case Some(k) =>
        var w := Walk(code, bits[1..], []);
        Walked([k] + w.symbols, w.residual)
  }

  /** Under a good code, extending a residual by one bit gives a codeword or a residual. */
  lemma ResidualStep(code: Code, r: Bitstring, bit: bool)
    requires GoodCode(code) && IsResidual(code, r)
    ensures Symbol(code, r + [bit]).Some? || IsResidual(code, r + [bit])
  {
    var q := r + [bit];
    assert Reaches(code, q);
    var i :| 0 <= i < |code| && (code[i] <= q || q <= code[i]);
    if q == code[i] {
      assert q in code[0..];
    } else if q <= code[i] {
      assert q < code[i];
    } else {
      assert false;
    }
  }

  lemma EmptyIsResidual(code: Code)
    requires GoodCode(code)
    ensures IsResidual(code, [])
  {
    assert Reaches(code, []);
  }

  /** The walk loses no bit. */
  lemma {:induction false} WalkConserves(code: Code, bits: Bitstring, current: Bitstring)
    ensures var w := Walk(code, bits, current);
            && AreSymbols(code, w.symbols)
            && Encode(code, w.symbols) + w.residual == current + bits
    decreases |bits|
  {
    if bits != [] {
      var next := current + [bits[0]];
      assert current + bits == next + bits[1..];
      var k := Symbol(code, next);
      if k.None? {
        WalkConserves(code, bits[1..], next);
      } else {
        WalkConserves(code, bits[1..], []);
        var w := Walk(code, bits[1..], []);
        EncodeCons(code, k.value, w.symbols);
        assert Encode(code, [k.value] + w.symbols) + w.residual == next + (Encode(code, w.symbols) + w.residual);
        assert [] + bits[1..] == bits[1..];
      }
    }
  }

  /** The walk ends inside a codeword. */
  lemma {:induction false} WalkEndsInside(code: Code, bits: Bitstring, current: Bitstring)
    requires GoodCode(code) && IsResidual(code, current)
    ensures IsResidual(code, Walk(code, bits, current).residual)
    decreases |bits|
  {
    if bits != [] {
      var next := current + [bits[0]];
      ResidualStep(code, current, bits[0]);
      if Symbol(code, next).None? {
        WalkEndsInside(code, bits[1..], next);
      } else {
        EmptyIsResidual(code);
        WalkEndsInside(code, bits[1..], []);
      }
    }
  }

  /** Reading the rest of a codeword emits its symbol and starts afresh. */
  lemma {:induction false} WalkCodeword(code: Code, k: nat, current: Bitstring, rest: Bitstring, bits: Bitstring)
    requires PrefixFree(code) && k < |code| && current < code[k]
    requires bits == code[k][|current|..] + rest
    ensures Walk(code, bits, current)
         == Walked([k] + Walk(code, rest, []).symbols, Walk(code, rest, []).residual)
    decreases |bits|
  {
    var next := current + [bits[0]];
    assert next == code[k][..|current| + 1];
    if next == code[k] {
      SymbolOfCodeword(code, k);
      assert bits[1..] == rest;
    } else {
      assert next < code[k];
      assert Symbol(code, next).None?;
      assert bits[1..] == code[k][|next|..] + rest;
      WalkCodeword(code, k, next, rest, bits[1..]);
    }
  }

  lemma {:induction false} WalkResidual(code: Code, current: Bitstring, bits: Bitstring)
    requires PrefixFree(code) && IsResidual(code, current + bits)
    ensures Walk(code, bits, current) == Walked([], current + bits)
    decreases |bits|
  {
    if bits == [] {
      assert current + bits == current;
    } else {
      var next := current + [bits[0]];
      assert next + bits[1..] == current + bits;
      assert Symbol(code, next).None? by {
        var i :| 0 <= i < |code| && current + bits < code[i];
        assert next <= code[i] && next != code[i];
      }
      WalkResidual(code, next, bits[1..]);
    }
  }

  lemma {:induction false} WalkEncode(code: Code, symbols: seq<nat>, residual: Bitstring)
    requires GoodCode(code) && AreSymbols(code, symbols) && IsResidual(code, residual)
    ensures Walk(code, Encode(code, symbols) + residual, []) == Walked(symbols, residual)
  {
    var bits := Encode(code, symbols) + residual;
    if symbols == [] {
      assert bits == residual && [] + residual == residual;
      WalkResidual(code, [], residual);
    } else {
      var rest := Encode(code, symbols[1..]) + residual;
      assert bits == code[symbols[0]] + rest;
      WalkCodeword(code, symbols[0], [], rest, bits);
      WalkEncode(code, symbols[1..], residual);
      assert [symbols[0]] + symbols[1..] == symbols;
    }
  }

  /** A bit string splits into codewords and a residual in exactly one way, the one the walk finds. */
  lemma UniqueSplit(code: Code, bits: Bitstring, symbols: seq<nat>, residual: Bitstring)
    requires GoodCode(code)
    ensures Walk(code, bits, []) == Walked(symbols, residual)
       <==> && AreSymbols(code, symbols)
            && IsResidual(code, residual)
            && bits == Encode(code, symbols) + residual
  {
    EmptyIsResidual(code);
    WalkConserves(code, bits, []);
    WalkEndsInside(code, bits, []);
    assert [] + bits == bits;
    if AreSymbols(code, symbols) && IsResidual(code, residual) && bits == Encode(code, symbols) + residual {
      WalkEncode(code, symbols, residual);
    }
  }
}
