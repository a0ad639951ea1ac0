/** Bit strings, most significant bit first, and their packing into octets. */
module Bits {
  import opened Wire

  type Bitstring = seq<bool>

  function Pow2(n: nat): (r: nat)
    ensures r > 0
  {
    if n == 0 then 1 else 2 * Pow2(n - 1)
  }

  lemma {:induction false} Pow2Add(a: nat, b: nat)
    ensures Pow2(a + b) == Pow2(a) * Pow2(b)
  {
    if a != 0 {
      Pow2Add(a - 1, b);
      assert Pow2(a + b) == 2 * Pow2(a + b - 1);
    }
  }

  /** The `n` low bits of `v`. */
  function BitsOf(v: nat, n: nat): (r: Bitstring)
    ensures |r| == n
  {
    if n == 0 then [] else BitsOf(v / 2, n - 1) + [v % 2 == 1]
  }

  function ValueOf(bits: Bitstring): (r: nat)
    ensures r < Pow2(|bits|)
  {
    if bits == [] then 0
    else 2 * ValueOf(bits[..|bits| - 1]) + if bits[|bits| - 1] then 1 else 0
  }

  lemma {:induction false} ValueOfBitsOf(v: nat, n: nat)
    requires v < Pow2(n)
    ensures ValueOf(BitsOf(v, n)) == v
  {
    if n != 0 {
      ValueOfBitsOf(v / 2, n - 1);
      assert BitsOf(v, n)[..n - 1] == BitsOf(v / 2, n - 1);
    }
  }

  lemma {:induction false} BitsOfValueOf(bits: Bitstring)
    ensures BitsOf(ValueOf(bits), |bits|) == bits
  {
    if bits != [] {
      BitsOfValueOf(bits[..|bits| - 1]);
    }
  }

  lemma DoubleProduct(x: nat, p: nat)
    ensures x * (2 * p) == 2 * (x * p)
  {}

  lemma ValueOfSnoc(bits: Bitstring, bit: bool)
    ensures ValueOf(bits + [bit]) == 2 * ValueOf(bits) + if bit then 1 else 0
  {
    assert (bits + [bit])[..|bits|] == bits;
  }

  lemma {:induction false} ValueOfConcat(a: Bitstring, b: Bitstring)
    ensures ValueOf(a + b) == ValueOf(a) * Pow2(|b|) + ValueOf(b)
  {
    if b == [] {
      assert a + b == a;
    } else {
      var init, last := b[..|b| - 1], b[|b| - 1];
      calc {
        ValueOf(a + b);
        { assert a + b == (a + init) + [last]; }
        ValueOf((a + init) + [last]);
        { ValueOfSnoc(a + init, last); }
        2 * ValueOf(a + init) + if last then 1 else 0;
        { ValueOfConcat(a, init); }
        2 * (ValueOf(a) * Pow2(|init|)) + 2 * ValueOf(init) + if last then 1 else 0;
        { DoubleProduct(ValueOf(a), Pow2(|init|)); }
        ValueOf(a) * Pow2(|b|) + 2 * ValueOf(init) + if last then 1 else 0;
        { assert b == init + [last]; ValueOfSnoc(init, last); }
        ValueOf(a) * Pow2(|b|) + ValueOf(b);
      }
    }
  }

  /** The bits of one octet. */
  function ToBits(byte: Byte): (r: Bitstring)
    ensures |r| == 8
  {
    BitsOf(byte, 8)
  }

  lemma Pow2Of8()
    ensures Pow2(8) == 256
  {
    assert Pow2(4) == 16;
  }

  /** The bits of a string of octets, in order. */
  function Unpack(data: Bytes): (r: Bitstring)
    ensures |r| == 8 * |data|
  {
    if data == [] then [] else ToBits(data[0]) + Unpack(data[1..])
  }

  /** Octets from a bit string whose length is a multiple of eight. */
  function Pack(bits: Bitstring): (r: Bytes)
    requires |bits| % 8 == 0
    ensures |r| == |bits| / 8
  {
    if bits == [] then []
    else
      Pow2Of8();
      [ValueOf(bits[..8])] + Pack(bits[8..])
  }

  lemma {:induction false} UnpackPack(bits: Bitstring)
    requires |bits| % 8 == 0
    ensures Unpack(Pack(bits)) == bits
  {
    if bits != [] {
      BitsOfValueOf(bits[..8]);
      UnpackPack(bits[8..]);
      assert Pack(bits)[1..] == Pack(bits[8..]);
      assert bits == bits[..8] + bits[8..];
    }
  }

  lemma {:induction false} PackUnpack(data: Bytes)
    ensures Pack(Unpack(data)) == data
  {
    if data != [] {
      Pow2Of8();
      ValueOfBitsOf(data[0], 8);
      PackUnpack(data[1..]);
      assert Unpack(data)[..8] == ToBits(data[0]);
      assert Unpack(data)[8..] == Unpack(data[1..]);
    }
  }

  lemma {:induction false} UnpackConcat(a: Bytes, b: Bytes)
    ensures Unpack(a + b) == Unpack(a) + Unpack(b)
  {
    if a == [] {
      assert a + b == b;
    } else {
      assert (a + b)[1..] == a[1..] + b;
      UnpackConcat(a[1..], b);
    }
  }

  function Ones(n: nat): (r: Bitstring)
    ensures |r| == n
  {
    seq(n, _ => true)
  }

  predicate AllOnes(bits: Bitstring) {
    forall i | 0 <= i < |bits| :: bits[i]
  }

  lemma {:induction false} OnesValue(n: nat)
    ensures ValueOf(Ones(n)) == Pow2(n) - 1
  {
    if n != 0 {
      OnesValue(n - 1);
      assert Ones(n)[..n - 1] == Ones(n - 1);
    }
  }
}
