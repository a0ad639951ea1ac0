/** Octets, and what a parser over a shared octet iterator can do. */
module Wire {
  type Byte = b: nat | b < 256
  type Bytes = seq<Byte>

  datatype Option<+T> = None | Some(value: T)

  /** The outcome of one parser call on an iterator.
    - Parsed: a value, and the octets the call left in the iterator
    - Stop: the iterator was empty at the start (StopIteration)
    - Bad: the protocol's own error (HPACKError, H2Error)
    */
  datatype Parse<+T> = Parsed(value: T, rest: Bytes) | Stop | Bad {
    predicate IsFailure() {
      !Parsed?
    }

    function PropagateFailure<U>(): Parse<U>
      requires IsFailure()
    {
      if Stop? then Stop else Bad
    }

    function Extract(): (T, Bytes)
      requires Parsed?
    {
      (value, rest)
    }
  }

  /** The outcome of an operation that may raise the protocol's own error, or trip an assertion. */
  datatype Outcome<+T> = Ok(value: T) | ProtocolError | AssertionError {
    predicate IsFailure() {
      !Ok?
    }

    function PropagateFailure<U>(): Outcome<U>
      requires IsFailure()
    {
      if ProtocolError? then ProtocolError else AssertionError
    }

    function Extract(): T
      requires Ok?
    {
      value
    }
  }

  /** Concatenation of a sequence of octet strings. */
  function Join(parts: seq<Bytes>): (r: Bytes) {
    if parts == [] then [] else parts[0] + Join(parts[1..])
  }

  lemma Reassociate(a: Bytes, b: Bytes, c: Bytes)
    ensures a + (b + c) == (a + b) + c
  {}

  /** The octets of an ASCII literal. */
  function Ascii(s: string): (r: Bytes)
    ensures |r| == |s|
  {
    seq(|s|, i requires 0 <= i < |s| => s[i] as int % 256)
  }

  function Zeros(n: nat): (r: Bytes)
    ensures |r| == n
  {
    seq(n, _ => 0)
  }

  lemma ProductGrows(a: nat, b: nat, m: nat)
    ensures a <= b ==> a * m <= b * m
  {}

  lemma DivisionIsUnique(x: nat, m: nat, q: nat, r: nat)
    requires r < m && x == q * m + r
    ensures x / m == q && x % m == r
  {
    var d := x / m;
    assert x == d * m + x % m;
    ProductGrows(d + 1, q, m);
    ProductGrows(q + 1, d, m);
    assert (d + 1) * m == d * m + m && (q + 1) * m == q * m + m;
  }
}
