/** Octets as HTTP/1 text: lines, blanks, numbers. The patterns of the source's regular expressions
    are written out as recognisers. */
module HttpText {
  import opened Wire

  const CR: Byte := 13
  const LF: Byte := 10
  const SP: Byte := 32
  const TAB: Byte := 9
  const COLON: Byte := 58
  const COMMA: Byte := 44
  const CRLF: Bytes := [13, 10]

  /** `\s` for octets. */
  predicate IsSpace(b: Byte) {
    9 <= b <= 13 || b == SP
  }

  predicate IsBlank(b: Byte) {
    b == SP || b == TAB
  }

  function LowerByte(b: Byte): (r: Byte) {
    if 65 <= b <= 90 then b + 32 else b
  }

  function Lower(s: Bytes): (r: Bytes)
    ensures |r| == |s|
  {
    seq(|s|, i requires 0 <= i < |s| => LowerByte(s[i]))
  }

  /** The length of the longest prefix without (or with only) white space. */
  function Run(s: Bytes, space: bool): (r: nat)
    ensures r <= |s|
    ensures forall i | 0 <= i < r :: IsSpace(s[i]) == space
    ensures r < |s| ==> IsSpace(s[r]) != space
  {
    if s == [] || IsSpace(s[0]) != space then 0 else 1 + Run(s[1..], space)
  }

  lemma {:induction false} RunStops(s: Bytes, space: bool, rest: Bytes)
    requires forall i | 0 <= i < |s| :: IsSpace(s[i]) == space
    requires rest != [] && IsSpace(rest[0]) != space
    ensures Run(s + rest, space) == |s|
  {
    assert forall i | 0 <= i < |s| :: (s + rest)[i] == s[i];
    assert (s + rest)[|s|] == rest[0];
  }

  /** `\r?\n` at the start: the length of the match, or zero. */
  function Newline(s: Bytes): (r: nat)
    ensures r <= |s|
  {
    if |s| >= 2 && s[0] == CR && s[1] == LF then 2
    else if |s| >= 1 && s[0] == LF then 1
    else 0
  }

  datatype Around = Around(before: Bytes, after: Bytes)

  /** The first `\r?\n\r?\n`: what is before it and what is after it. */
  function UntilBlankLine(s: Bytes): (r: Option<Around>)
    ensures r.Some? ==> |r.value.before| + |r.value.after| < |s|
    ensures r.Some? ==> r.value.after == s[|s| - |r.value.after|..]
  {
    var n := Newline(s);
    var m := Newline(s[n..]);
    if n > 0 && m > 0 then Some(Around([], s[n + m..]))
    else if s == [] then None
    else
      match UntilBlankLine(s[1..])
      case None => None
      case Some(a) => Some(Around([s[0]] + a.before, a.after))
  }

  /** `re.split` at `\r?\n`. */
  function SplitLines(s: Bytes): (r: seq<Bytes>)
    ensures r != []
  {
    if s == [] then [[]]
    else if Newline(s) > 0 then [[]] + SplitLines(s[Newline(s)..])
    else
      var lines := SplitLines(s[1..]);
      [[s[0]] + lines[0]] + lines[1..]
  }

  predicate OneLine(s: Bytes) {
    forall i | 0 <= i < |s| :: s[i] != LF
  }

  lemma NoNewlineYet(line: Bytes, rest: Bytes)
    requires OneLine(line) && line != []
    ensures Newline(line + (CRLF + rest)) == 0 && Newline(line) == 0
  {}

  ghost function Behind(p: Bytes, o: Option<Around>): Option<Around> {
    if o.None? then None else Some(Around(p + o.value.before, o.value.after))
  }

  lemma BehindTwice(p: Bytes, q: Bytes, o: Option<Around>)
    ensures Behind(p, Behind(q, o)) == Behind(p + q, o)
  {
    if o.Some? {
      Reassociate(p, q, o.value.before);
    }
  }

  /** Where no blank line starts, the search moves on. */
  lemma SearchMovesOn(b: Byte, s: Bytes)
    requires var n := Newline([b] + s); n == 0 || Newline(([b] + s)[n..]) == 0
    ensures UntilBlankLine([b] + s) == Behind([b], UntilBlankLine(s))
  {
    assert ([b] + s)[1..] == s;
  }

  lemma LineEndAhead(rest: Bytes)
    ensures CRLF + rest == [CR] + ([LF] + rest)
    ensures var s := [CR] + ([LF] + rest); Newline(s) == 2 && s[2..] == rest
    ensures var s := [LF] + rest; Newline(s) == 1 && s[1..] == rest
  {}

  lemma SearchPassesLineEnd(rest: Bytes)
    requires Newline(rest) == 0
    ensures UntilBlankLine(CRLF + rest) == Behind(CRLF, UntilBlankLine(rest))
  {
    LineEndAhead(rest);
    SearchMovesOn(CR, [LF] + rest);
    SearchMovesOn(LF, rest);
    BehindTwice([CR], [LF], UntilBlankLine(rest));
    assert [CR] + [LF] == CRLF;
  }

  /** A line and its end come off the front of the search for the blank line. */
  lemma {:induction false} BlankLineAfter(line: Bytes, rest: Bytes)
    requires OneLine(line) && Newline(rest) == 0
    ensures UntilBlankLine(line + (CRLF + rest)) == Behind(line + CRLF, UntilBlankLine(rest))
  {
    if line == [] {
      SearchPassesLineEnd(rest);
      assert line + (CRLF + rest) == CRLF + rest && line + CRLF == CRLF;
    } else {
      var first, others := [line[0]], line[1..];
      assert line == first + others;
      NoNewlineYet(line, rest);
      Reassociate(first, others, CRLF + rest);
      Reassociate(first, others, CRLF);
      SearchMovesOn(line[0], others + (CRLF + rest));
      BlankLineAfter(others, rest);
      BehindTwice(first, others + CRLF, UntilBlankLine(rest));
    }
  }

  lemma {:induction false} BlankLineHere(line: Bytes, rest: Bytes)
    requires OneLine(line)
    ensures UntilBlankLine(line + (CRLF + (CRLF + rest))) == Some(Around(line, rest))
  {
    var s := line + (CRLF + (CRLF + rest));
    if line == [] {
      assert s[2..] == CRLF + rest && s[4..] == rest;
    } else {
      NoNewlineYet(line, CRLF + rest);
      assert s[1..] == line[1..] + (CRLF + (CRLF + rest));
      BlankLineHere(line[1..], rest);
      assert [line[0]] + line[1..] == line;
    }
  }

  lemma {:induction false} SplitOneLine(line: Bytes)
    requires OneLine(line)
    ensures SplitLines(line) == [line]
  {
    if line != [] {
      NoNewlineYet(line, []);
      SplitOneLine(line[1..]);
      assert [line[0]] + line[1..] == line;
    }
  }

  lemma {:induction false} SplitFirstLine(line: Bytes, rest: Bytes)
    requires OneLine(line)
    ensures SplitLines(line + (CRLF + rest)) == [line] + SplitLines(rest)
  {
    var s := line + (CRLF + rest);
    if line == [] {
      assert s[2..] == rest;
    } else {
      NoNewlineYet(line, rest);
      assert s[1..] == line[1..] + (CRLF + rest);
      SplitFirstLine(line[1..], rest);
      assert [line[0]] + line[1..] == line;
    }
  }

  // Trimming.

  function TrimLeft(s: Bytes): (r: Bytes)
    ensures |r| <= |s|
  {
    if s != [] && IsBlank(s[0]) then TrimLeft(s[1..]) else s
  }

  function TrimRight(s: Bytes): (r: Bytes)
    ensures |r| <= |s|
  {
    if s != [] && IsBlank(s[|s| - 1]) then TrimRight(s[..|s| - 1]) else s
  }

  /** `strip(b",")`. */
  function StripCommas(s: Bytes): (r: Bytes)
    decreases |s|
  {
    if s != [] && s[0] == COMMA then StripCommas(s[1..])
    else if s != [] && s[|s| - 1] == COMMA then StripCommas(s[..|s| - 1])
    else s
  }

  // Numbers.

  predicate IsDigit(b: Byte) {
    48 <= b <= 57
  }

  predicate IsHexDigit(b: Byte) {
    IsDigit(b) || 65 <= b <= 70 || 97 <= b <= 102
  }

  function HexValue(b: Byte): (r: nat)
    requires IsHexDigit(b)
    ensures r < 16
  {
    if IsDigit(b) then b - 48 else if b <= 70 then b - 55 else b - 87
  }

  function HexDigit(v: nat): (r: Byte)
    requires v < 16
    ensures IsHexDigit(r) && HexValue(r) == v
  {
    if v < 10 then 48 + v else 87 + v
  }

  /** `hex(n)[2:]`. */
  function Hex(n: nat): (r: Bytes)
    ensures r != [] && forall i | 0 <= i < |r| :: IsHexDigit(r[i])
  {
    if n < 16 then [HexDigit(n)] else Hex(n / 16) + [HexDigit(n % 16)]
  }

  /** `int(s, 16)`. */
  function FromHex(s: Bytes): (r: nat)
    requires forall i | 0 <= i < |s| :: IsHexDigit(s[i])
  {
    if s == [] then 0 else 16 * FromHex(s[..|s| - 1]) + HexValue(s[|s| - 1])
  }

  lemma {:induction false} FromHexHex(n: nat)
    ensures FromHex(Hex(n)) == n
  {
    if n >= 16 {
      FromHexHex(n / 16);
      assert Hex(n)[..|Hex(n)| - 1] == Hex(n / 16);
    } else {
      assert Hex(n)[..0] == [];
    }
  }

  /** `int(s)` for a string of digits. */
  function FromDecimal(s: Bytes): (r: nat)
    requires forall i | 0 <= i < |s| :: IsDigit(s[i])
  {
    if s == [] then 0
    else
      assert IsDigit(s[|s| - 1]);
      10 * FromDecimal(s[..|s| - 1]) + s[|s| - 1] - 48
  }

  /** The decimal digits of a number, most significant first. */
  function Decimal(n: nat): (r: Bytes)
    ensures r != []
    ensures forall i | 0 <= i < |r| :: IsDigit(r[i])
  {
    if n < 10 then [48 + n] else Decimal(n / 10) + [48 + n % 10]
  }

  /** Reading the digits back gives the number, and there is no leading zero. */
  lemma {:induction false} DecimalReadsBack(n: nat)
    ensures FromDecimal(Decimal(n)) == n
    ensures n > 0 ==> Decimal(n)[0] != 48
  {
    var d := Decimal(n);
    if n < 10 {
      assert d[..0] == [];
      assert FromDecimal(d) == 10 * FromDecimal(d[..0]) + d[0] - 48;
    } else {
      DecimalReadsBack(n / 10);
      assert d[..|d| - 1] == Decimal(n / 10);
    }
  }

  function Pow10(k: nat): (r: nat)
    ensures r > 0
  {
    if k == 0 then 1 else 10 * Pow10(k - 1)
  }

  lemma {:induction false} DecimalLength(n: nat, k: nat)
    requires k > 0 && n < Pow10(k)
    ensures |Decimal(n)| <= k
  {
    if n >= 10 {
      DecimalLength(n / 10, k - 1);
    }
  }

  /** How many hexadecimal digits come first. */
  function HexRun(s: Bytes): (r: nat)
    ensures r <= |s|
    ensures forall i | 0 <= i < r :: IsHexDigit(s[i])
    ensures r < |s| ==> !IsHexDigit(s[r])
  {
    if s == [] || !IsHexDigit(s[0]) then 0 else 1 + HexRun(s[1..])
  }

  /** The position of the first line feed, or the length. */
  function LineEnd(s: Bytes): (r: nat)
    ensures r <= |s|
    ensures forall i | 0 <= i < r :: s[i] != LF
    ensures r < |s| ==> s[r] == LF
  {
    if s == [] || s[0] == LF then 0 else 1 + LineEnd(s[1..])
  }
}
