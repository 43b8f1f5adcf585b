/**
 * The text and number primitives the wire format is built from: bytes, C# `long`,
 * `Encoding.ASCII.GetBytes`, and the invariant-culture decimal rendering of an integer.
 */
module TextEncoding {

  type byte = b: int | 0 <= b < 256

  /** The range of the C# `long` that `Content-Length` is rendered from. */
  type long = n: int | -0x8000_0000_0000_0000 <= n < 0x8000_0000_0000_0000

  const LineFeed: byte := 10
  const QuestionMark: byte := 63

  predicate IsAsciiChar(c: char) { c as int < 128 }

  predicate IsAscii(s: string) { forall i :: 0 <= i < |s| ==> IsAsciiChar(s[i]) }

  /** `Encoding.ASCII` maps a character outside ASCII to '?'. */
  function AsciiByte(c: char): byte { if IsAsciiChar(c) then c as int else QuestionMark }

  /** `Encoding.ASCII.GetBytes(s)`: one byte per character. */
  function AsciiBytes(s: string): (r: seq<byte>)
    ensures |r| == |s|
  {
    seq(|s|, i requires 0 <= i < |s| => AsciiByte(s[i]))
  }

  lemma AsciiBytesConcat(a: string, b: string)
    ensures AsciiBytes(a + b) == AsciiBytes(a) + AsciiBytes(b)
  {
    assert forall i :: 0 <= i < |a + b| ==> (a + b)[i] == (if i < |a| then a[i] else b[i - |a|]);
  }

  lemma AsciiConcat(a: string, b: string)
    requires IsAscii(a) && IsAscii(b)
    ensures IsAscii(a + b)
  {
  }

  predicate IsDigitChar(c: char) { '0' <= c <= '9' }

  predicate IsDigitByte(b: byte) { 48 <= b <= 57 }

  function DigitChar(d: nat): (c: char)
    requires d < 10
  {
    (48 + d) as char
  }

  /**
   * The decimal rendering of a non-negative integer: at least one digit, nothing but digits,
   * and no leading zero except for 0 itself.
   */
  function Decimal(n: nat): (s: string)
    ensures 1 <= |s|
    ensures forall i :: 0 <= i < |s| ==> IsDigitChar(s[i])
    ensures s[0] == '0' ==> n == 0
    decreases n
  {
    if n < 10 then [DigitChar(n)] else Decimal(n / 10) + [DigitChar(n % 10)]
  }

  /** `long.ToString()` in the invariant culture: a minus sign before the magnitude when negative. */
  function LongToString(n: long): (s: string)
    ensures 1 <= |s| && IsAscii(s)
    ensures n >= 0 ==> s == Decimal(n)
    ensures n < 0 <==> s[0] == '-'
  {
    if n < 0 then "-" + Decimal(-(n as int)) else Decimal(n)
  }

  /** The value of one digit byte; other bytes count as 0 and are never passed by the reader. */
  function DigitValue(b: byte): (d: nat)
    ensures d < 10
  {
    if IsDigitByte(b) then b - 48 else 0
  }

  /** The value of a run of ASCII digit bytes, most significant first. */
  function ParseDecimal(s: seq<byte>): nat
  {
    if s == [] then 0 else ParseDecimal(s[..|s| - 1]) * 10 + DigitValue(s[|s| - 1])
  }

  /** The number of digit bytes at the front of `s`. */
  function LeadingDigits(s: seq<byte>): (k: nat)
    ensures k <= |s|
  {
    if s == [] || !IsDigitByte(s[0]) then 0 else 1 + LeadingDigits(s[1..])
  }

  /** `LeadingDigits` counts exactly the digit run: digits before it, a non-digit (or the end) at it. */
  lemma {:induction false} LeadingDigitsSpec(s: seq<byte>)
    ensures forall i :: 0 <= i < LeadingDigits(s) ==> IsDigitByte(s[i])
    ensures LeadingDigits(s) < |s| ==> !IsDigitByte(s[LeadingDigits(s)])
    decreases |s|
  {
    if s != [] && IsDigitByte(s[0]) {
      LeadingDigitsSpec(s[1..]);
      assert forall i :: 1 <= i < LeadingDigits(s) ==> s[i] == s[1..][i - 1];
    }
  }

  /** The ASCII bytes of a decimal rendering are all digit bytes. */
  lemma DecimalBytesAreDigits(n: nat)
    ensures forall i :: 0 <= i < |AsciiBytes(Decimal(n))| ==> IsDigitByte(AsciiBytes(Decimal(n))[i])
  {
  }

  /** Round trip: the ASCII bytes of `Decimal(n)` parse back to `n`. */
  lemma {:induction false} ParseDecimalOfDecimal(n: nat)
    ensures ParseDecimal(AsciiBytes(Decimal(n))) == n
    decreases n
  {
    var s := AsciiBytes(Decimal(n));
    if n < 10 {
      assert s == [48 + n];
      assert s[..0] == [];
    } else {
      var front := AsciiBytes(Decimal(n / 10));
      AsciiBytesConcat(Decimal(n / 10), [DigitChar(n % 10)]);
      assert s == front + [48 + n % 10];
      assert s[..|s| - 1] == front;
      ParseDecimalOfDecimal(n / 10);
    }
  }

  /** The digit run at the front of `Decimal(n)`'s bytes followed by a non-digit is all of them. */
  lemma LeadingDigitsOfDecimal(n: nat, t: seq<byte>)
    requires t != [] && !IsDigitByte(t[0])
    ensures LeadingDigits(AsciiBytes(Decimal(n)) + t) == |Decimal(n)|
  {
    DecimalBytesAreDigits(n);
    LeadingDigitsOfRun(AsciiBytes(Decimal(n)), t);
  }

  /** Distinct numbers have distinct decimal renderings. */
  lemma DecimalInjective(a: nat, b: nat)
    requires Decimal(a) == Decimal(b)
    ensures a == b
  {
    ParseDecimalOfDecimal(a);
    ParseDecimalOfDecimal(b);
  }

  /** Distinct `long` values have distinct renderings, negative ones included. */
  lemma LongToStringInjective(a: long, b: long)
    requires LongToString(a) == LongToString(b)
    ensures a == b
  {
    if a < 0 {
      assert LongToString(a)[1..] == Decimal(-(a as int));
      assert LongToString(b)[1..] == Decimal(-(b as int));
      DecimalInjective(-(a as int), -(b as int));
    } else {
      DecimalInjective(a, b);
    }
  }

  /** The digit run at the front of `d + t` is exactly `d` when `t` does not start with a digit. */
  lemma {:induction false} LeadingDigitsOfRun(d: seq<byte>, t: seq<byte>)
    requires forall i :: 0 <= i < |d| ==> IsDigitByte(d[i])
    requires t != [] && !IsDigitByte(t[0])
    ensures LeadingDigits(d + t) == |d|
    decreases |d|
  {
    if d != [] {
      assert (d + t)[1..] == d[1..] + t;
      LeadingDigitsOfRun(d[1..], t);
    } else {
      assert d + t == t;
    }
  }
}
