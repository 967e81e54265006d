/** Shared vocabulary: bytes, Python text as code points, and Option. */
module Common {

  /** One octet of a Redis value. */
  type Byte = b: int | 0 <= b < 0x100

  /** One element of a Python `str`: any code point, lone surrogates included. */
  type CodePoint = c: int | 0 <= c < 0x11_0000

  /** A Python `str`. Unlike Dafny's `string` it may hold lone surrogates. */
  type PyStr = seq<CodePoint>

  datatype Option<+T> = None | Some(value: T)

  /** The Python text spelled by a Dafny string literal. */
  function Lit(s: string): (r: PyStr)
    ensures |r| == |s|
    ensures forall i :: 0 <= i < |s| ==> r[i] == s[i] as int
  {
    seq(|s|, i requires 0 <= i < |s| => s[i] as int)
  }

  predicate IsSurrogate(c: CodePoint) {
    0xD800 <= c <= 0xDFFF
  }

  predicate IsAsciiDigit(c: CodePoint) {
    '0' as int <= c <= '9' as int
  }

  function DigitValue(c: CodePoint): (d: nat)
    requires IsAsciiDigit(c)
    ensures d < 10
  {
    c - '0' as int
  }

  function DigitChar(d: nat): (c: CodePoint)
    requires d < 10
    ensures IsAsciiDigit(c) && DigitValue(c) == d
  {
    '0' as int + d
  }

  /** Lower-case hexadecimal digit, as Python prints escapes. */
  function HexDigit(d: nat): (c: CodePoint)
    requires d < 16
  {
    if d < 10 then '0' as int + d else 'a' as int + (d - 10)
  }

  /** Decimal digits of `n`, most significant first, no leading zeros. */
  function Decimal(n: nat): (r: PyStr)
    ensures |r| >= 1
    ensures forall i :: 0 <= i < |r| ==> IsAsciiDigit(r[i])
    ensures n > 0 ==> r[0] != '0' as int
    decreases n
  {
    if n < 10 then [DigitChar(n)] else Decimal(n / 10) + [DigitChar(n % 10)]
  }

  /** The number a run of ASCII digits denotes. */
  function DigitsValue(s: PyStr): nat
    requires forall i :: 0 <= i < |s| ==> IsAsciiDigit(s[i])
  {
    if |s| == 0 then 0 else DigitsValue(s[..|s| - 1]) * 10 + DigitValue(s[|s| - 1])
  }

  /** Reading back the decimal rendering gives the number. */
  lemma {:induction false} DecimalValue(n: nat)
    ensures DigitsValue(Decimal(n)) == n
    decreases n
  {
    if n >= 10 {
      DecimalValue(n / 10);
      var d := Decimal(n);
      assert d[..|d| - 1] == Decimal(n / 10);
    }
  }
}
