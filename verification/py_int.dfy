/**
  The two pieces of Python's text handling the TTL form relies on:
  `str.strip()` with no argument, and `int(text)` in base 10.
*/
module PyInt {
  import opened Common

  /** `str.isspace()`: the code points `str.strip()` removes. */
  predicate IsSpace(c: CodePoint) {
    || 0x09 <= c <= 0x0D
    || 0x1C <= c <= 0x20
    || c == 0x85 || c == 0xA0 || c == 0x1680
    || 0x2000 <= c <= 0x200A
    || c == 0x2028 || c == 0x2029 || c == 0x202F || c == 0x205F || c == 0x3000
  }

  /**
    The white space `int()` skips around a number. CPython maps non-ASCII
    white space to a space and then skips only the C white space of ASCII
    (tab, line feed, vertical tab, form feed, carriage return, space), so
    the ASCII separators U+001C to U+001F, which `str.isspace()` accepts,
    make `int()` fail.
  */
  predicate IsIntSpace(c: CodePoint) {
    IsSpace(c) && !(0x1C <= c <= 0x1F)
  }

  /** Index of the first code point that is not `blank` (or `|s|`). */
  function StripStart(s: PyStr, blank: CodePoint -> bool): (i: nat)
    ensures i <= |s|
    ensures forall k :: 0 <= k < i ==> blank(s[k])
    ensures i < |s| ==> !blank(s[i])
  {
    if |s| == 0 || !blank(s[0]) then 0 else 1 + StripStart(s[1..], blank)
  }

  /** One past the last code point at or after `lo` that is not `blank` (or `lo`). */
  function StripEnd(s: PyStr, lo: nat, blank: CodePoint -> bool): (j: nat)
    requires lo <= |s|
    ensures lo <= j <= |s|
    ensures forall k :: j <= k < |s| ==> blank(s[k])
    ensures j > lo ==> !blank(s[j - 1])
    decreases |s|
  {
    if |s| == lo || !blank(s[|s| - 1]) then |s| else StripEnd(s[..|s| - 1], lo, blank)
  }

  /** `s` without the `blank` code points at either end. */
  function StripBlank(s: PyStr, blank: CodePoint -> bool): PyStr {
    var i := StripStart(s, blank);
    s[i..StripEnd(s, i, blank)]
  }

  /** `s.strip()` */
  function Strip(s: PyStr): PyStr {
    StripBlank(s, IsSpace)
  }

  /** What `int()` reads once the white space it skips is dropped. */
  function IntStrip(s: PyStr): PyStr {
    StripBlank(s, IsIntSpace)
  }

  /** Stripping is the longest slice without white space at either end, and it empties exactly the blank texts. */
  lemma StripSpec(s: PyStr)
    ensures var t := Strip(s);
      && (|t| > 0 ==> !IsSpace(t[0]) && !IsSpace(t[|t| - 1]))
      && (|t| == 0 <==> forall k :: 0 <= k < |s| ==> IsSpace(s[k]))
  {
    var i := StripStart(s, IsSpace);
    var j := StripEnd(s, i, IsSpace);
    if j > i {
      assert Strip(s)[0] == s[i];
      assert Strip(s)[|Strip(s)| - 1] == s[j - 1];
    }
  }

  predicate IsUnderscore(c: CodePoint) {
    c == '_' as int
  }

  /** Digits with single underscores between them, as `int()` accepts after the sign. */
  predicate IsDigitRun(s: PyStr) {
    && |s| > 0
    && IsAsciiDigit(s[0]) && IsAsciiDigit(s[|s| - 1])
    && (forall k :: 0 <= k < |s| ==> IsAsciiDigit(s[k]) || IsUnderscore(s[k]))
    && (forall k :: 0 <= k < |s| - 1 ==> !(IsUnderscore(s[k]) && IsUnderscore(s[k + 1])))
  }

  /** The digits of a digit run with its underscores dropped. */
  function DropUnderscores(s: PyStr): (r: PyStr)
    requires forall k :: 0 <= k < |s| ==> IsAsciiDigit(s[k]) || IsUnderscore(s[k])
    ensures forall k :: 0 <= k < |r| ==> IsAsciiDigit(r[k])
    ensures |r| <= |s|
  {
    if |s| == 0 then []
    else if IsUnderscore(s[0]) then DropUnderscores(s[1..])
    else [s[0]] + DropUnderscores(s[1..])
  }

  /** Python 3.11 and later refuse to convert more than 4300 digits (`sys.get_int_max_str_digits()`). */
  const MaxStrDigits := 4300

  /** The unsigned part of `int(s)`: a digit run within the digit limit. */
  function ParseDigits(body: PyStr): (r: Option<nat>)
    ensures r.Some? ==> IsDigitRun(body)
  {
    if !IsDigitRun(body) then None
    else
      var digits := DropUnderscores(body);
      if |digits| > MaxStrDigits then None else Some(DigitsValue(digits))
  }

  function Negate(r: Option<nat>): Option<int> {
    match r
    case None => None
    case Some(n) => Some(-(n as int))
  }

  /**
    `int(s)`: optional white space in the sense of `IsIntSpace`, an optional
    sign, a digit run, optional white space. `None` stands for the ValueError.
  */
  function ParseInt(s: PyStr): (r: Option<int>)
    ensures r.Some? ==> |IntStrip(s)| > 0
  {
    var t := IntStrip(s);
    if |t| == 0 then None
    else if t[0] == '-' as int then Negate(ParseDigits(t[1..]))
    else if t[0] == '+' as int then
      match ParseDigits(t[1..])
      case None => None
      case Some(n) => Some(n as int)
    else
      match ParseDigits(t)
      case None => None
      case Some(n) => Some(n as int)
  }

  /** Plain digits within the limit parse to their value. */
  lemma ParsePlainDigits(d: PyStr)
    requires |d| > 0 && forall k :: 0 <= k < |d| ==> IsAsciiDigit(d[k])
    requires |d| <= MaxStrDigits
    ensures ParseDigits(d) == Some(DigitsValue(d))
  {
    DropUnderscoresOfDigits(d);
    assert IsDigitRun(d);
  }

  lemma DropUnderscoresOfDigits(s: PyStr)
    requires forall k :: 0 <= k < |s| ==> IsAsciiDigit(s[k])
    ensures DropUnderscores(s) == s
  {
  }

  lemma StripOfDigits(s: PyStr)
    requires |s| > 0 && forall k :: 0 <= k < |s| ==> !IsSpace(s[k])
    ensures Strip(s) == s && IntStrip(s) == s
  {
    assert StripStart(s, IsSpace) == 0 && StripStart(s, IsIntSpace) == 0;
    assert StripEnd(s, 0, IsSpace) == |s| && StripEnd(s, 0, IsIntSpace) == |s|;
  }

  /** `int(str(n)) == n` for numbers within the digit limit. */
  lemma ParseDecimal(n: nat)
    requires |Decimal(n)| <= MaxStrDigits
    ensures ParseInt(Decimal(n)) == Some(n as int)
  {
    var d := Decimal(n);
    DecimalValue(n);
    ParsePlainDigits(d);
    StripOfDigits(d);
  }

  /** On text that is already stripped and starts with a minus sign, `int()` negates the digits after it. */
  lemma ParseMinusStripped(s: PyStr, v: nat)
    requires |s| > 0 && IntStrip(s) == s && s[0] == '-' as int
    requires ParseDigits(s[1..]) == Some(v)
    ensures ParseInt(s) == Some(-(v as int))
  {
  }

  lemma SignedDigitsStripped(d: PyStr)
    requires |d| > 0 && forall k :: 0 <= k < |d| ==> IsAsciiDigit(d[k])
    ensures IntStrip(['-' as int] + d) == ['-' as int] + d
  {
    var m := ['-' as int] + d;
    forall k | 0 <= k < |m|
      ensures !IsSpace(m[k])
    {
      if k > 0 {
        assert m[k] == d[k - 1];
      }
    }
    StripOfDigits(m);
  }

  /** A minus sign before plain digits negates their value. */
  lemma ParseMinusDigits(d: PyStr, v: nat)
    requires |d| > 0 && forall k :: 0 <= k < |d| ==> IsAsciiDigit(d[k])
    requires ParseDigits(d) == Some(v)
    ensures ParseInt(['-' as int] + d) == Some(-(v as int))
  {
    var m := ['-' as int] + d;
    SignedDigitsStripped(d);
    assert m[1..] == d;
    ParseMinusStripped(m, v);
  }

  /** The one-character text "-". */
  lemma MinusText()
    ensures Lit("-") == ['-' as int]
  {
    assert |Lit("-")| == 1 && Lit("-")[0] == '-' as int;
  }

  /** `int("-" + str(n)) == -n` for numbers within the digit limit. */
  lemma ParseNegativeDecimal(n: nat)
    requires |Decimal(n)| <= MaxStrDigits
    ensures ParseInt(Lit("-") + Decimal(n)) == Some(-(n as int))
  {
    var d := Decimal(n);
    MinusText();
    DecimalValue(n);
    ParsePlainDigits(d);
    ParseMinusDigits(d, n);
  }

  /** A sign before a single zero: nothing to strip, and the digits after the sign are "0". */
  lemma SignedZeroStripped(t: PyStr)
    requires |t| == 2 && t[0] in {'-' as int, '+' as int} && t[1] == '0' as int
    ensures IntStrip(t) == t && ParseDigits(t[1..]) == Some(0)
  {
    StripOfDigits(t);
    ParsePlainDigits(t[1..]);
  }
}
