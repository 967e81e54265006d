/**
  Python's two views of a `bytes` value as source text: the `repr` CPython
  prints (`bytes_repr` with smart quotes) and the bytes-literal grammar of
  section 2.4.1 of the Python Language Reference that `ast.literal_eval`
  reads back.
*/
module BytesLiteral {
  import opened Common

  const Backslash: CodePoint := '\\' as int
  const SingleQuote: CodePoint := '\'' as int
  const DoubleQuote: CodePoint := '"' as int
  const LetterB: CodePoint := 'b' as int
  const Newline: CodePoint := '\n' as int
  const CarriageReturn: CodePoint := '\r' as int

  predicate IsQuote(q: CodePoint) {
    q == SingleQuote || q == DoubleQuote
  }

  // ---------------------------------------------------------------------
  // repr(bytes)
  // ---------------------------------------------------------------------

  /** The quote `repr` wraps the literal in: `"` only when that spares escaping a `'`. */
  function QuoteFor(b: seq<Byte>): (q: CodePoint)
    ensures IsQuote(q)
  {
    if SingleQuote in b && DoubleQuote !in b then DoubleQuote else SingleQuote
  }

  /** How `repr` spells one byte inside a literal quoted with `q`. */
  function EscapeByte(x: Byte, q: CodePoint): PyStr
    requires IsQuote(q)
  {
    if x == q || x == Backslash then [Backslash, x]
    else if x == '\t' as int then [Backslash, 't' as int]
    else if x == '\n' as int then [Backslash, 'n' as int]
    else if x == '\r' as int then [Backslash, 'r' as int]
    else if x < 0x20 || x >= 0x7F then [Backslash, 'x' as int, HexDigit(x / 16), HexDigit(x % 16)]
    else [x]
  }

  function EscapeBytes(b: seq<Byte>, q: CodePoint): PyStr
    requires IsQuote(q)
  {
    if |b| == 0 then [] else EscapeByte(b[0], q) + EscapeBytes(b[1..], q)
  }

  predicate IsPrintableAscii(s: PyStr) {
    forall i :: 0 <= i < |s| ==> 0x20 <= s[i] < 0x7F
  }

  lemma {:induction false} EscapeBytesPrintable(b: seq<Byte>, q: CodePoint)
    requires IsQuote(q)
    ensures IsPrintableAscii(EscapeBytes(b, q))
  {
    if |b| > 0 {
      EscapeBytesPrintable(b[1..], q);
    }
  }

  /** `repr(b)`: the letter b, the chosen quote, the escaped bytes, the same quote. */
  function Repr(b: seq<Byte>): (r: PyStr)
    ensures |r| >= 3 && r[0] == LetterB && IsQuote(r[1]) && r[|r| - 1] == r[1]
    ensures IsPrintableAscii(r)
  {
    var q := QuoteFor(b);
    EscapeBytesPrintable(b, q);
    [LetterB, q] + EscapeBytes(b, q) + [q]
  }

  // ---------------------------------------------------------------------
  // The bytes-literal grammar (ast.literal_eval on a single short literal)
  // ---------------------------------------------------------------------

  predicate IsOctalDigit(c: CodePoint) {
    '0' as int <= c <= '7' as int
  }

  function HexValue(c: CodePoint): Option<nat> {
    if '0' as int <= c <= '9' as int then Some(c - '0' as int)
    else if 'a' as int <= c <= 'f' as int then Some(c - 'a' as int + 10)
    else if 'A' as int <= c <= 'F' as int then Some(c - 'A' as int + 10)
    else None
  }

  /** The byte a one-letter escape stands for: `\\ \' \" \a \b \f \n \r \t \v`. */
  function SimpleEscape(e: CodePoint): Option<Byte> {
    if e == Backslash || e == SingleQuote || e == DoubleQuote then Some(e)
    else if e == 'a' as int then Some(7)
    else if e == 'b' as int then Some(8)
    else if e == 'f' as int then Some(12)
    else if e == 'n' as int then Some(10)
    else if e == 'r' as int then Some(13)
    else if e == 't' as int then Some(9)
    else if e == 'v' as int then Some(11)
    else None
  }

  /** Number of octal digits (one to three) an octal escape starting at `s[0]` takes. */
  function OctalRun(s: PyStr): (n: nat)
    requires |s| > 0 && IsOctalDigit(s[0])
    ensures 1 <= n <= 3 && n <= |s|
    ensures forall i :: 0 <= i < n ==> IsOctalDigit(s[i])
  {
    if |s| >= 2 && IsOctalDigit(s[1]) then
      if |s| >= 3 && IsOctalDigit(s[2]) then 3 else 2
    else 1
  }

  /** Value of a run of octal digits. */
  function OctalValue(s: PyStr): nat
    requires forall i :: 0 <= i < |s| ==> IsOctalDigit(s[i])
  {
    if |s| == 0 then 0
    else
      assert IsOctalDigit(s[|s| - 1]);
      OctalValue(s[..|s| - 1]) * 8 + (s[|s| - 1] as int - '0' as int)
  }

  function Prepend(prefix: seq<Byte>, rest: Option<seq<Byte>>): Option<seq<Byte>> {
    match rest
    case None => None
    case Some(r) => Some(prefix + r)
  }

  /**
    The text after the opening quote `q` of a short bytes literal. Yields the
    bytes it denotes when the literal is well formed and its closing quote is
    the last character of `s`; `None` for every SyntaxError or ValueError
    the parser raises, and for a literal that closes early.
  */
  function ParseBody(s: PyStr, q: CodePoint): (r: Option<seq<Byte>>)
    requires IsQuote(q)
    ensures r.Some? ==> |r.value| < |s|
    decreases |s|
  {
    if |s| == 0 then None
    else
      var c := s[0];
      if c == q then (if |s| == 1 then Some([]) else None)
      else if c == 0 || c >= 0x80 || c == Newline || c == CarriageReturn then None
      else if c != Backslash then Prepend([c], ParseBody(s[1..], q))
      else if |s| == 1 then None
      else
        var e := s[1];
        if e == 0 || e >= 0x80 then None
        else if e == Newline then ParseBody(s[2..], q)
        else if e == CarriageReturn then
          if |s| >= 3 && s[2] == Newline then ParseBody(s[3..], q) else ParseBody(s[2..], q)
        else if e == 'x' as int then
          if |s| >= 4 && HexValue(s[2]).Some? && HexValue(s[3]).Some?
          then Prepend([HexValue(s[2]).value * 16 + HexValue(s[3]).value], ParseBody(s[4..], q))
          else None
        else if IsOctalDigit(e) then
          var n := OctalRun(s[1..]);
          Prepend([OctalValue(s[1..1 + n]) % 0x100], ParseBody(s[1 + n..], q))
        else if SimpleEscape(e).Some? then Prepend([SimpleEscape(e).value], ParseBody(s[2..], q))
        else Prepend([Backslash, e], ParseBody(s[2..], q))
  }

  /** `ast.literal_eval(t)` on a text of the form b'...' or b"...". */
  function ParseBytesLiteral(t: PyStr): Option<seq<Byte>> {
    if |t| >= 2 && t[0] == LetterB && IsQuote(t[1]) then ParseBody(t[2..], t[1]) else None
  }

  /** A bytes literal denotes fewer bytes than its text has characters, less its `b` and two quotes. */
  lemma ParseBytesLiteralShorter(t: PyStr)
    requires ParseBytesLiteral(t).Some?
    ensures |ParseBytesLiteral(t).value| + 3 <= |t|
  {
  }

  // ---------------------------------------------------------------------
  // Round trip
  // ---------------------------------------------------------------------

  lemma HexDigitValue(d: nat)
    requires d < 16
    ensures HexValue(HexDigit(d)) == Some(d)
  {
  }

  /** A `\x` escape with two hexadecimal digits stands for one byte, in either case of digit. */
  lemma ParseHexStep(s: PyStr, q: CodePoint)
    requires IsQuote(q) && |s| >= 4 && s[0] == Backslash && s[1] == 'x' as int
    requires HexValue(s[2]).Some? && HexValue(s[3]).Some?
    ensures ParseBody(s, q) == Prepend([HexValue(s[2]).value * 16 + HexValue(s[3]).value], ParseBody(s[4..], q))
  {
  }

  lemma ParseTwoCharEscape(x: Byte, q: CodePoint, rest: PyStr)
    requires IsQuote(q)
    requires x == q || x == Backslash || x == '\t' as int || x == '\n' as int || x == '\r' as int
    ensures ParseBody(EscapeByte(x, q) + rest, q) == Prepend([x], ParseBody(rest, q))
  {
    var s := EscapeByte(x, q) + rest;
    assert |EscapeByte(x, q)| == 2;
    assert s[0] == Backslash && s[1] == EscapeByte(x, q)[1];
    assert SimpleEscape(s[1]) == Some(x);
    assert s[2..] == rest;
  }

  lemma ParseHexEscape(x: Byte, q: CodePoint, rest: PyStr)
    requires IsQuote(q)
    requires x != q && x != Backslash && x != '\t' as int && x != '\n' as int && x != '\r' as int
    requires x < 0x20 || x >= 0x7F
    ensures ParseBody(EscapeByte(x, q) + rest, q) == Prepend([x], ParseBody(rest, q))
  {
    var s := EscapeByte(x, q) + rest;
    assert EscapeByte(x, q) == [Backslash, 'x' as int, HexDigit(x / 16), HexDigit(x % 16)];
    HexDigitValue(x / 16);
    HexDigitValue(x % 16);
    assert s[1] == 'x' as int && s[2] == HexDigit(x / 16) && s[3] == HexDigit(x % 16);
    assert s[4..] == rest;
  }

  /** Each escape `repr` emits reads back as the byte it came from, independently of what follows. */
  lemma ParseEscapedByte(x: Byte, q: CodePoint, rest: PyStr)
    requires IsQuote(q)
    ensures ParseBody(EscapeByte(x, q) + rest, q) == Prepend([x], ParseBody(rest, q))
  {
    if x == q || x == Backslash || x == '\t' as int || x == '\n' as int || x == '\r' as int {
      ParseTwoCharEscape(x, q, rest);
    } else if x < 0x20 || x >= 0x7F {
      ParseHexEscape(x, q, rest);
    } else {
      var s := EscapeByte(x, q) + rest;
      assert s[0] == x && s[1..] == rest;
    }
  }

  lemma {:induction false} ParseEscapedBytes(b: seq<Byte>, q: CodePoint)
    requires IsQuote(q)
    ensures ParseBody(EscapeBytes(b, q) + [q], q) == Some(b)
  {
    if |b| > 0 {
      ParseEscapedBytes(b[1..], q);
      ParseEscapedByte(b[0], q, EscapeBytes(b[1..], q) + [q]);
      assert EscapeBytes(b, q) + [q] == EscapeByte(b[0], q) + (EscapeBytes(b[1..], q) + [q]);
      assert [b[0]] + b[1..] == b;
    }
  }

  /** `ast.literal_eval(repr(b)) == b` for every bytes value. */
  lemma ParseRepr(b: seq<Byte>)
    ensures ParseBytesLiteral(Repr(b)) == Some(b)
  {
    var q := QuoteFor(b);
    var r := Repr(b);
    assert r[2..] == EscapeBytes(b, q) + [q];
    ParseEscapedBytes(b, q);
  }

  /** Distinct bytes values have distinct representations. */
  lemma ReprInjective(a: seq<Byte>, b: seq<Byte>)
    requires Repr(a) == Repr(b)
    ensures a == b
  {
    ParseRepr(a);
    ParseRepr(b);
  }
}
