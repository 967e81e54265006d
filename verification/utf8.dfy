/**
  Strict UTF-8 as defined in section 4 of RFC 3629: the only byte sequences
  accepted are those of the well-formed table (no overlong forms, no
  surrogates, nothing above U+10FFFF). This is what Python's `bytes.decode`
  and `str.encode` do with the "utf-8" codec and the default strict errors.
*/
module Utf8 {
  import opened Common

  /** Number of bytes the UTF-8 form of `c` takes (RFC 3629, section 3). */
  function Width(c: CodePoint): (w: nat)
    ensures 1 <= w <= 4
  {
    if c < 0x80 then 1 else if c < 0x800 then 2 else if c < 0x1_0000 then 3 else 4
  }

  /** Byte length of the UTF-8 form of a text, summed code point by code point. */
  function EncodedLength(s: PyStr): nat {
    if |s| == 0 then 0 else Width(s[0]) + EncodedLength(s[1..])
  }

  predicate NoSurrogates(s: PyStr) {
    forall i :: 0 <= i < |s| ==> !IsSurrogate(s[i])
  }

  predicate IsContinuation(b: Byte) {
    0x80 <= b <= 0xBF
  }

  /** UTF-8 form of one scalar value. */
  function EncodeCodePoint(c: CodePoint): (r: seq<Byte>)
    requires !IsSurrogate(c)
    ensures |r| == Width(c)
  {
    if c < 0x80 then [c]
    else if c < 0x800 then [0xC0 + c / 0x40, 0x80 + c % 0x40]
    else if c < 0x1_0000 then [0xE0 + c / 0x40 / 0x40, 0x80 + c / 0x40 % 0x40, 0x80 + c % 0x40]
    else [0xF0 + c / 0x40 / 0x40 / 0x40, 0x80 + c / 0x40 / 0x40 % 0x40, 0x80 + c / 0x40 % 0x40, 0x80 + c % 0x40]
  }

  /** `str.encode("utf-8")`: `None` stands for the UnicodeEncodeError a lone surrogate raises. */
  function Encode(s: PyStr): (r: Option<seq<Byte>>)
    ensures r.Some? <==> NoSurrogates(s)
    ensures r.Some? ==> |r.value| == EncodedLength(s)
  {
    if |s| == 0 then Some([])
    else if IsSurrogate(s[0]) then None
    else
      match Encode(s[1..])
      case None => None
      case Some(rest) => Some(EncodeCodePoint(s[0]) + rest)
  }

  /** Index of the first lone surrogate: where the strict encoder stops. */
  function FirstSurrogate(s: PyStr): (i: nat)
    requires !NoSurrogates(s)
    ensures i < |s| && IsSurrogate(s[i])
    ensures forall j :: 0 <= j < i ==> !IsSurrogate(s[j])
  {
    if IsSurrogate(s[0]) then 0 else 1 + FirstSurrogate(s[1..])
  }

  /** One past the end of the run of surrogates starting at `i`: the span the error reports. */
  function SurrogateRunEnd(s: PyStr, i: nat): (j: nat)
    requires i < |s| && IsSurrogate(s[i])
    ensures i < j <= |s|
    ensures forall k :: i <= k < j ==> IsSurrogate(s[k])
    ensures j < |s| ==> !IsSurrogate(s[j])
    decreases |s| - i
  {
    if i + 1 < |s| && IsSurrogate(s[i + 1]) then SurrogateRunEnd(s, i + 1) else i + 1
  }

  /** Four lower-case hexadecimal digits, as in a `\u` escape. */
  function Hex4(c: CodePoint): (r: PyStr)
    requires c < 0x1_0000
    ensures |r| == 4
  {
    [HexDigit(c / 0x1000), HexDigit(c / 0x100 % 16), HexDigit(c / 0x10 % 16), HexDigit(c % 16)]
  }

  /** `str(e)` for the UnicodeEncodeError that `s.encode("utf-8")` raises. */
  function EncodeErrorMessage(s: PyStr): (r: PyStr)
    requires !NoSurrogates(s)
    ensures |r| >= 24 && r[|r| - 24..] == Lit(": surrogates not allowed")
  {
    var i := FirstSurrogate(s);
    var j := SurrogateRunEnd(s, i);
    if j == i + 1 then
      Lit("'utf-8' codec can't encode character '\\u") + Hex4(s[i]) + Lit("' in position ")
      + Decimal(i) + Lit(": surrogates not allowed")
    else
      Lit("'utf-8' codec can't encode characters in position ") + Decimal(i) + Lit("-")
      + Decimal(j - 1) + Lit(": surrogates not allowed")
  }

  /**
    The two wordings CPython gives: one lone surrogate is named by its
    `\u` escape and position, a run of them by the positions of its ends.
  */
  lemma EncodeErrorMessages()
    ensures !NoSurrogates([0x61, 0xD800]) && EncodeErrorMessage([0x61, 0xD800])
      == Lit("'utf-8' codec can't encode character '\\u") + Lit("d800")
         + Lit("' in position ") + Lit("1") + Lit(": surrogates not allowed")
    ensures !NoSurrogates([0xDC80, 0xDCFF, 0x61]) && EncodeErrorMessage([0xDC80, 0xDCFF, 0x61])
      == Lit("'utf-8' codec can't encode characters in position ") + Lit("0")
         + Lit("-") + Lit("1") + Lit(": surrogates not allowed")
  {
    var s: PyStr := [0x61, 0xD800];
    assert IsSurrogate(s[1]);
    assert FirstSurrogate(s) == 1;
    assert SurrogateRunEnd(s, 1) == 2;
    HexOfD800();
    assert Decimal(1) == Lit("1");
    var u: PyStr := [0xDC80, 0xDCFF, 0x61];
    assert IsSurrogate(u[0]);
    assert FirstSurrogate(u) == 0;
    assert SurrogateRunEnd(u, 0) == 2;
    assert Decimal(0) == Lit("0");
  }

  lemma HexOfD800()
    ensures Hex4(0xD800) == Lit("d800")
  {
  }

  /**
    The first character of `b` per the well-formed table of RFC 3629,
    section 4, with the number of bytes it takes; `None` if `b` does not
    start with a well-formed sequence.
  */
  function DecodeFirst(b: seq<Byte>): (r: Option<(CodePoint, nat)>)
    requires |b| > 0
    ensures r.Some? ==> 1 <= r.value.1 <= |b|
  {
    var b0 := b[0] as int;
    if b0 < 0x80 then Some((b0, 1))
    else if 0xC2 <= b0 <= 0xDF then
      if |b| >= 2 && IsContinuation(b[1])
      then Some(((b0 - 0xC0) * 0x40 + (b[1] as int - 0x80), 2))
      else None
    else if 0xE0 <= b0 <= 0xEF then
      var lo := if b0 == 0xE0 then 0xA0 else 0x80;
      var hi := if b0 == 0xED then 0x9F else 0xBF;
      if |b| >= 3 && lo <= b[1] <= hi && IsContinuation(b[2])
      then Some(((b0 - 0xE0) * 0x1000 + (b[1] as int - 0x80) * 0x40 + (b[2] as int - 0x80), 3))
      else None
    else if 0xF0 <= b0 <= 0xF4 then
      var lo := if b0 == 0xF0 then 0x90 else 0x80;
      var hi := if b0 == 0xF4 then 0x8F else 0xBF;
      if |b| >= 4 && lo <= b[1] <= hi && IsContinuation(b[2]) && IsContinuation(b[3])
      then Some(((b0 - 0xF0) * 0x4_0000 + (b[1] as int - 0x80) * 0x1000
                 + (b[2] as int - 0x80) * 0x40 + (b[3] as int - 0x80), 4))
      else None
    else None
  }

  /** `bytes.decode("utf-8")`: `None` stands for the UnicodeDecodeError. */
  function Decode(b: seq<Byte>): Option<PyStr>
    decreases |b|
  {
    if |b| == 0 then Some([])
    else
      match DecodeFirst(b)
      case None => None
      case Some((c, n)) =>
        match Decode(b[n..])
        case None => None
        case Some(rest) => Some([c] + rest)
  }

  predicate IsValid(b: seq<Byte>) {
    Decode(b).Some?
  }

  /** Division by 64 undoes a 6-bit shift: the arithmetic step behind every continuation byte. */
  lemma DivMod64(q: int, d: int)
    requires 0 <= d < 0x40
    ensures (q * 0x40 + d) / 0x40 == q && (q * 0x40 + d) % 0x40 == d
  {
  }

  lemma DecodeFirstOfEncoded2(c: CodePoint, rest: seq<Byte>)
    requires 0x80 <= c < 0x800
    ensures DecodeFirst(EncodeCodePoint(c) + rest) == Some((c, 2))
  {
    var b := EncodeCodePoint(c) + rest;
    assert b[0] == 0xC0 + c / 0x40 && b[1] == 0x80 + c % 0x40;
  }

  lemma DecodeFirstOfEncoded3(c: CodePoint, rest: seq<Byte>)
    requires 0x800 <= c < 0x1_0000 && !IsSurrogate(c)
    ensures DecodeFirst(EncodeCodePoint(c) + rest) == Some((c, 3))
  {
    var b := EncodeCodePoint(c) + rest;
    var q1, d0 := c / 0x40, c % 0x40;
    var q2, d1 := q1 / 0x40, q1 % 0x40;
    assert c == q1 * 0x40 + d0 && q1 == q2 * 0x40 + d1;
    assert b[0] == 0xE0 + q2 && b[1] == 0x80 + d1 && b[2] == 0x80 + d0;
    assert q2 == 0 ==> d1 >= 0x20;
    assert q2 == 0xD ==> d1 < 0x20;
  }

  lemma DecodeFirstOfEncoded4(c: CodePoint, rest: seq<Byte>)
    requires 0x1_0000 <= c
    ensures DecodeFirst(EncodeCodePoint(c) + rest) == Some((c, 4))
  {
    var b := EncodeCodePoint(c) + rest;
    var q1, d0 := c / 0x40, c % 0x40;
    var q2, d1 := q1 / 0x40, q1 % 0x40;
    var q3, d2 := q2 / 0x40, q2 % 0x40;
    assert c == q1 * 0x40 + d0 && q1 == q2 * 0x40 + d1 && q2 == q3 * 0x40 + d2;
    assert b[0] == 0xF0 + q3 && b[1] == 0x80 + d2 && b[2] == 0x80 + d1 && b[3] == 0x80 + d0;
    assert q3 == 0 ==> d2 >= 0x10;
    assert q3 == 4 ==> d2 < 0x10;
  }

  /** Decoding the UTF-8 form of a scalar value yields it back, whatever follows. */
  lemma DecodeFirstOfEncoded(c: CodePoint, rest: seq<Byte>)
    requires !IsSurrogate(c)
    ensures DecodeFirst(EncodeCodePoint(c) + rest) == Some((c, Width(c)))
  {
    if c < 0x80 {
    } else if c < 0x800 {
      DecodeFirstOfEncoded2(c, rest);
    } else if c < 0x1_0000 {
      DecodeFirstOfEncoded3(c, rest);
    } else {
      DecodeFirstOfEncoded4(c, rest);
    }
  }

  lemma EncodeOfTwoBytes(b0: Byte, b1: Byte)
    requires 0xC2 <= b0 <= 0xDF && IsContinuation(b1)
    ensures var c := (b0 - 0xC0) * 0x40 + (b1 - 0x80);
      0x80 <= c < 0x800 && EncodeCodePoint(c) == [b0, b1]
  {
    DivMod64(b0 - 0xC0, b1 - 0x80);
  }

  lemma EncodeOfThreeBytes(b0: Byte, b1: Byte, b2: Byte)
    requires 0xE0 <= b0 <= 0xEF && IsContinuation(b1) && IsContinuation(b2)
    requires b0 == 0xE0 ==> 0xA0 <= b1
    requires b0 == 0xED ==> b1 <= 0x9F
    ensures var c := (b0 - 0xE0) * 0x1000 + (b1 - 0x80) * 0x40 + (b2 - 0x80);
      0x800 <= c < 0x1_0000 && !IsSurrogate(c) && EncodeCodePoint(c) == [b0, b1, b2]
  {
    var q1 := (b0 - 0xE0) * 0x40 + (b1 - 0x80);
    var c := q1 * 0x40 + (b2 - 0x80);
    DivMod64(q1, b2 - 0x80);
    DivMod64(b0 - 0xE0, b1 - 0x80);
    assert c == (b0 - 0xE0) * 0x1000 + (b1 - 0x80) * 0x40 + (b2 - 0x80);
  }

  lemma EncodeOfFourBytes(b0: Byte, b1: Byte, b2: Byte, b3: Byte)
    requires 0xF0 <= b0 <= 0xF4 && IsContinuation(b1) && IsContinuation(b2) && IsContinuation(b3)
    requires b0 == 0xF0 ==> 0x90 <= b1
    requires b0 == 0xF4 ==> b1 <= 0x8F
    ensures var c := (b0 - 0xF0) * 0x4_0000 + (b1 - 0x80) * 0x1000 + (b2 - 0x80) * 0x40 + (b3 - 0x80);
      0x1_0000 <= c && !IsSurrogate(c) && EncodeCodePoint(c) == [b0, b1, b2, b3]
  {
    var q2 := (b0 - 0xF0) * 0x40 + (b1 - 0x80);
    var q1 := q2 * 0x40 + (b2 - 0x80);
    var c := q1 * 0x40 + (b3 - 0x80);
    DivMod64(q1, b3 - 0x80);
    DivMod64(q2, b2 - 0x80);
    DivMod64(b0 - 0xF0, b1 - 0x80);
    assert c == (b0 - 0xF0) * 0x4_0000 + (b1 - 0x80) * 0x1000 + (b2 - 0x80) * 0x40 + (b3 - 0x80);
  }

  /** Every well-formed sequence the decoder accepts is the UTF-8 form of what it yields. */
  lemma EncodedOfDecodeFirst(b: seq<Byte>)
    requires |b| > 0 && DecodeFirst(b).Some?
    ensures !IsSurrogate(DecodeFirst(b).value.0)
    ensures b[..DecodeFirst(b).value.1] == EncodeCodePoint(DecodeFirst(b).value.0)
  {
    var n := DecodeFirst(b).value.1;
    if n == 2 {
      EncodeOfTwoBytes(b[0], b[1]);
      assert b[..2] == [b[0], b[1]];
    } else if n == 3 {
      EncodeOfThreeBytes(b[0], b[1], b[2]);
      assert b[..3] == [b[0], b[1], b[2]];
    } else if n == 4 {
      EncodeOfFourBytes(b[0], b[1], b[2], b[3]);
      assert b[..4] == [b[0], b[1], b[2], b[3]];
    }
  }

  /** Text without lone surrogates survives encoding then decoding. */
  lemma {:induction false} DecodeOfEncode(s: PyStr)
    requires NoSurrogates(s)
    ensures Decode(Encode(s).value) == Some(s)
  {
    if |s| > 0 {
      var e := EncodeCodePoint(s[0]);
      var rest := Encode(s[1..]).value;
      DecodeOfEncode(s[1..]);
      DecodeFirstOfEncoded(s[0], rest);
      assert (e + rest)[|e|..] == rest;
      assert [s[0]] + s[1..] == s;
    }
  }

  /** Encoding a text is encoding its first code point, then the rest. */
  lemma EncodeCons(c: CodePoint, rest: PyStr)
    requires !IsSurrogate(c) && Encode(rest).Some?
    ensures Encode([c] + rest) == Some(EncodeCodePoint(c) + Encode(rest).value)
  {
    assert ([c] + rest)[1..] == rest;
  }

  /** Valid bytes decode to their first character followed by the decoding of what comes after it. */
  lemma DecodeCons(b: seq<Byte>)
    requires |b| > 0 && IsValid(b)
    ensures DecodeFirst(b).Some? && IsValid(b[DecodeFirst(b).value.1..])
    ensures Decode(b).value == [DecodeFirst(b).value.0] + Decode(b[DecodeFirst(b).value.1..]).value
  {
  }

  /** Bytes that decode survive decoding then encoding: the decoder loses nothing. */
  lemma {:induction false} EncodeOfDecode(b: seq<Byte>)
    requires IsValid(b)
    ensures Encode(Decode(b).value) == Some(b)
    decreases |b|
  {
    if |b| > 0 {
      DecodeCons(b);
      var c := DecodeFirst(b).value.0;
      var n := DecodeFirst(b).value.1;
      EncodedOfDecodeFirst(b);
      EncodeOfDecode(b[n..]);
      EncodeStep(b, c, n, Decode(b[n..]).value);
    }
  }

  /** The inductive step: the encoded first character, then the encoded rest, is the whole. */
  lemma EncodeStep(b: seq<Byte>, c: CodePoint, n: nat, rest: PyStr)
    requires n <= |b| && !IsSurrogate(c)
    requires b[..n] == EncodeCodePoint(c) && Encode(rest) == Some(b[n..])
    ensures Encode([c] + rest) == Some(b)
  {
    EncodeCons(c, rest);
    var e := EncodeCodePoint(c) + Encode(rest).value;
    assert e == b[..n] + b[n..];
    assert b[..n] + b[n..] == b;
  }

  /** ASCII bytes are their own UTF-8 decoding. */
  lemma {:induction false} AsciiDecodes(b: seq<Byte>)
    requires forall i :: 0 <= i < |b| ==> b[i] < 0x80
    ensures Decode(b) == Some(b)
  {
    if |b| > 0 {
      AsciiDecodes(b[1..]);
      assert [b[0]] + b[1..] == b;
    }
  }

  /** Every character of the decoding takes at least one byte. */
  lemma {:induction false} DecodeNotLonger(b: seq<Byte>)
    requires IsValid(b)
    ensures |Decode(b).value| <= |b|
    decreases |b|
  {
    if |b| > 0 {
      DecodeCons(b);
      DecodeNotLonger(b[DecodeFirst(b).value.1..]);
    }
  }

  /** Encoding is one-to-one: the UTF-8 form determines the text. */
  lemma EncodeInjective(s: PyStr, t: PyStr)
    requires Encode(s).Some? && Encode(s) == Encode(t)
    ensures s == t
  {
    DecodeOfEncode(s);
    DecodeOfEncode(t);
  }
}
