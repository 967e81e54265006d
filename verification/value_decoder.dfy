/**
  `RedisValueDecoder` with its default "utf-8" encoder: turns what a Redis
  client returns into display text, and turns edited display text back into
  what Redis should store.
*/
module RedisValueDecoder {
  import opened Common
  import Utf8
  import BytesLiteral

  /** The Python values the decoder is handed. `Other` is any further type, carried as its `str()`. */
  datatype PyValue = NoneValue | Text(text: PyStr) | Bytes(bytes: seq<Byte>) | Other(str: PyStr)

  /** `decode_value`: `None` stays `None`, text passes, bytes become UTF-8 text or their `repr`. */
  function DecodeValue(v: PyValue): (r: Option<PyStr>)
    ensures r.None? <==> v.NoneValue?
    ensures v.Text? ==> r == Some(v.text)
    ensures v.Bytes? && Utf8.IsValid(v.bytes) ==> Utf8.Encode(r.value) == Some(v.bytes)
    ensures v.Bytes? && !Utf8.IsValid(v.bytes) ==> BytesLiteral.ParseBytesLiteral(r.value) == Some(v.bytes)
    ensures v.Bytes? && !Utf8.IsValid(v.bytes) ==> r == Some(BytesLiteral.Repr(v.bytes))
  {
    match v
    case NoneValue => None
    case Text(t) => Some(t)
    case Bytes(b) =>
      (match Utf8.Decode(b)
       case Some(t) => Utf8.EncodeOfDecode(b); Some(t)
       case None => BytesLiteral.ParseRepr(b); Some(BytesLiteral.Repr(b)))
    case Other(s) => Some(s)
  }

  /** The display text of bytes that are not UTF-8 is shaped like a bytes literal. */
  lemma BinaryShownAsLiteral(b: seq<Byte>)
    requires !Utf8.IsValid(b)
    ensures LooksLikeBytesLiteral(DecodeValue(Bytes(b)).value)
    ensures DecodeValue(Bytes(b)).value[1] == BytesLiteral.QuoteFor(b)
  {
  }

  /** `decode_list`: element-wise, same length and order. */
  function DecodeList(vs: seq<PyValue>): (r: seq<Option<PyStr>>)
    ensures |r| == |vs|
    ensures forall i :: 0 <= i < |vs| ==> r[i] == DecodeValue(vs[i])
  {
    if |vs| == 0 then [] else [DecodeValue(vs[0])] + DecodeList(vs[1..])
  }

  /** `decode_zset_list`: members decoded, scores untouched, order kept. */
  function DecodeZsetList<S>(vs: seq<(PyValue, S)>): (r: seq<(Option<PyStr>, S)>)
    ensures |r| == |vs|
    ensures forall i :: 0 <= i < |vs| ==> r[i].0 == DecodeValue(vs[i].0) && r[i].1 == vs[i].1
  {
    if |vs| == 0 then [] else [(DecodeValue(vs[0].0), vs[0].1)] + DecodeZsetList(vs[1..])
  }

  // ---------------------------------------------------------------------
  // decode_dict: Python dicts keep insertion order, a repeated key keeps its
  // first position and takes the last value written.
  // ---------------------------------------------------------------------

  /** A Python dict as its items in insertion order. */
  type Items<K, V> = seq<(K, V)>

  ghost predicate DistinctKeys<K, V>(d: Items<K, V>) {
    forall i, j :: 0 <= i < j < |d| ==> d[i].0 != d[j].0
  }

  /** `d.get(k)` */
  function Lookup<K(==), V>(d: Items<K, V>, k: K): Option<V> {
    if |d| == 0 then None else if d[0].0 == k then Some(d[0].1) else Lookup(d[1..], k)
  }

  /** `d[k] = v` */
  function Assign<K(==), V>(d: Items<K, V>, k: K, v: V): Items<K, V> {
    if |d| == 0 then [(k, v)]
    else if d[0].0 == k then [(k, v)] + d[1..]
    else [d[0]] + Assign(d[1..], k, v)
  }

  lemma LookupSome<K, V>(d: Items<K, V>, k: K)
    requires Lookup(d, k).Some?
    ensures exists i :: 0 <= i < |d| && d[i].0 == k
  {
    if d[0].0 != k {
      LookupSome(d[1..], k);
      var i :| 0 <= i < |d[1..]| && d[1..][i].0 == k;
      assert d[i + 1].0 == k;
    }
  }

  lemma LookupAt<K, V>(d: Items<K, V>, i: nat)
    requires i < |d| && DistinctKeys(d)
    ensures Lookup(d, d[i].0) == Some(d[i].1)
  {
    if i > 0 {
      LookupAt(d[1..], i - 1);
    }
  }

  /** Assignment writes one key and leaves every other key's value alone. */
  lemma {:induction false} AssignLookup<K, V>(d: Items<K, V>, k: K, v: V, k': K)
    ensures Lookup(Assign(d, k, v), k') == if k' == k then Some(v) else Lookup(d, k')
  {
    if |d| > 0 && d[0].0 != k {
      AssignLookup(d[1..], k, v, k');
    }
  }

  /** Assignment keeps the keys already present, in their positions. */
  lemma {:induction false} AssignKeepsOrder<K, V>(d: Items<K, V>, k: K, v: V)
    ensures |Assign(d, k, v)| == (if Lookup(d, k).Some? then |d| else |d| + 1)
    ensures forall i :: 0 <= i < |d| ==> Assign(d, k, v)[i].0 == d[i].0
  {
    if |d| > 0 && d[0].0 != k {
      AssignKeepsOrder(d[1..], k, v);
      var d' := Assign(d, k, v);
      assert d'[1..] == Assign(d[1..], k, v);
      forall i | 0 < i < |d| ensures d'[i].0 == d[i].0 {
        assert d'[i].0 == Assign(d[1..], k, v)[i - 1].0;
      }
    }
  }

  lemma {:induction false} AssignDistinct<K, V>(d: Items<K, V>, k: K, v: V)
    requires DistinctKeys(d)
    ensures DistinctKeys(Assign(d, k, v))
  {
    if |d| > 0 && d[0].0 != k {
      AssignDistinct(d[1..], k, v);
      var d' := Assign(d, k, v);
      assert d'[1..] == Assign(d[1..], k, v);
      forall j | 0 < j < |d'| ensures d'[j].0 != d[0].0 {
        var k' := d'[j].0;
        LookupAt(Assign(d[1..], k, v), j - 1);
        AssignLookup(d[1..], k, v, k');
        if k' != k {
          LookupSome(d[1..], k');
          var m :| 0 <= m < |d[1..]| && d[1..][m].0 == k';
          assert d[m + 1].0 == k';
        }
      }
    }
  }

  /** Assignment writes one key and keeps every other entry, and the key order. */
  lemma AssignSpec<K, V>(d: Items<K, V>, k: K, v: V)
    requires DistinctKeys(d)
    ensures var d' := Assign(d, k, v);
      && DistinctKeys(d')
      && |d'| == (if Lookup(d, k).Some? then |d| else |d| + 1)
      && (forall i :: 0 <= i < |d| ==> d'[i].0 == d[i].0)
      && (forall k' :: Lookup(d', k') == if k' == k then Some(v) else Lookup(d, k'))
  {
    AssignDistinct(d, k, v);
    AssignKeepsOrder(d, k, v);
    forall k' ensures Lookup(Assign(d, k, v), k') == if k' == k then Some(v) else Lookup(d, k') {
      AssignLookup(d, k, v, k');
    }
  }

  /** The decoded key and value of item `i`. */
  function DecodedKey(items: Items<PyValue, PyValue>, i: nat): Option<PyStr>
    requires i < |items|
  {
    DecodeValue(items[i].0)
  }

  /** `decode_dict`: the comprehension writes the decoded items in order. */
  function DecodeDict(items: Items<PyValue, PyValue>): (r: Items<Option<PyStr>, Option<PyStr>>)
    ensures DistinctKeys(r)
    ensures |r| <= |items|
  {
    if |items| == 0 then []
    else
      var last := items[|items| - 1];
      var prev := DecodeDict(items[..|items| - 1]);
      AssignSpec(prev, DecodeValue(last.0), DecodeValue(last.1));
      Assign(prev, DecodeValue(last.0), DecodeValue(last.1))
  }

  /** A text is a key of the result exactly when some item's key decodes to it. */
  lemma {:induction false} DecodeDictKeys(items: Items<PyValue, PyValue>, k: Option<PyStr>)
    ensures Lookup(DecodeDict(items), k).Some? <==> exists i :: 0 <= i < |items| && DecodedKey(items, i) == k
  {
    if |items| > 0 {
      var n := |items| - 1;
      var init := items[..n];
      var newKey := DecodedKey(items, n);
      assert DecodeDict(items) == Assign(DecodeDict(init), newKey, DecodeValue(items[n].1));
      AssignLookup(DecodeDict(init), newKey, DecodeValue(items[n].1), k);
      if k != newKey {
        DecodeDictKeys(init, k);
        if exists i :: 0 <= i < |init| && DecodedKey(init, i) == k {
          var i :| 0 <= i < |init| && DecodedKey(init, i) == k;
          assert DecodedKey(items, i) == k;
        }
        if exists i :: 0 <= i < |items| && DecodedKey(items, i) == k {
          var i :| 0 <= i < |items| && DecodedKey(items, i) == k;
          assert i < n && DecodedKey(init, i) == k;
        }
      }
    }
  }

  /** The value kept for a key is the decoded value of the last item whose key decodes to it. */
  lemma {:induction false} DecodeDictLastWins(items: Items<PyValue, PyValue>, i: nat)
    requires i < |items|
    requires forall j :: i < j < |items| ==> DecodedKey(items, j) != DecodedKey(items, i)
    ensures Lookup(DecodeDict(items), DecodedKey(items, i)) == Some(DecodeValue(items[i].1))
  {
    var n := |items| - 1;
    var init := items[..n];
    var newKey := DecodedKey(items, n);
    assert DecodeDict(items) == Assign(DecodeDict(init), newKey, DecodeValue(items[n].1));
    AssignLookup(DecodeDict(init), newKey, DecodeValue(items[n].1), DecodedKey(items, i));
    if i < n {
      assert init[i] == items[i];
      forall j | i < j < |init| ensures DecodedKey(init, j) != DecodedKey(init, i) {
        assert DecodedKey(init, j) == DecodedKey(items, j);
      }
      DecodeDictLastWins(init, i);
    }
  }

  ghost predicate DecodedKeysDistinct(items: Items<PyValue, PyValue>) {
    forall i, j :: 0 <= i < j < |items| ==> DecodedKey(items, i) != DecodedKey(items, j)
  }

  /** Without collisions of decoded keys, every item maps to its decoded pair, in order. */
  lemma {:induction false} DecodeDictNoCollision(items: Items<PyValue, PyValue>)
    requires DecodedKeysDistinct(items)
    ensures |DecodeDict(items)| == |items|
    ensures forall i :: 0 <= i < |items| ==>
      DecodeDict(items)[i] == (DecodeValue(items[i].0), DecodeValue(items[i].1))
  {
    if |items| > 0 {
      var n := |items| - 1;
      var init := items[..n];
      assert DecodedKeysDistinct(init) by {
        forall i, j | 0 <= i < j < |init| ensures DecodedKey(init, i) != DecodedKey(init, j) {
          assert DecodedKey(init, i) == DecodedKey(items, i) && DecodedKey(init, j) == DecodedKey(items, j);
        }
      }
      DecodeDictNoCollision(init);
      var prev := DecodeDict(init);
      var k := DecodeValue(items[n].0);
      assert Lookup(prev, k).None? by {
        DecodeDictKeys(init, k);
        assert k == DecodedKey(items, n);
        forall i | 0 <= i < |init| ensures DecodedKey(init, i) != k {
          assert DecodedKey(init, i) == DecodedKey(items, i);
        }
      }
      AssignAppends(prev, k, DecodeValue(items[n].1));
    }
  }

  /** Assigning a new key appends it. */
  lemma {:induction false} AssignAppends<K, V>(d: Items<K, V>, k: K, v: V)
    requires Lookup(d, k).None?
    ensures Assign(d, k, v) == d + [(k, v)]
  {
    if |d| > 0 {
      AssignAppends(d[1..], k, v);
      assert d == [d[0]] + d[1..];
    }
  }

  /**
    Two hash fields that decode to the same text collapse: the raw byte 0x80
    is shown as its repr `b'\x80'`, and the ASCII bytes of that repr decode
    to the same text.
  */
  lemma DecodeDictCanCollapse()
    ensures var shown := BytesLiteral.Repr([0x80]);
      var items := [(Bytes([0x80]), Text(Lit("x"))), (Bytes(shown), Text(Lit("y")))];
      |DecodeDict(items)| == 1 < |items|
  {
    var shown := BytesLiteral.Repr([0x80]);
    var items := [(Bytes([0x80]), Text(Lit("x"))), (Bytes(shown), Text(Lit("y")))];
    assert !Utf8.IsValid([0x80]);
    Utf8.AsciiDecodes(shown);
    assert DecodedKey(items, 0) == DecodedKey(items, 1);
    assert items[..1][..0] == [];
    assert DecodeDict(items[..1]) == [(DecodedKey(items, 0), Some(Lit("x")))];
  }

  // ---------------------------------------------------------------------
  // encode_for_redis
  // ---------------------------------------------------------------------

  predicate StartsWith(t: PyStr, prefix: PyStr) {
    |prefix| <= |t| && t[..|prefix|] == prefix
  }

  predicate EndsWith(t: PyStr, suffix: PyStr) {
    |suffix| <= |t| && t[|t| - |suffix|..] == suffix
  }

  /** The shape test: starts with b' and ends with ', or starts with b" and ends with ". */
  predicate LooksLikeBytesLiteral(t: PyStr) {
    || (StartsWith(t, Lit("b'")) && EndsWith(t, Lit("'")))
    || (StartsWith(t, Lit("b\"")) && EndsWith(t, Lit("\"")))
  }

  /**
    `encode_for_redis`: text shaped like a bytes literal is evaluated as one
    (and kept as it is when that fails); other text is UTF-8 encoded (and
    kept as it is when that fails); anything that is not text is returned
    unchanged.
  */
  function EncodeForRedis(v: PyValue): (r: PyValue)
    ensures !v.Text? ==> r == v
    ensures r.Bytes? || r == v
    ensures v.Text? && !LooksLikeBytesLiteral(v.text) ==>
      (r.Bytes? <==> Utf8.NoSurrogates(v.text)) && (r.Bytes? ==> Utf8.Decode(r.bytes) == Some(v.text))
    ensures v.Text? && LooksLikeBytesLiteral(v.text) ==>
      (r.Bytes? <==> BytesLiteral.ParseBytesLiteral(v.text).Some?)
      && (r.Bytes? ==> BytesLiteral.ParseBytesLiteral(v.text) == Some(r.bytes))
  {
    match v
    case Text(t) =>
      if LooksLikeBytesLiteral(t) then
        (match BytesLiteral.ParseBytesLiteral(t)
         case Some(b) => Bytes(b)
         case None => v)
      else
        (match Utf8.Encode(t)
         case Some(b) => Utf8.DecodeOfEncode(t); Bytes(b)
         case None => v)
    case _ => v
  }

  /** A literal-shaped text that does not parse comes back as itself, never half converted. */
  lemma UnparsableLiteralKept(t: PyStr)
    requires LooksLikeBytesLiteral(t) && BytesLiteral.ParseBytesLiteral(t).None?
    ensures EncodeForRedis(Text(t)) == Text(t)
  {
  }

  /** The promise of the docstring: bytes that are not UTF-8 survive display and re-encoding. */
  lemma BinaryRoundTrip(b: seq<Byte>)
    requires !Utf8.IsValid(b)
    ensures EncodeForRedis(Text(DecodeValue(Bytes(b)).value)) == Bytes(b)
  {
    BinaryShownAsLiteral(b);
    BytesLiteral.ParseRepr(b);
  }

  /** UTF-8 bytes whose text does not look like a bytes literal survive display and re-encoding. */
  lemma TextRoundTrip(b: seq<Byte>)
    requires Utf8.IsValid(b) && !LooksLikeBytesLiteral(Utf8.Decode(b).value)
    ensures EncodeForRedis(Text(DecodeValue(Bytes(b)).value)) == Bytes(b)
  {
    Utf8.EncodeOfDecode(b);
  }

  /**
    UTF-8 bytes whose text looks like a bytes literal never come back: the
    literal denotes fewer bytes than the text has characters, and the text
    has no more characters than the bytes it was decoded from.
  */
  lemma LiteralShapedTextChanged(b: seq<Byte>)
    requires Utf8.IsValid(b) && LooksLikeBytesLiteral(Utf8.Decode(b).value)
    ensures EncodeForRedis(Text(DecodeValue(Bytes(b)).value)) != Bytes(b)
  {
    var t := Utf8.Decode(b).value;
    assert DecodeValue(Bytes(b)) == Some(t);
    Utf8.DecodeNotLonger(b);
    if BytesLiteral.ParseBytesLiteral(t).Some? {
      BytesLiteral.ParseBytesLiteralShorter(t);
    }
  }

  /** A bytes value round-trips exactly when it is not UTF-8 whose text itself looks like a bytes literal. */
  lemma RoundTrip(b: seq<Byte>)
    ensures EncodeForRedis(Text(DecodeValue(Bytes(b)).value)) == Bytes(b)
      <==> !(Utf8.IsValid(b) && LooksLikeBytesLiteral(Utf8.Decode(b).value))
  {
    if !Utf8.IsValid(b) {
      BinaryRoundTrip(b);
    } else if LooksLikeBytesLiteral(Utf8.Decode(b).value) {
      LiteralShapedTextChanged(b);
    } else {
      TextRoundTrip(b);
    }
  }

  /**
    The exception is real: the seven ASCII bytes of the text b'\x41' are
    valid UTF-8, display as that text, and are stored back as the single byte A.
  */
  lemma LiteralShapedTextNotRestored()
    ensures var b: seq<Byte> := [0x62, 0x27, 0x5C, 0x78, 0x34, 0x31, 0x27];
      && Utf8.IsValid(b)
      && EncodeForRedis(Text(DecodeValue(Bytes(b)).value)) == Bytes([0x41])
  {
    var b: seq<Byte> := [0x62, 0x27, 0x5C, 0x78, 0x34, 0x31, 0x27];
    Utf8.AsciiDecodes(b);
    assert DecodeValue(Bytes(b)) == Some(b);
    assert LooksLikeBytesLiteral(b) by {
      assert b[..2] == Lit("b'") && b[6..] == Lit("'");
    }
    HexEscapeLiteral();
    ParsedLiteralStored(b, [0x41]);
  }

  lemma ParsedLiteralStored(t: PyStr, p: seq<Byte>)
    requires LooksLikeBytesLiteral(t) && BytesLiteral.ParseBytesLiteral(t) == Some(p)
    ensures EncodeForRedis(Text(t)) == Bytes(p)
  {
  }

  lemma HexEscapeLiteral()
    ensures BytesLiteral.ParseBytesLiteral([0x62, 0x27, 0x5C, 0x78, 0x34, 0x31, 0x27]) == Some([0x41])
  {
    var b: seq<CodePoint> := [0x62, 0x27, 0x5C, 0x78, 0x34, 0x31, 0x27];
    var body := b[2..];
    assert body[4..] == [0x27];
    assert BytesLiteral.ParseBody(body[4..], 0x27) == Some([]);
    assert BytesLiteral.HexValue(body[2]) == Some(4) && BytesLiteral.HexValue(body[3]) == Some(1);
    BytesLiteral.ParseHexStep(body, 0x27);
    assert BytesLiteral.ParseBody(body, 0x27) == BytesLiteral.Prepend([0x41], Some([]));
    assert [0x41] + [] == [0x41];
    assert b[0] == BytesLiteral.LetterB && b[1] == BytesLiteral.SingleQuote;
    assert BytesLiteral.ParseBytesLiteral(b) == BytesLiteral.ParseBody(body, 0x27);
  }

  /** Text without surrogates that does not look like a bytes literal survives encoding then display. */
  lemma EncodedTextRoundTrip(t: PyStr)
    requires Utf8.NoSurrogates(t) && !LooksLikeBytesLiteral(t)
    ensures DecodeValue(EncodeForRedis(Text(t))) == Some(t)
  {
    Utf8.DecodeOfEncode(t);
  }
}
