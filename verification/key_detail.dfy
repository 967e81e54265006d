/**
  The key detail page (`key_detail` in dj_redis_panel/views.py): the record
  shown for one key, and the three form actions that change it: a new
  string value, a new time to live, deletion.
*/
module KeyDetail {
  import opened Common
  import opened RedisStore
  import PyInt
  import Utf8

  /** What the page shows for a key. `value` is `None` for the types the page does not read. */
  datatype KeyRecord = KeyRecord(name: Key, keyType: PyStr, ttl: Option<nat>, size: nat, value: Option<Value>)

  predicate IsCollectionName(t: PyStr) {
    t == ListName() || t == SetName() || t == ZSetName() || t == HashName()
  }

  /**
    TYPE and TTL, then the value and its size by type: GET (empty when
    missing) and its UTF-8 byte length for a string, the whole collection
    and its count for a list, set, sorted set or hash, nothing for any other
    type. Any raising command aborts the read.
  */
  function ReadRecord(db: Database, k: Key): Reply<KeyRecord> {
    var keyType :- Type(db, k);
    var ttl :- Ttl(db, k);
    if keyType == StringName() then
      var text :- Get(db, k);
      var shown := if text.Some? then text.value else [];
      var bytes :- EncodeUtf8(shown);
      Ok(KeyRecord(k, keyType, ShownTtl(ttl), |bytes|, Some(StringValue(shown))))
    else if IsCollectionName(keyType) then
      var value :- ReadCollection(db, k, keyType);
      var size :- SizeOf(db, k, keyType);
      Ok(KeyRecord(k, keyType, ShownTtl(ttl), size, Some(value)))
    else
      Ok(KeyRecord(k, keyType, ShownTtl(ttl), 0, None))
  }

  /**
    A present key whose record the page can read: no command on it raises,
    its content transfers if the page reads it, and a string's text encodes.
  */
  predicate Readable(db: Database, k: Key) {
    && k !in db.failures && k in db.entries
    && WellTyped(db.entries[k].value)
    && (k in db.contentFailures ==> db.entries[k].value.OtherValue?)
    && (db.entries[k].value.StringValue? ==> Utf8.NoSurrogates(db.entries[k].value.text))
  }

  /** The record of a readable, present key shows its type, value, size and positive time to live. */
  lemma ReadRecordOfEntry(db: Database, k: Key)
    requires Readable(db, k)
    ensures ReadRecord(db, k).Ok?
    ensures var rec := ReadRecord(db, k).value;
      var e := db.entries[k];
      && rec.name == k
      && rec.keyType == TypeName(e.value)
      && rec.size == Cardinality(e.value)
      && (rec.value.Some? <==> !e.value.OtherValue?)
      && (rec.value.Some? ==> rec.value.value == e.value)
      && (rec.ttl.Some? <==> e.expiry.Some? && e.expiry.value > 0)
      && (rec.ttl.Some? ==> rec.ttl == e.expiry)
  {
    ReservedNamesDistinct();
    SizeOfMatchesValue(db, k);
    var v := db.entries[k].value;
    if v.StringValue? {
      var text := v.text;
      assert Get(db, k) == Ok(Some(text));
    }
  }

  // ---------------------------------------------------------------------
  // The time-to-live form
  // ---------------------------------------------------------------------

  /** What the TTL field asks for. */
  datatype TtlRequest = RemoveTtl | SetTtl(seconds: nat) | NotPositive | NotANumber

  /**
    A blank field or exactly "-1" removes the time to live; otherwise the
    field is read with `int()`, and only a positive number is accepted.
  */
  function ClassifyTtl(input: PyStr): (r: TtlRequest)
    ensures r.RemoveTtl? <==> (forall i :: 0 <= i < |input| ==> PyInt.IsSpace(input[i])) || input == Lit("-1")
    ensures r.SetTtl? ==> r.seconds > 0 && PyInt.ParseInt(input) == Some(r.seconds as int)
    ensures !r.RemoveTtl? ==> (r.NotANumber? <==> PyInt.ParseInt(input).None?)
    ensures !r.RemoveTtl? ==> (r.NotPositive? <==> PyInt.ParseInt(input).Some? && PyInt.ParseInt(input).value <= 0)
  {
    PyInt.StripSpec(input);
    if |PyInt.Strip(input)| == 0 || input == Lit("-1") then RemoveTtl
    else
      match PyInt.ParseInt(input)
      case None => NotANumber
      case Some(n) => if n > 0 then SetTtl(n) else NotPositive
  }

  /** A positive number written in decimal asks for exactly that many seconds. */
  lemma ClassifyDecimal(n: nat)
    requires n > 0 && |Decimal(n)| <= PyInt.MaxStrDigits
    ensures ClassifyTtl(Decimal(n)) == SetTtl(n)
  {
    PyInt.ParseDecimal(n);
    assert !PyInt.IsSpace(Decimal(n)[0]);
    assert Decimal(n)[0] != '-' as int;
  }

  /** A negative number other than -1, written without spaces, is refused as not positive. */
  lemma ClassifyNegative(n: nat)
    requires n >= 2 && |Decimal(n)| <= PyInt.MaxStrDigits
    ensures ClassifyTtl(Lit("-") + Decimal(n)) == NotPositive
  {
    PyInt.ParseNegativeDecimal(n);
    var s := Lit("-") + Decimal(n);
    assert !PyInt.IsSpace(s[0]);
    if n < 10 {
      assert s[1] == DigitChar(n) != '1' as int;
    } else {
      assert |Decimal(n)| >= 2;
    }
    assert s != Lit("-1");
  }

  /** " -1" is not "-1": with spacing around it, -1 is read as a number and refused. */
  lemma SpacedMinusOneRefused()
    ensures ClassifyTtl(Lit(" -1")) == NotPositive
  {
    var s := Lit(" -1");
    assert s == [0x20, '-' as int, '1' as int];
    assert PyInt.StripStart(s, PyInt.IsIntSpace) == 1;
    assert PyInt.StripEnd(s, 1, PyInt.IsIntSpace) == 3;
    assert PyInt.IntStrip(s) == ['-' as int, '1' as int];
    assert PyInt.IntStrip(s)[1..] == ['1' as int];
    PyInt.ParsePlainDigits(['1' as int]);
    assert DigitsValue(['1' as int]) == 1;
    assert s != Lit("-1");
  }

  /** Zero, signed or not, is a number but not a positive one. */
  lemma ZeroRefused()
    ensures ClassifyTtl(Lit("0")) == NotPositive
    ensures ClassifyTtl(Lit("-0")) == NotPositive
    ensures ClassifyTtl(Lit("+0")) == NotPositive
  {
    UnsignedZeroRefused();
    SignedZeroRefused(Lit("-0"));
    SignedZeroRefused(Lit("+0"));
  }

  lemma UnsignedZeroRefused()
    ensures ClassifyTtl(Lit("0")) == NotPositive
  {
    var zero := ['0' as int];
    assert Lit("0") == zero;
    PyInt.StripOfDigits(zero);
    PyInt.ParsePlainDigits(zero);
    assert DigitsValue(zero) == 0;
    assert !PyInt.IsSpace(zero[0]);
  }

  lemma SignedZeroRefused(t: PyStr)
    requires |t| == 2 && t[0] in {'-' as int, '+' as int} && t[1] == '0' as int
    ensures ClassifyTtl(t) == NotPositive
  {
    PyInt.SignedZeroStripped(t);
    assert !PyInt.IsSpace(t[1]);
    assert t != Lit("-1") by { assert Lit("-1")[1] == '1' as int; }
  }

  /**
    The ASCII separators U+001C to U+001F count as white space for
    `str.strip()` but not for `int()`: such a field is not blank, and it is
    not a number either.
  */
  lemma SeparatorNotANumber()
    ensures ClassifyTtl([0x1C, '5' as int]) == NotANumber
  {
    var s := [0x1C, '5' as int];
    assert PyInt.StripStart(s, PyInt.IsIntSpace) == 0;
    assert PyInt.StripEnd(s, 0, PyInt.IsIntSpace) == 2;
    assert PyInt.IntStrip(s) == s;
    assert !PyInt.IsDigitRun(s);
    assert !PyInt.IsSpace(s[1]);
    assert s != Lit("-1");
  }

  // ---------------------------------------------------------------------
  // The page
  // ---------------------------------------------------------------------

  /** The form action posted with the request; `NoAction` for a plain GET or an unknown action. */
  datatype Action = NoAction | UpdateValue(newValue: PyStr) | UpdateTtl(newTtl: PyStr) | DeleteKey

  /** The page rendered, or the redirect to the search page that follows a deletion. */
  datatype Page = Detail(record: Option<KeyRecord>, error: Option<PyStr>, success: Option<PyStr>) | RedirectToSearch

  function NotFoundMessage(k: Key, dbNumber: nat): PyStr {
    Lit("Key '") + k + Lit("' not found in database ") + Decimal(dbNumber)
  }

  function NotEditableMessage(keyType: PyStr): PyStr {
    Lit("Direct editing not supported for ") + keyType + Lit(" keys")
  }

  function TtlSetMessage(seconds: nat): PyStr {
    Lit("TTL set to ") + Decimal(seconds) + Lit(" seconds")
  }

  const ValueUpdated: PyStr := Lit("Key value updated successfully")
  const TtlRemoved: PyStr := Lit("TTL removed (key will not expire)")
  const TtlNotPositive: PyStr := Lit("TTL must be a positive number")
  const TtlNotANumber: PyStr := Lit("TTL must be a valid number")

  /** The outcome of a write: the new page and database, or the page with the raised message and the database untouched. */
  function AfterWrite(write: Reply<Database>, db: Database, rec: KeyRecord, page: Page): (Page, Database) {
    match write
    case Raised(message) => (Detail(Some(rec), Some(message), None), db)
    case Ok(db') => (page, db')
  }

  /**
    One form action on a key whose record has been read. The page keeps
    the record; an error on it means nothing was written; and only a write
    the store accepts changes the database.
  */
  function Apply(db: Database, k: Key, rec: KeyRecord, action: Action): (r: (Page, Database))
    ensures r.0.Detail? ==> r.0.record.Some?
    ensures r.0.Detail? && r.0.error.Some? ==> r.1 == db && r.0.success.None?
    ensures r.1 != db ==> k !in db.failures && k !in db.writeFailures
  {
    match action
    case NoAction => (Detail(Some(rec), None, None), db)
    case UpdateValue(text) =>
      if rec.keyType == StringName() then
        AfterWrite(Set(db, k, text), db, rec,
                   Detail(Some(rec.(value := Some(StringValue(text)))), None, Some(ValueUpdated)))
      else (Detail(Some(rec), Some(NotEditableMessage(rec.keyType)), None), db)
    case UpdateTtl(input) =>
      (match ClassifyTtl(input)
       case RemoveTtl =>
         AfterWrite(Persist(db, k), db, rec, Detail(Some(rec.(ttl := None)), None, Some(TtlRemoved)))
       case SetTtl(n) =>
         AfterWrite(Expire(db, k, n), db, rec, Detail(Some(rec.(ttl := Some(n))), None, Some(TtlSetMessage(n))))
       case NotPositive => (Detail(Some(rec), Some(TtlNotPositive), None), db)
       case NotANumber => (Detail(Some(rec), Some(TtlNotANumber), None), db))
    case DeleteKey =>
      AfterWrite(Delete(db, k), db, rec, RedirectToSearch)
  }

  /**
    `key_detail` after the database is selected. A missing key is reported
    on the page (the Http404 raised for it is caught by the view's own
    handler), and any raising command leaves its message as the error.
  */
  function View(db: Database, k: Key, dbNumber: nat, action: Action): (r: (Page, Database))
    ensures r.0.Detail? && r.0.record.None? ==> r.1 == db && r.0.error.Some? && r.0.success.None?
    ensures k in db.failures ==> r == (Detail(None, Some(db.failures[k]), None), db)
    ensures k !in db.failures && k !in db.entries ==> r == (Detail(None, Some(NotFoundMessage(k, dbNumber)), None), db)
    ensures r.0.Detail? && r.0.error.Some? ==> r.1 == db && r.0.success.None?
    ensures r.1 != db ==> k in db.entries && k !in db.failures && k !in db.writeFailures
  {
    match Exists(db, k)
    case Raised(message) => (Detail(None, Some(message), None), db)
    case Ok(present) =>
      if !present then (Detail(None, Some(NotFoundMessage(k, dbNumber)), None), db)
      else
        match ReadRecord(db, k)
        case Raised(message) => (Detail(None, Some(message), None), db)
        case Ok(rec) => Apply(db, k, rec, action)
  }

  // ---------------------------------------------------------------------
  // What each action does to the database and the page
  // ---------------------------------------------------------------------

  /** Viewing without an action changes nothing and shows the key as stored. */
  lemma ViewOnly(db: Database, k: Key, dbNumber: nat)
    requires Readable(db, k)
    ensures ReadRecord(db, k).Ok?
    ensures View(db, k, dbNumber, NoAction) == (Detail(Some(ReadRecord(db, k).value), None, None), db)
  {
    ReadRecordOfEntry(db, k);
  }

  /**
    A new value for a string key replaces the value and drops its time to
    live in the database; every other key is untouched. The page shows the
    new value but keeps the size and time to live read before the write.
  */
  lemma UpdateStringValue(db: Database, k: Key, dbNumber: nat, text: PyStr)
    requires Readable(db, k) && k !in db.writeFailures && db.entries[k].value.StringValue?
    requires Utf8.NoSurrogates(text)
    ensures var (page, db') := View(db, k, dbNumber, UpdateValue(text));
      var before := ReadRecord(db, k).value;
      && db'.entries == db.entries[k := Entry(StringValue(text), None)]
      && db'.failures == db.failures
      && page == Detail(Some(before.(value := Some(StringValue(text)))), None, Some(ValueUpdated))
  {
    ReadRecordOfEntry(db, k);
  }

  /**
    A new value with a lone surrogate cannot be encoded for SET: the page
    shows the record read before with the encoder's message, and nothing is
    written.
  */
  lemma UpdateValueUnencodable(db: Database, k: Key, dbNumber: nat, text: PyStr)
    requires Readable(db, k) && db.entries[k].value.StringValue? && !Utf8.NoSurrogates(text)
    ensures ReadRecord(db, k).Ok?
    ensures View(db, k, dbNumber, UpdateValue(text))
      == (Detail(Some(ReadRecord(db, k).value), Some(Utf8.EncodeErrorMessage(text)), None), db)
  {
    ReadRecordOfEntry(db, k);
  }

  /** Any other type of key is refused for direct editing, and the database is untouched. */
  lemma UpdateOtherValueRefused(db: Database, k: Key, dbNumber: nat, text: PyStr)
    requires Readable(db, k) && !db.entries[k].value.StringValue?
    ensures var (page, db') := View(db, k, dbNumber, UpdateValue(text));
      && db' == db
      && page.Detail?
      && page.error == Some(NotEditableMessage(TypeName(db.entries[k].value)))
  {
    ReadRecordOfEntry(db, k);
    ReservedNamesDistinct();
  }

  /** A positive time to live reaches the database and the page alike; nothing else changes. */
  lemma UpdateTtlPositive(db: Database, k: Key, dbNumber: nat, input: PyStr)
    requires Readable(db, k) && k !in db.writeFailures && ClassifyTtl(input).SetTtl?
    ensures var n := ClassifyTtl(input).seconds;
      var (page, db') := View(db, k, dbNumber, UpdateTtl(input));
      && db'.entries.Keys == db.entries.Keys
      && db'.entries[k] == Entry(db.entries[k].value, Some(n))
      && (forall other :: other in db.entries && other != k ==> db'.entries[other] == db.entries[other])
      && page.Detail? && page.record.Some? && page.record.value.ttl == Some(n)
      && page.success == Some(TtlSetMessage(n))
  {
    ReadRecordOfEntry(db, k);
  }

  /** Removing the time to live clears it in the database and on the page; nothing else changes. */
  lemma UpdateTtlRemove(db: Database, k: Key, dbNumber: nat, input: PyStr)
    requires Readable(db, k) && k !in db.writeFailures && ClassifyTtl(input).RemoveTtl?
    ensures var (page, db') := View(db, k, dbNumber, UpdateTtl(input));
      && db'.entries.Keys == db.entries.Keys
      && db'.entries[k] == Entry(db.entries[k].value, None)
      && (forall other :: other in db.entries && other != k ==> db'.entries[other] == db.entries[other])
      && page.Detail? && page.record.Some? && page.record.value.ttl.None?
      && page.success == Some(TtlRemoved)
  {
    ReadRecordOfEntry(db, k);
  }

  /** A refused time to live leaves the database as it was and says why. */
  lemma UpdateTtlRefused(db: Database, k: Key, dbNumber: nat, input: PyStr)
    requires Readable(db, k)
    requires ClassifyTtl(input).NotPositive? || ClassifyTtl(input).NotANumber?
    ensures var (page, db') := View(db, k, dbNumber, UpdateTtl(input));
      && db' == db
      && page.Detail? && page.success.None?
      && page.error == Some(if ClassifyTtl(input).NotPositive? then TtlNotPositive else TtlNotANumber)
  {
    ReadRecordOfEntry(db, k);
  }

  /** Deleting removes exactly the key and sends the browser back to the search page. */
  lemma DeleteRemovesKey(db: Database, k: Key, dbNumber: nat)
    requires Readable(db, k) && k !in db.writeFailures
    ensures var (page, db') := View(db, k, dbNumber, DeleteKey);
      && page == RedirectToSearch
      && k !in db'.entries
      && (forall other :: other in db.entries && other != k ==> other in db'.entries && db'.entries[other] == db.entries[other])
      && db'.entries.Keys == db.entries.Keys - {k}
  {
    ReadRecordOfEntry(db, k);
  }

  /** The actions that send a write command: SET of an encodable text for a string, PERSIST or EXPIRE for an accepted TTL, DEL. */
  predicate Writes(db: Database, k: Key, action: Action)
    requires k in db.entries
  {
    match action
    case NoAction => false
    case UpdateValue(text) => db.entries[k].value.StringValue? && Utf8.NoSurrogates(text)
    case UpdateTtl(input) => ClassifyTtl(input).RemoveTtl? || ClassifyTtl(input).SetTtl?
    case DeleteKey => true
  }

  /**
    A write the server refuses leaves the database as it was; the page
    shows the record as read, with the exception's message and no success.
  */
  lemma WriteRefused(db: Database, k: Key, dbNumber: nat, action: Action)
    requires Readable(db, k) && k in db.writeFailures && Writes(db, k, action)
    ensures ReadRecord(db, k).Ok?
    ensures View(db, k, dbNumber, action) == (Detail(Some(ReadRecord(db, k).value), Some(db.writeFailures[k]), None), db)
  {
    ReadRecordOfEntry(db, k);
  }

  /**
    A key whose content the client cannot decode, and that the page reads
    (a string or a collection), gives an error page with no record and no
    write, whatever the action.
  */
  lemma UnreadableContentRefused(db: Database, k: Key, dbNumber: nat, action: Action)
    requires k !in db.failures && k in db.entries && WellTyped(db.entries[k].value)
    requires k in db.contentFailures && !db.entries[k].value.OtherValue?
    ensures View(db, k, dbNumber, action) == (Detail(None, Some(db.contentFailures[k]), None), db)
  {
    ReservedNamesDistinct();
  }
}
