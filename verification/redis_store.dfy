/**
  The Redis server as the views see it through a client opened with
  `decode_responses=True`: one logical database at the moment of a request,
  the read commands the views issue with their replies, and the write
  commands the key detail page issues.
*/
module RedisStore {
  import opened Common
  import Utf8

  type Key = PyStr

  /**
    A sorted-set score: a double, which may be infinite (Redis never stores
    NaN). Scores are carried from reply to page; nothing computes with them.
  */
  datatype Score = Finite(value: real) | PositiveInfinity | NegativeInfinity

  /** A key's value, by Redis data type. `OtherValue` covers the types the views do not inspect (streams, module types). */
  datatype Value =
    | StringValue(text: PyStr)
    | ListValue(items: seq<PyStr>)
    | SetValue(members: set<PyStr>)
    | ZSetValue(entries: seq<(PyStr, Score)>)
    | HashValue(fields: map<PyStr, PyStr>)
    | OtherValue(typeName: PyStr)

  /** A value and its remaining time to live in whole seconds, if it has one. */
  datatype Entry = Entry(value: Value, expiry: Option<nat>)

  /**
    One logical database, with the exceptions its commands raise:
    - every command on a key in `failures` raises the message given there
      (a dropped connection, a refusal of every command on the key);
    - the commands that transfer a present key's content (GET, LRANGE,
      SMEMBERS, ZRANGE, HGETALL) raise for a key in `contentFailures`: the
      client cannot decode a member as UTF-8, which TYPE, TTL and the count
      commands never notice;
    - the write commands (SET, PERSIST, EXPIRE, DEL) raise for a key in
      `writeFailures`: a read-only replica or an ACL that allows only reads.
  */
  datatype Database = Database(
    entries: map<Key, Entry>,
    failures: map<Key, PyStr>,
    contentFailures: map<Key, PyStr>,
    writeFailures: map<Key, PyStr>)

  /** A command's reply, or the exception the client raises instead. */
  datatype Reply<+T> = Ok(value: T) | Raised(message: PyStr) {
    predicate IsFailure() {
      Raised?
    }

    function PropagateFailure<U>(): Reply<U>
      requires Raised?
    {
      Raised(message)
    }

    function Extract(): T
      requires Ok?
    {
      value
    }
  }

  const WrongTypeMessage: PyStr := Lit("WRONGTYPE Operation against a key holding the wrong kind of value")

  function StringName(): PyStr { Lit("string") }
  function ListName(): PyStr { Lit("list") }
  function SetName(): PyStr { Lit("set") }
  function ZSetName(): PyStr { Lit("zset") }
  function HashName(): PyStr { Lit("hash") }
  function NoneName(): PyStr { Lit("none") }

  /** The names TYPE gives the five core data types and a missing key. */
  predicate IsReservedTypeName(t: PyStr) {
    t == StringName() || t == ListName() || t == SetName() || t == ZSetName() || t == HashName() || t == NoneName()
  }

  /** A value whose type name agrees with its constructor, as every value Redis holds does. */
  predicate WellTyped(v: Value) {
    v.OtherValue? ==> !IsReservedTypeName(v.typeName)
  }

  /** The reply of TYPE for a present value. */
  function TypeName(v: Value): PyStr {
    match v
    case StringValue(_) => StringName()
    case ListValue(_) => ListName()
    case SetValue(_) => SetName()
    case ZSetValue(_) => ZSetName()
    case HashValue(_) => HashName()
    case OtherValue(name) => name
  }

  // ---------------------------------------------------------------------
  // Read commands
  // ---------------------------------------------------------------------

  /** EXISTS key */
  function Exists(db: Database, k: Key): (r: Reply<bool>)
    ensures r.Ok? <==> k !in db.failures
    ensures r.Ok? ==> (r.value <==> k in db.entries)
  {
    if k in db.failures then Raised(db.failures[k]) else Ok(k in db.entries)
  }

  /** TYPE key: "none" for a missing key. */
  function Type(db: Database, k: Key): (r: Reply<PyStr>)
    ensures r.Ok? <==> k !in db.failures
    ensures r.Ok? && k !in db.entries ==> r.value == NoneName()
  {
    if k in db.failures then Raised(db.failures[k])
    else if k !in db.entries then Ok(NoneName())
    else Ok(TypeName(db.entries[k].value))
  }

  /** TTL key: -2 for a missing key, -1 for a key without expiry, else the seconds left. */
  function Ttl(db: Database, k: Key): (r: Reply<int>)
    ensures r.Ok? <==> k !in db.failures
    ensures r.Ok? ==> r.value >= -2
    ensures r.Ok? ==> (r.value == -2 <==> k !in db.entries)
    ensures r.Ok? && k in db.entries ==>
      r.value == (if db.entries[k].expiry.Some? then db.entries[k].expiry.value else -1)
  {
    if k in db.failures then Raised(db.failures[k])
    else if k !in db.entries then Ok(-2)
    else
      match db.entries[k].expiry
      case None => Ok(-1)
      case Some(n) => Ok(n as int)
  }

  /** GET key: `None` for a missing key, WRONGTYPE for a value that is not a string. */
  function Get(db: Database, k: Key): (r: Reply<Option<PyStr>>)
    ensures r.Ok? <==> k !in db.failures && (k in db.entries ==> db.entries[k].value.StringValue? && k !in db.contentFailures)
    ensures r.Ok? ==> (r.value.Some? <==> k in db.entries)
    ensures r.Ok? && r.value.Some? ==> db.entries[k].value == StringValue(r.value.value)
  {
    if k in db.failures then Raised(db.failures[k])
    else if k !in db.entries then Ok(None)
    else
      match db.entries[k].value
      case StringValue(text) => if k in db.contentFailures then Raised(db.contentFailures[k]) else Ok(Some(text))
      case _ => Raised(WrongTypeMessage)
  }

  /**
    The reply shared by LLEN, SCARD, ZCARD and HLEN: zero for a missing key,
    `count` when the value has the command's type, WRONGTYPE otherwise.
  */
  function CountReply(db: Database, k: Key, matches: bool, count: nat): Reply<nat> {
    if k in db.failures then Raised(db.failures[k])
    else if k !in db.entries then Ok(0)
    else if matches then Ok(count)
    else Raised(WrongTypeMessage)
  }

  /** LLEN key */
  function LLen(db: Database, k: Key): Reply<nat> {
    var v := if k in db.entries then db.entries[k].value else StringValue([]);
    CountReply(db, k, v.ListValue?, if v.ListValue? then |v.items| else 0)
  }

  /** SCARD key */
  function SCard(db: Database, k: Key): Reply<nat> {
    var v := if k in db.entries then db.entries[k].value else StringValue([]);
    CountReply(db, k, v.SetValue?, if v.SetValue? then |v.members| else 0)
  }

  /** ZCARD key */
  function ZCard(db: Database, k: Key): Reply<nat> {
    var v := if k in db.entries then db.entries[k].value else StringValue([]);
    CountReply(db, k, v.ZSetValue?, if v.ZSetValue? then |v.entries| else 0)
  }

  /** HLEN key */
  function HLen(db: Database, k: Key): Reply<nat> {
    var v := if k in db.entries then db.entries[k].value else StringValue([]);
    CountReply(db, k, v.HashValue?, if v.HashValue? then |v.fields| else 0)
  }

  /**
    The whole value of a collection key (LRANGE 0 -1, SMEMBERS, ZRANGE 0 -1
    WITHSCORES, HGETALL): the empty collection of that type for a missing
    key, WRONGTYPE for a value of another type.
  */
  function ReadCollection(db: Database, k: Key, typeName: PyStr): (r: Reply<Value>)
    requires typeName in {ListName(), SetName(), ZSetName(), HashName()}
    ensures r.Ok? <==> k !in db.failures && (k in db.entries ==> TypeName(db.entries[k].value) == typeName && k !in db.contentFailures)
    ensures r.Ok? ==> TypeName(r.value) == typeName
    ensures r.Ok? && k in db.entries ==> r.value == db.entries[k].value
  {
    if k in db.failures then Raised(db.failures[k])
    else if k !in db.entries then
      Ok(if typeName == ListName() then ListValue([])
         else if typeName == SetName() then SetValue({})
         else if typeName == ZSetName() then ZSetValue([])
         else HashValue(map[]))
    else if TypeName(db.entries[k].value) != typeName then Raised(WrongTypeMessage)
    else if k in db.contentFailures then Raised(db.contentFailures[k])
    else Ok(db.entries[k].value)
  }

  // ---------------------------------------------------------------------
  // Write commands
  // ---------------------------------------------------------------------

  /** The exception a write command on `k` raises, if any. */
  function WriteRefusal(db: Database, k: Key): Option<PyStr> {
    if k in db.failures then Some(db.failures[k])
    else if k in db.writeFailures then Some(db.writeFailures[k])
    else None
  }

  /**
    SET key value: replaces the value whatever its type and drops any time
    to live. The client encodes the value as strict UTF-8 before sending the
    command, so a text with a lone surrogate raises UnicodeEncodeError and
    the server never sees the write; a key whose every command fails raises
    first, as the connection does.
  */
  function Set(db: Database, k: Key, text: PyStr): (r: Reply<Database>)
    ensures r.Ok? <==> k !in db.failures && Utf8.NoSurrogates(text) && k !in db.writeFailures
    ensures k in db.failures ==> r == Raised(db.failures[k])
    ensures k !in db.failures && !Utf8.NoSurrogates(text) ==> r == Raised(Utf8.EncodeErrorMessage(text))
    ensures k !in db.failures && Utf8.NoSurrogates(text) && k in db.writeFailures ==> r == Raised(db.writeFailures[k])
    ensures r.Ok? ==> r.value == db.(entries := db.entries[k := Entry(StringValue(text), None)],
                                     contentFailures := db.contentFailures - {k})
  {
    if k in db.failures then Raised(db.failures[k])
    else if !Utf8.NoSurrogates(text) then Raised(Utf8.EncodeErrorMessage(text))
    else if k in db.writeFailures then Raised(db.writeFailures[k])
    else Ok(db.(entries := db.entries[k := Entry(StringValue(text), None)],
                contentFailures := db.contentFailures - {k}))
  }

  /**
    SET overwrites the stored bytes, so whatever made the old content
    unreadable is gone: a GET right after a successful SET returns the new
    text, and the key has no time to live.
  */
  lemma GetAfterSet(db: Database, k: Key, text: PyStr)
    requires Set(db, k, text).Ok?
    ensures Get(Set(db, k, text).value, k) == Ok(Some(text))
    ensures Ttl(Set(db, k, text).value, k) == Ok(-1)
  {
  }

  /** PERSIST key: drops the time to live of a present key; a missing key is left missing. */
  function Persist(db: Database, k: Key): (r: Reply<Database>)
    ensures r.Ok? <==> k !in db.failures && k !in db.writeFailures
    ensures r.Raised? ==> Some(r.message) == WriteRefusal(db, k)
    ensures r.Ok? ==> r.value.entries.Keys == db.entries.Keys
    ensures r.Ok? ==> r.value == db.(entries := r.value.entries)
    ensures r.Ok? && k in db.entries ==> r.value.entries[k] == db.entries[k].(expiry := None)
    ensures r.Ok? ==> forall other :: other in db.entries && other != k ==> r.value.entries[other] == db.entries[other]
  {
    match WriteRefusal(db, k)
    case Some(message) => Raised(message)
    case None =>
      if k !in db.entries then Ok(db)
      else Ok(db.(entries := db.entries[k := db.entries[k].(expiry := None)]))
  }

  /** EXPIRE key seconds, for positive seconds: sets the time to live of a present key. */
  function Expire(db: Database, k: Key, seconds: nat): (r: Reply<Database>)
    requires seconds > 0
    ensures r.Ok? <==> k !in db.failures && k !in db.writeFailures
    ensures r.Raised? ==> Some(r.message) == WriteRefusal(db, k)
    ensures r.Ok? ==> r.value.entries.Keys == db.entries.Keys
    ensures r.Ok? ==> r.value == db.(entries := r.value.entries)
    ensures r.Ok? && k in db.entries ==> r.value.entries[k] == db.entries[k].(expiry := Some(seconds))
    ensures r.Ok? ==> forall other :: other in db.entries && other != k ==> r.value.entries[other] == db.entries[other]
  {
    match WriteRefusal(db, k)
    case Some(message) => Raised(message)
    case None =>
      if k !in db.entries then Ok(db)
      else Ok(db.(entries := db.entries[k := db.entries[k].(expiry := Some(seconds))]))
  }

  /** DEL key */
  function Delete(db: Database, k: Key): (r: Reply<Database>)
    ensures r.Ok? <==> k !in db.failures && k !in db.writeFailures
    ensures r.Raised? ==> Some(r.message) == WriteRefusal(db, k)
    ensures r.Ok? ==> r.value == db.(entries := db.entries - {k})
  {
    match WriteRefusal(db, k)
    case Some(message) => Raised(message)
    case None => Ok(db.(entries := db.entries - {k}))
  }

  // ---------------------------------------------------------------------
  // What the views derive from the replies
  // ---------------------------------------------------------------------

  /** `str(value).encode("utf-8")`, with the UnicodeEncodeError as a raised reply. */
  function EncodeUtf8(s: PyStr): (r: Reply<seq<Byte>>)
    ensures r.Ok? <==> Utf8.NoSurrogates(s)
    ensures r.Ok? ==> |r.value| == Utf8.EncodedLength(s)
  {
    match Utf8.Encode(s)
    case Some(b) => Ok(b)
    case None => Raised(Utf8.EncodeErrorMessage(s))
  }

  /** A TTL reply as the pages show it: only a positive remaining time counts as an expiry. */
  function ShownTtl(ttl: int): (r: Option<nat>)
    ensures r.Some? <==> ttl > 0
    ensures r.Some? ==> r.value == ttl
  {
    if ttl > 0 then Some(ttl) else None
  }

  /**
    The size column: the UTF-8 byte length of a string (GET, empty when
    missing), the element count of a collection (LLEN, SCARD, ZCARD, HLEN),
    and 0 for any other type name.
  */
  function SizeOf(db: Database, k: Key, typeName: PyStr): Reply<nat> {
    if typeName == StringName() then
      var text :- Get(db, k);
      var bytes :- EncodeUtf8(if text.Some? then text.value else []);
      Ok(|bytes|)
    else if typeName == ListName() then LLen(db, k)
    else if typeName == SetName() then SCard(db, k)
    else if typeName == ZSetName() then ZCard(db, k)
    else if typeName == HashName() then HLen(db, k)
    else Ok(0)
  }

  /** The size a value has, defined from the value alone. */
  function Cardinality(v: Value): nat {
    match v
    case StringValue(text) => Utf8.EncodedLength(text)
    case ListValue(items) => |items|
    case SetValue(members) => |members|
    case ZSetValue(entries) => |entries|
    case HashValue(fields) => |fields|
    case OtherValue(_) => 0
  }

  /** Every reserved type name is different from the others. */
  lemma ReservedNamesDistinct()
    ensures StringName() != ListName() && StringName() != SetName() && StringName() != ZSetName()
    ensures StringName() != HashName() && StringName() != NoneName()
    ensures ListName() != SetName() && ListName() != ZSetName() && ListName() != HashName() && ListName() != NoneName()
    ensures SetName() != ZSetName() && SetName() != HashName() && SetName() != NoneName()
    ensures ZSetName() != HashName() && ZSetName() != NoneName() && HashName() != NoneName()
  {
    assert StringName()[0] == 's' as int && SetName()[1] == 'e' as int && StringName()[1] == 't' as int;
    assert ListName()[0] == 'l' as int && ZSetName()[0] == 'z' as int && HashName()[0] == 'h' as int;
    assert NoneName()[0] == 'n' as int && |SetName()| == 3 && |StringName()| == 6;
  }

  /**
    The size of a string is measured from its content: GET must transfer it
    and the text must encode. Collection sizes come from the count commands,
    which never transfer the content.
  */
  predicate StringSizeFails(db: Database, k: Key)
    requires k in db.entries
  {
    && db.entries[k].value.StringValue?
    && (k in db.contentFailures || !Utf8.NoSurrogates(db.entries[k].value.text))
  }

  /**
    Dispatching on the TYPE reply measures what the key holds: for a
    readable key the size is the cardinality of its value (0 for a missing
    key), and it fails only on a string whose content cannot be read or
    encoded.
  */
  lemma SizeOfMatchesValue(db: Database, k: Key)
    requires k !in db.failures
    requires k in db.entries ==> WellTyped(db.entries[k].value)
    ensures var size := SizeOf(db, k, Type(db, k).value);
      && (k !in db.entries ==> size == Ok(0))
      && (k in db.entries && !StringSizeFails(db, k) ==> size == Ok(Cardinality(db.entries[k].value)))
      && (k in db.entries && StringSizeFails(db, k) ==> size.Raised?)
  {
    ReservedNamesDistinct();
    if k in db.entries {
      var v := db.entries[k].value;
      match v
      case StringValue(text) =>
      case ListValue(items) =>
      case SetValue(members) =>
      case ZSetValue(entries) =>
      case HashValue(fields) =>
      case OtherValue(name) =>
    }
  }
}
