/**
  The key search page (`key_search` in dj_redis_panel/views.py): a SCAN loop
  that stops at the end of the keyspace or once a thousand keys are in hand,
  then one table row per key for the first hundred keys.
*/
module KeySearch {
  import opened Common
  import opened RedisStore

  /** The scan stops asking for more once this many keys are collected. */
  const MaxScannedKeys := 1000

  /** Rows are built for at most this many of the collected keys. */
  const MaxShownKeys := 100

  /** What one `SCAN cursor MATCH pattern COUNT 100` call gives back. */
  datatype ScanReply = Batch(cursor: nat, keys: seq<Key>) | ScanRaised(message: PyStr)

  function BatchKeys(r: ScanReply): seq<Key> {
    if r.Batch? then r.keys else []
  }

  /** The keys the first `n` replies of a scan hand over, in order. */
  function Collected(replies: seq<ScanReply>, n: nat): seq<Key>
    requires n <= |replies|
  {
    if n == 0 then [] else Collected(replies, n - 1) + BatchKeys(replies[n - 1])
  }

  /** The loop leaves right after its `n`-th call (counting from 1). */
  predicate StopsAfter(replies: seq<ScanReply>, n: nat)
    requires 1 <= n <= |replies|
  {
    || replies[n - 1].ScanRaised?
    || replies[n - 1].cursor == 0
    || |Collected(replies, n)| >= MaxScannedKeys
  }

  /** The server's replies lead the loop to stop: the cursor returns to 0, an error is raised, or enough keys arrive. */
  predicate Stops(replies: seq<ScanReply>) {
    exists n :: 1 <= n <= |replies| && StopsAfter(replies, n)
  }

  /** The number of calls the loop makes: the first call after which it stops. */
  function CallCount(replies: seq<ScanReply>, from: nat): (n: nat)
    requires 1 <= from <= |replies| + 1
    requires exists m :: from <= m <= |replies| && StopsAfter(replies, m)
    ensures from <= n <= |replies| && StopsAfter(replies, n)
    decreases |replies| - from
  {
    if StopsAfter(replies, from) then from else CallCount(replies, from + 1)
  }

  datatype ScanOutcome = Scanned(keys: seq<Key>) | ScanFailed(message: PyStr)

  /** The cursor the `j`-th call (counting from 0) sends: 0 first, then the cursor of the reply before. */
  function SentCursor(replies: seq<ScanReply>, j: nat): nat
    requires j <= |replies|
  {
    if j == 0 || replies[j - 1].ScanRaised? then 0 else replies[j - 1].cursor
  }

  /** None of the first `i` calls stops the loop. */
  predicate RunsPast(replies: seq<ScanReply>, i: nat)
    requires i <= |replies|
  {
    i == 0 || (RunsPast(replies, i - 1) && !StopsAfter(replies, i))
  }

  lemma {:induction false} RunsPastNoStop(replies: seq<ScanReply>, i: nat)
    requires i <= |replies| && RunsPast(replies, i)
    ensures forall m :: 1 <= m <= i ==> !StopsAfter(replies, m)
  {
    if i > 0 {
      RunsPastNoStop(replies, i - 1);
    }
  }

  /** The cursors the first `i` calls send, in order. */
  function SentCursors(replies: seq<ScanReply>, i: nat): seq<nat>
    requires i <= |replies|
  {
    if i == 0 then [] else SentCursors(replies, i - 1) + [SentCursor(replies, i - 1)]
  }

  lemma {:induction false} SentCursorsAt(replies: seq<ScanReply>, i: nat)
    requires i <= |replies|
    ensures |SentCursors(replies, i)| == i
    ensures forall j :: 0 <= j < i ==> SentCursors(replies, i)[j] == SentCursor(replies, j)
  {
    if i > 0 {
      SentCursorsAt(replies, i - 1);
    }
  }

  /**
    The SCAN loop. `cursors` are the cursors it sends, call by call: 0 and
    then each reply's cursor. The loop leaves right after the first call
    after which it stops; a raising call propagates its exception, and
    otherwise the keys are every batch received, in order, so a nonzero
    final cursor means a thousand keys are in hand.
  */
  method ScanKeys(replies: seq<ScanReply>) returns (outcome: ScanOutcome, cursors: seq<nat>)
    requires Stops(replies)
    ensures 1 <= |cursors| <= |replies|
    ensures StopsAfter(replies, |cursors|) && RunsPast(replies, |cursors| - 1)
    ensures forall j :: 0 <= j < |cursors| ==> cursors[j] == SentCursor(replies, j)
    ensures outcome.ScanFailed? <==> replies[|cursors| - 1].ScanRaised?
    ensures outcome.ScanFailed? ==> outcome.message == replies[|cursors| - 1].message
    ensures outcome.Scanned? ==> outcome.keys == Collected(replies, |cursors|)
    ensures outcome.Scanned? && replies[|cursors| - 1].cursor != 0 ==> |outcome.keys| >= MaxScannedKeys
  {
    var keys: seq<Key> := [];
    var cursor := 0;
    var i := 0;
    cursors := [];
    ghost var n :| 1 <= n <= |replies| && StopsAfter(replies, n);
    while true
      invariant 0 <= i < n && |cursors| == i
      invariant keys == Collected(replies, i)
      invariant RunsPast(replies, i)
      invariant cursor == SentCursor(replies, i)
      invariant cursors == SentCursors(replies, i)
      decreases n - i
    {
      var reply := replies[i];
      cursors := cursors + [cursor];
      i := i + 1;
      match reply
      case ScanRaised(message) =>
        outcome := ScanFailed(message);
        break;
      case Batch(next, batch) =>
        keys := keys + batch;
        cursor := next;
        if cursor == 0 || |keys| >= MaxScannedKeys {
          outcome := Scanned(keys);
          break;
        }
        assert !StopsAfter(replies, i);
    }
    SentCursorsAt(replies, i);
  }

  /** The first stopping call at or after `from` is the call count from there. */
  lemma {:induction false} CallCountIs(replies: seq<ScanReply>, from: nat, n: nat)
    requires 1 <= from <= n <= |replies| && StopsAfter(replies, n)
    requires forall m :: from <= m < n ==> !StopsAfter(replies, m)
    ensures CallCount(replies, from) == n
    decreases n - from
  {
    if from < n {
      CallCountIs(replies, from + 1, n);
    }
  }

  /** A stop after call `n` with no stop before it makes `n` the call count: the loop makes exactly that many calls. */
  lemma FirstStop(replies: seq<ScanReply>, n: nat)
    requires 1 <= n <= |replies|
    requires StopsAfter(replies, n) && RunsPast(replies, n - 1)
    ensures CallCount(replies, 1) == n
  {
    RunsPastNoStop(replies, n - 1);
    CallCountIs(replies, 1, n);
  }


  // ---------------------------------------------------------------------
  // Rows
  // ---------------------------------------------------------------------

  /** One row of the results table. */
  datatype KeyRow = KeyRow(key: Key, keyType: PyStr, ttl: Option<nat>, size: nat)

  /** TYPE, TTL and the size command for one key; `None` when any of them raises and the key is skipped. */
  function LookupRow(db: Database, k: Key): Option<KeyRow> {
    match Type(db, k)
    case Raised(_) => None
    case Ok(keyType) =>
      match Ttl(db, k)
      case Raised(_) => None
      case Ok(ttl) =>
        match SizeOf(db, k, keyType)
        case Raised(_) => None
        case Ok(size) => Some(KeyRow(k, keyType, ShownTtl(ttl), size))
  }

  /**
    A readable key's row reports its type, its positive time to live, and
    the size of its value. Only a string's content is read, so a collection
    whose members cannot be decoded still gets its row.
  */
  lemma LookupRowOfEntry(db: Database, k: Key)
    requires k !in db.failures && k in db.entries
    requires WellTyped(db.entries[k].value)
    requires !StringSizeFails(db, k)
    ensures LookupRow(db, k).Some?
    ensures var row := LookupRow(db, k).value;
      var e := db.entries[k];
      && row.key == k
      && row.keyType == TypeName(e.value)
      && row.size == Cardinality(e.value)
      && (row.ttl.Some? <==> e.expiry.Some? && e.expiry.value > 0)
      && (row.ttl.Some? ==> row.ttl == e.expiry)
  {
    SizeOfMatchesValue(db, k);
  }

  /** A key missing from the database still gets a row: type "none", no time to live, size 0. */
  lemma LookupRowOfMissing(db: Database, k: Key)
    requires k !in db.failures && k !in db.entries
    ensures LookupRow(db, k) == Some(KeyRow(k, NoneName(), None, 0))
  {
    SizeOfMatchesValue(db, k);
    ReservedNamesDistinct();
  }

  /**
    A key is skipped exactly when a command on it raises: TYPE and TTL, or
    reading and encoding a string to measure it.
  */
  lemma LookupRowSkips(db: Database, k: Key)
    requires k in db.entries ==> WellTyped(db.entries[k].value)
    ensures LookupRow(db, k).None? <==> k in db.failures || (k in db.entries && StringSizeFails(db, k))
  {
    if k !in db.failures {
      SizeOfMatchesValue(db, k);
    }
  }

  /** The lookup of every key, in order. */
  function Lookups(db: Database, keys: seq<Key>): (r: seq<Option<KeyRow>>)
    ensures |r| == |keys| && forall i :: 0 <= i < |keys| ==> r[i] == LookupRow(db, keys[i])
  {
    seq(|keys|, i requires 0 <= i < |keys| => LookupRow(db, keys[i]))
  }

  /** The values present in a sequence of optional values, in order. */
  function Present<T>(opts: seq<Option<T>>): (r: seq<T>)
    ensures |r| <= |opts|
  {
    if |opts| == 0 then []
    else
      var last := opts[|opts| - 1];
      Present(opts[..|opts| - 1]) + (if last.Some? then [last.value] else [])
  }

  /** The positions of the present values, in increasing order. */
  function PresentPositions<T>(opts: seq<Option<T>>): seq<nat> {
    if |opts| == 0 then []
    else PresentPositions(opts[..|opts| - 1]) + (if opts[|opts| - 1].Some? then [|opts| - 1] else [])
  }

  /** Value `j` is the one at position `PresentPositions[j]`. */
  lemma {:induction false} PresentAtPositions<T>(opts: seq<Option<T>>)
    ensures |Present(opts)| == |PresentPositions(opts)|
    ensures forall j :: 0 <= j < |PresentPositions(opts)| ==>
      PresentPositions(opts)[j] < |opts| && opts[PresentPositions(opts)[j]] == Some(Present(opts)[j])
  {
    if |opts| > 0 {
      var init := opts[..|opts| - 1];
      PresentAtPositions(init);
      var vals, pos := Present(opts), PresentPositions(opts);
      var vals0, pos0 := Present(init), PresentPositions(init);
      if opts[|opts| - 1].Some? {
        assert vals == vals0 + [opts[|opts| - 1].value];
        assert pos == pos0 + [|opts| - 1];
      } else {
        assert vals == vals0 && pos == pos0;
      }
      forall j | 0 <= j < |pos0|
        ensures opts[pos0[j]] == init[pos0[j]]
      {
      }
    }
  }

  /** The positions are below `|opts|`. */
  lemma {:induction false} PresentPositionsBelow<T>(opts: seq<Option<T>>)
    ensures forall j :: 0 <= j < |PresentPositions(opts)| ==> PresentPositions(opts)[j] < |opts|
  {
    if |opts| > 0 {
      var init := opts[..|opts| - 1];
      PresentPositionsBelow(init);
      assert PresentPositions(opts) == PresentPositions(init) + (if opts[|opts| - 1].Some? then [|opts| - 1] else []);
    }
  }

  /** The positions strictly increase. */
  lemma {:induction false} PresentPositionsIncrease<T>(opts: seq<Option<T>>)
    ensures forall j, l :: 0 <= j < l < |PresentPositions(opts)| ==> PresentPositions(opts)[j] < PresentPositions(opts)[l]
  {
    if |opts| > 0 {
      var init := opts[..|opts| - 1];
      PresentPositionsIncrease(init);
      PresentPositionsBelow(init);
      var pos, pos0 := PresentPositions(opts), PresentPositions(init);
      if opts[|opts| - 1].Some? {
        assert pos == pos0 + [|opts| - 1];
      } else {
        assert pos == pos0;
      }
    }
  }

  /** A position is listed exactly when a value is present there. */
  lemma {:induction false} PresentPositionsExact<T>(opts: seq<Option<T>>)
    ensures forall i :: 0 <= i < |opts| ==> (i in PresentPositions(opts) <==> opts[i].Some?)
  {
    if |opts| > 0 {
      var init := opts[..|opts| - 1];
      PresentPositionsExact(init);
      PresentPositionsBelow(init);
      var pos, pos0 := PresentPositions(opts), PresentPositions(init);
      assert |opts| - 1 !in pos0;
      assert pos == pos0 + (if opts[|opts| - 1].Some? then [|opts| - 1] else []);
      forall i | 0 <= i < |opts|
        ensures i in pos <==> opts[i].Some?
      {
        if i < |init| {
          assert opts[i] == init[i];
          assert i in pos <==> i in pos0;
        }
      }
    }
  }

  /** The rows for a list of keys: keys whose lookup raises are dropped, the rest keep their order. */
  function Rows(db: Database, keys: seq<Key>): (rows: seq<KeyRow>)
    ensures |rows| <= |keys|
  {
    Present(Lookups(db, keys))
  }

  /** The positions of the keys that get a row, in increasing order. */
  function RowPositions(db: Database, keys: seq<Key>): seq<nat> {
    PresentPositions(Lookups(db, keys))
  }

  /**
    Row `j` belongs to the key at position `RowPositions[j]`; the positions
    increase, so rows keep the scan order; and a position is listed exactly
    when its key's lookup succeeds.
  */
  lemma RowsFollowKeys(db: Database, keys: seq<Key>)
    ensures var rows := Rows(db, keys);
      var pos := RowPositions(db, keys);
      && |rows| == |pos|
      && (forall j :: 0 <= j < |pos| ==> pos[j] < |keys| && Some(rows[j]) == LookupRow(db, keys[pos[j]]))
      && (forall j, l :: 0 <= j < l < |pos| ==> pos[j] < pos[l])
      && (forall i :: 0 <= i < |keys| ==> (i in pos <==> LookupRow(db, keys[i]).Some?))
  {
    var opts := Lookups(db, keys);
    PresentAtPositions(opts);
    PresentPositionsBelow(opts);
    PresentPositionsIncrease(opts);
    PresentPositionsExact(opts);
  }

  /** Every row describes its own key, as a fresh lookup would. */
  lemma RowsAreLookups(db: Database, keys: seq<Key>)
    ensures forall row :: row in Rows(db, keys) ==> row.key in keys && LookupRow(db, row.key) == Some(row)
  {
    RowsFollowKeys(db, keys);
    var rows, pos := Rows(db, keys), RowPositions(db, keys);
    forall row | row in rows
      ensures row.key in keys && LookupRow(db, row.key) == Some(row)
    {
      var j :| 0 <= j < |rows| && rows[j] == row;
      assert Some(rows[j]) == LookupRow(db, keys[pos[j]]);
      assert LookupRow(db, keys[pos[j]]).value.key == keys[pos[j]];
    }
  }

  // ---------------------------------------------------------------------
  // The page
  // ---------------------------------------------------------------------

  /** What the template receives: the rows, the number of keys found, the number shown, an error. */
  datatype SearchPage = SearchPage(rows: seq<KeyRow>, totalKeys: nat, showingKeys: nat, error: Option<PyStr>)

  /** The keys that get rows: the first hundred collected. */
  function ShownKeys(keys: seq<Key>): (shown: seq<Key>)
    ensures |shown| <= MaxShownKeys && |shown| <= |keys|
    ensures |shown| == |keys| || |shown| == MaxShownKeys
    ensures shown == keys[..|shown|]
  {
    keys[..if |keys| < MaxShownKeys then |keys| else MaxShownKeys]
  }

  /**
    `key_search` after the database is selected: scan, count, and build rows
    for the first hundred keys. A raising scan leaves an empty page with the
    message.
  */
  method Search(replies: seq<ScanReply>, db: Database) returns (page: SearchPage)
    requires Stops(replies)
    ensures var n := CallCount(replies, 1);
      && (replies[n - 1].ScanRaised? ==> page == SearchPage([], 0, 0, Some(replies[n - 1].message)))
      && (replies[n - 1].Batch? ==>
            var keys := Collected(replies, n);
            && page.error.None?
            && page.totalKeys == |keys|
            && page.rows == Rows(db, ShownKeys(keys))
            && page.showingKeys == |page.rows| <= MaxShownKeys
            && page.showingKeys <= page.totalKeys)
  {
    var outcome, cursors := ScanKeys(replies);
    FirstStop(replies, |cursors|);
    match outcome
    case ScanFailed(message) =>
      page := SearchPage([], 0, 0, Some(message));
    case Scanned(keys) =>
      var rows := Rows(db, ShownKeys(keys));
      page := SearchPage(rows, |keys|, |rows|, None);
  }
}
