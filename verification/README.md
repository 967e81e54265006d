# dj-redis-panel core, modelled in Dafny

This project models the core of dj-redis-panel, a Django admin panel for
browsing and editing Redis. It covers two pieces.

- **`RedisValueDecoder`** (dj_redis_panel/encoding_utils.py) uses its
  default "utf-8" encoder. It turns what a Redis client returns into display
  text: UTF-8 bytes become text, and other bytes become their Python `repr`,
  a `b'...'` literal. It also turns edited text back into what Redis should
  store: a `b'...'` literal is evaluated, and any other text is UTF-8 encoded.
- **Three views** from dj_redis_panel/views.py:
  - The key search page: a SCAN loop that stops once at least 1000 keys
    are collected, then one row per key for the first 100 keys. Each row
    holds the key's type, its positive TTL and its size.
  - The key detail page: the record for one key, and its three form actions:
    a new string value, a new TTL, and deletion.
  - The database list of the instance overview, with key counts only.

Files and modules:

| file | module | contents |
|---|---|---|
| common.dfy | `Common` | bytes, Python text as code points, `Option`, decimal digits |
| utf8.dfy | `Utf8` | strict UTF-8 per section 4 of RFC 3629, both directions, the encoder's error text |
| bytes_literal.dfy | `BytesLiteral` | CPython's `repr` of bytes and the bytes-literal grammar `ast.literal_eval` reads |
| value_decoder.dfy | `RedisValueDecoder` | `decode_value`, `decode_list`, `decode_dict`, `decode_zset_list`, `encode_for_redis` |
| py_int.dfy | `PyInt` | `str.strip()` and base-10 `int()` |
| redis_store.dfy | `RedisStore` | one Redis database as a snapshot, the commands the views issue, the size column |
| key_search.dfy | `KeySearch` | the SCAN loop, the rows, the search page |
| key_detail.dfy | `KeyDetail` | the key record, the TTL form, the form actions |
| instance_overview.dfy | `InstanceOverview` | the database list |

Modelling choices:

- **Text.** A Python `str` is a sequence of code points, and lone surrogates
  are allowed. This keeps reachable the branches where encoding raises
  UnicodeEncodeError: the size of a string value, and SET of a new value,
  which the client encodes as strict UTF-8 before sending.
- **Bytes.** Bytes are integers in 0..255.
- **Dicts.** A Python dict is its item list in insertion order. A repeated
  key keeps its first position and takes the last value written.
- **Redis.** The server is a snapshot `Database`. It maps each key to a value
  and an optional TTL. Three more maps give keys an exception message, one
  per class of command:
  - `failures`: every command on the key raises, as with a dropped
    connection.
  - `contentFailures`: only the commands that return the value's contents
    raise (GET, LRANGE, SMEMBERS, ZRANGE, HGETALL), as with a value the
    client cannot decode. TYPE, TTL and the length commands still answer.
  - `writeFailures`: only the writes raise (SET, PERSIST, EXPIRE, DEL), as on
    a read-only replica.
- **Replies.** Each command is a function from the snapshot to a `Reply`,
  which is either `Ok` or `Raised`. Writes return the new snapshot.
- **Scan.** The SCAN replies are an input script. The source loop puts no
  limit on the number of SCAN calls; it relies on Redis eventually
  returning cursor 0. The model states that reliance as its one
  requirement, `Stops(replies)`: the script reaches a point where the code
  stops, which is a zero cursor, a raised error, or at least 1000 keys
  collected.

Where the code and the repository's own tests disagree, the model follows
the code:

- **Missing key on the detail page.** tests/test_key_detail.py:59-63 expects
  a 404 response for a missing key. The view does raise Http404 for it, but
  inside its own `try` (views.py:335-336). The generic handler at
  views.py:411-412 catches it, so the page renders with the message "Key 'k'
  not found in database n" and no record (`KeyDetail.View`).

Behaviours of the code that the lemmas make explicit:

- **Key gone during a search.** A key that vanished between SCAN and TYPE is
  not dropped from the results. TYPE answers "none", TTL answers -2 and
  nothing raises, so the key gets a row with type "none", no TTL and size 0
  (`KeySearch.LookupRowOfMissing`). Only keys whose commands raise are
  skipped.
- **Updating a string value.** The update runs SET, and SET drops the key's
  TTL in Redis. The page still shows the TTL and size read before the write
  (`KeyDetail.UpdateStringValue`).
- **The "-1" rule.** A TTL field of exactly "-1" removes the expiry. The
  field " -1", with spaces, is parsed as a number and refused as not
  positive (`KeyDetail.SpacedMinusOneRefused`).
- **Two notions of white space.** The TTL field is blank when `str.strip()`
  empties it, and that counts the separators U+001C to U+001F as white
  space. `int()` does not skip them, so a field such as U+001C followed by
  "5" is refused as not a number (`KeyDetail.SeparatorNotANumber`).

## Model

| member | source | states |
|---|---|---|
| Utf8.Encode | dj_redis_panel/encoding_utils.py:106-111 | UTF-8 encoding succeeds exactly when the text has no lone surrogate; the bytes have the summed UTF-8 width of the code points |
| Utf8.DecodeOfEncode | dj_redis_panel/encoding_utils.py:106-108 | decoding the UTF-8 form of surrogate-free text gives the text back |
| Utf8.EncodeOfDecode | dj_redis_panel/encoding_utils.py:37-39 | bytes the strict decoder accepts are exactly the UTF-8 form of the decoded text, so decoding loses nothing |
| Utf8.AsciiDecodes | dj_redis_panel/encoding_utils.py:37-39 | ASCII bytes decode to the same code points |
| Utf8.EncodeInjective | dj_redis_panel/encoding_utils.py:106-108 | two texts with the same UTF-8 form are equal |
| Utf8.EncodeErrorMessage | dj_redis_panel/views.py:348 | the message `str(e)` of the UnicodeEncodeError always ends with ": surrogates not allowed" |
| Utf8.EncodeErrorMessages | dj_redis_panel/views.py:411-412 | the page error for a lone surrogate names its `\u` escape and position; for a run of surrogates, the positions of both ends, in CPython's two wordings |
| BytesLiteral.Repr | dj_redis_panel/encoding_utils.py:41-43 | `repr(b)` starts with b and a quote, ends with that same quote, and is printable ASCII |
| BytesLiteral.ParseRepr | dj_redis_panel/encoding_utils.py:95-100 | evaluating `repr(b)` as a literal gives back `b`, for every bytes value |
| BytesLiteral.ReprInjective | dj_redis_panel/encoding_utils.py:41-43 | distinct bytes values have distinct representations |
| RedisValueDecoder.DecodeValue | dj_redis_panel/encoding_utils.py:19-46 | None maps to None and only None does; text passes unchanged; UTF-8 bytes become text whose encoding is those bytes; other bytes become exactly their `repr`, which parses back as a literal of those bytes |
| RedisValueDecoder.BinaryShownAsLiteral | dj_redis_panel/encoding_utils.py:41-43 | the display text of bytes that are not UTF-8 has the b'' shape: it starts with b and a quote and ends with that same quote, the quote `repr` picks for those bytes |
| RedisValueDecoder.DecodeList | dj_redis_panel/encoding_utils.py:48-54 | same length and order, each element decoded on its own |
| RedisValueDecoder.DecodeZsetList | dj_redis_panel/encoding_utils.py:67-71 | members decoded in place, scores and order untouched |
| RedisValueDecoder.DecodeDict | dj_redis_panel/encoding_utils.py:56-65 | the result has distinct keys and no more items than the input |
| RedisValueDecoder.DecodeDictKeys | dj_redis_panel/encoding_utils.py:62-65 | a text is a key of the result exactly when some input key decodes to it |
| RedisValueDecoder.DecodeDictLastWins | dj_redis_panel/encoding_utils.py:62-65 | a key's value is the decoded value of the last item whose key decodes to it |
| RedisValueDecoder.DecodeDictNoCollision | dj_redis_panel/encoding_utils.py:62-65 | when no two keys decode alike, the result is the input decoded item by item, in order |
| RedisValueDecoder.DecodeDictCanCollapse | dj_redis_panel/encoding_utils.py:62-65 | the raw byte 0x80 and the text of its repr decode to one key, so the result can be shorter than the input |
| RedisValueDecoder.EncodeForRedis | dj_redis_panel/encoding_utils.py:73-111 | non-text passes unchanged; the result is bytes or the input; plain text becomes bytes exactly when it has no lone surrogate, and those bytes decode back to it; literal-shaped text becomes bytes exactly when it parses as a literal, and then the bytes are the literal's |
| RedisValueDecoder.UnparsableLiteralKept | dj_redis_panel/encoding_utils.py:101-104 | literal-shaped text that does not parse is returned as it is, not encoded by some lossy fallback |
| RedisValueDecoder.BinaryRoundTrip | dj_redis_panel/encoding_utils.py:37-100 | bytes that are not UTF-8, shown as their repr and stored back, are the same bytes |
| RedisValueDecoder.TextRoundTrip | dj_redis_panel/encoding_utils.py:37-111 | UTF-8 bytes whose text does not look like a bytes literal survive display and storing back |
| RedisValueDecoder.LiteralShapedTextChanged | dj_redis_panel/encoding_utils.py:37-104 | UTF-8 bytes whose text looks like a bytes literal never come back: the literal denotes fewer bytes than the text has code points, and UTF-8 takes at least one byte per code point |
| RedisValueDecoder.RoundTrip | dj_redis_panel/encoding_utils.py:19-111 | a bytes value survives display and storing back if and only if it is not UTF-8 whose text itself looks like a bytes literal |
| RedisValueDecoder.LiteralShapedTextNotRestored | dj_redis_panel/encoding_utils.py:89-100 | that exception is real: the valid UTF-8 text b'\x41' is stored back as the single byte A |
| RedisValueDecoder.EncodedTextRoundTrip | dj_redis_panel/encoding_utils.py:33-108 | surrogate-free text that does not look like a literal survives encoding and then decoding |
| PyInt.StripSpec | dj_redis_panel/views.py:387 | stripping leaves no white space at either end, and gives the empty text exactly when every code point is white space |
| PyInt.ParseDecimal | dj_redis_panel/views.py:392 | `int(str(n)) == n` for every natural number within the 4300-digit limit |
| PyInt.ParseNegativeDecimal | dj_redis_panel/views.py:392 | `int("-" + str(n)) == -n` within the same limit |
| RedisStore.Ttl | dj_redis_panel/views.py:340 | TTL answers -2 exactly for a missing key, -1 for no expiry, else the seconds left; it raises only on a failing key |
| RedisStore.Get | dj_redis_panel/views.py:347 | a value from GET is the string stored under the key |
| RedisStore.Set | dj_redis_panel/views.py:378 | SET stores the new string, drops the key's TTL and overwrites whatever made the old content unreadable, every other key staying as it was; it fails exactly when the key's commands fail, the text has a lone surrogate the client's strict UTF-8 encoder refuses, or the server refuses writes, and the encoder's refusal comes before the server's |
| RedisStore.GetAfterSet | dj_redis_panel/views.py:378 | after a successful SET, GET returns the new text and TTL reports no expiry |
| RedisStore.Persist | dj_redis_panel/views.py:388 | PERSIST clears only this key's expiry; the key set and all other keys are unchanged |
| RedisStore.Expire | dj_redis_panel/views.py:394 | EXPIRE sets only this key's expiry; the key set and all other keys are unchanged |
| RedisStore.Delete | dj_redis_panel/views.py:403 | DEL removes exactly this key |
| RedisStore.EncodeUtf8 | dj_redis_panel/views.py:272 | the size of a string is the UTF-8 length of its text; encoding raises exactly on a lone surrogate |
| RedisStore.SizeOfMatchesValue | dj_redis_panel/views.py:268-280 | dispatching on TYPE's answer measures the stored value: byte length of a string, element count of a collection, 0 for other types and missing keys |
| KeySearch.ScanKeys | dj_redis_panel/views.py:245-256 | the loop leaves right after the first call after which it must stop (cursor 0, 1000 keys, or an exception) and not before; it sends 0 and then each reply's cursor; its keys are all batches received, in order; it leaves with a nonzero cursor only after 1000 keys; a raising call propagates |
| KeySearch.FirstStop | dj_redis_panel/views.py:247-256 | a stop after call n with no stop before it makes n the number of SCAN calls the loop makes |
| KeySearch.Search | dj_redis_panel/views.py:240-311 | the total counts every key scanned; rows are built from the first 100 keys only; showing_keys is the row count; a raising scan leaves an empty page with its message |
| KeySearch.LookupRowOfEntry | dj_redis_panel/views.py:264-289 | a readable key's row gives its type, the size of its value, and its TTL only when that TTL is positive |
| KeySearch.LookupRowOfMissing | dj_redis_panel/views.py:264-289 | a key gone since the scan still gets a row: type none, no TTL, size 0 |
| KeySearch.LookupRowSkips | dj_redis_panel/views.py:262-292 | a key is skipped exactly when every command on it raises, or it holds a string whose GET raises or whose text has a lone surrogate; a collection whose members cannot be read still gets a row |
| KeySearch.RowsFollowKeys | dj_redis_panel/views.py:261-292 | row j is the lookup of one key position; positions strictly increase, so scan order is kept; a position has a row exactly when its lookup succeeds |
| KeySearch.RowsAreLookups | dj_redis_panel/views.py:282-289 | every row describes one of the keys, exactly as a fresh lookup of that key would |
| InstanceOverview.ListDatabases | dj_redis_panel/views.py:76-192 | a database is listed exactly when it is below 16, it and every lower database answered, and it is database 0 or not empty; rows are in ascending order with their key counts; is_default marks database 0 alone |
| KeyDetail.ReadRecordOfEntry | dj_redis_panel/views.py:339-368 | the record shows the stored type, value and size, and the TTL only when it is positive; other types show no value and size 0 |
| KeyDetail.ClassifyTtl | dj_redis_panel/views.py:387-400 | the field removes the TTL exactly when it is blank or exactly "-1"; otherwise it is "not a number" exactly when `int()` fails, "not positive" exactly when `int()` gives a number at most 0, and an accepted TTL is the positive number `int()` reads |
| KeyDetail.ClassifyDecimal | dj_redis_panel/views.py:392-396 | a positive decimal number asks for exactly that many seconds |
| KeyDetail.ClassifyNegative | dj_redis_panel/views.py:392-398 | any negative number other than -1 is refused as not positive |
| KeyDetail.SpacedMinusOneRefused | dj_redis_panel/views.py:387-398 | " -1" does not remove the TTL; it is refused as not positive |
| KeyDetail.ZeroRefused | dj_redis_panel/views.py:392-398 | "0", "-0" and "+0" are numbers but not positive, so they are refused |
| KeyDetail.SeparatorNotANumber | dj_redis_panel/views.py:387-400 | U+001C then "5" is not blank, since `str.strip()` removes only the separator, and `int()` refuses it as not a number |
| KeyDetail.View | dj_redis_panel/views.py:330-412 | a failing or missing key gives a page with no record, the raised or "not found" message, and no write; any error page leaves the database unchanged; the database changes only for a present key whose writes are accepted |
| KeyDetail.Apply | dj_redis_panel/views.py:370-409 | after the record is read, the page keeps it; an error on the page means nothing was written; only a write the store accepts changes the database |
| KeyDetail.ViewOnly | dj_redis_panel/views.py:339-368 | without an action the page shows the record and changes nothing |
| KeyDetail.UpdateStringValue | dj_redis_panel/views.py:374-380 | a string key gets the new value with its TTL dropped; the page shows the new value, the old size and TTL, and the success message |
| KeyDetail.UpdateValueUnencodable | dj_redis_panel/views.py:374-412 | a new value with a lone surrogate is refused by the encoder before SET is sent: the page shows the record read before with UnicodeEncodeError's message, and nothing is written |
| KeyDetail.UpdateOtherValueRefused | dj_redis_panel/views.py:377-382 | any other type is refused with "Direct editing not supported for {type} keys", and nothing is written |
| KeyDetail.UpdateTtlPositive | dj_redis_panel/views.py:392-396 | a positive TTL reaches both the database and the page, with the message "TTL set to n seconds"; no other key changes |
| KeyDetail.UpdateTtlRemove | dj_redis_panel/views.py:387-390 | removing the TTL clears it in the database and on the page; no other key changes |
| KeyDetail.UpdateTtlRefused | dj_redis_panel/views.py:397-400 | a refused TTL writes nothing and gives its message |
| KeyDetail.DeleteRemovesKey | dj_redis_panel/views.py:402-409 | deletion removes exactly the key and redirects to the search page |
| KeyDetail.WriteRefused | dj_redis_panel/views.py:374-412 | when the write an action needs raises, the page shows the record read before it with the raised message, and the database is unchanged |
| KeyDetail.UnreadableContentRefused | dj_redis_panel/views.py:345-359 | when reading a string, list, set, sorted set or hash value raises, the page has no record, only the raised message, and nothing is written |

## Left out

- **Django request handling.** This covers authentication, the
  unknown-instance 404, the template, the `?deleted=1` message and the
  context fields not listed above. The model begins after the connection is
  made and the database is selected.
- **redis_utils.py and the connection.** redis_utils.py is not part of this
  model. A failing connection or SELECT shows up as the first command
  raising.
- **The instance overview around its loop.** The page's PING and INFO
  statistics are left out. So are the expiry and memory estimates made by
  sampling (views.py:84-172): they are floating-point guesses. Of the
  sampling commands, only a raising SCAN or TTL (views.py:91 and
  views.py:96) ends the walk over databases. The model covers that case as
  a database missing from `sizes`. A raising TYPE, GET or length command
  is caught at views.py:164-166 and only adds 100 bytes to the estimate.
- **Redis semantics of the snapshot.** Keys changing between two commands of
  one request are left out, as are expiry passing in real time and the
  meaning of SCAN's MATCH pattern and COUNT hint. The SCAN replies are taken
  as given.
- RedisStore.Expire: it does not model the error Redis returns for a TTL
  so large that the expiry time overflows. That case depends on the server
  clock.
- **Encoders other than "utf-8".** The LookupError branches for an unknown
  encoder are not modelled. The decoder is only ever built with its default.
- **Other value types.** A value of any other type is carried as the text of
  its `str()`.
- BytesLiteral.ParseBytesLiteral: this reads a single short literal
  whose closing quote is the last character. Some inputs pass the shape test
  but are not a single short literal: triple-quoted literals, adjacent
  literals that Python concatenates (`b'a' b'b'`), a trailing comment, or a
  tuple of literals. Python evaluates these, but the model treats them as a
  failed parse. `repr` never produces any of these forms.
- PyInt.ParseInt: decimal digits outside ASCII are not accepted, although
  Python's `int()` accepts them. Such input is read as not a number.
- **The order of SMEMBERS replies.** A set is shown as a set.
- **The order of HGETALL replies.** A hash is a map from field to value, so
  the field order the detail page shows (views.py:359) is not modelled.
