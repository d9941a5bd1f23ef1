# URL shortener core in Dafny

A model of the core of a small Flask URL shortener (`app.py`). The model has two parts.

**The short-code encoder.** The UTF-8 bytes of a URL are read as one big-endian unsigned integer, and that integer is written in base 62. The stored short code is the first eight characters of that encoding. Decoding goes back to the integer and rebuilds `(bit_length + 7) // 8` bytes.

**The `url_map` table and the handlers that use it.**
- `POST /shorten` creates or fetches a row. A stored row that has expired is deleted. A new row is created in two phases: a row with the placeholder code `"temp"` is committed first, then its code is overwritten with the eight-character prefix and committed again.
- `GET /<short_code>` counts a click and redirects with a scheme added if needed.
- `GET /stats/<short_code>` reports a row, or deletes it if it has expired.
- `GET /registered_short_urls` lists the rows that have not expired.

Modules:

- `Wrappers`: `Option` and `Result`.
- `Base62`: the integer arithmetic.
  - `int.from_bytes(b, 'big')` is `FromBytes`.
  - `int.to_bytes(len, 'big')` is `ToBytes`, with `None` for Python's `OverflowError`.
  - `int.bit_length()` is `BitLength`.
  - Base-62 digit strings, most significant digit first, are `ToDigits` and `FromDigits`.
  - The digits are written over an alphabet of 62 distinct characters. The alphabet is a parameter, because the concrete character set belongs to the external `base62` library.
- `Codec`: the UTF-8 encoding of a string, `base62_encode_str` (`EncodeStr`), `base62_decode_str` (`DecodeStr`) and the production short code (`ShortCode`).
- `Rows`: the `URLMap` row, the two unique columns, the point lookups, row deletion and click counting as functions on the table, the listing of active rows and the normalisation of the redirect target.
- `Store`: the class `UrlStore`. It holds the table as a sequence of rows that each commit reassigns. It also holds the alphabet. Its methods are `Shorten` (with `Create` for the two-phase creation path), `Resolve` and `GetStats`. The invariant `Valid` says:
  - both unique constraints hold;
  - ids increase along the table;
  - every row expires 30 days after its creation;
  - every row's code is either `"temp"` or the eight-character prefix of the encoding of its own URL.

  The module also has three client methods. They prove the idempotence of shortening, a shorten → resolve → stats sequence, and what a failed creation does to later creations.

Time is a natural number of seconds passed in as `now`. A row created at `now` expires at `now + THIRTY_DAYS` (2 592 000 s).

Behaviour of the code that the model makes explicit:

- **Expiry test.** Expiry is strict (`outdate_after < now`). A row is still live at the instant `outdate_after` itself, and `/registered_short_urls` still lists it then.
- **Prefix collision.** When finalisation collides with an existing code, the committed `"temp"` row stays in the table and the request fails with an `IntegrityError` (HTTP 500).
  - Because `short_code` is unique, that row makes the placeholder insert of every later new URL fail too. `Store.FailedCreationBlocksNext` proves this.
  - The blocking lasts until the `"temp"` row expires and is deleted. That happens when `GET /stats/temp` or a new shorten request for its URL arrives after its 30 days.
- **Requests for `/temp`.** `/temp` resolves to a placeholder row like any other code, and counts a click on it.
- **Round trip.** The byte-level round trip holds only when the first byte is not zero. A leading NUL character is lost (`Codec.LeadingZeroLost`).
- **Ids.** SQLite gives a new row one more than the largest id in use (`Rows.NextIdIsLastPlusOne`). So when the last row is deleted, the next row created gets an id no larger than the deleted one; it is the same id when the row before it holds the id just below (`Rows.NextIdAfterDeletingLast`).
- **Stored URLs.** A stored URL is looked up before any insert. An insert that fails at commit is reported as an `IntegrityError`; it is never retried as a lookup.

## Model

| member | source | states |
|---|---|---|
| `Base62.FromBytes` | app.py:18 | the big-endian value of a byte string is below 256^length |
| `Base62.FromBytesLowerBound` | app.py:18 | a byte string with a non-zero first byte has a value of at least 256^(length-1) |
| `Base62.FromBytesLeadingZero` | app.py:18 | a leading zero byte does not change the value |
| `Base62.ToBytes` | app.py:26 | `to_bytes(len)` succeeds exactly when the value is below 256^len, and then gives len bytes whose value is the input |
| `Base62.ToBytesFromBytes` | app.py:18-26 | writing the value of s back with as many bytes as s has gives s |
| `Base62.BitLength` | app.py:26 | `bit_length` is 0 for 0, and for n > 0 it is the k with 2^(k-1) <= n < 2^k |
| `Base62.ByteLength` | app.py:26 | `(bit_length + 7) // 8` is the bit length rounded up to whole bytes: 8 times it is at least the bit length and less than the bit length plus 8 |
| `Base62.ByteLengthFits` | app.py:26 | n always fits in `(bit_length + 7) // 8` bytes, so the decoder's `to_bytes` never overflows |
| `Base62.ByteLengthOfFromBytes` | app.py:18-26 | for a byte string without a leading zero byte, `(bit_length + 7) // 8` of its value is its length |
| `Base62.ToDigits` | app.py:19 | the base-62 encoding has at least one digit and no leading zero digit unless it is the single digit of 0 |
| `Base62.FromDigitsToDigits` | app.py:19-23 | decoding the digits of an encoding gives the integer back |
| `Base62.ToDigitsFromDigits` | app.py:19-23 | a digit string without a leading zero is the encoding of its own value |
| `Base62.FromDigits` | app.py:23 | the value of a digit string read in base 62, most significant digit first, is below 62^length |
| `Base62.Unspell` | app.py:23 | reading a code succeeds exactly when every character is in the alphabet, and gives digits that spell the code |
| `Base62.Spell` | app.py:19 | writing digits over the alphabet gives one character per digit, the character at that digit's position |
| `Base62.UnspellSpell` | app.py:19-23 | with 62 distinct characters, reading back a spelled digit string gives the digits |
| `Codec.Utf8` | app.py:18 | the UTF-8 bytes of a string are at least as many as its characters, and only a leading NUL gives a leading zero byte |
| `Codec.EncodeBytes` | app.py:18-19 | the base-62 encoding of a byte string is non-empty and made only of alphabet characters |
| `Codec.EncodeStr` | app.py:16-19 | `base62_encode_str` yields a non-empty code |
| `Codec.DecodeStr` | app.py:22-26 | `base62_decode_str` fails only on a character outside the alphabet; its byte rebuilding never overflows |
| `Codec.RoundTripBytes` | app.py:16-26 | decoding the encoding of a byte string without a leading zero byte gives that byte string |
| `Codec.RoundTrip` | app.py:16-26 | decode(encode(s)) is the UTF-8 bytes of s for every s that does not start with NUL |
| `Codec.LeadingZeroLost` | app.py:18-26 | a leading zero byte does not change the encoding and is dropped by decoding |
| `Codec.EncodeOfDecode` | app.py:16-26 | a code with no leading zero digit decodes to bytes whose encoding is that code |
| `Codec.ShortCode` | app.py:106-107 | the short code is a prefix of the full encoding, 1 to 8 characters long, and is the whole encoding when that is shorter than 8 |
| `Codec.ShortCodeInjectiveWhenShort` | app.py:106-107 | two URLs whose encodings fit in 8 characters share a short code only if their UTF-8 bytes are equal |
| `Rows.FindByUrl` | app.py:92 | the lookup by URL returns the first row holding the URL, or none exactly when no row holds it |
| `Rows.Expired` | app.py:94 | a row is expired exactly when `outdate_after` is strictly before now, the test shared by shorten_url and stats (app.py:138) |
| `Rows.UniqueUrls` | app.py:32 | no two rows hold the same `original_url` (the column's unique constraint) |
| `Rows.UniqueCodes` | app.py:33 | no two rows hold the same `short_code` (the column's unique constraint) |
| `Rows.WellFormed` | app.py:31-45 | the table invariant: both unique constraints, ids increasing along the table, and every row expiring 30 days after creation with code `"temp"` or the prefix of its own URL's encoding |
| `Rows.WellFormedRowBounds` | app.py:33-45 | in a well-formed table every code has 1 to 8 characters and every row is live for a while after its creation |
| `Rows.FindByCode` | app.py:122 | the lookup by code returns the first row holding the code, or none exactly when no row holds it |
| `Rows.FindByCodeUnique` | app.py:33 | under the unique `short_code` constraint, the lookup finds the one row holding the code |
| `Rows.NextId` | app.py:31 | a new row's id is one more than the largest id in use: it exceeds every id in use and is one more than one of them, and it is 1 in an empty table |
| `Rows.NextIdIsLastPlusOne` | app.py:31 | with ids increasing along the table, a new row's id is the last row's id plus one |
| `Rows.NextIdAfterDeletingLast` | app.py:31 | after the last row is deleted, the next id is at most the deleted row's id (1 in an emptied table), and, for a table of two or more rows, is that id exactly when the row before holds the id just below, so ids are reused |
| `Rows.RemoveAt` | app.py:95 | deleting row i keeps every other row, in order |
| `Rows.WellFormedRemoveAt` | app.py:94-97 | deleting a row keeps both unique constraints, increasing ids and the per-row invariant |
| `Rows.CountClick` | app.py:124 | `clicks += 1` raises that row's click count by exactly one and changes no other row |
| `Rows.WellFormedCountClick` | app.py:124-125 | counting a click keeps the table invariant |
| `Rows.WellFormedAppend` | app.py:101-103 | appending a row under the next id whose URL and code are not yet held keeps the table invariant |
| `Rows.WellFormedSetCode` | app.py:106-109 | setting a row's code to its own URL's prefix keeps the table invariant when no other row holds that code |
| `Rows.ListActive` | app.py:174-185 | the listing holds exactly the rows with `outdate_after >= now` and is no longer than the table |
| `Rows.ListActiveAppend` | app.py:174-185 | the listing distributes over concatenation, so it keeps table order |
| `Rows.ListedIffNotExpired` | app.py:184 | a row is listed exactly when the strict `<` expiry test of shorten and stats says it is not expired |
| `Rows.ListedForThirtyDays` | app.py:40-42 | a row is listed until exactly thirty days after its creation, whether or not it was read |
| `Rows.ListActiveIdsIncreasing` | app.py:174-185 | the listing of a table with increasing ids has increasing ids |
| `Rows.Normalize` | app.py:127-130 | the redirect target starts with `http://` or `https://` and ends with the URL; it is the URL exactly when the URL already has one of those schemes, and `"http://"` + URL otherwise |
| `Rows.NormalizeIdempotent` | app.py:127-130 | normalising twice is normalising once |
| `Store.UrlStore.constructor` | app.py:188-191 | the created table is empty and satisfies the invariant |
| `Store.UrlStore.Valid` | app.py:30-45 | the store's alphabet has 62 distinct characters and its table is well formed |
| `Store.UrlStore.InsertPlaceholder` | app.py:101-103 | the placeholder commit succeeds exactly when neither the URL nor `"temp"` is held, and then appends one row with clicks 0, the given creation time and expiry 30 days later |
| `Store.UrlStore.FinalizeCode` | app.py:106-109 | the code update succeeds exactly when no other row holds the code, changes only that row's code, and otherwise leaves the table as it was |
| `Store.UrlStore.Create` | app.py:99-111 | a new URL gets exactly one row with its 8-character code, or fails with the `"temp"` row left behind when another row owns the prefix, or fails without change when a `"temp"` row already exists; the invariant is kept |
| `Store.UrlStore.Shorten` | app.py:89-111 | a missing or empty URL fails with 404 and changes nothing; a live stored URL returns its code and changes nothing; an expired one deletes exactly its row and fails with 410; a new URL goes through the two-phase creation; on success the URL is stored, live, under the returned code |
| `Store.UrlStore.Resolve` | app.py:120-133 | a known code gets exactly one more click, nothing else changes, expiry is not checked, and the target is the normalised URL; an unknown code fails with 404 and changes nothing |
| `Store.UrlStore.GetStats` | app.py:134-149 | an expired row is deleted and the call fails with 410; a live row is reported as URL, code, clicks and creation time with no change; an unknown code fails with 404 and changes nothing |
| `Store.ShortenTwice` | app.py:89-111 | when a first shorten succeeds, a second one at the same instant returns the same code, the URL has one row with that code, and at most one row was added |
| `Store.FailedCreationBlocksNext` | app.py:101-109 | once a creation fails at a commit, shortening any other URL not yet stored fails too |
| `Store.ShortenResolveStats` | app.py:80-149 | shortening a new URL without a scheme, resolving its code and asking for its stats gives the target `"http://" + URL` and one click |

## Left out

- Flask routing, JSON and form request parsing, the redirect responses, the HTML page and the `http://127.0.0.1:5000/` host prefix are web glue. `Shorten` takes the request field as an `Option<string>` and returns the code.
- The generic error handler and its JSON body with timestamps are left out. Failures are `Store.Failure` values: `Abort(status, description)` for `abort`, and `IntegrityError` for a unique-constraint violation at commit, which the handler renders as HTTP 500.
- SQLAlchemy sessions, queries and commits are replaced by reassigning the in-memory row sequence. `URLMap.query.all()` and `.first()` are taken in table order.
- The `__main__` drop/create becomes the constructor's empty table.
- Wall-clock reads and time zone handling are left out: the clock is the parameter `now`. The two defaults `created_at` and `outdate_after` are read from the clock separately in the code; the model uses one instant for both.
- Concurrency between requests, including the check-then-insert race, is left out: the model is sequential.
- The concrete character set of the external `base62` library is a parameter. Any 62 distinct characters are allowed.
- Codec.DecodeStr: stops at the rebuilt bytes. The final UTF-8 decoding step, and the `UnicodeDecodeError` it can raise, are not modelled.
- The `String(256)` and `String(128)` column lengths are left out. SQLite does not enforce them.
- `outdate_after` is modelled as always set. The column is nullable, but its default always fills it.
- Integer columns are unbounded in the model. SQLite stores 64-bit integers: `clicks += 1` past 2^63 - 1 would fail at commit, and once the largest rowid 2^63 - 1 is in use SQLite picks an unused rowid at random instead of the largest plus one. Neither limit is reachable in practice.
- Strings are sequences of Unicode scalar values. A Python `str` can also hold a lone surrogate (for example from the JSON escape `"\ud800"`), which cannot be written as UTF-8. The lookup by URL (app.py:92) then already fails when the string is bound as a query parameter, giving HTTP 500 with the table unchanged. That input is not modelled.
- `__repr__`, the `print` in the redirect handler and the unused `hashids` import are left out.
