# URL shortener core in Dafny

This project models the core of a small URL shortener written in Rust with actix-web and
PostgreSQL. The model has three parts:

- **The short-code encoder** (`Base62`). The handler reads the id of the most recently created
  row, adds one, and writes that number in base 62. The alphabet is `a..z A..Z 0..9`, with `'a'`
  as the digit for zero. Digits are produced least-significant first by a `while num > 0` loop.
  The loop is the method `EncodeDigits`, proved equal to the recursive specification `Encode`.
  About `Encode` the project proves: decoding gives the number back; encoding a canonical string's
  value gives the string back; the encoding is injective; output length is bounded by powers of 62;
  and the encoding of a positive number is non-empty, uses only the alphabet and never ends in `'a'`.
- **The `short_urls` table** (`Storage`). The class `Registry` holds the rows in insertion order
  and the next value of the id sequence. Its queries are `FetchOne` (`SELECT ... WHERE col = $1`
  with `fetch_one`), `LatestId` (`ORDER BY created_at DESC LIMIT 1`) and `Insert`. `Valid()`
  holds the table's constraints: positive increasing ids, a unique long URL and a unique short code.
  Every query takes a `fault` flag, which stands for a transport error on that round trip.
  sqlx's "no rows returned" error is the error kind `RowNotFound`.
- **The handlers** (`ShortUrls`). `GenerateShortUrl` validates the URL, returns the existing code
  of a known URL, and otherwise chooses the next code and inserts a row. `NavigateToLongUrl`
  redirects with 308 to the stored URL or answers 404. Both return an abstract `Response`.
  The predicate `Generated` describes a table built by shorten requests run one after another:
  the first row has code `"a"`, and every later row has the encoding of the previous row's id
  plus one. `GenerateShortUrl` preserves `Generated`. In such a history the next code is always
  fresh (`NextCodeFresh`), so a shorten request with no transport error never fails on the
  short-code constraint. The codes are also pairwise distinct without relying on that constraint
  (`GeneratedCodesDistinct`).

Three facts about the handler code shape the model:

- The handler has no retry loop. Any failure after validation, including a constraint violation
  on insert, is answered with 500.
- On an empty table the handler issues the literal code `"a"`, the digit for 0 used as a
  one-character code. The encoding loop itself gives `""` for 0 and `"b"` for 1. The second URL
  gets `Encode(1 + 1) = "c"`, so `"b"` is never issued (`ExampleSession`), and `"a"` never
  equals an encoder output (`FirstCodeNeverEncoded`).
- The handler treats a failed dedup lookup like "not found". It then goes on to generate a code
  and insert, and the long-URL constraint turns that insert into a 500 if the URL was already
  stored.

## Model

| member | source | states |
|---|---|---|
| `Base62.Symbol` | src/routes/short_urls.rs:87 | the digit for d is a letter or numeral, laid out as 26 lower-case letters, 26 upper-case letters, 10 numerals |
| `Base62.AlphabetSymbol` | src/routes/short_urls.rs:87-88 | the table `allowed_chars` has 62 entries, and entry d is the digit for d |
| `Base62.DigitValue` | src/routes/short_urls.rs:87-93 | the value of a digit character is a number below 62 whose digit is that character |
| `Base62.SymbolValue` | src/routes/short_urls.rs:87-93 | reading the digit for d gives back d, so distinct values have distinct digits |
| `Base62.EncodeStep` | src/routes/short_urls.rs:91-95 | the code of a positive number is its lowest digit followed by the code of the quotient by 62 |
| `Base62.EncodeDigits` | src/routes/short_urls.rs:88-95 | the `while num > 0` loop that pushes `allowed_chars[num % 62]` and divides by 62 returns exactly `Encode(n)` |
| `Base62.EncodeCanonical` | src/routes/short_urls.rs:89-95 | every output uses only the alphabet and has no trailing `'a'`; it is empty exactly for 0 |
| `Base62.DecodeEncode` | src/routes/short_urls.rs:89-95 | the least-significant-first value Σ digit(cᵢ)·62ⁱ of `Encode(n)` is `n` |
| `Base62.EncodeDecode` | src/routes/short_urls.rs:89-95 | every canonical string is the encoding of its value, so the encoder's outputs are exactly the canonical strings |
| `Base62.EncodeInjective` | src/routes/short_urls.rs:86-95 | two numbers have the same code if and only if they are equal |
| `Base62.EncodeLength` | src/routes/short_urls.rs:91-95 | a number with a k-digit code is below 62^k and, when positive, at least 62^(k-1) |
| `Storage.IndexWhere` | src/routes/short_urls.rs:116-123 | the first row whose column equals the key, or none exactly when no row matches |
| `Storage.IndexOfUnique` | src/routes/short_urls.rs:139-146 | under a unique constraint the row found by a value is the one row holding it |
| `Storage.Registry.FetchOne` | src/routes/short_urls.rs:116-123 | `fetch_one` on an equality query returns the matching row, `RowNotFound` when none matches, `Unavailable` on a transport failure |
| `Storage.Registry.LatestId` | src/routes/short_urls.rs:77-84 | the id of the last inserted row, which is the largest id; `RowNotFound` on an empty table |
| `Storage.Registry.Insert` | src/routes/short_urls.rs:154-176 | on success the table gains exactly the row (next id, url, code); a duplicate URL or code, or a transport failure, leaves the table unchanged and reports the error |
| `ShortUrls.IsValid` | src/routes/short_urls.rs:178-181 | a URL is accepted iff it starts with `http://` or `https://`; the non-empty test is implied |
| `ShortUrls.ValidationExamples` | src/routes/short_urls.rs:178-181 | `""` and `"ftp://x"` are refused; `http://x`, `https://x` and the tests' URL are accepted |
| `ShortUrls.FirstCodeNeverEncoded` | src/routes/short_urls.rs:99-101 | the empty-table code `"a"` differs from the encoding of every number |
| `ShortUrls.NextCode` | src/routes/short_urls.rs:85-101 | the chosen code is non-empty ASCII over the alphabet, and it is `"a"` exactly when the table is empty |
| `ShortUrls.GenerateShortCode` | src/routes/short_urls.rs:76-106 | returns `"a"` on an empty table and otherwise the encoding of the latest id plus one; a transport error is returned as an error; the result is ASCII, so the UTF-8 fallback at line 96 is never taken |
| `ShortUrls.GeneratedAt` | src/routes/short_urls.rs:85-95 | in a sequential history the first row holds `"a"` and every later row the encoding of the previous id plus one |
| `ShortUrls.CodeBeforeLatest` | src/routes/short_urls.rs:85-101 | in a sequential history no row holds the encoding of the latest id plus one |
| `ShortUrls.NextCodeFresh` | src/routes/short_urls.rs:51-65 | in a sequential history the next code is held by no row, so the insert cannot violate the short-code constraint |
| `ShortUrls.GeneratedCodesDistinct` | src/routes/short_urls.rs:85-101 | in a sequential history the short codes are pairwise distinct |
| `ShortUrls.FetchLongUrl` | src/routes/short_urls.rs:112-129 | returns the URL stored under the code; a missing row and a failed query both give None |
| `ShortUrls.FetchShortCode` | src/routes/short_urls.rs:135-151 | returns the code stored for the URL; a missing row and a failed query both give None |
| `ShortUrls.GenerateShortUrl` | src/routes/short_urls.rs:32-71 | an invalid URL gives 400 before any query. A known URL gives 200 with `"/" + its code` and no change. Otherwise, a new URL with no faults gets the next code and exactly one new row. Any other failure gives 500 with no change. In a sequential history a new URL with no transport error always succeeds, and the history stays sequential |
| `ShortUrls.NavigateToLongUrl` | src/routes/short_urls.rs:14-29 | 308 to the stored URL when a row has the code and the query succeeds, otherwise 404, both as the response and as its status code |
| `ShortUrls.ShortenThenNavigate` | src/routes/short_urls.rs:57-65 | following the short URL returned by a successful shorten redirects to the shortened URL |
| `ShortUrls.ShortenTwice` | src/routes/short_urls.rs:40-50 | shortening a URL again returns the same short URL, and the two requests add at most one row |
| `ShortUrls.ExampleSession` | src/routes/short_urls.rs:85-101 | on an empty table the first URL gets `/a`, the second `/c`, re-shortening the first gives `/a` again, and following `a` redirects to the first URL |

## Left out

- HTTP plumbing is not modelled: actix-web routing, the JSON request and response bodies, header construction, and response bodies' text. Responses are the abstract `Response` datatype.
- The navigate route is missing from the router in src/startup.rs. That is routing, outside this model.
- SQL text, sqlx and the connection pool are not modelled. The error-message test `contains("no rows returned")` is the error kind `RowNotFound`.
- Transport failures are the boolean parameters `fault` / `Faults`. The model does not say when they happen.
- `created_at` and `Utc::now()` are not modelled. "Most recent" is the last row in insertion order.
- Concurrency is not modelled: async/await and the race between two requests that read the same latest id are outside the model. The lemmas cover sequential histories only, and concurrent requests are exactly where the short-code constraint matters.
- The database migration is not part of this model. Unique constraints on `original_url` and `short_code` are assumed, because the handlers rely on them.
- Id sequence gaps are not modelled: a failed insert leaves the next id unchanged, whereas PostgreSQL may consume a sequence value. The distinctness lemmas only need increasing ids, so they would still hold.
- The `as u64` cast of the id is not modelled. Ids are `nat`, since database ids are positive.
- Logging is not modelled: `tracing` calls, `eprintln!`, configuration, src/main.rs and the test harness's database setup are I/O.
