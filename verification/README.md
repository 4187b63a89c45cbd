# URL shortener: a Dafny model of its core

The service takes a long URL and returns a short code. A redirect on that
code goes back to the original URL, and the service counts the clicks.
Its logic lives in `app.py`. This model covers that logic:

- `base62_encode`: writes a whole number in base 62 over `0-9A-Za-z`
  (modules `Radix` and `Base62`).
- `generate_short_code`: up to five tries of a candidate made of 4 random
  characters plus the base-62 clock milliseconds modulo 1,000,000. Each
  try is checked against the store. When all five fail, the code is the
  base-62 clock seconds plus 6 random characters, with no check (module
  `Generator`).
- The short-code format check of the redirect and stats handlers
  (module `CodeFormat`).
- The URL record collection, and the two `find_one` lookups: by code and
  by URL (module `Records`).
- The `short_url` string of a `shorten` answer (module `ShortUrl`).
- `shorten`, `redirect_to_url` and `get_stats` as transitions over the
  collection (module `Handlers`).
- The record lifecycle across requests, and the invariants each request
  keeps (module `Lifecycle`).

`Text` models Python's `str.strip()` and the character classes. `Wrappers`
holds `Option`.

Outside inputs become parameters:
- The clock and `random.choices` are a `Generator.Entropy` value: the
  draws of each try and of the fallback.
- Whether a store call raises is a flag per try in the generator, and a
  `Handlers.StoreFaults` value per request in the handlers.
- `urlparse` is a function parameter `parse`. It returns the scheme and
  network location, or `None` when it raises.
- The current time of a record update is a `Timestamp` parameter.

The collection is a sequence in the store's natural order. `find_one`
returns the first match. The store does not enforce unique codes, and
the fallback path does not check its code. So two records may share a
code, and a map would hide that.

Three behaviours of `app.py` that are easy to misread:
- Code lengths. A code from a try is 4 random characters plus 1 to 4
  time characters, so it has 5 to 8 characters. A fallback code has 6
  random characters plus the encoded seconds: 12 characters for
  present-day clocks.
- The format check. The check is `re.match(r'^[a-zA-Z0-9]+$', code)`
  plus `len(code) > 20`. In Python, `$` also matches just before a final
  `"\n"`, so 1 to 19 letters and digits followed by `"\n"` pass the
  check. `CodeFormat.MatchesPattern` models this. Such a code then finds
  no record, because every stored code is letters and digits only
  (`Lifecycle.NewlineCodeNotFound`).
- Negative numbers. `base62_encode` of a negative number is the empty
  string, because its loop never runs. The model keeps this. It matters
  only for a fallback with a clock before 1970.

## Model

| member | source | states |
|---|---|---|
| Text.TrimStart | app.py:97 | drops exactly the leading run of Python whitespace: everything dropped is whitespace, and the result is empty or starts with a non-space |
| Text.TrimEnd | app.py:97 | drops exactly the trailing run of Python whitespace: everything dropped is whitespace, and the result is empty or ends with a non-space |
| Text.Strip | app.py:97 | `url.strip()` is a slice of the input with only whitespace around it, and neither end of it is whitespace |
| Text.StripUnique | app.py:97 | any slice with only whitespace around it and no whitespace at its ends is what `strip` returns, so the contract of `Strip` fixes its result |
| Text.StripIdempotent | app.py:97 | stripping twice gives the same string as stripping once |
| Radix.DigitValue | app.py:53 | a character has a digit value below 62 exactly when it is an ASCII letter or digit |
| Radix.AlphabetDigits | app.py:53-54 | the alphabet has 62 characters, and the character at position d has digit value d, so all 62 are distinct |
| Radix.DigitChar | app.py:59 | the character for digit d reads back as d |
| Radix.Digits | app.py:57-59 | the digit string uses only digits of the base; a positive number gets a non-empty string with no leading `0`; zero gets the empty string |
| Radix.ValueOfDigits | app.py:57-59 | reading the digits of n back, most significant first, gives n |
| Radix.DigitsOfValue | app.py:57-59 | every numeral with no leading zero is the digit string of the number it denotes |
| Radix.DigitsLength | app.py:57-59 | n has at most k digits in base b exactly when n < b^k |
| Base62.Encode | app.py:48-61 | `base62_encode(0)` is `"0"`; a positive number gets a non-empty result with no leading `0`; a negative one gets `""`; every character is in the 62-character alphabet |
| Base62.EncodeLoop | app.py:48-61 | the source's divmod-and-prepend loop computes `Encode` |
| Base62.DecodeEncode | app.py:53-59 | decoding the encoding, most significant digit first with the same alphabet, gives back the number |
| Base62.EncodeInjective | app.py:48-61 | two naturals have the same encoding exactly when they are equal |
| Base62.EncodeDecode | app.py:48-61 | the encodings are exactly `"0"` and the non-empty base-62 numerals with no leading `0` |
| Base62.EncodeLength | app.py:57-59 | for n > 0 the encoding has at most k characters exactly when n < 62^k |
| Base62.EncodeBelowMillion | app.py:69-71 | `base62_encode(ts % 1000000)` has 1 to 4 characters, since 62^4 > 10^6 |
| CodeFormat.MatchesPattern | app.py:150 | the definition the format check rests on: one or more ASCII letters or digits, or those followed by a single final newline, which Python's `$` accepts |
| CodeFormat.MatchPattern | app.py:150 | the regex engine's greedy scan matches exactly when the code is one or more ASCII letters or digits, with at most one final newline |
| CodeFormat.CheckCodeFormat | app.py:150 | the check passes exactly when the pattern matches and the code has at most 20 characters (the same test sits at line 178) |
| CodeFormat.FormatWithoutNewline | app.py:150 | for a code with no newline, the check passes exactly when the code is 1 to 20 letters and digits |
| CodeFormat.NewlineExample | app.py:150 | `"abc\n"` passes the check but is not a letters-and-digits code |
| Records.NewRecord | app.py:113-118 | the definition of the inserted document: the code, the stripped URL, the creation time and a click count of 0, with no `last_accessed` |
| Records.Find | app.py:104 | `find_one` returns the first record that matches the filter, or nothing exactly when no record matches |
| Records.Click | app.py:157-160 | the redirect update adds 1 to the click count (a missing count reads as 0) and sets `last_accessed`; the code, URL and `created_at` stay the same |
| Records.FindAppended | app.py:119 | after `insert_one` of a record that matches a filter no earlier record matches, `find_one` returns the new record |
| Records.FindAfterUpdate | app.py:157-160 | an update that keeps the code and URL of a record changes no `find_one` answer |
| Generator.Candidate | app.py:68-76 | the definition of a try's code: the 4 random characters followed by the base-62 encoding of the milliseconds modulo 1000000 |
| Generator.FallbackCode | app.py:86-88 | the definition of the fallback code: the base-62 encoding of the clock seconds followed by the 6 random characters |
| Generator.ProbeFor | app.py:79-84 | a try's check reports "absent" exactly when the store raised no error and no record has the candidate code |
| Generator.GenerateFrom | app.py:65-88 | the result is the first try's candidate that was absent, with every earlier try present or failed; if no try succeeds, it is the fallback code |
| Generator.GenerateShortCode | app.py:63-88 | the loop returns the same code as `GenerateFrom`; it makes at most 5 store checks, one per try, and none for the fallback |
| Generator.FreshCodeUnused | app.py:79-81 | a code returned from the loop was absent from the store when it was checked |
| Generator.FreshIffSomeTryFree | app.py:65-88 | the generator returns a tried code exactly when at least one of the five tries found its candidate free, and falls back otherwise |
| Generator.StoreErrorsFallBack | app.py:82-88 | when every check raises a store error, the fallback code is returned |
| Generator.CandidateShape | app.py:70-76 | a try's candidate is 5 to 8 letters and digits, so it passes the format check |
| Generator.FallbackShape | app.py:87-88 | the fallback code passes the format check exactly when the clock seconds are below 62^14; when it passes, it is letters and digits only |
| Generator.GeneratedShape | app.py:63-88 | with well-formed random draws and seconds below 62^14, every generated code is 1 to 20 letters and digits |
| ShortUrl.DecimalString | app.py:128 | `str(APP_PORT)` is a decimal numeral with no leading zero that reads back as the port, with a leading `-` for a negative port |
| ShortUrl.Protocol | app.py:124-129 | the definition of the protocol: `APP_PROTOCOL` outside debug mode; in debug mode `https` for a secure request and `http` otherwise |
| ShortUrl.Authority | app.py:123-128 | the definition of the host part: in debug mode the request's host; otherwise `APP_HOST`, followed by `:` and the port unless the port is 80 or 443 |
| ShortUrl.Build | app.py:131 | the short URL is exactly the protocol, then `://`, then the host part, then `/` and the code |
| ShortUrl.PortOmittedForDefaults | app.py:127-129 | outside debug mode the host part is the bare host exactly when the port is 80 or 443 |
| ShortUrl.CodeIsLastSegment | app.py:131 | a code with no `/` is the last path segment of its short URL |
| Handlers.IsValidUrl | app.py:40-46 | the definition of `is_valid_url` over the parser's result: the parser did not raise, scheme and network location are non-empty, and the scheme is `http` or `https` |
| Handlers.Shorten | app.py:91-141 | the store is unchanged, or it gains exactly one record (code from the generator, click count 0) for a URL it had no record of; success holds exactly when the URL is present, valid after stripping, and the store calls it needs succeed; after a success the URL's first record holds the returned code; a missing URL gives 400, an invalid one gives 400, a non-string one gives 500; a valid URL that does not succeed gets the 500 database error, which by the success condition happens exactly when `find_one` raises or `insert_one` raises for a new URL |
| Handlers.Redirect | app.py:147-169 | a bad code format gives 400; the redirect happens exactly when the format is valid, the store calls succeed and a record has the code; it goes to that record's URL, replaces only that record with its clicked form, and keeps every other record; an unknown code gives 404; a raising `find_one`, or a raising `update_one` for a known code, gives the 500 database error; every other outcome leaves the store unchanged |
| Handlers.View | app.py:184-190 | the stats show the requested code and the record's URL, and the click count with a missing count as 0, a missing `created_at` as `"Unknown"` and a missing `last_accessed` as `"Never"`, and the stored times when they exist |
| Handlers.GetStats | app.py:175-197 | the stats come back exactly when the format is valid, the read succeeds and a record has the code; they are the view of the first such record; a bad format gives 400; an unknown code gives 404; a raising `find_one` gives the 500 database error |
| Lifecycle.Step | app.py:91-193 | no request deletes a record or changes the code, URL or creation time of an existing record; a stats request leaves the store unchanged |
| Lifecycle.ShortenIdempotent | app.py:97-119 | after a successful shorten (valid URL, read succeeds, and either the URL is already stored or the write succeeds), shortening any string that strips to the same URL gives the same answer and leaves the store unchanged |
| Lifecycle.InsertedCodeUnique | app.py:104-119 | shortening a valid URL that has no record, with no store faults and at least one try finding its candidate free, adds one record, and that record is the only one with the returned code |
| Lifecycle.ShortenStoreErrors | app.py:104-141 | a raising `find_one`, or a raising `insert_one` for a URL with no record, gives the 500 database error and leaves the store unchanged |
| Lifecycle.StepPreservesUniqueUrls | app.py:103-119 | every request keeps "at most one record per original URL" |
| Lifecycle.StepPreservesAlnumCodes | app.py:110-119 | with well-formed random draws and seconds below 62^14, every request keeps every stored code 1 to 20 letters and digits |
| Lifecycle.RejectedCodeIgnoresStore | app.py:150-151 | a code that fails the format check gets the same 400 whatever the store holds or raises, and nothing changes (the same holds at lines 178-179) |
| Lifecycle.NewlineCodeNotFound | app.py:150-165 | a code that passes the check only because of a final newline finds no record when all stored codes are letters and digits, so it gets 404 |
| Lifecycle.RedirectOnce | app.py:153-160 | one redirect of a known code updates its record in place, and the code still finds that record |
| Lifecycle.RepeatedRedirects | app.py:153-162 | N redirects of a known code add exactly N clicks to its record and set `last_accessed` to the last time; its code, URL and creation time and every other record stay the same |
| Lifecycle.StatsAfterRedirects | app.py:181-191 | after redirects, the stats of a code are the view of its record as the redirects left it |
| Lifecycle.ShortenNew | app.py:108-119 | shortening a valid URL that has no record, with no store errors, appends one record for it under the generator's code |
| Lifecycle.NewRecordStats | app.py:181-191 | a record `shorten` created shows N clicks after N redirects, its creation time, and the last redirect time (or `"Never"`) |
| Lifecycle.FreshCodeFindsNewRecord | app.py:74-119 | when some try found its candidate free, the generated code passes the format check, and after the insert `find_one` by that code returns the new record |
| Lifecycle.ShortenRedirectStats | app.py:91-193 | shortening a new URL when some try k finds its candidate free, then redirecting N times, gives stats with that URL, the creation time, N clicks and the last redirect time |

## Left out

- HTTP plumbing: Flask routing, `request`, `jsonify`, `redirect`, templates, the home and health endpoints, the error handlers (app.py:202-224), and logging. These are HTTP, UI and logging plumbing.
- Request bodies: `get_json` failures and bodies that are not an object. The `url` field is modelled as missing, a string, or a non-string. A non-string gives the 500 that `.strip()` raises.
- Database setup and driver calls: MongoDB client setup, configuration from the environment (app.py:14-38), and the wire semantics of `find_one`, `insert_one` and `update_one`. The store is an in-memory sequence. A store call either works or raises. A call that raises changes nothing.
- Documents that lack `short_code` or `original_url`, or whose `click_count` is not a number. In the source these give `KeyError` or a failed `$inc`. Every modelled record has both keys, and its count is a natural number.
- Concurrency: the atomicity of `$inc` under concurrent redirects, and the race between the generator's check and `insert_one`. A sequential model cannot state these.
- `urlparse` internals. `is_valid_url` is modelled over the parser's result, and the parser is a parameter.
- The clock and randomness. Timestamps arrive as whole milliseconds and seconds, so the float-to-int truncation of `timestamp()` is not modelled. The random draws are inputs, with no distribution and no collision odds.
- JSON rendering of timestamps in the stats answer.
- The uniqueness of fallback codes. The source does not check it, so the model claims nothing about it.
