# Chirpy: chirp validation and hit counter, in Dafny

Chirpy is a small HTTP service written in Go. Two of its pieces carry logic
and are modelled here, both from `main.go`:

- **Chirp validation** (`handlerValidate`). The decoder's outcome for the
  request body comes first. If decoding failed, the answer is 500 with the
  error text. If the chirp's body is longer than 140 bytes, the answer is
  400 with `"chirp too long"`. Otherwise the body is split on single spaces.
  Every word whose lower-case form is `kerfuffle`, `sharbert` or `fornax` is
  replaced by `****`. The words are joined again with single spaces and
  returned with status 200.
- **Hit counter** (`apiConfig.fileserverHits`, an `atomic.Int32`). The
  metrics middleware adds one per request before delegating to the file
  server. The admin metrics page reads the count, and the admin reset
  endpoint stores zero.

Files:

- `go_strings.dfy`, module `GoStrings`: the parts of Go's library the
  validator uses. These are `strings.Split` and `strings.Join` with a
  one-character separator, `strings.ToLower` on ASCII, and `slices.Contains`.
  Split and Join are proved inverse to each other in both directions.
- `chirp.dfy`, module `Chirp`: the per-word mapping `MapToken`, the cleaning
  function `Clean` and the response function `Validate`. `HandleValidate` is
  the handler with its appending loop, proved equal to `Validate`. Lemmas
  cover word positions, the identity on clean text, idempotence and the
  length bound.
- `metrics.dfy`, module `Metrics`: the `int32` type, the wrapping addition
  that `atomic.Int32.Add` performs, and the class `ApiConfig` with the
  middleware, metrics and reset handlers as methods.

Modelling choices:

- A Go string is a byte sequence. Each `char` stands for one byte, so `|s|`
  is Go's `len(s)` and the 140 limit counts bytes, as the code does. The
  code counts bytes, not characters, and splits on the single byte `' '`
  only, so tabs and newlines stay inside words.
- The JSON decoder is an input: `Ok(body)` or `Err(message)`. The 500 body is
  the message followed by a newline, because the code formats it with
  `fmt.Sprintln`.
- A response is a value: a status code and one of the two JSON payloads,
  `{"error": ...}` or `{"cleaned_body": ...}`.
- The counter keeps Go's two's-complement wrap-around. After 2^31 - 1 hits,
  the next hit makes the count negative (`HitsWrapAround`).
- The handler wrapped by the middleware is given as the response it would
  produce for each counter value it could observe. The contract thus states
  that it runs after the increment.

## Model

| member | source | states |
|---|---|---|
| GoStrings.Split | main.go:120 | a split yields at least one word, and no word contains the separator |
| GoStrings.SplitCount | main.go:120 | a split yields exactly one more word than the body has separators |
| GoStrings.JoinCount | main.go:130 | joining n separator-free words puts exactly n - 1 separators in |
| GoStrings.Join | main.go:130 | one word joins to itself, and n words joined are at least n - 1 bytes long |
| GoStrings.LowerAscii | main.go:124 | an ASCII upper-case letter becomes the lower-case letter 32 code points above it; every other byte is kept |
| GoStrings.ToLower | main.go:124 | lower-casing keeps the length; byte i either stays as it is or is an upper-case ASCII letter turned into its lower-case letter; no upper-case ASCII letter is left; already-lower-case text is unchanged |
| GoStrings.Contains | main.go:124 | the banned-word lookup is true exactly when some list entry equals the word |
| GoStrings.JoinSplit | main.go:120-130 | joining the split words with the separator gives back the original body, empty words included |
| GoStrings.SplitJoin | main.go:120-130 | splitting a join of separator-free words gives back those words |
| GoStrings.JoinNoLonger | main.go:130 | if every word is no longer than its counterpart, the join is no longer than the counterpart join |
| Chirp.IsBanned | main.go:121-124 | a word whose lower-case form is banned is between six and nine bytes long |
| Chirp.BannedIgnoresCase | main.go:124 | whether a word is banned depends only on its lower-case form |
| Chirp.MapToken | main.go:124-128 | a word maps either to itself or to the mask, never gets longer, gains no space, and never maps to a banned word |
| Chirp.MapTokens | main.go:122-129 | the cleaned word list has as many words as the input, and word i is the mapping of input word i |
| Chirp.Clean | main.go:120-130 | the cleaned body splits into exactly the mapped words of the body, so the word count and each word's position are kept, and it is never longer than the body |
| Chirp.Validate | main.go:108-134 | status is 500 exactly on a decode failure, with the error text and a newline; 400 exactly for a body over 140 bytes, with "chirp too long"; 200 exactly for a decoded body of at most 140 bytes, and then the payload is the cleaned body, at most 140 bytes long; the payload is an error exactly when the status is not 200 |
| Chirp.ValidateKeepsCleanBody | main.go:116-132 | a body of at most 140 bytes with no banned word is answered with 200 and the body unchanged |
| Chirp.HandleValidate | main.go:108-134 | the handler's checks, in order, and its appending loop produce exactly the response `Validate` describes |
| Chirp.MapTokenChangesExactlyBanned | main.go:124-128 | a word is changed exactly when its lower-case form is banned, and then it becomes "****" |
| Chirp.MapTokenIdempotent | main.go:121-128 | mapping a mapped word changes nothing, because "****" is not banned |
| Chirp.CleanUnchangedIff | main.go:120-130 | cleaning returns the body unchanged exactly when none of its words is banned, even with empty words from consecutive spaces |
| Chirp.CleanIdempotent | main.go:121-130 | cleaning a cleaned body returns it unchanged |
| Chirp.BannedExamples | main.go:121-124 | matching ignores case ("Fornax", "SHARBERT") but not punctuation ("fornax!"); the mask and the empty word are not banned |
| Metrics.AddInt32 | main.go:74 | the result is congruent to the exact sum modulo 2^32, and equals the exact sum whenever that fits in an int32 |
| Metrics.HitsAfter | main.go:72-77 | after n requests through the middleware the count is congruent to the start plus n, modulo 2^32 |
| Metrics.HitsAfterFromZero | main.go:72-77 | starting from zero, n requests through the middleware leave the count at n, for any n that fits in an int32 |
| Metrics.HitsWrapAround | main.go:74 | the 2^31-th request from zero wraps the count to -2^31 |
| Metrics.ApiConfig.constructor | main.go:23-26 | a fresh configuration starts with zero hits |
| Metrics.ApiConfig.MiddlewareMetricsInc | main.go:72-77 | one request raises the count by exactly one, with int32 wrap-around, which is `HitsAfter` for one request; the wrapped handler then runs and sees the new count |
| Metrics.ApiConfig.HandlerMetrics | main.go:88-102 | the metrics page reports the current count and changes nothing |
| Metrics.ApiConfig.HandlerReset | main.go:103-106 | the count is zero afterwards, whatever it was before |

## Left out

- HTTP response writing is left out: headers, `WriteHeader` and the body bytes (`respondWithError`, `respondWithJSON`, main.go:43-64). The response is a value instead. Their `json.Marshal` failure branch is not modelled, because marshalling a struct of one string field cannot fail.
- JSON decoding of the request (`json.NewDecoder(...).Decode`) is an input of the model, not an operation in it.
- The HTML page that `handlerMetrics` formats (main.go:91-98) is not modelled. Only the count it embeds is.
- `handlerHealthz` is not modelled: it has no logic, only a fixed "OK" reply.
- `main` is not modelled: environment loading, the database connection, route registration, the file server and `ListenAndServe` are all I/O.
- GoStrings.ToLower: lower-cases ASCII only, because Go's `strings.ToLower` follows Unicode case mapping. For example, a word spelled with the Kelvin sign (U+212A) lower-cases to "kerfuffle" in Go and would be masked there, but not in this model. Multi-byte UTF-8 characters are not modelled either.
- Concurrency is not modelled: each atomic `Add`, `Load` or `Store` is one sequential step, so the model says nothing about interleavings beyond that.
- The package in handlers/handlers.go is an earlier revision that main.go does not use, and it is not part of this model.
