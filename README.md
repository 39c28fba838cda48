# toot2speech — a Dafny model of the toot store

toot2speech relays Mastodon posts ("toots") as speech. A background loop
(`list` in `src/toots.rs`) fetches the account's recent posts. It keeps those
that are fresh and long enough, normalises each one into a `Toot`, and inserts
it into a shared `HashMap<String, Toot>` keyed by id, unless the id is already
there. The HTTP handler `toot_mp3` (`src/server.rs`) takes the lock and picks
an unserved toot. It marks every toot with the same content as served, then
sends that content, or the fallback text, to a speech-synthesis vendor. Errors
of the handler become a status code and a JSON body `{"error": …}`
(`src/error.rs`).

This project models that core:

- `wrappers.dfy` (module `Wrappers`): `Option` and `Result`.
- `error.dfy` (module `Errors`): the `Error` enum, `into_response` as a total
  function to a status and a body map, the `From` conversions, and a decoder
  `ErrorOf`, the inverse of `IntoResponse`.
- `toots.dfy` (module `Toots`): the `TootIn`/`Toot` records; Rust's UTF-8 byte
  length `str::len`; `str::split` on one character with its inverse `Join`;
  the quote extraction of `Toot::try_from_toot_in` and an independent
  positional reading of it; one ingestion cycle as functions (`Filter`,
  `InsertIfAbsent`, `Ingest`, `Cycle`) and as the imperative method
  `ListCycle` on the `Store` class, whose `toots` field is the shared map.
- `server.dfy` (module `Server`): the claim block of `toot_mp3` as the method
  `TakeUnserved` (a search loop and a marking loop over the map's keys),
  specified by `MarkServed`, with the fallback text in `TootText`.

Timestamps are integers counting nanoseconds, the resolution of
`DateTime<Utc>`. The recency window is 5 days. The length filter keeps posts
with more than 10 bytes of raw content.

The model follows the code as written:

- Quote extraction always happens; there is no configuration flag.
- Extraction fails only when the plain text has no `"` at all. With exactly
  one `"`, the content is everything after it (`Toots.ExtractAfterLoneQuote`).
- The default fallback text is "No new toots." (src/server.rs:72).
- The minimum length counts UTF-8 bytes of the raw HTML (src/toots.rs:65).
- A failed fetch or JSON decode ends the `list` loop through `?`
  (src/toots.rs:60-62). The model covers one cycle only, after a successful
  fetch.

## Model

| member | source | states |
|---|---|---|
| `Errors.IntoResponse` | src/error.rs:17-31 | every variant yields one response whose body has the single key "error"; status 400 exactly for `BadRequest`, carrying its message; status 500 exactly for `InternalServer`, with "Internal server error" |
| `Errors.From` | src/error.rs:33-52 | a `serde_json`, `reqwest` or `io` error always converts to `InternalServer` |
| `Errors.ResponseRoundTrip` | src/error.rs:19-28 | the response determines the error: decoding it gives back the original variant and message |
| `Errors.IntoResponseInjective` | src/error.rs:19-25 | two different errors never produce the same response |
| `Errors.NoDetailLeaks` | src/error.rs:21-52 | whatever foreign error was converted, the caller sees the same 500 response with the fixed message |
| `Toots.Utf8Len` | src/toots.rs:65 | the byte length that `str::len` reports lies between the character count and four times it |
| `Toots.Utf8LenAppend` | src/toots.rs:65 | the byte length is additive over concatenation, so it is the sum of per-character UTF-8 widths |
| `Toots.Utf8LenAscii` | src/toots.rs:65 | an ASCII text has one byte per character |
| `Toots.Split` | src/toots.rs:30 | `split("\"")` yields one more piece than there are quotes, and no piece holds a quote |
| `Toots.JoinSplit` | src/toots.rs:30 | splitting loses nothing: joining the pieces with the quote gives back the text |
| `Toots.SplitJoin` | src/toots.rs:30 | splitting a join of quote-free pieces gives back those pieces |
| `Toots.SplitAtFirst` | src/toots.rs:30 | the first piece ends at the first quote, and splitting resumes after it |
| `Toots.ExtractQuoted` | src/toots.rs:30-34 | extraction fails exactly when the plain text has no `"`; on success the content holds no `"` |
| `Toots.ExtractBetweenQuotes` | src/toots.rs:30-34 | with two or more quotes the content is the text between the first two |
| `Toots.ExtractAfterLoneQuote` | src/toots.rs:30-34 | with exactly one quote the content is everything after it |
| `Toots.ExtractQuotedIsTextAfterFirstQuote` | src/toots.rs:30-34 | the split-based extraction equals the positional reading (after the first quote, up to the next quote or the end), for every text |
| `Toots.TryFromTootIn` | src/toots.rs:27-42 | normalisation fails exactly when the plain text has no `"`; a normalised toot keeps the post's id and timestamp, is unserved, and its content is the text after the first `"` up to the next `"` or the end, so it holds no `"` |
| `Toots.Filter` | src/toots.rs:63-66 | a post survives the filters exactly when it is newer than now minus 5 days and its raw content is longer than 10 bytes |
| `Toots.FilterAppend` | src/toots.rs:63-66 | the filters keep the batch's order: filtering two parts is filtering the whole |
| `Toots.InsertIfAbsent` | src/toots.rs:73-81 | one pass of the loop body: existing entries stay as they are; the post's id is added exactly when it was absent and the post normalises, and then maps to the normalised toot |
| `Toots.Ingest` | src/toots.rs:72-82 | the `for` loop over the filtered batch, in order; no contract of its own: its properties are stated by `IngestKeepsEntries`, `IngestNewEntries`, `FirstWins`, `IngestKeyedById`, `IngestAppend`, `SkipsUnparsable`, `IngestCoversParsed` and `IngestKnown` |
| `Toots.Cycle` | src/toots.rs:63-82 | one pass of `list` after the fetch: filter, then ingest; no contract of its own: its properties are stated by `CycleAdds` and `CycleIdempotent`, and `ListCycle` is proved equal to it |
| `Toots.IngestKeepsEntries` | src/toots.rs:78-81 | ingestion never removes a key and never alters an existing entry, its `served` flag included |
| `Toots.IngestNewEntries` | src/toots.rs:72-81 | every new entry is the normalised form of a post of the batch with that id |
| `Toots.FirstWins` | src/toots.rs:72-81 | of several posts in a batch with the same new id, the first one that normalises is the one stored |
| `Toots.IngestKeyedById` | src/toots.rs:78-80 | the store stays keyed by each toot's own id |
| `Toots.IngestAppend` | src/toots.rs:72-82 | ingesting a batch in two parts is ingesting the whole batch |
| `Toots.SkipsUnparsable` | src/toots.rs:72-76 | a post that fails to normalise is skipped, and the posts before and after it are ingested as if it were absent |
| `Toots.IngestCoversParsed` | src/toots.rs:72-81 | after ingestion every post of the batch that normalises has its id in the store |
| `Toots.IngestKnown` | src/toots.rs:78-81 | ingestion changes nothing when every post that normalises already has its id in the store |
| `Toots.CycleIdempotent` | src/toots.rs:63-82 | running the same batch through a second cycle, at the same or any later instant, gives the same store as the first cycle alone |
| `Toots.CycleAdds` | src/toots.rs:63-82 | a cycle keeps every existing entry unchanged; each new entry comes from a post of the batch that passed the filters, has that post's id, is unserved and holds no `"` |
| `Toots.Store.constructor` | src/main.rs:28 | the shared store starts empty |
| `Toots.ListCycle` | src/toots.rs:63-82 | the loop over the filtered batch leaves the store equal to `Cycle` of the old store and keeps it keyed by id |
| `Server.MarkServed` | src/server.rs:53-59 | marking keeps keys, ids, contents and timestamps; a toot is served afterwards exactly when it was before or its content is the claimed one |
| `Server.ServedCount` | src/server.rs:61-65 | the logged served count never exceeds the number of toots |
| `Server.MarkServedIncreasesCount` | src/server.rs:53-64 | a claim of a group that still holds an unserved toot strictly increases the served count |
| `Server.MarkServedClosesGroup` | src/server.rs:47-59 | after a claim of `c` no toot with content `c` can be claimed again, and anything still claimable was claimable before |
| `Server.MarkServedKeyedById` | src/server.rs:53-59 | marking keeps the store keyed by id |
| `Server.TakeUnserved` | src/server.rs:45-71 | returns nothing and leaves the store unchanged exactly when every toot is served; otherwise returns the content of a toot that was unserved and marks that whole content group served |
| `Server.TootText` | src/server.rs:45-72 | the text for the vendor is the claimed content, or, when every toot is served, `NOT_FOUND_TEXT` or "No new toots." with the store unchanged |
| `Server.SinglePostScenario` | src/toots.rs:63-81 | a fresh post whose plain text is `"inner"`, ingested into an empty store, yields exactly one unserved toot with content `inner`; claiming it by the marking at src/server.rs:53-59 leaves nothing to claim |

## Left out

- HTML entity decoding and HTML-to-text conversion (`src/toots.rs:28-29`) are
  foreign libraries. They are the parameter `toPlain` of `TryFromTootIn`.
- The HTTP fetch, the JSON decoding, the infinite loop and its 3-second sleep
  (`src/toots.rs:50-62`) are network I/O and timing. `ListCycle` takes the
  decoded batch and the current time as parameters.
- `Toots.ListCycle`: Rust reads the clock afresh for each post in the recency
  filter; the model uses one instant `now` for the whole batch.
- Taking the mutex, and skipping the cycle when the lock is poisoned
  (`src/toots.rs:68-71`, `src/server.rs:46`), are concurrency. Each of
  `ListCycle` and `TakeUnserved` is one atomic method.
- `Server.TakeUnserved`: Rust returns the first unserved toot in `HashMap`
  iteration order, which is unspecified; the model picks any unserved toot.
- The vendor call, the response building and `ElevenlabsBody::new`
  (`src/server.rs:74-117`) are network I/O and environment reads.
- The server setup in `serve_toots` (`src/server.rs:15-42`) and all of
  `src/main.rs` apart from the empty store are transport and bootstrap code.
- Environment variables are parameters: `NOT_FOUND_TEXT` is the `Option`
  argument of `TootText`.
- Logging through `info!`, `warn!` and `error!` is left out. The served count
  that `toot_mp3` logs is modelled as `ServedCount`.
- The getter `Toot::content` (`src/toots.rs:44-46`) is plain field access.
- The error type that `bail!` produces comes from `src/prelude.rs`, which is
  not part of this model. The normaliser's failure is the single value
  `ParseError.NoQuote`.
- Response headers are not modelled: `ErrorResponse` has no field for the
  `Content-Type: application/json` header that `Json(...)` sets
  (`src/error.rs:26-29`).
