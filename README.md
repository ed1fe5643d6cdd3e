# rates-for-ex sampling core, in Dafny

A model of the in-memory sample store of `main.go`: a background task that,
every ten seconds, fetches a USD to EUR rate (scraped from a web page) and a
BTC to USD rate (from a JSON API), appends a timestamped point to a shared
series, drops points older than one hour, and records a status string; and the
two HTTP handlers that turn that series into a view of three aligned series
plus the latest formatted values.

Files and modules:

- `wrappers.dfy` (`Wrappers`): `Result`, standing in for Go's `(value, error)` returns.
- `series.dfy` (`Series`): `DataPoint`, the `State` of the two globals, the eviction `Evict`,
  one sampler tick `Tick` as a function, a run of ticks `Run`, and the series invariant `WellFormed`
  (sorted, nothing more than an hour older than the newest point) with the lemmas that ticks keep it.
- `store.dfy` (`Store`): class `SampleStore` holding `data` and `status` as fields; `FetchData` is the
  tick with its eviction loop, `BuildView` the handlers' loop that builds the view.
- `view.dfy` (`View`): the `View` record, the `Formats` the handlers apply, and `ViewOf`, the view of a state.
- `scrape.dfy` (`Scrape`): selecting the rate string from the scraped spans and stripping its commas.

Representation choices: an instant is an integer number of nanoseconds and the
cutoff is `now - Hour` with `Hour = 3_600_000_000_000`; `time.Before` is strict
`<`. Rates are `real` values that are stored and forwarded, never computed on.
The RFC 3339, `%.6f` and `%.4f` formatting is passed to the view builder as a
`Formats` record of functions, so nothing is assumed about it. The two fetches
are inputs of `FetchData` as `Result` values; its out-parameter `btcRequested`
says whether the BTC to USD fetch was made, which is the case exactly when the
USD to EUR fetch succeeded. The mutex is not modelled: every locked section is
one atomic method call.

The status is one of three strings: "All is working", "Error fetching USD to
EUR" and "Error fetching BTC to USD". The cutoff is `now - Hour`, taken from
the tick-start time. Sortedness of the series needs ticks whose times never
decrease, which is why `RunKeepsWellFormed` requires chronological ticks; the
program meets this at run time, because `time.Now()` carries Go's monotonic
clock reading, `Add` and `Before` compare on it, and ticks run one after
another on a single ticker.

## Model

| member | source | states |
|---|---|---|
| `Series.Initial` | main.go:44-48 | the process starts with an empty series and status "All is working", which satisfies the series invariant |
| `Store.SampleStore.constructor` | main.go:44-48 | a new store holds the empty series and the healthy status, i.e. the initial state |
| `Series.Evict` | main.go:175-180 | eviction returns a suffix of its input, every dropped point is strictly before the cutoff, and the first kept point is not |
| `Series.EvictKeepsLast` | main.go:168-180 | a last point that is not before the cutoff survives eviction and is still last |
| `Series.EvictSorted` | main.go:175-180 | on a sorted series eviction keeps it sorted and leaves no point strictly before the cutoff |
| `Series.EvictKeepsRecent` | main.go:177-180 | in any order, a point not before the cutoff is never removed (a point exactly at the cutoff is kept) |
| `Series.EvictKeepsOnlyOriginals` | main.go:180 | eviction introduces no new point |
| `Series.EvictSortedIsFilter` | main.go:175-180 | on a sorted series, a point is kept if and only if it was present and is not strictly before the cutoff |
| `Series.AppendSorted` | main.go:168-172 | appending a point no older than every stored point keeps the series sorted |
| `Series.Tick` | main.go:146-186 | USD to EUR failure: data unchanged, status "Error fetching USD to EUR", whatever the BTC outcome; BTC to USD failure: data unchanged, status "Error fetching BTC to USD"; success: status "All is working", data non-empty, its last point is exactly the tick time with both rates, and data is a suffix of old data plus that point |
| `Series.TickSortedWindow` | main.go:167-181 | if the old series is sorted and no later than the tick, a successful tick leaves it sorted with no point before `now - 1h` |
| `Series.TickRetainsRecent` | main.go:174-180 | under the same conditions, after a successful tick a point is retained if and only if it was stored or is the new point, and is not before `now - 1h` |
| `Series.TickKeepsWellFormed` | main.go:146-186 | one tick, successful or not, preserves "sorted and nothing more than an hour older than the newest point" and leaves no point after the tick time |
| `Series.RunKeepsWellFormed` | main.go:189-199 | any run of ticks with a non-decreasing clock, starting no earlier than the stored points, preserves the series invariant |
| `Series.RunGrowsAtMostOnePerSuccess` | main.go:189-199 | a run of ticks adds at most one point per tick in which both fetches succeeded; failed ticks add none |
| `Store.SampleStore.FetchData` | main.go:146-186 | the new `data` and `status` are those `Tick` gives for the old state, tick time and fetch outcomes (the eviction loop computes `Evict`); the BTC to USD fetch is requested exactly when the USD to EUR fetch succeeded |
| `View.ViewOf` | main.go:214-229 | the three series have the length of `data` and index i of each comes from `data[i]`; the current values are the formatted rates of the last point, or empty strings for an empty series; the status is passed through |
| `Store.SampleStore.BuildView` | main.go:262-288 | the loop builds exactly `ViewOf` of the current data and status; it modifies nothing |
| `View.ViewAfterSuccess` | main.go:273-277 | after a successful tick the view's current values are the formatted rates just fetched, the last time label is the tick time and the status is healthy |
| `View.ViewAfterFailure` | main.go:149-165 | after a failed tick the view shows the same series and current values as before; only the status changes, to the failing source's message |
| `Scrape.Joined` | main.go:123-127 | a span yields its main text alone when the trail is empty, which always equals main followed by trail, and is empty exactly when both parts are |
| `Scrape.FirstRate` | main.go:109-129 | the selected string is empty if and only if every span is blank |
| `Scrape.FirstRateIsFirstNonBlank` | main.go:119-128 | the selected string is main plus trail of the first non-blank span; the spans after it play no part |
| `Scrape.SelectRate` | main.go:109-129 | the early-exit loop over the spans returns exactly `FirstRate` |
| `Scrape.StripCommas` | main.go:135-136 | the result has no comma, keeps the count of every other character, and is the input itself when the input has no comma |
| `Scrape.StripCommasIdempotent` | main.go:136 | stripping commas a second time changes nothing |
| `Scrape.StripCommasAppend` | main.go:126-136 | stripping distributes over concatenation, so main and trail strip independently |
| `Scrape.FetchRateString` | main.go:131-136 | "USD to EUR rate not found" if and only if every span is blank; otherwise the selected string with every comma removed |

## Left out

- HTTP requests, status-code checks, body reading and the CoinDesk JSON decoding (main.go:51-75, 81-107): network I/O and a foreign library; their outcomes are the `Result` inputs of `FetchData`.
- HTML parsing and the selection of `span.ccOutputRslt` nodes with `strings.TrimSpace` (main.go:103-117): a foreign HTML library; the model takes the already-trimmed (main, trail) pairs.
- `strconv.ParseFloat` (main.go:137-142): floating-point parsing. A string such as "," passes the not-found check and is then rejected by the parser; that error path is not modelled.
- `%.6f`, `%.4f` and RFC 3339 formatting, `time.Now` and `time.Duration` (main.go:147, 175, 220, 227-228, 268, 275-276): formatting is an uninterpreted `Formats` parameter and time an integer count of nanoseconds.
- The ticker goroutine's timing, the mutex and the concurrency between sampler and handlers (main.go:46, 189-199, 211-212, 250-251): each locked section is one atomic method call; `Run` models the sequence of ticks.
- Template parsing and execution, `jsonMustMarshal` of the arrays and of the status for the page, JSON encoding of the response, logging, the HTTP server and shutdown (main.go:184-185, 202-210, 230-246, 290-344): rendering and lifecycle I/O. The page handler's view is the same `ViewOf` as that of `/data`.
