# secureCodeBox telemetry ingestion, modelled in Dafny

The secureCodeBox telemetry service takes anonymous submissions from
operators: a version string and the list of installed scan types. The
handler `persistTelemetryData` checks each scan type against a fixed
allow-list of official scan types. That list includes the sentinel
`"other"`, under which clients report unofficial scan types. The handler
refuses the first unknown name with 400 `Invalid ScanType '<name>'`.
Otherwise it stamps the submission with the server time and makes one
`Create(index, document)` call on the injected Elasticsearch service,
using the index `telemetry-<year>`. It answers 500
`elasticsearch connection failed` if the store reports an error, and
200 `ok` if it does not.

The project has five modules:

- `Wrappers` (wrappers.dfy): `Option`. It stands for a Go `error` that may be nil, and for a write that may not happen.
- `ScanTypes` (scan_types.dfy): the allow-list `OfficialScanTypes` and the specification function `Validate`. Validate returns `Accepted` or `Rejected(firstOffender)`. The loop method `CheckScanTypes` is proved equal to it.
- `YearLayout` (year_layout.dfy): how the year layout `2006` of Go's `time.Format` writes a year. It writes the year in decimal, zero-padded to four digits, with a `-` in front for negative years. `ParseYear` is its inverse. Go's time package is not part of this model; this module states the layout's rule.
- `ElasticSearch` (elastic_search.dfy): `RecordingService<D>`, a class for the one-method `Service` interface. It records every `Create` call in its `calls` sequence and answers each call with a reply fixed when it is built. This is the shape of the mock in the Go tests.
- `Telemetry` (telemetry.dfy): the records `TelemetryData` and `TelemetryDataDocument`, the response `(status, body)` and `IndexName`. It also holds `Persist`, a pure account of one request: the write it makes (if any) and the response. The imperative handler `PersistTelemetryData` is proved to append exactly `Persist(...)`'s write to the store's `calls` and to return its response. The lemmas about `Persist` state the handler's promises.

The handler reads the clock twice: once for the timestamp, once for the
index name. So the model takes two readings, `timestampClock` and
`indexClock`, both as parameters. JSON binding happens before the
pipeline. It is an input, `Request = Bound(data) | BindError(message)`. A
binding error is answered 400 with the binder's text.

The index is named by year only (`Format("2006")`, cmd/telemetry/main.go:120).
A store error is discarded; the response body does not depend on it. The
400 body is exactly `Invalid ScanType '<name>'`.

## Model

| member | source | states |
|---|---|---|
| ScanTypes.Validate | cmd/telemetry/main.go:107-112 | a rejection names a scan type that occurs in the submitted list and is not on the allow-list |
| ScanTypes.CheckScanTypes | cmd/telemetry/main.go:107-112 | the early-exit validation loop returns exactly the verdict of `Validate` |
| ScanTypes.ValidateAcceptsIffAllOfficial | cmd/telemetry/main.go:107-112 | a list passes if and only if every element is on the allow-list (so the empty list passes) |
| ScanTypes.FirstOffenderIsReported | cmd/telemetry/main.go:107-111 | if position k holds the first unofficial scan type, the rejection names exactly that entry |
| ScanTypes.RejectionNamesFirstOffender | cmd/telemetry/main.go:107-111 | every rejection names the entry at some position k that is the first unofficial one in list order |
| ScanTypes.OtherIsOfficial | cmd/telemetry/main.go:52 | the sentinel `"other"` is on the allow-list |
| ScanTypes.OnlyOtherIsAccepted | cmd/telemetry/main.go:17-53 | a submission made only of `"other"` entries always passes validation |
| YearLayout.FormatYearRoundTrip | cmd/telemetry/main.go:120 | the formatted year can be read back as the same year, for every year including negative ones |
| YearLayout.FormatYearInjective | cmd/telemetry/main.go:120 | two years are written identically if and only if they are equal |
| YearLayout.FourDigitYear | cmd/telemetry/main.go:120 | years 0 to 9999 come out as exactly four decimal digits reading back as the year |
| ElasticSearch.RecordingService.constructor | cmd/telemetry/main_test.go:16-23 | a fresh stand-in store has received no calls and holds the configured reply |
| ElasticSearch.RecordingService.Create | pkg/elasticsearch/service.go:14-16 | one call appends `(index, document)` to the recorded calls and returns the configured reply |
| Telemetry.InvalidScanTypeMessage | cmd/telemetry/main.go:109 | the 400 body is `Invalid ScanType '`, then the name verbatim, then `'` |
| Telemetry.InvalidScanTypeMessageInjective | cmd/telemetry/main.go:109 | different rejected names give different 400 bodies |
| Telemetry.IndexName | cmd/telemetry/main.go:120 | the index name starts with `telemetry-` and its rest reads back as the clock's year |
| Telemetry.IndexNameIdentifiesYear | cmd/telemetry/main.go:120 | two clock readings give the same index name if and only if they have the same year |
| Telemetry.IndexNameOfFourDigitYear | cmd/telemetry/main.go:120 | for years 1000 to 9999 the index name is `telemetry-` followed by the four digits of the year |
| Telemetry.PersistTelemetryData | cmd/telemetry/main.go:99-129 | the handler appends to the store's calls exactly the write `Persist` describes (zero or one call) and returns `Persist`'s response; if every document already in the store lists only official scan types, this still holds afterwards |
| Telemetry.BindErrorWritesNothing | cmd/telemetry/main.go:100-104 | a body that fails to bind is answered 400 with the binder's message, and nothing is written |
| Telemetry.WritesIffAllOfficial | cmd/telemetry/main.go:107-121 | a parsed submission leads to a write if and only if all its scan types are official |
| Telemetry.RejectionNamesFirstOffenderAndWritesNothing | cmd/telemetry/main.go:107-111 | with a first unofficial scan type at k, the response is 400 naming entry k, and no write is made |
| Telemetry.AcceptedSubmissionIsWrittenVerbatim | cmd/telemetry/main.go:114-121 | an accepted submission is written once: the index comes from the index clock, the timestamp is the timestamp clock, and version and scan types are copied verbatim (same order, duplicates kept) |
| Telemetry.AcceptedResponseFollowsStore | cmd/telemetry/main.go:121-128 | for an accepted submission the response is 200 `ok` when the store succeeds and 500 `elasticsearch connection failed` on any error |
| Telemetry.StatusMapping | cmd/telemetry/main.go:99-129 | 200 if and only if bound, all official and the store succeeds; 500 if and only if bound, all official and the store fails; 400 if and only if the binding fails or some scan type is unofficial |
| Telemetry.StoreErrorTextIsHidden | cmd/telemetry/main.go:121-125 | the exchange is the same whatever error the store returns, so no error text reaches the client |
| Telemetry.IndexDependsOnlyOnYear | cmd/telemetry/main.go:120-121 | two accepted submissions, whatever their contents or timestamps, go to the same index if and only if their index clocks have the same year |
| Telemetry.PersistedScanTypesAreOfficial | cmd/telemetry/main.go:107-121 | every document written lists only official scan types |
| Telemetry.UnknownScanTypeIsNotOfficial | cmd/telemetry/main_test.go:67 | `fooooobarrrrrrrrr` is not on the allow-list |
| Telemetry.GoodDataIsStored | cmd/telemetry/main_test.go:34-54 | for `v2.0.42` with `nmap` and `sslyze` and a working store: 200 `ok` and one write carrying both scan types |
| Telemetry.UnknownScanTypeIsRejected | cmd/telemetry/main_test.go:56-74 | for `fooooobarrrrrrrrr`: 400 `Invalid ScanType 'fooooobarrrrrrrrr'` and no write, whatever the store would answer |
| Telemetry.StoreFailureIsReported | cmd/telemetry/main_test.go:76-101 | valid data and a store returning a 401 error: 500 `elasticsearch connection failed` |
| Telemetry.OtherOnlyIsStored | cmd/telemetry/main.go:52 | `v1.0.0` with only `"other"` and a working store is answered 200 `ok` |

`Telemetry.ClientOfHandler` drives the handler three times, once for each
scenario of cmd/telemetry/main_test.go. It uses only the handler's
contract and asserts the statuses and the recorded calls.

## Left out

- gin routing, middleware, the `/ready` endpoint, `setupRouter`, `main` and the panic when the client cannot be set up (cmd/telemetry/main.go:70-96): framework plumbing. The package variable `elasticSearchService` becomes the `service` parameter of the handler.
- JSON binding (`ShouldBindJSON`, the `binding:"required"` tags): library behaviour. The model starts from its outcome, a parsed `TelemetryData` or the binder's error text.
- `elasticsearch.Setup` and `ServiceClient.Create` (pkg/elasticsearch/service.go:24-62): environment reads, JSON marshalling and network I/O. The concrete client ignores its `index` argument and always writes to `telemetry-test`. So the index-name lemmas are about what the handler passes to the `Service` interface, not about where data ends up.
- The clock: both readings are parameters. The model does not assume they are equal or ordered. `Instant` is a calendar reading in the server's location; only its year enters the index name. Time zones and the RFC 3339 rendering of `@timestamp` are not modelled.
- Go's time formatting library: `YearLayout.FormatYear` is the model's statement of the `2006` layout's rule, not a proof about Go's code.
- The testify mock in cmd/telemetry/main_test.go fails the test when `Create` is called without an expectation set. The stand-in records every call instead, and the lemmas state that no call is made.
- The source does not log the store error. Request logging by the anonymous log formatter and concurrency across requests are host-server concerns with no pipeline logic.
