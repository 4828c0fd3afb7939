# Exchange-rate check: downloader and classifier

This project models the core of a small Go service. The service downloads the
EUR exchange-rate table from an HTTP API. It flags the effective dates whose
mid value is outside the band [4.5, 4.7]. It hands a record of the check to an
outputter. The record holds the timestamp, the request duration, the HTTP
status, `"Content-Type: "` followed by the response's media type, whether the body was valid JSON, and the
flagged dates.

The model has four modules:

- `Domain` (`domain.dfy`): the records of `pkg/domain/rate.go` (`SingleRate`,
  `ExchangeRates`, `RequestMetadata`, `StructuredOutput`) and their zero
  values. It also has one `Error` constructor per `fmt.Errorf` wrapper in the
  modelled code. Errors from outside the model are `External`.
- `GoStrings` (`gostrings.dfy`): the parts of Go's `strings` package that the
  Content-Type parser uses. These are `Split`, `SplitN(s, sep, 2)` (here
  `SplitOnce`) and `TrimSpace`. `TrimSpace` uses the full Unicode White_Space
  set that `unicode.IsSpace` tests.
- `Downloader` (`downloader.dfy`): `parseMediaType` as an imperative loop,
  proved against two folds over the `;`-separated segments (`MediaTypeOf`,
  `ParamsOf`). Lemmas describe those folds. The module also has
  `downloadRates` and `GetRates` over an abstract HTTP outcome.
- `Exchange` (`exchange.dfy`): the classifier. `FindTargetDays` is the
  corrected loop and is proved against the `TargetDays` specification.
  `FindTargetDaysAsWritten` is the loop as the source writes it, with its
  inverted conversion guard. `GetRates` assembles the record and calls the
  outputter.

Some inputs are parameters of the model:

- The HTTP round trip is an `HttpOutcome`: the request could not be created,
  the transport failed, or a response arrived. A response carries its status,
  its Content-Type header, its duration in milliseconds, the decoded table and
  whether decoding succeeded.
- The clock reading of `service.GetRates` is the parameter `timestamp`.
- The outputter is a function from a record to an optional error.
- `strconv.ParseFloat` is a function `parse` from a mid value to a value and
  an optional error.

Mid values are `real`, as `pkg/domain/rate.go` declares them `float64`.

## Model

| member | source | states |
|---|---|---|
| GoStrings.TrimSpace | pkg/downloader/service.go:94 | the result has no white space at either end and is no longer than the input |
| GoStrings.TrimSpaceDropsSpace | pkg/downloader/service.go:94 | the result is a contiguous slice of the input, and everything dropped before and after it is white space |
| GoStrings.TrimSpaceExcludes | pkg/downloader/service.go:94 | trimming never introduces a character that was not in the input |
| GoStrings.TrimSpaceKeeps | pkg/downloader/service.go:94 | a character that is not white space survives trimming |
| GoStrings.IndexFrom | pkg/downloader/service.go:86 | the result is the position of `c` at or after `lo`, or the length when there is none |
| GoStrings.IndexFromSkips | pkg/downloader/service.go:86 | no position passed over by the search holds `c`, so the result is the first occurrence |
| GoStrings.Split | pkg/downloader/service.go:86 | splitting always gives at least one piece, also for the empty string |
| GoStrings.SplitExcludes | pkg/downloader/service.go:86 | no piece of a split holds the separator |
| GoStrings.SplitJoin | pkg/downloader/service.go:86 | joining the pieces with the separator gives back the original string |
| GoStrings.SplitOnce | pkg/downloader/service.go:100-101 | one piece (the whole string) exactly when the separator is absent; otherwise two pieces, the first free of the separator, that rebuild the string around it |
| Downloader.ParseMediaType | pkg/downloader/service.go:85-112 | the loop's media type and parameter map equal the folds `MediaTypeOf` and `ParamsOf` over the `;`-split segments |
| Downloader.ParseStep | pkg/downloader/service.go:91-107 | one more segment sets the media type when it holds `/`; otherwise it sets a parameter when it holds `=` |
| Downloader.MediaTypeIsLastSlashSegment | pkg/downloader/service.go:91-96 | the media type is the trimmed last segment that holds `/`, so later ones override earlier ones |
| Downloader.MediaTypeEmptyIff | pkg/downloader/service.go:87-96 | the media type is empty exactly when no segment holds `/` |
| Downloader.ParamKeyKept | pkg/downloader/service.go:99-105 | every parameter segment (no `/`, an `=`) leaves its trimmed key in the map |
| Downloader.ParamKeyOrigin | pkg/downloader/service.go:99-105 | every key in the map comes from a parameter segment |
| Downloader.ParamKeys | pkg/downloader/service.go:93-107 | a key is in the map exactly when some segment without `/` and with `=` names it |
| Downloader.ParamLastWins | pkg/downloader/service.go:105 | a repeated key takes its value from the last segment that names it |
| Downloader.ParsedPartsTrimmed | pkg/downloader/service.go:94-104 | when no segment holds `;`, the media type, keys and values are trimmed and free of `;` |
| Downloader.ParseMediaTypeTrimmed | pkg/downloader/service.go:86-104 | for every header value, the media type, keys and values are trimmed and free of `;` |
| Downloader.EmptyHeader | pkg/downloader/service.go:86-111 | an empty header gives an empty media type and an empty map |
| Downloader.DownloadRates | pkg/downloader/service.go:41-82 | a request-creation or transport failure gives the matching wrapped error and no rates or metadata; a response gives the decoded table and metadata with the duration, the status, `"Content-Type: "` plus the parsed media type, and valid-JSON exactly when decoding succeeded; a response never gives an error |
| Downloader.GetRates | pkg/downloader/service.go:31-38 | a download error comes back wrapped once more, beside the zero table and zero metadata; otherwise the table and metadata are passed through unchanged |
| Downloader.ContentTypeShape | pkg/downloader/service.go:63-65 | the reported content type is the prefix followed by a trimmed media type without `;` |
| Exchange.BandIsInclusive | pkg/exchange/service.go:52-55 | the limits are ordered; both limits and all values between them are not flagged, and every other value is |
| Exchange.TargetDays | pkg/exchange/service.go:57-73 | there are never more flagged dates than rates |
| Exchange.TargetDaysAppend | pkg/exchange/service.go:60-70 | the flagged dates of a concatenation are those of the first part followed by those of the second, so order and repeats are kept |
| Exchange.TargetDaysSingle | pkg/exchange/service.go:67-69 | one rate contributes its date exactly when its mid value is outside the band |
| Exchange.TargetDaysMembership | pkg/exchange/service.go:67-69 | a date is flagged exactly when some rate with that date has a mid value outside the band |
| Exchange.ClassificationExamples | pkg/exchange/service.go:67-69 | mid values 4.40, 4.60, 4.80 flag the first and third dates; a single 4.55 flags nothing |
| Exchange.FindTargetDays | pkg/exchange/service.go:57-73 | the corrected loop returns exactly `TargetDays` of the rates and never an error |
| Exchange.Converted | pkg/exchange/service.go:60-62 | each rate keeps its place and fields, with its mid value replaced by the converted value |
| Exchange.FirstConverted | pkg/exchange/service.go:60-65 | the result is the position of the first rate whose conversion succeeds, or the number of rates when none does |
| Exchange.FindTargetDaysAsWritten | pkg/exchange/service.go:57-73 | the loop as written returns `AsWrittenOutcome`: an error at the first rate whose conversion succeeds, else the flagged dates of the converted values |
| Exchange.AsWrittenExtend | pkg/exchange/service.go:60-69 | one step of the loop as written: a converting rate decides the outcome, and a failing one adds its date when its value is outside the band |
| Exchange.ConvertedStep | pkg/exchange/service.go:67-69 | one more converted rate adds its date exactly when its converted value is outside the band |
| Exchange.FirstConvertedAt | pkg/exchange/service.go:60-65 | when all rates before `i` fail to convert and the rate at `i` converts, the first converting rate is at `i` |
| Exchange.InvertedGuardRejectsParsedFirstRate | pkg/exchange/service.go:62-65 | as written, a first rate whose mid value converts gives a conversion error with a nil cause and no dates |
| Exchange.AsWrittenErrorIff | pkg/exchange/service.go:62-65 | as written, the result is an error exactly when some mid value converts, and an error never comes with dates |
| Exchange.AsWrittenVersusCorrected | pkg/exchange/service.go:57-73 | with a conversion that always succeeds, the loop as written fails on every non-empty list; on the empty list both loops give no dates and no error |
| Exchange.GetRates | pkg/exchange/service.go:24-50 | the record carries the timestamp, the four metadata fields and the flagged dates of the rates; the result is an error exactly when the outputter fails, wrapped with the timestamp |

## Left out

- The HTTP request: the URL, the method, the User-Agent header and the closing of the body are left out (pkg/downloader/service.go:45-59). The round trip is an input, as is its measured duration.
- JSON decoding of the body is an input: the decoded table, possibly partly filled, and whether decoding succeeded.
- JSON encoding of the record, `omitempty`, and Go's distinction between a nil and an empty slice are left out. An empty list of dates is `[]`.
- pkg/output/service.go and main.go are not part of this model: the file and console output, flag parsing and the signal handling. main.go parses an interval and a check count into a config that NewService does not take; the shown code schedules nothing. The modelled code holds no concurrency.
- `context.Context` parameters are dropped; the modelled code never reads them.
- `NewDownloader` and `NewService` are left out. Their collaborators are parameters here: the HTTP outcome, the outputter and the conversion. pkg/exchange/service.go:17 takes two collaborators, while main.go:36 passes three arguments.
- Exchange.GetRates: takes the table and the metadata as inputs. pkg/exchange/service.go:28 binds two results of the downloader's `GetRates`, which returns three (pkg/domain/rate.go:20). The downloader's error is therefore never checked, and the model has no path for it.
- Exchange.GetRates: ignores the classifier's error, as pkg/exchange/service.go:31-44 overwrites it before it is read. It calls the corrected `FindTargetDays`, which never fails, so the record it sends always carries the flagged dates; with the classifier as written, a converting mid value would leave the record without dates.
- Exchange.FindTargetDaysAsWritten: models `strconv.ParseFloat` as the abstract `parse`. pkg/exchange/service.go:62 passes the `float64` field `MidValue` to a function that takes a string; the model lets `parse` take the number.
- Floating-point semantics (rounding, NaN, infinities) are left out; mid values are exact reals.
- Strings are sequences of Unicode code points. Invalid UTF-8 and byte-level behaviour of `strings` are left out.
- Error message text is left out; each error is a constructor holding what its message formats.
- A non-success status, an unexpected content type or a JSON decode failure is not an error in the code: pkg/downloader/service.go:63-81 records them in the metadata and returns the table.

## Findings

| source | as written | input that shows it | evidently intended | confidence | as-written member | corrected member |
|---|---|---|---|---|---|---|
| pkg/exchange/service.go:63 | the guard `err == nil` returns a conversion error when the mid value converts successfully, and goes on classifying only when the conversion fails | one rate whose mid value converts without error, e.g. 4.40: the result is no dates and a conversion error wrapping a nil error, instead of that rate's date | `err != nil`: report an error only when the conversion fails; with the mid value already numeric, no conversion at all | high; not executed | Exchange.InvertedGuardRejectsParsedFirstRate | Exchange.FindTargetDays |
