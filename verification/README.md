# Speed test: a Dafny model of its measurement core

The speed test is a browser client and an Express server. The client measures
three things one after the other: round-trip latency, download throughput and
upload throughput. It shows them in milliseconds and megabits per second. The
server answers a ping, serves a fixed-size file, and collects an upload stream
before acknowledging it.

This project models the decision logic inside that plumbing as pure Dafny
functions and proves what the code promises about it:

- `options.dfy` (`Options`): the optional value that the numeral parsers
  and the upload handler return.
- `text.dfy` (`Text`): JavaScript's `includes` and decimal numerals. Each is
  proved against an independent reading: an index-based substring definition,
  and a digit-string parser.
- `fixed.dfy` (`Fixed`): `Number.prototype.toFixed` over exact reals, and
  `formatSpeed`. The printed string is proved to parse back to the rounded
  value, and that value is proved nearest to the input. The printed string is
  also the only one with the input's sign and no leading zero that does so.
- `meter.dfy` (`Meter`): `measureLatency`, `measureDownloadSpeed` and
  `measureUploadSpeed`. The network and the clock become an `Exchange` input.
  A thrown error becomes `Fail(message)` when the phase's own `catch`
  reports it, and `Escaped` when it is thrown before the `try`, as when the
  upload payload cannot be built.
- `orchestrator.dfy` (`Orchestrator`): the start button's click handler over
  a `Display` record. It covers `resetResults`, `updateStatus`, the per-phase
  error paths, fail-fast sequencing and the "Test sequence failed." fallback.
  What the network would answer for each phase is a function `env`, and
  whether the upload payload can be built is a boolean `payloadBuilt`. The proofs
  show the handler consults it only for phases it reaches.
- `server.dfy` (`Server`): the `/api/ping` handler and the
  `/api/download/:filename` route. The download directory is an abstract set
  of existing names.
- `upload.dfy` (`Upload`): the `/api/upload` handler as a fold over stream
  events (`Data(chunk)`, `End`, `Error`), and the same handler as a loop.

## Model

| member | source | states |
|---|---|---|
| Text.Includes | server.js:37 | `String.prototype.includes` as a left-to-right scan, also used for the 'failed' test at public/script.js:162; its behaviour is stated by the Includes* lemmas |
| Text.IncludesIff | server.js:37 | the substring scan finds ".." exactly when ".." occurs at some index of the name |
| Text.IncludesInfix | server.js:37 | a substring embedded anywhere in a string is found |
| Text.Numeral | public/script.js:50 | the decimal numeral a template literal prints: at least one digit, and no leading zero unless it is "0" |
| Text.NumeralValue | public/script.js:50 | the decimal numeral printed for a status code reads back as that status |
| Text.IncludesWitness | server.js:37 | when the scan reports a match, ".." really occurs at some index of the name |
| Text.IncludesFound | server.js:37 | an occurrence at any index is reported by the scan |
| Text.MissingHeadNotIncluded | public/script.js:162 | a string lacking the first character of `t` does not include `t` |
| Text.SplitValue | public/script.js:38 | the digits before the last `f` places followed by the last `f` digits, zero-padded, read back as the number they were printed from |
| Fixed.ScaledIsNearest | public/script.js:38 | `toFixed` counts the units of 10^-f nearest to a non-negative value, taking the upper count on a tie |
| Fixed.ToFixed | public/script.js:38 | `toFixed(f)`: a non-empty string ending in a digit, with a minus sign exactly for a negative input and no leading zero before the point other than a lone "0"; what it denotes is stated by ToFixedRoundTrip and RoundedIsNearest |
| Fixed.UnsignedRoundTrip | public/script.js:38 | the unsigned digits `toFixed(f)` prints, point included, read back as the count of 10^-f units they were printed from |
| Fixed.SignedRoundTrip | public/script.js:38 | a minus sign in front of the printed digits negates the value read back, and its absence keeps it |
| Fixed.ToFixedRoundTrip | public/script.js:38 | the string `toFixed(f)` prints parses back, sign included, to exactly the rounded count of 10^-f units |
| Fixed.ToFixedUnique | public/script.js:38 | `toFixed(f)` prints the only string with the input's sign and no leading zero that reads back as the rounded value, so "01.00" or "-0.00" for a non-negative input are excluded |
| Fixed.UnsignedUnique | public/script.js:38 | an unsigned numeral with no leading zero that reads back as `n` units is the one `toFixed` prints for them |
| Fixed.NoLeadingZeroUnique | public/script.js:38 | two digit runs without leading zeros that read the same are equal, which is why the printed integer part is unique |
| Fixed.RoundedIsNearest | public/script.js:38 | the value shown is within half a unit of the last decimal place of the input |
| Fixed.FormatSpeed | public/script.js:34-39 | the result is '-' exactly when the rate is null, undefined or NaN |
| Fixed.FormatSpeedDenotes | public/script.js:37-38 | a numeric rate is shown as bps*8/(1024*1024) rounded to two decimals, within half a hundredth, with a minus sign only for a negative rate and no leading zero |
| Fixed.OneMegabit | public/script.js:37-38 | 131072 bytes per second is shown as "1.00" |
| Meter.Rate | public/script.js:127-134 | a duration of at most 0 s fails with the given message; otherwise the rate times the duration equals the size, and the rate is positive for a positive size |
| Meter.MeasureLatency | public/script.js:44-59 | a rejected fetch fails with its message; a status outside 200-299 fails with "Server error: <status>"; otherwise the result is the elapsed milliseconds |
| Meter.MeasureDownload | public/script.js:63-98 | the phase succeeds exactly when the status is ok, the body is read and the duration is positive; the rate is then the declared 10 MiB over the duration; a non-positive duration fails with "Download duration invalid."; the size warning fires exactly when the received length differs from the declared size |
| Meter.DownloadIgnoresReceivedLength | public/script.js:74-89 | the number of bytes actually received never changes the download outcome |
| Meter.MeasureUpload | public/script.js:102-144 | when the random payload cannot be built the phase throws before its `try` (`Escaped`); otherwise it succeeds exactly when the status is ok, the acknowledgement is drained and the duration is positive; the rate is then the 5 MiB payload over the duration and is positive; a non-positive duration fails with "Upload duration invalid." |
| Meter.ServerErrorNamesStatus | public/script.js:69 | the server-error message is "Server error: " followed by a numeral that reads back as the status |
| Orchestrator.UpdateStatus | public/script.js:22-25 | `updateStatus` as written: it sets the status text and class; its effect is stated by the lemmas over RunPhase and Handle |
| Orchestrator.ResetResults | public/script.js:27-32 | every result element shows '-' and the status line is cleared |
| Orchestrator.SetResult | public/script.js:90 | a phase's result element is written and the other elements are left alone |
| Orchestrator.RunPhase | public/script.js:44-59 | a phase shows its value after announcing itself; on a caught failure it shows 'Error' and sets status '<Phase> test failed: <message>' with state 'error'; an error thrown before the `try` leaves the announcement and the phase's element as they were; other elements are untouched |
| Orchestrator.TextOfDistinguishes | public/script.js:52-56 | a result element's text is '-', 'Error' or a value ending in a digit, and the three never coincide |
| Orchestrator.RunFrom | public/script.js:153-157 | the `try` block as written: the phases awaited in order, stopping at the first that throws; its behaviour is stated by the RunFrom* lemmas |
| Orchestrator.Started | public/script.js:149-151 | the reset, the disabled button and "Starting test..." as written; stated by HandleLeavesUnreached and ClickForgetsPreviousRun |
| Orchestrator.Finish | public/script.js:158-166 | the `catch` fallback and the `finally` as written; stated by HandleFallback and HandleKeepsRun |
| Orchestrator.Handle | public/script.js:148-168 | the click handler over given phase outcomes, as written; its behaviour is stated by the Handle* lemmas |
| Orchestrator.Click | public/script.js:148-168 | the click handler against the network answers; its behaviour is stated by the Click* lemmas |
| Orchestrator.RunFromPrefix | public/script.js:153-157 | the invoked phases are a prefix of the sequence, all of it when none failed |
| Orchestrator.RunFromFailsLast | public/script.js:153-157 | only the last phase invoked can have failed, and it did exactly when the run failed |
| Orchestrator.RunFromReached | public/script.js:153-157 | a phase is invoked exactly when every phase before it succeeded |
| Orchestrator.RunFromConsultsOnlyInvoked | public/script.js:153-156 | outcomes of phases that were not invoked never affect the run |
| Orchestrator.RunFromFailedDisplay | public/script.js:54-58 | after a caught failure the status line carries the last invoked phase's failure message with state 'error', and that phase shows 'Error' |
| Orchestrator.RunFromEscapedStatus | public/script.js:103-109 | after an error thrown before the failing phase's `try`, the status line still shows that phase's "Testing ..." announcement |
| Orchestrator.RunFromLeavesUninvoked | public/script.js:153-157 | a phase that was not invoked, or that threw before its `try`, keeps the result it had before the run |
| Orchestrator.RunFromShowsSuccesses | public/script.js:89-91 | each invoked phase that succeeded shows its measured value |
| Orchestrator.FailurePrefixSaysFailed | public/script.js:57 | every phase's failure message contains "failed" |
| Orchestrator.FailureIsNotFallback | public/script.js:57 | no phase's failure message equals the generic "Test sequence failed." |
| Orchestrator.TestingSaysNoFailure | public/script.js:45 | no phase's "Testing ..." announcement (here, and at :64 and :103) contains "failed" |
| Orchestrator.RunFromSaysFailed | public/script.js:54-58 | a failed run leaves a status text containing "failed" exactly when the failing phase caught its error and reported it |
| Orchestrator.HandleFallback | public/script.js:158-164 | after success the status is "Test complete!"; after a caught failure it is left as the failing phase set it; after an error thrown before a phase's `try` it is the fallback "Test sequence failed." |
| Orchestrator.HandleFallbackIff | public/script.js:158-164 | the fallback is shown exactly when the run failed on a phase that threw before its `try` |
| Orchestrator.HandleKeepsRun | public/script.js:158-166 | after the `try` block only the status line and the button change: the phases invoked and every result element are those the run left, and the button is enabled |
| Orchestrator.HandleFailFast | public/script.js:148-168 | the handler invokes latency, download and upload in that order, up to and including the first failure, and a phase runs exactly when all earlier ones succeeded |
| Orchestrator.HandleCompleteIff | public/script.js:153-157 | the final status state is 'complete' exactly when all three phases succeed |
| Orchestrator.HandleFailureStatus | public/script.js:158-164 | a failed run ends on the last invoked phase: its own failure, marked 'error' and distinct from "Test sequence failed.", when it caught the error; the fallback when it threw before its `try` |
| Orchestrator.HandleFailureCells | public/script.js:158-166 | after a failure the button is enabled again; the failing phase shows 'Error' when it caught the error and still shows '-' when it threw before its `try` |
| Orchestrator.HandleLeavesUnreached | public/script.js:148-157 | a phase the handler never invoked, or one that threw before its `try`, still shows the '-' the reset put there |
| Orchestrator.HandleUploadLast | public/script.js:153-157 | the run ends on a failing upload exactly when latency and download succeed and upload throws; once latency and download succeed all three phases are invoked |
| Orchestrator.HandleCompleteDisplay | public/script.js:153-166 | a complete run says "Test complete!", shows every phase's value and enables the button again |
| Orchestrator.ClickConsultsOnlyInvoked | public/script.js:153-156 | the network answer a phase after the failing one would have received, and whether the upload payload could be built when upload was never reached, never affect the run |
| Orchestrator.ClickForgetsPreviousRun | public/script.js:148-151 | a new run ignores whatever the previous run left on the page |
| Orchestrator.ClickCompleteIff | public/script.js:153-157 | against the network, the run completes exactly when all three measurements succeed |
| Orchestrator.ClickLatencyFailure | public/script.js:153-164 | a failing latency probe is the only phase invoked; download and upload still show '-'; the status carries the probe's failure |
| Orchestrator.ClickFallbackIff | public/script.js:103-109 | "Test sequence failed." is shown exactly when latency and download succeed and the upload payload cannot be built; upload then still shows '-' |
| Server.HandlePing | server.js:26-30 | a ping is answered 200 with `Cache-Control: no-store` |
| Server.HandleDownload | server.js:34-49 | 400 "Invalid filename." exactly when the name contains ".."; 200 exactly when the asset is sent, which happens only for an existing name without "..", with no-store; 404 "File not found." exactly for a clean name that does not exist |
| Server.Handle | server.js:26-49 | the two GET routes as written; stated by TokenIsIgnored and TraversalCheckedFirst |
| Server.TokenIsIgnored | server.js:26-49 | the cache-defeat token never changes an answer, and a ping is always 200 "OK" with no-store |
| Server.TraversalCheckedFirst | server.js:37-42 | for a name containing "..", the directory's contents make no difference, and the answer is 400 "Invalid filename." |
| Server.TraversalExamples | server.js:37-39 | "../secret" and "a/../../b" are refused with 400 |
| Upload.ConcatLength | server.js:79-80 | the joined body's length is the sum of the chunk lengths |
| Upload.ConcatPush | server.js:71 | pushing a chunk appends its bytes after everything already received |
| Upload.OnEnd | server.js:75-94 | at stream end the answer is 200 with no-store and the body in arrival order exactly when joining fits the runtime's buffer limit; otherwise 500 "Error processing upload" |
| Upload.Collect | server.js:62-101 | the handler's listeners as a fold over the stream events, as written; its behaviour is stated by the Collect* and Acknowledged* lemmas |
| Upload.HandleUpload | server.js:62-101 | the handler from an empty chunk list; stated by NoAnswerBeforeEnd, AcknowledgedAtEnd and StreamErrorAnswered |
| Upload.CollectStep | server.js:69-72 | one data event pushes its chunk at the end and answers nothing |
| Upload.CollectData | server.js:69-72 | data events only push their chunks, in arrival order, and answer nothing |
| Upload.NoAnswerBeforeEnd | server.js:69-72 | a stream of data events alone gets no response |
| Upload.AcknowledgedAtEnd | server.js:75-88 | data followed by End is answered 200 with no-store, after the chunks are joined in arrival order, and the body length is the sum of the chunk lengths |
| Upload.EmptyUploadAcknowledged | server.js:66-88 | with no chunks, End still gets 200, with an empty body |
| Upload.StreamErrorAnswered | server.js:97-100 | data followed by Error is answered 500 "Upload stream error" |
| Upload.AcknowledgedOnlyAfterEnd | server.js:62-101 | for any event stream, a 200 is only sent once End has arrived after data alone; no response is made while only data has arrived; an Error first is always answered 500 |
| Upload.CollectLoop | server.js:62-101 | the handler written as a loop over the events answers exactly as the fold does |

## Left out

- The network and `fetch`, `performance.now` and `Date.now`. Each phase receives an `Exchange`: a rejection message, or a status, a body read and the elapsed milliseconds. The `t=` cache-defeat token is an input the server ignores.
- The contents of the random upload payload (public/script.js:106). Only its 5 MiB size enters the rate, and whether building it throws is the input `payloadBuilt`.
- DOM element handles and `console` logging. The download size warning is a boolean on `DownloadReport`. The button is a boolean on `Display`.
- A result element holds a `Cell` (dash, 'Error', or a measured value). Its text is `TextOf`, which applies `toFixed(0)` to latency and `formatSpeed` to the rates.
- Meter.Rate: durations and rates are exact reals. The IEEE-754 double rounding of `(endTime - startTime) / 1000` and of the size divided by the duration is not modelled, so the rate times the duration equals the size exactly only in the model.
- Fixed.ToFixed: IEEE-754 double rounding is not modelled. The conversion and rounding are done exactly in `real`. For magnitudes at or above 10^21, JavaScript prints exponent notation, and the model still prints every digit.
- Fixed.FormatSpeed: JavaScript values other than null, undefined, NaN, the infinities and finite numbers (strings, objects) are not modelled.
- Express middleware is not modelled: `cors`, `express.static`, and both `express.raw` registrations (server.js:12, :16, :21, :51-54). Whether the raw body parser consumes the upload stream before the manual handler sees it is framework behaviour these files do not show.
- The internals of `fs.existsSync`, `path.join` and `res.sendFile` are not modelled. The directory is a set of names, so `sendFile` failures and path normalisation are outside the model. So is the URL-decoding of `:filename`.
- Directory creation in `app.listen` (server.js:107-118) is not modelled.
- Concurrent or overlapping runs and requests are not modelled. The source has no guard against them.
- Stream events after the first `End` or `Error` are outside the model. The fold stops there.
- No upload size ceiling is asserted. The manual handler enforces none. The `maxLength` parameter of `OnEnd` stands for the runtime's largest buffer: if `Buffer.concat` would exceed it, the handler's catch branch answers 500.
- Three behaviours of the code a reader might not expect, which the model follows:
  - the ping and upload acknowledgements are sent with `sendStatus(200)`, which sends the body "OK", not an empty body;
  - the upload handler enforces no size ceiling;
  - phases that were never reached still show '-' rather than a pending status.
