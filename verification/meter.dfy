/** The three client-side measurements of public/script.js: `measureLatency`,
    `measureDownloadSpeed` and `measureUploadSpeed`, with the network and the
    clock turned into an input `Exchange` and the thrown error into `Fail`
    (or `Escaped`, when it is thrown before the `try`). */
module Meter {
  import opened Text

  /** Declared size of the download asset: 10 MiB. */
  const DownloadFileSizeB: nat := 10 * 1024 * 1024
  /** Size of the generated upload payload: 5 MiB. */
  const UploadDataSizeB: nat := 5 * 1024 * 1024

  /** Reading the response body: it arrives in full, or the read rejects. */
  datatype Body = Drained(byteLength: nat) | Broken(message: string)

  /** What one phase observes of the network: either `fetch` rejects, or a
      response arrives with a status and a body, and the clock shows
      `elapsedMs` milliseconds when the phase stops its timer. */
  datatype Exchange =
    | Rejected(message: string)
    | Answered(status: nat, body: Body, elapsedMs: real)

  /** What a phase yields: its number (milliseconds or bytes per second), the
      message of the error its `catch` reports, or an error thrown before its
      `try`, which skips that `catch` and so reaches the page nowhere. */
  datatype Outcome = Ok(value: real) | Fail(message: string) | Escaped

  /** `response.ok`: a status in the range 200-299. */
  predicate StatusOk(status: nat) {
    200 <= status <= 299
  }

  function ServerError(status: nat): string {
    "Server error: " + Numeral(status)
  }

  function Seconds(ms: real): real {
    ms / 1000.0
  }

  /** Bytes per second for `size` bytes moved in `ms` milliseconds; a
      non-positive duration fails with `invalid` instead of dividing. */
  function Rate(size: nat, ms: real, invalid: string): (o: Outcome)
    ensures o.Ok? <==> Seconds(ms) > 0.0
    ensures o.Fail? <==> Seconds(ms) <= 0.0
    ensures o.Ok? ==> o.value > 0.0 || size == 0
    ensures o.Ok? ==> o.value * Seconds(ms) == size as real
    ensures o.Fail? ==> o.message == invalid
  {
    var durationSeconds := Seconds(ms);
    if durationSeconds <= 0.0 then Fail(invalid)
    else Ok(size as real / durationSeconds)
  }

  /** `measureLatency`: the round trip in milliseconds once a status is known. */
  function MeasureLatency(ex: Exchange): (o: Outcome)
    ensures !o.Escaped?
    ensures o.Ok? <==> ex.Answered? && StatusOk(ex.status)
    ensures o.Ok? ==> o.value == ex.elapsedMs
    ensures ex.Rejected? ==> o == Fail(ex.message)
    ensures ex.Answered? && !StatusOk(ex.status) ==> o == Fail(ServerError(ex.status))
  {
    match ex
    case Rejected(m) => Fail(m)
    case Answered(status, _, ms) =>
      if !StatusOk(status) then Fail(ServerError(status)) else Ok(ms)
  }

  /** A download phase's outcome plus whether it logged a size warning. */
  datatype DownloadReport = DownloadReport(outcome: Outcome, sizeWarning: bool)

  /** `measureDownloadSpeed`: the declared size over the elapsed seconds. The
      received length only decides the warning. */
  function MeasureDownload(ex: Exchange): (r: DownloadReport)
    ensures r.outcome.Ok? <==>
              ex.Answered? && StatusOk(ex.status) && ex.body.Drained? && Seconds(ex.elapsedMs) > 0.0
    ensures !r.outcome.Escaped?
    ensures r.outcome.Ok? ==> r.outcome.value > 0.0
    ensures r.outcome.Ok? ==> r.outcome.value * Seconds(ex.elapsedMs) == DownloadFileSizeB as real
    ensures ex.Rejected? ==> r.outcome == Fail(ex.message)
    ensures ex.Answered? && !StatusOk(ex.status) ==> r.outcome == Fail(ServerError(ex.status))
    ensures ex.Answered? && StatusOk(ex.status) && ex.body.Broken? ==> r.outcome == Fail(ex.body.message)
    ensures ex.Answered? && StatusOk(ex.status) && ex.body.Drained? && Seconds(ex.elapsedMs) <= 0.0 ==>
              r.outcome == Fail("Download duration invalid.")
    ensures r.sizeWarning <==>
              ex.Answered? && StatusOk(ex.status) && ex.body.Drained?
              && ex.body.byteLength != DownloadFileSizeB
  {
    match ex
    case Rejected(m) => DownloadReport(Fail(m), false)
    case Answered(status, body, ms) =>
      if !StatusOk(status) then DownloadReport(Fail(ServerError(status)), false)
      else match body
        case Broken(m) => DownloadReport(Fail(m), false)
        case Drained(byteLength) =>
          DownloadReport(Rate(DownloadFileSizeB, ms, "Download duration invalid."),
                         byteLength != DownloadFileSizeB)
  }

  /** A size mismatch never changes the download outcome: two responses that
      differ only in how many bytes arrived measure the same. */
  lemma DownloadIgnoresReceivedLength(status: nat, n1: nat, n2: nat, ms: real)
    ensures MeasureDownload(Answered(status, Drained(n1), ms)).outcome
         == MeasureDownload(Answered(status, Drained(n2), ms)).outcome
  {
  }

  /** `measureUploadSpeed`: the generated payload's size over the seconds
      until the acknowledgement body has been read. The random payload is
      built before the `try`, so when building it throws (`payloadBuilt` is
      false) the error escapes without reaching the `catch`. */
  function MeasureUpload(payloadBuilt: bool, ex: Exchange): (o: Outcome)
    ensures o.Escaped? <==> !payloadBuilt
    ensures o.Ok? <==>
              && payloadBuilt
              && ex.Answered? && StatusOk(ex.status) && ex.body.Drained? && Seconds(ex.elapsedMs) > 0.0
    ensures o.Ok? ==> o.value > 0.0
    ensures o.Ok? ==> o.value * Seconds(ex.elapsedMs) == UploadDataSizeB as real
    ensures payloadBuilt && ex.Rejected? ==> o == Fail(ex.message)
    ensures payloadBuilt && ex.Answered? && !StatusOk(ex.status) ==> o == Fail(ServerError(ex.status))
    ensures payloadBuilt && ex.Answered? && StatusOk(ex.status) && ex.body.Broken? ==>
              o == Fail(ex.body.message)
    ensures payloadBuilt && ex.Answered? && StatusOk(ex.status) && ex.body.Drained?
            && Seconds(ex.elapsedMs) <= 0.0 ==>
              o == Fail("Upload duration invalid.")
  {
    if !payloadBuilt then Escaped
    else match ex
      case Rejected(m) => Fail(m)
      case Answered(status, body, ms) =>
        if !StatusOk(status) then Fail(ServerError(status))
        else match body
          case Broken(m) => Fail(m)
          case Drained(_) => Rate(UploadDataSizeB, ms, "Upload duration invalid.")
  }

  /** The status in a server-error message reads back as the status itself. */
  lemma ServerErrorNamesStatus(status: nat)
    ensures |ServerError(status)| > 14
    ensures ServerError(status)[..14] == "Server error: "
    ensures ValueOf(ServerError(status)[14..]) == status
  {
    assert ServerError(status)[14..] == Numeral(status);
    NumeralValue(status);
  }
}
