/** The start button's click handler in public/script.js: reset the display,
    run latency, download and upload in that order, stop at the first phase
    that throws, and leave the status line saying how the run ended. The DOM
    is a `Display` value; the network answer each phase would receive is a
    function `env` of the phase, consulted only for phases that run. */
module Orchestrator {
  import opened Text
  import opened Fixed
  import opened Meter

  datatype Phase = Latency | Download | Upload

  /** The order the handler awaits the phases in. */
  const Phases: seq<Phase> := [Latency, Download, Upload]

  /** Where a phase stands in `Phases`. */
  function Index(p: Phase): (i: nat)
    ensures i < |Phases| && Phases[i] == p
  {
    match p
    case Latency => 0
    case Download => 1
    case Upload => 2
  }

  /** The status element: its text and its class ('testing', 'complete',
      'error' or empty). */
  datatype StatusLine = StatusLine(text: string, state: string)

  /** What a result element was last given: a dash, the word 'Error', or a
      phase's measured value, shown through `Shown`. */
  datatype Cell = Dash | ErrorMark | Value(value: real)

  /** Everything the handler writes to the page. */
  datatype Display = Display(
    ping: Cell,
    download: Cell,
    upload: Cell,
    status: StatusLine,
    buttonDisabled: bool)

  /** The result element of a phase. */
  function ResultOf(d: Display, p: Phase): Cell {
    match p
    case Latency => d.ping
    case Download => d.download
    case Upload => d.upload
  }

  function SetResult(d: Display, p: Phase, c: Cell): (d': Display)
    ensures ResultOf(d', p) == c
    ensures forall q :: q != p ==> ResultOf(d', q) == ResultOf(d, q)
    ensures d'.status == d.status && d'.buttonDisabled == d.buttonDisabled
  {
    match p
    case Latency => d.(ping := c)
    case Download => d.(download := c)
    case Upload => d.(upload := c)
  }

  /** `updateStatus`. */
  function UpdateStatus(d: Display, text: string, state: string): Display {
    d.(status := StatusLine(text, state))
  }

  /** `resetResults`: every result back to a dash, status line cleared. */
  function ResetResults(d: Display): (d': Display)
    ensures forall p :: ResultOf(d', p) == Dash
    ensures d'.status == StatusLine("", "")
    ensures d'.buttonDisabled == d.buttonDisabled
  {
    UpdateStatus(d.(ping := Dash, download := Dash, upload := Dash), "", "")
  }

  function TestingMessage(p: Phase): string {
    match p
    case Latency => "Testing latency..."
    case Download => "Testing download speed..."
    case Upload => "Testing upload speed..."
  }

  function FailurePrefix(p: Phase): string {
    match p
    case Latency => "Latency test failed: "
    case Download => "Download test failed: "
    case Upload => "Upload test failed: "
  }

  /** What the phase's measure function returns or throws against the
      network answer `ex`; `payloadBuilt` says whether building the upload
      payload succeeds. */
  function Measure(p: Phase, ex: Exchange, payloadBuilt: bool): Outcome {
    match p
    case Latency => MeasureLatency(ex)
    case Download => MeasureDownload(ex).outcome
    case Upload => MeasureUpload(payloadBuilt, ex)
  }

  /** How a successful phase shows its value: whole milliseconds for latency,
      `formatSpeed` for the two rates. */
  function Shown(p: Phase, value: real): string {
    if p == Latency then ToFixed(value, 0) else FormatSpeed(Number(value))
  }

  /** The text of a result element. */
  function TextOf(d: Display, p: Phase): string {
    match ResultOf(d, p)
    case Dash => "-"
    case ErrorMark => "Error"
    case Value(v) => Shown(p, v)
  }

  /** The three kinds of text a result element can hold never coincide: a
      shown value ends in a digit. */
  lemma TextOfDistinguishes(d: Display, p: Phase)
    ensures TextOf(d, p) == "-" <==> ResultOf(d, p) == Dash
    ensures TextOf(d, p) == "Error" <==> ResultOf(d, p) == ErrorMark
    ensures ResultOf(d, p).Value? ==> IsDigit(TextOf(d, p)[|TextOf(d, p)| - 1])
  {
  }

  /** What each phase would yield if it ran; the handler consults it only for
      the phases it reaches. */
  type Results = Phase -> Outcome

  /** Only the upload phase depends on whether its payload can be built. */
  lemma PayloadMattersOnlyForUpload(p: Phase, ex: Exchange, built1: bool, built2: bool)
    requires p == Upload ==> built1 == built2
    ensures Measure(p, ex, built1) == Measure(p, ex, built2)
  {
  }

  /** The outcomes of the three measure functions against the network
      answers `env`. */
  function Outcomes(env: Phase -> Exchange, payloadBuilt: bool): Results {
    p => Measure(p, env(p), payloadBuilt)
  }

  /** Phase `p` throws, inside its `try` or before it. */
  predicate Failed(p: Phase, results: Results) {
    !results(p).Ok?
  }

  /** One awaited phase: announce it, then show its value, or mark it 'Error'
      and put its failure on the status line. An error thrown before the
      phase's `try` leaves only the announcement. */
  function RunPhase(d: Display, p: Phase, o: Outcome): (d': Display)
    ensures o.Ok? ==> ResultOf(d', p) == Value(o.value)
    ensures o.Fail? ==> ResultOf(d', p) == ErrorMark
    ensures o.Escaped? ==> ResultOf(d', p) == ResultOf(d, p)
    ensures !o.Fail? ==> d'.status == StatusLine(TestingMessage(p), "testing")
    ensures o.Fail? ==> d'.status == StatusLine(FailurePrefix(p) + o.message, "error")
    ensures forall q :: q != p ==> ResultOf(d', q) == ResultOf(d, q)
    ensures d'.buttonDisabled == d.buttonDisabled
  {
    var testing := UpdateStatus(d, TestingMessage(p), "testing");
    match o
    case Ok(v) => SetResult(testing, p, Value(v))
    case Fail(m) => UpdateStatus(SetResult(testing, p, ErrorMark), FailurePrefix(p) + m, "error")
    case Escaped => testing
  }

  /** The `try` block of the handler: the display it leaves, the phases it
      invoked in order, and whether one of them threw. */
  datatype Run = Run(display: Display, invoked: seq<Phase>, failed: bool)

  /** Awaits the phases of `todo` in order, stopping after the first failure. */
  function RunFrom(d: Display, todo: seq<Phase>, results: Results): Run
    decreases |todo|
  {
    if todo == [] then Run(d, [], false)
    else
      var p := todo[0];
      var d' := RunPhase(d, p, results(p));
      if Failed(p, results) then Run(d', [p], true)
      else
        var rest := RunFrom(d', todo[1..], results);
        Run(rest.display, [p] + rest.invoked, rest.failed)
  }

  /** The page as the handler leaves it before the first phase: results
      reset, button disabled, "Starting test..." announced. */
  function Started(d: Display): Display {
    UpdateStatus(ResetResults(d).(buttonDisabled := true), "Starting test...", "testing")
  }

  /** What the handler does after its `try` block `run`: "Test complete!"
      when no phase threw; otherwise its `catch`, which puts up the generic
      "Test sequence failed." unless the status already says "failed"; then
      its `finally`, which enables the button. */
  function Finish(run: Run): Run {
    var ended :=
      if !run.failed then UpdateStatus(run.display, "Test complete!", "complete")
      else if !Includes(run.display.status.text, "failed") then
        UpdateStatus(run.display, "Test sequence failed.", "error")
      else run.display;
    Run(ended.(buttonDisabled := false), run.invoked, run.failed)
  }

  /** The handler over given phase outcomes: the `try` block, then `Finish`. */
  function Handle(d: Display, results: Results): Run {
    Finish(RunFrom(Started(d), Phases, results))
  }

  /** The click handler against the network answers `env`. */
  function Click(d: Display, env: Phase -> Exchange, payloadBuilt: bool): Run {
    Handle(d, Outcomes(env, payloadBuilt))
  }

  /** Phase `todo[i]` is reached exactly when every earlier one succeeded. */
  ghost predicate Reached(todo: seq<Phase>, results: Results, i: nat)
    requires i <= |todo|
  {
    forall j | 0 <= j < i :: !Failed(todo[j], results)
  }

  /** A sequence that agrees with `ys` at each of its indices is a prefix of it. */
  lemma PrefixByIndex<T>(xs: seq<T>, ys: seq<T>)
    requires |xs| <= |ys|
    requires forall i | 0 <= i < |xs| :: xs[i] == ys[i]
    ensures xs == ys[..|xs|]
  {
  }

  /** The invoked phases are a prefix of `todo`, all of it when no phase
      failed. */
  lemma {:induction false} RunFromPrefix(d: Display, todo: seq<Phase>, results: Results)
    ensures var r := RunFrom(d, todo, results);
      && |r.invoked| <= |todo|
      && (forall i | 0 <= i < |r.invoked| :: r.invoked[i] == todo[i])
      && (!r.failed ==> |r.invoked| == |todo|)
    decreases |todo|
  {
    if todo != [] && !Failed(todo[0], results) {
      var p := todo[0];
      var d' := RunPhase(d, p, results(p));
      RunFromPrefix(d', todo[1..], results);
      var rest := RunFrom(d', todo[1..], results);
      var r := RunFrom(d, todo, results);
      assert r.invoked == [p] + rest.invoked;
      forall i | 0 <= i < |r.invoked| ensures r.invoked[i] == todo[i] {
        if i > 0 {
          assert r.invoked[i] == rest.invoked[i - 1] == todo[1..][i - 1];
        }
      }
    }
  }

  /** Only the last phase invoked can have failed, and it did exactly when
      the run failed. */
  lemma {:induction false} RunFromFailsLast(d: Display, todo: seq<Phase>, results: Results)
    ensures var r := RunFrom(d, todo, results);
      && (r.failed ==> |r.invoked| > 0)
      && forall i | 0 <= i < |r.invoked| ::
           Failed(r.invoked[i], results) <==> r.failed && i == |r.invoked| - 1
    decreases |todo|
  {
    if todo != [] && !Failed(todo[0], results) {
      var p := todo[0];
      var d' := RunPhase(d, p, results(p));
      RunFromFailsLast(d', todo[1..], results);
      var rest := RunFrom(d', todo[1..], results);
      var r := RunFrom(d, todo, results);
      assert r.invoked == [p] + rest.invoked && r.failed == rest.failed;
      forall i | 0 <= i < |r.invoked|
        ensures Failed(r.invoked[i], results) <==> r.failed && i == |r.invoked| - 1
      {
        if i > 0 {
          assert r.invoked[i] == rest.invoked[i - 1];
        }
      }
    }
  }

  /** A phase of `todo` is invoked exactly when every phase before it
      succeeded. */
  lemma {:induction false} RunFromReached(d: Display, todo: seq<Phase>, results: Results, i: nat)
    requires i < |todo|
    ensures i < |RunFrom(d, todo, results).invoked| <==> Reached(todo, results, i)
    decreases |todo|
  {
    if i > 0 {
      if !Failed(todo[0], results) {
        var d' := RunPhase(d, todo[0], results(todo[0]));
        RunFromReached(d', todo[1..], results, i - 1);
        assert Reached(todo, results, i) <==> Reached(todo[1..], results, i - 1) by {
          forall j | 0 <= j < i - 1 ensures todo[1..][j] == todo[j + 1] {}
        }
      } else {
        assert !Reached(todo, results, i) by {
          assert Failed(todo[0], results);
        }
      }
    }
  }

  /** Only the outcomes of invoked phases matter: two outcome functions that
      agree on them give the same run. */
  lemma {:induction false} RunFromConsultsOnlyInvoked(d: Display, todo: seq<Phase>,
                                                       results1: Results, results2: Results)
    requires forall p | p in RunFrom(d, todo, results1).invoked :: results1(p) == results2(p)
    ensures RunFrom(d, todo, results2) == RunFrom(d, todo, results1)
    decreases |todo|
  {
    if todo != [] {
      assert todo[0] in RunFrom(d, todo, results1).invoked;
      if !Failed(todo[0], results1) {
        var d' := RunPhase(d, todo[0], results1(todo[0]));
        var rest := RunFrom(d', todo[1..], results1);
        forall p | p in rest.invoked ensures results1(p) == results2(p) {
          assert p in RunFrom(d, todo, results1).invoked;
        }
        RunFromConsultsOnlyInvoked(d', todo[1..], results1, results2);
      }
    }
  }

  /** One step of `RunFrom`, field by field. */
  lemma RunFromStep(d: Display, todo: seq<Phase>, results: Results)
    requires todo != []
    ensures var p := todo[0];
      var d' := RunPhase(d, p, results(p));
      var r := RunFrom(d, todo, results);
      if Failed(p, results) then r.display == d' && r.invoked == [p] && r.failed
      else
        var rest := RunFrom(d', todo[1..], results);
        r.display == rest.display && r.invoked == [p] + rest.invoked && r.failed == rest.failed
  {
  }

  /** After a failure caught by the phase, the status line carries the
      phase's own message, marked 'error', and the phase shows 'Error'. */
  lemma {:induction false} RunFromFailedDisplay(d: Display, todo: seq<Phase>, results: Results)
    ensures var r := RunFrom(d, todo, results);
      r.failed ==>
        && |r.invoked| > 0
        && var p := r.invoked[|r.invoked| - 1];
        && Failed(p, results)
        && (results(p).Fail? ==>
              && r.display.status == StatusLine(FailurePrefix(p) + results(p).message, "error")
              && ResultOf(r.display, p) == ErrorMark)
    decreases |todo|
  {
    if todo != [] {
      var p := todo[0];
      var d' := RunPhase(d, p, results(p));
      RunFromStep(d, todo, results);
      if !Failed(p, results) {
        RunFromFailedDisplay(d', todo[1..], results);
        var rest := RunFrom(d', todo[1..], results);
        if rest.failed {
          assert ([p] + rest.invoked)[|rest.invoked|] == rest.invoked[|rest.invoked| - 1];
        }
      }
    }
  }

  /** When the run ends on a phase that threw before its `try`, the status
      line still announces that phase. */
  predicate EndsAnnouncing(r: Run, results: Results) {
    r.failed && |r.invoked| > 0 && results(r.invoked[|r.invoked| - 1]).Escaped? ==>
      r.display.status == StatusLine(TestingMessage(r.invoked[|r.invoked| - 1]), "testing")
  }

  /** A run that stops at its first phase ends announcing it. */
  lemma EndsAnnouncingHere(d: Display, todo: seq<Phase>, results: Results)
    requires todo != [] && Failed(todo[0], results)
    ensures EndsAnnouncing(RunFrom(d, todo, results), results)
  {
    var p := todo[0];
    var d' := RunPhase(d, p, results(p));
    assert RunFrom(d, todo, results) == Run(d', [p], true);
  }

  /** A run that gets past its first phase ends as the rest of it does. */
  lemma EndsAnnouncingLater(d: Display, todo: seq<Phase>, results: Results)
    requires todo != [] && !Failed(todo[0], results)
    requires EndsAnnouncing(RunFrom(RunPhase(d, todo[0], results(todo[0])), todo[1..], results), results)
    ensures EndsAnnouncing(RunFrom(d, todo, results), results)
  {
    var p := todo[0];
    var rest := RunFrom(RunPhase(d, p, results(p)), todo[1..], results);
    var r := RunFrom(d, todo, results);
    assert r == Run(rest.display, [p] + rest.invoked, rest.failed);
    if |rest.invoked| > 0 {
      assert r.invoked[|r.invoked| - 1] == rest.invoked[|rest.invoked| - 1];
    }
  }

  /** After an error thrown before the failing phase's `try`, the status line
      still announces that phase. */
  lemma {:induction false} RunFromEscapedStatus(d: Display, todo: seq<Phase>, results: Results)
    ensures EndsAnnouncing(RunFrom(d, todo, results), results)
    decreases |todo|
  {
    if todo != [] {
      if Failed(todo[0], results) {
        EndsAnnouncingHere(d, todo, results);
      } else {
        RunFromEscapedStatus(RunPhase(d, todo[0], results(todo[0])), todo[1..], results);
        EndsAnnouncingLater(d, todo, results);
      }
    }
  }

  /** A phase that was not invoked, or that throws before its `try`, keeps
      the result it had before the run. */
  lemma {:induction false} RunFromLeavesUninvoked(d: Display, todo: seq<Phase>, results: Results)
    ensures forall p | p !in RunFrom(d, todo, results).invoked || results(p).Escaped? ::
              ResultOf(RunFrom(d, todo, results).display, p) == ResultOf(d, p)
    decreases |todo|
  {
    if todo != [] && !Failed(todo[0], results) {
      RunFromLeavesUninvoked(RunPhase(d, todo[0], results(todo[0])), todo[1..], results);
    }
  }

  /** A phase that succeeded shows its value. */
  lemma {:induction false} RunFromShowsSuccesses(d: Display, todo: seq<Phase>, results: Results)
    requires forall i, j | 0 <= i < j < |todo| :: todo[i] != todo[j]
    ensures var r := RunFrom(d, todo, results);
      forall p | p in r.invoked && !Failed(p, results) ::
        ResultOf(r.display, p) == Value(results(p).value)
    decreases |todo|
  {
    if todo != [] && !Failed(todo[0], results) {
      var d' := RunPhase(d, todo[0], results(todo[0]));
      RunFromShowsSuccesses(d', todo[1..], results);
      RunFromLeavesUninvoked(d', todo[1..], results);
      RunFromPrefix(d', todo[1..], results);
      var rest := RunFrom(d', todo[1..], results);
      forall k | 0 <= k < |rest.invoked| ensures rest.invoked[k] != todo[0] {
        assert rest.invoked[k] == todo[k + 1];
      }
    }
  }

  /** Every phase's failure message contains "failed". */
  lemma FailurePrefixSaysFailed(p: Phase, m: string)
    ensures Includes(FailurePrefix(p) + m, "failed")
  {
    var before := match p
      case Latency => "Latency test "
      case Download => "Download test "
      case Upload => "Upload test ";
    assert FailurePrefix(p) + m == before + "failed" + (": " + m);
    IncludesInfix(before, "failed", ": " + m);
  }

  /** No phase's announcement contains "failed". */
  lemma TestingSaysNoFailure(p: Phase)
    ensures !Includes(TestingMessage(p), "failed")
  {
    assert 'f' !in TestingMessage(p);
    MissingHeadNotIncluded(TestingMessage(p), "failed");
  }

  /** No phase's failure message reads as the generic fallback. */
  lemma FailureIsNotFallback(p: Phase, m: string)
    ensures FailurePrefix(p) + m != "Test sequence failed."
  {
    assert (FailurePrefix(p) + m)[0] != 'T';
  }


  /** Phases never run out of order and none runs after a failure: the
      handler invokes the prefix of latency, download, upload up to the first
      failing phase, and a phase is invoked exactly when all before it
      succeeded. */
  lemma HandleFailFast(d: Display, results: Results)
    ensures var r := Handle(d, results);
      && 1 <= |r.invoked| <= 3
      && r.invoked == Phases[..|r.invoked|]
      && (forall i | 0 <= i < 3 :: i < |r.invoked| <==> Reached(Phases, results, i))
      && (forall i | 0 <= i < |r.invoked| ::
            Failed(Phases[i], results) <==> r.failed && i == |r.invoked| - 1)
  {
    var run := RunFrom(Started(d), Phases, results);
    RunFromPrefix(Started(d), Phases, results);
    RunFromFailsLast(Started(d), Phases, results);
    PrefixByIndex(run.invoked, Phases);
    forall i | 0 <= i < 3 ensures i < |run.invoked| <==> Reached(Phases, results, i) {
      RunFromReached(Started(d), Phases, results, i);
    }
    assert Reached(Phases, results, 0);
    forall i | 0 <= i < |run.invoked|
      ensures Failed(Phases[i], results) <==> run.failed && i == |run.invoked| - 1
    {
      assert run.invoked[i] == Phases[i];
    }
  }

  /** A failed run's status contains "failed" exactly when the failing phase
      caught its error and reported it. */
  lemma RunFromSaysFailed(d: Display, todo: seq<Phase>, results: Results)
    ensures var r := RunFrom(d, todo, results);
      r.failed ==>
        && |r.invoked| > 0
        && (Includes(r.display.status.text, "failed") <==> results(r.invoked[|r.invoked| - 1]).Fail?)
  {
    RunFromFailedDisplay(d, todo, results);
    var r := RunFrom(d, todo, results);
    if r.failed {
      var p := r.invoked[|r.invoked| - 1];
      if results(p).Fail? {
        assert r.display.status.text == FailurePrefix(p) + results(p).message;
        FailurePrefixSaysFailed(p, results(p).message);
      } else {
        RunFromEscapedStatus(d, todo, results);
        assert r.display.status.text == TestingMessage(p);
        TestingSaysNoFailure(p);
      }
    }
  }

  /** The `catch` fallback fires exactly when the failing phase threw before
      its own `try`: a phase that caught its error has already put a message
      containing "failed" on the status line, which the handler keeps; a
      complete run says "Test complete!". */
  lemma HandleFallback(d: Display, results: Results)
    ensures var run := RunFrom(Started(d), Phases, results);
      && (run.failed ==> |run.invoked| > 0)
      && Handle(d, results).display.status
         == (if !run.failed then StatusLine("Test complete!", "complete")
             else if results(run.invoked[|run.invoked| - 1]).Fail? then run.display.status
             else StatusLine("Test sequence failed.", "error"))
  {
    RunFromSaysFailed(Started(d), Phases, results);
  }

  /** After the `try` block the handler only rewrites the status line and
      enables the button: the phases invoked and the results are those the
      run left. */
  lemma HandleKeepsRun(d: Display, results: Results)
    ensures var run := RunFrom(Started(d), Phases, results);
      && Handle(d, results).invoked == run.invoked
      && Handle(d, results).failed == run.failed
      && !Handle(d, results).display.buttonDisabled
      && forall p :: ResultOf(Handle(d, results).display, p) == ResultOf(run.display, p)
  {
    FinishKeepsRun(RunFrom(Started(d), Phases, results));
  }

  /** The `catch` and the `finally` touch only the status line and the
      button. */
  lemma FinishKeepsRun(run: Run)
    ensures Finish(run).invoked == run.invoked && Finish(run).failed == run.failed
    ensures !Finish(run).display.buttonDisabled
    ensures forall p :: ResultOf(Finish(run).display, p) == ResultOf(run.display, p)
  {
  }

  /** The run completes exactly when all three phases succeed. */
  lemma HandleCompleteIff(d: Display, results: Results)
    ensures Handle(d, results).display.status.state == "complete" <==>
              forall p :: !Failed(p, results)
  {
    HandleFallback(d, results);
    HandleKeepsRun(d, results);
    RunFromPrefix(Started(d), Phases, results);
    RunFromFailsLast(Started(d), Phases, results);
    RunFromFailedDisplay(Started(d), Phases, results);
    var r := RunFrom(Started(d), Phases, results);
    if r.failed {
      assert Failed(r.invoked[|r.invoked| - 1], results);
      assert Handle(d, results).display.status.state == "error";
    } else {
      forall p ensures !Failed(p, results) {
        assert r.invoked[Index(p)] == p;
      }
    }
  }

  /** A failed run ends on the failing phase's own message, marked 'error',
      when that phase caught its error, and on the generic "Test sequence
      failed." when it threw before its `try`; the failing phase is the last
      one invoked. */
  lemma HandleFailureStatus(d: Display, results: Results)
    ensures var r := Handle(d, results);
      r.failed ==>
        && |r.invoked| > 0
        && var p := r.invoked[|r.invoked| - 1];
        && Failed(p, results)
        && (results(p).Fail? ==>
              && r.display.status == StatusLine(FailurePrefix(p) + results(p).message, "error")
              && r.display.status.text != "Test sequence failed.")
        && (results(p).Escaped? ==> r.display.status == StatusLine("Test sequence failed.", "error"))
  {
    HandleFallback(d, results);
    HandleKeepsRun(d, results);
    RunFromFailedDisplay(Started(d), Phases, results);
    var run := RunFrom(Started(d), Phases, results);
    var r := Handle(d, results);
    if run.failed {
      var p := run.invoked[|run.invoked| - 1];
      assert r.invoked[|r.invoked| - 1] == p;
      if results(p).Fail? {
        FailureIsNotFallback(p, results(p).message);
        assert r.display.status == run.display.status;
      } else if results(p).Escaped? {
        assert r.display.status == StatusLine("Test sequence failed.", "error");
      }
    }
  }

  /** After a failure the failing phase shows 'Error' when it caught its
      error and still shows the reset's dash when it threw before its `try`;
      the button is enabled again either way. */
  lemma HandleFailureCells(d: Display, results: Results)
    ensures var r := Handle(d, results);
      && !r.display.buttonDisabled
      && (r.failed ==>
            && |r.invoked| > 0
            && var p := r.invoked[|r.invoked| - 1];
            && (results(p).Fail? ==> ResultOf(r.display, p) == ErrorMark)
            && (results(p).Escaped? ==> ResultOf(r.display, p) == Dash))
  {
    HandleFallback(d, results);
    HandleKeepsRun(d, results);
    RunFromFailedDisplay(Started(d), Phases, results);
    RunFromLeavesUninvoked(Started(d), Phases, results);
    var run := RunFrom(Started(d), Phases, results);
    if run.failed {
      var p := run.invoked[|run.invoked| - 1];
      assert ResultOf(Handle(d, results).display, p) == ResultOf(run.display, p);
      if results(p).Escaped? {
        assert ResultOf(run.display, p) == ResultOf(Started(d), p) == Dash;
      }
    }
  }

  /** A phase the handler never reached, or one that threw before its `try`,
      still shows the dash the reset put there. */
  lemma HandleLeavesUnreached(d: Display, results: Results)
    ensures var r := Handle(d, results);
      forall p | p !in r.invoked || results(p).Escaped? :: ResultOf(r.display, p) == Dash
  {
    HandleKeepsRun(d, results);
    RunFromLeavesUninvoked(Started(d), Phases, results);
  }

  /** A complete run shows every phase's value, says "Test complete!" and
      re-enables the button. */
  lemma HandleCompleteDisplay(d: Display, results: Results)
    ensures var r := Handle(d, results);
      !r.failed ==>
        && r.display.status == StatusLine("Test complete!", "complete")
        && (forall p :: results(p).Ok? && ResultOf(r.display, p) == Value(results(p).value))
        && !r.display.buttonDisabled
  {
    HandleFallback(d, results);
    HandleKeepsRun(d, results);
    RunFromPrefix(Started(d), Phases, results);
    RunFromFailsLast(Started(d), Phases, results);
    assert forall i, j | 0 <= i < j < 3 :: Phases[i] != Phases[j];
    RunFromShowsSuccesses(Started(d), Phases, results);
    var r := RunFrom(Started(d), Phases, results);
    if !r.failed {
      forall p ensures results(p).Ok? && ResultOf(r.display, p) == Value(results(p).value) {
        assert r.invoked[Index(p)] == p;
      }
    }
  }

  /** Only the outcomes of the phases the handler invokes matter. */
  lemma HandleConsultsOnlyInvoked(d: Display, results1: Results, results2: Results)
    requires forall p | p in Handle(d, results1).invoked :: results1(p) == results2(p)
    ensures Handle(d, results2) == Handle(d, results1)
  {
    RunFromConsultsOnlyInvoked(Started(d), Phases, results1, results2);
  }

  /** The generic "Test sequence failed." is shown exactly when the run
      failed on a phase that threw before its `try`. */
  lemma HandleFallbackIff(d: Display, results: Results)
    ensures var r := Handle(d, results);
      r.display.status == StatusLine("Test sequence failed.", "error") <==>
        r.failed && |r.invoked| > 0 && results(r.invoked[|r.invoked| - 1]).Escaped?
  {
    HandleFallback(d, results);
    HandleKeepsRun(d, results);
    HandleFailureStatus(d, results);
  }

  /** The run ends on a failing upload exactly when latency and download
      succeed and upload throws; once latency and download succeed, all
      three phases are invoked. */
  lemma HandleUploadLast(d: Display, results: Results)
    ensures var r := Handle(d, results);
      && (r.failed && |r.invoked| > 0 && r.invoked[|r.invoked| - 1] == Upload <==>
            !Failed(Latency, results) && !Failed(Download, results) && Failed(Upload, results))
      && (!Failed(Latency, results) && !Failed(Download, results) ==> r.invoked == Phases)
  {
    HandleFailFast(d, results);
    var r := Handle(d, results);
    assert Phases[0] == Latency && Phases[1] == Download && Phases[2] == Upload;
    if !Failed(Latency, results) && !Failed(Download, results) {
      assert Reached(Phases, results, 2);
      assert |r.invoked| == 3;
    }
    if r.failed && r.invoked[|r.invoked| - 1] == Upload {
      assert |r.invoked| == 3;
      assert Reached(Phases, results, 2);
    }
  }

  /** The fail-fast rule against the network: the answers a phase after the
      failing one would have received, and whether the upload payload could
      be built when upload was never reached, never affect the run. */
  lemma ClickConsultsOnlyInvoked(d: Display, env1: Phase -> Exchange, env2: Phase -> Exchange,
                                 built1: bool, built2: bool)
    requires forall p | p in Click(d, env1, built1).invoked :: env1(p) == env2(p)
    requires Upload in Click(d, env1, built1).invoked ==> built1 == built2
    ensures Click(d, env2, built2) == Click(d, env1, built1)
  {
    var results1 := Outcomes(env1, built1);
    var results2 := Outcomes(env2, built2);
    assert Click(d, env1, built1) == Handle(d, results1);
    assert Click(d, env2, built2) == Handle(d, results2);
    forall p | p in Handle(d, results1).invoked ensures results1(p) == results2(p) {
      PayloadMattersOnlyForUpload(p, env1(p), built1, built2);
      assert results1(p) == Measure(p, env1(p), built1);
      assert results2(p) == Measure(p, env2(p), built2);
    }
    HandleConsultsOnlyInvoked(d, results1, results2);
  }

  /** A new run discards whatever the previous one left on the page. */
  lemma ClickForgetsPreviousRun(d1: Display, d2: Display, env: Phase -> Exchange, payloadBuilt: bool)
    ensures Click(d1, env, payloadBuilt) == Click(d2, env, payloadBuilt)
  {
    assert Started(d1) == Started(d2);
  }

  /** Against the network: the status says 'complete' exactly when latency,
      download and upload all succeed. */
  lemma ClickCompleteIff(d: Display, env: Phase -> Exchange, payloadBuilt: bool)
    ensures Click(d, env, payloadBuilt).display.status.state == "complete" <==>
              forall p :: Measure(p, env(p), payloadBuilt).Ok?
  {
    var results := Outcomes(env, payloadBuilt);
    HandleCompleteIff(d, results);
    forall p ensures Failed(p, results) <==> !Measure(p, env(p), payloadBuilt).Ok? {
      assert results(p) == Measure(p, env(p), payloadBuilt);
    }
  }

  /** A failing latency probe stops the run before anything else: download and
      upload are never invoked and still show a dash, and the status line
      carries the probe's own failure. */
  lemma ClickLatencyFailure(d: Display, env: Phase -> Exchange, payloadBuilt: bool)
    requires MeasureLatency(env(Latency)).Fail?
    ensures var r := Click(d, env, payloadBuilt);
      && r.invoked == [Latency]
      && TextOf(r.display, Latency) == "Error"
      && TextOf(r.display, Download) == "-"
      && TextOf(r.display, Upload) == "-"
      && r.display.status
         == StatusLine("Latency test failed: " + MeasureLatency(env(Latency)).message, "error")
  {
    var results := Outcomes(env, payloadBuilt);
    assert results(Latency) == MeasureLatency(env(Latency));
    HandleFailFast(d, results);
    HandleFailureStatus(d, results);
    HandleFailureCells(d, results);
    HandleLeavesUnreached(d, results);
    assert Failed(Phases[0], results);
    assert Phases[1] == Download && Phases[2] == Upload;
  }

  /** The generic "Test sequence failed." is shown exactly when latency and
      download succeed and the upload payload cannot be built: then all three
      phases were invoked and upload still shows a dash. */
  lemma ClickFallbackIff(d: Display, env: Phase -> Exchange, payloadBuilt: bool)
    ensures var r := Click(d, env, payloadBuilt);
      r.display.status == StatusLine("Test sequence failed.", "error") <==>
        && MeasureLatency(env(Latency)).Ok?
        && MeasureDownload(env(Download)).outcome.Ok?
        && !payloadBuilt
    ensures var r := Click(d, env, payloadBuilt);
      && MeasureLatency(env(Latency)).Ok?
      && MeasureDownload(env(Download)).outcome.Ok?
      && !payloadBuilt
      ==> r.invoked == Phases && r.failed && TextOf(r.display, Upload) == "-"
  {
    var results := Outcomes(env, payloadBuilt);
    assert results(Latency) == MeasureLatency(env(Latency));
    assert results(Download) == MeasureDownload(env(Download)).outcome;
    assert results(Upload) == MeasureUpload(payloadBuilt, env(Upload));
    assert forall p :: results(p).Escaped? <==> p == Upload && !payloadBuilt;
    HandleFallbackIff(d, results);
    HandleUploadLast(d, results);
    HandleLeavesUnreached(d, results);
  }
}
