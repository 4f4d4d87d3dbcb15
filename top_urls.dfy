/** `get_top_urls`: every mirror is probed in turn, and a `TestResult` is
    kept for each probe that returns; a probe that raises `OSError` is
    reported and skipped, and any other exception ends the run. */
module TopUrls {
  import opened Outcomes
  import SpeedProbe

  /** The `TestResult` dataclass. */
  datatype TestResult = TestResult(url: string, avgRate: real, maxRate: real)

  /** What probing one mirror ran into: an `OSError` (connection, TLS or
      HTTP status failure, or a broken stream), or a download whose run the
      event loop scheduled as described in SpeedProbe. A mirror URL that
      `urlparse` rejects (its `ValueError`) has no trial here. */
  datatype Trial =
    | ConnectionFailed
    | Streamed(chunks: seq<nat>, startCut: nat, tickCuts: seq<nat>, elapsed: real)

  predicate ValidTrial(t: Trial) {
    t.Streamed? ==> SpeedProbe.Schedule(t.chunks, t.startCut, t.tickCuts)
  }

  predicate ValidTrials(trials: seq<Trial>) {
    forall i :: 0 <= i < |trials| ==> ValidTrial(trials[i])
  }

  /** `asyncio.run(check_speed(mirror, timeout))` for one trial. */
  function ProbeOutcome(t: Trial): Result<(real, real)>
    requires ValidTrial(t)
  {
    match t
    case ConnectionFailed => Err(OSError)
    case Streamed(chunks, startCut, tickCuts, elapsed) => SpeedProbe.ProbeSpec(chunks, startCut, tickCuts, elapsed)
  }

  /** The probe outcome of every trial, in order. */
  function ProbeOutcomes(trials: seq<Trial>): (outcomes: seq<Result<(real, real)>>)
    requires ValidTrials(trials)
    ensures |outcomes| == |trials|
  {
    seq(|trials|, i requires 0 <= i < |trials| => ProbeOutcome(trials[i]))
  }

  /** The list `get_top_urls` returns for `mirrors` whose probes had
      `outcomes`, or the exception that escaped its loop. */
  function Collect(mirrors: seq<string>, outcomes: seq<Result<(real, real)>>): Result<seq<TestResult>>
    requires |outcomes| == |mirrors|
  {
    if mirrors == [] then Ok([])
    else
      var n := |mirrors| - 1;
      var before := Collect(mirrors[..n], outcomes[..n]);
      if before.Err? then before
      else if outcomes[n].Ok? then Ok(before.value + [TestResult(mirrors[n], outcomes[n].value.0, outcomes[n].value.1)])
      else if outcomes[n].error == OSError then before
      else Err(outcomes[n].error)
  }

  /** Once the loop has raised, probing further mirrors changes nothing. */
  lemma {:induction false} CollectErrorSticks(mirrors: seq<string>, outcomes: seq<Result<(real, real)>>, j: nat)
    requires |outcomes| == |mirrors| && j <= |mirrors|
    requires Collect(mirrors[..j], outcomes[..j]).Err?
    ensures Collect(mirrors, outcomes) == Collect(mirrors[..j], outcomes[..j])
    decreases |mirrors|
  {
    if j < |mirrors| {
      var n := |mirrors| - 1;
      assert mirrors[..n][..j] == mirrors[..j] && outcomes[..n][..j] == outcomes[..j];
      CollectErrorSticks(mirrors[..n], outcomes[..n], j);
    } else {
      assert mirrors[..j] == mirrors && outcomes[..j] == outcomes;
    }
  }

  /** The loop of `get_top_urls`. */
  method GetTopUrls(mirrors: seq<string>, trials: seq<Trial>) returns (r: Result<seq<TestResult>>)
    requires |trials| == |mirrors| && ValidTrials(trials)
    ensures r == Collect(mirrors, ProbeOutcomes(trials))
  {
    ghost var outcomes := ProbeOutcomes(trials);
    var stats: seq<TestResult> := [];
    for i := 0 to |mirrors|
      invariant Collect(mirrors[..i], outcomes[..i]) == Ok(stats)
    {
      assert mirrors[..i + 1][..i] == mirrors[..i] && outcomes[..i + 1][..i] == outcomes[..i];
      var outcome: Result<(real, real)>;
      match trials[i]
      case ConnectionFailed =>
        outcome := Err(OSError);
      case Streamed(chunks, startCut, tickCuts, elapsed) =>
        outcome := SpeedProbe.CheckSpeed(chunks, startCut, tickCuts, elapsed);
      assert outcome == outcomes[i];
      if outcome.Err? {
        if outcome.error == OSError {
          continue;
        }
        assert Collect(mirrors[..i + 1], outcomes[..i + 1]) == Err(outcome.error);
        CollectErrorSticks(mirrors, outcomes, i + 1);
        return Err(outcome.error);
      }
      stats := stats + [TestResult(mirrors[i], outcome.value.0, outcome.value.1)];
    }
    assert mirrors[..|mirrors|] == mirrors && outcomes[..|outcomes|] == outcomes;
    r := Ok(stats);
  }

  /** Indices of the probes that returned, in increasing order. */
  function Succeeded(outcomes: seq<Result<(real, real)>>): seq<nat> {
    if outcomes == [] then []
    else
      var n := |outcomes| - 1;
      Succeeded(outcomes[..n]) + (if outcomes[n].Ok? then [n] else [])
  }

  /** Number of probes that raised. */
  function Failures(outcomes: seq<Result<(real, real)>>): nat {
    if outcomes == [] then 0
    else
      var n := |outcomes| - 1;
      Failures(outcomes[..n]) + (if outcomes[n].Ok? then 0 else 1)
  }

  /** `get_top_urls` raises exactly when some probe raised something other
      than `OSError`, and then raises that. */
  lemma {:induction false} CollectFailsOnlyByFatal(mirrors: seq<string>, outcomes: seq<Result<(real, real)>>)
    requires |outcomes| == |mirrors|
    ensures Collect(mirrors, outcomes).Err? <==>
      exists i :: 0 <= i < |outcomes| && outcomes[i].Err? && outcomes[i].error != OSError
    ensures Collect(mirrors, outcomes).Err? ==> Collect(mirrors, outcomes).error != OSError
    ensures Collect(mirrors, outcomes).Err? ==>
      exists i :: 0 <= i < |outcomes| && outcomes[i] == Err(Collect(mirrors, outcomes).error) &&
        forall k :: 0 <= k < i ==> !(outcomes[k].Err? && outcomes[k].error != OSError)
  {
    if mirrors != [] {
      var n := |mirrors| - 1;
      var o0 := outcomes[..n];
      CollectFailsOnlyByFatal(mirrors[..n], o0);
      if Collect(mirrors[..n], o0).Err? {
        var i :| 0 <= i < n && o0[i] == Err(Collect(mirrors[..n], o0).error) &&
          forall k :: 0 <= k < i ==> !(o0[k].Err? && o0[k].error != OSError);
        assert outcomes[i] == o0[i];
        assert forall k :: 0 <= k < i ==> outcomes[k] == o0[k];
      } else {
        forall i | 0 <= i < n ensures !(outcomes[i].Err? && outcomes[i].error != OSError) {
          assert outcomes[i] == o0[i];
        }
      }
    }
  }

  /** `stats` holds one entry per index of `idx`, in increasing order, and
      those indices are exactly the probes that returned; entry k records
      mirror idx[k] and its probe's rates. */
  ghost predicate RecordsSuccesses(mirrors: seq<string>, outcomes: seq<Result<(real, real)>>, stats: seq<TestResult>, idx: seq<nat>)
    requires |outcomes| == |mirrors|
  {
    |stats| == |idx| &&
    (forall k :: 0 <= k < |idx| ==>
      idx[k] < |mirrors| && outcomes[idx[k]].Ok? &&
      stats[k] == TestResult(mirrors[idx[k]], outcomes[idx[k]].value.0, outcomes[idx[k]].value.1)) &&
    (forall k, m :: 0 <= k < m < |idx| ==> idx[k] < idx[m]) &&
    (forall i :: 0 <= i < |outcomes| && outcomes[i].Ok? ==> i in idx)
  }

  /** When `get_top_urls` returns, its list is the successful mirrors with
      their rates, in mirror order, with nothing for the mirrors that
      failed: as many results as mirrors minus failures. */
  lemma CollectKeepsSuccesses(mirrors: seq<string>, outcomes: seq<Result<(real, real)>>)
    requires |outcomes| == |mirrors|
    requires Collect(mirrors, outcomes).Ok?
    ensures RecordsSuccesses(mirrors, outcomes, Collect(mirrors, outcomes).value, Succeeded(outcomes))
    ensures |Collect(mirrors, outcomes).value| == |mirrors| - Failures(outcomes)
  {
    CollectRecords(mirrors, outcomes);
    SuccessesAndFailures(outcomes);
  }

  lemma {:induction false} CollectRecords(mirrors: seq<string>, outcomes: seq<Result<(real, real)>>)
    requires |outcomes| == |mirrors|
    requires Collect(mirrors, outcomes).Ok?
    ensures RecordsSuccesses(mirrors, outcomes, Collect(mirrors, outcomes).value, Succeeded(outcomes))
  {
    if mirrors != [] {
      var n := |mirrors| - 1;
      CollectRecords(mirrors[..n], outcomes[..n]);
      RecordsStep(mirrors, outcomes, Collect(mirrors[..n], outcomes[..n]).value, Succeeded(outcomes[..n]));
    }
  }

  /** Every probe either returned or raised. */
  lemma {:induction false} SuccessesAndFailures(outcomes: seq<Result<(real, real)>>)
    ensures |Succeeded(outcomes)| + Failures(outcomes) == |outcomes|
  {
    if outcomes != [] {
      SuccessesAndFailures(outcomes[..|outcomes| - 1]);
    }
  }

  /** One more probe keeps the record: a success adds its entry and index,
      a failure adds nothing. */
  lemma RecordsStep(mirrors: seq<string>, outcomes: seq<Result<(real, real)>>, stats: seq<TestResult>, idx: seq<nat>)
    requires |outcomes| == |mirrors| > 0
    requires RecordsSuccesses(mirrors[..|mirrors| - 1], outcomes[..|mirrors| - 1], stats, idx)
    ensures outcomes[|mirrors| - 1].Ok? ==> RecordsSuccesses(mirrors, outcomes,
      stats + [TestResult(mirrors[|mirrors| - 1], outcomes[|mirrors| - 1].value.0, outcomes[|mirrors| - 1].value.1)],
      idx + [|mirrors| - 1])
    ensures !outcomes[|mirrors| - 1].Ok? ==> RecordsSuccesses(mirrors, outcomes, stats, idx)
  {
    var n := |mirrors| - 1;
    var m0, o0 := mirrors[..n], outcomes[..n];
    assert forall i :: 0 <= i < n ==> outcomes[i] == o0[i] && mirrors[i] == m0[i];
    if outcomes[n].Ok? {
      var stats' := stats + [TestResult(mirrors[n], outcomes[n].value.0, outcomes[n].value.1)];
      var idx' := idx + [n];
      forall k | 0 <= k < |idx'|
        ensures idx'[k] < |mirrors| && outcomes[idx'[k]].Ok? &&
          stats'[k] == TestResult(mirrors[idx'[k]], outcomes[idx'[k]].value.0, outcomes[idx'[k]].value.1)
      {
        if k < |idx| {
          assert idx'[k] == idx[k] && stats'[k] == stats[k];
        }
      }
      forall k, m | 0 <= k < m < |idx'| ensures idx'[k] < idx'[m] {
        assert idx'[k] == idx[k] < n;
      }
      forall i | 0 <= i < |outcomes| && outcomes[i].Ok? ensures i in idx' {
        if i < n { assert i in idx; }
      }
    } else {
      forall i | 0 <= i < |outcomes| && outcomes[i].Ok? ensures i in idx {
        assert i < n;
      }
    }
  }

  /** Among the modelled trials, a probe raises something other than
      `OSError` only when it measured a zero elapsed time, and then it is a
      `ZeroDivisionError`. */
  lemma ProbeFailsOnlyByZeroTime(t: Trial)
    requires ValidTrial(t)
    ensures ProbeOutcome(t).Err? && ProbeOutcome(t).error != OSError <==> t.Streamed? && t.elapsed == 0.0
    ensures ProbeOutcome(t).Err? && ProbeOutcome(t).error != OSError ==> ProbeOutcome(t).error == ZeroDivisionError
  {
    if t.Streamed? {
      SpeedProbe.ProbeNeverAsserts(t.chunks, t.startCut, t.tickCuts, t.elapsed);
    }
  }

  /** So `get_top_urls` raises exactly when some download measured a zero
      elapsed time, and what it raises is `ZeroDivisionError`. */
  lemma GetTopUrlsFailsOnlyByZeroTime(mirrors: seq<string>, trials: seq<Trial>)
    requires |trials| == |mirrors| && ValidTrials(trials)
    ensures Collect(mirrors, ProbeOutcomes(trials)).Err? <==>
      exists i :: 0 <= i < |trials| && trials[i].Streamed? && trials[i].elapsed == 0.0
    ensures Collect(mirrors, ProbeOutcomes(trials)).Err? ==>
      Collect(mirrors, ProbeOutcomes(trials)).error == ZeroDivisionError
  {
    var outcomes := ProbeOutcomes(trials);
    CollectFailsOnlyByFatal(mirrors, outcomes);
    forall i | 0 <= i < |trials|
      ensures (outcomes[i].Err? && outcomes[i].error != OSError) <==> (trials[i].Streamed? && trials[i].elapsed == 0.0)
      ensures outcomes[i].Err? && outcomes[i].error != OSError ==> outcomes[i].error == ZeroDivisionError
    {
      ProbeFailsOnlyByZeroTime(trials[i]);
    }
  }

  /** With a positive elapsed time on every download, every recorded rate is
      non-negative. */
  lemma RatesNonNegative(mirrors: seq<string>, trials: seq<Trial>)
    requires |trials| == |mirrors| && ValidTrials(trials)
    requires forall i :: 0 <= i < |trials| && trials[i].Streamed? ==> trials[i].elapsed > 0.0
    ensures Collect(mirrors, ProbeOutcomes(trials)).Ok?
    ensures forall k :: 0 <= k < |Collect(mirrors, ProbeOutcomes(trials)).value| ==>
      Collect(mirrors, ProbeOutcomes(trials)).value[k].avgRate >= 0.0 &&
      Collect(mirrors, ProbeOutcomes(trials)).value[k].maxRate >= 0.0
  {
    var outcomes := ProbeOutcomes(trials);
    GetTopUrlsFailsOnlyByZeroTime(mirrors, trials);
    CollectKeepsSuccesses(mirrors, outcomes);
    var stats, idx := Collect(mirrors, outcomes).value, Succeeded(outcomes);
    forall k | 0 <= k < |stats| ensures stats[k].avgRate >= 0.0 && stats[k].maxRate >= 0.0 {
      var t := trials[idx[k]];
      SpeedProbe.ProbeAverage(t.chunks, t.startCut, t.tickCuts, t.elapsed);
      SpeedProbe.ProbePeak(t.chunks, t.startCut, t.tickCuts, t.elapsed);
    }
  }
}
