/** `check_speed` without asyncio: the download pump that adds up chunk
    lengths, the once-per-second sampler that keeps the largest per-tick
    byte count, and the average rate over the elapsed time.

    A probe's run is described by what the event loop delivered:
    - `chunks`: the lengths of the chunks the pump received before the body
      ended or the timeout fired,
    - `startCut`: how many of them had arrived when the sampler task first
      ran `last = total`,
    - `tickCuts`: how many had arrived when each completed one-second tick
      woke the sampler (the task is cancelled with the pump, so every tick
      falls within `chunks`),
    - `elapsed`: the monotonic time from the start of the download until the
      pump stopped. */
module SpeedProbe {
  import opened Outcomes

  /** The divisor from bytes per second to the `Mb/s` the tool prints. */
  const MiB: real := 1048576.0

  /** Total length of a sequence of chunks. */
  function Sum(chunks: seq<nat>): nat {
    if chunks == [] then 0 else Sum(chunks[..|chunks| - 1]) + chunks[|chunks| - 1]
  }

  /** The pump, `async for chunk in ...: total += len(chunk)`. */
  method Pump(chunks: seq<nat>) returns (total: nat)
    ensures total == Sum(chunks)
  {
    total := 0;
    var i := 0;
    while i < |chunks|
      invariant i <= |chunks|
      invariant total == Sum(chunks[..i])
    {
      assert chunks[..i + 1][..i] == chunks[..i];
      total := total + chunks[i];
      i := i + 1;
    }
    assert chunks[..|chunks|] == chunks;
  }

  /** The bytes of the first j chunks are those of the first i chunks plus
      those of chunks i..j. */
  lemma {:induction false} SumSplit(chunks: seq<nat>, i: nat, j: nat)
    requires i <= j <= |chunks|
    ensures Sum(chunks[..j]) == Sum(chunks[..i]) + Sum(chunks[i..j])
    decreases j
  {
    if i < j {
      SumSplit(chunks, i, j - 1);
      assert chunks[..j][..j - 1] == chunks[..j - 1];
      assert chunks[i..j][..j - 1 - i] == chunks[i..j - 1];
    } else {
      assert chunks[i..j] == [];
    }
  }

  /** The running total only grows: the counter the sampler reads never
      decreases. */
  lemma SumMonotone(chunks: seq<nat>, i: nat, j: nat)
    requires i <= j <= |chunks|
    ensures Sum(chunks[..i]) <= Sum(chunks[..j])
  {
    SumSplit(chunks, i, j);
  }

  /** Byte count since the previous tick, `this_chunk = total - last`, at
      tick k, where `start` is the total when the sampler began. */
  function Delta(start: int, totals: seq<int>, k: nat): int
    requires k < |totals|
  {
    totals[k] - (if k == 0 then start else totals[k - 1])
  }

  /** The sampler loop as a fold over the totals seen at the completed ticks,
      from `last` and the running maximum `peak`: the `assert this_chunk >= 0`
      failure, or the final maximum. */
  function Sample(last: int, peak: nat, totals: seq<int>): Result<nat>
    decreases |totals|
  {
    if totals == [] then Ok(peak)
    else
      var delta := totals[0] - last;
      if delta < 0 then Err(AssertionError)
      else Sample(totals[0], if delta > peak then delta else peak, totals[1..])
  }

  /** The sampler of `print_stats`: `last` and `max_rate` updated at each tick,
      in bytes per tick (the division by 1024 * 1024 is applied afterwards,
      which keeps the comparison's outcome). */
  method SampleTicks(start: int, totals: seq<int>) returns (r: Result<nat>)
    ensures r == Sample(start, 0, totals)
  {
    var last, maxRate := start, 0;
    var i := 0;
    while i < |totals|
      invariant i <= |totals|
      invariant Sample(start, 0, totals) == Sample(last, maxRate, totals[i..])
    {
      assert totals[i..][1..] == totals[i + 1..];
      var thisChunk := totals[i] - last;
      if thisChunk < 0 {
        return Err(AssertionError);
      }
      if thisChunk > maxRate {
        maxRate := thisChunk;
      }
      last := totals[i];
      i := i + 1;
    }
    r := Ok(maxRate);
  }

  lemma {:induction false} SampleFromState(last: int, peak: nat, totals: seq<int>)
    ensures Sample(last, peak, totals).Err? <==> exists k :: 0 <= k < |totals| && Delta(last, totals, k) < 0
    ensures Sample(last, peak, totals).Ok? ==>
      Sample(last, peak, totals).value >= peak &&
      forall k :: 0 <= k < |totals| ==> Delta(last, totals, k) <= Sample(last, peak, totals).value
    ensures Sample(last, peak, totals).Ok? ==>
      Sample(last, peak, totals).value == peak ||
      exists k :: 0 <= k < |totals| && Sample(last, peak, totals).value == Delta(last, totals, k)
    decreases |totals|
  {
    if totals != [] {
      var delta := totals[0] - last;
      var rest := totals[1..];
      forall k | 0 <= k < |rest| ensures Delta(totals[0], rest, k) == Delta(last, totals, k + 1) { }
      if delta >= 0 {
        var peak' := if delta > peak then delta else peak;
        SampleFromState(totals[0], peak', rest);
        assert Delta(last, totals, 0) == delta;
        if Sample(last, peak, totals).Ok? {
          var v := Sample(last, peak, totals).value;
          assert v == Sample(totals[0], peak', rest).value;
          forall k | 0 <= k < |totals| ensures Delta(last, totals, k) >= 0 {
            if k > 0 { assert Delta(totals[0], rest, k - 1) >= 0; }
          }
          forall k | 0 <= k < |totals| ensures Delta(last, totals, k) <= v {
            if k > 0 { assert Delta(totals[0], rest, k - 1) <= v; }
          }
          if v != peak && v != peak' {
            var k :| 0 <= k < |rest| && v == Delta(totals[0], rest, k);
            assert v == Delta(last, totals, k + 1);
          }
        } else {
          var k :| 0 <= k < |rest| && Delta(totals[0], rest, k) < 0;
          assert Delta(last, totals, k + 1) < 0;
        }
      } else {
        assert Delta(last, totals, 0) < 0;
      }
    }
  }

  /** The sampler fails its assert exactly when some tick sees the total go
      down; otherwise its peak is at least every tick's byte count, 0 when no
      tick completed, and otherwise the largest tick's byte count. */
  lemma PeakIsLargestDelta(start: int, totals: seq<int>)
    ensures Sample(start, 0, totals).Err? <==> exists k :: 0 <= k < |totals| && Delta(start, totals, k) < 0
    ensures Sample(start, 0, totals).Ok? ==>
      forall k :: 0 <= k < |totals| ==> 0 <= Delta(start, totals, k) <= Sample(start, 0, totals).value
    ensures totals == [] ==> Sample(start, 0, totals) == Ok(0)
    ensures Sample(start, 0, totals).Ok? && totals != [] ==>
      exists k :: 0 <= k < |totals| && Sample(start, 0, totals).value == Delta(start, totals, k)
  {
    SampleFromState(start, 0, totals);
    if Sample(start, 0, totals).Ok? && totals != [] && Sample(start, 0, totals).value == 0 {
      assert 0 <= Delta(start, totals, 0) <= 0;
    }
  }

  /** The event-loop facts a probe's run obeys: the sampler starts, then
      ticks, in time order, all before the pump stops. */
  predicate Schedule(chunks: seq<nat>, startCut: nat, tickCuts: seq<nat>) {
    startCut <= |chunks| &&
    (forall k :: 0 <= k < |tickCuts| ==> tickCuts[k] <= |chunks|) &&
    (|tickCuts| > 0 ==> startCut <= tickCuts[0]) &&
    (forall k :: 0 < k < |tickCuts| ==> tickCuts[k - 1] <= tickCuts[k])
  }

  /** How many chunks had arrived at the start of tick window k. */
  function WindowStart(startCut: nat, tickCuts: seq<nat>, k: nat): nat
    requires k < |tickCuts|
  {
    if k == 0 then startCut else tickCuts[k - 1]
  }

  /** The totals the sampler reads at its completed ticks. */
  function TickTotals(chunks: seq<nat>, tickCuts: seq<nat>): (totals: seq<int>)
    requires forall k :: 0 <= k < |tickCuts| ==> tickCuts[k] <= |chunks|
    ensures |totals| == |tickCuts|
  {
    seq(|tickCuts|, k requires 0 <= k < |tickCuts| => Sum(chunks[..tickCuts[k]]))
  }

  /** `check_speed`'s result for one run: the sampler's assertion error,
      re-raised by `stats_task.result()`; a division by a zero elapsed time;
      or the average and peak rates in MiB per second. */
  function ProbeSpec(chunks: seq<nat>, startCut: nat, tickCuts: seq<nat>, elapsed: real): Result<(real, real)>
    requires Schedule(chunks, startCut, tickCuts)
  {
    var sampled := Sample(Sum(chunks[..startCut]), 0, TickTotals(chunks, tickCuts));
    if sampled.Err? then Err(sampled.error)
    else if elapsed == 0.0 then Err(ZeroDivisionError)
    else Ok((Sum(chunks) as real / elapsed / MiB, sampled.value as real / MiB))
  }

  /** `check_speed` once the response is streaming: pump and sampler, then
      `avg_rate = total / elapsed / 1024 / 1024`. */
  method CheckSpeed(chunks: seq<nat>, startCut: nat, tickCuts: seq<nat>, elapsed: real) returns (r: Result<(real, real)>)
    requires Schedule(chunks, startCut, tickCuts)
    ensures r == ProbeSpec(chunks, startCut, tickCuts, elapsed)
  {
    var start := Pump(chunks[..startCut]);
    var sampled := SampleTicks(start, TickTotals(chunks, tickCuts));
    var total := Pump(chunks);
    if sampled.Err? {
      return Err(sampled.error);
    }
    if elapsed == 0.0 {
      return Err(ZeroDivisionError);
    }
    var avgRate := total as real / elapsed / MiB;
    r := Ok((avgRate, sampled.value as real / MiB));
  }

  /** The bytes of the chunks that arrived in tick window k. */
  function WindowBytes(chunks: seq<nat>, startCut: nat, tickCuts: seq<nat>, k: nat): nat
    requires Schedule(chunks, startCut, tickCuts) && k < |tickCuts|
  {
    var from := WindowStart(startCut, tickCuts, k);
    assert from <= tickCuts[k];
    Sum(chunks[from..tickCuts[k]])
  }

  /** The byte count the sampler computes at tick k is exactly the bytes of
      the chunks that arrived in that window, so it is never negative. */
  lemma WindowDelta(chunks: seq<nat>, startCut: nat, tickCuts: seq<nat>, k: nat)
    requires Schedule(chunks, startCut, tickCuts) && k < |tickCuts|
    ensures Delta(Sum(chunks[..startCut]), TickTotals(chunks, tickCuts), k) == WindowBytes(chunks, startCut, tickCuts, k)
  {
    SumSplit(chunks, WindowStart(startCut, tickCuts, k), tickCuts[k]);
  }

  lemma WindowDeltas(chunks: seq<nat>, startCut: nat, tickCuts: seq<nat>)
    requires Schedule(chunks, startCut, tickCuts)
    ensures forall k :: 0 <= k < |tickCuts| ==>
      Delta(Sum(chunks[..startCut]), TickTotals(chunks, tickCuts), k) == WindowBytes(chunks, startCut, tickCuts, k)
  {
    forall k | 0 <= k < |tickCuts|
      ensures Delta(Sum(chunks[..startCut]), TickTotals(chunks, tickCuts), k) == WindowBytes(chunks, startCut, tickCuts, k)
    {
      WindowDelta(chunks, startCut, tickCuts, k);
    }
  }

  /** In every run the pump can produce, `assert this_chunk >= 0` holds, so
      the probe fails only by dividing by a zero elapsed time. */
  lemma ProbeNeverAsserts(chunks: seq<nat>, startCut: nat, tickCuts: seq<nat>, elapsed: real)
    requires Schedule(chunks, startCut, tickCuts)
    ensures Sample(Sum(chunks[..startCut]), 0, TickTotals(chunks, tickCuts)).Ok?
    ensures ProbeSpec(chunks, startCut, tickCuts, elapsed).Err? <==> elapsed == 0.0
    ensures ProbeSpec(chunks, startCut, tickCuts, elapsed).Err? ==>
      ProbeSpec(chunks, startCut, tickCuts, elapsed).error == ZeroDivisionError
  {
    WindowDeltas(chunks, startCut, tickCuts);
    PeakIsLargestDelta(Sum(chunks[..startCut]), TickTotals(chunks, tickCuts));
  }

  lemma DivMul(x: real, e: real)
    requires e != 0.0
    ensures x / e * e == x
  {
  }

  lemma Rescale(x: real, e: real)
    requires e != 0.0
    ensures x / e / MiB * e * MiB == x
    ensures x / MiB * MiB == x
  {
    var y := x / e;
    DivMul(x, e);
    assert y / MiB * MiB == y;
    assert y / MiB * e * MiB == y / MiB * MiB * e;
  }

  lemma DivMonotone(a: real, b: real, e: real)
    requires a <= b && e > 0.0
    ensures a / e <= b / e
  {
    DivMul(a, e);
    DivMul(b, e);
  }

  /** The average, scaled back to bytes per second, is the total byte count
      over the elapsed time, whether or not any tick completed; it is not
      negative. */
  lemma ProbeAverage(chunks: seq<nat>, startCut: nat, tickCuts: seq<nat>, elapsed: real)
    requires Schedule(chunks, startCut, tickCuts) && elapsed > 0.0
    ensures ProbeSpec(chunks, startCut, tickCuts, elapsed).Ok?
    ensures ProbeSpec(chunks, startCut, tickCuts, elapsed).value.0 * MiB == Sum(chunks) as real / elapsed
    ensures ProbeSpec(chunks, startCut, tickCuts, elapsed).value.0 >= 0.0
  {
    ProbeNeverAsserts(chunks, startCut, tickCuts, elapsed);
    var avg := ProbeSpec(chunks, startCut, tickCuts, elapsed).value.0;
    assert avg == Sum(chunks) as real / elapsed / MiB;
    RateOf(Sum(chunks) as real, elapsed, avg);
  }

  lemma RateOf(total: real, elapsed: real, avg: real)
    requires total >= 0.0 && elapsed > 0.0 && avg == total / elapsed / MiB
    ensures avg * MiB == total / elapsed && avg >= 0.0
  {
    DivMonotone(0.0, total, elapsed);
    DivMonotone(0.0, total / elapsed, MiB);
  }

  /** The peak (in MiB per second) is not negative, covers the bytes of
      every completed window, is 0 when no tick completed, and is some
      completed window's bytes otherwise. */
  lemma ProbePeak(chunks: seq<nat>, startCut: nat, tickCuts: seq<nat>, elapsed: real)
    requires Schedule(chunks, startCut, tickCuts) && elapsed != 0.0
    ensures ProbeSpec(chunks, startCut, tickCuts, elapsed).Ok?
    ensures ProbeSpec(chunks, startCut, tickCuts, elapsed).value.1 >= 0.0
    ensures forall k :: 0 <= k < |tickCuts| ==>
      WindowBytes(chunks, startCut, tickCuts, k) as real <= ProbeSpec(chunks, startCut, tickCuts, elapsed).value.1 * MiB
    ensures tickCuts == [] ==> ProbeSpec(chunks, startCut, tickCuts, elapsed).value.1 == 0.0
    ensures tickCuts != [] ==> exists k :: (0 <= k < |tickCuts| &&
      WindowBytes(chunks, startCut, tickCuts, k) as real == ProbeSpec(chunks, startCut, tickCuts, elapsed).value.1 * MiB)
  {
    var start, totals := Sum(chunks[..startCut]), TickTotals(chunks, tickCuts);
    ProbeNeverAsserts(chunks, startCut, tickCuts, elapsed);
    WindowDeltas(chunks, startCut, tickCuts);
    PeakIsLargestDelta(start, totals);
    var p := Sample(start, 0, totals).value;
    Rescale(p as real, elapsed);
    assert ProbeSpec(chunks, startCut, tickCuts, elapsed).value.1 * MiB == p as real;
    if tickCuts != [] {
      var k :| 0 <= k < |totals| && p == Delta(start, totals, k);
      assert WindowBytes(chunks, startCut, tickCuts, k) == p;
    }
  }

  /** Chunks that arrive after the last completed tick never change the peak
      (the sampler is cancelled when the pump stops); for the same elapsed
      time, the average does not go down. */
  lemma TrailingBytesIgnored(chunks: seq<nat>, extra: seq<nat>, startCut: nat, tickCuts: seq<nat>, elapsed: real)
    requires Schedule(chunks, startCut, tickCuts) && elapsed > 0.0
    ensures Schedule(chunks + extra, startCut, tickCuts)
    ensures ProbeSpec(chunks, startCut, tickCuts, elapsed).Ok?
    ensures ProbeSpec(chunks + extra, startCut, tickCuts, elapsed).Ok?
    ensures ProbeSpec(chunks + extra, startCut, tickCuts, elapsed).value.1
         == ProbeSpec(chunks, startCut, tickCuts, elapsed).value.1
    ensures ProbeSpec(chunks + extra, startCut, tickCuts, elapsed).value.0
         >= ProbeSpec(chunks, startCut, tickCuts, elapsed).value.0
  {
    var all := chunks + extra;
    assert all[..startCut] == chunks[..startCut];
    forall k | 0 <= k < |tickCuts| ensures all[..tickCuts[k]] == chunks[..tickCuts[k]] { }
    assert TickTotals(all, tickCuts) == TickTotals(chunks, tickCuts);
    ProbeNeverAsserts(chunks, startCut, tickCuts, elapsed);
    ProbeNeverAsserts(all, startCut, tickCuts, elapsed);
    assert all[..|chunks|] == chunks;
    assert all[..|all|] == all;
    SumMonotone(all, |chunks|, |all|);
    var a, b := Sum(chunks) as real, Sum(all) as real;
    DivMonotone(a, b, elapsed);
    DivMonotone(a / elapsed, b / elapsed, MiB);
  }
}
