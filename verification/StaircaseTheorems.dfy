/** The staircase pipeline end to end: the load that the compiled stages produce in the time slices
    that the schedule announces and the analysis reads. */
module StaircaseTheorems {
  import opened Collections
  import opened Durations
  import opened Schedule
  import opened Mulberry32
  import opened Poisson
  import opened Stages

  ghost predicate IsMultiple(seconds: real, q: nat, tick: real) {
    q >= 1 && seconds == q as real * tick
  }

  /** The ticks of a segment fill its duration exactly when the tick divides the duration. */
  lemma TicksFillIff(seconds: real, tick: real)
    requires tick > 0.0 && seconds > 0.0
    ensures Ticks(seconds, tick) as real * tick == seconds <==> exists q :: IsMultiple(seconds, q, tick)
  {
    if Ticks(seconds, tick) as real * tick == seconds {
      assert IsMultiple(seconds, Ticks(seconds, tick), tick);
    }
    if q :| IsMultiple(seconds, q, tick) {
      MultipleTicks(seconds, q, tick);
    }
  }

  lemma MultipleTicks(seconds: real, q: nat, tick: real)
    requires tick > 0.0 && IsMultiple(seconds, q, tick)
    ensures Ticks(seconds, tick) == q
  {
    var p := Per(seconds, tick);
    assert p * tick == q as real * tick;
    assert (p - q as real) * tick == 0.0;
    assert p == q as real;
    assert JsRound(q as real) == q;
  }

  /** Otherwise each segment is off by at most half a tick, unless it is shorter than that. */
  lemma TicksDrift(seconds: real, tick: real)
    requires tick > 0.0 && 2.0 * seconds >= tick
    ensures -tick <= 2.0 * (Ticks(seconds, tick) as real * tick - seconds) <= tick
  {
    var p := Per(seconds, tick);
    assert p * tick == seconds;
    Below(0.5, p, tick);
    var n := Ticks(seconds, tick);
    assert n == (p + 0.5).Floor;
    var d := n as real - p;
    assert -0.5 <= d <= 0.5;
    hide *;
    assert d * tick == n as real * tick - seconds;
    Scale(d, tick);
  }

  lemma Scale(d: real, tick: real)
    requires -0.5 <= d <= 0.5 && tick > 0.0
    ensures -tick <= 2.0 * (d * tick) <= tick
  {
    assert (d + 0.5) * tick >= 0.0;
    assert (0.5 - d) * tick >= 0.0;
  }

  // ----- one duration for all segments

  function LambdasOf(rates: seq<Rate>): (ls: seq<real>)
    ensures |ls| == |rates|
  {
    seq(|rates|, i requires 0 <= i < |rates| => Nat(rates[i]) as real)
  }

  /** The segments that the k6 script makes of a step list. */
  function SegmentsOf(steps: seq<seq<Rate>>, seconds: real): (segments: seq<Segment>)
    ensures |segments| == |steps|
  {
    seq(|steps|, s requires 0 <= s < |steps| => Segment(LambdasOf(steps[s]), seconds))
  }

  ghost predicate SameNodes(steps: seq<seq<Rate>>, nodes: nat) {
    forall s | 0 <= s < |steps| :: |steps[s]| == nodes
  }

  lemma {:induction false} EqualTicks(segments: seq<Segment>, seconds: real, tick: real, s: nat)
    requires tick > 0.0 && s <= |segments| && forall i | 0 <= i < |segments| :: segments[i].seconds == seconds
    ensures TotalTicks(segments[..s], tick) == s * Ticks(seconds, tick)
    decreases s
  {
    if s > 0 {
      EqualTicks(segments, seconds, tick, s - 1);
      TicksNext(segments, s - 1, tick);
      assert segments[s - 1].seconds == seconds;
      hide *;
      NextMultiple(s, Ticks(seconds, tick));
    }
  }

  lemma NextMultiple(s: int, m: int)
    ensures s * m == (s - 1) * m + m
  {
  }

  /** The tick that is running at time `t`. */
  function TickAt(t: real, tick: real): int
    requires tick > 0.0
  {
    Per(t, tick).Floor
  }

  lemma TickAtSpan(t: real, tick: real, lo: nat, hi: nat)
    requires tick > 0.0 && lo as real * tick <= t < hi as real * tick
    ensures lo <= TickAt(t, tick) < hi
    ensures TickAt(t, tick) as real * tick <= t < (TickAt(t, tick) + 1) as real * tick
  {
    var p := Per(t, tick);
    assert p * tick == t;
    Below(lo as real, p, tick);
    BelowStrictly(p, hi as real, tick);
    var j := TickAt(t, tick);
    assert j == p.Floor;
    FloorSpan(p, t, j, tick);
  }

  lemma FloorSpan(p: real, t: real, j: int, tick: real)
    requires tick > 0.0 && p * tick == t && j as real <= p < (j + 1) as real
    ensures j as real * tick <= t < (j + 1) as real * tick
  {
    Above(j as real, p, tick);
    var k := (j + 1) as real;
    assert (k - p) * tick > 0.0;
    assert (k - p) * tick == k * tick - t;
  }

  lemma Above(a: real, b: real, tick: real)
    requires tick > 0.0 && a <= b
    ensures a * tick <= b * tick
  {
    assert (b - a) * tick >= 0.0;
  }

  lemma Below(a: real, b: real, tick: real)
    requires tick > 0.0 && a * tick <= b * tick
    ensures a <= b
  {
    assert (b - a) * tick >= 0.0;
  }

  lemma BelowStrictly(a: real, b: real, tick: real)
    requires tick > 0.0 && a * tick < b * tick
    ensures a < b
  {
    assert (b - a) * tick > 0.0;
  }

  /** At time `t` tick `j` is running, at the rate of a sample of the given mean, drawn where the ticks
      before it left the node's generator. */
  ghost predicate RunsTick(scenario: Scenario, segments: seq<Segment>, node: nat, setup: Setup, j: nat,
                           mean: real, t: real)
    requires Usable(setup) && Names(segments, node) && j < TotalTicks(segments, setup.tick)
  {
    var seed, earlier := NodeSeed(setup, node), Means(segments, node, setup.tick)[..j];
    var draw := Sample(setup.sampler, StateAfter(seed, Calls(setup.sampler, seed, earlier)), mean);
    && j as real * setup.tick <= t < (j + 1) as real * setup.tick
    && RateAt(scenario.startRate, scenario.stages, t) == SampledRate(draw.count, setup.tick) as real
  }

  /** The mean that the step list gives to a node for each tick of a step. */
  function StepMean(steps: seq<seq<Rate>>, s: nat, node: nat, tick: real): real
    requires s < |steps| && node < |steps[s]|
  {
    Nat(steps[s][node]) as real * tick
  }

  /** Whenever the tick divides the step duration, the ticks of segment `s` fill exactly the time slice
      that the schedule gives to step `s`, and throughout the slice a node is driven at the rates drawn for
      the rate that the step list names for it: at 0 if that is 0. */
  lemma ScheduledRate(steps: seq<seq<Rate>>, rows: seq<Row>, stepSeconds: nat, warmup: nat, scenario: Scenario,
                      nodes: nat, node: nat, setup: Setup, q: nat, s: nat, t: real) returns (j: nat)
    requires ScheduleOf(rows, steps, stepSeconds, warmup) && SameNodes(steps, nodes) && node < nodes
    requires Usable(setup) && IsMultiple(stepSeconds as real, q, setup.tick) && s < |steps|
    requires Names(SegmentsOf(steps, stepSeconds as real), node)
    requires Compiled(scenario, SegmentsOf(steps, stepSeconds as real), node, setup)
    requires rows[s].startOffset as real <= t < rows[s].endOffset as real
    ensures var segments, tick := SegmentsOf(steps, stepSeconds as real), setup.tick;
      && TotalTicks(segments[..s], tick) as real * tick == rows[s].startOffset as real
      && TotalTicks(segments[..s + 1], tick) as real * tick == rows[s].endOffset as real
      && TotalTicks(segments[..s], tick) <= j < TotalTicks(segments[..s + 1], tick) <= TotalTicks(segments, tick)
      && RunsTick(scenario, segments, node, setup, j, StepMean(steps, s, node, tick), t)
    ensures Nat(steps[s][node]) == 0 ==> RateAt(scenario.startRate, scenario.stages, t) == 0.0
  {
    hide ScheduleOf, Nat, TotalTicks, SegmentsOf, Compiled, RateAt, Means, Calls, Sample, Proper, StateAfter, RunsTick,
      Usable, Names, IsMultiple, TickMean, StepMean;
    var segments, tick := SegmentsOf(steps, stepSeconds as real), setup.tick;
    UsableTick(setup);
    SameLength(steps, rows, stepSeconds, warmup);
    StepSegment(steps, nodes, stepSeconds as real, s, node, tick);
    StepSlice(rows, steps, stepSeconds, warmup, s);
    j := TickInSlice(segments, stepSeconds, q, tick, s, t);
    MeanOfTick(segments, node, tick, s, j);
    TickRate(scenario, segments, node, setup, s, j, t);
    IdleTick(scenario, segments, node, setup, j, StepMean(steps, s, node, tick), t);
  }

  lemma UsableTick(setup: Setup)
    requires Usable(setup)
    ensures setup.tick > 0.0
  {
  }

  lemma SameLength(steps: seq<seq<Rate>>, rows: seq<Row>, stepSeconds: nat, warmup: nat)
    requires ScheduleOf(rows, steps, stepSeconds, warmup)
    ensures |rows| == |steps|
  {
  }

  lemma TickInSlice(segments: seq<Segment>, stepSeconds: nat, q: nat, tick: real, s: nat, t: real) returns (j: nat)
    requires tick > 0.0 && IsMultiple(stepSeconds as real, q, tick) && s < |segments|
    requires forall i | 0 <= i < |segments| :: segments[i].seconds == stepSeconds as real
    requires (s * stepSeconds) as real <= t < ((s + 1) * stepSeconds) as real
    ensures TotalTicks(segments[..s], tick) as real * tick == (s * stepSeconds) as real
    ensures TotalTicks(segments[..s + 1], tick) as real * tick == ((s + 1) * stepSeconds) as real
    ensures TotalTicks(segments[..s], tick) <= j < TotalTicks(segments[..s + 1], tick) <= TotalTicks(segments, tick)
    ensures j as real * tick <= t < (j + 1) as real * tick
  {
    hide *;
    SegmentTicks(segments, stepSeconds as real, q, tick, s);
    SliceTicks(s, stepSeconds, q, tick);
    SliceTicks(s + 1, stepSeconds, q, tick);
    j := SliceTick(s, stepSeconds, q, tick, t);
  }

  lemma StepSegment(steps: seq<seq<Rate>>, nodes: nat, seconds: real, s: nat, node: nat, tick: real)
    requires SameNodes(steps, nodes) && node < nodes && s < |steps|
    ensures var segments := SegmentsOf(steps, seconds);
      && node < |segments[s].lambdas| && TickMean(segments[s], node, tick) == StepMean(steps, s, node, tick)
      && forall i | 0 <= i < |segments| :: segments[i].seconds == seconds
    ensures Nat(steps[s][node]) == 0 ==> StepMean(steps, s, node, tick) == 0.0
  {
  }

  lemma StepSlice(rows: seq<Row>, steps: seq<seq<Rate>>, stepSeconds: nat, warmup: nat, s: nat)
    requires ScheduleOf(rows, steps, stepSeconds, warmup) && s < |steps|
    ensures |rows| == |steps|
    ensures rows[s].startOffset == s * stepSeconds && rows[s].endOffset == (s + 1) * stepSeconds
  {
  }

  lemma IdleTick(scenario: Scenario, segments: seq<Segment>, node: nat, setup: Setup, j: nat, mean: real, t: real)
    requires Usable(setup) && Names(segments, node) && j < TotalTicks(segments, setup.tick)
    requires RunsTick(scenario, segments, node, setup, j, mean, t)
    ensures mean == 0.0 ==> RateAt(scenario.startRate, scenario.stages, t) == 0.0
  {
    hide Sample, Proper, StateAfter, Calls, Means, TotalTicks, RateAt, SampledRate;
    var seed, earlier := NodeSeed(setup, node), Means(segments, node, setup.tick)[..j];
    ZeroMean(setup, StateAfter(seed, Calls(setup.sampler, seed, earlier)));
  }

  /** The rate while tick `j` of segment `s` is running. */
  lemma TickRate(scenario: Scenario, segments: seq<Segment>, node: nat, setup: Setup, s: nat, j: nat, t: real)
    requires Usable(setup) && Names(segments, node) && Compiled(scenario, segments, node, setup)
    requires s < |segments| && j < TotalTicks(segments, setup.tick)
    requires Means(segments, node, setup.tick)[j] == TickMean(segments[s], node, setup.tick)
    requires j as real * setup.tick <= t < (j + 1) as real * setup.tick
    ensures RunsTick(scenario, segments, node, setup, j, TickMean(segments[s], node, setup.tick), t)
  {
    hide Compiled, Sample, Proper, StateAfter, Calls, Means, TotalTicks, RateAt, StagesFor, SampledRate, TickMean;
    CompiledStages(scenario, segments, node, setup);
    StagesMeanRates(Rates(segments, node, setup), setup.tick, t, j);
    var seed, means := NodeSeed(setup, node), Means(segments, node, setup.tick);
    assert Rates(segments, node, setup)[j] == SampledRate(DrawAt(setup.sampler, seed, means, j).count, setup.tick);
  }

  lemma ZeroMean(setup: Setup, state: nat)
    requires Usable(setup)
    ensures SampledRate(Sample(setup.sampler, state, 0.0).count, setup.tick) == 0
  {
    hide Knuth;
    assert Per(0.0, setup.tick) == 0.0;
  }

  lemma SegmentTicks(segments: seq<Segment>, seconds: real, q: nat, tick: real, s: nat)
    requires tick > 0.0 && IsMultiple(seconds, q, tick) && s < |segments|
    requires forall i | 0 <= i < |segments| :: segments[i].seconds == seconds
    ensures TotalTicks(segments[..s], tick) == s * q && TotalTicks(segments[..s + 1], tick) == (s + 1) * q
    ensures (s + 1) * q <= TotalTicks(segments, tick)
  {
    MultipleTicks(seconds, q, tick);
    EqualTicks(segments, seconds, tick, s);
    EqualTicks(segments, seconds, tick, s + 1);
    TicksMonotone(segments, s + 1, |segments|, tick);
    assert segments[..|segments|] == segments;
  }

  lemma SliceTick(s: nat, stepSeconds: nat, q: nat, tick: real, t: real) returns (j: nat)
    requires tick > 0.0 && IsMultiple(stepSeconds as real, q, tick)
    requires (s * stepSeconds) as real <= t < ((s + 1) * stepSeconds) as real
    ensures s * q <= j < (s + 1) * q
    ensures j as real * tick <= t < (j + 1) as real * tick
  {
    SliceTicks(s, stepSeconds, q, tick);
    SliceTicks(s + 1, stepSeconds, q, tick);
    hide *;
    TickAtSpan(t, tick, s * q, (s + 1) * q);
    j := TickAt(t, tick);
  }

  lemma SliceTicks(s: nat, stepSeconds: nat, q: nat, tick: real)
    requires IsMultiple(stepSeconds as real, q, tick)
    ensures (s * stepSeconds) as real == (s * q) as real * tick
  {
    assert (s * stepSeconds) as real == s as real * stepSeconds as real;
    assert (s * q) as real == s as real * q as real;
  }

  /** A validated step duration is a whole number of the default one-second ticks, and the k6 script
      reads the very number that the schedule is built with: the shipped pipeline is always aligned. */
  lemma DefaultTickAligned(stepDuration: string, stepSeconds: nat)
    requires ShellSeconds(stepDuration) == Some(stepSeconds)
    ensures JsSeconds(stepDuration) == Some(stepSeconds as real)
    ensures JsSeconds("1s") == Some(1.0)
    ensures IsMultiple(stepSeconds as real, stepSeconds, 1.0)
    ensures Ticks(stepSeconds as real, 1.0) == stepSeconds
  {
    ParsersAgree(stepDuration, stepSeconds);
    OneSecond();
    assert stepSeconds > 0;
    MultipleTicks(stepSeconds as real, stepSeconds, 1.0);
  }

  lemma OneSecond()
    ensures JsSeconds("1s") == Some(1.0)
  {
    var text := "1s";
    assert IsDigit(text[0]) && !IsDigit(text[1]);
    assert RunEnd(text, 1) == 1 && RunEnd(text, 0) == 1;
    assert text[0..1] == "1";
    assert Nat("1") == 1 by {
      assert "1"[..0] == "";
    }
    assert ShellParts(text, 2) == Some(0);
    assert ShellParts(text, 0) == Some(1);
    ParsersAgree(text, 1);
  }

  /** The analysis places its origin at the first request, `delay` seconds into the run.  A sample it
      counts for a step was produced by that step unless it lies in the last `delay` seconds of the
      window: the discarded warmup protects the start of a window and not its end. */
  lemma LabelledStep(rows: seq<Row>, steps: seq<seq<Rate>>, stepSeconds: nat, warmup: nat,
                     i: nat, offset: int, delay: nat)
    requires ScheduleOf(rows, steps, stepSeconds, warmup) && stepSeconds > 0 && i < |rows|
    requires InWindow(StepOf(rows[i]), offset)
    ensures i == (offset + delay) / stepSeconds <==> offset + delay < rows[i].endOffset
  {
    SampleStep(rows, steps, stepSeconds, warmup, i, offset);
    DivMod(offset, stepSeconds, i);
    DivMod(offset + delay, stepSeconds, i);
    assert rows[i].endOffset == (i + 1) * stepSeconds;
    hide ScheduleOf;
  }

  /** Every sample of the run that the analysis counts for step `i` was produced while step `i` was running. */
  ghost predicate LabelsCorrect(rows: seq<Row>, stepSeconds: nat, delay: nat)
    requires stepSeconds > 0
  {
    forall i, offset | 0 <= i < |rows| && InWindow(StepOf(rows[i]), offset) && offset + delay < |rows| * stepSeconds ::
      (offset + delay) / stepSeconds == i
  }

  /** The labels of a readable schedule are all correct exactly when the first request came with the start
      of the run, or there is no step that a sample could be taken for by mistake: only one in all, or
      none left once the delay and the first warmup are over.  Otherwise the delay moves the end of the
      first window into the second step. */
  lemma LabelsCorrectIff(rows: seq<Row>, steps: seq<seq<Rate>>, stepSeconds: nat, warmup: nat, delay: nat)
    requires ScheduleOf(rows, steps, stepSeconds, warmup) && rows != [] && warmup < stepSeconds
    ensures LabelsCorrect(rows, stepSeconds, delay) <==>
      delay == 0 || |rows| == 1 || delay + warmup >= |rows| * stepSeconds
  {
    hide ScheduleOf, StepOf, InWindow;
    Offsets(rows, steps, stepSeconds, warmup);
    RunLength(|rows|, stepSeconds);
    forall i, offset | 0 <= i < |rows| && InWindow(StepOf(rows[i]), offset)
      ensures warmup <= offset < rows[i].endOffset
      ensures (offset + delay) / stepSeconds == i <==> offset + delay < rows[i].endOffset
    {
      LabelledStep(rows, steps, stepSeconds, warmup, i, offset, delay);
      NotBeforeWarmup(rows, steps, stepSeconds, warmup, i, offset);
    }
    if 0 < delay && |rows| >= 2 && delay + warmup < |rows| * stepSeconds {
      var late := if stepSeconds - delay >= warmup then stepSeconds - delay else warmup;
      FirstWindow(rows, steps, stepSeconds, warmup, late);
      assert late + delay >= rows[0].endOffset && late + delay < |rows| * stepSeconds;
    }
  }

  lemma Offsets(rows: seq<Row>, steps: seq<seq<Rate>>, stepSeconds: nat, warmup: nat)
    requires ScheduleOf(rows, steps, stepSeconds, warmup) && rows != []
    ensures rows[0].endOffset == stepSeconds
    ensures |rows| == 1 ==> forall i | 0 <= i < |rows| :: rows[i].endOffset == |rows| * stepSeconds
  {
  }

  lemma RunLength(n: nat, stepSeconds: nat)
    ensures n >= 2 ==> n * stepSeconds >= 2 * stepSeconds
  {
    if n >= 2 {
      assert (n - 2) * stepSeconds >= 0;
    }
  }

  lemma NotBeforeWarmup(rows: seq<Row>, steps: seq<seq<Rate>>, stepSeconds: nat, warmup: nat, i: nat, offset: int)
    requires ScheduleOf(rows, steps, stepSeconds, warmup) && i < |rows| && InWindow(StepOf(rows[i]), offset)
    ensures warmup <= offset < rows[i].endOffset
  {
    assert i * stepSeconds >= 0;
  }

  lemma FirstWindow(rows: seq<Row>, steps: seq<seq<Rate>>, stepSeconds: nat, warmup: nat, offset: int)
    requires ScheduleOf(rows, steps, stepSeconds, warmup) && rows != [] && warmup <= offset < stepSeconds
    ensures InWindow(StepOf(rows[0]), offset)
  {
  }
}
