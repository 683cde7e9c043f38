/** The step schedule of a staircase run: what the shell writes, what the analysis reads back, and
    which step a sample is counted for. */
module Schedule {
  import opened Collections
  import opened Durations

  /** A rate as the step list spells it: digits, at least one. */
  type Rate = s: string | s != "" && Digits(s) witness "0"

  datatype Leg = Up | Peak | Down

  datatype Row = Row(step: nat, leg: Leg, rpsPerNode: string, totalRps: nat, startOffset: nat, endOffset: nat,
                     warmup: nat)

  function Total(rates: seq<Rate>): nat {
    if rates == [] then 0 else Total(rates[..|rates| - 1]) + Nat(rates[|rates| - 1])
  }

  /** The rates of a step joined by colons. */
  function Ratio(rates: seq<Rate>): string {
    if rates == [] then ""
    else if |rates| == 1 then rates[0]
    else Ratio(rates[..|rates| - 1]) + ":" + rates[|rates| - 1]
  }

  lemma {:induction false} RatioInjective(a: seq<Rate>, b: seq<Rate>)
    requires a != [] && b != [] && Ratio(a) == Ratio(b)
    ensures a == b
    decreases |a|
  {
    ColonIff(a);
    ColonIff(b);
    if |a| > 1 {
      var l, m := a[|a| - 1], b[|b| - 1];
      NoColon(l);
      NoColon(m);
      LastField(Ratio(a[..|a| - 1]), l, Ratio(b[..|b| - 1]), m);
      RatioInjective(a[..|a| - 1], b[..|b| - 1]);
      assert a == a[..|a| - 1] + [l] && b == b[..|b| - 1] + [m];
    }
  }

  lemma ColonIff(a: seq<Rate>)
    requires a != []
    ensures ':' in Ratio(a) <==> |a| > 1
  {
    if |a| == 1 {
      NoColon(a[0]);
    }
  }

  lemma NoColon(r: Rate)
    ensures ':' !in r
  {
  }

  lemma LastField(x: string, l: string, y: string, m: string)
    requires ':' !in l && ':' !in m
    requires x + ":" + l == y + ":" + m
    ensures x == y && l == m
  {
    ColonAt(x, l, |y|);
    ColonAt(y, m, |x|);
    var s, t := x + ":" + l, y + ":" + m;
    assert s[..|x|] == x && t[..|y|] == y;
    assert s[|x| + 1..] == l && t[|y| + 1..] == m;
  }

  lemma ColonAt(x: string, l: string, i: nat)
    requires ':' !in l && i < |x + ":" + l|
    ensures (x + ":" + l)[i] == ':' ==> i <= |x|
  {
    if i > |x| {
      assert (x + ":" + l)[i] == l[i - |x| - 1];
    }
  }

  /** `Total` is the sum of the rates, and `Ratio` puts a colon between two spellings. */
  lemma {:induction false} StepLaws(a: seq<Rate>, b: seq<Rate>)
    ensures Total(a + b) == Total(a) + Total(b)
    ensures a != [] && b != [] ==> Ratio(a + b) == Ratio(a) + ":" + Ratio(b)
    decreases |b|
  {
    if b == [] {
      assert a + b == a;
    } else {
      var n := |b| - 1;
      assert (a + b)[..|a + b| - 1] == a + b[..n];
      StepLaws(a, b[..n]);
      if n == 0 {
        assert a + b[..0] == a;
      }
      assert a != [] && n > 0 ==>
        (Ratio(a) + ":" + Ratio(b[..n])) + ":" + b[n] == Ratio(a) + ":" + (Ratio(b[..n]) + ":" + b[n]);
    }
  }

  lemma StepOne(rate: Rate)
    ensures Total([rate]) == Nat(rate) && Ratio([rate]) == rate
  {
    assert [rate][..0] == [];
  }

  /** The peak is the first step of the highest load; 0 if no step has any load. */
  ghost predicate IsPeak(steps: seq<seq<Rate>>, peak: nat) {
    if peak == 0 then forall i | 0 <= i < |steps| :: Total(steps[i]) == 0
    else
      && peak <= |steps| && Total(steps[peak - 1]) > 0
      && (forall i | 0 <= i < |steps| :: Total(steps[i]) <= Total(steps[peak - 1]))
      && (forall i | 0 <= i < peak - 1 :: Total(steps[i]) < Total(steps[peak - 1]))
  }

  lemma PeakUnique(steps: seq<seq<Rate>>, p: nat, q: nat)
    requires IsPeak(steps, p) && IsPeak(steps, q)
    ensures p == q
  {
  }

  function LegOf(step: nat, peak: nat): Leg {
    if step < peak then Up else if step == peak then Peak else Down
  }

  /** Row `i` describes the `i`th step: its place, its load, its leg and its slice of the run. */
  ghost predicate ScheduleOf(rows: seq<Row>, steps: seq<seq<Rate>>, stepSeconds: nat, warmup: nat) {
    exists peak: nat :: IsPeak(steps, peak) && RowsFor(rows, steps, stepSeconds, warmup, peak)
  }

  ghost predicate RowsFor(rows: seq<Row>, steps: seq<seq<Rate>>, stepSeconds: nat, warmup: nat, peak: nat) {
    && |rows| == |steps|
    && forall i | 0 <= i < |rows| ::
      rows[i] == Row(i + 1, LegOf(i + 1, peak), Ratio(steps[i]), Total(steps[i]),
                     i * stepSeconds, (i + 1) * stepSeconds, warmup)
  }

  /** One input record: the sum of its rates and their colon-separated spelling. */
  method ReadStep(rates: seq<Rate>) returns (total: nat, ratio: string)
    ensures total == Total(rates) && ratio == Ratio(rates)
  {
    total, ratio := 0, "";
    for i := 0 to |rates|
      invariant total == Total(rates[..i]) && ratio == Ratio(rates[..i])
    {
      assert rates[..i + 1][..i] == rates[..i];
      total := total + Nat(rates[i]);
      ratio := ratio + (if i > 0 then ":" else "") + rates[i];
    }
    assert rates[..|rates|] == rates;
  }

  method FindPeak(steps: seq<seq<Rate>>, totals: seq<nat>) returns (peakStep: nat)
    requires |totals| == |steps| && forall i | 0 <= i < |steps| :: totals[i] == Total(steps[i])
    ensures IsPeak(steps, peakStep)
  {
    hide Total;
    var peak := 0;
    peakStep := 0;
    for i := 0 to |totals|
      invariant peakStep <= i
      invariant peak == if peakStep == 0 then 0 else totals[peakStep - 1]
      invariant peakStep > 0 ==> peak > 0
      invariant forall j | 0 <= j < i :: totals[j] <= peak
      invariant forall j | 0 <= j < peakStep - 1 :: totals[j] < peak
    {
      if totals[i] > peak {
        peak, peakStep := totals[i], i + 1;
      }
    }
  }

  method GenerateSchedule(steps: seq<seq<Rate>>, stepSeconds: nat, warmup: nat) returns (rows: seq<Row>)
    ensures ScheduleOf(rows, steps, stepSeconds, warmup)
  {
    hide Total, Ratio, IsPeak;
    var totals: seq<nat>, ratios: seq<string> := [], [];
    for i := 0 to |steps|
      invariant |totals| == |ratios| == i
      invariant forall j | 0 <= j < i :: totals[j] == Total(steps[j]) && ratios[j] == Ratio(steps[j])
    {
      var total, ratio := ReadStep(steps[i]);
      totals, ratios := totals + [total], ratios + [ratio];
    }
    var peakStep := FindPeak(steps, totals);
    rows := [];
    for i := 0 to |steps|
      invariant |rows| == i
      invariant forall j | 0 <= j < i ::
        rows[j] == Row(j + 1, LegOf(j + 1, peakStep), Ratio(steps[j]), Total(steps[j]),
                       j * stepSeconds, (j + 1) * stepSeconds, warmup)
    {
      var leg := if i + 1 < peakStep then Up else if i + 1 == peakStep then Peak else Down;
      rows := rows + [Row(i + 1, leg, ratios[i], totals[i], i * stepSeconds, (i + 1) * stepSeconds, warmup)];
    }
    assert RowsFor(rows, steps, stepSeconds, warmup, peakStep);
  }

  // ----- analysis/staircase_evaluation.py

  datatype Step = Step(step: nat, leg: Leg, rpsPerNode: string, totalRps: nat, windowStart: int, windowEnd: int,
                       window: int)

  function StepOf(row: Row): Step {
    Step(row.step, row.leg, row.rpsPerNode, row.totalRps, row.startOffset + row.warmup, row.endOffset,
         row.endOffset - row.startOffset - row.warmup)
  }

  /** `None` is the error exit: no rows, or a step whose warmup leaves no window. */
  method ReadSchedule(rows: seq<Row>) returns (steps: Option<seq<Step>>)
    ensures steps == None <==> rows == [] || exists i | 0 <= i < |rows| :: StepOf(rows[i]).window <= 0
    ensures steps.Some? ==> |steps.value| == |rows| && forall i | 0 <= i < |rows| :: steps.value[i] == StepOf(rows[i])
  {
    if rows == [] {
      return None;
    }
    var read: seq<Step> := [];
    for i := 0 to |rows|
      invariant |read| == i
      invariant forall j | 0 <= j < i :: read[j] == StepOf(rows[j]) && read[j].window > 0
    {
      var window := rows[i].endOffset - rows[i].startOffset - rows[i].warmup;
      if window <= 0 {
        assert StepOf(rows[i]).window <= 0;
        return None;
      }
      read := read + [Step(rows[i].step, rows[i].leg, rows[i].rpsPerNode, rows[i].totalRps,
                           rows[i].startOffset + rows[i].warmup, rows[i].endOffset, window)];
    }
    return Some(read);
  }

  /** The join condition between a sample's offset from the run's first request and a step. */
  predicate InWindow(step: Step, offset: int) {
    step.windowStart <= offset < step.windowEnd
  }

  /** What the analysis reads back of step `i + 1`: its number, load and spelling, and its slice of the run
      less the warmup. */
  lemma ReadBack(rows: seq<Row>, steps: seq<seq<Rate>>, stepSeconds: nat, warmup: nat, i: nat)
    requires ScheduleOf(rows, steps, stepSeconds, warmup) && i < |steps|
    ensures |rows| == |steps|
    ensures var step := StepOf(rows[i]);
      && step.step == i + 1 && step.rpsPerNode == Ratio(steps[i]) && step.totalRps == Total(steps[i])
      && step.windowStart == i * stepSeconds + warmup && step.windowEnd == i * stepSeconds + stepSeconds
      && step.window == stepSeconds - warmup
  {
    hide Ratio, Total;
    assert (i + 1) * stepSeconds == i * stepSeconds + stepSeconds;
  }

  predicate FirstHighest(steps: seq<seq<Rate>>, i: nat)
    requires i < |steps|
  {
    && Total(steps[i]) > 0
    && (forall j | 0 <= j < |steps| :: Total(steps[j]) <= Total(steps[i]))
    && (forall j | 0 <= j < i :: Total(steps[j]) < Total(steps[i]))
  }

  /** The legs: everything before the first step of the highest load climbs, everything after it descends. */
  lemma ReadLegs(rows: seq<Row>, steps: seq<seq<Rate>>, stepSeconds: nat, warmup: nat, i: nat)
    requires ScheduleOf(rows, steps, stepSeconds, warmup) && i < |steps|
    ensures |rows| == |steps|
    ensures rows[i].leg == Peak <==> FirstHighest(steps, i)
    ensures rows[i].leg == Up <==> exists j | i < j < |steps| :: rows[j].leg == Peak
    ensures StepOf(rows[i]).leg == rows[i].leg
  {
    hide Ratio, Total;
    var peak: nat :| IsPeak(steps, peak) && RowsFor(rows, steps, stepSeconds, warmup, peak);
    assert forall j | 0 <= j < |rows| :: rows[j].leg == LegOf(j + 1, peak);
    if peak > 0 {
      assert rows[peak - 1].leg == Peak;
    }
  }

  /** A generated schedule is readable exactly when it has steps and the warmup is shorter than them. */
  lemma ReadableIff(rows: seq<Row>, steps: seq<seq<Rate>>, stepSeconds: nat, warmup: nat)
    requires ScheduleOf(rows, steps, stepSeconds, warmup)
    ensures rows != [] && (forall i | 0 <= i < |rows| :: StepOf(rows[i]).window > 0)
      <==> steps != [] && warmup < stepSeconds
    ensures forall i | 0 <= i < |rows| :: StepOf(rows[i]).window == stepSeconds - warmup
  {
    forall i | 0 <= i < |rows| ensures StepOf(rows[i]).window == stepSeconds - warmup {
      assert (i + 1) * stepSeconds == i * stepSeconds + stepSeconds;
    }
    if rows != [] {
      assert StepOf(rows[0]).window == stepSeconds - warmup;
    }
  }

  lemma DivMod(t: int, s: int, i: int)
    requires s > 0
    ensures i * s <= t < (i + 1) * s <==> i == t / s
    ensures t == (t / s) * s + t % s && 0 <= t % s < s
  {
    var q := t / s;
    assert t == q * s + t % s;
    Monotone(i + 1, q, s);
    Monotone(q + 1, i, s);
  }

  lemma Monotone(a: int, b: int, s: int)
    requires s > 0
    ensures a <= b ==> a * s <= b * s
    ensures (a + 1) * s == a * s + s
  {
  }

  /** A sample is counted for at most one step, the one running at its offset, and for that step
      exactly when the warmup of the step has passed. */
  lemma SampleStep(rows: seq<Row>, steps: seq<seq<Rate>>, stepSeconds: nat, warmup: nat, i: nat,
                   offset: int)
    requires ScheduleOf(rows, steps, stepSeconds, warmup) && stepSeconds > 0 && i < |rows|
    ensures InWindow(StepOf(rows[i]), offset) <==> i == offset / stepSeconds && offset % stepSeconds >= warmup
  {
    DivMod(offset, stepSeconds, i);
    assert rows[i].startOffset == i * stepSeconds && rows[i].endOffset == (i + 1) * stepSeconds;
    assert (i + 1) * stepSeconds == i * stepSeconds + stepSeconds;
    hide ScheduleOf;
  }
}
