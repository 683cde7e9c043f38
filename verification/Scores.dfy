/** Scores as numbers: positivity, their sum over any order, and the portion as a rounded exact share. */
module Scores {
  import opened Collections
  import opened Float64
  import opened SlotShares
  import opened UpdateNftables

  // ----- what is assumed of the platform's power function

  predicate PositiveInput(x: F64) {
    x == PosInf || (x.Fin? && x.v > 0.0)
  }

  ghost predicate PowfNonNegative(cfg: Config) {
    forall x {:trigger PositiveInput(x)} | PositiveInput(x) :: NonNegative(cfg.powf(x, cfg.scoreExponent))
  }

  ghost predicate PowfPositive(cfg: Config) {
    forall x {:trigger PositiveInput(x)} | PositiveInput(x) && x.Fin? ::
      cfg.powf(x, cfg.scoreExponent).Fin? && cfg.powf(x, cfg.scoreExponent).v > 0.0
  }

  ghost predicate PowfMonotone(cfg: Config) {
    forall x, y {:trigger PositiveInput(x), PositiveInput(y)}
      | PositiveInput(x) && PositiveInput(y) && x.Fin? && y.Fin? && x.v <= y.v ::
      var p, q := cfg.powf(x, cfg.scoreExponent), cfg.powf(y, cfg.scoreExponent);
      p.Fin? && q.Fin? ==> p.v <= q.v
  }

  /** `inf.powf(e)` is infinite for a positive exponent. */
  ghost predicate PowfAtInfinity(cfg: Config) {
    cfg.scoreExponent > 0.0 ==> cfg.powf(PosInf, cfg.scoreExponent) == PosInf
  }

  // ----- what is known of the candidates

  /** It passed the filter, and its latency is a measured one or the default 0. */
  predicate Eligible(c: Candidate) {
    Between(0.0, c.datapoint.cpu, 0.95) && c.datapoint.latency.Fin? && c.datapoint.latency.v >= 0.0
  }

  ghost predicate AllEligible(cands: seq<Candidate>) {
    forall i | 0 <= i < |cands| :: Eligible(cands[i])
  }

  /** Every candidate has a positive latency, so that every score is positive and finite. */
  ghost predicate AllReported(cands: seq<Candidate>) {
    forall i | 0 <= i < |cands| :: Eligible(cands[i]) && cands[i].datapoint.latency.v > 0.0
  }

  function Score(cfg: Config, c: Candidate): F64 {
    PerformanceScore(cfg, c.datapoint)
  }

  /** The base of the power. */
  function Headroom(dp: ScorePair): F64 {
    Div(OneMinus(dp.cpu), dp.latency)
  }

  lemma HeadroomPositive(c: Candidate)
    requires Eligible(c)
    ensures PositiveInput(Headroom(c.datapoint))
    ensures c.datapoint.latency.v > 0.0 ==> Headroom(c.datapoint).Fin?
    ensures c.datapoint.latency.v == 0.0 ==> Headroom(c.datapoint) == PosInf
  {
    hide Quotient;
    if c.datapoint.latency.v > 0.0 {
      QuotientPositive(1.0 - c.datapoint.cpu.v, c.datapoint.latency.v);
    }
  }

  lemma ScoreNonNegative(cfg: Config, c: Candidate)
    requires PowfNonNegative(cfg) && Eligible(c)
    ensures NonNegative(Score(cfg, c))
  {
    HeadroomPositive(c);
    assert Score(cfg, c) == cfg.powf(Headroom(c.datapoint), cfg.scoreExponent);
    hide Headroom, Score;
  }

  lemma ScorePositive(cfg: Config, c: Candidate)
    requires PowfPositive(cfg) && Eligible(c) && c.datapoint.latency.v > 0.0
    ensures Score(cfg, c).Fin? && Score(cfg, c).v > 0.0
  {
    HeadroomPositive(c);
    assert Score(cfg, c) == cfg.powf(Headroom(c.datapoint), cfg.scoreExponent);
    hide Headroom, Score;
  }

  // ----- totals

  /** `score <= total` in the sense that matters for the quotient. */
  predicate PartOf(score: F64, total: F64) {
    && NonNegative(score) && NonNegative(total)
    && (total.Fin? ==> score.Fin? && score.v <= total.v)
  }

  lemma {:induction false} TotalNonNegative(cfg: Config, cands: seq<Candidate>)
    requires PowfNonNegative(cfg) && AllEligible(cands)
    ensures NonNegative(TotalScore(cfg, cands))
    decreases |cands|
  {
    if cands != [] {
      TotalNonNegative(cfg, cands[..|cands| - 1]);
      ScoreNonNegative(cfg, cands[|cands| - 1]);
    }
  }

  lemma {:induction false} ScoresPartOfTotal(cfg: Config, cands: seq<Candidate>, i: nat)
    requires PowfNonNegative(cfg) && AllEligible(cands) && i < |cands|
    ensures PartOf(Score(cfg, cands[i]), TotalScore(cfg, cands))
    decreases |cands|
  {
    var n := |cands| - 1;
    TotalNonNegative(cfg, cands[..n]);
    ScoreNonNegative(cfg, cands[n]);
    if i < n {
      ScoresPartOfTotal(cfg, cands[..n], i);
      assert cands[..n][i] == cands[i];
    }
  }

  lemma {:induction false} TotalPositive(cfg: Config, cands: seq<Candidate>)
    requires PowfPositive(cfg) && AllReported(cands)
    ensures TotalScore(cfg, cands).Fin?
    ensures if cands == [] then TotalScore(cfg, cands).v == 0.0 else TotalScore(cfg, cands).v > 0.0
    decreases |cands|
  {
    if cands != [] {
      TotalPositive(cfg, cands[..|cands| - 1]);
      ScorePositive(cfg, cands[|cands| - 1]);
    }
  }

  lemma AddLaws(a: F64, b: F64, c: F64)
    ensures Add(a, b) == Add(b, a)
    ensures Add(Add(a, b), c) == Add(a, Add(b, c))
  {
  }

  lemma {:induction false} TotalWithout(cfg: Config, cands: seq<Candidate>, j: nat)
    requires j < |cands|
    ensures TotalScore(cfg, cands) == Add(TotalScore(cfg, cands[..j] + cands[j + 1..]), Score(cfg, cands[j]))
    decreases |cands|
  {
    var n := |cands| - 1;
    var rest := cands[..j] + cands[j + 1..];
    if j == n {
      assert rest == cands[..n];
    } else {
      TotalWithout(cfg, cands[..n], j);
      assert rest[..|rest| - 1] == cands[..n][..j] + cands[..n][j + 1..];
      var t, x, y := TotalScore(cfg, rest[..|rest| - 1]), Score(cfg, cands[j]), Score(cfg, cands[n]);
      AddLaws(t, x, y);
      AddLaws(x, y, x);
      AddLaws(t, y, x);
    }
  }

  /** The total score does not depend on the visiting order. */
  lemma {:induction false} TotalOfPermutation(cfg: Config, a: seq<Candidate>, b: seq<Candidate>)
    requires multiset(a) == multiset(b)
    ensures TotalScore(cfg, a) == TotalScore(cfg, b) && |a| == |b|
    decreases |a|
  {
    assert |multiset(a)| == |a| && |multiset(b)| == |b|;
    if a != [] {
      var j := MatchLast(a, b);
      hide Score, Add;
      TotalWithout(cfg, b, j);
      TotalWithout(cfg, a, |a| - 1);
      assert a[..|a| - 1] + a[|a|..] == a[..|a| - 1];
      TotalOfPermutation(cfg, a[..|a| - 1], b[..j] + b[j + 1..]);
    }
  }

  // ----- shares

  /** A node's share of the cap before rounding; 0 when the quotient is not a usable number. */
  function Exact(cap: U32, score: F64, total: F64): real {
    if total.Fin? && total.v > 0.0 && score.Fin? then ShareOf(score.v, total.v, cap as real) else 0.0
  }

  lemma CastOfRound(cap: U32, e: real)
    requires 0.0 <= e <= cap as real
    ensures CastU32(Round(Fin(e))) == RoundReal(e)
  {
    RoundMonotone(0.0, e);
    RoundMonotone(e, cap as real);
  }

  lemma PortionOfFinite(cap: U32, s: real, t: real)
    requires t > 0.0
    ensures Portion(cap, Fin(s), Fin(t)) == CastU32(Round(Fin(ShareOf(s, t, cap as real))))
  {
    hide Times, Quotient, CastU32, Round;
  }

  lemma PortionOfNothing(cap: U32, score: F64, total: F64)
    requires PartOf(score, total) && !(total.Fin? && total.v > 0.0)
    ensures Portion(cap, score, total) == 0
  {
  }

  /** The portion is the exact share rounded to nearest, through every float special case. */
  lemma PortionRoundsExact(cap: U32, score: F64, total: F64)
    requires PartOf(score, total)
    ensures Portion(cap, score, total) == RoundReal(Exact(cap, score, total))
    ensures 0.0 <= Exact(cap, score, total) <= cap as real
  {
    hide ShareOf;
    if total.Fin? && total.v > 0.0 {
      hide Portion, CastU32, Round, RoundReal;
      PortionOfFinite(cap, score.v, total.v);
      ShareWithinWhole(score.v, total.v, cap as real);
      CastOfRound(cap, ShareOf(score.v, total.v, cap as real));
    } else {
      PortionOfNothing(cap, score, total);
      assert RoundReal(0.0) == 0;
      hide Portion;
    }
  }

  function ExactShares(cfg: Config, cands: seq<Candidate>, total: F64): seq<real> {
    seq(|cands|, i requires 0 <= i < |cands| => Exact(cfg.probabilityCap, Score(cfg, cands[i]), total))
  }

  lemma {:induction false} SharesAddUp(cfg: Config, cands: seq<Candidate>, total: F64)
    requires PowfNonNegative(cfg) && AllEligible(cands)
    ensures total.Fin? && total.v > 0.0 && TotalScore(cfg, cands).Fin? ==>
      Sum(ExactShares(cfg, cands, total)) == ShareOf(TotalScore(cfg, cands).v, total.v, cfg.probabilityCap as real)
    ensures !(total.Fin? && total.v > 0.0) ==> Sum(ExactShares(cfg, cands, total)) == 0.0
    decreases |cands|
  {
    hide ShareOf, PerformanceScore;
    if total.Fin? && total.v > 0.0 {
      WholeShare(total.v, cfg.probabilityCap as real);
    }
    if cands != [] {
      var n := |cands| - 1;
      SharesAddUp(cfg, cands[..n], total);
      ScoresPartOfTotal(cfg, cands, n);
      TotalNonNegative(cfg, cands[..n]);
      ScoreNonNegative(cfg, cands[n]);
      assert ExactShares(cfg, cands, total)[..n] == ExactShares(cfg, cands[..n], total);
      if total.Fin? && total.v > 0.0 && TotalScore(cfg, cands).Fin? {
        SharesDistribute(TotalScore(cfg, cands[..n]).v, Score(cfg, cands[n]).v, total.v, cfg.probabilityCap as real);
      }
    }
  }

  /** The exact shares behind a plan. */
  function Shares(cfg: Config, cands: seq<Candidate>): (xs: seq<real>)
    ensures |xs| == |cands|
  {
    ExactShares(cfg, cands, TotalScore(cfg, cands))
  }

  /** The exact shares fill the cap, or vanish together. */
  lemma SharesFillCap(cfg: Config, cands: seq<Candidate>)
    requires PowfNonNegative(cfg) && AllEligible(cands)
    ensures var total := TotalScore(cfg, cands);
      Sum(Shares(cfg, cands)) == if total.Fin? && total.v > 0.0 then cfg.probabilityCap as real else 0.0
  {
    hide ShareOf, PerformanceScore;
    var total := TotalScore(cfg, cands);
    SharesAddUp(cfg, cands, total);
    if total.Fin? && total.v > 0.0 {
      WholeShare(total.v, cfg.probabilityCap as real);
    }
  }

  lemma PlanRoundsAt(cfg: Config, cands: seq<Candidate>, i: nat)
    requires PowfNonNegative(cfg) && AllEligible(cands) && i < |cands|
    ensures Shares(cfg, cands)[i] >= 0.0
    ensures Plan(cfg, cands)[i].portion == RoundReal(Shares(cfg, cands)[i])
  {
    hide TotalScore, Portion, PerformanceScore, ShareOf, RoundReal;
    ScoresPartOfTotal(cfg, cands, i);
    PortionRoundsExact(cfg.probabilityCap, Score(cfg, cands[i]), TotalScore(cfg, cands));
  }

  /** The planned portions are the rounded exact shares. */
  lemma PlanRounds(cfg: Config, cands: seq<Candidate>)
    requires PowfNonNegative(cfg) && AllEligible(cands)
    ensures Rounds(Plan(cfg, cands), Shares(cfg, cands), cfg.probabilityCap)
  {
    hide TotalScore, Plan, Shares, RoundReal;
    forall i | 0 <= i < |cands|
      ensures Shares(cfg, cands)[i] >= 0.0
      ensures Plan(cfg, cands)[i].portion == RoundReal(Shares(cfg, cands)[i])
    {
      PlanRoundsAt(cfg, cands, i);
    }
    SharesFillCap(cfg, cands);
  }

  // ----- monotonicity

  predicate NoWorse(a: ScorePair, b: ScorePair) {
    && a.cpu.Fin? && b.cpu.Fin? && a.cpu.v <= b.cpu.v
    && a.latency.Fin? && b.latency.Fin? && a.latency.v <= b.latency.v
  }

  lemma HeadroomMonotone(better: Candidate, worse: Candidate)
    requires Eligible(better) && Eligible(worse) && NoWorse(better.datapoint, worse.datapoint)
    requires better.datapoint.latency.v > 0.0
    ensures Headroom(better.datapoint).Fin? && Headroom(worse.datapoint).Fin?
    ensures 0.0 < Headroom(worse.datapoint).v <= Headroom(better.datapoint).v
  {
    hide Quotient;
    var b, w := better.datapoint, worse.datapoint;
    QuotientPositive(1.0 - w.cpu.v, w.latency.v);
    QuotientMonotone(1.0 - w.cpu.v, w.latency.v, 1.0 - b.cpu.v, b.latency.v);
  }

  /** A lower load and a lower latency give a score at least as high. */
  lemma ScoreMonotone(cfg: Config, better: Candidate, worse: Candidate)
    requires PowfPositive(cfg) && PowfMonotone(cfg)
    requires Eligible(better) && Eligible(worse) && NoWorse(better.datapoint, worse.datapoint)
    requires better.datapoint.latency.v > 0.0
    ensures Score(cfg, better).Fin? && Score(cfg, worse).Fin?
    ensures Score(cfg, worse).v <= Score(cfg, better).v
  {
    var b, w := better.datapoint, worse.datapoint;
    assert Score(cfg, better) == cfg.powf(Headroom(b), cfg.scoreExponent);
    assert Score(cfg, worse) == cfg.powf(Headroom(w), cfg.scoreExponent);
    hide Quotient, Div, Score, PerformanceScore;
    HeadroomMonotone(better, worse);
    assert PositiveInput(Headroom(b)) && PositiveInput(Headroom(w));
    hide Headroom;
  }

  lemma PortionMonotone(cap: U32, low: F64, high: F64, total: F64)
    requires PartOf(low, total) && PartOf(high, total) && total.Fin? && total.v > 0.0 && low.v <= high.v
    ensures Portion(cap, low, total) <= Portion(cap, high, total)
  {
    hide Portion, ShareOf, RoundReal;
    PortionRoundsExact(cap, low, total);
    PortionRoundsExact(cap, high, total);
    ShareMonotone(low.v, high.v, total.v, cap as real);
    RoundMonotone(Exact(cap, low, total), Exact(cap, high, total));
  }
}
