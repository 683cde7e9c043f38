/** The exponentially weighted moving average that both probes keep per node. */
module Ewma {
  import opened Float64

  /** One update: `alpha * sample + (1 - alpha) * previous`. */
  function Smooth(alpha: real, sample: real, previous: real): real {
    Times(alpha, sample) + Times(1.0 - alpha, previous)
  }

  /** The value stored after a non-empty history: the first sample raw, every later one smoothed in. */
  function Average(alpha: real, xs: seq<real>): real
    requires xs != []
  {
    if |xs| == 1 then xs[0] else Smooth(alpha, xs[|xs| - 1], Average(alpha, xs[..|xs| - 1]))
  }

  function Pow(b: real, n: nat): real {
    if n == 0 then 1.0 else Times(b, Pow(b, n - 1))
  }

  /** The weight of sample `i` among `n`. */
  function Weight(alpha: real, n: nat, i: nat): real
    requires i < n
  {
    if i == 0 then Pow(1.0 - alpha, n - 1) else Times(alpha, Pow(1.0 - alpha, n - 1 - i))
  }

  /** Sum of the first `k` weighted samples out of `|xs|`. */
  function WeightedSum(alpha: real, xs: seq<real>, k: nat): real
    requires k <= |xs|
  {
    if k == 0 then 0.0 else WeightedSum(alpha, xs, k - 1) + Times(Weight(alpha, |xs|, k - 1), xs[k - 1])
  }

  function WeightTotal(alpha: real, n: nat, k: nat): real
    requires k <= n
  {
    if k == 0 then 0.0 else WeightTotal(alpha, n, k - 1) + Weight(alpha, n, k - 1)
  }

  lemma TimesLaws(a: real, b: real, c: real)
    ensures Times(a, b) == Times(b, a)
    ensures Times(a, Times(b, c)) == Times(Times(a, b), c)
    ensures Times(a, b + c) == Times(a, b) + Times(a, c)
    ensures Times(a, 0.0) == 0.0 && Times(1.0, a) == a
  {
  }

  /** An older sample's weight shrinks by `1 - alpha` when another sample arrives. */
  lemma WeightStep(alpha: real, n: nat, i: nat)
    requires i < n
    ensures Weight(alpha, n + 1, i) == Times(1.0 - alpha, Weight(alpha, n, i))
  {
    hide Times;
    TimesLaws(alpha, 1.0 - alpha, Pow(1.0 - alpha, n - 1 - i));
    TimesLaws(1.0 - alpha, alpha, Pow(1.0 - alpha, n - 1 - i));
  }

  lemma {:induction false} SumStep(alpha: real, xs: seq<real>, x: real, k: nat)
    requires k <= |xs|
    ensures WeightedSum(alpha, xs + [x], k) == Times(1.0 - alpha, WeightedSum(alpha, xs, k))
    decreases k
  {
    hide Times, Weight;
    if k == 0 {
      TimesLaws(1.0 - alpha, 0.0, 0.0);
    } else {
      var w, y := Weight(alpha, |xs|, k - 1), xs[k - 1];
      SumStep(alpha, xs, x, k - 1);
      WeightStep(alpha, |xs|, k - 1);
      TimesLaws(1.0 - alpha, w, y);
      TimesLaws(1.0 - alpha, WeightedSum(alpha, xs, k - 1), Times(w, y));
    }
  }

  /** The stored value is the weighted sum of the whole history. */
  lemma {:induction false} ClosedForm(alpha: real, xs: seq<real>)
    requires xs != []
    ensures Average(alpha, xs) == WeightedSum(alpha, xs, |xs|)
    decreases |xs|
  {
    hide Times;
    var n := |xs| - 1;
    if n == 0 {
      TimesLaws(xs[0], 0.0, 0.0);
      assert WeightedSum(alpha, xs, 1) == WeightedSum(alpha, xs, 0) + Times(Weight(alpha, 1, 0), xs[0]);
    } else {
      assert xs == xs[..n] + [xs[n]];
      ClosedForm(alpha, xs[..n]);
      SumStep(alpha, xs[..n], xs[n], n);
      assert Weight(alpha, n + 1, n) == Times(alpha, Pow(1.0 - alpha, 0));
      TimesLaws(alpha, 1.0, 0.0);
      TimesLaws(1.0, alpha, 0.0);
      TimesLaws(alpha, 0.0, 0.0);
    }
  }

  lemma {:induction false} WeightTotalStep(alpha: real, n: nat, k: nat)
    requires k <= n
    ensures WeightTotal(alpha, n + 1, k) == Times(1.0 - alpha, WeightTotal(alpha, n, k))
    decreases k
  {
    hide Times, Weight;
    if k == 0 {
      TimesLaws(1.0 - alpha, 0.0, 0.0);
    } else {
      WeightTotalStep(alpha, n, k - 1);
      WeightStep(alpha, n, k - 1);
      TimesLaws(1.0 - alpha, WeightTotal(alpha, n, k - 1), Weight(alpha, n, k - 1));
    }
  }

  lemma {:induction false} WeightsSumToOne(alpha: real, n: nat)
    requires n >= 1
    ensures WeightTotal(alpha, n, n) == 1.0
    decreases n
  {
    hide Times;
    if n == 1 {
      assert WeightTotal(alpha, 1, 1) == WeightTotal(alpha, 1, 0) + Weight(alpha, 1, 0);
    } else {
      WeightsSumToOne(alpha, n - 1);
      WeightTotalStep(alpha, n - 1, n - 1);
      assert Weight(alpha, n, n - 1) == Times(alpha, Pow(1.0 - alpha, 0));
      TimesLaws(alpha, 1.0, 0.0);
      TimesLaws(1.0 - alpha, 1.0, 0.0);
      TimesLaws(1.0, alpha, 0.0);
      TimesLaws(1.0, 1.0 - alpha, 0.0);
    }
  }

  ghost predicate Within(xs: seq<real>, lo: real, hi: real) {
    forall i | 0 <= i < |xs| :: lo <= xs[i] <= hi
  }

  lemma SmoothBetween(alpha: real, x: real, y: real, lo: real, hi: real)
    requires 0.0 <= alpha <= 1.0 && lo <= x <= hi && lo <= y <= hi
    ensures lo <= Smooth(alpha, x, y) <= hi
  {
    ProductNonNegative(alpha, x - lo);
    ProductNonNegative(alpha, hi - x);
    ProductNonNegative(1.0 - alpha, y - lo);
    ProductNonNegative(1.0 - alpha, hi - y);
  }

  /** The average never leaves the range of its samples. */
  lemma {:induction false} AverageWithin(alpha: real, xs: seq<real>, lo: real, hi: real)
    requires 0.0 <= alpha <= 1.0 && xs != [] && Within(xs, lo, hi)
    ensures lo <= Average(alpha, xs) <= hi
    decreases |xs|
  {
    hide Smooth;
    if |xs| > 1 {
      AverageWithin(alpha, xs[..|xs| - 1], lo, hi);
      SmoothBetween(alpha, xs[|xs| - 1], Average(alpha, xs[..|xs| - 1]), lo, hi);
    }
  }

  ghost predicate AllZero(xs: seq<real>) {
    forall i | 0 <= i < |xs| :: xs[i] == 0.0
  }

  /** For a proper alpha an average of non-negative samples is 0 only if every sample was. */
  lemma {:induction false} AverageZeroIff(alpha: real, xs: seq<real>)
    requires 0.0 < alpha < 1.0 && xs != [] && forall i | 0 <= i < |xs| :: xs[i] >= 0.0
    ensures Average(alpha, xs) >= 0.0
    ensures Average(alpha, xs) == 0.0 <==> AllZero(xs)
    decreases |xs|
  {
    var n := |xs| - 1;
    if n > 0 {
      AverageZeroIff(alpha, xs[..n]);
      SmoothZeroIff(alpha, xs[n], Average(alpha, xs[..n]));
      assert AllZero(xs) <==> AllZero(xs[..n]) && xs[n] == 0.0;
      hide Smooth;
    }
  }

  lemma SmoothZeroIff(alpha: real, x: real, y: real)
    requires 0.0 < alpha < 1.0 && x >= 0.0 && y >= 0.0
    ensures Smooth(alpha, x, y) >= 0.0
    ensures Smooth(alpha, x, y) == 0.0 <==> x == 0.0 && y == 0.0
  {
    if x > 0.0 { ProductPositive(alpha, x); }
    if y > 0.0 { ProductPositive(1.0 - alpha, y); }
  }

  /** After `k` samples of a constant `c` the distance to `c` is exactly `(1-alpha)^k` of the old one. */
  lemma {:induction false} Settling(alpha: real, xs: seq<real>, c: real, k: nat)
    requires xs != []
    ensures Average(alpha, xs + seq(k, _ => c)) - c == Times(Pow(1.0 - alpha, k), Average(alpha, xs) - c)
    decreases k
  {
    var all := xs + seq(k, _ => c);
    hide Times, Smooth;
    if k == 0 {
      assert all == xs;
      TimesLaws(Average(alpha, xs) - c, 0.0, 0.0);
    } else {
      var previous := xs + seq(k - 1, _ => c);
      assert all[..|all| - 1] == previous && all[|all| - 1] == c;
      assert Average(alpha, all) == Smooth(alpha, c, Average(alpha, previous));
      assert Pow(1.0 - alpha, k) == Times(1.0 - alpha, Pow(1.0 - alpha, k - 1));
      hide Average, Pow;
      Settling(alpha, xs, c, k - 1);
      SmoothTowards(alpha, c, Average(alpha, previous));
      TimesLaws(1.0 - alpha, Pow(1.0 - alpha, k - 1), Average(alpha, xs) - c);
    }
  }

  lemma SmoothTowards(alpha: real, c: real, y: real)
    ensures Smooth(alpha, c, y) - c == Times(1.0 - alpha, y - c)
  {
    assert alpha * c + (1.0 - alpha) * y - c == (1.0 - alpha) * (y - c);
  }

  /** With alpha 0.3 less than 3% of a disturbance is left from the tenth sample on, and not before. */
  lemma {:induction false} SettledAfterTen(k: nat)
    ensures Pow(0.7, k) < 0.03 <==> k >= 10
    ensures Pow(0.7, k) > 0.0
    decreases k
  {
    if k < 10 {
      PowPositive(0.7, k);
      FirstPowers();
    } else if k == 10 {
      FirstPowers();
    } else {
      SettledAfterTen(k - 1);
    }
  }

  lemma FirstPowers()
    ensures Pow(0.7, 0) == 1.0 && Pow(0.7, 1) == 0.7 && Pow(0.7, 2) == 0.49 && Pow(0.7, 3) == 0.343
    ensures Pow(0.7, 4) == 0.2401 && Pow(0.7, 5) == 0.16807 && Pow(0.7, 6) == 0.117649
    ensures Pow(0.7, 7) == 0.0823543 && Pow(0.7, 8) == 0.05764801
    ensures Pow(0.7, 9) == 0.040353607 && Pow(0.7, 10) == 0.0282475249
  {
  }

  lemma {:induction false} PowPositive(b: real, n: nat)
    requires b > 0.0
    ensures Pow(b, n) > 0.0
    decreases n
  {
    if n > 0 {
      PowPositive(b, n - 1);
    }
  }
}
