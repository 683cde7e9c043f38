/** Which measurements the hysteresis table pairs: in general, and for a mirrored staircase. */
module HysteresisTheorems {
  import opened Collections
  import opened SlotMap
  import opened Schedule
  import opened Hysteresis

  // ----- any list of rows

  /** Every column of the pair, from the row of the climb and the row of the descent. */
  predicate Joins(p: Pair, up: EvaluationRow, down: EvaluationRow) {
    && p.configuration == up.configuration && p.rpsPerNode == up.rpsPerNode && p.offered == up.offered
    && p.upStep == up.step && p.downStep == down.step
    && p.upMean == up.mean && p.downMean == down.mean && p.deltaMean == down.mean - up.mean
    && p.upThroughput == up.throughput && p.downThroughput == down.throughput
    && p.deltaThroughput == down.throughput - up.throughput
  }

  /** The pair joins the last climbing and the last descending visit of its level. */
  ghost predicate JoinsLastVisits(own: seq<EvaluationRow>, p: Pair) {
    var u, d := LastVisit(own, Up, p.rpsPerNode), LastVisit(own, Down, p.rpsPerNode);
    u >= 0 && d >= 0 && Joins(p, own[u], own[d])
  }

  ghost predicate DistinctLevels(pairs: seq<Pair>) {
    forall i, j | 0 <= i < j < |pairs| :: pairs[i].rpsPerNode != pairs[j].rpsPerNode
  }

  ghost predicate AscendingPairs(pairs: seq<Pair>) {
    forall i, j | 0 <= i < j < |pairs| :: pairs[i].offered <= pairs[j].offered
  }

  lemma {:induction false} InsertDistinct(sorted: seq<EvaluationRow>, row: EvaluationRow)
    requires DistinctKeys(sorted) && forall x | x in sorted :: x.rpsPerNode != row.rpsPerNode
    ensures DistinctKeys(InsertByLoad(sorted, row))
    decreases |sorted|
  {
    if sorted != [] {
      var init, last := sorted[..|sorted| - 1], sorted[|sorted| - 1];
      assert last in sorted;
      if last.offered > row.offered {
        InsertDistinct(init, row);
        InsertMembers(init, row);
        var rest := InsertByLoad(init, row);
        forall i | 0 <= i < |rest| ensures rest[i].rpsPerNode != last.rpsPerNode {
          assert rest[i] in rest;
          if rest[i] in init {
            var j :| 0 <= j < |init| && init[j] == rest[i];
            assert sorted[j] == rest[i];
          }
        }
      }
    }
  }

  lemma SameMembers(a: seq<EvaluationRow>, b: seq<EvaluationRow>)
    requires multiset(a) == multiset(b)
    ensures forall x :: x in a <==> x in b
  {
    forall x ensures x in a <==> x in b {
      assert x in a <==> x in multiset(a);
      assert x in b <==> x in multiset(b);
    }
  }

  lemma {:induction false} SortDistinct(rows: seq<EvaluationRow>)
    requires DistinctKeys(rows)
    ensures DistinctKeys(SortedByLoad(rows))
    decreases |rows|
  {
    if rows != [] {
      var init, last := rows[..|rows| - 1], rows[|rows| - 1];
      SortDistinct(init);
      SortFacts(init);
      SameMembers(SortedByLoad(init), init);
      InsertDistinct(SortedByLoad(init), last);
    }
  }

  /** `p` comes from one of the rows. */
  ghost predicate FromRow(ups: seq<EvaluationRow>, downs: map<string, EvaluationRow>, p: Pair) {
    exists i | 0 <= i < |ups| :: ups[i].rpsPerNode in downs && p == PairOf(ups[i], downs[ups[i].rpsPerNode])
  }

  lemma {:induction false} MatchedFacts(ups: seq<EvaluationRow>, downs: map<string, EvaluationRow>)
    requires DistinctKeys(ups) && Ascending(ups)
    ensures forall p :: p in Matched(ups, downs) <==> FromRow(ups, downs, p)
    ensures DistinctLevels(Matched(ups, downs)) && AscendingPairs(Matched(ups, downs))
    decreases |ups|
  {
    if ups != [] {
      var init, last := ups[..|ups| - 1], ups[|ups| - 1];
      MatchedFacts(init, downs);
      var before := Matched(init, downs);
      forall i | 0 <= i < |before|
        ensures before[i].rpsPerNode != last.rpsPerNode && before[i].offered <= last.offered
      {
        assert before[i] in before;
        var j :| 0 <= j < |init| && init[j].rpsPerNode in downs
          && before[i] == PairOf(init[j], downs[init[j].rpsPerNode]);
        assert ups[j] == init[j];
      }
      forall p ensures p in Matched(ups, downs) <==> FromRow(ups, downs, p) {
        FromRowNext(ups, downs, p);
      }
    }
  }

  lemma FromRowNext(ups: seq<EvaluationRow>, downs: map<string, EvaluationRow>, p: Pair)
    requires ups != []
    ensures var init, last := ups[..|ups| - 1], ups[|ups| - 1];
      FromRow(ups, downs, p) <==>
        FromRow(init, downs, p) || (last.rpsPerNode in downs && p == PairOf(last, downs[last.rpsPerNode]))
  {
    hide PairOf;
    var init := ups[..|ups| - 1];
    if FromRow(init, downs, p) {
      var i :| 0 <= i < |init| && init[i].rpsPerNode in downs && p == PairOf(init[i], downs[init[i].rpsPerNode]);
      assert ups[i] == init[i];
    }
    if FromRow(ups, downs, p) {
      var i :| 0 <= i < |ups| && ups[i].rpsPerNode in downs && p == PairOf(ups[i], downs[ups[i].rpsPerNode]);
      assert i < |init| ==> init[i] == ups[i];
    }
  }

  /** The table of one configuration, whatever the rows: one pair for each level that was visited on
      both legs, joining the last visits, in ascending order of load. */
  lemma PairsCharacterised(own: seq<EvaluationRow>)
    ensures forall p :: p in Pairs(own) <==> JoinsLastVisits(own, p)
    ensures DistinctLevels(Pairs(own)) && AscendingPairs(Pairs(own))
  {
    var ups, downs := Ups(own), Downs(own);
    var sorted := SortedByLoad(ups);
    UpsAreLastVisits(own);
    SortFacts(ups);
    SortDistinct(ups);
    SameMembers(sorted, ups);
    MatchedFacts(sorted, downs);
    hide Ups, Downs, SortedByLoad, Matched;
    forall p ensures p in Pairs(own) <==> JoinsLastVisits(own, p) {
      DownsAreLastVisits(own, p.rpsPerNode);
      FromRowIff(own, sorted, downs, p);
    }
  }

  lemma FromRowIff(own: seq<EvaluationRow>, sorted: seq<EvaluationRow>, downs: map<string, EvaluationRow>, p: Pair)
    requires forall x :: x in sorted <==> HoldsLast(own, Up, x)
    requires p.rpsPerNode in downs <==> LastVisit(own, Down, p.rpsPerNode) >= 0
    requires p.rpsPerNode in downs ==> downs[p.rpsPerNode] == own[LastVisit(own, Down, p.rpsPerNode)]
    ensures FromRow(sorted, downs, p) <==> JoinsLastVisits(own, p)
  {
    if FromRow(sorted, downs, p) {
      var i :| 0 <= i < |sorted| && sorted[i].rpsPerNode in downs
        && p == PairOf(sorted[i], downs[sorted[i].rpsPerNode]);
      assert sorted[i] in sorted;
      assert HoldsLast(own, Up, sorted[i]);
      assert p.rpsPerNode == sorted[i].rpsPerNode;
    }
    if JoinsLastVisits(own, p) {
      var u := own[LastVisit(own, Up, p.rpsPerNode)];
      assert HoldsLast(own, Up, u);
      assert u in sorted;
      var i :| 0 <= i < |sorted| && sorted[i] == u;
      assert p == PairOf(sorted[i], downs[sorted[i].rpsPerNode]);
    }
  }

  // ----- a mirrored staircase

  /** A climb to a single highest step `k` over distinct levels, and the same levels back down. */
  ghost predicate Staircase(steps: seq<seq<Rate>>, k: nat) {
    && k >= 1 && |steps| == 2 * k - 1
    && (forall j | 0 <= j < |steps| :: steps[j] != [] && steps[j] == steps[2 * k - 2 - j])
    && (forall j | 0 <= j < k - 1 :: Total(steps[j]) < Total(steps[k - 1]))
    && (forall i, j | 0 <= i < j < k - 1 :: steps[i] != steps[j])
  }

  ghost predicate Rising(steps: seq<seq<Rate>>, k: nat)
    requires k <= |steps|
  {
    forall i, j | 0 <= i < j < k :: Total(steps[i]) < Total(steps[j])
  }

  /** A configuration has one row for every scheduled step, in step order. */
  ghost predicate Complete(own: seq<EvaluationRow>, rows: seq<Row>) {
    && |own| == |rows|
    && forall j | 0 <= j < |own| ::
      && own[j].step == rows[j].step && own[j].leg == rows[j].leg
      && own[j].rpsPerNode == rows[j].rpsPerNode && own[j].offered == rows[j].totalRps
  }

  /** What the schedule of a staircase says about each row. */
  ghost predicate Visits(own: seq<EvaluationRow>, steps: seq<seq<Rate>>, k: nat) {
    && |own| == |steps|
    && forall j | 0 <= j < |own| ::
      && own[j].step == j + 1 && own[j].rpsPerNode == Ratio(steps[j]) && own[j].offered == Total(steps[j])
      && (own[j].leg == Up <==> j < k - 1)
      && (k > 1 ==> (own[j].leg == Down <==> j > k - 1))
  }

  lemma ScheduledVisits(own: seq<EvaluationRow>, rows: seq<Row>, steps: seq<seq<Rate>>,
                        stepSeconds: nat, warmup: nat, k: nat)
    requires Staircase(steps, k) && ScheduleOf(rows, steps, stepSeconds, warmup) && Complete(own, rows)
    ensures Visits(own, steps, k)
  {
    hide Total, Ratio;
    var peak: nat :| IsPeak(steps, peak) && RowsFor(rows, steps, stepSeconds, warmup, peak);
    forall j | 0 <= j < |steps| && j != k - 1 ensures k > 1 ==> Total(steps[j]) < Total(steps[k - 1]) {
      if j > k - 1 {
        assert steps[j] == steps[2 * k - 2 - j];
      }
    }
    if k > 1 {
      assert Total(steps[0]) < Total(steps[k - 1]);
      assert IsPeak(steps, k);
      PeakUnique(steps, k, peak);
    }
    forall j | 0 <= j < |own|
      ensures own[j].step == j + 1 && own[j].rpsPerNode == Ratio(steps[j]) && own[j].offered == Total(steps[j])
      ensures own[j].leg == Up <==> j < k - 1
      ensures k > 1 ==> (own[j].leg == Down <==> j > k - 1)
    {
      assert rows[j].leg == LegOf(j + 1, peak);
    }
  }

  /** Levels with equal spellings are equal levels. */
  lemma SameLevel(steps: seq<seq<Rate>>, k: nat, i: nat, j: nat)
    requires Staircase(steps, k) && i < k - 1 && j < k - 1
    requires Ratio(steps[i]) == Ratio(steps[j])
    ensures i == j
  {
    hide Ratio, Total;
    RatioInjective(steps[i], steps[j]);
  }

  lemma MirrorVisits(own: seq<EvaluationRow>, steps: seq<seq<Rate>>, k: nat, j: nat)
    requires Staircase(steps, k) && Visits(own, steps, k) && j < k - 1
    ensures LastVisit(own, Up, Ratio(steps[j])) == j
    ensures LastVisit(own, Down, Ratio(steps[j])) == 2 * k - 2 - j
  {
    var ratio := Ratio(steps[j]);
    var u, d := LastVisit(own, Up, ratio), LastVisit(own, Down, ratio);
    assert IsVisit(own[j], Up, ratio);
    assert IsVisit(own[2 * k - 2 - j], Down, ratio);
    SameLevel(steps, k, u, j);
    assert steps[d] == steps[2 * k - 2 - d];
    SameLevel(steps, k, 2 * k - 2 - d, j);
  }

  /** The pair of one step of the climb and its mirror image; positive differences mean that the way
      down was slower, or carried more. */
  ghost predicate Mirrors(own: seq<EvaluationRow>, k: nat, p: Pair)
    requires |own| == 2 * k - 1
  {
    && 1 <= p.upStep < k && p.downStep == 2 * k - p.upStep
    && Joins(p, own[p.upStep - 1], own[p.downStep - 1])
  }

  lemma JoinsIffMirrors(own: seq<EvaluationRow>, steps: seq<seq<Rate>>, k: nat, p: Pair)
    requires Staircase(steps, k) && Visits(own, steps, k)
    ensures JoinsLastVisits(own, p) <==> Mirrors(own, k, p)
  {
    hide Ratio, Total, LastVisit;
    if JoinsLastVisits(own, p) {
      var u := LastVisit(own, Up, p.rpsPerNode);
      assert IsVisit(own[u], Up, p.rpsPerNode);
      MirrorVisits(own, steps, k, u);
    }
    if Mirrors(own, k, p) {
      MirrorVisits(own, steps, k, p.upStep - 1);
    }
  }

  function UpSteps(pairs: seq<Pair>): (steps: seq<int>)
    ensures |steps| == |pairs|
  {
    seq(|pairs|, i requires 0 <= i < |pairs| => pairs[i].upStep)
  }

  lemma MirrorCount(own: seq<EvaluationRow>, steps: seq<seq<Rate>>, k: nat, pairs: seq<Pair>)
    requires Staircase(steps, k) && Visits(own, steps, k)
    requires DistinctLevels(pairs)
    requires forall p :: p in pairs <==> Mirrors(own, k, p)
    ensures |pairs| == k - 1
    ensures forall i, j | 0 <= i < j < |pairs| :: pairs[i].upStep != pairs[j].upStep
  {
    assert forall j | 0 <= j < |own| :: own[j].step == j + 1;
    hide Ratio, Total, Mirrors, PairOf;
    forall i, j | 0 <= i < j < |pairs| ensures pairs[i].upStep != pairs[j].upStep {
      assert pairs[i] in pairs && pairs[j] in pairs;
      SameStep(own, k, pairs[i], pairs[j]);
    }
    IntervalSize(1, k);
    forall s ensures s in UpSteps(pairs) <==> s in Interval(1, k) {
      StepCovered(own, k, pairs, s);
    }
    EnumerationLength(UpSteps(pairs), Interval(1, k));
  }

  lemma SameStep(own: seq<EvaluationRow>, k: nat, p: Pair, q: Pair)
    requires |own| == 2 * k - 1 && Mirrors(own, k, p) && Mirrors(own, k, q)
    ensures p.upStep == q.upStep ==> p == q
  {
  }

  lemma StepCovered(own: seq<EvaluationRow>, k: nat, pairs: seq<Pair>, s: int)
    requires |own| == 2 * k - 1 && forall j | 0 <= j < |own| :: own[j].step == j + 1
    requires forall p :: p in pairs <==> Mirrors(own, k, p)
    ensures s in UpSteps(pairs) <==> 1 <= s < k
  {
    if s in UpSteps(pairs) {
      var i :| 0 <= i < |pairs| && UpSteps(pairs)[i] == s;
      assert pairs[i] in pairs;
    }
    if 1 <= s < k {
      var p := PairOf(own[s - 1], own[2 * k - s - 1]);
      assert Mirrors(own, k, p);
      var i :| 0 <= i < |pairs| && pairs[i] == p;
      assert UpSteps(pairs)[i] == s;
    }
  }

  /** A strictly increasing list of `n` numbers between 1 and `n` is 1, 2, ..., n. */
  lemma IncreasingFills(s: seq<int>, n: nat, i: nat)
    requires |s| == n && i < n
    requires forall a, b | 0 <= a < b < n :: s[a] < s[b]
    requires forall a | 0 <= a < n :: 1 <= s[a] <= n
    ensures s[i] == i + 1
  {
    AtLeast(s, i);
    AtMost(s, i);
  }

  lemma {:induction false} AtLeast(s: seq<int>, i: nat)
    requires i < |s| && (forall a, b | 0 <= a < b < |s| :: s[a] < s[b]) && s[0] >= 1
    ensures s[i] >= i + 1
  {
    if i > 0 {
      AtLeast(s, i - 1);
    }
  }

  lemma {:induction false} AtMost(s: seq<int>, i: nat)
    requires i < |s| && (forall a, b | 0 <= a < b < |s| :: s[a] < s[b]) && s[|s| - 1] <= |s|
    ensures s[i] <= i + 1
    decreases |s| - i
  {
    if i + 1 < |s| {
      AtMost(s, i + 1);
    }
  }

  /** A staircase with `2k - 1` steps yields exactly `k - 1` pairs: each step of the climb once, with
      its mirror image, in ascending order of load; in step order if the climb rises strictly. */
  lemma StaircasePairs(own: seq<EvaluationRow>, rows: seq<Row>, steps: seq<seq<Rate>>,
                       stepSeconds: nat, warmup: nat, k: nat)
    requires Staircase(steps, k) && ScheduleOf(rows, steps, stepSeconds, warmup) && Complete(own, rows)
    ensures |Pairs(own)| == k - 1
    ensures forall i | 0 <= i < k - 1 :: Mirrors(own, k, Pairs(own)[i])
    ensures forall i, j | 0 <= i < j < k - 1 :: Pairs(own)[i].upStep != Pairs(own)[j].upStep
    ensures AscendingPairs(Pairs(own))
    ensures Rising(steps, k) ==> forall i | 0 <= i < k - 1 :: Joins(Pairs(own)[i], own[i], own[2 * k - 2 - i])
  {
    ScheduledVisits(own, rows, steps, stepSeconds, warmup, k);
    PairsCharacterised(own);
    var pairs := Pairs(own);
    forall p ensures p in pairs <==> Mirrors(own, k, p) {
      JoinsIffMirrors(own, steps, k, p);
    }
    MirrorCount(own, steps, k, pairs);
    forall i | 0 <= i < k - 1 ensures Mirrors(own, k, pairs[i]) {
      assert pairs[i] in pairs;
    }
    if Rising(steps, k) {
      RisingOrder(own, steps, k, pairs);
    }
  }

  lemma RisingOrder(own: seq<EvaluationRow>, steps: seq<seq<Rate>>, k: nat, pairs: seq<Pair>)
    requires Staircase(steps, k) && Visits(own, steps, k) && Rising(steps, k)
    requires |pairs| == k - 1 && AscendingPairs(pairs) && forall i | 0 <= i < k - 1 :: Mirrors(own, k, pairs[i])
    requires forall i, j | 0 <= i < j < |pairs| :: pairs[i].upStep != pairs[j].upStep
    ensures forall i | 0 <= i < k - 1 :: Joins(pairs[i], own[i], own[2 * k - 2 - i])
  {
    hide Ratio, Total;
    var ups := UpSteps(pairs);
    forall i, j | 0 <= i < j < k - 1 ensures ups[i] < ups[j] {
      assert pairs[i].offered <= pairs[j].offered;
      assert Mirrors(own, k, pairs[i]) && Mirrors(own, k, pairs[j]);
      assert pairs[i].offered == Total(steps[pairs[i].upStep - 1]);
      assert pairs[j].offered == Total(steps[pairs[j].upStep - 1]);
    }
    forall i | 0 <= i < k - 1 ensures Joins(pairs[i], own[i], own[2 * k - 2 - i]) {
      assert Mirrors(own, k, pairs[i]);
      IncreasingFills(ups, k - 1, i);
    }
  }
}
