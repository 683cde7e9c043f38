/** What the first prober's verdict maps mean: when the ranges partition the drawn numbers, how much
    every backend receives, and how far the floors keep a service below its share of 100. */
module ReconcilerAllocation {
  import opened Collections
  import opened Float64
  import opened SlotMap
  import opened Reconciler

  // ----- ranges of a list of rows

  lemma {:induction false} RangeAt(rows: seq<Row>, k: nat)
    requires k < |rows|
    ensures |Ranges(rows)| == |rows|
    ensures Ranges(rows)[k] == Slot(Total(rows[..k]), Total(rows[..k]) + rows[k].width - 1, rows[k].backend)
    decreases |rows|
  {
    RangesLength(rows);
    var init := rows[..|rows| - 1];
    RangesLength(init);
    if k < |init| {
      RangeAt(init, k);
      assert init[..k] == rows[..k];
    }
  }

  ghost predicate Positive(rows: seq<Row>) {
    forall k | 0 <= k < |rows| :: rows[k].width >= 1
  }

  /** The ranges partition the modulus exactly when no backend's portion was floored to nothing. */
  lemma {:induction false} PartitionIff(rows: seq<Row>)
    ensures Partitions(Ranges(rows), Total(rows)) <==> Positive(rows)
  {
    RangesLength(rows);
    forall k | 0 <= k < |rows|
      ensures Ranges(rows)[k].lo == Total(rows[..k]) && Ranges(rows)[k].hi == Total(rows[..k + 1]) - 1
      ensures Ranges(rows)[k].Width() == rows[k].width
    {
      RangeAt(rows, k);
      assert rows[..k + 1][..k] == rows[..k];
    }
    assert rows[..|rows|] == rows;
    hide Ranges;
    if Partitions(Ranges(rows), Total(rows)) {
      forall k | 0 <= k < |rows| ensures rows[k].width >= 1 {
        assert Ranges(rows)[k].lo <= Ranges(rows)[k].hi;
      }
    }
  }

  // ----- which row belongs to which backend

  lemma {:induction false} RowSource(hosts: seq<HostRow>, lookup: map<string, F64>, k: nat) returns (i: nat, j: nat)
    requires k < |Rows(hosts, lookup)|
    ensures i < |hosts| && hosts[i].host in lookup && j < |hosts[i].backends|
    ensures Rows(hosts, lookup)[k] ==
      Row(hosts[i].backends[j], PortionEach(lookup[hosts[i].host], |hosts[i].backends|))
    decreases |hosts|
  {
    hide PortionEach;
    var init := hosts[..|hosts| - 1];
    if k < |Rows(init, lookup)| {
      i, j := RowSource(init, lookup, k);
    } else {
      i, j := |init|, k - |Rows(init, lookup)|;
    }
  }

  lemma {:induction false} RowTarget(hosts: seq<HostRow>, lookup: map<string, F64>, i: nat, j: nat) returns (k: nat)
    requires i < |hosts| && hosts[i].host in lookup && j < |hosts[i].backends|
    ensures k < |Rows(hosts, lookup)|
    ensures Rows(hosts, lookup)[k] ==
      Row(hosts[i].backends[j], PortionEach(lookup[hosts[i].host], |hosts[i].backends|))
    decreases |hosts|
  {
    hide PortionEach;
    var init := hosts[..|hosts| - 1];
    if i < |init| {
      k := RowTarget(init, lookup, i, j);
    } else {
      k := |Rows(init, lookup)| + j;
    }
  }

  // ----- one host's portion

  /** The score share of a host as a percentage, `0.0` for a score that is not a number. */
  function Percent(score: F64): real {
    if score.Fin? then score.v * 100.0 else 0.0
  }

  /** For any finite share, however the signs of the scores fall: flooring loses everything exactly when
      the percentage is smaller than the number of backends, and never adds anything; it loses less than
      one slot per backend unless the percentage is beyond the range of `u32`. */
  lemma FloorLoss(score: F64, n: nat)
    requires score.Fin? && n >= 1
    ensures PortionEach(score, n) >= 1 <==> Percent(score) >= n as real
    ensures (n * PortionEach(score, n)) as real <= (if Percent(score) >= 0.0 then Percent(score) else 0.0)
    ensures 0.0 <= Percent(score) < U32_MAX as real ==>
      Percent(score) - (n * PortionEach(score, n)) as real < n as real
  {
    var x, m := Times(score.v, 100.0), n as real;
    assert Percent(score) == x;
    hide Times, Quotient;
    var q, w := Quotient(x, m), PortionEach(score, n);
    QuotientSpan(x, m);
    assert w == CastU32(Fin(q.Floor as real));
    hide Percent, PortionEach;
    CastFloor(q);
    hide *;
    assert (n * w) as real == w as real * m;
    FloorCases(x, q, m, n * w, w);
  }

  lemma FloorCases(x: real, q: real, m: real, nw: int, w: int)
    requires m >= 1.0 && q * m == x && nw as real == w as real * m
    requires w == if q < 1.0 then 0 else if q >= U32_MAX as real then U32_MAX else q.Floor
    ensures w >= 1 <==> x >= m
    ensures nw as real <= if x >= 0.0 then x else 0.0
    ensures 0.0 <= x < U32_MAX as real ==> x - nw as real < m
  {
    if q < 1.0 {
      assert w as real * m == 0.0;
      SpanBelowOne(q, m, x);
    } else {
      FloorSpread(x, q, m, nw, w);
      ProductNonNegative(q, m - 1.0);
      assert q * (m - 1.0) == x - q;
    }
  }

  lemma CastFloor(q: real)
    ensures CastU32(Fin(q.Floor as real)) ==
      if q < 1.0 then 0 else if q >= U32_MAX as real then U32_MAX else q.Floor
  {
  }

  lemma QuotientSpan(x: real, m: real)
    requires m >= 1.0
    ensures Quotient(x, m) * m == x
    ensures x >= 0.0 ==> 0.0 <= Quotient(x, m) <= x
  {
    var q := x / m;
    assert q * m == x;
    if x >= 0.0 {
      assert q >= 0.0;
      ProductNonNegative(q, m - 1.0);
      assert q * (m - 1.0) == x - q;
    }
  }

  lemma SpanBelowOne(q: real, m: real, x: real)
    requires m >= 1.0 && q < 1.0 && q * m == x
    ensures x < m
  {
    ProductPositive(1.0 - q, m);
    assert (1.0 - q) * m == m - x;
  }

  lemma FloorSpread(x: real, q: real, m: real, nw: int, w: int)
    requires m >= 1.0 && q >= 1.0 && q * m == x && nw as real == w as real * m && 1 <= w && w as real <= q
    ensures x >= m && nw as real <= x
    ensures q < w as real + 1.0 ==> x - nw as real < m
  {
    var r := q - w as real;
    assert r * m == x - nw as real;
    ProductNonNegative(r, m);
    ProductNonNegative(q - 1.0, m);
    assert (q - 1.0) * m == x - m;
    if r < 1.0 {
      ProductPositive(1.0 - r, m);
      assert (1.0 - r) * m == m - r * m;
    }
  }

  // ----- a service's share

  /** The summed percentages of the scored hosts of a service, along a visiting order. */
  function PercentSum(hosts: seq<HostRow>, lookup: map<string, F64>): real {
    if hosts == [] then 0.0
    else
      var last := hosts[|hosts| - 1];
      PercentSum(hosts[..|hosts| - 1], lookup) + (if last.host in lookup then Percent(lookup[last.host]) else 0.0)
  }

  ghost predicate Share(score: F64) {
    score.Fin? && 0.0 <= score.v <= 1.0
  }

  ghost predicate Shares(lookup: map<string, F64>) {
    forall h | h in lookup :: Share(lookup[h])
  }

  ghost predicate Finite(lookup: map<string, F64>) {
    forall h | h in lookup :: lookup[h].Fin?
  }

  /** Over a whole service the floors lose less than one slot for every range. */
  lemma {:induction false} ServiceLoss(hosts: seq<HostRow>, lookup: map<string, F64>)
    requires Shares(lookup)
    requires forall i | 0 <= i < |hosts| :: hosts[i].backends != []
    ensures 0.0 <= PercentSum(hosts, lookup) - Total(Rows(hosts, lookup)) as real <= |Rows(hosts, lookup)| as real
    ensures Rows(hosts, lookup) != [] ==>
      PercentSum(hosts, lookup) - Total(Rows(hosts, lookup)) as real < |Rows(hosts, lookup)| as real
    decreases |hosts|
  {
    if hosts != [] {
      var init, last := hosts[..|hosts| - 1], hosts[|hosts| - 1];
      ServiceLoss(init, lookup);
      if last.host in lookup {
        var n := |last.backends|;
        var each := PortionEach(lookup[last.host], n);
        assert Share(lookup[last.host]);
        FloorLoss(lookup[last.host], n);
        EqualRowsTotal(last.backends, each);
        RowsConcat(Rows(init, lookup), HostRows(last, lookup));
        var before, more := Rows(init, lookup), HostRows(last, lookup);
        assert Rows(hosts, lookup) == before + more && |more| == n;
        assert Total(more) == each * n == n * each;
        assert PercentSum(hosts, lookup) == PercentSum(init, lookup) + Percent(lookup[last.host]);
        hide *;
        assert Total(before + more) as real == Total(before) as real + (n * each) as real;
      } else {
        assert Rows(hosts, lookup) == Rows(init, lookup);
      }
    }
  }

  /** `Rows` is all positive exactly when every scored host's percentage covers its backends. */
  lemma PositiveIff(hosts: seq<HostRow>, lookup: map<string, F64>)
    requires Finite(lookup)
    requires forall i | 0 <= i < |hosts| :: hosts[i].backends != []
    ensures Positive(Rows(hosts, lookup)) <==>
      forall i | 0 <= i < |hosts| && hosts[i].host in lookup ::
        Percent(lookup[hosts[i].host]) >= |hosts[i].backends| as real
  {
    forall i | 0 <= i < |hosts| && hosts[i].host in lookup
      ensures PortionEach(lookup[hosts[i].host], |hosts[i].backends|) >= 1 <==>
        Percent(lookup[hosts[i].host]) >= |hosts[i].backends| as real
    {
      FloorLoss(lookup[hosts[i].host], |hosts[i].backends|);
    }
    hide PortionEach, Percent, Rows;
    var rows := Rows(hosts, lookup);
    if Positive(rows) {
      forall i | 0 <= i < |hosts| && hosts[i].host in lookup
        ensures PortionEach(lookup[hosts[i].host], |hosts[i].backends|) >= 1
      {
        var k := RowTarget(hosts, lookup, i, 0);
        assert rows[k].width >= 1;
      }
    } else {
      var k :| 0 <= k < |rows| && rows[k].width < 1;
      var i, j := RowSource(hosts, lookup, k);
    }
  }

  // ----- normalised scores are shares of one

  lemma {:induction false} SumNonNegative(hosts: set<string>, cpu: map<string, real>, latency: map<string, real>)
    requires forall h | h in hosts :: HostScore(h, cpu, latency) >= 0.0
    ensures ScoreSum(hosts, cpu, latency) >= 0.0
    decreases hosts
  {
    if hosts != {} {
      var h :| h in hosts;
      SumWithout(hosts, h, cpu, latency);
      SumNonNegative(hosts - {h}, cpu, latency);
    }
  }

  lemma {:induction false} SumMonotone(part: set<string>, whole: set<string>, cpu: map<string, real>,
                                       latency: map<string, real>)
    requires part <= whole && forall h | h in whole :: HostScore(h, cpu, latency) >= 0.0
    ensures ScoreSum(part, cpu, latency) <= ScoreSum(whole, cpu, latency)
    decreases whole
  {
    if part == whole {
    } else {
      var h :| h in whole && h !in part;
      SumWithout(whole, h, cpu, latency);
      SumMonotone(part, whole - {h}, cpu, latency);
    }
  }

  /** The scores were divided by a total other than 0. */
  ghost predicate Divided(lookup: map<string, F64>, cpu: map<string, real>, latency: map<string, real>) {
    Normalised(lookup, cpu, latency) && ScoreSum(lookup.Keys, cpu, latency) != 0.0
  }

  /** No host is so much slower than its target that its score is negative. */
  ghost predicate NoneNegative(lookup: map<string, F64>, cpu: map<string, real>, latency: map<string, real>) {
    forall h | h in lookup :: HostScore(h, cpu, latency) >= 0.0
  }

  ghost predicate Measured(lookup: map<string, F64>, cpu: map<string, real>, latency: map<string, real>) {
    Divided(lookup, cpu, latency) && NoneNegative(lookup, cpu, latency)
  }

  /** A percentage is the host's share of 100, of either sign. */
  lemma PercentsAreShares(lookup: map<string, F64>, cpu: map<string, real>,
                          latency: map<string, real>)
    requires Divided(lookup, cpu, latency)
    ensures Finite(lookup)
    ensures forall h | h in lookup ::
      Percent(lookup[h]) == ShareOf(HostScore(h, cpu, latency), ScoreSum(lookup.Keys, cpu, latency), 100.0)
  {
    var total := ScoreSum(lookup.Keys, cpu, latency);
    forall h | h in lookup
      ensures lookup[h].Fin? && Percent(lookup[h]) == ShareOf(HostScore(h, cpu, latency), total, 100.0)
    {
      assert lookup[h] == Fin(Quotient(HostScore(h, cpu, latency), total));
    }
  }

  lemma ScoresAreShares(lookup: map<string, F64>, cpu: map<string, real>, latency: map<string, real>)
    requires Measured(lookup, cpu, latency)
    ensures Shares(lookup) && ScoreSum(lookup.Keys, cpu, latency) > 0.0
  {
    var total := ScoreSum(lookup.Keys, cpu, latency);
    SumNonNegative(lookup.Keys, cpu, latency);
    forall h | h in lookup ensures Share(lookup[h]) {
      SumWithout(lookup.Keys, h, cpu, latency);
      SumNonNegative(lookup.Keys - {h}, cpu, latency);
      ShareWithinWhole(HostScore(h, cpu, latency), total, 1.0);
      assert lookup[h] == Fin(Quotient(HostScore(h, cpu, latency), total));
    }
  }

  /** The scored hosts of a service. */
  ghost function ScoredHosts(hosts: seq<HostRow>, lookup: map<string, F64>): set<string> {
    set i | 0 <= i < |hosts| && hosts[i].host in lookup :: hosts[i].host
  }

  lemma {:induction false} PercentIsShare(hosts: seq<HostRow>, lookup: map<string, F64>,
                                          cpu: map<string, real>, latency: map<string, real>)
    requires Divided(lookup, cpu, latency)
    requires forall i, j | 0 <= i < j < |hosts| :: hosts[i].host != hosts[j].host
    ensures PercentSum(hosts, lookup)
         == ShareOf(ScoreSum(ScoredHosts(hosts, lookup), cpu, latency), ScoreSum(lookup.Keys, cpu, latency), 100.0)
    decreases |hosts|
  {
    var total := ScoreSum(lookup.Keys, cpu, latency);
    if hosts == [] {
      hide Percent, ShareOf;
      assert ScoredHosts(hosts, lookup) == {};
      assert ScoreSum({}, cpu, latency) == 0.0;
      WholeShare(total, 100.0);
    } else {
      var init, last := hosts[..|hosts| - 1], hosts[|hosts| - 1];
      PercentsAreShares(lookup, cpu, latency);
      var own := if last.host in lookup then Percent(lookup[last.host]) else 0.0;
      assert PercentSum(hosts, lookup) == PercentSum(init, lookup) + own;
      hide Percent, ShareOf, PercentSum, ScoreSum, HostScore, Normalised;
      PercentIsShare(init, lookup, cpu, latency);
      SumOfLast(hosts, lookup, cpu, latency);
      hide ScoredHosts, Divided;
      if last.host in lookup {
        var before := ScoreSum(ScoredHosts(init, lookup), cpu, latency);
        SharesDistribute(before, HostScore(last.host, cpu, latency), total, 100.0);
      }
    }
  }

  lemma SumOfLast(hosts: seq<HostRow>, lookup: map<string, F64>, cpu: map<string, real>,
                  latency: map<string, real>)
    requires hosts != [] && forall i, j | 0 <= i < j < |hosts| :: hosts[i].host != hosts[j].host
    ensures var init, last := hosts[..|hosts| - 1], hosts[|hosts| - 1];
      ScoreSum(ScoredHosts(hosts, lookup), cpu, latency) == ScoreSum(ScoredHosts(init, lookup), cpu, latency)
        + if last.host in lookup then HostScore(last.host, cpu, latency) else 0.0
  {
    hide HostScore, ScoreSum;
    var init, last := hosts[..|hosts| - 1], hosts[|hosts| - 1];
    var before, after := ScoredHosts(init, lookup), ScoredHosts(hosts, lookup);
    if last.host in lookup {
      assert after - {last.host} == before;
      SumWithout(after, last.host, cpu, latency);
    } else {
      assert after == before;
    }
  }

  // ----- the service, whatever the visiting order

  ghost function ScoredOf(service: NftablesService, lookup: map<string, F64>): set<string> {
    service.endpointsByHost.Keys * lookup.Keys
  }

  /** Every host of the snapshot has a backend; the watcher only creates such hosts. */
  ghost predicate Populated(service: NftablesService) {
    forall h | h in service.endpointsByHost :: service.endpointsByHost[h] != {}
  }

  /** No backend is listed under two hosts. */
  ghost predicate HostsDisjoint(service: NftablesService) {
    forall h, h', b | h in service.endpointsByHost && h' in service.endpointsByHost
      && b in service.endpointsByHost[h] && b in service.endpointsByHost[h'] :: h == h'
  }

  /** Slots that each backend of a host is meant to get. */
  function Each(service: NftablesService, lookup: map<string, F64>, h: string): nat
    requires h in service.endpointsByHost && h in lookup
  {
    PortionEach(lookup[h], |service.endpointsByHost[h]|)
  }

  lemma VisitFacts(service: NftablesService, hosts: seq<HostRow>, lookup: map<string, F64>)
    requires VisitsHosts(service, hosts)
    ensures forall i | 0 <= i < |hosts| ::
      && hosts[i].host in service.endpointsByHost
      && |hosts[i].backends| == |service.endpointsByHost[hosts[i].host]|
      && forall b :: b in hosts[i].backends <==> b in service.endpointsByHost[hosts[i].host]
    ensures forall i, j | 0 <= i < j < |hosts| :: hosts[i].host != hosts[j].host
    ensures ScoredHosts(hosts, lookup) == ScoredOf(service, lookup)
    ensures forall h | h in service.endpointsByHost :: exists i | 0 <= i < |hosts| :: hosts[i].host == h
  {
    var names := HostNames(hosts);
    forall i | 0 <= i < |hosts|
      ensures hosts[i].host in service.endpointsByHost
      ensures Enumerates(hosts[i].backends, service.endpointsByHost[hosts[i].host])
      ensures |hosts[i].backends| == |service.endpointsByHost[hosts[i].host]|
    {
      assert BackendsOf(service, hosts[i]);
      EnumerationLength(hosts[i].backends, service.endpointsByHost[hosts[i].host]);
    }
    forall i, j | 0 <= i < j < |hosts| ensures hosts[i].host != hosts[j].host {
      assert names[i] != names[j];
    }
    forall h | h in service.endpointsByHost ensures exists i | 0 <= i < |hosts| :: hosts[i].host == h {
      assert h in names;
      var i :| 0 <= i < |names| && names[i] == h;
      assert hosts[i].host == h;
    }
  }

  /** The modulus falls short of the service's share of 100 by less than one slot for every range,
      and never exceeds it. */
  lemma ModulusNearShare(service: NftablesService, lookup: map<string, F64>, cpu: map<string, real>,
                         latency: map<string, real>, verdicts: seq<Slot<string>>, modulo: nat)
    requires Measured(lookup, cpu, latency) && Populated(service)
    requires RangesOf(service, lookup, verdicts, modulo)
    ensures var share := ShareOf(ScoreSum(ScoredOf(service, lookup), cpu, latency),
                                 ScoreSum(lookup.Keys, cpu, latency), 100.0);
      && modulo as real <= share <= 100.0
      && (verdicts != [] ==> share - modulo as real < |verdicts| as real)
  {
    var hosts: seq<HostRow> :| VisitsHosts(service, hosts) && RangesAlong(hosts, lookup, verdicts, modulo);
    hide Overflows;
    VisitFacts(service, hosts, lookup);
    ScoresAreShares(lookup, cpu, latency);
    var part, total := ScoreSum(ScoredOf(service, lookup), cpu, latency), ScoreSum(lookup.Keys, cpu, latency);
    SumMonotone(ScoredOf(service, lookup), lookup.Keys, cpu, latency);
    SumNonNegative(ScoredOf(service, lookup), cpu, latency);
    ShareWithinWhole(part, total, 100.0);
    RangesLength(Rows(hosts, lookup));
    PercentIsShare(hosts, lookup, cpu, latency);
    assert Populated(service) ==> forall i | 0 <= i < |hosts| :: hosts[i].backends != [];
    hide *;
    ServiceLoss(hosts, lookup);
  }

  /** Some range of the given width goes to this backend. */
  ghost predicate HasRange(verdicts: seq<Slot<string>>, backend: string, width: nat) {
    exists k | 0 <= k < |verdicts| :: verdicts[k].target == backend && verdicts[k].Width() == width
  }

  /** The range goes to a backend of a scored host and is that host's equal portion wide. */
  ghost predicate IsPortion(service: NftablesService, lookup: map<string, F64>, slot: Slot<string>) {
    exists h | h in ScoredOf(service, lookup) ::
      slot.target in service.endpointsByHost[h] && slot.Width() == Each(service, lookup, h)
  }

  lemma RangesAreRows(rows: seq<Row>)
    ensures |Ranges(rows)| == |rows|
    ensures forall k | 0 <= k < |rows| ::
      Ranges(rows)[k].target == rows[k].backend && Ranges(rows)[k].Width() == rows[k].width
  {
    RangesLength(rows);
    forall k | 0 <= k < |rows|
      ensures Ranges(rows)[k].target == rows[k].backend && Ranges(rows)[k].Width() == rows[k].width
    {
      RangeAt(rows, k);
    }
  }

  /** Every backend of a scored host has a range of its host's equal portion, and every range is one. */
  lemma RangePerBackend(service: NftablesService, lookup: map<string, F64>,
                        verdicts: seq<Slot<string>>, modulo: nat)
    requires RangesOf(service, lookup, verdicts, modulo)
    ensures forall h, b | h in ScoredOf(service, lookup) && b in service.endpointsByHost[h] ::
      HasRange(verdicts, b, Each(service, lookup, h))
    ensures forall k | 0 <= k < |verdicts| :: IsPortion(service, lookup, verdicts[k])
  {
    var hosts: seq<HostRow> :| VisitsHosts(service, hosts) && RangesAlong(hosts, lookup, verdicts, modulo);
    hide Overflows;
    VisitFacts(service, hosts, lookup);
    RangesAreRows(Rows(hosts, lookup));
    hide RangesOf, VisitsHosts, PortionEach, Rows, Ranges, Total, IsPortion, HasRange;
    forall h, b | h in ScoredOf(service, lookup) && b in service.endpointsByHost[h]
      ensures HasRange(verdicts, b, Each(service, lookup, h))
    {
      var i :| 0 <= i < |hosts| && hosts[i].host == h;
      BackendRange(hosts, lookup, i, b);
    }
    forall k | 0 <= k < |verdicts| ensures IsPortion(service, lookup, verdicts[k]) {
      var i, j := RowSource(hosts, lookup, k);
      PortionWitness(service, lookup, verdicts[k], hosts[i].host);
    }
  }

  lemma BackendRange(hosts: seq<HostRow>, lookup: map<string, F64>, i: nat, b: string)
    requires i < |hosts| && hosts[i].host in lookup && b in hosts[i].backends
    ensures HasRange(Ranges(Rows(hosts, lookup)), b, PortionEach(lookup[hosts[i].host], |hosts[i].backends|))
  {
    hide PortionEach, Rows, Ranges;
    var j :| 0 <= j < |hosts[i].backends| && hosts[i].backends[j] == b;
    var k := RowTarget(hosts, lookup, i, j);
    RangesAreRows(Rows(hosts, lookup));
    assert Ranges(Rows(hosts, lookup))[k].target == b;
  }

  lemma PortionWitness(service: NftablesService, lookup: map<string, F64>, slot: Slot<string>, h: string)
    requires h in ScoredOf(service, lookup) && slot.target in service.endpointsByHost[h]
    requires slot.Width() == Each(service, lookup, h)
    ensures IsPortion(service, lookup, slot)
  {
    hide Each;
  }

  ghost predicate Distinct(s: seq<string>) {
    forall a, b | 0 <= a < b < |s| :: s[a] != s[b]
  }

  ghost predicate Apart(s: seq<string>, t: seq<string>) {
    forall x | x in s :: x !in t
  }

  ghost predicate BackendsApart(hosts: seq<HostRow>) {
    && (forall i | 0 <= i < |hosts| :: Distinct(hosts[i].backends))
    && (forall i, j | 0 <= i < j < |hosts| :: Apart(hosts[i].backends, hosts[j].backends))
  }

  ghost predicate DistinctRows(rows: seq<Row>) {
    forall k, l | 0 <= k < l < |rows| :: rows[k].backend != rows[l].backend
  }

  lemma DistinctConcat(a: seq<Row>, b: seq<Row>)
    requires DistinctRows(a) && DistinctRows(b)
    requires forall k, l | 0 <= k < |a| && 0 <= l < |b| :: a[k].backend != b[l].backend
    ensures DistinctRows(a + b)
  {
  }

  lemma {:induction false} RowsDistinct(hosts: seq<HostRow>, lookup: map<string, F64>)
    requires BackendsApart(hosts)
    ensures DistinctRows(Rows(hosts, lookup))
    decreases |hosts|
  {
    hide PortionEach;
    if hosts != [] {
      var init, last := hosts[..|hosts| - 1], hosts[|hosts| - 1];
      RowsDistinct(init, lookup);
      if last.host in lookup {
        var before, more := Rows(init, lookup), HostRows(last, lookup);
        assert Rows(hosts, lookup) == before + more;
        assert Distinct(last.backends) && DistinctRows(more);
        forall k, l | 0 <= k < |before| && 0 <= l < |more| ensures before[k].backend != more[l].backend {
          var i, j := RowSource(init, lookup, k);
          assert Apart(hosts[i].backends, last.backends) && init[i] == hosts[i];
          assert before[k].backend in hosts[i].backends && more[l].backend in last.backends;
        }
        hide *;
        DistinctConcat(before, more);
      }
    }
  }

  /** A backend that belongs to one host only has only one range, so its draws are all it gets. */
  lemma OneRangeEach(service: NftablesService, lookup: map<string, F64>,
                     verdicts: seq<Slot<string>>, modulo: nat)
    requires RangesOf(service, lookup, verdicts, modulo) && HostsDisjoint(service)
    ensures forall k, l | 0 <= k < l < |verdicts| :: verdicts[k].target != verdicts[l].target
  {
    var hosts: seq<HostRow> :| VisitsHosts(service, hosts) && RangesAlong(hosts, lookup, verdicts, modulo);
    hide Overflows;
    hide Rows, Ranges, Total;
    VisitFacts(service, hosts, lookup);
    forall i | 0 <= i < |hosts| ensures Distinct(hosts[i].backends) {
      assert BackendsOf(service, hosts[i]);
    }
    hide VisitsHosts;
    forall i, j | 0 <= i < j < |hosts| ensures Apart(hosts[i].backends, hosts[j].backends) {
      forall x | x in hosts[i].backends ensures x !in hosts[j].backends {
        assert x in service.endpointsByHost[hosts[i].host];
      }
    }
    hide Apart, Distinct, HostsDisjoint;
    RowsDistinct(hosts, lookup);
    RangesAreRows(Rows(hosts, lookup));
  }

  /** Every scored host of the service is due at least one slot for each of its backends. */
  ghost predicate Covered(service: NftablesService, lookup: map<string, F64>, cpu: map<string, real>,
                          latency: map<string, real>)
    requires ScoreSum(lookup.Keys, cpu, latency) != 0.0
  {
    forall h | h in ScoredOf(service, lookup) ::
      ShareOf(HostScore(h, cpu, latency), ScoreSum(lookup.Keys, cpu, latency), 100.0)
        >= |service.endpointsByHost[h]| as real
  }

  lemma CoveredRows(service: NftablesService, hosts: seq<HostRow>, lookup: map<string, F64>,
                    cpu: map<string, real>, latency: map<string, real>)
    requires Divided(lookup, cpu, latency) && Populated(service) && VisitsHosts(service, hosts)
    ensures Covered(service, lookup, cpu, latency) <==> Positive(Rows(hosts, lookup))
  {
    VisitFacts(service, hosts, lookup);
    PercentsAreShares(lookup, cpu, latency);
    assert forall i | 0 <= i < |hosts| :: hosts[i].backends != [];
    PositiveIff(hosts, lookup);
    hide Divided, Percent, ShareOf, Rows, Positive, VisitsHosts, ScoreSum, HostScore, Finite, Populated;
    if Covered(service, lookup, cpu, latency) {
      forall i | 0 <= i < |hosts| && hosts[i].host in lookup
        ensures Percent(lookup[hosts[i].host]) >= |hosts[i].backends| as real
      {
        assert hosts[i].host in ScoredOf(service, lookup);
      }
    }
    if Positive(Rows(hosts, lookup)) {
      forall h | h in ScoredOf(service, lookup)
        ensures ShareOf(HostScore(h, cpu, latency), ScoreSum(lookup.Keys, cpu, latency), 100.0)
          >= |service.endpointsByHost[h]| as real
      {
        var i :| 0 <= i < |hosts| && hosts[i].host == h;
        assert Percent(lookup[hosts[i].host]) >= |hosts[i].backends| as real;
      }
    }
  }

  /** The ranges partition the modulus exactly when every scored host's percentage is at least its
      number of backends; then every backend is drawn exactly as often as its range is wide. */
  lemma DrawsAreWidths(service: NftablesService, lookup: map<string, F64>, cpu: map<string, real>,
                       latency: map<string, real>, verdicts: seq<Slot<string>>, modulo: nat)
    requires Divided(lookup, cpu, latency) && Populated(service)
    requires RangesOf(service, lookup, verdicts, modulo)
    ensures Partitions(verdicts, modulo) <==> Covered(service, lookup, cpu, latency)
    ensures Partitions(verdicts, modulo) ==> forall k | 0 <= k < |verdicts| ::
      |Draws(verdicts[k], modulo)| == verdicts[k].Width() >= 1
  {
    var hosts: seq<HostRow> :| VisitsHosts(service, hosts) && RangesAlong(hosts, lookup, verdicts, modulo);
    hide Overflows;
    if Partitions(verdicts, modulo) {
      forall k | 0 <= k < |verdicts| ensures |Draws(verdicts[k], modulo)| == verdicts[k].Width() >= 1 {
        FullModulusDraws(verdicts, modulo, k);
      }
    }
    hide *;
    PartitionIff(Rows(hosts, lookup));
    CoveredRows(service, hosts, lookup, cpu, latency);
  }
}
