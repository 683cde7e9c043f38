/** Where the first prober's arithmetic leaves the range it was meant for: underflowing ranges, and
    moduli above 100. */
module ReconcilerExtremes {
  import opened Collections
  import opened Float64
  import opened SlotMap
  import opened Reconciler
  import opened ReconcilerAllocation

  // ----- underflow

  /** For some order of its hosts the first range of the service ends below 0. */
  ghost predicate MayUnderflow(service: NftablesService, lookup: map<string, F64>) {
    exists hosts :: VisitsHosts(service, hosts) && Underflows(Rows(hosts, lookup))
  }

  lemma {:induction false} FirstHostRows(hosts: seq<HostRow>, lookup: map<string, F64>)
    requires hosts != []
    ensures HostRows(hosts[0], lookup) <= Rows(hosts, lookup)
    decreases |hosts|
  {
    hide HostRows;
    if |hosts| == 1 {
      assert hosts[..0] == [];
      assert Rows(hosts, lookup) == [] + HostRows(hosts[0], lookup);
    } else {
      FirstHostRows(hosts[..|hosts| - 1], lookup);
    }
  }

  /** Some order of the hosts begins with the given one. */
  lemma OrderFrom(service: NftablesService, h: string) returns (hosts: seq<HostRow>)
    requires h in service.endpointsByHost
    ensures VisitsHosts(service, hosts) && hosts != [] && hosts[0].host == h
  {
    var rest := AnOrder(service.endpointsByHost.Keys - {h});
    var names := [h] + rest;
    assert Enumerates(names, service.endpointsByHost.Keys);
    EnumerationLength(names, service.endpointsByHost.Keys);
    forall k | 0 <= k < |names| ensures names[k] in service.endpointsByHost {
      assert names[k] in names;
    }
    hosts := RestOf(service, names);
    assert HostNames(hosts)[0] == h;
  }

  /** Some visiting order underflows exactly when some scored host is due less than one slot for each of
      its backends: the order that visits such a host first. */
  lemma UnderflowIff(service: NftablesService, lookup: map<string, F64>, cpu: map<string, real>,
                     latency: map<string, real>)
    requires Divided(lookup, cpu, latency) && Populated(service)
    ensures MayUnderflow(service, lookup) <==> !Covered(service, lookup, cpu, latency)
  {
    PercentsAreShares(lookup, cpu, latency);
    if MayUnderflow(service, lookup) {
      var hosts: seq<HostRow> :| VisitsHosts(service, hosts) && Underflows(Rows(hosts, lookup));
      CoveredRows(service, hosts, lookup, cpu, latency);
      hide Rows, Divided, Covered;
    }
    if !Covered(service, lookup, cpu, latency) {
      var h :| h in ScoredOf(service, lookup)
        && Percent(lookup[h]) < |service.endpointsByHost[h]| as real;
      hide Divided, Percent, Covered, ScoreSum;
      var hosts := OrderFrom(service, h);
      UncoveredFirst(service, hosts, lookup);
    }
  }

  lemma UncoveredFirst(service: NftablesService, hosts: seq<HostRow>, lookup: map<string, F64>)
    requires VisitsHosts(service, hosts) && hosts != [] && Populated(service) && Finite(lookup)
    requires hosts[0].host in ScoredOf(service, lookup)
    requires Percent(lookup[hosts[0].host]) < |service.endpointsByHost[hosts[0].host]| as real
    ensures Underflows(Rows(hosts, lookup))
  {
    VisitFacts(service, hosts, lookup);
    var h := hosts[0];
    FloorLoss(lookup[h.host], |h.backends|);
    FirstHostRows(hosts, lookup);
    hide Rows, PortionEach, VisitsHosts, Percent;
    assert HostRows(h, lookup)[0].width == 0;
  }

  /** With no negative score nothing else can overflow. */
  lemma OverflowIff(service: NftablesService, lookup: map<string, F64>, cpu: map<string, real>,
                    latency: map<string, real>)
    requires Measured(lookup, cpu, latency) && Populated(service)
    ensures MayOverflow(service, lookup) <==> !Covered(service, lookup, cpu, latency)
  {
    UnderflowIff(service, lookup, cpu, latency);
    if MayUnderflow(service, lookup) {
      var hosts: seq<HostRow> :| VisitsHosts(service, hosts) && Underflows(Rows(hosts, lookup));
      assert Overflows(Rows(hosts, lookup));
    }
    if MayOverflow(service, lookup) {
      var hosts: seq<HostRow> :| VisitsHosts(service, hosts) && Overflows(Rows(hosts, lookup));
      TotalWithinHundred(service, hosts, lookup, cpu, latency);
      assert Underflows(Rows(hosts, lookup));
    }
  }

  lemma TotalWithinHundred(service: NftablesService, hosts: seq<HostRow>, lookup: map<string, F64>,
                           cpu: map<string, real>, latency: map<string, real>)
    requires Measured(lookup, cpu, latency) && Populated(service) && VisitsHosts(service, hosts)
    ensures Total(Rows(hosts, lookup)) <= 100
  {
    VisitFacts(service, hosts, lookup);
    ScoresAreShares(lookup, cpu, latency);
    var part, total := ScoreSum(ScoredOf(service, lookup), cpu, latency), ScoreSum(lookup.Keys, cpu, latency);
    SumMonotone(ScoredOf(service, lookup), lookup.Keys, cpu, latency);
    SumNonNegative(ScoredOf(service, lookup), cpu, latency);
    ShareWithinWhole(part, total, 100.0);
    PercentIsShare(hosts, lookup, cpu, latency);
    assert forall i | 0 <= i < |hosts| :: hosts[i].backends != [];
    hide *;
    ServiceLoss(hosts, lookup);
  }

  lemma {:induction false} ZeroSum(hosts: set<string>, cpu: map<string, real>, latency: map<string, real>)
    requires forall h | h in hosts :: HostScore(h, cpu, latency) == 0.0
    ensures ScoreSum(hosts, cpu, latency) == 0.0
    decreases hosts
  {
    if hosts != {} {
      var h :| h in hosts;
      SumWithout(hosts, h, cpu, latency);
      ZeroSum(hosts - {h}, cpu, latency);
    }
  }

  /** When every score is zero the percentages are not numbers, and every order of a service that has
      anything to distribute underflows at its first range. */
  lemma ZeroScoresUnderflow(service: NftablesService, hosts: seq<HostRow>, lookup: map<string, F64>,
                            cpu: map<string, real>, latency: map<string, real>)
    requires Normalised(lookup, cpu, latency) && forall h | h in lookup :: HostScore(h, cpu, latency) == 0.0
    requires VisitsHosts(service, hosts)
    ensures Rows(hosts, lookup) == [] || Underflows(Rows(hosts, lookup))
  {
    ZeroSum(lookup.Keys, cpu, latency);
    if Rows(hosts, lookup) != [] {
      var i, j := RowSource(hosts, lookup, 0);
      assert lookup[hosts[i].host] == NaN;
    }
  }

  // ----- moduli above 100

  /** What a set of hosts would get with a single backend each. */
  ghost function WholePercents(hosts: set<string>, lookup: map<string, F64>): nat
    requires hosts <= lookup.Keys
  {
    if hosts == {} then 0
    else
      var h :| h in hosts;
      WholePercents(hosts - {h}, lookup) + PortionEach(lookup[h], 1)
  }

  lemma {:induction false} WholeWithout(hosts: set<string>, x: string, lookup: map<string, F64>)
    requires hosts <= lookup.Keys && x in hosts
    ensures WholePercents(hosts, lookup) == WholePercents(hosts - {x}, lookup) + PortionEach(lookup[x], 1)
    decreases hosts
  {
    hide PortionEach;
    var h :| h in hosts
      && WholePercents(hosts, lookup) == WholePercents(hosts - {h}, lookup) + PortionEach(lookup[h], 1);
    if h != x {
      WholeWithout(hosts - {h}, x, lookup);
      WholeWithout(hosts - {x}, h, lookup);
      assert hosts - {h} - {x} == hosts - {x} - {h};
    }
  }

  lemma {:induction false} WholeMonotone(part: set<string>, whole: set<string>, lookup: map<string, F64>)
    requires part <= whole <= lookup.Keys
    ensures WholePercents(part, lookup) <= WholePercents(whole, lookup)
    decreases whole
  {
    hide PortionEach;
    if part != whole {
      var h :| h in whole && h !in part;
      WholeWithout(whole, h, lookup);
      WholeMonotone(part, whole - {h}, lookup);
    }
  }

  /** Splitting a host's portion over backends never makes it larger. */
  lemma SplitAtMostWhole(score: F64, n: nat)
    requires score.Fin? && n >= 1 && HostTotal(score, n) <= U32_MAX
    ensures HostTotal(score, n) <= PortionEach(score, 1)
  {
    assert HostTotal(score, n) == n * PortionEach(score, n);
    FloorLoss(score, n);
    FloorLoss(score, 1);
    WholeIsFloor(score);
    hide PortionEach, Percent, HostTotal;
  }

  lemma WholeIsFloor(score: F64)
    requires score.Fin?
    ensures PortionEach(score, 1) ==
      if Percent(score) < 1.0 then 0 else if Percent(score) >= U32_MAX as real then U32_MAX else Percent(score).Floor
  {
    var x := Times(score.v, 100.0);
    assert Quotient(x, 1.0) == x;
    CastFloor(x);
    hide Times, Quotient;
  }

  /** What the last host adds to the total of the rows. */
  lemma LastHostTotal(hosts: seq<HostRow>, lookup: map<string, F64>) returns (extra: nat)
    requires hosts != [] && Finite(lookup) && hosts[|hosts| - 1].backends != []
    ensures var init, last := hosts[..|hosts| - 1], hosts[|hosts| - 1];
      var whole := if last.host in lookup then PortionEach(lookup[last.host], 1) else 0;
      && Total(Rows(hosts, lookup)) == Total(Rows(init, lookup)) + extra
      && (extra <= U32_MAX ==> extra <= whole)
      && (|last.backends| == 1 ==> extra == whole)
  {
    var init, last := hosts[..|hosts| - 1], hosts[|hosts| - 1];
    assert init + [last] == hosts;
    HostAdded(init, last, lookup);
    hide *;
    if last.host in lookup {
      extra := HostTotal(lookup[last.host], |last.backends|);
      FiniteAt(lookup, last.host);
      HostTotalAtMostWhole(lookup[last.host], |last.backends|);
    } else {
      extra := 0;
    }
  }

  lemma FiniteAt(lookup: map<string, F64>, h: string)
    requires Finite(lookup) && h in lookup
    ensures lookup[h].Fin?
  {
  }

  lemma HostTotalAtMostWhole(score: F64, n: nat)
    requires score.Fin? && n >= 1
    ensures HostTotal(score, n) <= U32_MAX ==> HostTotal(score, n) <= PortionEach(score, 1)
    ensures n == 1 ==> HostTotal(score, n) == PortionEach(score, 1)
  {
    hide PortionEach;
    if HostTotal(score, n) <= U32_MAX {
      SplitAtMostWhole(score, n);
    }
  }

  /** The total of a service's rows against its hosts' whole percents. */
  lemma {:induction false} RowsAtMostWhole(hosts: seq<HostRow>, lookup: map<string, F64>)
    requires Finite(lookup) && Total(Rows(hosts, lookup)) <= U32_MAX
    requires forall i | 0 <= i < |hosts| :: hosts[i].backends != []
    requires forall i, j | 0 <= i < j < |hosts| :: hosts[i].host != hosts[j].host
    ensures Total(Rows(hosts, lookup)) <= WholePercents(ScoredHosts(hosts, lookup), lookup)
    decreases |hosts|
  {
    if hosts != [] {
      var extra := LastHostTotal(hosts, lookup);
      WholeOfLast(hosts, lookup);
      hide Rows, PortionEach, ScoredHosts, Total, WholePercents;
      RowsAtMostWhole(hosts[..|hosts| - 1], lookup);
    }
  }

  lemma WholeOfLast(hosts: seq<HostRow>, lookup: map<string, F64>)
    requires hosts != [] && forall i, j | 0 <= i < j < |hosts| :: hosts[i].host != hosts[j].host
    ensures var init, last := hosts[..|hosts| - 1], hosts[|hosts| - 1];
      WholePercents(ScoredHosts(hosts, lookup), lookup) == WholePercents(ScoredHosts(init, lookup), lookup)
        + if last.host in lookup then PortionEach(lookup[last.host], 1) else 0
  {
    hide PortionEach, WholePercents;
    var init, last := hosts[..|hosts| - 1], hosts[|hosts| - 1];
    var before, after := ScoredHosts(init, lookup), ScoredHosts(hosts, lookup);
    if last.host in lookup {
      assert after - {last.host} == before;
      WholeWithout(after, last.host, lookup);
    } else {
      assert after == before;
    }
  }

  lemma {:induction false} SinglesAreWhole(hosts: seq<HostRow>, lookup: map<string, F64>)
    requires Finite(lookup)
    requires forall i | 0 <= i < |hosts| :: |hosts[i].backends| == 1
    requires forall i, j | 0 <= i < j < |hosts| :: hosts[i].host != hosts[j].host
    ensures Total(Rows(hosts, lookup)) == WholePercents(ScoredHosts(hosts, lookup), lookup)
    decreases |hosts|
  {
    if hosts == [] {
      assert ScoredHosts(hosts, lookup) == {};
    } else {
      var extra := LastHostTotal(hosts, lookup);
      WholeOfLast(hosts, lookup);
      hide Rows, PortionEach, ScoredHosts, Total, WholePercents;
      SinglesAreWhole(hosts[..|hosts| - 1], lookup);
    }
  }

  /** Snapshots of the watcher's shape for which a pass with these averages and scores builds this batch. */
  ghost predicate Passes(services: Services, cpu: map<string, real>, latency: map<string, real>,
                         lookup: map<string, F64>, batch: seq<RulePair>) {
    && (forall n | n in services :: Populated(services[n]) && HostsDisjoint(services[n]))
    && !NothingMeasured(services, cpu, latency) && LookupOf(services, cpu, latency, lookup)
    && BatchOf(services, lookup, batch)
  }

  /** Some pass with these averages and scores builds a rule with a modulus above 100. */
  ghost predicate ExceedsHundred(cpu: map<string, real>, latency: map<string, real>, lookup: map<string, F64>) {
    exists services: Services, batch: seq<RulePair>, i ::
      Passes(services, cpu, latency, lookup, batch) && 0 <= i < |batch| && batch[i].modulo > 100
  }

  /** Hosts with at least one whole percent whose whole percents together fit a `u32` but not 100. */
  lemma {:induction false} FewHosts(hosts: set<string>, lookup: map<string, F64>) returns (few: set<string>)
    requires hosts <= lookup.Keys && WholePercents(hosts, lookup) > 100
    requires forall h | h in hosts :: PortionEach(lookup[h], 1) >= 1
    ensures few <= hosts && 100 < WholePercents(few, lookup) <= U32_MAX
    decreases hosts
  {
    assert forall h | h in hosts :: PortionEach(lookup[h], 1) <= U32_MAX;
    hide PortionEach;
    if WholePercents(hosts, lookup) <= U32_MAX {
      few := hosts;
    } else {
      var h :| h in hosts;
      WholeWithout(hosts, h, lookup);
      if WholePercents(hosts - {h}, lookup) > 100 {
        few := FewHosts(hosts - {h}, lookup);
      } else {
        few := {h};
        WholeWithout({h}, h, lookup);
        assert {h} - {h} == {};
        assert WholePercents({}, lookup) == 0;
      }
    }
  }

  lemma {:induction false} DropEmpty(hosts: set<string>, lookup: map<string, F64>) returns (due: set<string>)
    requires hosts <= lookup.Keys
    ensures due <= hosts && WholePercents(due, lookup) == WholePercents(hosts, lookup)
    ensures forall h | h in due :: PortionEach(lookup[h], 1) >= 1
    decreases hosts
  {
    hide PortionEach;
    if h :| h in hosts && PortionEach(lookup[h], 1) == 0 {
      WholeWithout(hosts, h, lookup);
      due := DropEmpty(hosts - {h}, lookup);
    } else {
      due := hosts;
    }
  }

  /** A snapshot with one backend on each of the given hosts. */
  function OneEach(hosts: set<string>): NftablesService {
    NftablesService("", 0, false, map h | h in hosts :: {h})
  }

  /** The snapshot of the given hosts and one host without averages, so that no pass skips it as too small. */
  lemma OneEachRanges(hosts: set<string>, extra: string, lookup: map<string, F64>) returns (verdicts: seq<Slot<string>>)
    requires Finite(lookup) && hosts <= lookup.Keys && WholePercents(hosts, lookup) <= U32_MAX
    requires forall h | h in hosts :: PortionEach(lookup[h], 1) >= 1
    requires extra !in lookup
    ensures RangesOf(OneEach(hosts + {extra}), lookup, verdicts, WholePercents(hosts, lookup))
  {
    var service := OneEach(hosts + {extra});
    var rows := OneEachVisit(hosts, extra, lookup);
    hide *;
    SinglesAreWhole(rows, lookup);
    SomeWidth(rows, lookup);
    verdicts := RangesThere(service, rows, lookup, WholePercents(hosts, lookup));
  }

  lemma RangesThere(service: NftablesService, hosts: seq<HostRow>, lookup: map<string, F64>, total: nat)
    returns (verdicts: seq<Slot<string>>)
    requires VisitsHosts(service, hosts)
    requires !Underflows(Rows(hosts, lookup)) && total == Total(Rows(hosts, lookup)) <= U32_MAX
    ensures RangesOf(service, lookup, verdicts, total)
  {
    hide VisitsHosts, Rows, Ranges, Total, Underflows;
    verdicts := Ranges(Rows(hosts, lookup));
    assert RangesAlong(hosts, lookup, verdicts, total);
  }

  lemma OneEachVisit(hosts: set<string>, extra: string, lookup: map<string, F64>) returns (rows: seq<HostRow>)
    requires hosts <= lookup.Keys && extra !in lookup
    ensures VisitsHosts(OneEach(hosts + {extra}), rows) && ScoredHosts(rows, lookup) == hosts
    ensures forall i | 0 <= i < |rows| :: rows[i].host in hosts + {extra} && |rows[i].backends| == 1
    ensures forall i, j | 0 <= i < j < |rows| :: rows[i].host != rows[j].host
  {
    var service := OneEach(hosts + {extra});
    rows := AnyVisit(service);
    OneEachHosts(hosts + {extra});
    assert ScoredOf(service, lookup) == hosts;
    hide VisitsHosts, ScoredHosts, ScoredOf, OneEach;
    VisitFacts(service, rows, lookup);
    forall i | 0 <= i < |rows| ensures |rows[i].backends| == 1 {
      assert |{rows[i].host}| == 1;
    }
  }

  lemma OneEachHosts(hosts: set<string>)
    ensures var service := OneEach(hosts);
      && service.endpointsByHost.Keys == hosts && !service.applied
      && forall h | h in hosts :: service.endpointsByHost[h] == {h}
    ensures Populated(OneEach(hosts)) && HostsDisjoint(OneEach(hosts))
  {
  }

  /** There are more host names than the finitely many known ones. */
  lemma {:induction false} FreshName(names: set<string>) returns (x: string)
    ensures forall n | n in names :: |n| < |x|
    decreases names
  {
    if names == {} {
      x := "";
    } else {
      var n :| n in names;
      x := FreshName(names - {n});
      if |x| <= |n| {
        x := n + "-";
      }
    }
  }

  lemma AnyVisit(service: NftablesService) returns (hosts: seq<HostRow>)
    ensures VisitsHosts(service, hosts)
  {
    var names := AnOrder(service.endpointsByHost.Keys);
    EnumerationLength(names, service.endpointsByHost.Keys);
    hide AnOrder;
    forall k | 0 <= k < |names| ensures names[k] in service.endpointsByHost {
      assert names[k] in names;
    }
    hosts := RestOf(service, names);
  }

  lemma SomeWidth(hosts: seq<HostRow>, lookup: map<string, F64>)
    requires forall i | 0 <= i < |hosts| :: |hosts[i].backends| == 1
    requires forall i | 0 <= i < |hosts| && hosts[i].host in lookup :: PortionEach(lookup[hosts[i].host], 1) >= 1
    ensures !Underflows(Rows(hosts, lookup))
  {
    if Rows(hosts, lookup) != [] {
      var i, j := RowSource(hosts, lookup, 0);
    }
  }

  /** A pass over the snapshot of `hosts` and `extra`, beside a snapshot of all scored hosts that an
      earlier pass has applied. */
  function Two(hosts: set<string>, extra: string, lookup: map<string, F64>): Services {
    map["few" := OneEach(hosts + {extra}), "all" := OneEach(lookup.Keys).(applied := true)]
  }

  lemma TwoScored(hosts: set<string>, extra: string, lookup: map<string, F64>, cpu: map<string, real>,
                  latency: map<string, real>)
    requires hosts != {} && hosts <= lookup.Keys <= cpu.Keys * latency.Keys && extra !in cpu
    ensures Scored(Two(hosts, extra, lookup), cpu, latency) == lookup.Keys
    ensures !NothingMeasured(Two(hosts, extra, lookup), cpu, latency)
  {
    TwoHostnames(hosts, extra, lookup);
    hide Hostnames, Two;
    var h :| h in hosts;
    assert h in cpu.Keys * latency.Keys;
    assert h in (lookup.Keys + {extra}) * cpu.Keys && h in (lookup.Keys + {extra}) * latency.Keys;
  }

  lemma TwoHostnames(hosts: set<string>, extra: string, lookup: map<string, F64>)
    requires hosts <= lookup.Keys
    ensures Hostnames(Two(hosts, extra, lookup)) == lookup.Keys + {extra}
  {
    var services := Two(hosts, extra, lookup);
    OneEachHosts(hosts + {extra});
    OneEachHosts(lookup.Keys);
    hide OneEach;
    assert services.Keys == {"few", "all"};
    forall h | h in lookup.Keys + {extra} ensures h in Hostnames(services) {
      assert h in services["all"].endpointsByHost || h in services["few"].endpointsByHost;
    }
  }

  /** A scored host beside another one is never too small. */
  lemma FewEmit(hosts: set<string>, extra: string, lookup: map<string, F64>)
    requires hosts != {} && hosts <= lookup.Keys && extra !in lookup
    ensures Emits(OneEach(hosts + {extra}), lookup.Keys)
  {
    var service := OneEach(hosts + {extra});
    OneEachHosts(hosts + {extra});
    hide OneEach;
    var h :| h in hosts;
    assert h in service.endpointsByHost && service.endpointsByHost[h] == {h};
    var others := service.endpointsByHost.Keys - {h};
    assert extra in others;
    assert |service.endpointsByHost.Keys| == |others| + 1;
  }

  /** The pass when a single service emits. */
  lemma SinglePair(services: Services, cpu: map<string, real>, latency: map<string, real>, lookup: map<string, F64>,
                   pair: RulePair)
    requires forall n | n in services :: Populated(services[n]) && HostsDisjoint(services[n])
    requires !NothingMeasured(services, cpu, latency) && LookupOf(services, cpu, latency, lookup)
    requires PairOf(services, lookup, pair)
    requires forall n | n in services && n != pair.name :: !Emits(services[n], lookup.Keys)
    ensures Passes(services, cpu, latency, lookup, [pair])
  {
    hide Emits, PairOf, Populated, HostsDisjoint, NothingMeasured, LookupOf;
    assert [pair][0] == pair;
    assert InBatch([pair], pair.name);
  }

  lemma TwoPair(hosts: set<string>, extra: string, lookup: map<string, F64>, verdicts: seq<Slot<string>>, modulo: nat)
    requires hosts != {} && hosts <= lookup.Keys && extra !in lookup
    requires RangesOf(OneEach(hosts + {extra}), lookup, verdicts, modulo)
    ensures PairOf(Two(hosts, extra, lookup), lookup, RulePair("few", "", 0, modulo, verdicts))
  {
    var service := OneEach(hosts + {extra});
    FewEmit(hosts, extra, lookup);
    OneEachHosts(hosts + {extra});
    assert service.id == "" && service.vmapHandle == 0;
    assert "few" in Two(hosts, extra, lookup) && Two(hosts, extra, lookup)["few"] == service;
    hide RangesOf, Emits, OneEach, Two;
    RangesEmpty(service, lookup, verdicts, modulo);
    var h :| h in hosts;
    assert h in service.endpointsByHost && h in lookup.Keys && service.endpointsByHost[h] != {};
  }

  lemma TwoShapes(hosts: set<string>, extra: string, lookup: map<string, F64>)
    ensures var services := Two(hosts, extra, lookup);
      && (forall n | n in services :: Populated(services[n]) && HostsDisjoint(services[n]))
      && forall n | n in services && n != "few" :: !Emits(services[n], lookup.Keys)
  {
    OneEachHosts(hosts + {extra});
    OneEachHosts(lookup.Keys);
    hide OneEach;
  }

  lemma TwoPass(hosts: set<string>, extra: string, lookup: map<string, F64>, cpu: map<string, real>,
                latency: map<string, real>, verdicts: seq<Slot<string>>, modulo: nat)
    requires hosts != {} && hosts <= lookup.Keys <= cpu.Keys * latency.Keys && extra !in cpu
    requires Normalised(lookup, cpu, latency) && RangesOf(OneEach(hosts + {extra}), lookup, verdicts, modulo)
    ensures Passes(Two(hosts, extra, lookup), cpu, latency, lookup, [RulePair("few", "", 0, modulo, verdicts)])
  {
    assert extra !in lookup by {
      assert lookup.Keys <= cpu.Keys;
    }
    hide RangesOf, Normalised, Scored, NothingMeasured, Populated, HostsDisjoint, Emits, PairOf, OneEach, Two, Passes;
    TwoScored(hosts, extra, lookup, cpu, latency);
    TwoShapes(hosts, extra, lookup);
    TwoPair(hosts, extra, lookup, verdicts, modulo);
    SinglePair(Two(hosts, extra, lookup), cpu, latency, lookup, RulePair("few", "", 0, modulo, verdicts));
  }

  /** With the averages and scores of a pass, some snapshots get a modulus above 100 exactly when the
      whole percents of the scored hosts, counting only positive ones, add up to more than 100. */
  lemma ExceedsHundredIff(cpu: map<string, real>, latency: map<string, real>, lookup: map<string, F64>)
    requires Divided(lookup, cpu, latency) && lookup.Keys <= cpu.Keys * latency.Keys
    ensures ExceedsHundred(cpu, latency, lookup) <==> WholePercents(lookup.Keys, lookup) > 100
  {
    PercentsAreShares(lookup, cpu, latency);
    if ExceedsHundred(cpu, latency, lookup) {
      var services: Services, batch: seq<RulePair>, i :|
        Passes(services, cpu, latency, lookup, batch) && 0 <= i < |batch| && batch[i].modulo > 100;
      assert PairOf(services, lookup, batch[i]);
      hide WholePercents, RangesOf, Emits, LookupOf, NothingMeasured, Populated, Finite, Divided;
      ModulusAtMostWhole(services[batch[i].name], lookup, batch[i].verdicts, batch[i].modulo);
    }
    if WholePercents(lookup.Keys, lookup) > 100 {
      assert WholePercents({}, lookup) == 0;
      hide WholePercents, PortionEach, Passes, Finite;
      var due := DropEmpty(lookup.Keys, lookup);
      var few := FewHosts(due, lookup);
      var extra := FreshName(cpu.Keys);
      var verdicts := OneEachRanges(few, extra, lookup);
      hide RangesOf, OneEach;
      TwoPass(few, extra, lookup, cpu, latency, verdicts, WholePercents(few, lookup));
      RuleExceeds(Two(few, extra, lookup), cpu, latency, lookup,
                  RulePair("few", "", 0, WholePercents(few, lookup), verdicts));
    }
  }

  lemma ModulusAtMostWhole(service: NftablesService, lookup: map<string, F64>, verdicts: seq<Slot<string>>, modulo: nat)
    requires Populated(service) && Finite(lookup) && RangesOf(service, lookup, verdicts, modulo)
    ensures modulo <= WholePercents(lookup.Keys, lookup)
  {
    var hosts: seq<HostRow> :| VisitsHosts(service, hosts) && RangesAlong(hosts, lookup, verdicts, modulo);
    VisitFacts(service, hosts, lookup);
    assert forall i | 0 <= i < |hosts| :: hosts[i].backends != [];
    hide VisitsHosts, Rows, WholePercents;
    RowsAtMostWhole(hosts, lookup);
    WholeMonotone(ScoredOf(service, lookup), lookup.Keys, lookup);
  }

  /** And that takes a negative score under a positive total, or the other way round: as long as no host's
      percentage is negative, all moduli stay within 100. */
  lemma ExceedingNeedsNegative(lookup: map<string, F64>, cpu: map<string, real>, latency: map<string, real>)
    requires Divided(lookup, cpu, latency) && ExceedsHundred(cpu, latency, lookup)
    ensures exists h | h in lookup :: Percent(lookup[h]) < 0.0
  {
    assert lookup.Keys <= cpu.Keys * latency.Keys;
    PercentsAreShares(lookup, cpu, latency);
    ExceedsHundredIff(cpu, latency, lookup);
    hide ExceedsHundred;
    var total := ScoreSum(lookup.Keys, cpu, latency);
    if forall h | h in lookup :: Percent(lookup[h]) >= 0.0 {
      hide Percent, ShareOf, PortionEach;
      WholeAtMostShare(lookup.Keys, lookup, cpu, latency);
      WholeShare(total, 100.0);
      assert false;
    }
  }

  lemma {:induction false} WholeAtMostShare(hosts: set<string>, lookup: map<string, F64>, cpu: map<string, real>,
                                            latency: map<string, real>)
    requires Divided(lookup, cpu, latency) && hosts <= lookup.Keys
    requires forall h | h in lookup :: Percent(lookup[h]) >= 0.0
    ensures WholePercents(hosts, lookup) as real
      <= ShareOf(ScoreSum(hosts, cpu, latency), ScoreSum(lookup.Keys, cpu, latency), 100.0)
    decreases hosts
  {
    var total := ScoreSum(lookup.Keys, cpu, latency);
    PercentsAreShares(lookup, cpu, latency);
    hide Percent, ShareOf, PortionEach, Divided;
    if hosts == {} {
      WholeShare(total, 100.0);
    } else {
      var h :| h in hosts;
      WholeWithout(hosts, h, lookup);
      SumWithout(hosts, h, cpu, latency);
      WholeAtMostShare(hosts - {h}, lookup, cpu, latency);
      SharesDistribute(ScoreSum(hosts - {h}, cpu, latency), HostScore(h, cpu, latency), total, 100.0);
      FloorLoss(lookup[h], 1);
    }
  }

  // ----- the modulus of one service

  /** The slots of a set of hosts of a service. */
  ghost function HostTotals(service: NftablesService, hosts: set<string>, lookup: map<string, F64>): nat
    requires hosts <= ScoredOf(service, lookup)
  {
    if hosts == {} then 0
    else
      var h :| h in hosts;
      HostTotals(service, hosts - {h}, lookup) + HostTotal(lookup[h], |service.endpointsByHost[h]|)
  }

  lemma {:induction false} TotalsWithout(service: NftablesService, hosts: set<string>, x: string,
                                         lookup: map<string, F64>)
    requires hosts <= ScoredOf(service, lookup) && x in hosts
    ensures HostTotals(service, hosts, lookup)
         == HostTotals(service, hosts - {x}, lookup) + HostTotal(lookup[x], |service.endpointsByHost[x]|)
    decreases hosts
  {
    hide HostTotal;
    var h :| h in hosts && HostTotals(service, hosts, lookup)
      == HostTotals(service, hosts - {h}, lookup) + HostTotal(lookup[h], |service.endpointsByHost[h]|);
    if h != x {
      TotalsWithout(service, hosts - {h}, x, lookup);
      TotalsWithout(service, hosts - {x}, h, lookup);
      assert hosts - {h} - {x} == hosts - {x} - {h};
    }
  }

  lemma {:induction false} RowsAreTotals(service: NftablesService, hosts: seq<HostRow>, lookup: map<string, F64>)
    requires forall i | 0 <= i < |hosts| :: hosts[i].host in service.endpointsByHost
    requires forall i | 0 <= i < |hosts| :: |hosts[i].backends| == |service.endpointsByHost[hosts[i].host]|
    requires forall i, j | 0 <= i < j < |hosts| :: hosts[i].host != hosts[j].host
    ensures ScoredHosts(hosts, lookup) <= ScoredOf(service, lookup)
    ensures Total(Rows(hosts, lookup)) == HostTotals(service, ScoredHosts(hosts, lookup), lookup)
    decreases |hosts|
  {
    if hosts == [] {
      assert ScoredHosts(hosts, lookup) == {};
    } else {
      var init, last := hosts[..|hosts| - 1], hosts[|hosts| - 1];
      assert init + [last] == hosts;
      HostAdded(init, last, lookup);
      hide Rows, PortionEach, HostTotal, HostTotals, Total, ScoredHosts;
      RowsAreTotals(service, init, lookup);
      TotalsOfLast(service, hosts, lookup);
    }
  }

  lemma TotalsOfLast(service: NftablesService, hosts: seq<HostRow>, lookup: map<string, F64>)
    requires hosts != [] && forall i | 0 <= i < |hosts| :: hosts[i].host in service.endpointsByHost
    requires forall i, j | 0 <= i < j < |hosts| :: hosts[i].host != hosts[j].host
    ensures ScoredHosts(hosts, lookup) <= ScoredOf(service, lookup)
    ensures ScoredHosts(hosts[..|hosts| - 1], lookup) <= ScoredOf(service, lookup)
    ensures var init, last := hosts[..|hosts| - 1], hosts[|hosts| - 1];
      HostTotals(service, ScoredHosts(hosts, lookup), lookup) == HostTotals(service, ScoredHosts(init, lookup), lookup)
        + if last.host in lookup then HostTotal(lookup[last.host], |service.endpointsByHost[last.host]|) else 0
  {
    hide HostTotal, HostTotals;
    var init, last := hosts[..|hosts| - 1], hosts[|hosts| - 1];
    var before, after := ScoredHosts(init, lookup), ScoredHosts(hosts, lookup);
    if last.host in lookup {
      assert after - {last.host} == before;
      TotalsWithout(service, after, last.host, lookup);
    } else {
      assert after == before;
    }
  }

  /** The modulus of a rule is the sum of its scored hosts' slots, in whatever order they were visited. */
  lemma ModulusIsTotals(service: NftablesService, lookup: map<string, F64>,
                        verdicts: seq<Slot<string>>, modulo: nat)
    requires RangesOf(service, lookup, verdicts, modulo)
    ensures modulo == HostTotals(service, ScoredOf(service, lookup), lookup)
  {
    var hosts: seq<HostRow> :| VisitsHosts(service, hosts) && RangesAlong(hosts, lookup, verdicts, modulo);
    VisitFacts(service, hosts, lookup);
    hide VisitsHosts, Rows, HostTotals;
    RowsAreTotals(service, hosts, lookup);
  }

  // ----- a host slower than its target

  const CPU := map["A" := 0.9, "B" := 0.5]
  const LATENCY := map["A" := 0.9, "B" := -1.5]

  function SlowLookup(): map<string, F64> {
    map["A" := Fin(2.25), "B" := Fin(-1.25)]
  }

  lemma SlowScores()
    ensures Divided(SlowLookup(), CPU, LATENCY) && HostScore("B", CPU, LATENCY) < 0.0
  {
    var hosts := SlowLookup().Keys;
    assert hosts == {"A", "B"};
    SumWithout(hosts, "A", CPU, LATENCY);
    SumWithout(hosts - {"A"}, "B", CPU, LATENCY);
    assert hosts - {"A"} - {"B"} == {};
    assert ScoreSum({}, CPU, LATENCY) == 0.0;
    assert HostScore("A", CPU, LATENCY) == 1.8 && HostScore("B", CPU, LATENCY) == -1.0;
    assert ScoreSum(hosts, CPU, LATENCY) == 0.8;
    hide ScoreSum, HostScore;
    assert Quotient(1.8, 0.8) == 2.25 && Quotient(-1.0, 0.8) == -1.25;
  }

  lemma SlowPortions()
    ensures PortionEach(Fin(2.25), 1) == 225 && PortionEach(Fin(-1.25), 1) == 0
  {
    WholeIsFloor(Fin(2.25));
    WholeIsFloor(Fin(-1.25));
    hide PortionEach;
  }

  function SlowService(): NftablesService {
    NftablesService("web", 7, false, map["A" := {"a"}, "B" := {"b"}])
  }

  function SlowRule(): RulePair {
    RulePair("web", "web", 7, 225, [Slot(0, 224, "a"), Slot(225, 224, "b")])
  }

  /** One host's latency average is negative because it misses its target: in the batch of a pass that
      visits it last, the other host alone receives more than the intended 100 slots, and the slow one
      an inverted range. */
  lemma SlowHostExceedsHundred()
    ensures HostScore("B", CPU, LATENCY) < 0.0
    ensures Passes(map["web" := SlowService()], CPU, LATENCY, SlowLookup(), [SlowRule()])
    ensures ExceedsHundred(CPU, LATENCY, SlowLookup())
  {
    hide *;
    SlowPass(map["web" := SlowService()], SlowRule());
    SlowScores();
    SlowFields();
    RuleExceeds(map["web" := SlowService()], CPU, LATENCY, SlowLookup(), SlowRule());
  }

  lemma RuleExceeds(services: Services, cpu: map<string, real>, latency: map<string, real>, lookup: map<string, F64>,
                    pair: RulePair)
    requires Passes(services, cpu, latency, lookup, [pair]) && pair.modulo > 100
    ensures ExceedsHundred(cpu, latency, lookup)
  {
    hide Passes;
    assert [pair][0].modulo > 100;
  }

  lemma SlowPass(services: Services, rule: RulePair)
    requires services == map["web" := SlowService()] && rule == SlowRule()
    ensures Passes(services, CPU, LATENCY, SlowLookup(), [rule])
  {
    hide *;
    SlowLookupOf();
    SlowShape();
    SlowScored();
    SlowPair();
    SlowFields();
    SinglePair(services, CPU, LATENCY, SlowLookup(), rule);
  }

  lemma SlowFields()
    ensures SlowRule().name == "web" && SlowRule().modulo == 225
  {
  }

  lemma SlowLookupOf()
    ensures LookupOf(map["web" := SlowService()], CPU, LATENCY, SlowLookup())
  {
    hide SlowService, SlowLookup, Scored, Normalised, ScoreSum;
    SlowScores();
    SlowScored();
  }

  lemma SlowPair()
    ensures PairOf(map["web" := SlowService()], SlowLookup(), SlowRule())
  {
    SlowVisit();
    SlowRows();
    SlowRanges();
    SlowScored();
    hide VisitsHosts, Rows, Ranges, Total, Overflows, Scored, NothingMeasured, Emits;
    SlowAlong([HostRow("A", ["a"]), HostRow("B", ["b"])]);
    hide RangesOf;
  }

  lemma SlowScored()
    ensures Scored(map["web" := SlowService()], CPU, LATENCY) == SlowLookup().Keys
    ensures !NothingMeasured(map["web" := SlowService()], CPU, LATENCY)
    ensures Emits(SlowService(), SlowLookup().Keys)
  {
    var services := map["web" := SlowService()];
    assert "A" in services["web"].endpointsByHost && "B" in services["web"].endpointsByHost;
    assert Hostnames(services) == {"A", "B"};
    assert "A" in Hostnames(services) * CPU.Keys && "A" in Hostnames(services) * LATENCY.Keys;
    assert SlowService().endpointsByHost.Keys == {"A", "B"};
    assert |SlowService().endpointsByHost| == 2;
    assert SlowService().endpointsByHost["A"] == {"a"};
  }

  lemma SlowAlong(hosts: seq<HostRow>)
    requires VisitsHosts(SlowService(), hosts)
    requires var rows := Rows(hosts, SlowLookup());
      !Overflows(rows) && SlowRule().verdicts == Ranges(rows) && Total(rows) == 225
    ensures RangesOf(SlowService(), SlowLookup(), SlowRule().verdicts, 225)
  {
    hide VisitsHosts, Rows, Ranges, Total, Overflows;
    assert RangesAlong(hosts, SlowLookup(), SlowRule().verdicts, 225);
  }

  lemma SlowRanges()
    ensures var rows := [Row("a", 225), Row("b", 0)];
      Ranges(rows) == [Slot(0, 224, "a"), Slot(225, 224, "b")] && Total(rows) == 225 && !Overflows(rows)
  {
    var rows := [Row("a", 225), Row("b", 0)];
    assert rows[..1] == [Row("a", 225)] && rows[..1][..0] == [];
    assert Total(rows[..1]) == 225 && Total(rows) == 225;
    assert Ranges(rows[..1]) == [Slot(0, 224, "a")];
    assert Ranges(rows) == [Slot(0, 224, "a")] + [Slot(225, 224, "b")];
  }

  lemma SlowVisit()
    ensures VisitsHosts(SlowService(), [HostRow("A", ["a"]), HostRow("B", ["b"])])
  {
    var hosts := [HostRow("A", ["a"]), HostRow("B", ["b"])];
    assert SlowService().endpointsByHost.Keys == {"A", "B"};
    assert HostNames(hosts) == ["A", "B"];
    assert BackendsOf(SlowService(), hosts[0]) && BackendsOf(SlowService(), hosts[1]);
    hide BackendsOf, HostNames;
  }

  lemma SlowShape()
    ensures Populated(SlowService()) && HostsDisjoint(SlowService())
  {
  }

  lemma SlowRows()
    ensures Rows([HostRow("A", ["a"]), HostRow("B", ["b"])], SlowLookup()) == [Row("a", 225), Row("b", 0)]
  {
    SlowPortions();
    hide PortionEach;
    var hosts := [HostRow("A", ["a"]), HostRow("B", ["b"])];
    assert hosts[..1] == [HostRow("A", ["a"])] && hosts[..1][..0] == [];
    assert HostRows(hosts[0], SlowLookup()) == [Row("a", 225)] && HostRows(hosts[1], SlowLookup()) == [Row("b", 0)];
    assert Rows(hosts[..1], SlowLookup()) == [Row("a", 225)];
  }
}
