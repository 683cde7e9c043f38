/** The scheduler extender: node scoring, the CPU penalty of the node that was picked, and the cache
    that keeps the penalty alive across refreshes for a limited time. */
module Extender {
  import opened Collections

  datatype ScoreData = ScoreData(hostname: string, cpu: real, latency: real)

  datatype Penalty = Penalty(cpu: real, applied: int)

  datatype Config = Config(weightLatency: real, weightCPU: real, weightTraffic: real, scaleFactor: real,
                           warmupThreshold: real, vmPenalty: real, rpiPenalty: real)

  datatype HostPriority = HostPriority(host: string, score: int)

  /** What the mutex protects; clock readings are in nanoseconds. */
  datatype Cache = Cache(proberScores: map<string, ScoreData>, lastPenalized: map<string, Penalty>)

  /** One fetched score and the clock when the refresh loop looks at it. */
  datatype Reading = Reading(score: ScoreData, now: int)

  const FIFTEEN_SECONDS: int := 15_000_000_000

  // ----- scoring

  /** `math.Round` of a number that is not negative. */
  function RoundHalfUp(x: real): int {
    (x + 0.5).Floor
  }

  function ClampScore(s: real): (score: int)
    ensures 0 <= score <= 100
  {
    RoundHalfUp(if s < 0.0 then 0.0 else if s > 100.0 then 100.0 else s)
  }

  function Weighted(data: ScoreData, traffic: real, config: Config): real {
    (config.weightLatency * data.latency + config.weightCPU * data.cpu + config.weightTraffic * traffic)
    * config.scaleFactor
  }

  function ScoreNode(node: string, proberData: map<string, ScoreData>, trafficNorm: map<string, real>,
                     config: Config): (score: int)
    ensures 0 <= score <= 100
  {
    if node !in proberData then 0
    else ClampScore(Weighted(proberData[node], if node in trafficNorm then trafficNorm[node] else 0.0, config))
  }

  predicate Contains(text: string, part: string) {
    exists i | 0 <= i <= |text| :: part <= text[i..]
  }

  function PenaltyOf(node: string, config: Config): real {
    if Contains(node, "vm") then config.vmPenalty else config.rpiPenalty
  }

  function ApplyCPUPenalty(node: string, cpu: real, config: Config): real {
    var penalized := cpu - PenaltyOf(node, config);
    if penalized < 0.0 then 0.0 else penalized
  }

  // ----- the cache

  /** One iteration of the refresh loop. */
  function Refreshed(cache: Cache, reading: Reading): Cache {
    var s, host := reading.score, reading.score.hostname;
    if host !in cache.lastPenalized then cache.(proberScores := cache.proberScores[host := s])
    else if reading.now - cache.lastPenalized[host].applied < FIFTEEN_SECONDS then
      cache.(proberScores := cache.proberScores[host := s.(cpu := cache.lastPenalized[host].cpu)])
    else
      Cache(cache.proberScores[host := s], cache.lastPenalized - {host})
  }

  function AllRefreshed(cache: Cache, readings: seq<Reading>): Cache {
    if readings == [] then cache
    else Refreshed(AllRefreshed(cache, readings[..|readings| - 1]), readings[|readings| - 1])
  }

  function Penalized(cache: Cache, node: string, now: int, config: Config): Cache {
    if node !in cache.proberScores then cache
    else
      var cpu := ApplyCPUPenalty(node, cache.proberScores[node].cpu, config);
      Cache(cache.proberScores[node := cache.proberScores[node].(cpu := cpu)],
            cache.lastPenalized[node := Penalty(cpu, now)])
  }

  // ----- picking a node

  /** The nodes that score above zero, in request order. */
  function Priorities(nodes: seq<string>, cache: Cache, traffic: map<string, real>, config: Config): seq<HostPriority> {
    if nodes == [] then []
    else
      var init, last := Priorities(nodes[..|nodes| - 1], cache, traffic, config), nodes[|nodes| - 1];
      var score := ScoreNode(last, cache.proberScores, traffic, config);
      if score > 0 then init + [HostPriority(last, score)] else init
  }

  /** The first of the best entries, "" if there is none. */
  ghost predicate IsBest(priorities: seq<HostPriority>, best: string) {
    if priorities == [] then best == ""
    else exists k | 0 <= k < |priorities| :: FirstBest(priorities, k) && best == priorities[k].host
  }

  ghost predicate FirstBest(priorities: seq<HostPriority>, k: int) {
    && 0 <= k < |priorities|
    && (forall j | 0 <= j < |priorities| :: priorities[j].score <= priorities[k].score)
    && (forall j | 0 <= j < k :: priorities[j].score < priorities[k].score)
  }

  /** The best entry, if there is one, is penalised, and nothing else changes. */
  ghost predicate BestPenalized(before: Cache, after: Cache, priorities: seq<HostPriority>, now: int, config: Config) {
    exists best :: IsBest(priorities, best) && after == PenalizedIfAny(before, best, now, config)
  }

  function PenalizedIfAny(cache: Cache, best: string, now: int, config: Config): Cache {
    if best == "" then cache else Penalized(cache, best, now, config)
  }

  /** The state of the extender; a request handler runs these methods one lock at a time. */
  class SchedulerExtender {
    var proberScores: map<string, ScoreData>
    var lastPenalized: map<string, Penalty>
    var cachedTraffic: map<string, real>
    var cachedTrafficNorm: map<string, real>
    const config: Config

    constructor (config: Config)
      ensures this.config == config && Contents() == Cache(map[], map[])
      ensures cachedTraffic == map[] && cachedTrafficNorm == map[]
    {
      this.config := config;
      proberScores, lastPenalized, cachedTraffic, cachedTrafficNorm := map[], map[], map[], map[];
    }

    ghost function Contents(): Cache
      reads this
    {
      Cache(proberScores, lastPenalized)
    }

    /** `None` is a failed query or fetch; an empty name means that no node has traffic. */
    method RefreshProberData(topNode: Option<string>, fetched: Option<seq<Reading>>)
      modifies this`proberScores, this`lastPenalized
      ensures Contents() ==
        if topNode.Some? && topNode.value != "" && fetched.Some? then AllRefreshed(old(Contents()), fetched.value)
        else old(Contents())
    {
      if topNode == None || topNode.value == "" {
        return;
      }
      if fetched == None {
        return;
      }
      var scores := fetched.value;
      for i := 0 to |scores|
        invariant Contents() == AllRefreshed(old(Contents()), scores[..i])
      {
        assert scores[..i + 1][..i] == scores[..i];
        var s := scores[i].score;
        if s.hostname in lastPenalized {
          var p := lastPenalized[s.hostname];
          if scores[i].now - p.applied < FIFTEEN_SECONDS {
            s := s.(cpu := p.cpu);
          } else {
            lastPenalized := lastPenalized - {s.hostname};
          }
        }
        proberScores := proberScores[s.hostname := s];
      }
      assert scores[..|scores|] == scores;
    }

    /** The two traffic maps come from two queries and change together or not at all. */
    method RefreshTrafficData(traffic: Option<map<string, real>>, normalized: Option<map<string, real>>)
      modifies this`cachedTraffic, this`cachedTrafficNorm
      ensures traffic.Some? && normalized.Some? ==>
        cachedTraffic == traffic.value && cachedTrafficNorm == normalized.value
      ensures traffic.None? || normalized.None? ==>
        cachedTraffic == old(cachedTraffic) && cachedTrafficNorm == old(cachedTrafficNorm)
    {
      if traffic == None {
        return;
      }
      if normalized == None {
        return;
      }
      cachedTraffic := traffic.value;
      cachedTrafficNorm := normalized.value;
    }

    method ApplyPenalty(bestNode: string, now: int)
      modifies this`proberScores, this`lastPenalized
      ensures Contents() == Penalized(old(Contents()), bestNode, now, config)
    {
      if bestNode !in proberScores {
        return;
      }
      var ps := proberScores[bestNode];
      ps := ps.(cpu := ApplyCPUPenalty(bestNode, ps.cpu, config));
      proberScores := proberScores[bestNode := ps];
      lastPenalized := lastPenalized[bestNode := Penalty(ps.cpu, now)];
    }

    /** The scoring loop. */
    method ScoreNodes(nodes: seq<string>) returns (priorities: seq<HostPriority>, bestNode: string)
      ensures priorities == Priorities(nodes, Contents(), cachedTrafficNorm, config)
      ensures IsBest(priorities, bestNode)
    {
      priorities, bestNode := [], "";
      var bestScore := 0;
      ghost var best := -1;
      for i := 0 to |nodes|
        invariant priorities == Priorities(nodes[..i], Contents(), cachedTrafficNorm, config)
        invariant forall j | 0 <= j < |priorities| :: 0 < priorities[j].score <= bestScore
        invariant if priorities == [] then bestScore == 0 && bestNode == ""
                  else FirstBest(priorities, best) && HostPriority(bestNode, bestScore) == priorities[best]
      {
        assert nodes[..i + 1][..i] == nodes[..i];
        var node := nodes[i];
        if node !in proberScores {
          continue;
        }
        var score := ScoreNode(node, proberScores, cachedTrafficNorm, config);
        if score <= 0 {
          continue;
        }
        priorities := priorities + [HostPriority(node, score)];
        if score > bestScore {
          bestNode, bestScore, best := node, score, |priorities| - 1;
        }
      }
      assert nodes[..|nodes|] == nodes;
    }

    /** One score request that no other request interleaves with. */
    method HandleScore(nodes: seq<string>, topNode: Option<string>, fetched: Option<seq<Reading>>,
                       traffic: Option<map<string, real>>, normalized: Option<map<string, real>>, now: int)
      returns (priorities: seq<HostPriority>)
      modifies this
      ensures var cache := if topNode.Some? && topNode.value != "" && fetched.Some?
          then AllRefreshed(old(Contents()), fetched.value) else old(Contents());
        && priorities == Priorities(nodes, cache, cachedTrafficNorm, config)
        && BestPenalized(cache, Contents(), priorities, now, config)
      ensures cachedTrafficNorm ==
        if traffic.Some? && normalized.Some? then normalized.value else old(cachedTrafficNorm)
    {
      RefreshProberData(topNode, fetched);
      RefreshTrafficData(traffic, normalized);
      ghost var cache := Contents();
      var bestNode;
      priorities, bestNode := ScoreNodes(nodes);
      if bestNode != "" {
        ApplyPenalty(bestNode, now);
      }
      assert IsBest(priorities, bestNode) && Contents() == PenalizedIfAny(cache, bestNode, now, config);
    }
  }

  // ----- runs

  /** One critical section. */
  datatype Act = Refresh(readings: seq<Reading>) | Penalize(node: string, now: int)

  function Step(cache: Cache, act: Act, config: Config): Cache {
    match act
    case Refresh(readings) => AllRefreshed(cache, readings)
    case Penalize(node, now) => Penalized(cache, node, now, config)
  }

  function Run(cache: Cache, acts: seq<Act>, config: Config): Cache {
    if acts == [] then cache else Step(Run(cache, acts[..|acts| - 1], config), acts[|acts| - 1], config)
  }

  /** A remembered penalty is the CPU score in use. */
  ghost predicate Consistent(cache: Cache) {
    forall n | n in cache.lastPenalized ::
      n in cache.proberScores && cache.proberScores[n].cpu == cache.lastPenalized[n].cpu
  }

  lemma {:induction false} RefreshConsistent(cache: Cache, readings: seq<Reading>)
    requires Consistent(cache)
    ensures Consistent(AllRefreshed(cache, readings))
    ensures forall n | n in cache.proberScores :: n in AllRefreshed(cache, readings).proberScores
    decreases |readings|
  {
    if readings != [] {
      RefreshConsistent(cache, readings[..|readings| - 1]);
    }
  }

  /** After every critical section of every run that starts without penalties, as the warmed-up server
      does, the node of each remembered penalty is cached with exactly the penalised CPU score. */
  lemma {:induction false} AlwaysConsistent(cache: Cache, acts: seq<Act>, config: Config)
    requires cache.lastPenalized == map[]
    ensures Consistent(Run(cache, acts, config))
    decreases |acts|
  {
    if acts != [] {
      AlwaysConsistent(cache, acts[..|acts| - 1], config);
      RunConsistent(Run(cache, acts[..|acts| - 1], config), acts[|acts| - 1], config);
    }
  }

  lemma RunConsistent(cache: Cache, act: Act, config: Config)
    requires Consistent(cache)
    ensures Consistent(Step(cache, act, config))
  {
    if act.Refresh? {
      RefreshConsistent(cache, act.readings);
    }
  }

  // ----- penalties add up

  predicate Penalizes(act: Act, node: string) {
    act.Penalize? && act.node == node
  }

  function Penalties(acts: seq<Act>, node: string): nat {
    if acts == [] then 0
    else Penalties(acts[..|acts| - 1], node) + (if Penalizes(acts[|acts| - 1], node) then 1 else 0)
  }

  /** Index of the latest penalty of a node, -1 if there is none. */
  function LastPenalty(acts: seq<Act>, node: string): (i: int)
    ensures -1 <= i < |acts|
    ensures i >= 0 ==> Penalizes(acts[i], node)
    ensures forall j | i < j < |acts| :: !Penalizes(acts[j], node)
  {
    if acts == [] then -1
    else if Penalizes(acts[|acts| - 1], node) then |acts| - 1
    else
      var i := LastPenalty(acts[..|acts| - 1], node);
      i
  }

  /** Every clock reading of the act is at most `time`. */
  ghost predicate NoLater(act: Act, time: int) {
    match act
    case Refresh(readings) => forall i | 0 <= i < |readings| :: readings[i].now <= time
    case Penalize(_, now) => now <= time
  }

  /** The clock never runs backwards: an act before a penalty reads no later time. */
  ghost predicate Clocked(acts: seq<Act>) {
    forall i, j | 0 <= i < j < |acts| && acts[j].Penalize? :: NoLater(acts[i], acts[j].now)
  }

  /** Each penalty of the node but the first comes less than 15 seconds after the one before it. */
  ghost predicate Spaced(acts: seq<Act>, node: string) {
    forall i | 0 <= i < |acts| && Penalizes(acts[i], node) ::
      var before := LastPenalty(acts[..i], node);
      before >= 0 ==> acts[i].now - acts[before].now < FIFTEEN_SECONDS
  }

  /** What is left of `c` after `k` penalties. */
  function Level(c: real, k: nat, penalty: real): real {
    var x := c - k as real * penalty;
    if x < 0.0 then 0.0 else x
  }

  /** The node stands at `cpu`, by a penalty applied at time `applied`. */
  ghost predicate StandsAt(cache: Cache, node: string, cpu: real, applied: int) {
    && node in cache.proberScores && cache.proberScores[node].cpu == cpu
    && node in cache.lastPenalized && cache.lastPenalized[node] == Penalty(cpu, applied)
  }

  lemma {:induction false} RefreshKeeps(cache: Cache, readings: seq<Reading>, node: string, cpu: real, applied: int)
    requires StandsAt(cache, node, cpu, applied)
    requires forall i | 0 <= i < |readings| :: readings[i].now - applied < FIFTEEN_SECONDS
    ensures StandsAt(AllRefreshed(cache, readings), node, cpu, applied)
    decreases |readings|
  {
    if readings != [] {
      RefreshKeeps(cache, readings[..|readings| - 1], node, cpu, applied);
    }
  }

  /** A penalty that follows, with no other of the same node in between. */
  lemma {:induction false} NextPenalty(acts: seq<Act>, node: string, i: nat) returns (j: nat)
    requires i < |acts| && Penalizes(acts[|acts| - 1], node) && !Penalizes(acts[i], node)
    ensures i < j < |acts| && Penalizes(acts[j], node)
    ensures LastPenalty(acts[..j], node) == LastPenalty(acts[..i], node)
    decreases |acts| - i
  {
    assert acts[..i + 1][..i] == acts[..i];
    assert LastPenalty(acts[..i + 1], node) == LastPenalty(acts[..i], node);
    if Penalizes(acts[i + 1], node) {
      j := i + 1;
    } else {
      j := NextPenalty(acts, node, i + 1);
    }
  }

  /** The node stands where the penalties so far put it. */
  ghost predicate Stacked(cache: Cache, acts: seq<Act>, node: string, c: real, penalty: real) {
    && Penalties(acts, node) >= 1 && LastPenalty(acts, node) >= 0
    && StandsAt(cache, node, Level(c, Penalties(acts, node), penalty), acts[LastPenalty(acts, node)].now)
  }

  lemma PenalizeStacks(cache: Cache, acts: seq<Act>, act: Act, node: string, config: Config, c: real)
    requires act.Penalize? && Stacked(cache, acts, node, c, PenaltyOf(node, config))
    requires c >= 0.0 || PenaltyOf(node, config) >= 0.0
    ensures Stacked(Step(cache, act, config), acts + [act], node, c, PenaltyOf(node, config))
  {
    assert (acts + [act])[..|acts|] == acts;
    var k, p := Penalties(acts, node), PenaltyOf(node, config);
    NextLevel(c, k, p);
    hide Level, PenaltyOf;
  }

  lemma NextLevel(c: real, k: nat, p: real)
    requires k >= 1 && (c >= 0.0 || p >= 0.0)
    ensures var x := Level(c, k, p) - p; Level(c, k + 1, p) == if x < 0.0 then 0.0 else x
  {
    assert (k + 1) as real * p == k as real * p + p;
    assert p >= 0.0 ==> (k + 1) as real * p >= 0.0;
    assert p <= 0.0 ==> (k + 1) as real * p <= 0.0 && k as real * p <= 0.0;
  }

  lemma RefreshStacks(cache: Cache, acts: seq<Act>, i: nat, node: string, config: Config, c: real)
    requires i < |acts| && acts[i].Refresh? && Penalizes(acts[|acts| - 1], node)
    requires Clocked(acts) && Spaced(acts, node)
    requires Stacked(cache, acts[..i], node, c, PenaltyOf(node, config))
    ensures Stacked(Step(cache, acts[i], config), acts[..i + 1], node, c, PenaltyOf(node, config))
  {
    var before := acts[..i];
    RefreshCountsNothing(acts, i, node);
    InTime(acts, i, node);
    hide Level, PenaltyOf, Clocked, Spaced, Penalties, LastPenalty, NoLater;
    var last := LastPenalty(before, node);
    assert before[last] == acts[last];
    var cpu := Level(c, Penalties(before, node), PenaltyOf(node, config));
    RefreshKeeps(cache, acts[i].readings, node, cpu, acts[last].now);
  }

  lemma RefreshCountsNothing(acts: seq<Act>, i: nat, node: string)
    requires i < |acts| && acts[i].Refresh?
    ensures Penalties(acts[..i + 1], node) == Penalties(acts[..i], node)
    ensures LastPenalty(acts[..i + 1], node) == LastPenalty(acts[..i], node)
  {
    assert acts[..i + 1][..i] == acts[..i];
  }

  /** A refresh before the next penalty of a series still finds the last one fresh. */
  lemma InTime(acts: seq<Act>, i: nat, node: string)
    requires i < |acts| && acts[i].Refresh? && Penalizes(acts[|acts| - 1], node)
    requires Clocked(acts) && Spaced(acts, node) && LastPenalty(acts[..i], node) >= 0
    ensures forall k | 0 <= k < |acts[i].readings| ::
      acts[i].readings[k].now - acts[LastPenalty(acts[..i], node)].now < FIFTEEN_SECONDS
  {
    var last := LastPenalty(acts[..i], node);
    assert acts[..i][last] == acts[last];
    var j := NextPenalty(acts, node, i);
    assert NoLater(acts[i], acts[j].now);
    assert acts[j].now - acts[last].now < FIFTEEN_SECONDS;
  }

  lemma {:induction false} PenaltiesStack(cache: Cache, acts: seq<Act>, node: string, config: Config, c: real, i: nat)
    requires node in cache.proberScores && cache.proberScores[node].cpu == c
    requires acts != [] && Penalizes(acts[0], node) && Penalizes(acts[|acts| - 1], node)
    requires Clocked(acts) && Spaced(acts, node)
    requires c >= 0.0 || PenaltyOf(node, config) >= 0.0
    requires 1 <= i <= |acts|
    ensures Stacked(Run(cache, acts[..i], config), acts[..i], node, c, PenaltyOf(node, config))
    decreases i
  {
    var before, act := acts[..i - 1], acts[i - 1];
    assert acts[..i] == before + [act] && acts[..i][..i - 1] == before;
    assert Run(cache, acts[..i], config) == Step(Run(cache, before, config), act, config);
    if i == 1 {
      FirstPenalty(cache, act, node, config, c);
    } else {
      PenaltiesStack(cache, acts, node, config, c, i - 1);
      hide Stacked, Run, Step, PenaltyOf, Clocked, Spaced;
      if act.Penalize? {
        PenalizeStacks(Run(cache, before, config), before, act, node, config, c);
      } else {
        RefreshStacks(Run(cache, before, config), acts, i - 1, node, config, c);
      }
    }
  }

  lemma FirstPenalty(cache: Cache, act: Act, node: string, config: Config, c: real)
    requires node in cache.proberScores && cache.proberScores[node].cpu == c && Penalizes(act, node)
    ensures Stacked(Step(cache, act, config), [act], node, c, PenaltyOf(node, config))
  {
    assert [act][..0] == [];
    assert Penalties([act], node) == 1 && LastPenalty([act], node) == 0;
    var p := PenaltyOf(node, config);
    assert 1 as real * p == p;
    hide PenaltyOf;
  }

  /** From the first of a series of penalties of a node to the last, each less than 15 seconds after
      the one before, nothing that other requests fetch or penalise in between changes the outcome:
      after `k` penalties a CPU score `c` has become `max(0, c - k * penalty)`. */
  lemma PenaltiesAddUp(cache: Cache, acts: seq<Act>, node: string, config: Config, c: real)
    requires node in cache.proberScores && cache.proberScores[node].cpu == c
    requires acts != [] && Penalizes(acts[0], node) && Penalizes(acts[|acts| - 1], node)
    requires Clocked(acts) && Spaced(acts, node)
    requires c >= 0.0 || PenaltyOf(node, config) >= 0.0
    ensures node in Run(cache, acts, config).proberScores
    ensures Run(cache, acts, config).proberScores[node].cpu == Level(c, Penalties(acts, node), PenaltyOf(node, config))
  {
    PenaltiesStack(cache, acts, node, config, c, |acts|);
    assert acts[..|acts|] == acts;
    hide Run, Level, PenaltyOf, Clocked, Spaced;
  }

  /** Index of the last reading of a node, -1 if there is none. */
  function LastReading(readings: seq<Reading>, node: string): (i: int)
    ensures -1 <= i < |readings|
    ensures i >= 0 ==> readings[i].score.hostname == node
    ensures forall j | i < j < |readings| :: readings[j].score.hostname != node
  {
    if readings == [] then -1
    else if readings[|readings| - 1].score.hostname == node then |readings| - 1
    else
      var i := LastReading(readings[..|readings| - 1], node);
      i
  }

  /** A refresh that reaches the node 15 seconds or more after its penalty forgets the penalty and
      takes over what was measured; a refresh that does not mention the node changes nothing for it. */
  lemma {:induction false} ExpiryRestores(cache: Cache, readings: seq<Reading>, node: string)
    requires forall i | 0 <= i < |readings| && readings[i].score.hostname == node && node in cache.lastPenalized ::
      readings[i].now - cache.lastPenalized[node].applied >= FIFTEEN_SECONDS
    ensures var i, after := LastReading(readings, node), AllRefreshed(cache, readings);
      if i >= 0 then
        && node !in after.lastPenalized && node in after.proberScores
        && after.proberScores[node] == readings[i].score
      else
        && (node in after.lastPenalized <==> node in cache.lastPenalized)
        && (node in after.lastPenalized ==> after.lastPenalized[node] == cache.lastPenalized[node])
        && (node in after.proberScores <==> node in cache.proberScores)
        && (node in after.proberScores ==> after.proberScores[node] == cache.proberScores[node])
    decreases |readings|
  {
    if readings != [] {
      ExpiryRestores(cache, readings[..|readings| - 1], node);
    }
  }

  // ----- what a penalty does to the score

  /** What a reduction of the CPU score takes from the weighted sum. */
  function Effect(cut: real, config: Config): real {
    config.weightCPU * config.scaleFactor * cut
  }

  lemma WeightedDrop(data: ScoreData, cpu: real, traffic: real, config: Config)
    ensures Weighted(data, traffic, config) - Weighted(data.(cpu := cpu), traffic, config)
         == Effect(data.cpu - cpu, config)
  {
    var rest := config.weightLatency * data.latency + config.weightTraffic * traffic;
    assert Weighted(data, traffic, config) == (rest + config.weightCPU * data.cpu) * config.scaleFactor;
    assert Weighted(data.(cpu := cpu), traffic, config) == (rest + config.weightCPU * cpu) * config.scaleFactor;
  }

  lemma EffectNonNegative(cut: real, config: Config)
    requires config.weightCPU * config.scaleFactor >= 0.0 && cut >= 0.0
    ensures Effect(cut, config) >= 0.0
  {
    ProductNonNegative(config.weightCPU * config.scaleFactor, cut);
  }

  lemma ProductNonNegative(x: real, y: real)
    requires x >= 0.0 && y >= 0.0
    ensures x * y >= 0.0
  {
  }

  lemma ClampDrop(before: real, after: real)
    ensures after <= before ==> ClampScore(after) <= ClampScore(before)
    ensures 0.0 <= after && before <= 100.0 && after <= before ==>
      before - after - 1.0 <= (ClampScore(before) - ClampScore(after)) as real <= before - after + 1.0
  {
  }

  /** A penalty never raises the score of the penalised node and leaves all other scores alone; away
      from the clamps it costs the CPU weight times the reduction, up to one point of rounding. */
  lemma PenaltyLowersScore(cache: Cache, node: string, other: string, now: int,
                           traffic: map<string, real>, config: Config)
    requires node in cache.proberScores && config.weightCPU * config.scaleFactor >= 0.0
    requires PenaltyOf(node, config) >= 0.0 && cache.proberScores[node].cpu >= 0.0
    ensures var before, after := cache.proberScores, Penalized(cache, node, now, config).proberScores;
      var load := if node in traffic then traffic[node] else 0.0;
      var loss := ScoreNode(node, before, traffic, config) - ScoreNode(node, after, traffic, config);
      var effect := Effect(before[node].cpu - after[node].cpu, config);
      && loss >= 0
      && (other != node ==> ScoreNode(other, after, traffic, config) == ScoreNode(other, before, traffic, config))
      && (Weighted(before[node], load, config) <= 100.0 && 0.0 <= Weighted(after[node], load, config) ==>
        effect - 1.0 <= loss as real <= effect + 1.0)
  {
    var data, load := cache.proberScores[node], if node in traffic then traffic[node] else 0.0;
    var cpu := ApplyCPUPenalty(node, data.cpu, config);
    assert cpu <= data.cpu;
    EffectNonNegative(data.cpu - cpu, config);
    WeightedDrop(data, cpu, load, config);
    hide Weighted, ClampScore, ApplyCPUPenalty, PenaltyOf, Effect;
    assert Penalized(cache, node, now, config).proberScores == cache.proberScores[node := data.(cpu := cpu)];
    hide Penalized;
    ClampDrop(Weighted(data, load, config), Weighted(data.(cpu := cpu), load, config));
  }
}
