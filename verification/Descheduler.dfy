/** The descheduler's reaction to a shift of the node with the most traffic. */
module Descheduler {
  import opened Collections
  import opened Extender

  /** What one cycle gets from the outside; `None` is an error.  An empty name means no top node. */
  datatype Observation = Observation(top: Option<(string, real)>, fetched: Option<seq<ScoreData>>,
                                     traffic: Option<map<string, real>>)

  /** The latest report of a node. */
  function LastReport(reports: seq<ScoreData>, node: string): Option<ScoreData> {
    if reports == [] then None
    else if reports[|reports| - 1].hostname == node then Some(reports[|reports| - 1])
    else LastReport(reports[..|reports| - 1], node)
  }

  function TrafficOf(o: Observation): map<string, real> {
    if o.traffic.Some? then o.traffic.value else map[]
  }

  function ScoreOf(report: ScoreData, traffic: map<string, real>, config: Config): int {
    ScoreNode(report.hostname, map[report.hostname := report], traffic, config)
  }

  /** The score of every reported node, by its latest report. */
  ghost predicate ScoresAre(nodeScores: map<string, int>, reports: seq<ScoreData>, traffic: map<string, real>,
                            config: Config) {
    forall n ::
      && (n in nodeScores <==> LastReport(reports, n).Some?)
      && (n in nodeScores ==> nodeScores[n] == ScoreOf(LastReport(reports, n).value, traffic, config))
  }

  /** No reported node scores lower. */
  ghost predicate IsWorst(node: string, reports: seq<ScoreData>, traffic: map<string, real>, config: Config) {
    && LastReport(reports, node).Some?
    && forall n | LastReport(reports, n).Some? ::
      ScoreOf(LastReport(reports, node).value, traffic, config)
        <= ScoreOf(LastReport(reports, n).value, traffic, config)
  }

  /** The top node that a cycle acts on, if the query worked and the traffic is worth it. */
  function TopOf(o: Observation, config: Config): Option<string> {
    if o.top.Some? && o.top.value.0 != "" && o.top.value.1 >= config.warmupThreshold then Some(o.top.value.0) else None
  }

  predicate Fetched(o: Observation) {
    o.fetched.Some? && o.fetched.value != []
  }

  /** One cycle: which node it tries to evict from, and the top node remembered afterwards. */
  ghost predicate Cycle(prev: string, o: Observation, config: Config, attempt: Option<string>, next: string) {
    match TopOf(o, config)
    case None => attempt == None && next == prev
    case Some(top) =>
      if prev == "" then attempt == None && next == top
      else if prev == top || !Fetched(o) then attempt == None && next == prev
      else exists worst ::
        && IsWorst(worst, o.fetched.value, TrafficOf(o), config)
        && attempt == (if worst == "" then None else Some(worst))
        && next == (if worst == "" then prev else top)
  }

  lemma {:induction false} SomeReport(reports: seq<ScoreData>, i: nat)
    requires i < |reports|
    ensures LastReport(reports, reports[i].hostname).Some?
    decreases |reports|
  {
    if i < |reports| - 1 {
      SomeReport(reports[..|reports| - 1], i);
    }
  }

  class AdaptiveDescheduler {
    const config: Config
    var prevTopNode: string

    constructor (config: Config)
      ensures this.config == config && prevTopNode == ""
    {
      this.config := config;
      prevTopNode := "";
    }

    method ScoreReports(reports: seq<ScoreData>, traffic: map<string, real>) returns (nodeScores: map<string, int>)
      ensures ScoresAre(nodeScores, reports, traffic, config)
    {
      nodeScores := map[];
      for i := 0 to |reports|
        invariant ScoresAre(nodeScores, reports[..i], traffic, config)
      {
        hide ScoreOf;
        assert reports[..i + 1][..i] == reports[..i];
        nodeScores := nodeScores[reports[i].hostname := ScoreOf(reports[i], traffic, config)];
      }
      assert reports[..|reports|] == reports;
    }

    /** The scan for the lowest score, over the map in any order; `None` stands for the largest float. */
    method WorstNode(nodeScores: map<string, int>) returns (worst: string)
      requires nodeScores != map[]
      ensures worst in nodeScores && forall n | n in nodeScores :: nodeScores[worst] <= nodeScores[n]
    {
      var nodes := HashOrder(nodeScores.Keys);
      assert nodeScores.Keys != {};
      var n0 :| n0 in nodeScores.Keys;
      assert n0 in nodes;
      worst := "";
      var lowest: Option<int> := None;
      for i := 0 to |nodes|
        invariant i > 0 ==> lowest.Some?
        invariant lowest.Some? ==> worst in nodeScores && nodeScores[worst] == lowest.value
        invariant lowest.Some? ==>
          forall j | 0 <= j < i :: nodes[j] in nodeScores && lowest.value <= nodeScores[nodes[j]]
      {
        assert nodes[i] in nodeScores.Keys;
        var score := nodeScores[nodes[i]];
        if lowest == None || score < lowest.value {
          worst, lowest := nodes[i], Some(score);
        }
      }
      forall n | n in nodeScores ensures nodeScores[worst] <= nodeScores[n] {
        assert n in nodes;
      }
    }

    /** `attempt` is the node whose idle pods the cycle tries to evict; the outcome does not matter. */
    method EvaluateCycle(o: Observation) returns (attempt: Option<string>)
      modifies this`prevTopNode
      ensures Cycle(old(prevTopNode), o, config, attempt, prevTopNode)
    {
      if o.top == None {
        return None;
      }
      var (topNode, rate) := o.top.value;
      if topNode == "" {
        return None;
      }
      if rate < config.warmupThreshold {
        return None;
      }
      if prevTopNode == "" {
        prevTopNode := topNode;
        return None;
      }
      if prevTopNode == topNode {
        return None;
      }
      if o.fetched == None || o.fetched.value == [] {
        return None;
      }
      var reports := o.fetched.value;
      var trafficNorm := if o.traffic.Some? then o.traffic.value else map[];
      var nodeScores := ScoreReports(reports, trafficNorm);
      SomeReport(reports, 0);
      assert reports[0].hostname in nodeScores;
      var worstNode := WorstNode(nodeScores);
      assert IsWorst(worstNode, reports, trafficNorm, config);
      if worstNode == "" {
        return None;
      }
      prevTopNode := topNode;
      return Some(worstNode);
    }
  }

  // ----- one cycle

  /** The cycle leaves everything as it is. */
  predicate Idle(prev: string, attempt: Option<string>, next: string) {
    attempt == None && next == prev
  }

  /** A failed query, no top node, or traffic below the warmup threshold: nothing happens.  Otherwise the first
      top node is remembered, the same one changes nothing, and a new one changes nothing as long as no report
      can be fetched. */
  lemma QuietCycle(prev: string, o: Observation, config: Config, attempt: Option<string>, next: string)
    requires Cycle(prev, o, config, attempt, next)
    ensures o.top.None? || o.top.value.0 == "" ==> Idle(prev, attempt, next)
    ensures o.top.Some? && o.top.value.1 < config.warmupThreshold ==> Idle(prev, attempt, next)
    ensures o.top.Some? && o.top.value.0 == prev ==> Idle(prev, attempt, next)
    ensures o.top.Some? && o.top.value.0 != "" && o.top.value.1 >= config.warmupThreshold && prev == "" ==>
      attempt == None && next == o.top.value.0
    ensures prev != "" && (o.fetched.None? || |o.fetched.value| == 0) ==> Idle(prev, attempt, next)
  {
  }

  lemma {:induction false} NoUnnamed(reports: seq<ScoreData>)
    requires forall i | 0 <= i < |reports| :: reports[i].hostname != ""
    ensures LastReport(reports, "") == None
    decreases |reports|
  {
    if reports != [] {
      NoUnnamed(reports[..|reports| - 1]);
    }
  }

  /** A new busy top node with reports: the cycle acts on a node whose latest report scores lowest, and remembers
      the new top node. */
  lemma ShiftCycle(prev: string, o: Observation, config: Config, attempt: Option<string>, next: string)
    requires Cycle(prev, o, config, attempt, next)
    requires o.top.Some? && o.top.value.1 >= config.warmupThreshold
    requires o.top.value.0 != "" && prev != "" && o.top.value.0 != prev
    requires o.fetched.Some? && |o.fetched.value| > 0
    requires forall i | 0 <= i < |o.fetched.value| :: o.fetched.value[i].hostname != ""
    ensures next == o.top.value.0 && attempt.Some?
    ensures exists i | 0 <= i < |o.fetched.value| ::
      && Latest(o.fetched.value, i) && attempt.value == o.fetched.value[i].hostname
      && forall j | 0 <= j < |o.fetched.value| && Latest(o.fetched.value, j) ::
        ReportScore(o, config, i) <= ReportScore(o, config, j)
  {
    var reports := o.fetched.value;
    NoUnnamed(reports);
    hide LastReport;
    var worst :| IsWorst(worst, reports, TrafficOf(o), config)
      && attempt == (if worst == "" then None else Some(worst))
      && next == (if worst == "" then prev else o.top.value.0);
    var i := LatestOf(reports, worst);
    forall j | 0 <= j < |reports| && Latest(reports, j) ensures ReportScore(o, config, i) <= ReportScore(o, config, j) {
      LatestIs(reports, j);
    }
  }

  /** Report `i` is the last one of its node. */
  ghost predicate Latest(reports: seq<ScoreData>, i: nat) {
    i < |reports| && forall j | i < j < |reports| :: reports[j].hostname != reports[i].hostname
  }

  /** What a report scores with the traffic of the observation, or without traffic if that query failed. */
  function ReportScore(o: Observation, config: Config, i: nat): int
    requires o.fetched.Some? && i < |o.fetched.value|
  {
    var report, traffic := o.fetched.value[i], if o.traffic.Some? then o.traffic.value else map[];
    ScoreNode(report.hostname, map[report.hostname := report], traffic, config)
  }

  lemma {:induction false} LatestIs(reports: seq<ScoreData>, i: nat)
    requires Latest(reports, i)
    ensures LastReport(reports, reports[i].hostname) == Some(reports[i])
    decreases |reports|
  {
    var init := reports[..|reports| - 1];
    if i < |init| {
      assert init[i] == reports[i] && forall j | i < j < |init| :: init[j] == reports[j];
      LatestIs(init, i);
    }
  }

  lemma {:induction false} LatestOf(reports: seq<ScoreData>, node: string) returns (i: nat)
    requires LastReport(reports, node).Some?
    ensures Latest(reports, i) && LastReport(reports, node) == Some(reports[i]) && reports[i].hostname == node
    decreases |reports|
  {
    var n := |reports| - 1;
    if reports[n].hostname == node {
      i := n;
    } else {
      i := LatestOf(reports[..n], node);
      assert forall j | i < j < n :: reports[..n][j] == reports[j];
    }
  }

  // ----- runs

  datatype Record = Record(observation: Observation, attempt: Option<string>, next: string)

  function PrevAfter(run: seq<Record>): string {
    if run == [] then "" else run[|run| - 1].next
  }

  /** Consecutive cycles of one descheduler, from its start. */
  ghost predicate IsRun(run: seq<Record>, config: Config) {
    forall i | 0 <= i < |run| ::
      Cycle(PrevAfter(run[..i]), run[i].observation, config, run[i].attempt, run[i].next)
  }

  function Attempts(run: seq<Record>): nat {
    if run == [] then 0
    else Attempts(run[..|run| - 1]) + (if run[|run| - 1].attempt.Some? then 1 else 0)
  }

  /** The named top nodes seen with traffic at or above the warmup threshold. */
  function Tops(run: seq<Record>, config: Config): seq<string> {
    if run == [] then []
    else
      var init, top := Tops(run[..|run| - 1], config), run[|run| - 1].observation.top;
      if top.Some? && top.value.0 != "" && top.value.1 >= config.warmupThreshold then init + [top.value.0] else init
  }

  /** Adjacent pairs that differ. */
  function Shifts(tops: seq<string>): nat {
    if |tops| < 2 then 0
    else Shifts(tops[..|tops| - 1]) + (if tops[|tops| - 1] != tops[|tops| - 2] then 1 else 0)
  }

  /** The last top node seen is not the one remembered: a shift is still waiting for its reaction. */
  predicate Pending(tops: seq<string>, prev: string) {
    tops != [] && prev != tops[|tops| - 1]
  }

  lemma RunNext(init: seq<Record>, last: Record, config: Config)
    ensures PrevAfter(init + [last]) == last.next
    ensures Attempts(init + [last]) == Attempts(init) + (if last.attempt.Some? then 1 else 0)
    ensures var top := TopOf(last.observation, config);
      Tops(init + [last], config) == if top.Some? then Tops(init, config) + [top.value] else Tops(init, config)
  {
    var run := init + [last];
    assert run[..|run| - 1] == init;
  }

  lemma ShiftsNext(tops: seq<string>, top: string)
    ensures Shifts(tops + [top]) == Shifts(tops) + (if tops != [] && top != tops[|tops| - 1] then 1 else 0)
  {
    assert (tops + [top])[..|tops|] == tops;
  }

  lemma SplitRun(run: seq<Record>, config: Config) returns (init: seq<Record>, last: Record)
    requires IsRun(run, config) && run != []
    ensures run == init + [last] && |init| == |run| - 1 && IsRun(init, config)
    ensures Cycle(PrevAfter(init), last.observation, config, last.attempt, last.next)
  {
    hide Cycle, PrevAfter;
    init, last := run[..|run| - 1], run[|run| - 1];
    assert forall i | 0 <= i < |init| :: init[..i] == run[..i];
  }

  lemma {:induction false} AttemptsBound(run: seq<Record>, config: Config)
    requires IsRun(run, config)
    ensures PrevAfter(run) == "" <==> Tops(run, config) == []
    ensures Attempts(run) + (if Pending(Tops(run, config), PrevAfter(run)) then 1 else 0) <= Shifts(Tops(run, config))
    decreases |run|
  {
    if run != [] {
      var init, last := SplitRun(run, config);
      AttemptsBound(init, config);
      RunNext(init, last, config);
      hide IsWorst, Tops, Attempts, Shifts, PrevAfter, IsRun, Fetched;
      var top := TopOf(last.observation, config);
      if top.Some? {
        assert top.value != "";
        ShiftsNext(Tops(init, config), top.value);
      }
    }
  }

  /** However often fetches fail, a descheduler never tries to evict more often than the busy top node
      has changed. */
  lemma AttemptsAtMostShifts(run: seq<Record>, config: Config)
    requires IsRun(run, config)
    ensures Attempts(run) <= Shifts(Tops(run, config))
  {
    AttemptsBound(run, config);
  }

  /** The fetch of this cycle yields at least one report, and only reports of named nodes. */
  predicate Usable(o: Observation) {
    Fetched(o) && forall i | 0 <= i < |o.fetched.value| :: o.fetched.value[i].hostname != ""
  }

  /** With usable fetches every change of the busy top node causes exactly one attempt. */
  lemma {:induction false} AttemptsEqualShifts(run: seq<Record>, config: Config)
    requires IsRun(run, config) && forall r | r in run :: Usable(r.observation)
    ensures Attempts(run) == Shifts(Tops(run, config))
    ensures !Pending(Tops(run, config), PrevAfter(run))
    decreases |run|
  {
    if run != [] {
      var init, last := SplitRun(run, config);
      assert last in run && Usable(last.observation);
      AttemptsEqualShifts(init, config);
      AttemptsBound(init, config);
      RunNext(init, last, config);
      NoUnnamed(last.observation.fetched.value);
      hide Tops, Attempts, Shifts, PrevAfter, IsRun, LastReport;
      var top := TopOf(last.observation, config);
      if top.Some? {
        ShiftsNext(Tops(init, config), top.value);
        UsableCycle(PrevAfter(init), last, config, top.value);
      }
    }
  }

  lemma UsableCycle(prev: string, r: Record, config: Config, top: string)
    requires Cycle(prev, r.observation, config, r.attempt, r.next) && TopOf(r.observation, config) == Some(top)
    requires Fetched(r.observation) && LastReport(r.observation.fetched.value, "") == None
    ensures r.next == top && (r.attempt.Some? <==> prev != "" && prev != top)
  {
  }
}
