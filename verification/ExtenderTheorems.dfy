/** What a score request makes of the numbers it is given, in terms of those numbers. */
module ExtenderTheorems {
  import opened Extender

  // ----- one score

  /** Rounded to the nearest integer, halves up, after clamping to [0, 100]. */
  predicate RoundsTo(x: real, score: int) {
    if x < 0.0 then score == 0
    else if x > 100.0 then score == 100
    else score as real - 0.5 <= x < score as real + 0.5
  }

  /** The weighted sum of a node's latency score, cpu score and traffic, scaled. */
  function Sum(config: Config, latency: real, cpu: real, traffic: real): real {
    config.scaleFactor * (config.weightTraffic * traffic + (config.weightLatency * latency + config.weightCPU * cpu))
  }

  lemma Clamps(x: real)
    ensures RoundsTo(x, ClampScore(x))
  {
  }

  lemma SumIs(data: ScoreData, traffic: real, config: Config)
    ensures Weighted(data, traffic, config) == Sum(config, data.latency, data.cpu, traffic)
  {
    var sum := config.weightLatency * data.latency + config.weightCPU * data.cpu + config.weightTraffic * traffic;
    assert sum * config.scaleFactor == config.scaleFactor * sum;
  }

  /** A known node scores the rounded and clamped sum of its own numbers, with traffic 0 if it has none; an
      unknown node scores 0. */
  lemma ScoreValue(node: string, known: map<string, ScoreData>, traffic: map<string, real>, config: Config)
    ensures node !in known ==> ScoreNode(node, known, traffic, config) == 0
    ensures node in known && node in traffic ==>
      RoundsTo(Sum(config, known[node].latency, known[node].cpu, traffic[node]),
               ScoreNode(node, known, traffic, config))
    ensures node in known && node !in traffic ==>
      RoundsTo(Sum(config, known[node].latency, known[node].cpu, 0.0), ScoreNode(node, known, traffic, config))
  {
    if node in known {
      var load := if node in traffic then traffic[node] else 0.0;
      SumIs(known[node], load, config);
      Clamps(Sum(config, known[node].latency, known[node].cpu, load));
    }
    hide Weighted, Sum, RoundsTo, ClampScore;
  }

  /** What changes of the three inputs do to the sum. */
  function Change(config: Config, latency: real, cpu: real, traffic: real): real {
    config.scaleFactor * (config.weightLatency * latency + config.weightCPU * cpu + config.weightTraffic * traffic)
  }

  /** Away from the clamps the three inputs move the score by their own weights, up to one point of rounding. */
  lemma ScoreMoves(node: string, before: map<string, ScoreData>, after: map<string, ScoreData>,
                   traffic: map<string, real>, later: map<string, real>, config: Config)
    requires node in before && node in after && node in traffic && node in later
    requires 0.0 <= Sum(config, before[node].latency, before[node].cpu, traffic[node]) <= 100.0
    requires 0.0 <= Sum(config, after[node].latency, after[node].cpu, later[node]) <= 100.0
    ensures var change := Change(config, after[node].latency - before[node].latency,
                                 after[node].cpu - before[node].cpu, later[node] - traffic[node]);
      var moved := ScoreNode(node, after, later, config) - ScoreNode(node, before, traffic, config);
      change - 1.0 < moved as real < change + 1.0
  {
    ScoreValue(node, before, traffic, config);
    ScoreValue(node, after, later, config);
    var a, b := before[node], after[node];
    var x, y := Sum(config, a.latency, a.cpu, traffic[node]), Sum(config, b.latency, b.cpu, later[node]);
    SumDifference(config, a.latency, b.latency, a.cpu, b.cpu, traffic[node], later[node]);
    hide Sum, ScoreNode, Change;
  }

  lemma SumDifference(config: Config, l: real, l': real, c: real, c': real, t: real, t': real)
    ensures Sum(config, l', c', t') - Sum(config, l, c, t) == Change(config, l' - l, c' - c, t' - t)
  {
    var wl, wc, wt, s := config.weightLatency, config.weightCPU, config.weightTraffic, config.scaleFactor;
    assert wl * (l' - l) == wl * l' - wl * l;
    assert wc * (c' - c) == wc * c' - wc * c;
    assert wt * (t' - t) == wt * t' - wt * t;
    var p, q := wt * t + (wl * l + wc * c), wt * t' + (wl * l' + wc * c');
    assert s * (q - p) == s * q - s * p;
  }

  /** Weights 0.6, 0.3 and 0.1 on a scale of 100. */
  lemma SeventyOne()
    ensures var config := Config(0.6, 0.3, 0.1, 100.0, 60.0, 0.2, 0.1);
      && ScoreNode("n", map["n" := ScoreData("n", 0.5, 0.9)], map["n" := 0.2], config) == 71
      && ScoreNode("n", map["n" := ScoreData("n", 0.5, 0.9)], map[], config) == 69
      && ScoreNode("n", map["n" := ScoreData("n", 0.0, 0.0)], map[], config) == 0
  {
  }

  // ----- penalties

  /** The name has `vm` in it somewhere. */
  predicate NamesVm(node: string) {
    exists i | 0 <= i < |node| - 1 :: node[i] == 'v' && node[i + 1] == 'm'
  }

  lemma ContainsVm(node: string)
    ensures Contains(node, "vm") <==> NamesVm(node)
  {
    if i :| 0 <= i <= |node| && "vm" <= node[i..] {
      assert "vm"[0] == node[i..][0] && "vm"[1] == node[i..][1];
    }
    if i :| 0 <= i < |node| - 1 && node[i] == 'v' && node[i + 1] == 'm' {
      assert node[i..][..2] == "vm";
    }
  }

  /** A penalised node loses the penalty of its kind from its cpu score, down to 0, and nothing else; the reduced
      score is remembered with the time. */
  lemma PenaltyValue(cache: Cache, node: string, now: int, config: Config)
    requires node in cache.proberScores
    ensures var was, after := cache.proberScores[node], Penalized(cache, node, now, config);
      var left := was.cpu - (if NamesVm(node) then config.vmPenalty else config.rpiPenalty);
      var cpu := if left < 0.0 then 0.0 else left;
      && after.proberScores == cache.proberScores[node := ScoreData(was.hostname, cpu, was.latency)]
      && after.lastPenalized == cache.lastPenalized[node := Penalty(cpu, now)]
  {
    ContainsVm(node);
    hide Contains, NamesVm;
  }

  /** An unknown node is not penalised. */
  lemma NoPenalty(cache: Cache, node: string, now: int, config: Config)
    requires node !in cache.proberScores
    ensures Penalized(cache, node, now, config) == cache
  {
  }

  /** A fetched score replaces the cached one; less than 15 seconds after a penalty only its latency does, and from
      15 seconds on the penalty is forgotten. */
  lemma RefreshValue(cache: Cache, reading: Reading)
    ensures var host := reading.score.hostname;
      var kept := host in cache.lastPenalized && reading.now - cache.lastPenalized[host].applied < 15_000_000_000;
      var cpu := if kept then cache.lastPenalized[host].cpu else reading.score.cpu;
      Refreshed(cache, reading) ==
        Cache(cache.proberScores[host := ScoreData(host, cpu, reading.score.latency)],
              if kept then cache.lastPenalized else cache.lastPenalized - {host})
  {
    var host := reading.score.hostname;
    assert host !in cache.lastPenalized ==> cache.lastPenalized - {host} == cache.lastPenalized;
  }

  // ----- the answer

  /** The answer is made node by node, in request order. */
  lemma {:induction false} PrioritiesConcat(a: seq<string>, b: seq<string>, cache: Cache, traffic: map<string, real>,
                                            config: Config)
    ensures Priorities(a + b, cache, traffic, config)
      == Priorities(a, cache, traffic, config) + Priorities(b, cache, traffic, config)
    decreases |b|
  {
    hide ScoreNode;
    if b == [] {
      assert a + b == a;
    } else {
      assert (a + b)[..|a + b| - 1] == a + b[..|b| - 1];
      PrioritiesConcat(a, b[..|b| - 1], cache, traffic, config);
    }
  }

  lemma PriorityOf(node: string, cache: Cache, traffic: map<string, real>, config: Config)
    ensures var score := ScoreNode(node, cache.proberScores, traffic, config);
      Priorities([node], cache, traffic, config) == if score >= 1 then [HostPriority(node, score)] else []
  {
    hide ScoreNode;
    assert [node][..0] == [];
  }

  /** A request penalises the first entry of the highest score, and nothing when no node scored or that entry has no
      name. */
  lemma PenaltyTarget(before: Cache, after: Cache, priorities: seq<HostPriority>, now: int, config: Config)
    requires BestPenalized(before, after, priorities, now, config)
    ensures priorities == [] ==> after == before
    ensures priorities != [] ==> exists k | 0 <= k < |priorities| ::
      && (forall i | 0 <= i < k :: priorities[i].score < priorities[k].score)
      && (forall i | k < i < |priorities| :: priorities[i].score <= priorities[k].score)
      && after == if priorities[k].host == "" then before else Penalized(before, priorities[k].host, now, config)
  {
    hide Penalized;
    var best :| IsBest(priorities, best) && after == PenalizedIfAny(before, best, now, config);
    if priorities != [] {
      var k :| 0 <= k < |priorities| && FirstBest(priorities, k) && best == priorities[k].host;
    }
  }
}
