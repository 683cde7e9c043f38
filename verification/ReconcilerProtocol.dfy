/** The `applied` protocol between the watcher's inserts and the reconciler's passes, over every
    interleaving of the two tasks and every pattern of failed passes. */
module ReconcilerProtocol {
  import opened Float64
  import opened SlotMap
  import opened Reconciler
  import opened ReconcilerAllocation

  /** `accepted`: the batch was built without overflow and nftables took it. */
  datatype Act =
    | Insert(name: string, id: string, handle: nat, hosts: map<string, set<string>>)
    | Reconcile(cpu: map<string, real>, latency: map<string, real>, accepted: bool)

  function Step(services: Services, act: Act): Services {
    match act
    case Insert(name, id, handle, hosts) => Inserted(services, name, id, handle, hosts)
    case Reconcile(cpu, latency, accepted) => Reconciled(services, cpu, latency, accepted)
  }

  /** The shared map after a run that starts empty. */
  function After(acts: seq<Act>): Services {
    if acts == [] then map[] else Step(After(acts[..|acts| - 1]), acts[|acts| - 1])
  }

  predicate Inserts(act: Act, name: string) {
    act.Insert? && act.name == name
  }

  /** A pass that has scores to build a batch from. */
  predicate Attempts(acts: seq<Act>, k: int) {
    0 <= k < |acts| && acts[k].Reconcile? && !NothingMeasured(After(acts[..k]), acts[k].cpu, acts[k].latency)
  }

  /** A pass whose batch nftables accepted. */
  predicate Effective(acts: seq<Act>, k: int) {
    Attempts(acts, k) && acts[k].accepted
  }

  /** Index of the latest insert of a service, -1 if there is none: the snapshot now held. */
  function LastInsert(acts: seq<Act>, name: string): (i: int)
    ensures -1 <= i < |acts|
    ensures i >= 0 ==> Inserts(acts[i], name)
    ensures forall j | i < j < |acts| :: !Inserts(acts[j], name)
  {
    if acts == [] then -1
    else if Inserts(acts[|acts| - 1], name) then |acts| - 1
    else
      var i := LastInsert(acts[..|acts| - 1], name);
      i
  }

  function LastEffective(acts: seq<Act>): (k: int)
    ensures -1 <= k < |acts|
    ensures k >= 0 ==> Effective(acts, k)
    ensures forall j | k < j < |acts| :: !Effective(acts, j)
  {
    if acts == [] then -1
    else if Effective(acts, |acts| - 1) then |acts| - 1
    else
      var init := acts[..|acts| - 1];
      var k := LastEffective(init);
      assert forall j | 0 <= j < |init| :: init[..j] == acts[..j] && Effective(init, j) == Effective(acts, j);
      k
  }

  /** The map is a function of the history: a service holds its latest snapshot, and the flag says
      whether an effective pass came after it. */
  lemma {:induction false} ServicesHistory(acts: seq<Act>, name: string)
    ensures name in After(acts) <==> LastInsert(acts, name) >= 0
    ensures LastInsert(acts, name) >= 0 ==>
      var i := LastInsert(acts, name);
      After(acts)[name] == NftablesService(acts[i].id, acts[i].handle, LastEffective(acts) > i, acts[i].hosts)
    decreases |acts|
  {
    if acts != [] {
      var init, last := acts[..|acts| - 1], acts[|acts| - 1];
      ServicesHistory(init, name);
      assert Effective(acts, |acts| - 1) <==>
        last.Reconcile? && !NothingMeasured(After(init), last.cpu, last.latency) && last.accepted;
      hide NothingMeasured;
    }
  }

  /** What a snapshot needs, besides not being applied yet, to have a rule built for it. */
  predicate Eligible(hosts: map<string, set<string>>, scored: set<string>) {
    Emits(NftablesService("", 0, false, hosts), scored)
  }

  /** The snapshot inserted at step `i` has a Delete+Add pair in the accepted batch of step `k`. */
  predicate Contributes(acts: seq<Act>, i: int, k: int) {
    && 0 <= i < k < |acts| && acts[i].Insert? && Effective(acts, k)
    && LastInsert(acts[..k], acts[i].name) == i
    && acts[i].name in After(acts[..k])
    && Emits(After(acts[..k])[acts[i].name], Scored(After(acts[..k]), acts[k].cpu, acts[k].latency))
  }

  /** No act strictly between the two inserts the service again. */
  predicate StillHeld(acts: seq<Act>, i: int, k: int)
    requires 0 <= i < k < |acts| && acts[i].Insert?
  {
    forall j | i < j < k :: !Inserts(acts[j], acts[i].name)
  }

  /** `k` is the first effective pass after `i`. */
  predicate FirstEffective(acts: seq<Act>, i: int, k: int) {
    Effective(acts, k) && i < k && forall j | i < j < k :: !Effective(acts, j)
  }

  /** A snapshot reaches the kernel in exactly one way: through the first effective pass after its
      insert, if no newer snapshot replaced it and it is eligible under that pass's measurements. */
  lemma ContributesIff(acts: seq<Act>, i: int, k: int)
    requires 0 <= i < k < |acts| && acts[i].Insert?
    ensures Contributes(acts, i, k) <==>
      && FirstEffective(acts, i, k) && StillHeld(acts, i, k)
      && Eligible(acts[i].hosts, Scored(After(acts[..k]), acts[k].cpu, acts[k].latency))
  {
    var before, name := acts[..k], acts[i].name;
    ServicesHistory(before, name);
    HeldIff(acts, i, k);
    AppliedIff(acts, i, k);
    if LastInsert(before, name) == i && acts[k].Reconcile? {
      EmitsUnapplied(After(before)[name], Scored(After(before), acts[k].cpu, acts[k].latency));
    }
    hide Emits, Effective, StillHeld, LastInsert, LastEffective, After, Scored;
  }

  lemma EmitsUnapplied(service: NftablesService, scored: set<string>)
    ensures Emits(service, scored) <==> !service.applied && Eligible(service.endpointsByHost, scored)
  {
  }

  lemma HeldIff(acts: seq<Act>, i: int, k: int)
    requires 0 <= i < k < |acts| && acts[i].Insert?
    ensures LastInsert(acts[..k], acts[i].name) == i <==> StillHeld(acts, i, k)
  {
    var before, name := acts[..k], acts[i].name;
    var last := LastInsert(before, name);
    assert before[i] == acts[i];
    assert Inserts(before[i], name);
    assert last > i ==> Inserts(acts[last], name);
    if last == i {
      forall j | i < j < k ensures !Inserts(acts[j], name) {
        assert before[j] == acts[j];
      }
    }
  }

  lemma AppliedIff(acts: seq<Act>, i: int, k: int)
    requires 0 <= i < k < |acts|
    ensures LastEffective(acts[..k]) <= i <==> forall j | i < j < k :: !Effective(acts, j)
  {
    var before := acts[..k];
    forall j | 0 <= j < k ensures Effective(before, j) == Effective(acts, j) {
      assert before[..j] == acts[..j];
    }
    var last := LastEffective(before);
    hide Effective, LastEffective;
    assert last > i ==> Effective(before, last);
  }

  /** At most one Delete+Add pair per snapshot, however often passes fail or are retried. */
  lemma AtMostOnce(acts: seq<Act>, i: int, k: int, k': int)
    requires Contributes(acts, i, k) && Contributes(acts, i, k')
    ensures k == k'
  {
    ContributesIff(acts, i, k);
    ContributesIff(acts, i, k');
    hide Effective, Contributes, StillHeld, Eligible, Scored, After;
  }

  /** With no insert since the last effective pass, a pass has nothing to send, accepted or not. */
  lemma QuietPassIsEmpty(acts: seq<Act>, j: int, k: int, lookup: map<string, F64>,
                         batch: seq<RulePair>)
    requires Effective(acts, j) && j < k && Attempts(acts, k)
    requires forall m | j < m < k :: !acts[m].Insert?
    requires BatchOf(After(acts[..k]), lookup, batch)
    ensures batch == []
  {
    var before := acts[..k];
    hide PairOf, NothingMeasured;
    if batch != [] {
      var name := batch[0].name;
      assert PairOf(After(before), lookup, batch[0]);
      PairUnapplied(After(before), lookup, batch[0]);
      ServicesHistory(before, name);
      var i := LastInsert(before, name);
      assert before[i] == acts[i] && Inserts(acts[i], name);
      assert i < j;
      AppliedIff(acts, i, k);
      assert false;
    }
  }

  lemma PairUnapplied(services: Services, lookup: map<string, F64>, pair: RulePair)
    requires PairOf(services, lookup, pair)
    ensures pair.name in services && !services[pair.name].applied
  {
  }

  /** A snapshot that its first effective pass skips is marked applied all the same, and is never
      sent by any later pass, whatever becomes measurable afterwards. */
  lemma SkippedIsLost(acts: seq<Act>, i: int, k: int, later: int)
    requires 0 <= i < k < |acts| && acts[i].Insert? && FirstEffective(acts, i, k)
    requires !Eligible(acts[i].hosts, Scored(After(acts[..k]), acts[k].cpu, acts[k].latency))
    ensures !Contributes(acts, i, later)
  {
    if 0 <= i < later < |acts| {
      ContributesIff(acts, i, later);
    }
    hide Effective, StillHeld, Eligible, Scored, After;
  }

  /** `Contributes` is about the batch that a pass really builds: given any batch allowed by the
      contract of `Reconcile`, the held snapshot is in it exactly when it contributes. */
  lemma ContributionIsInBatch(acts: seq<Act>, i: int, k: int, lookup: map<string, F64>,
                              batch: seq<RulePair>)
    requires 0 <= i < k && Effective(acts, k) && acts[i].Insert? && LastInsert(acts[..k], acts[i].name) == i
    requires LookupOf(After(acts[..k]), acts[k].cpu, acts[k].latency, lookup)
    requires BatchOf(After(acts[..k]), lookup, batch)
    ensures Contributes(acts, i, k) <==> InBatch(batch, acts[i].name)
    ensures forall p | p in batch && p.name == acts[i].name :: p.id == acts[i].id && p.handle == acts[i].handle
  {
    var services, name := After(acts[..k]), acts[i].name;
    ServicesHistory(acts[..k], name);
    hide Normalised, Emits, RangesOf, After, Scored, Effective;
    if InBatch(batch, name) {
      var p :| 0 <= p < |batch| && batch[p].name == name;
      assert PairOf(services, lookup, batch[p]);
    }
    forall p | p in batch && p.name == name ensures p.id == acts[i].id && p.handle == acts[i].handle {
      var q :| 0 <= q < |batch| && batch[q] == p;
      assert PairOf(services, lookup, batch[q]);
    }
  }

  /** Every inserted snapshot has the shape that the watcher gives it. */
  ghost predicate WatcherInserts(acts: seq<Act>) {
    forall i | 0 <= i < |acts| && acts[i].Insert? ::
      Shaped(NftablesService(acts[i].id, acts[i].handle, false, acts[i].hosts))
  }

  ghost predicate Shaped(service: NftablesService) {
    Populated(service) && HostsDisjoint(service)
  }

  /** A rule of an attempted batch comes from a snapshot of the watcher's shape. */
  lemma RuleOrigin(acts: seq<Act>, k: int, lookup: map<string, F64>, batch: seq<RulePair>,
                   p: RulePair)
    requires WatcherInserts(acts) && Attempts(acts, k)
    requires BatchOf(After(acts[..k]), lookup, batch) && p in batch
    ensures p.name in After(acts[..k])
    ensures var service := After(acts[..k])[p.name];
      && Populated(service) && HostsDisjoint(service)
      && RangesOf(service, lookup, p.verdicts, p.modulo) && p.verdicts != []
  {
    var services := After(acts[..k]);
    var q :| 0 <= q < |batch| && batch[q] == p;
    assert PairOf(services, lookup, batch[q]);
    hide RangesOf, Emits, NothingMeasured;
    ServicesHistory(acts[..k], p.name);
    hide After;
    var i := LastInsert(acts[..k], p.name);
    assert acts[i].Insert? && acts[i] == acts[..k][i];
    assert Shaped(NftablesService(acts[i].id, acts[i].handle, false, acts[i].hosts));
  }

  /** In every run, whatever the signs of the averages: each rule of an attempted batch has one range per
      backend, and partitions its modulus exactly when every scored host is due a slot for each of its
      backends. */
  lemma RunPartition(acts: seq<Act>, k: int, lookup: map<string, F64>, batch: seq<RulePair>,
                     p: RulePair)
    requires WatcherInserts(acts) && Attempts(acts, k)
    requires LookupOf(After(acts[..k]), acts[k].cpu, acts[k].latency, lookup)
    requires ScoreSum(lookup.Keys, acts[k].cpu, acts[k].latency) != 0.0
    requires BatchOf(After(acts[..k]), lookup, batch) && p in batch
    ensures p.name in After(acts[..k])
    ensures forall a, b | 0 <= a < b < |p.verdicts| :: p.verdicts[a].target != p.verdicts[b].target
    ensures Partitions(p.verdicts, p.modulo) <==>
      Covered(After(acts[..k])[p.name], lookup, acts[k].cpu, acts[k].latency)
  {
    RuleOrigin(acts, k, lookup, batch, p);
    assert Divided(lookup, acts[k].cpu, acts[k].latency);
    hide *;
    var service := After(acts[..k])[p.name];
    OneRangeEach(service, lookup, p.verdicts, p.modulo);
    DrawsAreWidths(service, lookup, acts[k].cpu, acts[k].latency, p.verdicts, p.modulo);
  }

  /** And while no host's score is negative, it hands out at most its service's share of 100 and less than
      one slot per backend below that. */
  lemma RunShare(acts: seq<Act>, k: int, lookup: map<string, F64>, batch: seq<RulePair>, p: RulePair)
    requires WatcherInserts(acts) && Attempts(acts, k)
    requires LookupOf(After(acts[..k]), acts[k].cpu, acts[k].latency, lookup)
    requires ScoreSum(lookup.Keys, acts[k].cpu, acts[k].latency) != 0.0
    requires NoneNegative(lookup, acts[k].cpu, acts[k].latency)
    requires BatchOf(After(acts[..k]), lookup, batch) && p in batch
    ensures p.name in After(acts[..k])
    ensures var service := After(acts[..k])[p.name];
      var share := ShareOf(ScoreSum(ScoredOf(service, lookup), acts[k].cpu, acts[k].latency),
                           ScoreSum(lookup.Keys, acts[k].cpu, acts[k].latency), 100.0);
      share - |p.verdicts| as real < p.modulo as real <= share <= 100.0
  {
    RuleOrigin(acts, k, lookup, batch, p);
    assert Measured(lookup, acts[k].cpu, acts[k].latency);
    hide *;
    ModulusNearShare(After(acts[..k])[p.name], lookup, acts[k].cpu, acts[k].latency, p.verdicts, p.modulo);
  }
}
