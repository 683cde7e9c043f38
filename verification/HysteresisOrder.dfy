/** The order of the hysteresis table: configurations by name, pairs by load, equal loads by the first climb. */
module HysteresisOrder {
  import opened Collections
  import opened Schedule
  import opened Hysteresis

  // ----- within a configuration

  /** The first row that measured a level on the climb, -1 if there is none. */
  function FirstVisit(own: seq<EvaluationRow>, ratio: string): (i: int)
    ensures -1 <= i < |own|
    ensures i >= 0 ==> IsVisit(own[i], Up, ratio) && forall j | 0 <= j < i :: !IsVisit(own[j], Up, ratio)
    ensures i < 0 ==> forall j | 0 <= j < |own| :: !IsVisit(own[j], Up, ratio)
  {
    if own == [] then -1
    else
      var n := |own| - 1;
      var i := FirstVisit(own[..n], ratio);
      assert forall j | 0 <= j < n :: own[..n][j] == own[j];
      if i >= 0 then i else if IsVisit(own[n], Up, ratio) then n else -1
  }

  lemma FirstVisitNext(own: seq<EvaluationRow>, ratio: string)
    requires own != []
    ensures var n := |own| - 1;
      var before := FirstVisit(own[..n], ratio);
      FirstVisit(own, ratio) == if before >= 0 then before else if IsVisit(own[n], Up, ratio) then n else -1
  {
  }

  ghost predicate HasKey(dict: seq<EvaluationRow>, ratio: string) {
    exists i | 0 <= i < |dict| :: dict[i].rpsPerNode == ratio
  }

  /** Assigning to a known key leaves it in its place; a new key goes to the end. */
  lemma {:induction false} PutKeys(dict: seq<EvaluationRow>, row: EvaluationRow)
    ensures |Put(dict, row)| == if HasKey(dict, row.rpsPerNode) then |dict| else |dict| + 1
    ensures forall i | 0 <= i < |dict| :: Put(dict, row)[i].rpsPerNode == dict[i].rpsPerNode
    ensures !HasKey(dict, row.rpsPerNode) ==> Put(dict, row)[|dict|] == row
    decreases |dict|
  {
    if dict != [] && dict[0].rpsPerNode != row.rpsPerNode {
      var tail := dict[1..];
      PutKeys(tail, row);
      assert Put(dict, row) == [dict[0]] + Put(tail, row);
      if i :| 0 <= i < |dict| && dict[i].rpsPerNode == row.rpsPerNode {
        assert tail[i - 1].rpsPerNode == row.rpsPerNode;
      }
      if i :| 0 <= i < |tail| && tail[i].rpsPerNode == row.rpsPerNode {
        assert dict[i + 1].rpsPerNode == row.rpsPerNode;
      }
    }
  }

  /** The levels of the `up` dictionary are those ever climbed, in the order in which they first were. */
  ghost predicate ByFirstVisit(own: seq<EvaluationRow>, ups: seq<EvaluationRow>) {
    && (forall r :: HasKey(ups, r) <==> FirstVisit(own, r) >= 0)
    && (forall i, j | 0 <= i < j < |ups| ::
      FirstVisit(own, ups[i].rpsPerNode) < FirstVisit(own, ups[j].rpsPerNode))
  }

  lemma {:induction false} UpsByFirstVisit(own: seq<EvaluationRow>)
    ensures ByFirstVisit(own, Ups(own))
    decreases |own|
  {
    if own != [] {
      var init, last := own[..|own| - 1], own[|own| - 1];
      UpsByFirstVisit(init);
      assert Ups(own) == if last.leg == Up then Put(Ups(init), last) else Ups(init);
      hide Ups, Put, FirstVisit;
      if last.leg == Up {
        PutByFirstVisit(own, Ups(init));
      } else {
        SameByFirstVisit(own, Ups(init));
      }
    } else {
      assert forall r :: FirstVisit(own, r) < 0;
    }
  }

  lemma SameByFirstVisit(own: seq<EvaluationRow>, ups: seq<EvaluationRow>)
    requires own != [] && own[|own| - 1].leg != Up && ByFirstVisit(own[..|own| - 1], ups)
    ensures ByFirstVisit(own, ups)
  {
    forall r ensures FirstVisit(own, r) == FirstVisit(own[..|own| - 1], r) {
      FirstVisitNext(own, r);
    }
    hide FirstVisit;
  }

  lemma PutByFirstVisit(own: seq<EvaluationRow>, ups: seq<EvaluationRow>)
    requires own != [] && own[|own| - 1].leg == Up && ByFirstVisit(own[..|own| - 1], ups)
    ensures ByFirstVisit(own, Put(ups, own[|own| - 1]))
  {
    hide FirstVisit, Put;
    var n := |own| - 1;
    var init, last := own[..n], own[n];
    var after := Put(ups, last);
    PutKeys(ups, last);
    forall i | 0 <= i < |ups|
      ensures FirstVisit(own, ups[i].rpsPerNode) == FirstVisit(init, ups[i].rpsPerNode) >= 0
    {
      assert HasKey(ups, ups[i].rpsPerNode);
      FirstVisitNext(own, ups[i].rpsPerNode);
    }
    FirstVisitNext(own, last.rpsPerNode);
    forall r ensures HasKey(after, r) <==> FirstVisit(own, r) >= 0 {
      FirstVisitNext(own, r);
      KeysAfter(ups, last, r);
    }
    assert forall i | 0 <= i < |ups| :: after[i].rpsPerNode == ups[i].rpsPerNode;
    forall i, j | 0 <= i < j < |after|
      ensures FirstVisit(own, after[i].rpsPerNode) < FirstVisit(own, after[j].rpsPerNode)
    {
      assert j == |ups| ==> FirstVisit(own, last.rpsPerNode) == n;
      assert j < |ups| ==> FirstVisit(init, ups[i].rpsPerNode) < FirstVisit(init, ups[j].rpsPerNode);
    }
  }

  lemma KeysAfter(dict: seq<EvaluationRow>, row: EvaluationRow, r: string)
    ensures HasKey(Put(dict, row), r) <==> HasKey(dict, r) || r == row.rpsPerNode
  {
    hide Put;
    PutKeys(dict, row);
    var after := Put(dict, row);
    if i :| 0 <= i < |dict| && dict[i].rpsPerNode == r {
      assert after[i].rpsPerNode == r;
    }
    if i :| 0 <= i < |after| && after[i].rpsPerNode == r {
      assert i < |dict| ==> dict[i].rpsPerNode == r;
    }
    if !HasKey(dict, row.rpsPerNode) {
      assert after[|dict|] == row;
    }
  }

  /** Ascending in load; equal loads by their first visit. */
  ghost predicate ByLoad(own: seq<EvaluationRow>, rows: seq<EvaluationRow>) {
    forall i, j | 0 <= i < j < |rows| ::
      Before(own, rows[i].offered, rows[i].rpsPerNode, rows[j].offered, rows[j].rpsPerNode)
  }

  predicate Before(own: seq<EvaluationRow>, load: nat, ratio: string, load': nat, ratio': string) {
    load < load' || (load == load' && FirstVisit(own, ratio) < FirstVisit(own, ratio'))
  }

  lemma {:induction false} InsertStable(own: seq<EvaluationRow>, sorted: seq<EvaluationRow>, row: EvaluationRow)
    requires ByLoad(own, sorted)
    requires forall x | x in sorted :: FirstVisit(own, x.rpsPerNode) < FirstVisit(own, row.rpsPerNode)
    ensures ByLoad(own, InsertByLoad(sorted, row))
    decreases |sorted|
  {
    hide FirstVisit;
    if sorted != [] {
      var init, last := sorted[..|sorted| - 1], sorted[|sorted| - 1];
      assert last in sorted && forall x | x in init :: x in sorted;
      if last.offered <= row.offered {
        var after := sorted + [row];
        forall i | 0 <= i < |sorted|
          ensures Before(own, sorted[i].offered, sorted[i].rpsPerNode, row.offered, row.rpsPerNode)
        {
          assert sorted[i] in sorted;
          assert i < |init| ==> Before(own, sorted[i].offered, sorted[i].rpsPerNode, last.offered, last.rpsPerNode);
        }
      } else {
        InsertStable(own, init, row);
        InsertMembers(init, row);
        var rest := InsertByLoad(init, row);
        forall i | 0 <= i < |rest|
          ensures Before(own, rest[i].offered, rest[i].rpsPerNode, last.offered, last.rpsPerNode)
        {
          assert rest[i] in rest;
          if rest[i] in init {
            var k :| 0 <= k < |init| && init[k] == rest[i];
            assert sorted[k] == rest[i];
          }
        }
      }
    }
  }

  lemma {:induction false} SortStable(own: seq<EvaluationRow>, rows: seq<EvaluationRow>)
    requires forall i, j | 0 <= i < j < |rows| ::
      FirstVisit(own, rows[i].rpsPerNode) < FirstVisit(own, rows[j].rpsPerNode)
    ensures ByLoad(own, SortedByLoad(rows))
    decreases |rows|
  {
    hide FirstVisit;
    if rows != [] {
      var init, last := rows[..|rows| - 1], rows[|rows| - 1];
      SortStable(own, init);
      SortFacts(init);
      forall x | x in SortedByLoad(init) ensures FirstVisit(own, x.rpsPerNode) < FirstVisit(own, last.rpsPerNode) {
        assert x in multiset(SortedByLoad(init));
        assert x in init;
        var i :| 0 <= i < |init| && init[i] == x;
        assert rows[i] == x;
      }
      InsertStable(own, SortedByLoad(init), last);
    }
  }

  ghost predicate PairsByLoad(own: seq<EvaluationRow>, pairs: seq<Pair>) {
    forall i, j | 0 <= i < j < |pairs| ::
      Before(own, pairs[i].offered, pairs[i].rpsPerNode, pairs[j].offered, pairs[j].rpsPerNode)
  }

  lemma {:induction false} MatchedInOrder(own: seq<EvaluationRow>, ups: seq<EvaluationRow>,
                                          downs: map<string, EvaluationRow>)
    requires ByLoad(own, ups)
    ensures PairsByLoad(own, Matched(ups, downs))
    ensures forall p | p in Matched(ups, downs) ::
      exists u | u in ups :: p.offered == u.offered && p.rpsPerNode == u.rpsPerNode
    decreases |ups|
  {
    hide FirstVisit;
    if ups != [] {
      var init, last := ups[..|ups| - 1], ups[|ups| - 1];
      assert last in ups && forall u | u in init :: u in ups;
      MatchedInOrder(own, init, downs);
      var before := Matched(init, downs);
      forall i | 0 <= i < |before|
        ensures Before(own, before[i].offered, before[i].rpsPerNode, last.offered, last.rpsPerNode)
      {
        assert before[i] in before;
        var u :| u in init && before[i].offered == u.offered && before[i].rpsPerNode == u.rpsPerNode;
        var k :| 0 <= k < |init| && init[k] == u;
        assert ups[k] == u;
      }
    }
  }

  /** The pairs of a configuration ascend in load, and those of equal load stand in the order in which their
      levels were first climbed. */
  lemma PairsInOrder(own: seq<EvaluationRow>)
    ensures PairsByLoad(own, Pairs(own))
  {
    UpsByFirstVisit(own);
    hide FirstVisit, Ups, Downs, Matched, SortedByLoad;
    SortStable(own, Ups(own));
    MatchedInOrder(own, SortedByLoad(Ups(own)), Downs(own));
  }

  // ----- all configurations

  /** The rows of a configuration are picked one by one, in order. */
  lemma {:induction false} OfConcat(a: seq<EvaluationRow>, b: seq<EvaluationRow>, name: string)
    ensures Of(a + b, name) == Of(a, name) + Of(b, name)
    decreases |b|
  {
    if b == [] {
      assert a + b == a;
    } else {
      assert (a + b)[..|a + b| - 1] == a + b[..|b| - 1];
      OfConcat(a, b[..|b| - 1], name);
    }
  }

  lemma OfOne(row: EvaluationRow, name: string)
    ensures Of([row], name) == if row.configuration == name then [row] else []
  {
    assert [row][..0] == [];
  }

  /** The pairs of one configuration in a table. */
  function PairsOf(table: seq<Pair>, name: string): seq<Pair> {
    if table == [] then []
    else
      var last := table[|table| - 1];
      PairsOf(table[..|table| - 1], name) + (if last.configuration == name then [last] else [])
  }

  lemma {:induction false} PairsOfConcat(a: seq<Pair>, b: seq<Pair>, name: string)
    ensures PairsOf(a + b, name) == PairsOf(a, name) + PairsOf(b, name)
    decreases |b|
  {
    if b == [] {
      assert a + b == a;
    } else {
      assert (a + b)[..|a + b| - 1] == a + b[..|b| - 1];
      PairsOfConcat(a, b[..|b| - 1], name);
    }
  }

  lemma {:induction false} PairsOfUniform(table: seq<Pair>, own: string, name: string)
    requires forall i | 0 <= i < |table| :: table[i].configuration == own
    ensures PairsOf(table, name) == if own == name then table else []
    decreases |table|
  {
    if table != [] {
      PairsOfUniform(table[..|table| - 1], own, name);
      assert table == table[..|table| - 1] + [table[|table| - 1]];
    }
  }

  lemma {:induction false} MatchedConfiguration(ups: seq<EvaluationRow>, downs: map<string, EvaluationRow>,
                                                name: string)
    requires forall u | u in ups :: u.configuration == name
    ensures forall i | 0 <= i < |Matched(ups, downs)| :: Matched(ups, downs)[i].configuration == name
    decreases |ups|
  {
    if ups != [] {
      assert ups[|ups| - 1] in ups && forall u | u in ups[..|ups| - 1] :: u in ups;
      MatchedConfiguration(ups[..|ups| - 1], downs, name);
    }
  }

  lemma PairsConfiguration(rows: seq<EvaluationRow>, name: string)
    ensures forall i | 0 <= i < |Pairs(Of(rows, name))| :: Pairs(Of(rows, name))[i].configuration == name
  {
    hide Ups, Downs, Matched, SortedByLoad, LastVisit;
    var own := Of(rows, name);
    UpsAreLastVisits(own);
    SortFacts(Ups(own));
    forall u | u in SortedByLoad(Ups(own)) ensures u.configuration == name {
      assert u in multiset(SortedByLoad(Ups(own)));
      assert u in Ups(own);
      assert HoldsLast(own, Up, u);
    }
    MatchedConfiguration(SortedByLoad(Ups(own)), Downs(own), name);
  }

  ghost predicate ByName(table: seq<Pair>) {
    forall i, j | 0 <= i < j < |table| ::
      table[i].configuration == table[j].configuration || Precedes(table[i].configuration, table[j].configuration)
  }

  lemma {:induction false} NamesInOrder(rows: seq<EvaluationRow>, order: seq<string>)
    ensures forall p | p in AllPairs(rows, order) :: p.configuration in order
    decreases |order|
  {
    hide Pairs, Of;
    if order != [] {
      var n := |order| - 1;
      assert order == order[..n] + [order[n]];
      NamesInOrder(rows, order[..n]);
      PairsConfiguration(rows, order[n]);
    }
  }

  lemma LastIsNew(order: seq<string>)
    requires Alphabetical(order) && order != []
    ensures var n := |order| - 1;
      order[n] !in order[..n] && forall x | x in order[..n] :: Precedes(x, order[n])
  {
    var n := |order| - 1;
    hide Precedes;
    forall x | x in order[..n] ensures Precedes(x, order[n]) && x != order[n] {
      var k :| 0 <= k < n && order[..n][k] == x;
      assert Precedes(order[k], order[n]);
      PrecedesIsTotal(x, x);
    }
  }

  lemma {:induction false} TablesByName(rows: seq<EvaluationRow>, order: seq<string>)
    requires Alphabetical(order)
    ensures ByName(AllPairs(rows, order))
    decreases |order|
  {
    if order != [] {
      var n := |order| - 1;
      TablesByName(rows, order[..n]);
      NamesInOrder(rows, order[..n]);
      LastIsNew(order);
      PairsConfiguration(rows, order[n]);
      hide Pairs, Of, Precedes, Alphabetical;
      var before, own := AllPairs(rows, order[..n]), Pairs(Of(rows, order[n]));
      assert AllPairs(rows, order) == before + own;
      hide AllPairs;
      forall i | 0 <= i < |before| ensures Precedes(before[i].configuration, order[n]) {
        assert before[i] in before;
      }
    }
  }

  lemma {:induction false} TableParts(rows: seq<EvaluationRow>, order: seq<string>, name: string)
    requires Alphabetical(order)
    ensures PairsOf(AllPairs(rows, order), name) == if name in order then Pairs(Of(rows, name)) else []
    decreases |order|
  {
    if order != [] {
      var n := |order| - 1;
      assert order == order[..n] + [order[n]];
      TableParts(rows, order[..n], name);
      LastIsNew(order);
      PairsConfiguration(rows, order[n]);
      hide Pairs, Of, Precedes, Alphabetical;
      var before, own := AllPairs(rows, order[..n]), Pairs(Of(rows, order[n]));
      assert AllPairs(rows, order) == before + own;
      hide AllPairs;
      PairsOfConcat(before, own, name);
      PairsOfUniform(own, order[n], name);
      hide PairsOf;
      assert [] + own == own && before + [] == before;
    }
  }

  /** The table lists the configurations by name, and holds for each of them exactly its own pairs. */
  lemma TableOrder(table: seq<Pair>, rows: seq<EvaluationRow>, name: string)
    requires TablesOf(table, rows)
    ensures ByName(table)
    ensures PairsOf(table, name) == Pairs(Of(rows, name))
  {
    hide AllPairs, Pairs, Precedes, ByName;
    var order :| Enumerates(order, Configurations(rows)) && Alphabetical(order) && table == AllPairs(rows, order);
    TablesByName(rows, order);
    TableParts(rows, order, name);
    if name !in order {
      NoRows(rows, name);
      assert Pairs([]) == [] by {
        NoPairs();
      }
    }
  }

  lemma NoPairs()
    ensures Pairs([]) == []
  {
  }

  lemma {:induction false} NoRows(rows: seq<EvaluationRow>, name: string)
    requires name !in Configurations(rows)
    ensures Of(rows, name) == []
    decreases |rows|
  {
    if rows != [] {
      var init := rows[..|rows| - 1];
      assert rows[|rows| - 1].configuration in Configurations(rows);
      forall i | 0 <= i < |init| ensures init[i].configuration != name {
        assert rows[i].configuration in Configurations(rows);
      }
      NoRows(init, name);
    }
  }

  /** `a` comes before `b` when, after a common beginning, it ends or has the smaller character. */
  lemma {:induction false} PrecedesIff(a: string, b: string)
    ensures Precedes(a, b) <==> exists k | 0 <= k <= |a| :: Differs(a, b, k)
    decreases |a|
  {
    if a != "" && b != "" && a[0] == b[0] {
      PrecedesIff(a[1..], b[1..]);
      forall k | 0 <= k < |a| ensures Differs(a, b, k + 1) <==> Differs(a[1..], b[1..], k) {
        if k < |b| {
          assert a[..k + 1] == [a[0]] + a[1..][..k];
          assert b[..k + 1] == [b[0]] + b[1..][..k];
        }
      }
      if k :| 0 <= k <= |a[1..]| && Differs(a[1..], b[1..], k) {
        assert Differs(a, b, k + 1);
      }
      if k :| 0 <= k <= |a| && Differs(a, b, k) {
        assert k > 0 && Differs(a[1..], b[1..], k - 1);
      }
    } else {
      forall k | 0 <= k <= |a| ensures Differs(a, b, k) ==> k == 0 {
        SameStart(a, b, k);
      }
      assert Differs(a, b, 0) <==> b != "" && (a == "" || a[0] < b[0]);
    }
  }

  lemma SameStart(a: string, b: string, k: nat)
    requires k <= |a|
    ensures Differs(a, b, k) && k > 0 ==> b != "" && a[0] == b[0]
  {
    if Differs(a, b, k) && k > 0 {
      assert a[..k][0] == a[0] && b[..k][0] == b[0];
    }
  }

  predicate Differs(a: string, b: string, k: nat)
    requires k <= |a|
  {
    k < |b| && a[..k] == b[..k] && (k == |a| || a[k] < b[k])
  }
}
