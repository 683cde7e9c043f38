/** Pairing of the climbing and the descending measurement of each load level. */
module Hysteresis {
  import opened Collections
  import opened Schedule

  datatype EvaluationRow = EvaluationRow(configuration: string, step: nat, leg: Leg, rpsPerNode: string,
                                         offered: nat, mean: real, throughput: real)

  datatype Pair = Pair(configuration: string, rpsPerNode: string, offered: nat, upStep: nat, downStep: nat,
                       upMean: real, downMean: real, deltaMean: real,
                       upThroughput: real, downThroughput: real, deltaThroughput: real)

  function PairOf(up: EvaluationRow, down: EvaluationRow): Pair {
    Pair(up.configuration, up.rpsPerNode, up.offered, up.step, down.step,
         up.mean, down.mean, down.mean - up.mean,
         up.throughput, down.throughput, down.throughput - up.throughput)
  }

  function Of(rows: seq<EvaluationRow>, configuration: string): (own: seq<EvaluationRow>)
    ensures forall i | 0 <= i < |own| :: own[i].configuration == configuration
  {
    if rows == [] then []
    else
      var init, last := Of(rows[..|rows| - 1], configuration), rows[|rows| - 1];
      if last.configuration == configuration then init + [last] else init
  }

  /** Assignment to a key of an insertion-ordered dictionary: replaced in place, or appended. */
  function Put(dict: seq<EvaluationRow>, row: EvaluationRow): seq<EvaluationRow> {
    if dict == [] then [row]
    else if dict[0].rpsPerNode == row.rpsPerNode then [row] + dict[1..]
    else [dict[0]] + Put(dict[1..], row)
  }

  ghost predicate DistinctKeys(dict: seq<EvaluationRow>) {
    forall i, j | 0 <= i < j < |dict| :: dict[i].rpsPerNode != dict[j].rpsPerNode
  }

  lemma {:induction false} PutMembers(dict: seq<EvaluationRow>, row: EvaluationRow)
    requires DistinctKeys(dict)
    ensures DistinctKeys(Put(dict, row))
    ensures forall x :: x in Put(dict, row) <==> x == row || (x in dict && x.rpsPerNode != row.rpsPerNode)
    decreases |dict|
  {
    if dict != [] {
      var head, tail := dict[0], dict[1..];
      assert dict == [head] + tail;
      forall x | x in tail ensures x.rpsPerNode != head.rpsPerNode {
        var i :| 0 <= i < |tail| && tail[i] == x;
        assert dict[i + 1] == x;
      }
      if head.rpsPerNode != row.rpsPerNode {
        PutMembers(tail, row);
        var rest := Put(tail, row);
        forall j | 0 <= j < |rest| ensures rest[j].rpsPerNode != head.rpsPerNode {
          assert rest[j] in rest;
        }
      }
    }
  }

  /** The `up` dictionary after all rows. */
  function Ups(own: seq<EvaluationRow>): seq<EvaluationRow> {
    if own == [] then []
    else
      var init, last := Ups(own[..|own| - 1]), own[|own| - 1];
      if last.leg == Up then Put(init, last) else init
  }

  /** The `down` dictionary after all rows; only its lookups matter. */
  function Downs(own: seq<EvaluationRow>): map<string, EvaluationRow> {
    if own == [] then map[]
    else
      var init, last := Downs(own[..|own| - 1]), own[|own| - 1];
      if last.leg == Down then init[last.rpsPerNode := last] else init
  }

  predicate IsVisit(row: EvaluationRow, leg: Leg, ratio: string) {
    row.leg == leg && row.rpsPerNode == ratio
  }

  /** The last row that measured a level on a leg, -1 if there is none. */
  function LastVisit(own: seq<EvaluationRow>, leg: Leg, ratio: string): (i: int)
    ensures -1 <= i < |own|
    ensures i >= 0 ==> IsVisit(own[i], leg, ratio)
    ensures forall j | i < j < |own| :: !IsVisit(own[j], leg, ratio)
  {
    if own == [] then -1
    else if IsVisit(own[|own| - 1], leg, ratio) then |own| - 1
    else
      var i := LastVisit(own[..|own| - 1], leg, ratio);
      i
  }

  lemma {:induction false} UpsAreLastVisits(own: seq<EvaluationRow>)
    ensures DistinctKeys(Ups(own))
    ensures forall x :: x in Ups(own) <==> HoldsLast(own, Up, x)
    decreases |own|
  {
    if own != [] {
      var init, last := own[..|own| - 1], own[|own| - 1];
      UpsAreLastVisits(init);
      PutMembers(Ups(init), last);
      forall x ensures x in Ups(own) <==> HoldsLast(own, Up, x) {
        HoldsLastNext(own, Up, x);
      }
    }
  }

  lemma HoldsLastNext(own: seq<EvaluationRow>, leg: Leg, x: EvaluationRow)
    requires own != []
    ensures var init, last := own[..|own| - 1], own[|own| - 1];
      HoldsLast(own, leg, x) <==> if IsVisit(last, leg, x.rpsPerNode) then x == last else HoldsLast(init, leg, x)
  {
  }

  ghost predicate HoldsLast(own: seq<EvaluationRow>, leg: Leg, x: EvaluationRow) {
    var i := LastVisit(own, leg, x.rpsPerNode);
    i >= 0 && own[i] == x
  }

  lemma {:induction false} DownsAreLastVisits(own: seq<EvaluationRow>, ratio: string)
    ensures ratio in Downs(own) <==> LastVisit(own, Down, ratio) >= 0
    ensures ratio in Downs(own) ==> Downs(own)[ratio] == own[LastVisit(own, Down, ratio)]
    decreases |own|
  {
    if own != [] {
      DownsAreLastVisits(own[..|own| - 1], ratio);
    }
  }

  /** Python's `sorted` by offered load: stable, ascending. */
  function SortedByLoad(rows: seq<EvaluationRow>): seq<EvaluationRow> {
    if rows == [] then [] else InsertByLoad(SortedByLoad(rows[..|rows| - 1]), rows[|rows| - 1])
  }

  function InsertByLoad(sorted: seq<EvaluationRow>, row: EvaluationRow): seq<EvaluationRow> {
    if sorted == [] then [row]
    else
      var init, last := sorted[..|sorted| - 1], sorted[|sorted| - 1];
      if last.offered <= row.offered then sorted + [row] else InsertByLoad(init, row) + [last]
  }

  ghost predicate Ascending(rows: seq<EvaluationRow>) {
    forall i, j | 0 <= i < j < |rows| :: rows[i].offered <= rows[j].offered
  }

  lemma {:induction false} InsertMembers(sorted: seq<EvaluationRow>, row: EvaluationRow)
    ensures multiset(InsertByLoad(sorted, row)) == multiset(sorted) + multiset{row}
    ensures forall x :: x in InsertByLoad(sorted, row) <==> x == row || x in sorted
    decreases |sorted|
  {
    if sorted != [] {
      var init, last := sorted[..|sorted| - 1], sorted[|sorted| - 1];
      assert sorted == init + [last];
      InsertMembers(init, row);
    }
  }

  lemma {:induction false} InsertAscends(sorted: seq<EvaluationRow>, row: EvaluationRow)
    requires Ascending(sorted)
    ensures Ascending(InsertByLoad(sorted, row))
    decreases |sorted|
  {
    if sorted != [] {
      var init, last := sorted[..|sorted| - 1], sorted[|sorted| - 1];
      if last.offered > row.offered {
        InsertAscends(init, row);
        InsertMembers(init, row);
        var rest := InsertByLoad(init, row);
        forall i | 0 <= i < |rest| ensures rest[i].offered <= last.offered {
          assert rest[i] in rest;
        }
      }
    }
  }

  lemma {:induction false} SortFacts(rows: seq<EvaluationRow>)
    ensures Ascending(SortedByLoad(rows))
    ensures multiset(SortedByLoad(rows)) == multiset(rows)
    decreases |rows|
  {
    if rows != [] {
      var init, last := rows[..|rows| - 1], rows[|rows| - 1];
      assert rows == init + [last];
      SortFacts(init);
      InsertMembers(SortedByLoad(init), last);
      InsertAscends(SortedByLoad(init), last);
    }
  }

  /** The rows that have a partner, paired with it, in order. */
  function Matched(ups: seq<EvaluationRow>, downs: map<string, EvaluationRow>): seq<Pair> {
    if ups == [] then []
    else
      var init, last := Matched(ups[..|ups| - 1], downs), ups[|ups| - 1];
      if last.rpsPerNode in downs then init + [PairOf(last, downs[last.rpsPerNode])] else init
  }

  function Pairs(own: seq<EvaluationRow>): seq<Pair> {
    Matched(SortedByLoad(Ups(own)), Downs(own))
  }

  lemma NextRow(rows: seq<EvaluationRow>, i: nat, configuration: string)
    requires i < |rows|
    ensures var own, next := Of(rows[..i], configuration), Of(rows[..i + 1], configuration);
      if rows[i].configuration != configuration then next == own
      else
        && next == own + [rows[i]]
        && Ups(next) == (if rows[i].leg == Up then Put(Ups(own), rows[i]) else Ups(own))
        && Downs(next) == (if rows[i].leg == Down then Downs(own)[rows[i].rpsPerNode := rows[i]] else Downs(own))
  {
    assert rows[..i + 1][..i] == rows[..i];
    var own := Of(rows[..i], configuration);
    assert (own + [rows[i]])[..|own|] == own;
  }

  /** The two dictionaries of one configuration. */
  method CollectLegs(evaluationRows: seq<EvaluationRow>, configuration: string)
    returns (up: seq<EvaluationRow>, down: map<string, EvaluationRow>)
    ensures up == Ups(Of(evaluationRows, configuration)) && down == Downs(Of(evaluationRows, configuration))
  {
    up, down := [], map[];
    for i := 0 to |evaluationRows|
      invariant up == Ups(Of(evaluationRows[..i], configuration))
      invariant down == Downs(Of(evaluationRows[..i], configuration))
    {
      NextRow(evaluationRows, i, configuration);
      hide Of, Ups, Downs, Put;
      var row := evaluationRows[i];
      if row.configuration != configuration {
        continue;
      }
      if row.leg == Up {
        up := Put(up, row);
      } else if row.leg == Down {
        down := down[row.rpsPerNode := row];
      }
    }
    assert evaluationRows[..|evaluationRows|] == evaluationRows;
  }

  /** The body of the configuration loop. */
  method PairConfiguration(evaluationRows: seq<EvaluationRow>, configuration: string) returns (rows: seq<Pair>)
    ensures rows == Pairs(Of(evaluationRows, configuration))
  {
    var up, down := CollectLegs(evaluationRows, configuration);
    rows := [];
    var ups := SortedByLoad(up);
    for i := 0 to |ups|
      invariant rows == Matched(ups[..i], down)
    {
      assert ups[..i + 1][..i] == ups[..i];
      hide SortedByLoad, Of, Ups, Downs;
      if ups[i].rpsPerNode !in down {
        continue;
      }
      rows := rows + [PairOf(ups[i], down[ups[i].rpsPerNode])];
    }
    assert ups[..|ups|] == ups;
  }

  function AllPairs(evaluationRows: seq<EvaluationRow>, configurations: seq<string>): seq<Pair> {
    if configurations == [] then []
    else
      var init, last := configurations[..|configurations| - 1], configurations[|configurations| - 1];
      AllPairs(evaluationRows, init) + Pairs(Of(evaluationRows, last))
  }

  // ----- alphabetical order

  /** Code point order of strings. */
  predicate Precedes(a: string, b: string) {
    if a == "" then b != ""
    else if b == "" then false
    else a[0] < b[0] || (a[0] == b[0] && Precedes(a[1..], b[1..]))
  }

  lemma {:induction false} PrecedesIsTotal(a: string, b: string)
    ensures a == b || Precedes(a, b) || Precedes(b, a)
    ensures !(Precedes(a, b) && Precedes(b, a)) && !Precedes(a, a)
    decreases |a|
  {
    if a != "" {
      PrecedesIsTotal(a[1..], a[1..]);
      if b != "" {
        PrecedesIsTotal(a[1..], b[1..]);
        assert a == [a[0]] + a[1..] && b == [b[0]] + b[1..];
      }
    }
  }

  lemma {:induction false} PrecedesIsTransitive(a: string, b: string, c: string)
    requires Precedes(a, b) && Precedes(b, c)
    ensures Precedes(a, c)
    decreases |a|
  {
    if a != "" && a[0] == b[0] == c[0] {
      PrecedesIsTransitive(a[1..], b[1..], c[1..]);
    }
  }

  ghost predicate Alphabetical(names: seq<string>) {
    forall i, j | 0 <= i < j < |names| :: Precedes(names[i], names[j])
  }

  /** Insertion into an alphabetical list. */
  function InsertName(names: seq<string>, name: string): seq<string> {
    if names == [] then [name]
    else if Precedes(names[0], name) then [names[0]] + InsertName(names[1..], name)
    else [name] + names
  }

  lemma {:induction false} InsertNameSorts(names: seq<string>, name: string)
    requires Alphabetical(names) && name !in names
    ensures Alphabetical(InsertName(names, name))
    ensures forall x :: x in InsertName(names, name) <==> x == name || x in names
    decreases |names|
  {
    if names != [] {
      var head, tail := names[0], names[1..];
      assert names == [head] + tail;
      PrecedesIsTotal(head, name);
      if Precedes(head, name) {
        InsertNameSorts(tail, name);
        var rest := InsertName(tail, name);
        forall j | 0 <= j < |rest| ensures Precedes(head, rest[j]) {
          assert rest[j] in rest;
        }
      } else {
        forall j | 0 <= j < |names| ensures Precedes(name, names[j]) {
          if j > 0 { PrecedesIsTransitive(name, head, names[j]); }
        }
      }
    }
  }

  /** Python's `sorted` of a set of names. */
  method SortedNames(names: set<string>) returns (sorted: seq<string>)
    ensures Enumerates(sorted, names) && Alphabetical(sorted)
  {
    var order := HashOrder(names);
    sorted := [];
    for i := 0 to |order|
      invariant Alphabetical(sorted) && forall x :: x in sorted <==> x in order[..i]
    {
      hide Precedes;
      assert order[..i + 1] == order[..i] + [order[i]];
      assert order[i] !in order[..i];
      InsertNameSorts(sorted, order[i]);
      sorted := InsertName(sorted, order[i]);
    }
    assert order[..|order|] == order;
    DistinctIfSorted(sorted);
  }

  lemma DistinctIfSorted(names: seq<string>)
    requires Alphabetical(names)
    ensures forall i, j | 0 <= i < j < |names| :: names[i] != names[j]
  {
    forall i, j | 0 <= i < j < |names| ensures names[i] != names[j] {
      PrecedesIsTotal(names[i], names[j]);
    }
  }

  lemma NoMembers(names: seq<string>)
    ensures names == [] || exists x :: x in names
  {
    if names != [] {
      assert names[0] in names;
    }
  }

  lemma TailMembers(names: seq<string>)
    requires Alphabetical(names) && names != []
    ensures forall x :: x in names[1..] <==> x in names && x != names[0]
  {
    DistinctIfSorted(names);
    var tail := names[1..];
    assert names == [names[0]] + tail;
    forall x | x in tail ensures x != names[0] {
      var i :| 0 <= i < |tail| && tail[i] == x;
      assert names[i + 1] == x;
    }
  }

  /** There is only one alphabetical order. */
  lemma {:induction false} AlphabeticalUnique(a: seq<string>, b: seq<string>)
    requires Alphabetical(a) && Alphabetical(b) && forall x :: x in a <==> x in b
    ensures a == b
    decreases |a|
  {
    if a == [] {
      NoMembers(b);
    } else {
      assert a[0] in b;
      var j :| 0 <= j < |b| && b[j] == a[0];
      assert b[0] in a;
      var i :| 0 <= i < |a| && a[i] == b[0];
      PrecedesIsTotal(a[0], b[0]);
      assert a[0] == b[0];
      TailMembers(a);
      TailMembers(b);
      AlphabeticalUnique(a[1..], b[1..]);
      assert a == [a[0]] + a[1..] && b == [b[0]] + b[1..];
    }
  }

  function Configurations(evaluationRows: seq<EvaluationRow>): set<string> {
    set i | 0 <= i < |evaluationRows| :: evaluationRows[i].configuration
  }

  /** The tables of all configurations, in alphabetical order. */
  ghost predicate TablesOf(rows: seq<Pair>, evaluationRows: seq<EvaluationRow>) {
    exists order :: Enumerates(order, Configurations(evaluationRows)) && Alphabetical(order)
      && rows == AllPairs(evaluationRows, order)
  }

  method BuildHysteresisRows(evaluationRows: seq<EvaluationRow>) returns (rows: seq<Pair>)
    ensures TablesOf(rows, evaluationRows)
  {
    var configurations := SortedNames(Configurations(evaluationRows));
    rows := [];
    for i := 0 to |configurations|
      invariant rows == AllPairs(evaluationRows, configurations[..i])
    {
      assert configurations[..i + 1][..i] == configurations[..i];
      var pairs := PairConfiguration(evaluationRows, configurations[i]);
      rows := rows + pairs;
    }
    assert configurations[..|configurations|] == configurations;
  }

  /** The output is a function of the rows. */
  lemma TablesUnique(a: seq<Pair>, b: seq<Pair>, evaluationRows: seq<EvaluationRow>)
    requires TablesOf(a, evaluationRows) && TablesOf(b, evaluationRows)
    ensures a == b
  {
    var p :| Enumerates(p, Configurations(evaluationRows)) && Alphabetical(p) && a == AllPairs(evaluationRows, p);
    var q :| Enumerates(q, Configurations(evaluationRows)) && Alphabetical(q) && b == AllPairs(evaluationRows, q);
    hide Alphabetical, AllPairs;
    AlphabeticalUnique(p, q);
  }
}
