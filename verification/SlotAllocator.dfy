/** The slot allocator of proberv2: nodes receive a number of slots, nodes split them over their
    endpoints, and the ranges are laid out one after the other until the cap is reached. */
module SlotAllocator {
  import opened Float64
  import opened SlotMap

  datatype Ipv4 = Ipv4(bits: nat)

  /** One surviving node in iteration order, with its rounded portion of the cap. */
  datatype Block = Block(node: string, endpoints: seq<Ipv4>, portion: nat)

  /** One endpoint with the width it is designed to have before the cap is applied. */
  datatype Cell = Cell(endpoint: Ipv4, width: nat)

  function Min(a: int, b: int): int {
    if a <= b then a else b
  }

  /** A node with fewer slots than endpoints is skipped. */
  predicate Served(b: Block) {
    |b.endpoints| > 0 && b.portion >= |b.endpoints|
  }

  /** A served node's portion split over its endpoints. */
  function Cells(b: Block): seq<Cell> {
    if !Served(b) then
      []
    else
      var n := |b.endpoints|;
      seq(n, i requires 0 <= i < n =>
        Cell(b.endpoints[i], b.portion / n + (if i < b.portion % n then 1 else 0)))
  }

  function Design(blocks: seq<Block>): seq<Cell> {
    if blocks == [] then []
    else Design(blocks[..|blocks| - 1]) + Cells(blocks[|blocks| - 1])
  }

  function Total(cells: seq<Cell>): nat {
    if cells == [] then 0 else cells[0].width + Total(cells[1..])
  }

  /** The ranges that designed cells become when laid out from `start` under the cap. */
  function Lay(start: nat, cells: seq<Cell>, cap: nat): seq<Slot<Ipv4>>
    decreases |cells|
  {
    if cells == [] || start >= cap then []
    else
      [Slot(start, Min(start + cells[0].width, cap) - 1, cells[0].endpoint)]
      + Lay(start + cells[0].width, cells[1..], cap)
  }

  /** Some `u32` addition `starting + this_portion` made while laying out does not fit. */
  predicate Overflows(start: nat, cells: seq<Cell>, cap: nat)
    decreases |cells|
  {
    cells != [] && start < cap
    && (start + cells[0].width > U32_MAX || Overflows(start + cells[0].width, cells[1..], cap))
  }

  /** The division of the portion by the number of endpoints is by zero. */
  predicate DividesByZero(b: Block) {
    b.portion > 0 && b.endpoints == []
  }

  /** The body of the allocation loop for one node, from the division on. */
  method AllocateNode(b: Block, pairs: seq<Slot<Ipv4>>, start: nat, cap: nat)
    returns (panicked: bool, pairs': seq<Slot<Ipv4>>, start': nat)
    requires b.portion > 0 && start <= cap <= U32_MAX
    ensures panicked <==> DividesByZero(b) || Overflows(start, Cells(b), cap)
    ensures !panicked ==> pairs' == pairs + Lay(start, Cells(b), cap)
    ensures !panicked ==> start' == Min(start + Total(Cells(b)), cap)
  {
    var n := |b.endpoints|;
    if n == 0 {
      return true, pairs, start;
    }
    var portionEach, remainder := b.portion / n, b.portion % n;
    if portionEach == 0 {
      assert !Served(b) by { assert b.portion < n; }
      return false, pairs, start;
    }
    assert b.portion >= n;
    panicked, pairs', start' := PlaceEndpoints(b.endpoints, portionEach, remainder, pairs, start, cap, Cells(b));
  }

  /** The inner loop: one range per endpoint, the remainder going to the first few. */
  method PlaceEndpoints(endpoints: seq<Ipv4>, portionEach: nat, remainder: nat,
                        pairs: seq<Slot<Ipv4>>, start: nat, cap: nat, ghost cells: seq<Cell>)
    returns (panicked: bool, pairs': seq<Slot<Ipv4>>, start': nat)
    requires portionEach > 0 && start <= cap <= U32_MAX
    requires |cells| == |endpoints|
    requires forall i | 0 <= i < |cells| ::
      cells[i] == Cell(endpoints[i], portionEach + (if i < remainder then 1 else 0))
    ensures panicked <==> Overflows(start, cells, cap)
    ensures !panicked ==> pairs' == pairs + Lay(start, cells, cap)
    ensures !panicked ==> start' == Min(start + Total(cells), cap)
  {
    panicked, pairs', start' := false, pairs, start;
    var idx := 0;
    while idx < |endpoints|
      invariant 0 <= idx <= |endpoints| && start' <= cap && !panicked
      invariant pairs' + Lay(start', cells[idx..], cap) == pairs + Lay(start, cells, cap)
      invariant Min(start' + Total(cells[idx..]), cap) == Min(start + Total(cells), cap)
      invariant Overflows(start', cells[idx..], cap) == Overflows(start, cells, cap)
    {
      var thisPortion := if idx < remainder then portionEach + 1 else portionEach;
      if start' >= cap {
        return;
      }
      LayOne(start', cells, idx, cap);
      if start' + thisPortion > U32_MAX {
        return true, pairs', start';
      }
      var end := Min(start' + thisPortion - 1, cap - 1);
      Associative(pairs', [Slot(start', end, endpoints[idx])], Lay(end + 1, cells[idx + 1..], cap));
      pairs' := pairs' + [Slot(start', end, endpoints[idx])];
      start' := end + 1;
      idx := idx + 1;
      if start' >= cap {
        break;
      }
    }
  }

  /** One turn of the inner loop. */
  lemma LayOne(start: nat, cells: seq<Cell>, idx: nat, cap: nat)
    requires idx < |cells| && start < cap
    ensures var w, rest := cells[idx].width, cells[idx + 1..];
      var next := Min(start + w, cap);
      && Lay(start, cells[idx..], cap) == [Slot(start, next - 1, cells[idx].endpoint)] + Lay(next, rest, cap)
      && Min(start + Total(cells[idx..]), cap) == Min(next + Total(rest), cap)
      && Overflows(start, cells[idx..], cap) == (start + w > U32_MAX || Overflows(next, rest, cap))
  {
    assert cells[idx..][1..] == cells[idx + 1..];
    LayFromCap(start + cells[idx].width, Min(start + cells[idx].width, cap), cells[idx + 1..], cap);
  }

  /** Beyond the cap nothing is emitted, wherever the layout would have continued. */
  lemma LayFromCap(a: nat, b: nat, cells: seq<Cell>, cap: nat)
    requires a == b || (a >= cap && b >= cap)
    ensures Lay(a, cells, cap) == Lay(b, cells, cap)
    ensures Overflows(a, cells, cap) == Overflows(b, cells, cap)
  {
  }

  // ----- what the layout means

  lemma {:induction false} TotalConcat(a: seq<Cell>, b: seq<Cell>)
    ensures Total(a + b) == Total(a) + Total(b)
    decreases |a|
  {
    if a == [] {
      assert a + b == b;
    } else {
      assert (a + b)[1..] == a[1..] + b;
      TotalConcat(a[1..], b);
    }
  }

  lemma Associative<T>(a: seq<T>, b: seq<T>, c: seq<T>)
    ensures (a + b) + c == a + (b + c)
  {
  }

  /** Laying out `a` and then `b` is laying out `a + b`. */
  lemma {:induction false} LayConcat(start: nat, a: seq<Cell>, b: seq<Cell>, cap: nat)
    ensures Lay(start, a + b, cap) == Lay(start, a, cap) + Lay(start + Total(a), b, cap)
    decreases |a|
  {
    if a == [] {
      assert a + b == b;
    } else if start < cap {
      var next := start + a[0].width;
      var first := [Slot(start, Min(next, cap) - 1, a[0].endpoint)];
      assert (a + b)[1..] == a[1..] + b;
      LayConcat(next, a[1..], b, cap);
      Associative(first, Lay(next, a[1..], cap), Lay(next + Total(a[1..]), b, cap));
    }
  }

  lemma {:induction false} OverflowsConcat(start: nat, a: seq<Cell>, b: seq<Cell>, cap: nat)
    ensures Overflows(start, a + b, cap) <==> Overflows(start, a, cap) || Overflows(start + Total(a), b, cap)
    decreases |a|
  {
    if a == [] {
      assert a + b == b;
    } else if start < cap {
      assert (a + b)[1..] == a[1..] + b;
      OverflowsConcat(start + a[0].width, a[1..], b, cap);
    }
  }

  ghost predicate Positive(cells: seq<Cell>) {
    forall k | 0 <= k < |cells| :: cells[k].width >= 1
  }

  lemma {:induction false} DesignPositive(blocks: seq<Block>)
    ensures Positive(Design(blocks))
    decreases |blocks|
  {
    if blocks != [] {
      DesignPositive(blocks[..|blocks| - 1]);
      CellsTotal(blocks[|blocks| - 1]);
    }
  }

  /** The closed form of the layout: cell `k` is emitted iff the cells before it leave room, it
      begins where they end, and only the cap can shorten it. */
  lemma {:induction false} LayAt(start: nat, cells: seq<Cell>, cap: nat, k: nat)
    requires k < |cells|
    ensures |Lay(start, cells, cap)| <= |cells|
    ensures k < |Lay(start, cells, cap)| <==> start + Total(cells[..k]) < cap
    ensures k < |Lay(start, cells, cap)| ==>
      var lo := start + Total(cells[..k]);
      Lay(start, cells, cap)[k] == Slot(lo, Min(lo + cells[k].width, cap) - 1, cells[k].endpoint)
    decreases |cells|
  {
    LayLength(start, cells, cap);
    if k > 0 {
      assert cells[..k][1..] == cells[1..][..k - 1];
      LayAt(start + cells[0].width, cells[1..], cap, k - 1);
    }
  }

  lemma {:induction false} LayLength(start: nat, cells: seq<Cell>, cap: nat)
    ensures |Lay(start, cells, cap)| <= |cells|
    decreases |cells|
  {
    if cells != [] && start < cap {
      LayLength(start + cells[0].width, cells[1..], cap);
    }
  }

  /** Non-empty, consecutive, disjoint ranges that cover exactly the slots from `start` up to the
      cap or the end of the design, whichever comes first. */
  lemma {:induction false} LayIsContiguous(start: nat, cells: seq<Cell>, cap: nat)
    requires Positive(cells) && start <= cap
    ensures var slots := Lay(start, cells, cap);
      && (slots == [] <==> start == Min(start + Total(cells), cap))
      && (slots != [] ==> slots[0].lo == start && slots[|slots| - 1].hi == Min(start + Total(cells), cap) - 1)
      && (forall k | 0 <= k < |slots| :: slots[k].lo <= slots[k].hi)
      && (forall k | 0 < k < |slots| :: slots[k].lo == slots[k - 1].hi + 1)
    decreases |cells|
  {
    if cells != [] && start < cap {
      var next := start + cells[0].width;
      LayFromCap(next, Min(next, cap), cells[1..], cap);
      LayIsContiguous(Min(next, cap), cells[1..], cap);
    }
  }

  lemma LayPartitions(cells: seq<Cell>, cap: nat)
    requires Positive(cells)
    ensures Partitions(Lay(0, cells, cap), Min(Total(cells), cap))
  {
    LayIsContiguous(0, cells, cap);
  }

  /** Every range but the last keeps its designed width; the last loses exactly what the cap cuts. */
  lemma OnlyLastIsCut(cells: seq<Cell>, cap: nat, k: nat)
    requires k < |Lay(0, cells, cap)|
    ensures k < |cells| && Lay(0, cells, cap)[k].target == cells[k].endpoint
    ensures k + 1 < |Lay(0, cells, cap)| ==> Lay(0, cells, cap)[k].Width() == cells[k].width
    ensures k + 1 == |Lay(0, cells, cap)| ==>
      Lay(0, cells, cap)[k].Width() == Min(cells[k].width, cap - Total(cells[..k]))
  {
    LayLength(0, cells, cap);
    LayAt(0, cells, cap, k);
    if k + 1 < |Lay(0, cells, cap)| {
      LayAt(0, cells, cap, k + 1);
      assert cells[..k + 1] == cells[..k] + [cells[k]];
      TotalConcat(cells[..k], [cells[k]]);
    }
  }

  /** The first `i` endpoints of a node get `i` equal parts and one extra each while the remainder lasts. */
  lemma {:induction false} CellsPrefix(cells: seq<Cell>, each: nat, remainder: nat, i: nat)
    requires i <= |cells|
    requires forall k | 0 <= k < |cells| :: cells[k].width == each + (if k < remainder then 1 else 0)
    ensures Total(cells[..i]) == i * each + Min(i, remainder)
    decreases i
  {
    if i > 0 {
      CellsPrefix(cells, each, remainder, i - 1);
      assert cells[..i] == cells[..i - 1] + [cells[i - 1]];
      TotalConcat(cells[..i - 1], [cells[i - 1]]);
      assert i * each == (i - 1) * each + each;
    }
  }

  /** A served node is designed exactly its portion, as evenly as integers allow; a skipped one, nothing. */
  lemma CellsTotal(b: Block)
    ensures Total(Cells(b)) == if Served(b) then b.portion else 0
    ensures |Cells(b)| == if Served(b) then |b.endpoints| else 0
    ensures forall i | 0 <= i < |Cells(b)| :: Cells(b)[i].endpoint == b.endpoints[i] && Cells(b)[i].width >= 1
    ensures forall i, j | 0 <= i <= j < |Cells(b)| :: 0 <= Cells(b)[i].width - Cells(b)[j].width <= 1
  {
    if Served(b) {
      var n := |b.endpoints|;
      var cells, each, remainder := Cells(b), b.portion / n, b.portion % n;
      assert each >= 1;
      CellsPrefix(cells, each, remainder, n);
      assert cells[..n] == cells;
    }
  }

  /** Sum of the portions of the served nodes. */
  function ServedPortions(blocks: seq<Block>): nat {
    if blocks == [] then 0
    else
      var b := blocks[|blocks| - 1];
      ServedPortions(blocks[..|blocks| - 1]) + (if Served(b) then b.portion else 0)
  }

  lemma {:induction false} DesignTotal(blocks: seq<Block>)
    ensures Total(Design(blocks)) == ServedPortions(blocks)
    decreases |blocks|
  {
    if blocks != [] {
      var init := blocks[..|blocks| - 1];
      DesignTotal(init);
      TotalConcat(Design(init), Cells(blocks[|blocks| - 1]));
      CellsTotal(blocks[|blocks| - 1]);
    }
  }
}
