/** How far the slots a node really gets can be from its exact share: rounding, skipping and the cap
    together, for every order in which the nodes are visited. */
module SlotShares {
  import opened Float64
  import opened SlotMap
  import opened SlotAllocator

  function Sum(xs: seq<real>): real {
    if xs == [] then 0.0 else Sum(xs[..|xs| - 1]) + xs[|xs| - 1]
  }

  /** The blocks hold the rounded values of non-negative exact shares that add up to at most the cap. */
  ghost predicate Rounds(blocks: seq<Block>, exact: seq<real>, cap: nat) {
    && |exact| == |blocks|
    && (forall i | 0 <= i < |blocks| :: exact[i] >= 0.0 && blocks[i].portion == RoundReal(exact[i]))
    && Sum(exact) <= cap as real
  }

  /** Where node `i` would start without the cap, and the slots left to it under the cap. */
  function NodeStart(blocks: seq<Block>, i: nat): nat
    requires i <= |blocks|
  {
    ServedPortions(blocks[..i])
  }

  function Realised(blocks: seq<Block>, i: nat, cap: nat): int
    requires i < |blocks|
  {
    Min(NodeStart(blocks, i + 1), cap) - Min(NodeStart(blocks, i), cap)
  }

  /** Slot number `x` falls in one of the ranges numbered `from..to`. */
  ghost predicate Covers<T>(slots: seq<Slot<T>>, from: nat, to: nat, x: int) {
    exists k | from <= k < to && k < |slots| :: slots[k].Contains(x)
  }

  /** Slot number `x` is in a range emitted for an endpoint of node `i`. */
  ghost predicate InNode(blocks: seq<Block>, i: nat, cap: nat, x: int)
    requires i < |blocks|
  {
    Covers(Lay(0, Design(blocks), cap), |Design(blocks[..i])|, |Design(blocks[..i + 1])|, x)
  }

  ghost function NodeSlots(blocks: seq<Block>, i: nat, cap: nat): set<int>
    requires i < |blocks|
  {
    set x | 0 <= x < cap && InNode(blocks, i, cap, x)
  }

  lemma {:induction false} DesignSplits(blocks: seq<Block>, i: nat)
    requires i <= |blocks|
    ensures Design(blocks[..i]) <= Design(blocks)
    decreases |blocks|
  {
    if i < |blocks| {
      var init := blocks[..|blocks| - 1];
      assert init[..i] == blocks[..i];
      DesignSplits(init, i);
    } else {
      assert blocks[..i] == blocks;
    }
  }

  /** The emitted ranges of the first nodes are those of the first nodes alone, cut at the cap. */
  lemma {:induction false} LayOfPrefix(cells: seq<Cell>, prefix: seq<Cell>, cap: nat)
    requires Positive(cells) && prefix <= cells
    ensures Lay(0, prefix, cap) <= Lay(0, cells, cap)
    ensures |Lay(0, prefix, cap)| == |Lay(0, cells, cap)| || |Lay(0, prefix, cap)| == |prefix|
  {
    assert cells == prefix + cells[|prefix|..];
    LayConcat(0, prefix, cells[|prefix|..], cap);
    LayLength(0, prefix, cap);
    if |Lay(0, prefix, cap)| < |prefix| {
      var k := |Lay(0, prefix, cap)|;
      LayAt(0, prefix, cap, k);
      assert prefix == prefix[..k] + prefix[k..];
      TotalConcat(prefix[..k], prefix[k..]);
    }
  }

  /** The ranges of a contiguous part of the design cover the interval that the part was given. */
  lemma PartCovers(head: seq<Cell>, mid: seq<Cell>, rest: seq<Cell>, cap: nat, x: int)
    requires Positive(head + mid + rest)
    ensures Covers(Lay(0, head + mid + rest, cap), |head|, |head + mid|, x) <==>
      Min(Total(head), cap) <= x < Min(Total(head + mid), cap)
  {
    var all, upto := head + mid + rest, head + mid;
    assert forall k | 0 <= k < |upto| :: upto[k] == all[k];
    assert forall k | 0 <= k < |head| :: head[k] == all[k];
    LayOfPrefix(all, head, cap);
    LayOfPrefix(all, upto, cap);
    LayOfPrefix(upto, head, cap);
    LayPartitions(head, cap);
    LayPartitions(upto, cap);
    LayLength(0, head, cap);
    LayLength(0, upto, cap);
    SlotsOfPart(Lay(0, head, cap), Lay(0, upto, cap), Lay(0, all, cap),
                |head|, |upto|, Min(Total(head), cap), Min(Total(upto), cap), x);
  }

  lemma InNodeIff(blocks: seq<Block>, i: nat, cap: nat, x: int)
    requires i < |blocks|
    ensures InNode(blocks, i, cap, x) <==>
      Min(NodeStart(blocks, i), cap) <= x < Min(NodeStart(blocks, i + 1), cap)
  {
    var all, head, mid := Design(blocks), Design(blocks[..i]), Cells(blocks[i]);
    assert blocks[..i + 1][..i] == blocks[..i];
    assert Design(blocks[..i + 1]) == head + mid;
    DesignSplits(blocks, i + 1);
    DesignPositive(blocks);
    var rest := all[|head + mid|..];
    assert all == head + mid + rest;
    PartCovers(head, mid, rest, cap, x);
    DesignTotal(blocks[..i]);
    DesignTotal(blocks[..i + 1]);
  }

  /** The slots of node `i` are an interval, and there are exactly `Realised` of them. */
  lemma NodeSlotsCount(blocks: seq<Block>, i: nat, cap: nat)
    requires i < |blocks|
    ensures |NodeSlots(blocks, i, cap)| == Realised(blocks, i, cap)
  {
    var lo, hi := Min(NodeStart(blocks, i), cap), Min(NodeStart(blocks, i + 1), cap);
    NodeStartMonotone(blocks, i, i + 1);
    IntervalSize(lo, hi);
    forall x ensures x in NodeSlots(blocks, i, cap) <==> x in Interval(lo, hi) {
      InNodeIff(blocks, i, cap, x);
    }
    assert NodeSlots(blocks, i, cap) == Interval(lo, hi);
  }

  lemma SlotsOfPart<T>(head: seq<Slot<T>>, upto: seq<Slot<T>>, all: seq<Slot<T>>,
                       from: nat, to: nat, lo: nat, hi: nat, x: int)
    requires head <= upto <= all && Partitions(head, lo) && Partitions(upto, hi)
    requires |head| <= from && |upto| <= to
    requires |head| == |all| || |head| == from
    requires |upto| == |all| || |upto| == to
    ensures Covers(all, from, to, x) <==> lo <= x < hi
  {
    PartitionOwner(head, lo, x);
    PartitionOwner(upto, hi, x);
    if lo <= x < hi {
      var k :| OwnedBy(upto, x, k);
      if k < |head| {
        RangesAscend(head, lo, k, |head| - 1);
      }
      assert all[k].Contains(x);
    }
    if Covers(all, from, to, x) {
      var k :| from <= k < to && k < |all| && all[k].Contains(x);
      assert upto[k].Contains(x);
      if 0 <= x < lo {
        var j :| OwnedBy(head, x, j);
        assert upto[j].Contains(x) && j < k;
        RangesAscend(upto, hi, j, k);
      }
    }
  }

  lemma {:induction false} PortionsNearShares(blocks: seq<Block>, exact: seq<real>, i: nat)
    requires |exact| == |blocks| && i <= |blocks|
    requires forall k | 0 <= k < |blocks| :: exact[k] >= 0.0 && blocks[k].portion == RoundReal(exact[k])
    ensures ServedPortions(blocks[..i]) as real <= Sum(exact[..i]) + 0.5 * i as real
    decreases i
  {
    if i > 0 {
      PortionsNearShares(blocks, exact, i - 1);
      assert blocks[..i][..i - 1] == blocks[..i - 1] && exact[..i][..i - 1] == exact[..i - 1];
      RoundNearest(exact[i - 1]);
    }
  }

  lemma {:induction false} PrefixSumAtMost(xs: seq<real>, i: nat)
    requires i <= |xs| && forall k | 0 <= k < |xs| :: xs[k] >= 0.0
    ensures Sum(xs[..i]) <= Sum(xs)
    decreases |xs|
  {
    if i < |xs| {
      assert xs[..|xs| - 1][..i] == xs[..i];
      PrefixSumAtMost(xs[..|xs| - 1], i);
    } else {
      assert xs[..i] == xs;
    }
  }

  /** The designs of all nodes together exceed the cap by at most half a slot per node. */
  lemma OvershootBounded(blocks: seq<Block>, exact: seq<real>, cap: nat, i: nat)
    requires Rounds(blocks, exact, cap) && i <= |blocks|
    ensures NodeStart(blocks, i) <= cap + i / 2
  {
    PortionsNearShares(blocks, exact, i);
    PrefixSumAtMost(exact, i);
  }

  /** A served node gets at most half a slot more than its exact share, and at most half a slot per
      other node less (half a slot, for two nodes). */
  lemma ShareError(blocks: seq<Block>, exact: seq<real>, cap: nat, i: nat)
    requires Rounds(blocks, exact, cap) && i < |blocks| && Served(blocks[i])
    ensures Realised(blocks, i, cap) as real <= exact[i] + 0.5
    ensures Realised(blocks, i, cap) as real >=
      exact[i] - 0.5 * (if |blocks| >= 2 then |blocks| - 1 else 1) as real
  {
    assert blocks[..i + 1][..i] == blocks[..i] && exact[..i + 1][..i] == exact[..i];
    PortionsNearShares(blocks, exact, i);
    PrefixSumAtMost(exact, i + 1);
    RoundNearest(exact[i]);
  }

  /** Whatever two orders the same node is visited in, its slots differ by at most one per two nodes. */
  lemma OrderChangesLittle(a: seq<Block>, exactA: seq<real>, b: seq<Block>, exactB: seq<real>,
                           cap: nat, i: nat, j: nat)
    requires Rounds(a, exactA, cap) && Rounds(b, exactB, cap) && |a| == |b|
    requires i < |a| && j < |b| && a[i] == b[j] && Served(a[i])
    ensures -(|a| / 2) <= Realised(a, i, cap) - Realised(b, j, cap) <= |a| / 2
  {
    AtLeastPortionLessOvershoot(a, exactA, cap, i);
    AtLeastPortionLessOvershoot(b, exactB, cap, j);
  }

  lemma AtLeastPortionLessOvershoot(blocks: seq<Block>, exact: seq<real>, cap: nat, i: nat)
    requires Rounds(blocks, exact, cap) && i < |blocks| && Served(blocks[i])
    ensures blocks[i].portion - |blocks| / 2 <= Realised(blocks, i, cap) <= blocks[i].portion
  {
    assert blocks[..i + 1][..i] == blocks[..i];
    OvershootBounded(blocks, exact, cap, i + 1);
  }

  /** Slots that skipped nodes can leave unused: fewer than one per endpoint. */
  function SkippedSlack(blocks: seq<Block>): nat {
    if blocks == [] then 0
    else
      var b := blocks[|blocks| - 1];
      SkippedSlack(blocks[..|blocks| - 1])
      + (if Served(b) || b.endpoints == [] then 0 else |b.endpoints| - 1)
  }

  /** When the shares add up to the whole cap, little of it stays unallocated. */
  lemma UnallocatedBounded(blocks: seq<Block>, exact: seq<real>, cap: nat)
    requires Rounds(blocks, exact, cap) && Sum(exact) == cap as real
    requires forall k | 0 <= k < |blocks| :: !DividesByZero(blocks[k])
    ensures 2 * (cap - Min(Total(Design(blocks)), cap)) <= |blocks| + 2 * SkippedSlack(blocks)
  {
    DesignTotal(blocks);
    PortionsCoverShares(blocks, exact);
    assert (2 * cap) as real <= (2 * ServedPortions(blocks) + |blocks| + 2 * SkippedSlack(blocks)) as real;
  }

  lemma {:induction false} PortionsCoverShares(blocks: seq<Block>, exact: seq<real>)
    requires |exact| == |blocks|
    requires forall k | 0 <= k < |blocks| :: exact[k] >= 0.0 && blocks[k].portion == RoundReal(exact[k])
    requires forall k | 0 <= k < |blocks| :: !DividesByZero(blocks[k])
    ensures Sum(exact) <=
      ServedPortions(blocks) as real + 0.5 * |blocks| as real + SkippedSlack(blocks) as real
    decreases |blocks|
  {
    if blocks != [] {
      var n := |blocks| - 1;
      PortionsCoverShares(blocks[..n], exact[..n]);
      RoundNearest(exact[n]);
    }
  }

  /** Every slot below the final cursor, and no other, is counted for a node, and for only one. */
  lemma SlotHasOneNode(blocks: seq<Block>, cap: nat, x: int)
    ensures 0 <= x < Min(Total(Design(blocks)), cap) <==>
      exists i | 0 <= i < |blocks| :: InNode(blocks, i, cap, x)
    ensures forall i, j | 0 <= i < j < |blocks| ::
      !(InNode(blocks, i, cap, x) && InNode(blocks, j, cap, x))
  {
    DesignTotal(blocks);
    assert blocks[..|blocks|] == blocks;
    forall i | 0 <= i < |blocks| && InNode(blocks, i, cap, x)
      ensures 0 <= x < Min(Total(Design(blocks)), cap)
    {
      InNodeIff(blocks, i, cap, x);
      NodeStartMonotone(blocks, i + 1, |blocks|);
    }
    forall i, j | 0 <= i < j < |blocks|
      ensures !(InNode(blocks, i, cap, x) && InNode(blocks, j, cap, x))
    {
      InNodeIff(blocks, i, cap, x);
      InNodeIff(blocks, j, cap, x);
      NodeStartMonotone(blocks, i + 1, j);
    }
    if 0 <= x < Min(Total(Design(blocks)), cap) {
      var i := FindNode(blocks, cap, x, |blocks|);
      InNodeIff(blocks, i, cap, x);
    }
  }

  lemma {:induction false} NodeStartMonotone(blocks: seq<Block>, i: nat, j: nat)
    requires i <= j <= |blocks|
    ensures NodeStart(blocks, i) <= NodeStart(blocks, j)
    decreases j
  {
    if i < j {
      NodeStartMonotone(blocks, i, j - 1);
      assert blocks[..j][..j - 1] == blocks[..j - 1];
    }
  }

  lemma {:induction false} FindNode(blocks: seq<Block>, cap: nat, x: int, n: nat) returns (i: nat)
    requires n <= |blocks| && 0 <= x < Min(NodeStart(blocks, n), cap)
    ensures i < n && Min(NodeStart(blocks, i), cap) <= x < Min(NodeStart(blocks, i + 1), cap)
    decreases n
  {
    if x < Min(NodeStart(blocks, n - 1), cap) {
      i := FindNode(blocks, cap, x, n - 1);
    } else {
      i := n - 1;
    }
  }
}
