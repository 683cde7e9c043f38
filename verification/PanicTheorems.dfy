/** Exactly when the `u32` arithmetic of one `update_nftables` call overflows, and a cap for which it does. */
module PanicTheorems {
  import opened Float64
  import opened SlotAllocator
  import opened UpdateNftables
  import opened TrafficTheorems

  /** Cell `k` begins below the cap and ends beyond the largest `u32`. */
  predicate Bursts(start: nat, cells: seq<Cell>, cap: nat, k: nat)
    requires k < |cells|
  {
    start + Total(cells[..k]) < cap && start + Total(cells[..k + 1]) > U32_MAX
  }

  lemma {:induction false} OverflowsIff(start: nat, cells: seq<Cell>, cap: nat)
    ensures Overflows(start, cells, cap) <==> exists k | 0 <= k < |cells| :: Bursts(start, cells, cap, k)
    decreases |cells|
  {
    if cells != [] {
      var next, rest := start + cells[0].width, cells[1..];
      OverflowsIff(next, rest, cap);
      FirstBurst(start, cells, cap);
      forall k | 0 <= k < |rest| ensures Bursts(start, cells, cap, k + 1) <==> Bursts(next, rest, cap, k) {
        LaterBurst(start, cells, cap, k);
      }
      hide Bursts;
      if Overflows(start, cells, cap) && next <= U32_MAX {
        var k :| 0 <= k < |rest| && Bursts(next, rest, cap, k);
        assert Bursts(start, cells, cap, k + 1);
      }
      if k :| 0 < k < |cells| && Bursts(start, cells, cap, k) {
        assert Bursts(next, rest, cap, k - 1);
        BurstsBelowCap(start, cells, cap, k);
      }
    }
  }

  lemma FirstBurst(start: nat, cells: seq<Cell>, cap: nat)
    requires cells != []
    ensures Bursts(start, cells, cap, 0) <==> start < cap && start + cells[0].width > U32_MAX
  {
    assert cells[..0] == [] && cells[..1] == [cells[0]] && cells[..1][1..] == [];
  }

  lemma LaterBurst(start: nat, cells: seq<Cell>, cap: nat, k: nat)
    requires k + 1 < |cells|
    ensures Bursts(start, cells, cap, k + 1) <==> Bursts(start + cells[0].width, cells[1..], cap, k)
  {
    assert cells[..k + 1][1..] == cells[1..][..k];
    assert cells[..k + 2][1..] == cells[1..][..k + 1];
  }

  lemma BurstsBelowCap(start: nat, cells: seq<Cell>, cap: nat, k: nat)
    requires k < |cells| && Bursts(start, cells, cap, k)
    ensures start < cap
  {
  }

  /** A node without endpoints is granted slots. */
  predicate Unplaceable(b: Block) {
    b.endpoints == [] && b.portion >= 1
  }

  predicate SomeUnplaceable(blocks: seq<Block>) {
    exists i | 0 <= i < |blocks| :: Unplaceable(blocks[i])
  }

  predicate SomeBurst(blocks: seq<Block>, cap: nat) {
    exists k | 0 <= k < |Design(blocks)| :: Bursts(0, Design(blocks), cap, k)
  }

  /** A call panics exactly when a node without endpoints is granted slots, or a cell of its plan begins below
      the cap and ends beyond the largest `u32`. */
  lemma PanicsIff(cfg: Config, cands: seq<Candidate>)
    ensures RouteTo(cfg, cands) == Panicked <==>
      && TotalEndpoints(cands) >= 2
      && (SomeUnplaceable(Plan(cfg, cands)) || SomeBurst(Plan(cfg, cands), cfg.probabilityCap))
  {
    hide Plan, Panics, Design, TotalEndpoints, Lay, Total, SomeUnplaceable, SomeBurst;
    BlocksPanicIff(Plan(cfg, cands), cfg.probabilityCap);
  }

  lemma BlocksPanicIff(blocks: seq<Block>, cap: nat)
    ensures Panics(blocks, cap) <==> SomeUnplaceable(blocks) || SomeBurst(blocks, cap)
  {
    hide Design, Bursts, Overflows, SomeDivisionByZero, SomeUnplaceable;
    UnplaceableIff(blocks);
    OverflowsIff(0, Design(blocks), cap);
  }

  lemma {:induction false} UnplaceableIff(blocks: seq<Block>)
    ensures SomeDivisionByZero(blocks) <==> SomeUnplaceable(blocks)
    decreases |blocks|
  {
    if blocks != [] {
      var init := blocks[..|blocks| - 1];
      UnplaceableIff(init);
      assert forall i | 0 <= i < |init| :: init[i] == blocks[i];
    }
  }

  // ----- the largest cap

  const LEFT := Candidate("left", [Ipv4(1)], ScorePair(Fin(1.0), Fin(0.5)))
  const RIGHT := Candidate("right", [Ipv4(2)], ScorePair(Fin(1.0), Fin(0.5)))
  const HALF := 0x8000_0000

  /** Two equal nodes under the largest cap: both halves are rounded up, and the second range would end
      one past the largest `u32`. */
  lemma LargestCapPanics()
    ensures RouteTo(Linear(U32_MAX), [LEFT, RIGHT]) == Panicked
    ensures U32_MAX + |[LEFT, RIGHT]| / 2 == U32_MAX + 1
  {
    HalvesPlan();
    hide Plan, Panics, TotalEndpoints, Design, Lay;
    TwoHalves(Block("left", [Ipv4(1)], HALF), Block("right", [Ipv4(2)], HALF));
  }

  lemma HalvesPlan()
    ensures Plan(Linear(U32_MAX), [LEFT, RIGHT])
      == [Block("left", [Ipv4(1)], HALF), Block("right", [Ipv4(2)], HALF)]
    ensures TotalEndpoints([LEFT, RIGHT]) == 2
  {
    hide Portion, PerformanceScore, TotalScore, TotalEndpoints;
    HalvesRoundUp();
    PairTotals(Linear(U32_MAX), LEFT, RIGHT);
  }

  lemma HalvesRoundUp()
    ensures PerformanceScore(Linear(U32_MAX), LEFT.datapoint) == Fin(0.5)
    ensures PerformanceScore(Linear(U32_MAX), RIGHT.datapoint) == Fin(0.5)
    ensures Add(Add(Fin(0.0), Fin(0.5)), Fin(0.5)) == Fin(1.0)
    ensures Portion(U32_MAX, Fin(0.5), Fin(1.0)) == HALF
  {
    hide Times, Portion, Round, CastU32;
    assert Quotient(0.5, 1.0) == 0.5;
    hide Quotient;
    HalfOfAll();
  }

  lemma HalfOfAll()
    ensures Portion(U32_MAX, Fin(0.5), Fin(1.0)) == HALF
  {
    hide RoundReal;
    assert Quotient(0.5, 1.0) == 0.5;
    hide Quotient;
    assert Times(0.5, U32_MAX as real) == 2147483647.5;
    hide Times;
    HalfUp();
  }

  lemma HalfUp()
    ensures RoundReal(2147483647.5) == HALF
  {
    assert 2147483648.0.Floor == HALF;
  }

  lemma TwoHalves(a: Block, b: Block)
    requires |a.endpoints| == |b.endpoints| == 1 && a.portion == b.portion == HALF
    ensures Panics([a, b], U32_MAX)
  {
    assert [a, b][..1] == [a] && [a][..0] == [];
    var c, d := Cell(a.endpoints[0], HALF), Cell(b.endpoints[0], HALF);
    assert Cells(a) == [c] && Cells(b) == [d];
    assert Design([a]) == [c] && Design([a, b]) == [c, d];
    hide Cells, Design;
    assert [c, d][1..] == [d];
    assert Overflows(HALF, [d], U32_MAX);
  }
}
