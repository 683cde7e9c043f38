/** The integer-range maps that both generations of the prober hand to `numgen random mod N map`. */
module SlotMap {

  /** Inclusive range `[lo, hi]` of drawn numbers, forwarded to `target`. */
  datatype Slot<+T> = Slot(lo: int, hi: int, target: T) {
    predicate Contains(x: int) {
      lo <= x <= hi
    }

    function Width(): int {
      hi + 1 - lo
    }
  }

  /** Non-empty consecutive ranges that cover exactly `[0, n)`. */
  ghost predicate Partitions<T>(slots: seq<Slot<T>>, n: int) {
    && (forall k | 0 <= k < |slots| :: slots[k].lo <= slots[k].hi)
    && (forall k | 0 < k < |slots| :: slots[k].lo == slots[k - 1].hi + 1)
    && (if slots == [] then n == 0 else slots[0].lo == 0 && slots[|slots| - 1].hi == n - 1)
  }

  /** `x` falls in range `k` and in no other. */
  ghost predicate OwnedBy<T>(slots: seq<Slot<T>>, x: int, k: int) {
    && 0 <= k < |slots|
    && slots[k].Contains(x)
    && (forall j | 0 <= j < |slots| && j != k :: !slots[j].Contains(x))
  }

  lemma {:induction false} RangesAscend<T>(slots: seq<Slot<T>>, n: int, i: int, j: int)
    requires Partitions(slots, n)
    requires 0 <= i <= j < |slots|
    ensures slots[i].lo <= slots[j].lo && slots[i].hi <= slots[j].hi
    ensures i < j ==> slots[i].hi < slots[j].lo
    decreases j - i
  {
    if i < j {
      RangesAscend(slots, n, i, j - 1);
    }
  }

  /** A partition maps every number below `n`, and no other, to exactly one range. */
  lemma PartitionOwner<T>(slots: seq<Slot<T>>, n: int, x: int)
    requires Partitions(slots, n)
    ensures 0 <= x < n <==> exists k :: OwnedBy(slots, x, k)
    ensures 0 <= x < n <==> exists k | 0 <= k < |slots| :: slots[k].Contains(x)
  {
    forall k | 0 <= k < |slots| && slots[k].Contains(x)
      ensures 0 <= x < n && OwnedBy(slots, x, k)
    {
      RangesAscend(slots, n, 0, k);
      RangesAscend(slots, n, k, |slots| - 1);
      forall j | 0 <= j < |slots| && j != k ensures !slots[j].Contains(x) {
        if j < k { RangesAscend(slots, n, j, k); } else { RangesAscend(slots, n, k, j); }
      }
    }
    if 0 <= x < n {
      var k := FindOwner(slots, x, |slots| - 1);
      assert OwnedBy(slots, x, k);
    }
  }

  lemma {:induction false} FindOwner<T>(slots: seq<Slot<T>>, x: int, last: int) returns (k: int)
    requires 0 <= last < |slots| && slots[0].lo <= x <= slots[last].hi
    requires forall k | 0 < k <= last :: slots[k].lo == slots[k - 1].hi + 1
    ensures 0 <= k <= last && slots[k].Contains(x)
    decreases last
  {
    if slots[last].lo <= x {
      k := last;
    } else {
      k := FindOwner(slots, x, last - 1);
    }
  }

  /** The numbers a generator modulo `m` can draw that select this range. */
  function Draws<T>(slot: Slot<T>, m: int): set<int> {
    set x | 0 <= x < m && slot.Contains(x)
  }

  function Interval(lo: int, hi: int): set<int>
    decreases hi - lo
  {
    if lo < hi then Interval(lo, hi - 1) + {hi - 1} else {}
  }

  lemma {:induction false} IntervalSize(lo: int, hi: int)
    ensures forall x :: x in Interval(lo, hi) <==> lo <= x < hi
    ensures |Interval(lo, hi)| == if lo <= hi then hi - lo else 0
    decreases hi - lo
  {
    if lo < hi {
      IntervalSize(lo, hi - 1);
    }
  }

  /** Drawing modulo exactly the partitioned total gives every range its full width. */
  lemma FullModulusDraws<T>(slots: seq<Slot<T>>, n: int, k: int)
    requires Partitions(slots, n) && 0 <= k < |slots|
    ensures |Draws(slots[k], n)| == slots[k].Width()
  {
    RangesAscend(slots, n, 0, k);
    RangesAscend(slots, n, k, |slots| - 1);
    IntervalSize(slots[k].lo, slots[k].hi + 1);
    assert Draws(slots[k], n) == Interval(slots[k].lo, slots[k].hi + 1);
  }

  /** Drawing modulo one less costs exactly one number, and it is taken from the last range. */
  lemma ShortModulusDraws<T>(slots: seq<Slot<T>>, n: int, k: int)
    requires Partitions(slots, n) && 0 <= k < |slots|
    ensures |Draws(slots[k], n - 1)| == slots[k].Width() - (if k == |slots| - 1 then 1 else 0)
    ensures Draws(slots[k], n - 1) == {} <==> k == |slots| - 1 && slots[k].Width() == 1
  {
    RangesAscend(slots, n, 0, k);
    RangesAscend(slots, n, k, |slots| - 1);
    var top := if k == |slots| - 1 then slots[k].hi else slots[k].hi + 1;
    IntervalSize(slots[k].lo, top);
    assert Draws(slots[k], n - 1) == Interval(slots[k].lo, top);
  }
}
