/** The seeded generator behind the arrival samples, and how the streams of different nodes relate. */
module Mulberry32 {

  const MODULUS: int := 0x1_0000_0000
  const INCREMENT: int := 0x6d2b79f5
  /** Distance between the seeds of neighbouring nodes. */
  const NODE_GAP: int := 0x9e3779b1

  type Uint32 = x: nat | x < MODULUS

  /** `>>> 0` on an integer. */
  function ToUint32(x: int): (r: nat)
    ensures r < MODULUS
  {
    x % MODULUS
  }

  /** The mixed state, as an unsigned word. */
  function Mixed(a: nat): Uint32
    requires a < MODULUS
  {
    var t0 := a as bv32;
    var t1 := (t0 ^ (t0 >> 15)) * (t0 | 1);
    var t2 := t1 ^ (t1 + (t1 ^ (t1 >> 7)) * (t1 | 61));
    (t2 ^ (t2 >> 14)) as int
  }

  /** The first words of the stream with the default seed 42, and of the one with seed 0. */
  lemma FirstWords()
    ensures Mixed(1_831_565_855) == 2_581_720_956 && Mixed(3_663_131_668) == 1_925_393_290
    ensures Mixed(1_831_565_813) == 1_144_304_738
  {
  }

  /** The largest output. */
  const TOP: real := 4294967295.0 / 4294967296.0

  /** The output of one call, from the state after its increment. */
  function Scramble(a: nat): (r: real)
    requires a < MODULUS
    ensures 0.0 <= r <= TOP < 1.0
  {
    Fraction(Mixed(a))
  }

  /** The output is the mixed word over 2^32. */
  lemma WordOverRange(a: nat)
    requires a < MODULUS
    ensures Scramble(a) * 4294967296.0 == Mixed(a) as real
  {
    hide Mixed;
  }

  function Fraction(word: Uint32): (r: real)
    ensures 0.0 <= r <= TOP
  {
    word as real / 4294967296.0
  }

  /** One stream: the captured variable of the returned closure. */
  class Stream {
    var a: Uint32

    constructor (seed: int)
      ensures a == ToUint32(seed)
    {
      a := ToUint32(seed);
    }

    method Next() returns (r: real)
      modifies this
      ensures a == ToUint32(old(a) + INCREMENT) && r == Scramble(a)
    {
      hide Scramble;
      a := ToUint32(a + INCREMENT);
      r := Scramble(a);
    }
  }

  /** The state after `n` calls. */
  function StateAfter(seed: int, n: nat): nat {
    if n == 0 then ToUint32(seed) else ToUint32(StateAfter(seed, n - 1) + INCREMENT)
  }

  lemma {:induction false} AfterAfter(seed: int, m: nat, n: nat)
    ensures StateAfter(StateAfter(seed, m), n) == StateAfter(seed, m + n)
    decreases n
  {
    if n > 0 {
      AfterAfter(seed, m, n - 1);
    }
  }

  ghost predicate Congruent(x: int, y: int) {
    exists k: int :: MultiplesApart(x, y, k)
  }

  predicate MultiplesApart(x: int, y: int, k: int) {
    x == y + k * MODULUS
  }

  lemma CongruentIff(x: int, y: int)
    ensures Congruent(x, y) <==> ToUint32(x) == ToUint32(y)
  {
    var qx, qy := x / MODULUS, y / MODULUS;
    if ToUint32(x) == ToUint32(y) {
      assert MultiplesApart(x, y, qx - qy);
    }
    if k: int :| MultiplesApart(x, y, k) {
      assert x == (qy + k) * MODULUS + y % MODULUS;
    }
  }

  lemma {:induction false} ClosedState(seed: int, n: nat)
    ensures StateAfter(seed, n) == ToUint32(seed + n * INCREMENT)
    decreases n
  {
    if n > 0 {
      ClosedState(seed, n - 1);
      var x := seed + (n - 1) * INCREMENT;
      assert MultiplesApart(x + INCREMENT, ToUint32(x) + INCREMENT, x / MODULUS);
      CongruentIff(x + INCREMENT, ToUint32(x) + INCREMENT);
      assert x + INCREMENT == seed + n * INCREMENT;
    }
  }

  /** The increment is invertible modulo the word size. */
  const INVERSE: int := 3_696_798_301
  /** Calls by which the stream of a node runs ahead of its neighbour's. */
  const LAG: int := 1_104_068_429

  lemma Cancel(x: int)
    ensures Congruent(x * INCREMENT, 0) <==> Congruent(x, 0)
  {
    if k: int :| MultiplesApart(x * INCREMENT, 0, k) {
      assert INCREMENT * INVERSE == 1 + 1_576_479_847 * MODULUS;
      assert x * INCREMENT * INVERSE == x + x * 1_576_479_847 * MODULUS;
      assert MultiplesApart(x, 0, k * INVERSE - x * 1_576_479_847);
    }
    if k: int :| MultiplesApart(x, 0, k) {
      assert MultiplesApart(x * INCREMENT, 0, k * INCREMENT);
    }
  }

  /** All nodes draw from one cycle of states: two nodes are in the same state exactly when the
      difference of their call counts makes up for the lag between them. */
  lemma SharedStateIff(seed: int, i: int, j: int, m: nat, n: nat)
    ensures StateAfter(seed + i * NODE_GAP, m) == StateAfter(seed + j * NODE_GAP, n)
      <==> ToUint32((i - j) * LAG + m - n) == 0
  {
    ClosedState(seed + i * NODE_GAP, m);
    ClosedState(seed + j * NODE_GAP, n);
    var x, y := seed + i * NODE_GAP + m * INCREMENT, seed + j * NODE_GAP + n * INCREMENT;
    var d := (i - j) * LAG + m - n;
    CongruentIff(x, y);
    CongruentIff(d, 0);
    Cancel(d);
    GapIsLag(i - j, m - n, x - y);
    hide StateAfter, ToUint32, Congruent;
    Shift(x, y, x - y);
  }

  lemma Shift(x: int, y: int, d: int)
    requires d == x - y
    ensures Congruent(x, y) <==> Congruent(d, 0)
  {
    if k: int :| MultiplesApart(x, y, k) {
      assert MultiplesApart(d, 0, k);
    }
    if k: int :| MultiplesApart(d, 0, k) {
      assert MultiplesApart(x, y, k);
    }
  }

  lemma GapIsLag(nodes: int, calls: int, x: int)
    requires x == nodes * NODE_GAP + calls * INCREMENT
    ensures Congruent(x, 0) <==> Congruent((nodes * LAG + calls) * INCREMENT, 0)
  {
    var c := (LAG * INCREMENT - NODE_GAP) / MODULUS;
    assert LAG * INCREMENT == NODE_GAP + c * MODULUS;
    var y := (nodes * LAG + calls) * INCREMENT;
    assert y == x + nodes * c * MODULUS;
    if k: int :| MultiplesApart(x, 0, k) {
      assert MultiplesApart(y, 0, k + nodes * c);
    }
    if k: int :| MultiplesApart(y, 0, k) {
      assert MultiplesApart(x, 0, k - nodes * c);
    }
  }

  /** One stream repeats a state only after all 2^32 of them. */
  lemma FullPeriod(seed: int, m: nat, n: nat)
    ensures StateAfter(seed, m) == StateAfter(seed, n) <==> ToUint32(m - n) == 0
  {
    SharedStateIff(seed, 0, 0, m, n);
    assert seed + 0 * NODE_GAP == seed;
  }

  /** Up to four nodes never share a state within their first 982 762 009 calls each, so as long as
      no node draws more often than that the streams do not overlap. */
  lemma FourNodesApart(seed: int, i: nat, j: nat, m: nat, n: nat)
    requires i < j < 4 && m < 982_762_009 && n < 982_762_009
    ensures StateAfter(seed + i * NODE_GAP, m) != StateAfter(seed + j * NODE_GAP, n)
  {
    SharedStateIff(seed, i, j, m, n);
    hide StateAfter;
    assert i - j == -1 || i - j == -2 || i - j == -3;
  }
}
