/** The arrival sampler: how many requests one tick of a given mean sends, and how many numbers it takes
    from the generator to find out. */
module Poisson {
  import opened Mulberry32

  /** The outcome of one call: the number of arrivals, and the calls made to the generator. */
  datatype Draw = Draw(count: nat, calls: nat)

  /** What the sampler takes from outside: the exponential function, and the rejection method that serves
      means from 30 on, as a function of the generator's state and the mean. */
  datatype Sampler = Sampler(exp: real -> real, reject: (nat, real) -> Draw)

  ghost predicate Proper(sampler: Sampler) {
    && (forall x | -30.0 < x < 0.0 :: sampler.exp(x) > 0.0)
    && (forall state, mean :: sampler.reject(state, mean).calls >= 1)
  }

  // ----- multiplying uniforms until the product falls to the limit

  /** After `k` factors, each short of 1 by 2^-32 at least, the product has fallen this far. */
  predicate Fallen(k: nat, p: real) {
    0.0 <= p && p * (MODULUS + k) as real <= MODULUS as real
  }

  lemma FallsFurther(k: nat, p: real, u: real)
    requires Fallen(k, p) && 0.0 <= u && u <= TOP
    ensures Fallen(k + 1, p * u)
  {
    var m, x := MODULUS as real, (MODULUS + k + 1) as real;
    assert u * m <= m - 1.0;
    assert x == m + k as real + 1.0;
    assert u * x * m == u * m * x;
    assert u * m * x <= (m - 1.0) * x by {
      assert (m - 1.0 - u * m) * x >= 0.0;
    }
    assert (m - 1.0) * x == m * (m + k as real) - (k as real + 1.0);
    assert (u * x - (m + k as real)) * m <= 0.0;
    assert u * x <= (MODULUS + k) as real;
    hide Fallen;
    Scaled(p, u * x, (MODULUS + k) as real);
    assert p * u * x == p * (u * x);
  }

  lemma Scaled(p: real, a: real, b: real)
    requires 0.0 <= p && a <= b
    ensures p * a <= p * b
  {
    assert p * (b - a) >= 0.0;
  }

  /** No more factors than this stay above the limit. */
  function Most(limit: real): nat
    requires limit > 0.0
  {
    assert MODULUS as real / limit >= 0.0;
    (MODULUS as real / limit).Floor
  }

  lemma AboveLimit(limit: real, k: nat, p: real)
    requires limit > 0.0 && Fallen(k, p) && p > limit
    ensures k <= Most(limit)
  {
    var x := MODULUS as real / limit;
    assert x * limit == MODULUS as real;
    assert (p - limit) * (MODULUS + k) as real > 0.0;
    assert limit * (MODULUS + k) as real < MODULUS as real;
    assert (x - (MODULUS + k) as real) * limit > 0.0;
    assert x > k as real;
  }

  function Times(p: real, u: real): real {
    p * u
  }

  /** One turn of the loop. */
  lemma Turn(limit: real, k: nat, p: real, state: nat)
    requires limit > 0.0 && Fallen(k, p)
    ensures var q := Times(p, Scramble(ToUint32(state + INCREMENT)));
      Fallen(k + 1, q) && (q > limit ==> k + 1 <= Most(limit))
  {
    hide *;
    Factor(limit, k, p, Scramble(ToUint32(state + INCREMENT)));
  }

  lemma Factor(limit: real, k: nat, p: real, u: real)
    requires limit > 0.0 && Fallen(k, p) && 0.0 <= u && u <= TOP
    ensures Fallen(k + 1, Times(p, u)) && (Times(p, u) > limit ==> k + 1 <= Most(limit))
  {
    assert Times(p, u) == p * u;
    FallsFurther(k, p, u);
    hide Fallen, Most, Times;
    if p * u > limit {
      AboveLimit(limit, k + 1, p * u);
    }
  }

  /** The loop from its `k`-th turn on, with the product so far; every factor is short of 1, so
      it ends. */
  function Knuth(state: nat, limit: real, k: nat, p: real): (d: Draw)
    requires limit > 0.0 && Fallen(k, p)
    ensures d.count >= k && d.calls == d.count + 1 - k
    decreases Most(limit) - k
  {
    Turn(limit, k, p, state);
    hide Fallen, Most, Times, Scramble, ToUint32;
    var next := ToUint32(state + INCREMENT);
    var q := Times(p, Scramble(next));
    if q > limit then Draw(Knuth(next, limit, k + 1, q).count, Knuth(next, limit, k + 1, q).calls + 1)
    else Draw(k, 1)
  }

  /** What one turn makes of the rest of the loop. */
  lemma TurnOfKnuth(limit: real, k: nat, p: real, state: nat)
    requires limit > 0.0 && Fallen(k, p)
    ensures var next := ToUint32(state + INCREMENT);
      var q := Times(p, Scramble(next));
      && Fallen(k + 1, q) && (q > limit ==> k + 1 <= Most(limit))
      && var d := Knuth(state, limit, k, p);
        if q > limit then
          d == Draw(Knuth(next, limit, k + 1, q).count, Knuth(next, limit, k + 1, q).calls + 1)
        else d == Draw(k, 1)
  {
    hide Fallen, Most, Times, Scramble, ToUint32;
    Turn(limit, k, p, state);
  }

  function Sample(sampler: Sampler, state: nat, mean: real): Draw
    requires Proper(sampler)
  {
    if mean <= 0.0 then Draw(0, 0)
    else if mean < 30.0 then Knuth(state, sampler.exp(-mean), 0, 1.0)
    else sampler.reject(state, mean)
  }

  /** No mean, no arrivals and no calls; from a mean of 30 on the rejection method decides. */
  lemma OtherBranches(sampler: Sampler, state: nat, mean: real)
    requires Proper(sampler)
    ensures mean <= 0.0 ==> Sample(sampler, state, mean) == Draw(0, 0)
    ensures mean >= 30.0 ==> Sample(sampler, state, mean) == sampler.reject(state, mean)
  {
  }

  lemma StartsWhole()
    ensures Fallen(0, 1.0)
  {
  }

  lemma NotYet(state: Uint32)
    ensures StateAfter(state, 0) == state
  {
  }

  /** The branch for small means. */
  method Multiply(rand: Stream, limit: real) returns (count: nat)
    requires limit > 0.0 && Fallen(0, 1.0)
    modifies rand
    ensures count == Knuth(old(rand.a), limit, 0, 1.0).count
    ensures rand.a == StateAfter(old(rand.a), Knuth(old(rand.a), limit, 0, 1.0).calls)
  {
    hide Fallen, Most, Scramble, Mixed, Times, ToUint32, Knuth;
    ghost var from := rand.a;
    NotYet(from);
    var k, p, more := 0, 1.0, true;
    ghost var whole := Knuth(from, limit, 0, 1.0);
    while more
      invariant Fallen(k, p) && rand.a == StateAfter(from, k)
      invariant more ==> k <= Most(limit)
      invariant more ==> var rest := Knuth(rand.a, limit, k, p);
        rest.count == whole.count && rest.calls == whole.calls - k
      invariant !more ==> k >= 1 && whole == Draw(k - 1, k)
      decreases Most(limit) - k
    {
      TurnOfKnuth(limit, k, p, rand.a);
      var u := rand.Next();
      k, p := k + 1, Times(p, u);
      more := p > limit;
    }
    return k - 1;
  }

  /** `samplePoisson`: the rejection method is represented by its result. */
  method SamplePoisson(sampler: Sampler, rand: Stream, mean: real) returns (count: nat)
    requires Proper(sampler)
    modifies rand
    ensures count == Sample(sampler, old(rand.a), mean).count
    ensures rand.a == StateAfter(old(rand.a), Sample(sampler, old(rand.a), mean).calls)
  {
    hide ToUint32, Knuth, Scramble, Mixed;
    ghost var from := rand.a;
    NotYet(from);
    if mean <= 0.0 {
      return 0;
    }
    if mean < 30.0 {
      count := Multiply(rand, sampler.exp(-mean));
      return;
    }
    var draw := sampler.reject(rand.a, mean);
    for i := 0 to draw.calls
      invariant rand.a == StateAfter(from, i)
    {
      var _ := rand.Next();
    }
    return draw.count;
  }

  // ----- what the loop computes

  /** The product of the next `n` numbers of the generator. */
  function Product(seed: int, n: nat): real {
    if n == 0 then 1.0 else Times(Product(seed, n - 1), Scramble(StateAfter(seed, n)))
  }

  lemma {:induction false} ProductFalls(seed: int, n: nat)
    ensures Fallen(n, Product(seed, n))
    decreases n
  {
    if n == 0 {
      StartsWhole();
    } else {
      hide Fallen, Scramble, Times, ToUint32;
      ProductFalls(seed, n - 1);
      Turn(1.0, n - 1, Product(seed, n - 1), StateAfter(seed, n - 1));
    }
  }

  lemma {:induction false} KnuthFrom(seed: int, limit: real, k: nat)
    requires limit > 0.0 && Fallen(k, Product(seed, k))
    ensures var d := Knuth(StateAfter(seed, k), limit, k, Product(seed, k));
      && Product(seed, d.count + 1) <= limit
      && forall j | k < j <= d.count :: Product(seed, j) > limit
    decreases Most(limit) - k
  {
    hide Scramble, Fallen, Most, Times, ToUint32;
    Turn(limit, k, Product(seed, k), StateAfter(seed, k));
    assert Product(seed, k + 1) == Times(Product(seed, k), Scramble(StateAfter(seed, k + 1)));
    if Product(seed, k + 1) > limit {
      KnuthFrom(seed, limit, k + 1);
    }
  }

  lemma CountsUntil(state: Uint32, limit: real)
    requires limit > 0.0 && Fallen(0, 1.0)
    ensures var d := Knuth(state, limit, 0, 1.0);
      && Product(state, d.count + 1) <= limit
      && forall j | 0 < j <= d.count :: Product(state, j) > limit
  {
    assert Product(state, 0) == 1.0 && StateAfter(state, 0) == state;
    hide Knuth, Product, Fallen, StateAfter;
    KnuthFrom(state, limit, 0);
  }

  /** Below a mean of 30 the count is the first for which the product of one more number than that is at
      most exp(-mean): the number of arrivals of a unit-rate process before time `mean`. */
  lemma CountsArrivals(sampler: Sampler, state: Uint32, mean: real)
    requires Proper(sampler) && 0.0 < mean < 30.0
    ensures var d := Sample(sampler, state, mean);
      && d.calls == d.count + 1
      && Product(state, d.count + 1) <= sampler.exp(-mean)
      && forall j | 0 < j <= d.count :: Product(state, j) > sampler.exp(-mean)
  {
    hide Knuth, Product, Fallen;
    StartsWhole();
    CountsUntil(state, sampler.exp(-mean));
  }

  /** From the same state a larger mean never gives fewer arrivals, nor takes fewer numbers. */
  lemma MoreLoadMoreArrivals(sampler: Sampler, state: Uint32, low: real, high: real)
    requires Proper(sampler) && 0.0 < low <= high < 30.0 && sampler.exp(-high) <= sampler.exp(-low)
    ensures Sample(sampler, state, low).count <= Sample(sampler, state, high).count
    ensures Sample(sampler, state, low).calls <= Sample(sampler, state, high).calls
  {
    CountsArrivals(sampler, state, low);
    CountsArrivals(sampler, state, high);
    hide Sample, Product;
  }
}
