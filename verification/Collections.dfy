/** Small facts about sequences, and Rust's unordered hash-map iteration. */
module Collections {

  datatype Option<+T> = None | Some(value: T)

  /** `order` lists the keys once each: one possible iteration order of a hash map. */
  ghost predicate Enumerates<K(!new)>(order: seq<K>, keys: set<K>) {
    && (forall i, j | 0 <= i < j < |order| :: order[i] != order[j])
    && (forall k :: k in order <==> k in keys)
  }

  /** Iteration over a hash map: callers learn only that every key is visited exactly once. */
  method HashOrder<K(!new, ==)>(keys: set<K>) returns (order: seq<K>)
    ensures Enumerates(order, keys)
  {
    order := [];
    var rest := keys;
    while rest != {}
      invariant rest <= keys
      invariant forall k :: k in order <==> k in keys && k !in rest
      invariant forall i, j | 0 <= i < j < |order| :: order[i] != order[j]
      decreases rest
    {
      var k :| k in rest;
      order := order + [k];
      rest := rest - {k};
    }
  }

  /** Some order of the keys. */
  ghost function AnOrder<K(!new)>(keys: set<K>): (order: seq<K>)
    ensures Enumerates(order, keys)
  {
    if keys == {} then []
    else
      var k :| k in keys;
      AnOrder(keys - {k}) + [k]
  }

  lemma {:induction false} EnumerationLength<K(!new)>(order: seq<K>, keys: set<K>)
    requires Enumerates(order, keys)
    ensures |order| == |keys|
    decreases |order|
  {
    if order == [] {
      assert keys == {};
    } else {
      var last := order[|order| - 1];
      var init := order[..|order| - 1];
      assert order == init + [last];
      assert Enumerates(init, keys - {last});
      EnumerationLength(init, keys - {last});
    }
  }

  lemma EnumerationMultiset<K(!new)>(a: seq<K>, b: seq<K>, keys: set<K>)
    requires Enumerates(a, keys) && Enumerates(b, keys)
    ensures multiset(a) == multiset(b)
  {
    forall k ensures multiset(a)[k] == multiset(b)[k] {
      OccursOnce(a, k);
      OccursOnce(b, k);
    }
  }

  lemma {:induction false} OccursOnce<K(!new)>(s: seq<K>, k: K)
    requires forall i, j | 0 <= i < j < |s| :: s[i] != s[j]
    ensures multiset(s)[k] == if k in s then 1 else 0
    decreases |s|
  {
    if s != [] {
      var init := s[..|s| - 1];
      assert s == init + [s[|s| - 1]];
      OccursOnce(init, k);
    }
  }

  /** Where a permutation keeps the last element, and that the rest is a permutation of the rest. */
  lemma MatchLast<T>(a: seq<T>, b: seq<T>) returns (j: nat)
    requires multiset(a) == multiset(b) && a != []
    ensures j < |b| && b[j] == a[|a| - 1]
    ensures multiset(b[..j] + b[j + 1..]) == multiset(a[..|a| - 1])
  {
    var last, init := a[|a| - 1], a[..|a| - 1];
    assert a == init + [last];
    assert last in multiset(b);
    j :| 0 <= j < |b| && b[j] == last;
    var rest := b[..j] + b[j + 1..];
    assert b == b[..j] + [last] + b[j + 1..];
    assert multiset(a) == multiset(init) + multiset{last};
    assert multiset(b) == multiset(rest) + multiset{last};
    assert multiset(rest) == multiset(b) - multiset{last};
  }

  /** Index of the last `true`, -1 if there is none. */
  function LastTrue(flags: seq<bool>): (i: int)
    ensures -1 <= i < |flags| && (i >= 0 ==> flags[i])
    ensures forall j | i < j < |flags| :: !flags[j]
  {
    if flags == [] then -1
    else if flags[|flags| - 1] then |flags| - 1
    else
      var i := LastTrue(flags[..|flags| - 1]);
      i
  }
}
