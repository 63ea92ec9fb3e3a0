/**
 * A stable descending sort, the behaviour of Python's `list.sort(key=..., reverse=True)`:
 * the result is ordered by non-increasing key, and elements with equal keys keep
 * their original relative order.
 */
module Sorting {

  /** `ge` orders keys totally: any two keys compare, and comparisons chain. */
  ghost predicate TotalPreorder<K(!new)>(ge: (K, K) -> bool) {
    (forall a, b :: ge(a, b) || ge(b, a)) &&
    (forall a, b, c :: ge(a, b) && ge(b, c) ==> ge(a, c))
  }

  /** Non-increasing by key. */
  ghost predicate SortedDesc<T, K>(s: seq<T>, key: T -> K, ge: (K, K) -> bool) {
    forall i, j :: 0 <= i < j < |s| ==> ge(key(s[i]), key(s[j]))
  }

  /** Place `x` after every element whose key is at least its own. */
  function Insert<T, K>(t: seq<T>, x: T, key: T -> K, ge: (K, K) -> bool): (r: seq<T>)
    ensures |r| == |t| + 1
    decreases |t|
  {
    if t == [] then [x]
    else if ge(key(t[0]), key(x)) then [t[0]] + Insert(t[1..], x, key, ge)
    else [x] + t
  }

  /** Insertion sort taking the input left to right, so later equal keys land later. */
  function SortDesc<T, K>(s: seq<T>, key: T -> K, ge: (K, K) -> bool): (r: seq<T>)
    ensures |r| == |s|
    decreases |s|
  {
    if s == [] then []
    else Insert(SortDesc(s[..|s| - 1], key, ge), s[|s| - 1], key, ge)
  }

  /** The elements of `s` whose key is equivalent to `k`, in order. */
  function WithKey<T, K>(s: seq<T>, key: T -> K, ge: (K, K) -> bool, k: K): seq<T>
    decreases |s|
  {
    if s == [] then []
    else
      var x := s[|s| - 1];
      WithKey(s[..|s| - 1], key, ge, k) + (if ge(key(x), k) && ge(k, key(x)) then [x] else [])
  }

  lemma {:induction false} WithKeyConcat<T, K>(a: seq<T>, b: seq<T>, key: T -> K, ge: (K, K) -> bool, k: K)
    ensures WithKey(a + b, key, ge, k) == WithKey(a, key, ge, k) + WithKey(b, key, ge, k)
    decreases |b|
  {
    if b == [] {
      assert a + b == a;
    } else {
      assert (a + b)[..|a + b| - 1] == a + b[..|b| - 1];
      WithKeyConcat(a, b[..|b| - 1], key, ge, k);
    }
  }

  lemma {:induction false} InsertMultiset<T, K>(t: seq<T>, x: T, key: T -> K, ge: (K, K) -> bool)
    ensures multiset(Insert(t, x, key, ge)) == multiset(t) + multiset{x}
    decreases |t|
  {
    if t != [] && ge(key(t[0]), key(x)) {
      InsertMultiset(t[1..], x, key, ge);
      assert t == [t[0]] + t[1..];
    }
  }

  lemma {:induction false} InsertSorted<T, K(!new)>(t: seq<T>, x: T, key: T -> K, ge: (K, K) -> bool)
    requires TotalPreorder(ge)
    requires SortedDesc(t, key, ge)
    ensures SortedDesc(Insert(t, x, key, ge), key, ge)
    decreases |t|
  {
    if t != [] {
      if ge(key(t[0]), key(x)) {
        var rest := Insert(t[1..], x, key, ge);
        InsertSorted(t[1..], x, key, ge);
        InsertBelow(t[1..], x, key, ge, key(t[0]));
        var r := [t[0]] + rest;
        forall i, j | 0 <= i < j < |r| ensures ge(key(r[i]), key(r[j])) {
          assert r[j] == rest[j - 1];
          if i > 0 {
            assert r[i] == rest[i - 1];
          }
        }
      } else {
        assert ge(key(x), key(t[0]));
      }
    }
  }

  /** A bound on every key of `t` and on `x` bounds every key of the insertion. */
  lemma {:induction false} InsertBelow<T, K>(t: seq<T>, x: T, key: T -> K, ge: (K, K) -> bool, a: K)
    requires forall i :: 0 <= i < |t| ==> ge(a, key(t[i]))
    requires ge(a, key(x))
    ensures forall j :: 0 <= j < |Insert(t, x, key, ge)| ==> ge(a, key(Insert(t, x, key, ge)[j]))
    decreases |t|
  {
    if t != [] && ge(key(t[0]), key(x)) {
      InsertBelow(t[1..], x, key, ge, a);
      var r := Insert(t, x, key, ge);
      forall j | 1 <= j < |r| ensures ge(a, key(r[j])) {
        assert r[j] == Insert(t[1..], x, key, ge)[j - 1];
      }
    }
  }

  lemma {:induction false} InsertStable<T, K(!new)>(t: seq<T>, x: T, key: T -> K, ge: (K, K) -> bool, k: K)
    requires TotalPreorder(ge)
    requires SortedDesc(t, key, ge)
    ensures WithKey(Insert(t, x, key, ge), key, ge, k) == WithKey(t + [x], key, ge, k)
    decreases |t|
  {
    if t == [] {
      assert [] + [x] == [x];
    } else if ge(key(t[0]), key(x)) {
      InsertStable(t[1..], x, key, ge, k);
      InsertStableSkip(t, x, key, ge, k);
    } else {
      if ge(key(x), k) && ge(k, key(x)) {
        WithKeyEmpty(t, key, ge, k, key(x));
      }
      InsertStableFront(t, x, key, ge, k);
    }
  }

  /** Equational step of InsertStable when `x` goes past `t[0]`. */
  lemma InsertStableSkip<T, K>(t: seq<T>, x: T, key: T -> K, ge: (K, K) -> bool, k: K)
    requires t != [] && ge(key(t[0]), key(x))
    requires WithKey(Insert(t[1..], x, key, ge), key, ge, k) == WithKey(t[1..] + [x], key, ge, k)
    ensures WithKey(Insert(t, x, key, ge), key, ge, k) == WithKey(t + [x], key, ge, k)
  {
    assert Insert(t, x, key, ge) == [t[0]] + Insert(t[1..], x, key, ge);
    WithKeyConcat([t[0]], Insert(t[1..], x, key, ge), key, ge, k);
    WithKeyConcat([t[0]], t[1..] + [x], key, ge, k);
    assert t + [x] == [t[0]] + (t[1..] + [x]);
  }

  /** Equational step of InsertStable when `x` goes in front of `t`. */
  lemma InsertStableFront<T, K>(t: seq<T>, x: T, key: T -> K, ge: (K, K) -> bool, k: K)
    requires t != [] && !ge(key(t[0]), key(x))
    requires ge(key(x), k) && ge(k, key(x)) ==> WithKey(t, key, ge, k) == []
    ensures WithKey(Insert(t, x, key, ge), key, ge, k) == WithKey(t + [x], key, ge, k)
  {
    assert Insert(t, x, key, ge) == [x] + t;
    WithKeyConcat([x], t, key, ge, k);
    WithKeyConcat(t, [x], key, ge, k);
    WithKeySingle(x, key, ge, k);
    var w := WithKey(t, key, ge, k);
    if ge(key(x), k) && ge(k, key(x)) {
      assert [x] + w == w + [x];
    } else {
      assert [] + w == w + [];
    }
  }

  lemma WithKeySingle<T, K>(x: T, key: T -> K, ge: (K, K) -> bool, k: K)
    ensures WithKey([x], key, ge, k) == if ge(key(x), k) && ge(k, key(x)) then [x] else []
  {
    assert [x][..0] == [];
  }

  /** In a sorted `t` headed by a key below `kx`, nothing is equivalent to `k` when `k` is equivalent to `kx`. */
  lemma {:induction false} WithKeyEmpty<T, K(!new)>(t: seq<T>, key: T -> K, ge: (K, K) -> bool, k: K, kx: K)
    requires TotalPreorder(ge)
    requires SortedDesc(t, key, ge)
    requires t != [] && !ge(key(t[0]), kx)
    requires ge(kx, k) && ge(k, kx)
    ensures WithKey(t, key, ge, k) == []
    decreases |t|
  {
    var x := t[|t| - 1];
    if |t| > 1 {
      WithKeyEmpty(t[..|t| - 1], key, ge, k, kx);
    }
    assert ge(key(t[0]), key(x));
    assert !ge(key(x), kx);
    assert ge(key(x), k) ==> ge(key(x), kx);
  }

  /** The sort is a permutation of its input. */
  lemma {:induction false} SortDescPermutation<T, K>(s: seq<T>, key: T -> K, ge: (K, K) -> bool)
    ensures multiset(SortDesc(s, key, ge)) == multiset(s)
    decreases |s|
  {
    if s != [] {
      SortDescPermutation(s[..|s| - 1], key, ge);
      InsertMultiset(SortDesc(s[..|s| - 1], key, ge), s[|s| - 1], key, ge);
      assert s == s[..|s| - 1] + [s[|s| - 1]];
    }
  }

  /** The sort orders by non-increasing key. */
  lemma {:induction false} SortDescSorted<T, K(!new)>(s: seq<T>, key: T -> K, ge: (K, K) -> bool)
    requires TotalPreorder(ge)
    ensures SortedDesc(SortDesc(s, key, ge), key, ge)
    decreases |s|
  {
    if s != [] {
      SortDescSorted(s[..|s| - 1], key, ge);
      InsertSorted(SortDesc(s[..|s| - 1], key, ge), s[|s| - 1], key, ge);
    }
  }

  /** The sort is stable: the elements of any one key class keep their input order. */
  lemma {:induction false} SortDescStable<T, K(!new)>(s: seq<T>, key: T -> K, ge: (K, K) -> bool, k: K)
    requires TotalPreorder(ge)
    ensures WithKey(SortDesc(s, key, ge), key, ge, k) == WithKey(s, key, ge, k)
    decreases |s|
  {
    if s != [] {
      var p := s[..|s| - 1];
      var x := s[|s| - 1];
      SortDescStable(p, key, ge, k);
      SortDescSorted(p, key, ge);
      InsertStable(SortDesc(p, key, ge), x, key, ge, k);
      WithKeyConcat(SortDesc(p, key, ge), [x], key, ge, k);
      WithKeyConcat(p, [x], key, ge, k);
      assert s == p + [x];
    }
  }
}
