/**
 * Sequence vocabulary shared by the harness model: order-preserving subsequences,
 * filtering, Python slicing and first-seen deduplication by a string key.
 * Every recursive definition peels the LAST element, matching loops that append.
 */
module Seqs {
  import opened Wrappers

  /** `a` is `b` with some elements left out and the order kept. */
  predicate IsSubseq<T(==)>(a: seq<T>, b: seq<T>)
    decreases |b|
  {
    a == [] ||
    (b != [] &&
      ((a[|a| - 1] == b[|b| - 1] && IsSubseq(a[..|a| - 1], b[..|b| - 1])) ||
       IsSubseq(a, b[..|b| - 1])))
  }

  lemma {:induction false} SubseqMembers<T>(a: seq<T>, b: seq<T>)
    requires IsSubseq(a, b)
    ensures |a| <= |b|
    ensures forall x :: x in a ==> x in b
    decreases |b|
  {
    if a != [] {
      if a[|a| - 1] == b[|b| - 1] && IsSubseq(a[..|a| - 1], b[..|b| - 1]) {
        SubseqMembers(a[..|a| - 1], b[..|b| - 1]);
        assert a == a[..|a| - 1] + [a[|a| - 1]];
        assert b == b[..|b| - 1] + [b[|b| - 1]];
      } else {
        SubseqMembers(a, b[..|b| - 1]);
        assert b == b[..|b| - 1] + [b[|b| - 1]];
      }
    }
  }

  lemma {:induction false} SubseqRefl<T>(a: seq<T>)
    ensures IsSubseq(a, a)
    decreases |a|
  {
    if a != [] { SubseqRefl(a[..|a| - 1]); }
  }

  lemma {:induction false} SubseqTransitive<T>(a: seq<T>, b: seq<T>, c: seq<T>)
    requires IsSubseq(a, b) && IsSubseq(b, c)
    ensures IsSubseq(a, c)
    decreases |c|
  {
    if a != [] {
      var c' := c[..|c| - 1];
      if IsSubseq(b, c') {
        SubseqTransitive(a, b, c');
      } else {
        // b's last element is c's last, and b's prefix is a subsequence of c'
        var b' := b[..|b| - 1];
        if a[|a| - 1] == b[|b| - 1] && IsSubseq(a[..|a| - 1], b') {
          SubseqTransitive(a[..|a| - 1], b', c');
        } else {
          SubseqTransitive(a, b', c');
        }
      }
    }
  }

  /** The elements of `s` that satisfy `f`, in order. */
  function Filter<T>(s: seq<T>, f: T -> bool): (r: seq<T>)
    ensures |r| <= |s|
    ensures forall x :: x in r ==> x in s && f(x)
    decreases |s|
  {
    if s == [] then []
    else
      var x := s[|s| - 1];
      Filter(s[..|s| - 1], f) + (if f(x) then [x] else [])
  }

  /** One more element seen by a filtering loop. */
  lemma FilterStep<T>(s: seq<T>, i: nat, f: T -> bool)
    requires i < |s|
    ensures Filter(s[..i + 1], f) == Filter(s[..i], f) + (if f(s[i]) then [s[i]] else [])
  {
    assert s[..i + 1][..i] == s[..i];
  }

  lemma {:induction false} FilterSubseq<T>(s: seq<T>, f: T -> bool)
    ensures IsSubseq(Filter(s, f), s)
    decreases |s|
  {
    if s != [] {
      var p := s[..|s| - 1];
      FilterSubseq(p, f);
      var fp := Filter(p, f);
      if f(s[|s| - 1]) {
        assert (fp + [s[|s| - 1]])[..|fp|] == fp;
      } else {
        assert Filter(s, f) == fp;
      }
    }
  }

  lemma {:induction false} FilterConcat<T>(a: seq<T>, b: seq<T>, f: T -> bool)
    ensures Filter(a + b, f) == Filter(a, f) + Filter(b, f)
    decreases |b|
  {
    if b != [] {
      var b' := b[..|b| - 1];
      assert (a + b)[..|a + b| - 1] == a + b';
      FilterConcat(a, b', f);
    } else {
      assert a + b == a;
    }
  }

  /** Every element of `s` that satisfies `f` survives `Filter`. */
  lemma {:induction false} FilterKeeps<T>(s: seq<T>, f: T -> bool, x: T)
    requires x in s && f(x)
    ensures x in Filter(s, f)
    decreases |s|
  {
    if s[|s| - 1] != x {
      assert x in s[..|s| - 1] by { assert s == s[..|s| - 1] + [s[|s| - 1]]; }
      FilterKeeps(s[..|s| - 1], f, x);
    }
  }

  /** Filters that agree on the elements of `s` select the same elements. */
  lemma {:induction false} FilterExt<T>(s: seq<T>, f: T -> bool, g: T -> bool)
    requires forall x :: x in s ==> f(x) == g(x)
    ensures Filter(s, f) == Filter(s, g)
    decreases |s|
  {
    if s != [] {
      assert s[|s| - 1] in s;
      forall x | x in s[..|s| - 1] ensures f(x) == g(x) {
        assert x in s;
      }
      FilterExt(s[..|s| - 1], f, g);
    }
  }

  /** A filter no element of `s` passes selects nothing. */
  lemma {:induction false} FilterNone<T>(s: seq<T>, f: T -> bool)
    requires forall x :: x in s ==> !f(x)
    ensures Filter(s, f) == []
    decreases |s|
  {
    if s != [] {
      assert s[|s| - 1] in s;
      forall x | x in s[..|s| - 1] ensures !f(x) {
        assert x in s;
      }
      FilterNone(s[..|s| - 1], f);
    }
  }

  /** Filtering twice is filtering once by both conditions. */
  lemma {:induction false} FilterFilter<T>(s: seq<T>, f: T -> bool, g: T -> bool, h: T -> bool)
    requires forall x :: h(x) == (f(x) && g(x))
    ensures Filter(Filter(s, f), g) == Filter(s, h)
    decreases |s|
  {
    if s != [] {
      var p := s[..|s| - 1];
      var x := s[|s| - 1];
      FilterFilter(p, f, g, h);
      var fp := Filter(p, f);
      assert h(x) == (f(x) && g(x));
      if f(x) {
        var t := fp + [x];
        assert Filter(s, f) == t;
        assert t[..|t| - 1] == fp;
      } else {
        assert Filter(s, f) == fp;
      }
    }
  }

  /** A filter and its complement split `s` into two parts that together hold every element. */
  lemma {:induction false} FilterSplit<T>(s: seq<T>, f: T -> bool, g: T -> bool)
    requires forall x :: g(x) == !f(x)
    ensures multiset(Filter(s, f)) + multiset(Filter(s, g)) == multiset(s)
    decreases |s|
  {
    if s != [] {
      var p := s[..|s| - 1];
      FilterSplit(p, f, g);
      assert s == p + [s[|s| - 1]];
    }
  }

  /** Python's slice `s[:n]`, including a negative `n`. */
  function Take<T>(s: seq<T>, n: int): (r: seq<T>)
    ensures r <= s
    ensures 0 <= n ==> |r| == if n <= |s| then n else |s|
    ensures n < 0 ==> |r| == if -n <= |s| then |s| + n else 0
  {
    if 0 <= n then (if n <= |s| then s[..n] else s)
    else if -n <= |s| then s[..|s| + n]
    else []
  }

  /** The keys the elements of `s` carry. */
  function KeysOf<T>(s: seq<T>, key: T -> string): set<string>
  {
    set i | 0 <= i < |s| :: key(s[i])
  }

  /** The non-empty keys the elements of `s` carry. */
  function NonEmptyKeysOf<T>(s: seq<T>, key: T -> string): set<string>
  {
    set i | 0 <= i < |s| && key(s[i]) != "" :: key(s[i])
  }

  /**
   * First-seen deduplication: keep an element when its key is non-empty and
   * no element kept before it has the same key.
   */
  function Unique<T>(s: seq<T>, key: T -> string): seq<T>
    decreases |s|
  {
    if s == [] then []
    else
      var u := Unique(s[..|s| - 1], key);
      var x := s[|s| - 1];
      if key(x) != "" && key(x) !in KeysOf(u, key) then u + [x] else u
  }

  /** `s[j]` is the first element of `s` with its key, and that key is not empty. */
  predicate IsFirst<T>(s: seq<T>, key: T -> string, j: int)
    requires 0 <= j < |s|
  {
    key(s[j]) != "" && forall k :: 0 <= k < j ==> key(s[k]) != key(s[j])
  }

  /** Reference definition: the first occurrence of every non-empty key, in input order. */
  function FirstOccurrences<T>(s: seq<T>, key: T -> string): seq<T>
    decreases |s|
  {
    if s == [] then []
    else FirstOccurrences(s[..|s| - 1], key) + (if IsFirst(s, key, |s| - 1) then [s[|s| - 1]] else [])
  }

  lemma KeysOfSingleton<T>(x: T, key: T -> string)
    ensures KeysOf([x], key) == {key(x)}
  {
    assert key([x][0]) in KeysOf([x], key);
  }

  lemma KeysOfAppend<T>(u: seq<T>, x: T, key: T -> string)
    ensures KeysOf(u + [x], key) == KeysOf(u, key) + {key(x)}
  {
    var v := u + [x];
    forall k | k in KeysOf(v, key) ensures k in KeysOf(u, key) + {key(x)} {
      var i :| 0 <= i < |v| && key(v[i]) == k;
      if i < |u| { assert v[i] == u[i]; }
    }
    forall k | k in KeysOf(u, key) ensures k in KeysOf(v, key) {
      var i :| 0 <= i < |u| && key(u[i]) == k;
      assert v[i] == u[i];
    }
    assert key(v[|u|]) == key(x);
  }

  lemma NonEmptyKeysOfAppend<T>(p: seq<T>, x: T, key: T -> string)
    ensures NonEmptyKeysOf(p + [x], key) == NonEmptyKeysOf(p, key) + (if key(x) != "" then {key(x)} else {})
  {
    var v := p + [x];
    forall k | k in NonEmptyKeysOf(v, key)
      ensures k in NonEmptyKeysOf(p, key) + (if key(x) != "" then {key(x)} else {})
    {
      var i :| 0 <= i < |v| && key(v[i]) != "" && key(v[i]) == k;
      if i < |p| { assert v[i] == p[i]; }
    }
    forall k | k in NonEmptyKeysOf(p, key) ensures k in NonEmptyKeysOf(v, key) {
      var i :| 0 <= i < |p| && key(p[i]) != "" && key(p[i]) == k;
      assert v[i] == p[i];
    }
    if key(x) != "" { assert key(v[|p|]) == key(x); }
  }

  /** The kept keys are exactly the non-empty keys of the input: nothing is lost, no empty key is kept. */
  lemma {:induction false} UniqueKeys<T>(s: seq<T>, key: T -> string)
    ensures KeysOf(Unique(s, key), key) == NonEmptyKeysOf(s, key)
    decreases |s|
  {
    if s == [] {
    } else {
      var p := s[..|s| - 1];
      var x := s[|s| - 1];
      var u := Unique(p, key);
      UniqueKeys(p, key);
      assert s == p + [x];
      NonEmptyKeysOfAppend(p, x, key);
      if key(x) != "" && key(x) !in KeysOf(u, key) {
        KeysOfAppend(u, x, key);
      }
    }
  }

  /** No two kept elements share a key. */
  lemma {:induction false} UniqueDistinct<T>(s: seq<T>, key: T -> string)
    ensures forall i, j :: 0 <= i < j < |Unique(s, key)| ==> key(Unique(s, key)[i]) != key(Unique(s, key)[j])
    decreases |s|
  {
    if s != [] {
      var p := s[..|s| - 1];
      var u := Unique(p, key);
      UniqueDistinct(p, key);
      var x := s[|s| - 1];
      if key(x) != "" && key(x) !in KeysOf(u, key) {
        var v := u + [x];
        forall i, j | 0 <= i < j < |v| ensures key(v[i]) != key(v[j]) {
          if j == |u| {
            assert key(u[i]) in KeysOf(u, key);
          } else {
            assert v[i] == u[i] && v[j] == u[j];
          }
        }
      }
    }
  }

  /** The output is the input with some elements left out, order kept. */
  lemma {:induction false} UniqueSubseq<T>(s: seq<T>, key: T -> string)
    ensures IsSubseq(Unique(s, key), s)
    decreases |s|
  {
    if s != [] {
      var p := s[..|s| - 1];
      var u := Unique(p, key);
      UniqueSubseq(p, key);
      var x := s[|s| - 1];
      if key(x) != "" && key(x) !in KeysOf(u, key) {
        assert (u + [x])[..|u|] == u;
      } else if u != [] {
        assert IsSubseq(u, p);
      }
    }
  }

  /** First seen wins: the output is exactly the first occurrence of every non-empty key. */
  lemma {:induction false} UniqueIsFirstOccurrences<T>(s: seq<T>, key: T -> string)
    ensures Unique(s, key) == FirstOccurrences(s, key)
    decreases |s|
  {
    if s != [] {
      var p := s[..|s| - 1];
      var x := s[|s| - 1];
      UniqueIsFirstOccurrences(p, key);
      UniqueKeys(p, key);
      var u := Unique(p, key);
      if key(x) != "" {
        if key(x) in KeysOf(u, key) {
          assert key(x) in NonEmptyKeysOf(p, key);
          var k :| 0 <= k < |p| && key(p[k]) != "" && key(p[k]) == key(x);
          assert s[k] == p[k];
          assert !IsFirst(s, key, |s| - 1);
        } else {
          forall k | 0 <= k < |s| - 1 ensures key(s[k]) != key(x) {
            assert s[k] == p[k];
            assert key(p[k]) in KeysOf(u, key) || key(p[k]) == "" by {
              if key(p[k]) != "" { assert key(p[k]) in NonEmptyKeysOf(p, key); }
            }
          }
          assert IsFirst(s, key, |s| - 1);
        }
      }
    }
  }

  /** One step of a first-seen loop: `seen` tracks the kept keys, and `s[i]` is kept when its key is new and non-empty. */
  lemma UniqueStep<T>(s: seq<T>, i: nat, key: T -> string, u: seq<T>, seen: set<string>)
    requires i < |s| && u == Unique(s[..i], key) && seen == KeysOf(u, key)
    ensures var keep := key(s[i]) != "" && key(s[i]) !in seen;
      && Unique(s[..i + 1], key) == (if keep then u + [s[i]] else u)
      && KeysOf(if keep then u + [s[i]] else u, key) == (if keep then seen + {key(s[i])} else seen)
  {
    assert s[..i + 1][..i] == s[..i];
    KeysOfAppend(u, s[i], key);
  }

  /** Index of the first element satisfying `f`. */
  function FirstWhere<T>(s: seq<T>, f: T -> bool): (r: Option<nat>)
    ensures r.Some? ==> r.value < |s| && f(s[r.value]) && forall j :: 0 <= j < r.value ==> !f(s[j])
    ensures r.None? ==> forall j :: 0 <= j < |s| ==> !f(s[j])
    decreases |s|
  {
    if s == [] then None
    else
      match FirstWhere(s[..|s| - 1], f)
      case Some(k) => Some(k)
      case None => if f(s[|s| - 1]) then Some(|s| - 1) else None
  }

  /** Index of the last element satisfying `f`. */
  function LastWhere<T>(s: seq<T>, f: T -> bool): (r: Option<nat>)
    ensures r.Some? ==> r.value < |s| && f(s[r.value]) && forall j :: r.value < j < |s| ==> !f(s[j])
    ensures r.None? ==> forall j :: 0 <= j < |s| ==> !f(s[j])
    decreases |s|
  {
    if s == [] then None
    else if f(s[|s| - 1]) then Some(|s| - 1)
    else LastWhere(s[..|s| - 1], f)
  }
}
