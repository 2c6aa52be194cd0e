/** Generic sequence operations the ranking engine is assembled from: the
    array `filter`, the "keep the first element with each key" filter that the
    engine writes with `findIndex`, and `slice(0, end)`. */
module Sequences {

  /** `s.filter(keep)`: the elements of `s` that satisfy `keep`, in their order. */
  function Filter<T(==,!new)>(s: seq<T>, keep: T -> bool): (r: seq<T>)
    ensures |r| <= |s|
    ensures forall x :: x in r <==> x in s && keep(x)
  {
    if s == [] then []
    else
      var init, last := s[..|s| - 1], s[|s| - 1];
      assert s == init + [last];
      if keep(last) then Filter(init, keep) + [last] else Filter(init, keep)
  }

  lemma FilterSnoc<T(!new)>(s: seq<T>, x: T, keep: T -> bool)
    ensures Filter(s + [x], keep) == Filter(s, keep) + (if keep(x) then [x] else [])
  {
    assert (s + [x])[..|s|] == s;
  }

  /** Filtering keeps every copy of a kept element and no copy of a dropped
      one: each element occurs in the result as often as in `s` if it
      satisfies `keep`, and not at all otherwise. */
  lemma {:induction false} FilterMultiplicity<T(!new)>(s: seq<T>, keep: T -> bool)
    ensures forall x :: multiset(Filter(s, keep))[x] == if keep(x) then multiset(s)[x] else 0
    decreases |s|
  {
    if s != [] {
      var init, last := s[..|s| - 1], s[|s| - 1];
      assert s == init + [last];
      FilterMultiplicity(init, keep);
      FilterSnoc(init, last, keep);
    }
  }

  /** Nothing passes a filter that no element satisfies. */
  lemma {:induction false} FilterNone<T(!new)>(s: seq<T>, keep: T -> bool)
    requires forall x :: x in s ==> !keep(x)
    ensures Filter(s, keep) == []
    decreases |s|
  {
    if s != [] {
      var init := s[..|s| - 1];
      assert forall x :: x in init ==> x in s;
      FilterNone(init, keep);
    }
  }

  /** Filtering a prefix yields a prefix of the filtered whole. */
  lemma {:induction false} FilterPrefix<T(!new)>(a: seq<T>, b: seq<T>, keep: T -> bool)
    requires a <= b
    ensures Filter(a, keep) <= Filter(b, keep)
    decreases |b|
  {
    if |a| < |b| {
      var init := b[..|b| - 1];
      assert a <= init;
      FilterPrefix(a, init, keep);
    } else {
      assert a == b;
    }
  }

  /** A relation that holds between every earlier and later element of `s`
      still holds between every earlier and later element of `Filter(s, keep)`:
      filtering keeps the relative order of what it keeps. */
  lemma {:induction false} FilterKeepsOrder<T(!new)>(s: seq<T>, keep: T -> bool, before: (T, T) -> bool)
    requires forall i, j :: 0 <= i < j < |s| ==> before(s[i], s[j])
    ensures forall i, j :: 0 <= i < j < |Filter(s, keep)| ==> before(Filter(s, keep)[i], Filter(s, keep)[j])
    decreases |s|
  {
    if s != [] {
      var init, last := s[..|s| - 1], s[|s| - 1];
      assert s == init + [last];
      assert forall i, j :: 0 <= i < j < |init| ==> init[i] == s[i] && init[j] == s[j];
      FilterKeepsOrder(init, keep, before);
      var f := Filter(init, keep);
      if keep(last) {
        var r := f + [last];
        assert Filter(s, keep) == r;
        forall i, j | 0 <= i < j < |r|
          ensures before(r[i], r[j])
        {
          if j == |f| {
            assert f[i] in init;
            var k :| 0 <= k < |init| && init[k] == f[i];
            assert s[k] == r[i] && s[|s| - 1] == r[j];
          } else {
            assert r[i] == f[i] && r[j] == f[j];
          }
        }
      } else {
        assert Filter(s, keep) == f;
      }
    }
  }

  /** The set of keys that occur in `s`. */
  function KeysOf<T, K>(s: seq<T>, key: T -> K): set<K>
  {
    set i | 0 <= i < |s| :: key(s[i])
  }

  /** A key occurs in `s` exactly when some element of `s` has it. */
  lemma KeysOfMembers<T, K>(s: seq<T>, key: T -> K, k: K)
    ensures k in KeysOf(s, key) <==> exists x :: x in s && key(x) == k
  {
    if exists x :: x in s && key(x) == k {
      var x :| x in s && key(x) == k;
      var i :| 0 <= i < |s| && s[i] == x;
      assert key(s[i]) == k;
    }
  }

  lemma KeysOfSnoc<T, K>(s: seq<T>, x: T, key: T -> K)
    ensures KeysOf(s + [x], key) == KeysOf(s, key) + {key(x)}
  {
    var l := s + [x];
    forall k | k in KeysOf(l, key)
      ensures k in KeysOf(s, key) + {key(x)}
    {
      var i :| 0 <= i < |l| && key(l[i]) == k;
      if i < |s| {
        assert l[i] == s[i];
      }
    }
    forall k | k in KeysOf(s, key)
      ensures k in KeysOf(l, key)
    {
      var i :| 0 <= i < |s| && key(s[i]) == k;
      assert l[i] == s[i];
    }
    assert key(l[|s|]) == key(x);
  }

  /** No two elements of `s` share a key. */
  predicate DistinctKeys<T, K(==)>(s: seq<T>, key: T -> K)
  {
    forall i, j :: 0 <= i < j < |s| ==> key(s[i]) != key(s[j])
  }

  /** A sequence without repeated keys has exactly as many elements as keys. */
  lemma {:induction false} DistinctKeysCount<T, K>(s: seq<T>, key: T -> K)
    requires DistinctKeys(s, key)
    ensures |s| == |KeysOf(s, key)|
    decreases |s|
  {
    if s != [] {
      var init, last := s[..|s| - 1], s[|s| - 1];
      assert s == init + [last];
      DistinctKeysCount(init, key);
      KeysOfSnoc(init, last, key);
      forall i | 0 <= i < |init|
        ensures key(init[i]) != key(last)
      {
        assert init[i] == s[i];
      }
    }
  }

  /** In a sequence without repeated keys, a key determines the element. */
  lemma KeyDeterminesElement<T, K>(s: seq<T>, key: T -> K, x: T, y: T)
    requires DistinctKeys(s, key) && x in s && y in s && key(x) == key(y)
    ensures x == y
  {
    var i :| 0 <= i < |s| && s[i] == x;
    var j :| 0 <= j < |s| && s[j] == y;
    assert i == j;
  }

  /** Filtering keeps keys distinct. */
  lemma {:induction false} FilterDistinct<T(!new), K>(s: seq<T>, keep: T -> bool, key: T -> K)
    requires DistinctKeys(s, key)
    ensures DistinctKeys(Filter(s, keep), key)
  {
    FilterKeepsOrder(s, keep, (a, b) => key(a) != key(b));
  }

  /** `s.findIndex(y => key(y) == k)` for a key that occurs in `s`: the
      position of the first element with that key. */
  function FirstIndex<T, K(==)>(s: seq<T>, key: T -> K, k: K): (i: nat)
    requires k in KeysOf(s, key)
    ensures i < |s| && key(s[i]) == k
    ensures forall j :: 0 <= j < i ==> key(s[j]) != k
    decreases |s|
  {
    var n := |s| - 1;
    KeysOfSnoc(s[..n], s[n], key);
    assert s == s[..n] + [s[n]];
    if k in KeysOf(s[..n], key) then
      var i := FirstIndex(s[..n], key, k);
      assert s[i] == s[..n][i];
      i
    else
      assert forall j :: 0 <= j < n ==> s[j] == s[..n][j];
      n
  }

  /** The elements of `s` whose key does not occur earlier in `s`, in order:
      `s.filter((x, idx) => s.findIndex(y => key(y) == key(x)) === idx)`. */
  function KeepFirst<T, K(==)>(s: seq<T>, key: T -> K): seq<T>
  {
    if s == [] then []
    else
      var init, last := s[..|s| - 1], s[|s| - 1];
      if key(last) in KeysOf(init, key) then KeepFirst(init, key) else KeepFirst(init, key) + [last]
  }

  lemma KeepFirstSnoc<T, K>(s: seq<T>, x: T, key: T -> K)
    ensures KeepFirst(s + [x], key) == KeepFirst(s, key) + (if key(x) in KeysOf(s, key) then [] else [x])
  {
    assert (s + [x])[..|s|] == s;
  }

  /** Keeping first occurrences loses no key. */
  lemma {:induction false} KeepFirstKeys<T, K>(s: seq<T>, key: T -> K)
    ensures KeysOf(KeepFirst(s, key), key) == KeysOf(s, key)
    decreases |s|
  {
    if s != [] {
      var init, last := s[..|s| - 1], s[|s| - 1];
      assert s == init + [last];
      KeepFirstKeys(init, key);
      KeysOfSnoc(init, last, key);
      if key(last) !in KeysOf(init, key) {
        KeysOfSnoc(KeepFirst(init, key), last, key);
      }
    }
  }

  /** What `KeepFirst` keeps: each kept element is the first element of `s`
      with its key, the kept elements come in the order of those first
      positions, and so no two of them share a key. */
  lemma {:induction false} KeepFirstIsFirst<T, K>(s: seq<T>, key: T -> K)
    ensures forall x :: x in KeepFirst(s, key) ==>
      key(x) in KeysOf(s, key) && x == s[FirstIndex(s, key, key(x))]
    ensures forall i, j :: 0 <= i < j < |KeepFirst(s, key)| ==>
      key(KeepFirst(s, key)[i]) in KeysOf(s, key) && key(KeepFirst(s, key)[j]) in KeysOf(s, key) &&
      FirstIndex(s, key, key(KeepFirst(s, key)[i])) < FirstIndex(s, key, key(KeepFirst(s, key)[j]))
    ensures DistinctKeys(KeepFirst(s, key), key)
    decreases |s|
  {
    if s != [] {
      var init, last := s[..|s| - 1], s[|s| - 1];
      assert s == init + [last];
      KeepFirstIsFirst(init, key);
      KeysOfSnoc(init, last, key);
      var r0 := KeepFirst(init, key);
      // Keys already in `init` keep their first position when `last` is appended.
      forall k | k in KeysOf(init, key)
        ensures FirstIndex(s, key, k) == FirstIndex(init, key, k)
      {
      }
      forall i | 0 <= i < |r0|
        ensures key(r0[i]) in KeysOf(init, key)
      {
        assert r0[i] in r0;
      }
      if key(last) !in KeysOf(init, key) {
        var r := r0 + [last];
        assert KeepFirst(s, key) == r;
        assert FirstIndex(s, key, key(last)) == |s| - 1;
        forall i, j | 0 <= i < j < |r|
          ensures key(r[i]) in KeysOf(s, key) && key(r[j]) in KeysOf(s, key)
          ensures FirstIndex(s, key, key(r[i])) < FirstIndex(s, key, key(r[j]))
        {
          if j == |r0| {
            assert r[i] == r0[i] && r[j] == last;
          } else {
            assert r[i] == r0[i] && r[j] == r0[j];
          }
        }
      } else {
        assert KeepFirst(s, key) == r0;
        forall i, j | 0 <= i < j < |r0|
          ensures key(r0[i]) in KeysOf(s, key) && key(r0[j]) in KeysOf(s, key)
          ensures FirstIndex(s, key, key(r0[i])) < FirstIndex(s, key, key(r0[j]))
        {
        }
      }
    } else {
      assert KeepFirst(s, key) == [];
    }
  }

  /** A sequence without repeated keys is its own first occurrences. */
  lemma {:induction false} KeepFirstOfDistinct<T, K>(s: seq<T>, key: T -> K)
    requires DistinctKeys(s, key)
    ensures KeepFirst(s, key) == s
    decreases |s|
  {
    if s != [] {
      var init, last := s[..|s| - 1], s[|s| - 1];
      assert s == init + [last];
      assert DistinctKeys(init, key);
      KeepFirstOfDistinct(init, key);
      forall i | 0 <= i < |init|
        ensures key(init[i]) != key(last)
      {
        assert init[i] == s[i];
      }
    }
  }

  /** Keeping first occurrences of a prefix yields a prefix of the whole's. */
  lemma {:induction false} KeepFirstPrefix<T, K>(a: seq<T>, b: seq<T>, key: T -> K)
    requires a <= b
    ensures KeepFirst(a, key) <= KeepFirst(b, key)
    decreases |b|
  {
    if |a| < |b| {
      var init := b[..|b| - 1];
      assert a <= init;
      KeepFirstPrefix(a, init, key);
    } else {
      assert a == b;
    }
  }

  /** `s.slice(0, end)`: the first `end` elements of `s`; a negative `end`
      counts back from the end of `s`, as JavaScript's `slice` does. */
  function SliceTo<T>(s: seq<T>, end: int): (r: seq<T>)
    ensures r <= s
    ensures 0 <= end ==> |r| == if end < |s| then end else |s|
    ensures end < 0 ==> |r| == if 0 < |s| + end then |s| + end else 0
  {
    var stop := if end < 0 then (if 0 < |s| + end then |s| + end else 0)
                else if end < |s| then end else |s|;
    s[..stop]
  }

  /** Every element of a prefix is an element of the whole. */
  lemma PrefixMembers<T>(a: seq<T>, b: seq<T>)
    requires a <= b
    ensures forall x :: x in a ==> x in b
  {
    assert a == b[..|a|];
  }
}
