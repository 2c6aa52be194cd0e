/** The two-level descending comparator the ranking engine sorts with, and the
    stable sort (`Array.prototype.sort` is stable) that applies it. */
module StableSort {

  /** A sort key: compared on `primary` first, then on `secondary`, larger first. */
  datatype Key = Key(primary: real, secondary: real)

  /** The comparator `(a, b) => (b.primary - a.primary) || (b.secondary - a.secondary)`;
      JavaScript's `||` yields its left operand unless that operand is zero. */
  function Compare(a: Key, b: Key): real
  {
    var d := b.primary - a.primary;
    if d != 0.0 then d else b.secondary - a.secondary
  }

  /** `a` is placed strictly before `b`: the comparator is negative. */
  predicate Outranks(a: Key, b: Key)
  {
    Compare(a, b) < 0.0
  }

  /** The comparator orders keys lexicographically, larger first; it is
      antisymmetric and reports a tie only for equal keys. */
  lemma CompareIsLexicographic(a: Key, b: Key)
    ensures Outranks(a, b) <==> a.primary > b.primary || (a.primary == b.primary && a.secondary > b.secondary)
    ensures Compare(b, a) == -Compare(a, b)
    ensures Compare(a, b) == 0.0 <==> a == b
  {
  }

  /** No element is outranked by an element before it. */
  predicate SortedBy<T>(s: seq<T>, key: T -> Key)
  {
    forall i, j :: 0 <= i < j < |s| ==> !Outranks(key(s[j]), key(s[i]))
  }

  /** Inserts `x` into `s` after every element that `x` does not outrank. */
  function Insert<T>(s: seq<T>, x: T, key: T -> Key): (r: seq<T>)
    ensures |r| == |s| + 1
  {
    if s == [] then [x]
    else if Outranks(key(x), key(s[|s| - 1])) then Insert(s[..|s| - 1], x, key) + [s[|s| - 1]]
    else s + [x]
  }

  /** The stable sort by `key`, as insertion sort: each element in turn is
      inserted into the sorted sequence of the ones before it. */
  function Sort<T>(s: seq<T>, key: T -> Key): (r: seq<T>)
    ensures |r| == |s|
  {
    if s == [] then [] else Insert(Sort(s[..|s| - 1], key), s[|s| - 1], key)
  }

  /** The elements of `s` whose key is `k`, in order. */
  function Ties<T>(s: seq<T>, key: T -> Key, k: Key): seq<T>
  {
    if s == [] then []
    else Ties(s[..|s| - 1], key, k) + (if key(s[|s| - 1]) == k then [s[|s| - 1]] else [])
  }

  lemma TiesSnoc<T>(s: seq<T>, x: T, key: T -> Key, k: Key)
    ensures Ties(s + [x], key, k) == Ties(s, key, k) + (if key(x) == k then [x] else [])
  {
    assert (s + [x])[..|s|] == s;
  }

  /** "Not placed after" is transitive. */
  lemma NotOutrankedTransitive(a: Key, b: Key, c: Key)
    requires !Outranks(b, a) && !Outranks(c, b)
    ensures !Outranks(c, a)
  {
  }

  lemma {:induction false} InsertPermutes<T>(s: seq<T>, x: T, key: T -> Key)
    ensures multiset(Insert(s, x, key)) == multiset(s) + multiset{x}
    decreases |s|
  {
    if s != [] {
      var init, last := s[..|s| - 1], s[|s| - 1];
      assert s == init + [last];
      InsertPermutes(init, x, key);
    }
  }

  lemma {:induction false} InsertSorted<T>(s: seq<T>, x: T, key: T -> Key)
    requires SortedBy(s, key)
    ensures SortedBy(Insert(s, x, key), key)
    decreases |s|
  {
    if s != [] {
      var init, last := s[..|s| - 1], s[|s| - 1];
      assert s == init + [last];
      if Outranks(key(x), key(last)) {
        InsertSorted(init, x, key);
        InsertPermutes(init, x, key);
        var r0 := Insert(init, x, key);
        var r := r0 + [last];
        forall i, j | 0 <= i < j < |r|
          ensures !Outranks(key(r[j]), key(r[i]))
        {
          if j == |r0| {
            var y := r0[i];
            assert y in multiset(r0);
            if y != x {
              assert y in init;
              var m :| 0 <= m < |init| && init[m] == y;
              assert s[m] == y;
            }
            assert r[i] == y && r[j] == last;
          } else {
            assert r[i] == r0[i] && r[j] == r0[j];
          }
        }
      } else {
        var r := s + [x];
        forall i, j | 0 <= i < j < |r|
          ensures !Outranks(key(r[j]), key(r[i]))
        {
          if j == |s| {
            assert r[i] == s[i];
            if i < |s| - 1 {
              NotOutrankedTransitive(key(s[i]), key(last), key(x));
            }
          } else {
            assert r[i] == s[i] && r[j] == s[j];
          }
        }
      }
    }
  }

  /** Insertion puts `x` after every element with the same key. */
  lemma {:induction false} InsertTies<T>(s: seq<T>, x: T, key: T -> Key, k: Key)
    ensures Ties(Insert(s, x, key), key, k) == Ties(s, key, k) + (if key(x) == k then [x] else [])
    decreases |s|
  {
    if s != [] {
      var init, last := s[..|s| - 1], s[|s| - 1];
      assert s == init + [last];
      TiesSnoc(init, last, key, k);
      if Outranks(key(x), key(last)) {
        InsertTies(init, x, key, k);
        TiesSnoc(Insert(init, x, key), last, key, k);
      } else {
        TiesSnoc(s, x, key, k);
      }
    }
  }

  /** `Sort` returns an ordered permutation of its input. */
  lemma {:induction false} SortIsOrderedPermutation<T>(s: seq<T>, key: T -> Key)
    ensures |Sort(s, key)| == |s|
    ensures multiset(Sort(s, key)) == multiset(s)
    ensures SortedBy(Sort(s, key), key)
    decreases |s|
  {
    if s != [] {
      var init, last := s[..|s| - 1], s[|s| - 1];
      assert s == init + [last];
      SortIsOrderedPermutation(init, key);
      InsertPermutes(Sort(init, key), last, key);
      InsertSorted(Sort(init, key), last, key);
      assert |multiset(Sort(s, key))| == |Sort(s, key)|;
    }
  }

  /** `Sort` is stable: elements with equal keys keep their relative order. */
  lemma {:induction false} SortIsStable<T>(s: seq<T>, key: T -> Key, k: Key)
    ensures Ties(Sort(s, key), key, k) == Ties(s, key, k)
    decreases |s|
  {
    if s != [] {
      var init, last := s[..|s| - 1], s[|s| - 1];
      assert s == init + [last];
      SortIsStable(init, key, k);
      InsertTies(Sort(init, key), last, key, k);
      TiesSnoc(init, last, key, k);
    }
  }

  /** The first `n` elements of the sorted sequence are the best `n`: they
      are drawn from the input, and no element left out outranks one taken. */
  lemma SortPrefixIsBest<T>(s: seq<T>, key: T -> Key, n: nat)
    requires n <= |s|
    ensures multiset(Sort(s, key)[..n]) <= multiset(s)
    ensures forall q, p ::
      (q in multiset(s) - multiset(Sort(s, key)[..n]) && p in Sort(s, key)[..n]) ==> !Outranks(key(q), key(p))
  {
    SortIsOrderedPermutation(s, key);
    SortedPrefixIsBest(Sort(s, key), key, n);
  }

  /** In a sequence sorted by `key`, nothing after position `n` outranks
      anything before it. */
  lemma SortedPrefixIsBest<T>(sorted: seq<T>, key: T -> Key, n: nat)
    requires n <= |sorted| && SortedBy(sorted, key)
    ensures multiset(sorted[..n]) <= multiset(sorted)
    ensures forall q, p ::
      (q in multiset(sorted) - multiset(sorted[..n]) && p in sorted[..n]) ==> !Outranks(key(q), key(p))
  {
    var taken, rest := sorted[..n], sorted[n..];
    assert multiset(sorted) - multiset(taken) == multiset(rest) by {
      assert sorted == taken + rest;
    }
    SortedSuffixIsOutranked(sorted, key, n);
  }

  /** In a sorted sequence no element after position `n` outranks one before it. */
  lemma SortedSuffixIsOutranked<T>(sorted: seq<T>, key: T -> Key, n: nat)
    requires n <= |sorted| && SortedBy(sorted, key)
    ensures forall q, p :: q in sorted[n..] && p in sorted[..n] ==> !Outranks(key(q), key(p))
  {
    forall q, p | q in sorted[n..] && p in sorted[..n]
      ensures !Outranks(key(q), key(p))
    {
      var k :| 0 <= k < |sorted[n..]| && sorted[n..][k] == q;
      var i :| 0 <= i < n && sorted[..n][i] == p;
      assert sorted[i] == p && sorted[n + k] == q;
    }
  }

  /** Inserting `x` places it at position `j` when `x` outranks everything
      from `j` on and does not outrank the element just before `j`. */
  lemma {:induction false} InsertPosition<T>(done: seq<T>, j: nat, x: T, key: T -> Key)
    requires j <= |done|
    requires j == 0 || !Outranks(key(x), key(done[j - 1]))
    requires forall m :: j <= m < |done| ==> Outranks(key(x), key(done[m]))
    ensures Insert(done, x, key) == done[..j] + [x] + done[j..]
    decreases |done|
  {
    if j == |done| {
      assert done[..j] == done && done[j..] == [];
    } else {
      var init, last := done[..|done| - 1], done[|done| - 1];
      assert Outranks(key(x), key(last));
      InsertPosition(init, j, x, key);
      assert init[..j] == done[..j];
      assert done[j..] == init[j..] + [last];
    }
  }

  /** An array prefix that holds `done` with `x` placed at position `j` and
      the elements from `j` on moved one place right. */
  lemma ShiftedContents<T>(cur: seq<T>, done: seq<T>, x: T, i: nat, j: nat)
    requires j <= i < |cur| && |done| == i
    requires forall m :: 0 <= m < j ==> cur[m] == done[m]
    requires cur[j] == x
    requires forall m :: j < m <= i ==> cur[m] == done[m - 1]
    ensures cur[..i + 1] == done[..j] + [x] + done[j..]
  {
    forall m | 0 <= m <= i
      ensures cur[..i + 1][m] == (done[..j] + [x] + done[j..])[m]
    {
    }
  }

  /** Two sequences that agree from position `n` on have the same suffix. */
  lemma SameFrom<T>(cur: seq<T>, before: seq<T>, n: nat)
    requires |cur| == |before| && n <= |cur|
    requires forall m :: n <= m < |cur| ==> cur[m] == before[m]
    ensures cur[n..] == before[n..]
  {
    forall k | 0 <= k < |cur| - n
      ensures cur[n..][k] == before[n..][k]
    {
      assert cur[n..][k] == cur[n + k];
    }
  }

  /** One step of the in-place sort: moves `a[i]` left past the elements of the
      sorted prefix `a[..i]` that it outranks. */
  method InsertInPlace<T>(a: array<T>, i: nat, key: T -> Key)
    requires i < a.Length
    modifies a
    ensures a[..i + 1] == Insert(old(a[..i]), old(a[i]), key)
    ensures a[i + 1..] == old(a[i + 1..])
  {
    ghost var input := a[..];
    ghost var done := a[..i];
    var x := a[i];
    var j := i;
    while j > 0 && Outranks(key(x), key(a[j - 1]))
      invariant 0 <= j <= i
      invariant forall m :: 0 <= m < j ==> a[m] == done[m]
      invariant forall m :: j < m <= i ==> a[m] == done[m - 1]
      invariant forall m :: i < m < a.Length ==> a[m] == input[m]
      invariant forall m :: j <= m < i ==> Outranks(key(x), key(done[m]))
    {
      a[j] := a[j - 1];
      j := j - 1;
    }
    a[j] := x;
    InsertPosition(done, j, x, key);
    ShiftedContents(a[..], done, x, i, j);
    SameFrom(a[..], input, i + 1);
  }

  /** Sorts `a` in place, as `a.sort(comparator)` does: the array afterwards
      holds `Sort` of its former contents. */
  method SortInPlace<T>(a: array<T>, key: T -> Key)
    modifies a
    ensures a[..] == Sort(old(a[..]), key)
  {
    ghost var input := a[..];
    var i := 0;
    while i < a.Length
      invariant 0 <= i <= a.Length
      invariant a[..i] == Sort(input[..i], key)
      invariant a[i..] == input[i..]
    {
      assert input[..i + 1][..i] == input[..i];
      assert a[i] == input[i];
      InsertInPlace(a, i, key);
      i := i + 1;
    }
    assert a[..] == a[..a.Length];
    assert input == input[..a.Length];
  }
}
