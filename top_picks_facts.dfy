/** What the ranking engine guarantees, proved about its specification
    `TopPicks` and about each of its steps. */
module TopPicksFacts {
  import opened Sequences
  import opened StableSort
  import opened Recommendations

  // ---------------------------------------------------------------------
  // Scoring

  /** The score is the sum of independent bonuses: each one is added exactly
      when its condition holds, whatever the others are. */
  lemma ScoreIsSumOfBonuses(p: Product, user: UserActivity, w: real)
    ensures Score(p, user) ==
      (if p.title in user.purchaseHistory then 10.0 else 0.0)
      + (if p.title in user.wishlist then 8.0 else 0.0)
      + (if p.category in user.browsingCategories then 5.0 else 0.0)
      + 2.0 * (if p.category in user.categoryAffinity then user.categoryAffinity[p.category] else 0.0)
      + p.rating
      + (if p.trending then 2.0 else 0.0)
    ensures p.title !in user.purchaseHistory ==>
      Score(p, user.(purchaseHistory := user.purchaseHistory + [p.title])) == Score(p, user) + 10.0
    ensures p.title !in user.wishlist ==>
      Score(p, user.(wishlist := user.wishlist + [p.title])) == Score(p, user) + 8.0
    ensures p.category !in user.browsingCategories ==>
      Score(p, user.(browsingCategories := user.browsingCategories + [p.category])) == Score(p, user) + 5.0
    ensures Score(p, user.(categoryAffinity := user.categoryAffinity[p.category := w]))
      == Score(p, user) + 2.0 * (w - Affinity(user, p.category))
    ensures !p.trending ==> Score(p.(trending := true), user) == Score(p, user) + 2.0
  {
  }

  // ---------------------------------------------------------------------
  // Ranking

  /** The ranking is a permutation of the scored eligible listings, ordered by
      score and then rating, both descending, and it keeps catalog order among
      listings that tie on both. */
  lemma {:induction false} RankIsStableOrdering(filtered: seq<Product>, user: UserActivity)
    ensures Products(ScoreAll(filtered, user)) == filtered
    ensures multiset(Rank(filtered, user)) == multiset(ScoreAll(filtered, user))
    ensures forall x :: x in Rank(filtered, user) ==> x.product in filtered && x.score == Score(x.product, user)
    ensures forall i, j :: 0 <= i < j < |Rank(filtered, user)| ==>
      var a, b := Rank(filtered, user)[i], Rank(filtered, user)[j];
      a.score > b.score || (a.score == b.score && a.product.rating >= b.product.rating)
    ensures forall k :: Ties(Rank(filtered, user), ScoreKey, k) == Ties(ScoreAll(filtered, user), ScoreKey, k)
  {
    var scored := ScoreAll(filtered, user);
    var r := Rank(filtered, user);
    SortIsOrderedPermutation(scored, ScoreKey);
    forall k {
      SortIsStable(scored, ScoreKey, k);
    }
    forall x | x in r
      ensures x.product in filtered && x.score == Score(x.product, user)
    {
      assert x in multiset(scored);
      var i :| 0 <= i < |scored| && scored[i] == x;
    }
    forall i, j | 0 <= i < j < |r|
      ensures r[i].score > r[j].score || (r[i].score == r[j].score && r[i].product.rating >= r[j].product.rating)
    {
      CompareIsLexicographic(ScoreKey(r[j]), ScoreKey(r[i]));
    }
  }

  // ---------------------------------------------------------------------
  // Diversity pass

  /** The non-empty categories that occur among the ranked listings. */
  function Categories(ranked: seq<Product>): set<string>
  {
    KeysOf(ranked, CategoryOf) - {""}
  }

  lemma {:induction false} FilterCategoryKeys(s: seq<Product>)
    ensures KeysOf(Filter(s, HasCategory), CategoryOf) == Categories(s)
  {
    var f := Filter(s, HasCategory);
    forall c | c in KeysOf(f, CategoryOf)
      ensures c in Categories(s)
    {
      KeysOfMembers(f, CategoryOf, c);
      KeysOfMembers(s, CategoryOf, c);
    }
    forall c | c in Categories(s)
      ensures c in KeysOf(f, CategoryOf)
    {
      KeysOfMembers(f, CategoryOf, c);
      KeysOfMembers(s, CategoryOf, c);
    }
  }

  /** Every pick has a non-empty category and is the first listing of that
      category in the ranking. */
  lemma {:induction false} FirstPerCategoryPicksFirst(ranked: seq<Product>)
    ensures forall p :: p in FirstPerCategory(ranked) ==> p in ranked && IsFirstOfCategory(ranked, p)
  {
    KeepFirstIsFirst(ranked, CategoryOf);
  }

  /** The picks follow ranking order, so no two share a category. */
  lemma {:induction false} FirstPerCategoryInRankOrder(ranked: seq<Product>)
    ensures forall i, j :: 0 <= i < j < |FirstPerCategory(ranked)| ==>
      var a, b := FirstPerCategory(ranked)[i], FirstPerCategory(ranked)[j];
      a.category in KeysOf(ranked, CategoryOf) && b.category in KeysOf(ranked, CategoryOf) &&
      FirstIndex(ranked, CategoryOf, a.category) < FirstIndex(ranked, CategoryOf, b.category)
    ensures DistinctKeys(FirstPerCategory(ranked), CategoryOf)
  {
    var kf := KeepFirst(ranked, CategoryOf);
    var f := FirstPerCategory(ranked);
    KeepFirstIsFirst(ranked, CategoryOf);
    var before := (a: Product, b: Product) =>
      a.category in KeysOf(ranked, CategoryOf) && b.category in KeysOf(ranked, CategoryOf) &&
      FirstIndex(ranked, CategoryOf, a.category) < FirstIndex(ranked, CategoryOf, b.category);
    FilterKeepsOrder(kf, HasCategory, before);
    forall i, j | 0 <= i < j < |f|
      ensures f[i].category in KeysOf(ranked, CategoryOf) && f[j].category in KeysOf(ranked, CategoryOf) &&
              FirstIndex(ranked, CategoryOf, f[i].category) < FirstIndex(ranked, CategoryOf, f[j].category)
    {
      assert before(f[i], f[j]);
    }
  }

  /** Every non-empty category of the ranking is represented exactly once. */
  lemma {:induction false} FirstPerCategoryCoversCategories(ranked: seq<Product>)
    ensures KeysOf(FirstPerCategory(ranked), CategoryOf) == Categories(ranked)
    ensures |FirstPerCategory(ranked)| == |Categories(ranked)|
  {
    var kf := KeepFirst(ranked, CategoryOf);
    KeepFirstKeys(ranked, CategoryOf);
    FilterCategoryKeys(kf);
    FirstPerCategoryInRankOrder(ranked);
    DistinctKeysCount(FirstPerCategory(ranked), CategoryOf);
  }

  /** The diversity pass takes at most `max` picks when `max > 0`, otherwise
      one per non-empty category; it ends short of `max` only when every
      non-empty category of the ranking has been picked. */
  lemma {:induction false} DiversePicksFacts(ranked: seq<Product>, max: int)
    ensures DiversePicks(ranked, max) <= FirstPerCategory(ranked)
    ensures |DiversePicks(ranked, max)| ==
      if 0 < max < |Categories(ranked)| then max else |Categories(ranked)|
    ensures (max <= 0 || |DiversePicks(ranked, max)| < max) ==>
      KeysOf(DiversePicks(ranked, max), CategoryOf) == Categories(ranked)
    ensures DistinctKeys(DiversePicks(ranked, max), CategoryOf)
    ensures forall p :: p in DiversePicks(ranked, max) ==> p in ranked && IsFirstOfCategory(ranked, p)
  {
    var f := FirstPerCategory(ranked);
    var d := DiversePicks(ranked, max);
    FirstPerCategoryPicksFirst(ranked);
    FirstPerCategoryInRankOrder(ranked);
    FirstPerCategoryCoversCategories(ranked);
    PrefixMembers(d, f);
    assert forall i, j :: 0 <= i < j < |d| ==> d[i] == f[i] && d[j] == f[j];
  }

  /** `p` is the first listing with its (non-empty) category in `ranked`. */
  predicate IsFirstOfCategory(ranked: seq<Product>, p: Product)
  {
    p.category != "" && p.category in KeysOf(ranked, CategoryOf) &&
    p == ranked[FirstIndex(ranked, CategoryOf, p.category)]
  }

  // ---------------------------------------------------------------------
  // Fallback

  /** The fallback adds at most the free slots; it adds only eligible
      listings that match no pick on (title, category), each no more often
      than it occurs among them; it puts trending listings first and then
      orders by rating; it takes the best-ranked candidates, so no candidate
      left out outranks one taken; and when it leaves a slot free it has
      taken every copy of every candidate, repeated ones included. */
  lemma {:induction false} FallbackFacts(filtered: seq<Product>, picks: seq<Product>, max: int)
    requires |picks| < max
    ensures |Fallback(filtered, picks, max)| <= max - |picks|
    ensures forall p :: p in Fallback(filtered, picks, max) ==>
      p in filtered && PairKey(p) !in KeysOf(picks, PairKey)
    ensures forall i, j :: 0 <= i < j < |Fallback(filtered, picks, max)| ==>
      var a, b := Fallback(filtered, picks, max)[i], Fallback(filtered, picks, max)[j];
      (b.trending ==> a.trending) && (a.trending == b.trending ==> a.rating >= b.rating)
    ensures |Fallback(filtered, picks, max)| < max - |picks| ==>
      forall p :: p in filtered && PairKey(p) !in KeysOf(picks, PairKey) ==> p in Fallback(filtered, picks, max)
    ensures multiset(Fallback(filtered, picks, max)) <= multiset(Unpicked(filtered, picks))
    ensures |Fallback(filtered, picks, max)| ==
      if |Unpicked(filtered, picks)| < max - |picks| then |Unpicked(filtered, picks)| else max - |picks|
    ensures |Fallback(filtered, picks, max)| < max - |picks| ==>
      multiset(Fallback(filtered, picks, max)) == multiset(Unpicked(filtered, picks))
    ensures forall q, p ::
      (q in multiset(Unpicked(filtered, picks)) - multiset(Fallback(filtered, picks, max)) &&
       p in Fallback(filtered, picks, max)) ==> !Outranks(FallbackKey(q), FallbackKey(p))
  {
    var u := Unpicked(filtered, picks);
    var sorted := Sort(u, FallbackKey);
    var fb := Fallback(filtered, picks, max);
    SortIsOrderedPermutation(u, FallbackKey);
    PrefixMembers(fb, sorted);
    forall p | p in fb
      ensures p in filtered && PairKey(p) !in KeysOf(picks, PairKey)
    {
      assert p in multiset(sorted);
    }
    forall i, j | 0 <= i < j < |fb|
      ensures (fb[j].trending ==> fb[i].trending) && (fb[i].trending == fb[j].trending ==> fb[i].rating >= fb[j].rating)
    {
      assert fb[i] == sorted[i] && fb[j] == sorted[j];
      CompareIsLexicographic(FallbackKey(fb[j]), FallbackKey(fb[i]));
    }
    if |fb| < max - |picks| {
      assert fb == sorted;
      assert multiset(fb) == multiset(u);
      forall p | p in filtered && PairKey(p) !in KeysOf(picks, PairKey)
        ensures p in fb
      {
        assert p in u;
        assert p in multiset(u);
      }
    }
    assert fb == sorted[..|fb|];
    SortPrefixIsBest(u, FallbackKey, |fb|);
  }

  // ---------------------------------------------------------------------
  // The whole engine

  /** Everything the diversity pass picks is an eligible listing. */
  lemma {:induction false} DiversePicksAreEligible(filtered: seq<Product>, user: UserActivity, max: int)
    ensures forall p :: p in DiversePicks(Products(Rank(filtered, user)), max) ==> p in filtered
  {
    var ranked := Rank(filtered, user);
    RankIsStableOrdering(filtered, user);
    DiversePicksFacts(Products(ranked), max);
    forall p | p in DiversePicks(Products(ranked), max)
      ensures p in filtered
    {
      var i :| 0 <= i < |Products(ranked)| && Products(ranked)[i] == p;
      assert ranked[i] in ranked;
    }
  }

  /** Every listing returned is eligible and comes from the catalog. */
  lemma {:induction false} TopPicksAreEligible(products: seq<Product>, user: UserActivity, max: int)
    ensures forall p :: p in TopPicks(products, user, max) ==> p in products && IsEligible(p)
  {
    var filtered := Filter(products, IsEligible);
    var picks := DiversePicks(Products(Rank(filtered, user)), max);
    var filled := Fill(filtered, picks, max);
    var unique := KeepFirst(filled, PairKey);
    DiversePicksAreEligible(filtered, user, max);
    if |picks| < max {
      FallbackFacts(filtered, picks, max);
    }
    assert forall p :: p in filled ==> p in filtered;
    KeepFirstIsFirst(filled, PairKey);
    PrefixMembers(SliceTo(unique, max), unique);
  }

  /** The result never holds more than `max` listings when `max >= 0`; for
      `max == 0` it is empty although the diversity pass collected one
      listing per category. */
  lemma TopPicksBounded(products: seq<Product>, user: UserActivity, max: int)
    ensures 0 <= max ==> |TopPicks(products, user, max)| <= max
    ensures max == 0 ==> TopPicks(products, user, max) == []
  {
  }

  /** No two listings in the result share a (title, category) pair; the
      result is a prefix of the picks with later repeats removed. */
  lemma {:induction false} TopPicksHaveNoDuplicates(products: seq<Product>, user: UserActivity, max: int)
    ensures DistinctKeys(TopPicks(products, user, max), PairKey)
  {
    var filtered := Filter(products, IsEligible);
    var picks := DiversePicks(Products(Rank(filtered, user)), max);
    var unique := KeepFirst(Fill(filtered, picks, max), PairKey);
    var r := TopPicks(products, user, max);
    KeepFirstIsFirst(Fill(filtered, picks, max), PairKey);
    assert forall i :: 0 <= i < |r| ==> r[i] == unique[i];
  }

  /** An empty catalog, or one without an eligible listing, yields nothing. */
  lemma {:induction false} TopPicksEmptyWithoutEligible(products: seq<Product>, user: UserActivity, max: int)
    requires forall p :: p in products ==> !IsEligible(p)
    ensures TopPicks(products, user, max) == []
  {
    FilterNone(products, IsEligible);
    assert ScoreAll([], user) == [];
    assert Products(Rank([], user)) == [];
  }

  /** The ranking holds exactly the eligible listings. */
  lemma {:induction false} RankedListingsAreEligible(filtered: seq<Product>, user: UserActivity)
    ensures forall p :: p in Products(Rank(filtered, user)) <==> p in filtered
    ensures Categories(Products(Rank(filtered, user))) == Categories(filtered)
  {
    var scored := ScoreAll(filtered, user);
    var ranked := Rank(filtered, user);
    RankIsStableOrdering(filtered, user);
    forall p | p in Products(ranked)
      ensures p in filtered
    {
      var i :| 0 <= i < |Products(ranked)| && Products(ranked)[i] == p;
      assert ranked[i] in ranked;
    }
    forall p | p in filtered
      ensures p in Products(ranked)
    {
      var i :| 0 <= i < |filtered| && filtered[i] == p;
      assert scored[i] in multiset(ranked);
      var j :| 0 <= j < |ranked| && ranked[j] == scored[i];
      assert Products(ranked)[j] == p;
    }
    forall c
      ensures c in KeysOf(Products(ranked), CategoryOf) <==> c in KeysOf(filtered, CategoryOf)
    {
      KeysOfMembers(Products(ranked), CategoryOf, c);
      KeysOfMembers(filtered, CategoryOf, c);
    }
  }

  /** Diversity preference: the diversity pass picks listings of pairwise
      different categories, as many as there are non-empty categories among
      the eligible listings, up to `max`. */
  lemma {:induction false} DiversityPreference(products: seq<Product>, user: UserActivity, max: int)
    ensures DistinctKeys(DiversePicks(Products(Rank(Filter(products, IsEligible), user)), max), CategoryOf)
    ensures 0 < max ==>
      |DiversePicks(Products(Rank(Filter(products, IsEligible), user)), max)| ==
      if max < |Categories(Filter(products, IsEligible))| then max else |Categories(Filter(products, IsEligible))|
  {
    var filtered := Filter(products, IsEligible);
    RankedListingsAreEligible(filtered, user);
    DiversePicksFacts(Products(Rank(filtered, user)), max);
  }

  /** Picks of pairwise different categories never repeat a (title, category) pair. */
  lemma DistinctCategoriesDistinctPairs(s: seq<Product>)
    requires DistinctKeys(s, CategoryOf)
    ensures DistinctKeys(s, PairKey)
  {
  }

  /** For `max > 0` the result begins with the diversity picks, in ranking
      order; the fallback and the de-duplication only add after them. */
  lemma {:induction false} TopPicksStartWithDiversePicks(products: seq<Product>, user: UserActivity, max: int)
    requires 0 < max
    ensures DiversePicks(Products(Rank(Filter(products, IsEligible), user)), max) <= TopPicks(products, user, max)
  {
    var filtered := Filter(products, IsEligible);
    var picks := DiversePicks(Products(Rank(filtered, user)), max);
    var filled := Fill(filtered, picks, max);
    DiversePicksFacts(Products(Rank(filtered, user)), max);
    DistinctCategoriesDistinctPairs(picks);
    KeepFirstOfDistinct(picks, PairKey);
    assert picks <= filled;
    KeepFirstPrefix(picks, filled, PairKey);
  }

  /** Listings with pairwise different pairs, drawn from a sequence with
      pairwise different pairs, are no more than it holds, and as many only
      when they are all of it. */
  lemma {:induction false} DistinctKeysWithin(s: seq<Product>, f: seq<Product>)
    requires DistinctKeys(s, PairKey) && DistinctKeys(f, PairKey)
    requires forall p :: p in s ==> p in f
    ensures |s| <= |f|
    ensures |s| == |f| ==> forall p :: p in f ==> p in s
  {
    DistinctKeysCount(s, PairKey);
    DistinctKeysCount(f, PairKey);
    var ks, kf := KeysOf(s, PairKey), KeysOf(f, PairKey);
    forall k | k in ks
      ensures k in kf
    {
      KeysOfMembers(s, PairKey, k);
      KeysOfMembers(f, PairKey, k);
    }
    assert kf == ks + (kf - ks);
    if |s| == |f| {
      assert kf - ks == {};
      forall p | p in f
        ensures p in s
      {
        KeysOfMembers(f, PairKey, PairKey(p));
        KeysOfMembers(s, PairKey, PairKey(p));
        var q :| q in s && PairKey(q) == PairKey(p);
        KeyDeterminesElement(f, PairKey, p, q);
      }
    }
  }

  /** With room for every unpicked pair, the fallback takes all of them. */
  lemma {:induction false} FallbackTakesAllUnpicked(f: seq<Product>, d: seq<Product>, max: int)
    requires DistinctKeys(f, PairKey) && DistinctKeys(d, PairKey)
    requires forall p :: p in d ==> p in f
    requires |d| < max && |f| <= max
    ensures forall p :: p in Unpicked(f, d) ==> p in Fallback(f, d, max)
  {
    var un := Unpicked(f, d);
    FilterDistinct(f, p => PairKey(p) !in KeysOf(d, PairKey), PairKey);
    DistinctKeysCount(d, PairKey);
    DistinctKeysCount(un, PairKey);
    DistinctKeysCount(f, PairKey);
    var kd, ku, kf := KeysOf(d, PairKey), KeysOf(un, PairKey), KeysOf(f, PairKey);
    forall k | k in ku
      ensures k in kf && k !in kd
    {
      KeysOfMembers(un, PairKey, k);
      KeysOfMembers(f, PairKey, k);
    }
    forall k | k in kd
      ensures k in kf
    {
      KeysOfMembers(d, PairKey, k);
      KeysOfMembers(f, PairKey, k);
    }
    assert kd * ku == {};
    assert kf == (kd + ku) + (kf - (kd + ku));
    SortIsOrderedPermutation(un, FallbackKey);
    assert Fallback(f, d, max) == Sort(un, FallbackKey);
    forall p | p in un
      ensures p in Fallback(f, d, max)
    {
      assert p in multiset(Sort(un, FallbackKey));
    }
  }

  /** Under the same conditions every eligible pair occurs among the picks
      once the fallback has been appended. */
  lemma {:induction false} FillCoversEligible(f: seq<Product>, d: seq<Product>, max: int)
    requires DistinctKeys(f, PairKey) && DistinctKeys(d, PairKey)
    requires forall p :: p in d ==> p in f
    requires |f| <= max
    ensures forall p :: p in Fill(f, d, max) ==> p in f
    ensures forall p :: p in f ==> PairKey(p) in KeysOf(Fill(f, d, max), PairKey)
  {
    var fill := Fill(f, d, max);
    if |d| < max {
      FallbackFacts(f, d, max);
      FallbackTakesAllUnpicked(f, d, max);
      forall p | p in f
        ensures PairKey(p) in KeysOf(fill, PairKey)
      {
        KeysOfMembers(fill, PairKey, PairKey(p));
        KeysOfMembers(d, PairKey, PairKey(p));
        if PairKey(p) !in KeysOf(d, PairKey) {
          assert p in Unpicked(f, d);
          assert p in fill;
        }
      }
    } else {
      DistinctKeysWithin(d, f);
      forall p | p in f
        ensures PairKey(p) in KeysOf(fill, PairKey)
      {
        KeysOfMembers(fill, PairKey, PairKey(p));
        assert p in d;
      }
    }
  }

  /** When the eligible listings have pairwise different (title, category)
      pairs and there are at most `max` of them, the fallback fills every
      slot the diversity pass left and the result holds every eligible
      listing exactly once. */
  lemma {:induction false} TopPicksTakeAllWhenRoom(products: seq<Product>, user: UserActivity, max: int)
    requires DistinctKeys(Filter(products, IsEligible), PairKey)
    requires |Filter(products, IsEligible)| <= max
    ensures forall p :: p in TopPicks(products, user, max) <==> p in products && IsEligible(p)
    ensures |TopPicks(products, user, max)| == |Filter(products, IsEligible)|
  {
    var f := Filter(products, IsEligible);
    var d := DiversePicks(Products(Rank(f, user)), max);
    var fill := Fill(f, d, max);
    var u := KeepFirst(fill, PairKey);
    DiversePicksAreEligible(f, user, max);
    DiversePicksFacts(Products(Rank(f, user)), max);
    DistinctCategoriesDistinctPairs(d);
    FillCoversEligible(f, d, max);
    KeepFirstIsFirst(fill, PairKey);
    KeepFirstKeys(fill, PairKey);
    forall p | p in u
      ensures p in f
    {
      assert p == fill[FirstIndex(fill, PairKey, PairKey(p))];
    }
    DistinctKeysWithin(u, f);
    assert TopPicks(products, user, max) == u;
    forall p | p in f
      ensures p in u
    {
      KeysOfMembers(u, PairKey, PairKey(p));
      var q :| q in u && PairKey(q) == PairKey(p);
      KeyDeterminesElement(f, PairKey, p, q);
    }
    DistinctKeysWithin(f, u);
  }

  /** A negative `max` does not empty the result: the fallback never runs,
      and the final `slice(0, max)` drops only the last `-max` of the
      diversity picks. */
  lemma {:induction false} TopPicksNegativeLimit(products: seq<Product>, user: UserActivity, max: int)
    requires max < 0
    ensures TopPicks(products, user, max) ==
      SliceTo(FirstPerCategory(Products(Rank(Filter(products, IsEligible), user))), max)
    ensures |TopPicks(products, user, max)| ==
      var n := |Categories(Filter(products, IsEligible))|;
      if 0 < n + max then n + max else 0
  {
    var filtered := Filter(products, IsEligible);
    var picks := DiversePicks(Products(Rank(filtered, user)), max);
    RankedListingsAreEligible(filtered, user);
    DiversePicksFacts(Products(Rank(filtered, user)), max);
    DistinctCategoriesDistinctPairs(picks);
    KeepFirstOfDistinct(picks, PairKey);
  }
}
