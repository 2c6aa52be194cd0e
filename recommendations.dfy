/** The "Top Picks" ranking engine, `getTopPicks`: from a catalog of listings
    and one viewer's activity it builds a bounded, de-duplicated ranking that
    favours category diversity, in five steps: eligibility filter, additive
    scoring, a stable sort by score then rating, a greedy one-per-category
    pass, and a fallback fill followed by de-duplication and truncation. */
module Recommendations {
  import opened Sequences
  import opened StableSort

  datatype Option<T> = None | Some(value: T)

  /** Descriptive fields of a listing that ranking never reads; they are
      passed through unchanged. */
  datatype Details = Details(
    id: Option<string>,
    sellerId: Option<string>,
    price: string,
    image: string,
    location: string,
    time: string,
    description: Option<string>,
    email: Option<string>)

  /** A listing. The optional flags `discontinued` and `trending` read as
      `false` when absent. */
  datatype Product = Product(
    title: string,
    category: string,
    inStock: bool,
    discontinued: bool,
    rating: real,
    trending: bool,
    details: Details)

  /** What the viewer has done: titles bought, categories browsed, titles
      wished for, and a weight per category. */
  datatype UserActivity = UserActivity(
    purchaseHistory: seq<string>,
    browsingCategories: seq<string>,
    wishlist: seq<string>,
    categoryAffinity: map<string, real>)

  /** The limit used when the caller gives none. */
  const DefaultMax: int := 6

  const MinRating: real := 3.5
  const PurchaseBonus: real := 10.0
  const WishlistBonus: real := 8.0
  const BrowsingBonus: real := 5.0
  const AffinityWeight: real := 2.0
  const TrendingBonus: real := 2.0

  // ---------------------------------------------------------------------
  // Step 1: eligibility

  /** In stock, not discontinued, and rated at least 3.5. */
  predicate IsEligible(p: Product)
  {
    p.inStock && !p.discontinued && p.rating >= MinRating
  }

  // ---------------------------------------------------------------------
  // Step 2: scoring

  /** `user.categoryAffinity[category] || 0`: a missing category weighs 0. */
  function Affinity(user: UserActivity, category: string): real
  {
    if category in user.categoryAffinity then user.categoryAffinity[category] else 0.0
  }

  /** The score, accumulated bonus by bonus in the order the engine adds them. */
  function Score(p: Product, user: UserActivity): real
  {
    var s0 := 0.0;
    var s1 := if p.title in user.purchaseHistory then s0 + PurchaseBonus else s0;
    var s2 := if p.title in user.wishlist then s1 + WishlistBonus else s1;
    var s3 := if p.category in user.browsingCategories then s2 + BrowsingBonus else s2;
    var s4 := s3 + Affinity(user, p.category) * AffinityWeight;
    var s5 := s4 + p.rating;
    if p.trending then s5 + TrendingBonus else s5
  }

  /** A listing paired with its transient score. */
  datatype Scored = Scored(product: Product, score: real)

  /** `filtered.map(p => ({ ...p, _score: score }))`. */
  function ScoreAll(filtered: seq<Product>, user: UserActivity): seq<Scored>
  {
    seq(|filtered|, i requires 0 <= i < |filtered| => Scored(filtered[i], Score(filtered[i], user)))
  }

  /** The listings of a scored sequence, scores dropped. */
  function Products(s: seq<Scored>): seq<Product>
  {
    seq(|s|, i requires 0 <= i < |s| => s[i].product)
  }

  // ---------------------------------------------------------------------
  // Step 3: ranking

  /** Sort key of the ranking: score first, then rating, both descending. */
  function ScoreKey(x: Scored): Key
  {
    Key(x.score, x.product.rating)
  }

  /** The scored eligible listings after `scored.sort(...)`. */
  function Rank(filtered: seq<Product>, user: UserActivity): seq<Scored>
  {
    Sort(ScoreAll(filtered, user), ScoreKey)
  }

  // ---------------------------------------------------------------------
  // Step 4: one listing per category

  /** An empty category is falsy and never enters the diversity pass. */
  predicate HasCategory(p: Product)
  {
    p.category != ""
  }

  function CategoryOf(p: Product): string
  {
    p.category
  }

  /** The first listing of each non-empty category, in ranked order. */
  function FirstPerCategory(ranked: seq<Product>): seq<Product>
  {
    Filter(KeepFirst(ranked, CategoryOf), HasCategory)
  }

  /** Appending a listing to the ranked prefix adds it to the picks exactly
      when its category is non-empty and not yet used. */
  lemma FirstPerCategorySnoc(ranked: seq<Product>, p: Product)
    ensures FirstPerCategory(ranked + [p]) ==
      FirstPerCategory(ranked) + (if p.category != "" && p.category !in KeysOf(ranked, CategoryOf) then [p] else [])
    ensures KeysOf(ranked + [p], CategoryOf) - {""} == (KeysOf(ranked, CategoryOf) - {""}) + (if p.category != "" then {p.category} else {})
  {
    KeepFirstSnoc(ranked, p, CategoryOf);
    KeysOfSnoc(ranked, p, CategoryOf);
    if p.category !in KeysOf(ranked, CategoryOf) {
      FilterSnoc(KeepFirst(ranked, CategoryOf), p, HasCategory);
    }
  }


  /** The diversity pass stops once it holds `max` picks; for `max <= 0`
      that never happens, and it collects every category. */
  function Cap<T>(s: seq<T>, max: int): (r: seq<T>)
    ensures r <= s
    ensures 0 < max ==> |r| <= max
    ensures |r| < |s| ==> |r| == max
    ensures max <= 0 ==> r == s
  {
    if 0 < max < |s| then s[..max] else s
  }

  /** What the diversity pass picks from the ranked listings. */
  function DiversePicks(ranked: seq<Product>, max: int): seq<Product>
  {
    Cap(FirstPerCategory(ranked), max)
  }

  /** Once the picks from a ranked prefix reach `max`, they are the picks from
      the whole ranking. */
  lemma DiversePicksStopAtMax(a: seq<Product>, b: seq<Product>, max: int)
    requires a <= b && 0 < max == |FirstPerCategory(a)|
    ensures DiversePicks(b, max) == FirstPerCategory(a)
  {
    KeepFirstPrefix(a, b, CategoryOf);
    FilterPrefix(KeepFirst(a, CategoryOf), KeepFirst(b, CategoryOf), HasCategory);
  }

  /** One iteration of the diversity loop, stated on the ranked prefix it
      has walked: `all[i]` is taken exactly when its category is non-empty and
      unused, and the used categories grow by its category. */
  lemma DiversityStep(all: seq<Product>, i: nat, used: set<string>)
    requires i < |all| && used == KeysOf(all[..i], CategoryOf) - {""}
    ensures FirstPerCategory(all[..i + 1]) ==
      FirstPerCategory(all[..i]) + (if all[i].category != "" && all[i].category !in used then [all[i]] else [])
    ensures KeysOf(all[..i + 1], CategoryOf) - {""} ==
      used + (if all[i].category != "" && all[i].category !in used then {all[i].category} else {})
  {
    assert all[..i + 1] == all[..i] + [all[i]];
    FirstPerCategorySnoc(all[..i], all[i]);
  }

  /** The diversity loop: walks the ranked listings, takes each whose
      non-empty category is not yet used, and stops at `max` picks. */
  method DiversityPass(ranked: array<Scored>, max: int) returns (picks: seq<Product>)
    ensures picks == DiversePicks(Products(ranked[..]), max)
  {
    ghost var all := Products(ranked[..]);
    picks := [];
    var used: set<string> := {};
    var i := 0;
    while i < ranked.Length
      invariant 0 <= i <= ranked.Length
      invariant picks == FirstPerCategory(all[..i])
      invariant used == KeysOf(all[..i], CategoryOf) - {""}
      invariant 0 < max ==> |picks| < max
    {
      var p := ranked[i].product;
      assert p == all[i];
      DiversityStep(all, i, used);
      if p.category != "" && p.category !in used {
        picks := picks + [p];
        used := used + {p.category};
        if |picks| == max {
          DiversePicksStopAtMax(all[..i + 1], all, max);
          break;
        }
      }
      i := i + 1;
    }
    if i == ranked.Length {
      assert all[..i] == all;
    }
  }

  // ---------------------------------------------------------------------
  // Step 5: fallback fill, de-duplication, truncation

  /** Listings are matched on (title, category). */
  function PairKey(p: Product): (string, string)
  {
    (p.title, p.category)
  }

  /** The eligible listings that match no pick on (title, category). */
  function Unpicked(filtered: seq<Product>, picks: seq<Product>): (r: seq<Product>)
    ensures forall p :: p in r <==> p in filtered && PairKey(p) !in KeysOf(picks, PairKey)
  {
    Filter(filtered, p => PairKey(p) !in KeysOf(picks, PairKey))
  }

  /** Appending a listing to the eligible ones makes it a fallback candidate
      exactly when no pick has its (title, category) pair. */
  lemma UnpickedSnoc(filtered: seq<Product>, picks: seq<Product>, p: Product)
    ensures Unpicked(filtered + [p], picks) ==
      Unpicked(filtered, picks) + (if PairKey(p) !in KeysOf(picks, PairKey) then [p] else [])
  {
    FilterSnoc(filtered, p, q => PairKey(q) !in KeysOf(picks, PairKey));
  }

  /** Sort key of the fallback: trending first, then rating, descending. */
  function FallbackKey(p: Product): Key
  {
    Key(if p.trending then 1.0 else 0.0, p.rating)
  }

  /** The fallback candidates: unpicked eligible listings, trending first and
      then by rating, cut to the free slots. */
  function Fallback(filtered: seq<Product>, picks: seq<Product>, max: int): (r: seq<Product>)
    requires |picks| < max
    ensures |r| <= max - |picks|
  {
    SliceTo(Sort(Unpicked(filtered, picks), FallbackKey), max - |picks|)
  }

  /** The picks after `picks.push(...fallback)`, which runs only when there
      are fewer than `max` picks. */
  function Fill(filtered: seq<Product>, picks: seq<Product>, max: int): (r: seq<Product>)
    ensures picks <= r
    ensures max <= |picks| ==> r == picks
    ensures 0 <= max ==> |r| <= if |picks| < max then max else |picks|
  {
    if |picks| < max then picks + Fallback(filtered, picks, max) else picks
  }

  // ---------------------------------------------------------------------
  // The whole engine

  /** The result of `getTopPicks(products, user, max)`. */
  function TopPicks(products: seq<Product>, user: UserActivity, max: int): seq<Product>
  {
    var filtered := Filter(products, IsEligible);
    var picks := DiversePicks(Products(Rank(filtered, user)), max);
    SliceTo(KeepFirst(Fill(filtered, picks, max), PairKey), max)
  }

  /** `getTopPicks`: filters, scores, sorts in place, runs the diversity loop,
      appends the fallback, removes repeated (title, category) pairs and
      truncates to `max`. */
  method GetTopPicks(products: seq<Product>, user: UserActivity, max: int) returns (result: seq<Product>)
    ensures result == TopPicks(products, user, max)
  {
    var filtered := Filter(products, IsEligible);
    var scored := ScoreAll(filtered, user);
    var ranked := new Scored[|scored|](i requires 0 <= i < |scored| => scored[i]);
    assert ranked[..] == scored;
    SortInPlace(ranked, ScoreKey);
    var picks := DiversityPass(ranked, max);
    if |picks| < max {
      picks := picks + Fallback(filtered, picks, max);
    }
    var unique := KeepFirst(picks, PairKey);
    result := SliceTo(unique, max);
  }
}
