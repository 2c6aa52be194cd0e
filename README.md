# Top Picks ranking engine, in Dafny

This project models `getTopPicks`, the "Top Picks" ranking engine of a
marketplace web application (`src/lib/recommendations.ts`). Given a catalog of
listings, one viewer's activity (titles bought, titles wished for, categories
browsed, a weight per category) and a limit `max` (default 6), the engine
returns a bounded list of listings without repeated (title, category) pairs
that favours category diversity. It works in five steps:

1. **Eligibility.** It keeps the listings that are in stock, not discontinued
   and rated at least 3.5.
2. **Scoring.** Each listing gets:
   - +10 if its title was bought
   - +8 if its title is wished for
   - +5 if its category was browsed
   - twice the category's weight (a missing weight counts as 0)
   - its rating
   - +2 if it is trending
3. **Ranking.** A stable sort orders the listings by score, then by rating,
   both descending.
4. **Diversity pass.** A greedy loop takes the first ranked listing of each
   non-empty category. It stops when it holds `max` picks.
5. **Fallback, de-duplication and truncation.** If the picks number fewer
   than `max`, the engine appends fallback candidates:
   - The candidates are the eligible listings that match no pick on
     (title, category).
   - They are ordered trending first, then by rating.
   - They are cut to the free slots.
   
   Then it drops repeated (title, category) pairs, keeping the first
   occurrence, and cuts the result to `max`.

Files:

- `sequences.dfy`, module `Sequences`: generic building blocks.
  - `Filter` models `Array.prototype.filter`.
  - `KeepFirst` and `FirstIndex` model the "first occurrence per key" filter
    that the engine writes with `findIndex`.
  - `SliceTo` models `slice(0, end)`, including JavaScript's handling of a
    negative `end`.
- `stable_sort.dfy`, module `StableSort`:
  - the two-level descending comparator, `Compare` and `Outranks`;
  - a stable insertion sort `Sort`, used as the specification;
  - `SortInPlace`, the in-place array sort proved equal to `Sort`.
- `recommendations.dfy`, module `Recommendations`:
  - the `Product` and `UserActivity` records and the scoring;
  - the diversity loop `DiversityPass`, a method over the sorted array that
    keeps a set of used categories;
  - the fallback;
  - the specification function `TopPicks`;
  - the method `GetTopPicks`, which follows the engine step by step and is
    proved equal to `TopPicks`.
- `top_picks_facts.dfy`, module `TopPicksFacts`: what the engine guarantees,
  proved about `TopPicks` and about each step.
- `scenarios.dfy`, module `TopPicksScenarios`: worked examples on small
  catalogs.

Two behaviours of the code are easy to miss; the model keeps both:

- **Negative limit.** A caller might expect a limit `<= 0` to give an empty
  result. With a negative `max` the code does not:
  - the diversity loop never reaches `picks.length === max`, so it collects
    one listing per non-empty category;
  - the fallback does not run;
  - `slice(0, max)` drops only the last `-max` of the picks.

  `TopPicksNegativeLimit` states this. For `max == 0` the result is empty
  (`TopPicksBounded`).
- **Fallback duplicates.** The fallback step is commented as filling the
  remaining slots "with unique products (no duplicates)"
  (`src/lib/recommendations.ts:63`). The code only excludes listings that
  match a pick; it does not de-duplicate the fallback candidates among
  themselves before cutting them to the free slots (`:65-68`). A listing that
  appears twice in the catalog can therefore take two slots. The final
  de-duplication (`:72-75`) then removes one copy, so the result can be
  shorter than `max` while other eligible pairs remain.
  - `TopPicksScenarios.DuplicateFallbackLeavesSlotEmpty` shows this on a
    four-listing catalog.
  - `Sequences.FilterMultiplicity` states that both filters keep every copy.
  - `TopPicksFacts.TopPicksTakeAllWhenRoom` shows that without repeated
    pairs, and with room, every eligible listing is returned.

## Model

| member | source | states |
|---|---|---|
| Sequences.Filter | src/lib/recommendations.ts:33-35 | filtering keeps exactly the elements that satisfy the predicate and never lengthens the sequence |
| Recommendations.IsEligible | src/lib/recommendations.ts:33-35 | the eligibility test: in stock, not discontinued, rated at least 3.5; `TopPicksAreEligible` proves every result passes it |
| Sequences.FilterMultiplicity | src/lib/recommendations.ts:33-35 | filtering keeps every copy of a kept element and none of a dropped one: each element occurs as often as in the input if it passes, otherwise not at all |
| Recommendations.Score | src/lib/recommendations.ts:38-47 | the score, bonus by bonus in the order the code adds them; its closed form and the independence of the bonuses are `ScoreIsSumOfBonuses` |
| Recommendations.Affinity | src/lib/recommendations.ts:43 | `user.categoryAffinity[category] \|\| 0`: the viewer's weight for a category, 0 when missing; `ScoreIsSumOfBonuses` uses it for the affinity term |
| Recommendations.ScoreAll | src/lib/recommendations.ts:38-47 | each eligible listing paired with its score, in order; `RankIsStableOrdering` shows that dropping the scores gives back the eligible listings |
| Recommendations.ScoreKey | src/lib/recommendations.ts:50 | the ranking's sort key, score then rating; `RankIsStableOrdering` proves the ranking ordered by it |
| Recommendations.Rank | src/lib/recommendations.ts:38-50 | the scored eligible listings after `scored.sort(...)`; `RankIsStableOrdering` and `RankedListingsAreEligible` give its promises |
| StableSort.Compare | src/lib/recommendations.ts:50 | the comparator `b._score - a._score` or else `b.rating - a.rating`; `CompareIsLexicographic` characterises it |
| StableSort.Outranks | src/lib/recommendations.ts:50 | `a` sorts strictly before `b` when the comparator is negative |
| StableSort.Sort | src/lib/recommendations.ts:50 | the stable sort, which keeps the length; `SortIsOrderedPermutation`, `SortIsStable` and `SortPrefixIsBest` give its promises |
| StableSort.SortPrefixIsBest | src/lib/recommendations.ts:67-68 | the first `n` sorted elements are drawn from the input, and no element left out outranks one taken |
| StableSort.SortedPrefixIsBest | src/lib/recommendations.ts:67-68 | in any sequence sorted by the comparator, the first `n` elements form a sub-multiset and nothing after them outranks anything among them |
| Sequences.FilterKeepsOrder | src/lib/recommendations.ts:65-66 | filtering keeps the relative order of the elements it keeps |
| Sequences.FirstIndex | src/lib/recommendations.ts:74 | `findIndex` on a present key returns a position holding that key with no earlier position holding it |
| StableSort.InsertPosition | src/lib/recommendations.ts:50 | inserting an element puts it right after the last element it does not outrank, ahead of the run of elements it outranks |
| Sequences.KeepFirstIsFirst | src/lib/recommendations.ts:73-75 | every kept element is the first occurrence of its key; kept elements follow the order of those first occurrences; no two kept elements share a key |
| Sequences.KeepFirstKeys | src/lib/recommendations.ts:73-75 | de-duplication loses no key |
| Sequences.KeepFirstOfDistinct | src/lib/recommendations.ts:73-75 | a sequence without repeated keys passes de-duplication unchanged |
| Sequences.KeepFirstPrefix | src/lib/recommendations.ts:73-75 | de-duplicating a prefix gives a prefix of the de-duplicated whole |
| Sequences.SliceTo | src/lib/recommendations.ts:76 | `slice(0, end)` returns a prefix: its first `end` elements for `end >= 0`, and all but the last `-end` for `end < 0` |
| StableSort.CompareIsLexicographic | src/lib/recommendations.ts:50 | the comparator (primary difference, or the secondary difference when that is 0) orders keys lexicographically, larger first; it is antisymmetric and gives 0 only for equal keys |
| StableSort.SortIsOrderedPermutation | src/lib/recommendations.ts:50 | the sort returns a permutation of its input (same multiset) in which no element is outranked by an earlier one |
| StableSort.SortIsStable | src/lib/recommendations.ts:50 | elements with equal keys keep their input order |
| StableSort.InsertInPlace | src/lib/recommendations.ts:50 | one pass of the in-place sort: the prefix up to `i` becomes the insertion of `a[i]` into the sorted prefix, and the rest of the array is unchanged |
| StableSort.SortInPlace | src/lib/recommendations.ts:50 | `scored.sort(...)` in place: the array afterwards holds the stable sort of its former contents |
| Recommendations.FirstPerCategorySnoc | src/lib/recommendations.ts:55-58 | each ranked listing is taken exactly when its category is non-empty and not yet in the used-category set, and the set grows by that category |
| Recommendations.DiversityStep | src/lib/recommendations.ts:55-58 | one iteration: the listing at position `i` is pushed exactly when its category is non-empty and not in the used set, which then grows by that category |
| Recommendations.DiversePicksStopAtMax | src/lib/recommendations.ts:59 | once the picks reach `max` the loop's result is final: the rest of the ranking adds nothing |
| Recommendations.DiversityPass | src/lib/recommendations.ts:53-61 | the loop over the sorted array with its used-category set and early `break` returns the first listing of each non-empty category in ranked order, cut at `max` only when `max > 0` |
| Recommendations.HasCategory | src/lib/recommendations.ts:56 | the truthiness test `p.category &&`: only the empty category fails it; `FilterCategoryKeys` proves it removes exactly that category |
| Recommendations.FirstPerCategory | src/lib/recommendations.ts:53-61 | the first listing of each non-empty category in ranked order; promises in `FirstPerCategoryPicksFirst`, `FirstPerCategoryInRankOrder` and `FirstPerCategoryCoversCategories` |
| Recommendations.Cap | src/lib/recommendations.ts:59 | the loop's stop at `max` picks: a prefix, no longer than `max` when `max > 0`, shortened only to exactly `max`, and never shortened when `max <= 0`, where `picks.length === max` cannot fire after the first push |
| Recommendations.DiversePicks | src/lib/recommendations.ts:53-61 | what the diversity loop returns; promises in `DiversePicksFacts` and `DiversityPreference` |
| Recommendations.PairKey | src/lib/recommendations.ts:66 | the (title, category) pair that both `picks.some(...)` at :66 and `findIndex(...)` at :74 compare; `Unpicked`, `TopPicksHaveNoDuplicates` and `KeepFirstIsFirst` state what is decided by it |
| Recommendations.Unpicked | src/lib/recommendations.ts:65-66 | the fallback candidates: exactly the eligible listings whose (title, category) pair no pick has |
| Recommendations.FallbackKey | src/lib/recommendations.ts:67 | the fallback sort key, trending as 1 or 0, then rating |
| Recommendations.Fallback | src/lib/recommendations.ts:65-68 | the sorted candidates cut to the free slots, never more than `max - picks.length`; promises in `FallbackFacts` |
| Recommendations.Fill | src/lib/recommendations.ts:64-70 | `picks.push(...fallback)` only when picks are short: the picks stay a prefix, are unchanged when they already number `max`, and the total does not exceed `max` |
| Sequences.KeepFirst | src/lib/recommendations.ts:73-75 | the `findIndex` de-duplication; promises in `KeepFirstIsFirst`, `KeepFirstKeys` and `KeepFirstOfDistinct` |
| Recommendations.TopPicks | src/lib/recommendations.ts:27-77 | the whole engine as a function; promises in the `TopPicksFacts` lemmas |
| Recommendations.UnpickedSnoc | src/lib/recommendations.ts:65-66 | a listing becomes a fallback candidate exactly when no pick has its (title, category) pair |
| Recommendations.GetTopPicks | src/lib/recommendations.ts:27-77 | filter, score, in-place sort, diversity loop, fallback push, de-duplication and slice together return `TopPicks` |
| TopPicksFacts.ScoreIsSumOfBonuses | src/lib/recommendations.ts:38-47 | the score is 10·[bought] + 8·[wished] + 5·[browsed] + 2·weight (0 if missing) + rating + 2·[trending]; each bonus is independent: adding one condition adds exactly its bonus |
| TopPicksFacts.RankIsStableOrdering | src/lib/recommendations.ts:38-50 | the ranking is a permutation of the scored eligible listings, each carrying its own score, ordered by score and then rating descending, and it keeps catalog order among full ties |
| TopPicksFacts.RankedListingsAreEligible | src/lib/recommendations.ts:38-50 | the ranked listings are exactly the eligible ones, with the same non-empty categories |
| TopPicksFacts.FilterCategoryKeys | src/lib/recommendations.ts:56 | the `p.category &&` guard removes exactly the empty category |
| TopPicksFacts.FirstPerCategoryPicksFirst | src/lib/recommendations.ts:55-58 | every pick has a non-empty category and is the first ranked listing of it |
| TopPicksFacts.FirstPerCategoryInRankOrder | src/lib/recommendations.ts:53-61 | picks appear in ranked order of their categories' first listings, so no two share a category |
| TopPicksFacts.FirstPerCategoryCoversCategories | src/lib/recommendations.ts:53-61 | without a limit the pass picks every non-empty category exactly once |
| TopPicksFacts.DiversePicksFacts | src/lib/recommendations.ts:53-61 | the picks number `min(max, categories)` for `max > 0` and all categories otherwise; when fewer than `max`, every non-empty category is covered; picks are distinct by category and each is the first of its category |
| TopPicksFacts.DiversePicksAreEligible | src/lib/recommendations.ts:33-61 | the diversity pass draws only eligible listings |
| TopPicksFacts.DiversityPreference | src/lib/recommendations.ts:53-61 | the diversity picks have pairwise different categories and number `min(max, distinct eligible non-empty categories)` when `max > 0` |
| TopPicksFacts.FallbackFacts | src/lib/recommendations.ts:63-70 | the fallback adds at most `max - picks.length` listings; each is eligible and matches no pick on (title, category), and occurs no more often than among the candidates; trending ones come first, then higher rating; no candidate left out outranks one taken; it holds exactly `min(candidates, free slots)` listings, so when it leaves a slot free it took every copy of every candidate, repeated ones included |
| TopPicksFacts.FallbackTakesAllUnpicked | src/lib/recommendations.ts:63-70 | with no repeated pairs and room for all eligible listings, the fallback takes every unpicked listing |
| TopPicksFacts.FillCoversEligible | src/lib/recommendations.ts:63-70 | under the same conditions the picks after `push(...fallback)` are eligible and cover every eligible pair |
| TopPicksFacts.DistinctKeysWithin | src/lib/recommendations.ts:73-75 | listings with pairwise different pairs drawn from such a list are no more than it holds, and as many only when they are all of it |
| TopPicksFacts.TopPicksAreEligible | src/lib/recommendations.ts:27-77 | every returned listing comes from the catalog and is in stock, not discontinued, and rated at least 3.5 |
| TopPicksFacts.TopPicksBounded | src/lib/recommendations.ts:64-76 | for `max >= 0` the result has at most `max` listings; for `max == 0` it is empty although the diversity loop overshoots |
| TopPicksFacts.TopPicksHaveNoDuplicates | src/lib/recommendations.ts:73-76 | no two returned listings share a (title, category) pair |
| TopPicksFacts.TopPicksEmptyWithoutEligible | src/lib/recommendations.ts:33-76 | an empty catalog, or one with no eligible listing, yields an empty result for every `max` |
| TopPicksFacts.DistinctCategoriesDistinctPairs | src/lib/recommendations.ts:56-75 | picks with pairwise different categories never repeat a (title, category) pair, so de-duplication keeps every diversity pick |
| TopPicksFacts.TopPicksStartWithDiversePicks | src/lib/recommendations.ts:63-76 | for `max > 0` the result begins with the diversity picks in ranked order |
| TopPicksFacts.TopPicksTakeAllWhenRoom | src/lib/recommendations.ts:63-76 | when eligible pairs do not repeat and number at most `max`, the result holds every eligible listing exactly once |
| TopPicksFacts.TopPicksNegativeLimit | src/lib/recommendations.ts:59-76 | for `max < 0` the fallback is skipped and the result is the per-category picks minus their last `-max`, so it has `max(0, categories + max)` listings |
| TopPicksScenarios.SinglePurchasedListing | src/lib/recommendations.ts:27-77 | an eligible listing rated 4 whose title the viewer bought scores 10 + 4 = 14 and, alone in the catalog, is the whole result under the default limit |
| TopPicksScenarios.SoleListingIsPicked | src/lib/recommendations.ts:27-77 | for any activity and any positive limit, a catalog holding one eligible listing with a category returns exactly that listing; a listing with an empty category enters only through the fallback (`:64-69`), which `TopPicksTakeAllWhenRoom` covers |
| TopPicksScenarios.CatalogIsEligible | src/lib/recommendations.ts:33-35 | the example catalog is eligible throughout |
| TopPicksScenarios.CatalogIsRankedAsListed | src/lib/recommendations.ts:38-50 | with no activity the lamp (7), chairs (6) and desk (4.5) rank in catalog order |
| TopPicksScenarios.CatalogDiversePick | src/lib/recommendations.ts:53-61 | one shared category gives one pick, the lamp |
| TopPicksScenarios.CatalogPicks | src/lib/recommendations.ts:38-61 | ranking the example catalog and running the diversity pass with limit 3 picks the lamp alone |
| TopPicksScenarios.CatalogUnpicked | src/lib/recommendations.ts:65-66 | the fallback candidates are both chairs and the desk |
| TopPicksScenarios.CatalogFallbackOrder | src/lib/recommendations.ts:67 | trending chairs sort before the non-trending desk |
| TopPicksScenarios.CatalogFallback | src/lib/recommendations.ts:64-70 | the two free slots both go to the chair listed twice |
| TopPicksScenarios.CatalogPicksBeforeDedup | src/lib/recommendations.ts:63-70 | after the fallback push the picks are the lamp and the chair twice |
| TopPicksScenarios.CatalogDedup | src/lib/recommendations.ts:73-75 | de-duplication drops the second chair |
| TopPicksScenarios.DuplicateFallbackLeavesSlotEmpty | src/lib/recommendations.ts:63-76 | for limit 3 the result is [lamp, chair], although the desk is eligible and its pair is not in the result |

## Left out

- Numbers are exact reals. IEEE-754 rounding and NaN are not modelled, so a
  NaN rating or weight cannot reach the comparators. For a present weight
  `w`, `(w || 0)` is `w` on reals: it differs only when `w` is NaN.
- The `categoryAffinity` record is a `map`. JavaScript object lookup would
  also find inherited keys such as `"constructor"`; this is not modelled.
- The transient `_score` field that the engine copies onto each listing is
  kept beside the listing (`Scored`), not in it. The result is plain listings.
- `max` is an `int`. A JavaScript `number` limit that is not an integer
  (say 2.5) is not modelled: with it the check `picks.length === max` never
  fires and `slice` truncates the limit. The only caller passes 6
  (`src/app/page.tsx:149`).
- The default `max = 6` is the constant `DefaultMax`. `GetTopPicks` always
  receives `max` explicitly.
- Optional fields are modelled as follows:
  - `discontinued` and `trending` are plain booleans, an absent flag being
    `false`;
  - the fields the engine never reads are an opaque `Details` value.
- Identity of objects is not modelled. Listings are values, so "the same
  listing" means equal fields.
- `Recommendations.GetTopPicks`: the fallback candidate list and the final
  de-duplication are computed by the specification functions. In the code
  they are a filter, sort and slice chain (`src/lib/recommendations.ts:65-68`)
  and a filter with `findIndex` (`:73-75`), not loops.
- The rest of the application is not part of this model:
  - page rendering, authentication and fetching listings (`src/app/page.tsx`);
  - listing creation and its form parsing;
  - messaging, which is a database insert;
  - the dialogs and presentational components;
  - configuration.

  These are user interface, network or database I/O, not ranking logic.
- The caller's category filter and search filter (`src/app/page.tsx:150-155`)
  run on the result after `getTopPicks` returns, so they are outside the
  engine. The search filter also relies on Unicode case mapping
  (`toLowerCase`), which is not modelled.
