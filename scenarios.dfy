/** Worked examples of the ranking engine on small catalogs. */
module TopPicksScenarios {
  import opened Sequences
  import opened StableSort
  import opened Recommendations

  const NoDetails := Details(None, None, "", "", "", "", None, None)

  function Listing(title: string, category: string, rating: real, trending: bool): Product
  {
    Product(title, category, true, false, rating, trending, NoDetails)
  }

  const NoActivity := UserActivity([], [], [], map[])

  /** An eligible listing rated 4, not trending, whose title the viewer
      bought, scores 10 + 4 and, alone in the catalog, is the only pick. */
  lemma SinglePurchasedListing(sofa: Product)
    requires IsEligible(sofa) && sofa.category != "" && !sofa.trending && sofa.rating == 4.0
    ensures Score(sofa, NoActivity.(purchaseHistory := [sofa.title])) == 14.0
    ensures TopPicks([sofa], NoActivity.(purchaseHistory := [sofa.title]), DefaultMax) == [sofa]
  {
    SoleListingIsPicked(sofa, NoActivity.(purchaseHistory := [sofa.title]), DefaultMax);
  }

  /** Whatever the activity, a sole eligible listing with a category is the
      whole result for any positive limit. */
  lemma SoleListingIsPicked(listing: Product, user: UserActivity, max: int)
    requires IsEligible(listing) && listing.category != "" && 0 < max
    ensures TopPicks([listing], user, max) == [listing]
  {
    var f := Filter([listing], IsEligible);
    assert f == [listing] by {
      SoleListingRanked(listing, user);
    }
    var picks := DiversePicks(Products(Rank(f, user)), max);
    assert picks == [listing] by {
      SoleListingRanked(listing, user);
      SoleListingPicked(listing, max);
    }
    assert KeepFirst(Fill(f, picks, max), PairKey) == [listing] by {
      SoleListingKept(listing, max);
    }
  }

  /** A sole eligible listing passes the filter and is the whole ranking. */
  lemma SoleListingRanked(listing: Product, user: UserActivity)
    requires IsEligible(listing)
    ensures Filter([listing], IsEligible) == [listing]
    ensures Products(Rank([listing], user)) == [listing]
  {
    var scored := Scored(listing, Score(listing, user));
    assert [] + [listing] == [listing];
    FilterSnoc([], listing, IsEligible);
    assert ScoreAll([listing], user) == [scored];
    assert Sort([scored], ScoreKey) == [scored] by {
      assert [scored][..0] == [];
    }
    assert Products([scored]) == [listing];
  }

  /** A sole listing with a category is the only diversity pick. */
  lemma SoleListingPicked(listing: Product, max: int)
    requires listing.category != ""
    ensures DiversePicks([listing], max) == [listing]
  {
    assert [] + [listing] == [listing];
    assert KeysOf([], CategoryOf) == {};
    KeepFirstSnoc([], listing, CategoryOf);
    FilterSnoc([], listing, HasCategory);
    assert FirstPerCategory([listing]) == [listing];
  }

  /** A sole pick leaves no fallback candidate and survives de-duplication. */
  lemma SoleListingKept(listing: Product, max: int)
    ensures KeepFirst(Fill([listing], [listing], max), PairKey) == [listing]
  {
    assert [] + [listing] == [listing];
    assert KeysOf([], PairKey) == {};
    KeysOfSnoc([], listing, PairKey);
    UnpickedSnoc([], [listing], listing);
    assert Sort([], FallbackKey) == [];
    assert Fill([listing], [listing], max) == [listing];
    KeepFirstSnoc([], listing, PairKey);
  }

  /** Three eligible listings of one category: a trending lamp rated 5, a
      trending chair rated 4 and a desk rated 4.5 that is not trending. */
  predicate OneCategoryCatalog(lamp: Product, chair: Product, desk: Product)
  {
    IsEligible(lamp) && IsEligible(chair) && IsEligible(desk)
    && lamp.category != "" && chair.category == lamp.category && desk.category == lamp.category
    && lamp.title != chair.title && chair.title != desk.title && desk.title != lamp.title
    && lamp.trending && chair.trending && !desk.trending
    && lamp.rating == 5.0 && chair.rating == 4.0 && desk.rating == 4.5
  }

  /** Every listing of the catalog is eligible, so the filter keeps it whole. */
  lemma CatalogIsEligible(lamp: Product, chair: Product, desk: Product)
    requires OneCategoryCatalog(lamp, chair, desk)
    ensures Filter([lamp, chair, chair, desk], IsEligible) == [lamp, chair, chair, desk]
  {
    var s1 := [lamp];
    var s2 := s1 + [chair];
    var s3 := s2 + [chair];
    var s4 := s3 + [desk];
    assert s4 == [lamp, chair, chair, desk];
    assert [] + [lamp] == s1;
    FilterSnoc([], lamp, IsEligible);
    assert Filter(s1, IsEligible) == s1;
    FilterSnoc(s1, chair, IsEligible);
    assert Filter(s2, IsEligible) == s2;
    FilterSnoc(s2, chair, IsEligible);
    assert Filter(s3, IsEligible) == s3;
    FilterSnoc(s3, desk, IsEligible);
  }

  /** With no activity the scores are 7 (lamp), 6 (chair) and 4.5 (desk), so
      the catalog is already in ranked order. */
  lemma CatalogIsRankedAsListed(lamp: Product, chair: Product, desk: Product)
    requires OneCategoryCatalog(lamp, chair, desk)
    ensures Products(Rank([lamp, chair, chair, desk], NoActivity)) == [lamp, chair, chair, desk]
  {
    var sl, sc, sd := Scored(lamp, 7.0), Scored(chair, 6.0), Scored(desk, 4.5);
    var s1 := [sl];
    var s2 := s1 + [sc];
    var s3 := s2 + [sc];
    var s4 := s3 + [sd];
    assert s4 == [sl, sc, sc, sd];
    assert Products(s4) == [lamp, chair, chair, desk];
    assert Score(lamp, NoActivity) == 7.0;
    assert Score(chair, NoActivity) == 6.0;
    assert Score(desk, NoActivity) == 4.5;
    assert ScoreAll([lamp, chair, chair, desk], NoActivity) == s4;
    assert Sort(s1, ScoreKey) == s1 by {
      assert s1[..0] == [];
    }
    assert Sort(s2, ScoreKey) == s2 by {
      assert s2[..1] == s1;
      assert !Outranks(ScoreKey(sc), ScoreKey(sl));
    }
    assert Sort(s3, ScoreKey) == s3 by {
      assert s3[..2] == s2;
      assert !Outranks(ScoreKey(sc), ScoreKey(sc));
    }
    assert Sort(s4, ScoreKey) == s4 by {
      assert s4[..3] == s3;
      assert !Outranks(ScoreKey(sd), ScoreKey(sc));
    }
  }

  /** All listings share one category, so the diversity pass takes only the lamp. */
  lemma CatalogDiversePick(lamp: Product, chair: Product, desk: Product)
    requires OneCategoryCatalog(lamp, chair, desk)
    ensures FirstPerCategory([lamp, chair, chair, desk]) == [lamp]
  {
    var s1 := [lamp];
    var s2 := s1 + [chair];
    var s3 := s2 + [chair];
    var s4 := s3 + [desk];
    assert s4 == [lamp, chair, chair, desk];
    assert [] + [lamp] == s1;
    assert KeysOf([], CategoryOf) == {};
    KeysOfSnoc([], lamp, CategoryOf);
    KeysOfSnoc(s1, chair, CategoryOf);
    KeysOfSnoc(s2, chair, CategoryOf);
    assert KeysOf(s3, CategoryOf) == {lamp.category};
    KeepFirstSnoc([], lamp, CategoryOf);
    KeepFirstSnoc(s1, chair, CategoryOf);
    KeepFirstSnoc(s2, chair, CategoryOf);
    KeepFirstSnoc(s3, desk, CategoryOf);
    assert KeepFirst(s4, CategoryOf) == s1;
    FilterSnoc([], lamp, HasCategory);
  }

  /** Only the lamp is picked, so every other listing is a fallback candidate. */
  lemma CatalogUnpicked(lamp: Product, chair: Product, desk: Product)
    requires PairKey(chair) != PairKey(lamp) && PairKey(desk) != PairKey(lamp)
    ensures Unpicked([lamp, chair, chair, desk], [lamp]) == [chair, chair, desk]
  {
    var s1 := [lamp];
    var s2 := s1 + [chair];
    var s3 := s2 + [chair];
    var s4 := s3 + [desk];
    assert s4 == [lamp, chair, chair, desk];
    assert [chair] + [chair] + [desk] == [chair, chair, desk];
    assert [] + [lamp] == s1;
    assert KeysOf(s1, PairKey) == {PairKey(lamp)} by {
      assert KeysOf([], PairKey) == {};
      KeysOfSnoc([], lamp, PairKey);
    }
    UnpickedSnoc([], s1, lamp);
    assert Unpicked(s1, s1) == [];
    UnpickedSnoc(s1, s1, chair);
    assert Unpicked(s2, s1) == [chair];
    UnpickedSnoc(s2, s1, chair);
    assert Unpicked(s3, s1) == [chair] + [chair];
    UnpickedSnoc(s3, s1, desk);
  }

  /** Trending listings come first, so the two chairs precede the desk. */
  lemma CatalogFallbackOrder(chair: Product, desk: Product)
    requires chair.trending && !desk.trending
    ensures Sort([chair, chair, desk], FallbackKey) == [chair, chair, desk]
  {
    var t1 := [chair];
    var t2 := t1 + [chair];
    var t3 := t2 + [desk];
    assert t3 == [chair, chair, desk];
    assert t3[..2] == t2;
    assert Sort(t1, FallbackKey) == t1 by {
      assert t1[..0] == [];
    }
    assert Sort(t2, FallbackKey) == t2 by {
      assert t2[..1] == t1;
    }
    assert Sort(t3, FallbackKey) == t3 by {
      assert !Outranks(FallbackKey(desk), FallbackKey(chair));
    }
  }

  /** Two slots are free and both go to the trending chair, listed twice. */
  lemma CatalogFallback(lamp: Product, chair: Product, desk: Product)
    requires OneCategoryCatalog(lamp, chair, desk)
    ensures Fallback([lamp, chair, chair, desk], [lamp], 3) == [chair, chair]
  {
    CatalogUnpicked(lamp, chair, desk);
    CatalogFallbackOrder(chair, desk);
    assert [chair, chair, desk][..2] == [chair, chair];
  }

  lemma CatalogDedup(lamp: Product, chair: Product, desk: Product)
    requires OneCategoryCatalog(lamp, chair, desk)
    ensures KeepFirst([lamp, chair, chair], PairKey) == [lamp, chair]
  {
    var s1 := [lamp];
    var s2 := s1 + [chair];
    var s3 := s2 + [chair];
    assert s3 == [lamp, chair, chair];
    assert s2 == [lamp, chair];
    assert [] + [lamp] == s1;
    assert PairKey(chair) != PairKey(lamp);
    assert KeysOf([], PairKey) == {};
    KeysOfSnoc([], lamp, PairKey);
    KeysOfSnoc(s1, chair, PairKey);
    assert KeysOf(s1, PairKey) == {PairKey(lamp)};
    KeepFirstSnoc([], lamp, PairKey);
    KeepFirstSnoc(s1, chair, PairKey);
    assert KeepFirst(s2, PairKey) == s2;
    KeepFirstSnoc(s2, chair, PairKey);
  }

  /** The diversity pass over the ranked catalog picks the lamp alone. */
  lemma CatalogPicks(lamp: Product, chair: Product, desk: Product)
    requires OneCategoryCatalog(lamp, chair, desk)
    ensures DiversePicks(Products(Rank([lamp, chair, chair, desk], NoActivity)), 3) == [lamp]
  {
    CatalogIsRankedAsListed(lamp, chair, desk);
    CatalogDiversePick(lamp, chair, desk);
  }

  /** Before de-duplication the picks are the lamp and the chair twice. */
  lemma CatalogPicksBeforeDedup(lamp: Product, chair: Product, desk: Product)
    requires OneCategoryCatalog(lamp, chair, desk)
    ensures var f := Filter([lamp, chair, chair, desk], IsEligible);
      Fill(f, DiversePicks(Products(Rank(f, NoActivity)), 3), 3) == [lamp, chair, chair]
  {
    assert [lamp] + [chair, chair] == [lamp, chair, chair];
    var catalog := [lamp, chair, chair, desk];
    var f := Filter(catalog, IsEligible);
    assert f == catalog by {
      CatalogIsEligible(lamp, chair, desk);
    }
    var picks := DiversePicks(Products(Rank(f, NoActivity)), 3);
    assert picks == [lamp] by {
      CatalogPicks(lamp, chair, desk);
    }
    assert Fallback(f, picks, 3) == [chair, chair] by {
      CatalogFallback(lamp, chair, desk);
    }
    assert Fill(f, picks, 3) == picks + Fallback(f, picks, 3);
  }

  /** The fallback candidates are not de-duplicated among themselves: a
      chair listed twice takes both free slots, the final de-duplication
      drops one copy, and the result holds two listings for a limit of three
      although a third eligible (title, category) pair, the desk's, exists. */
  lemma DuplicateFallbackLeavesSlotEmpty(lamp: Product, chair: Product, desk: Product)
    requires OneCategoryCatalog(lamp, chair, desk)
    ensures TopPicks([lamp, chair, chair, desk], NoActivity, 3) == [lamp, chair]
    ensures IsEligible(desk) && PairKey(desk) !in KeysOf([lamp, chair], PairKey)
  {
    assert [] + [lamp] == [lamp];
    assert [lamp] + [chair] == [lamp, chair];
    assert KeysOf([], PairKey) == {};
    KeysOfSnoc([], lamp, PairKey);
    KeysOfSnoc([lamp], chair, PairKey);
    CatalogPicksBeforeDedup(lamp, chair, desk);
    CatalogDedup(lamp, chair, desk);
  }
}
