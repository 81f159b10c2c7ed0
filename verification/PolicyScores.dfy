/** What the scores of the greedy selection measure. */
module PolicyScores {
  import opened Policy
  import opened Prelude

  /** The pooled actions that target a region. */
  function Targeting(pool: seq<Item>, region: string): set<nat> { set i: nat | i < |pool| && region in pool[i].regions }

  lemma TargetingGrows(pool: seq<Item>, region: string)
    requires pool != []
    ensures var n := |pool| - 1;
            && Targeting(pool, region) == Targeting(pool[..n], region) + (if region in pool[n].regions then {n} else {})
            && n !in Targeting(pool[..n], region)
  {
  }

  /** Support is the number of pooled actions that target the region. */
  lemma {:induction false} SupportCounts(pool: seq<Item>, region: string)
    ensures Support(pool, region) == |Targeting(pool, region)|
  {
    if pool == [] {
      assert Targeting(pool, region) == {};
    } else {
      TargetingGrows(pool, region);
      hide Targeting;
      SupportCounts(pool[..|pool| - 1], region);
    }
  }

  lemma {:induction false} NonBlankAdds(a: seq<string>, b: seq<string>)
    ensures NonBlank(a + b) == NonBlank(a) + NonBlank(b)
  {
    hide IsBlank;
    if a == [] {
      assert a + b == b;
    } else {
      assert (a + b)[1..] == a[1..] + b && (a + b)[0] == a[0];
      NonBlankAdds(a[1..], b);
      var first := if IsBlank(a[0]) then [] else [a[0]];
      assert first + (NonBlank(a[1..]) + NonBlank(b)) == first + NonBlank(a[1..]) + NonBlank(b);
    }
  }

  /** The regions with something other than blanks in them. */
  lemma {:induction false} NonBlankHolds(regions: seq<string>, r: string)
    ensures r in NonBlank(regions) <==> r in regions && exists i :: 0 <= i < |r| && !IsSpace(r[i])
  {
    hide IsSpace;
    if regions != [] {
      NonBlankHolds(regions[1..], r);
      assert regions == [regions[0]] + regions[1..];
    }
  }

  lemma {:induction false} SumRarityAdds(pool: seq<Item>, a: seq<string>, b: seq<string>)
    ensures SumRarity(pool, a + b) == SumRarity(pool, a) + SumRarity(pool, b)
  {
    if a == [] {
      assert a + b == b;
    } else {
      assert (a + b)[1..] == a[1..] + b && (a + b)[0] == a[0];
      SumRarityAdds(pool, a[1..], b);
    }
  }

  lemma QuotientTimes(a: real, n: nat)
    requires n > 0
    ensures (a / n as real) * n as real == a
  {
  }

  lemma RarityTotal(pool: seq<Item>, regions: seq<string>)
    ensures Rarity(pool, regions) * |NonBlank(regions)| as real == SumRarity(pool, NonBlank(regions))
  {
    hide NonBlank, Support;
    if NonBlank(regions) != [] { QuotientTimes(SumRarity(pool, NonBlank(regions)), |NonBlank(regions)|); }
  }

  /** Rarity averages over regions, and one region shared by `n` pooled actions has rarity one `n`-th. */
  lemma RarityIsAverage(pool: seq<Item>, a: seq<string>, b: seq<string>, r: string)
    ensures Rarity(pool, a + b) * |NonBlank(a + b)| as real
            == Rarity(pool, a) * |NonBlank(a)| as real + Rarity(pool, b) * |NonBlank(b)| as real
    ensures |NonBlank(a + b)| == |NonBlank(a)| + |NonBlank(b)|
    ensures NonBlank([r]) == [r] ==> Rarity(pool, [r]) * (if Support(pool, r) < 1 then 1 else Support(pool, r)) as real == 1.0
  {
    hide Rarity, NonBlank, SumRarity, Support;
    NonBlankAdds(a, b);
    RarityTotal(pool, a);
    RarityTotal(pool, b);
    RarityTotal(pool, a + b);
    SumRarityAdds(pool, NonBlank(a), NonBlank(b));
    if NonBlank([r]) == [r] { RarityOfOne(pool, r); }
  }

  lemma RarityOfOne(pool: seq<Item>, r: string)
    requires NonBlank([r]) == [r]
    ensures Rarity(pool, [r]) * (if Support(pool, r) < 1 then 1 else Support(pool, r)) as real == 1.0
  {
    hide NonBlank, Support;
    var n := if Support(pool, r) < 1 then 1 else Support(pool, r);
    assert [r][1..] == [];
    assert SumRarity(pool, []) == 0.0;
    assert SumRarity(pool, [r]) == 1.0 / n as real;
    assert Rarity(pool, [r]) == 1.0 / n as real;
    QuotientTimes(1.0, n);
  }

  lemma {:induction false} UnseenAdds(a: seq<string>, b: seq<string>, seen: set<string>)
    ensures Unseen(a + b, seen) == Unseen(a, seen) + Unseen(b, seen)
  {
    if a == [] {
      assert a + b == b;
    } else {
      assert (a + b)[1..] == a[1..] + b && (a + b)[0] == a[0];
      UnseenAdds(a[1..], b, seen);
    }
  }

  lemma {:induction false} UnseenOfNone(regions: seq<string>)
    ensures Unseen(regions, {}) == |regions|
  {
    if regions != [] { UnseenOfNone(regions[1..]); }
  }

  lemma FamilyTotal(regions: seq<string>, seen: set<string>)
    ensures FamilyDiversity(regions, seen) * |NonBlank(regions)| as real == Unseen(NonBlank(regions), seen) as real
  {
    hide NonBlank;
    UnseenOfNone(NonBlank(regions));
    if NonBlank(regions) != [] { QuotientTimes(Unseen(NonBlank(regions), seen) as real, |NonBlank(regions)|); }
  }

  /** Family diversity averages over regions, too; with `FamilyDiversityBounds` for one region that makes it the unseen share. */
  lemma FamilyDiversityIsAverage(a: seq<string>, b: seq<string>, seen: set<string>)
    ensures FamilyDiversity(a + b, seen) * |NonBlank(a + b)| as real
            == FamilyDiversity(a, seen) * |NonBlank(a)| as real + FamilyDiversity(b, seen) * |NonBlank(b)| as real
  {
    hide NonBlank, Unseen, FamilyDiversity;
    NonBlankAdds(a, b);
    FamilyTotal(a, seen);
    FamilyTotal(b, seen);
    FamilyTotal(a + b, seen);
    UnseenAdds(NonBlank(a), NonBlank(b), seen);
  }

  /** What has been selected, as the scores see it: every patch in order, and every region that is not blank. */
  lemma {:induction false} SelectedSoFar(actions: seq<Item>)
    ensures |Patches(actions)| == |actions| && forall i | 0 <= i < |actions| :: Patches(actions)[i] == actions[i].patch
    ensures forall r :: r in SeenRegions(actions) <==> exists i :: 0 <= i < |actions| && r in NonBlank(actions[i].regions)
  {
    if actions != [] {
      SelectedSoFar(actions[1..]);
      assert forall i | 0 < i < |actions| :: actions[i] == actions[1..][i - 1];
    }
  }

  /** Everything a score is made of. */
  datatype Merits = Merits(base: real, rarity: real, novelty: real, patches: real, families: real)

  function MeritsOf(p: Params, pool: seq<Item>, actions: seq<Item>, it: Item): Merits {
    Merits(it.base, Rarity(pool, it.regions), it.novelty, p.diversity(it.patch, Patches(actions)),
           if p.closure then FamilyDiversity(it.regions, SeenRegions(actions)) else 0.0)
  }

  predicate NoWorse(x: Merits, y: Merits) {
    x.base >= y.base && x.rarity >= y.rarity && x.novelty >= y.novelty && x.patches >= y.patches && x.families >= y.families
  }

  lemma ProductRises(w: real, x: real, y: real, product: real)
    requires w >= 0.0 && x >= y && product == w * (x - y)
    ensures product >= 0.0 && (w > 0.0 && x > y ==> product > 0.0)
  {
  }

  /** Exactly what the difference of two scores is made of. */
  lemma ScoreDifference(p: Params, pool: seq<Item>, actions: seq<Item>, x: Item, y: Item)
    ensures var a, b := MeritsOf(p, pool, actions, x), MeritsOf(p, pool, actions, y);
            SelectionScore(p, pool, actions, x) - SelectionScore(p, pool, actions, y)
            == (a.base - b.base) + p.rarityWeight * (a.rarity - b.rarity) + p.noveltyWeight * (a.novelty - b.novelty)
               + p.diversityWeight * (a.patches - b.patches) + p.diversityWeight * (1.5 * (a.families - b.families))
  {
    hide Rarity, FamilyDiversity, Patches, SeenRegions;
    var a, b := MeritsOf(p, pool, actions, x), MeritsOf(p, pool, actions, y);
    ScoreIs(p, pool, actions, x);
    ScoreIs(p, pool, actions, y);
    Distribute(p.rarityWeight, a.rarity, b.rarity);
    Distribute(p.noveltyWeight, a.novelty, b.novelty);
    Distribute(p.diversityWeight, a.patches, b.patches);
    Distribute(p.diversityWeight, 1.5 * a.families, 1.5 * b.families);
  }

  lemma ScoreIs(p: Params, pool: seq<Item>, actions: seq<Item>, x: Item)
    ensures var a := MeritsOf(p, pool, actions, x);
            SelectionScore(p, pool, actions, x) == a.base + p.rarityWeight * a.rarity + p.noveltyWeight * a.novelty
                                                   + p.diversityWeight * a.patches + p.diversityWeight * (1.5 * a.families)
  {
    hide Rarity, FamilyDiversity, Patches, SeenRegions;
    var a := MeritsOf(p, pool, actions, x);
    Regroup(p.diversityWeight, FamilyDiversity(x.regions, SeenRegions(actions)));
  }

  lemma Regroup(w: real, x: real)
    ensures (w * 1.5) * x == w * (1.5 * x) && 0.0 * x == w * (1.5 * 0.0)
  {
  }

  lemma Distribute(w: real, x: real, y: real)
    ensures w * (x - y) == w * x - w * y
  {
  }

  /**
   With weights that are not negative a score rises with every merit, strictly where the merit has a weight. Family
   diversity is a merit in the closure profile only, and there one unit of it is worth one and a half of patch diversity.
   */
  lemma ScoreRises(p: Params, pool: seq<Item>, actions: seq<Item>, x: Item, y: Item)
    requires p.rarityWeight >= 0.0 && p.noveltyWeight >= 0.0 && p.diversityWeight >= 0.0
    requires NoWorse(MeritsOf(p, pool, actions, x), MeritsOf(p, pool, actions, y))
    ensures SelectionScore(p, pool, actions, x) >= SelectionScore(p, pool, actions, y)
    ensures var a, b := MeritsOf(p, pool, actions, x), MeritsOf(p, pool, actions, y);
            || a.base > b.base || (a.rarity > b.rarity && p.rarityWeight > 0.0) || (a.novelty > b.novelty && p.noveltyWeight > 0.0)
            || ((a.patches > b.patches || a.families > b.families) && p.diversityWeight > 0.0)
            ==> SelectionScore(p, pool, actions, x) > SelectionScore(p, pool, actions, y)
  {
    hide SelectionScore, MeritsOf;
    var a, b := MeritsOf(p, pool, actions, x), MeritsOf(p, pool, actions, y);
    ScoreDifference(p, pool, actions, x, y);
    var r, n := p.rarityWeight * (a.rarity - b.rarity), p.noveltyWeight * (a.novelty - b.novelty);
    var q, f := p.diversityWeight * (a.patches - b.patches), p.diversityWeight * (1.5 * (a.families - b.families));
    ProductRises(p.rarityWeight, a.rarity, b.rarity, r);
    ProductRises(p.noveltyWeight, a.novelty, b.novelty, n);
    ProductRises(p.diversityWeight, a.patches, b.patches, q);
    ProductRises(p.diversityWeight * 1.5, a.families, b.families, f);
    assert SelectionScore(p, pool, actions, x) - SelectionScore(p, pool, actions, y) == (a.base - b.base) + r + n + q + f;
  }

  /** Trading merits: equal scores when one and a half of patch diversity is exchanged for one of family diversity. */
  lemma FamiliesAreWorthMore(p: Params, pool: seq<Item>, actions: seq<Item>, x: Item, y: Item)
    requires var a, b := MeritsOf(p, pool, actions, x), MeritsOf(p, pool, actions, y);
             a.(patches := b.patches, families := b.families) == b
             && a.patches - b.patches == 1.5 * (b.families - a.families)
    ensures SelectionScore(p, pool, actions, x) == SelectionScore(p, pool, actions, y)
  {
    hide SelectionScore, MeritsOf;
    var a, b := MeritsOf(p, pool, actions, x), MeritsOf(p, pool, actions, y);
    ScoreDifference(p, pool, actions, x, y);
    assert a.patches - b.patches == -(1.5 * (a.families - b.families));
    Opposite(p.diversityWeight, a.patches - b.patches, 1.5 * (a.families - b.families));
  }

  lemma Opposite(w: real, x: real, y: real)
    requires x == -y
    ensures w * x + w * y == 0.0
  {
  }
}
