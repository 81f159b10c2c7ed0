/** The greedy policy selection of the GRPO trainer, over exact reals. */
module Policy {
  import opened Prelude

  /** One pooled action; `novelty` is its frequency-novelty score, `regions` its sorted target regions. */
  datatype Item = Item(key: string, patch: string, count: nat, meanReward: real, base: real, novelty: real,
                       regions: seq<string>)

  /** `diversity(patch, selected)` stands for `action_patch_diversity_score`, which is imported from another file. */
  datatype Params = Params(limit: int, minSamples: int, diversityWeight: real, rarityWeight: real, noveltyWeight: real,
                           closure: bool, diversity: (string, seq<string>) -> real)

  // ---- the sort keys ------------------------------------------------------------------------------------------------------------

  /** Python's order on strings. */
  predicate LexLess(s: string, t: string) {
    t != "" && (s == "" || s[0] < t[0] || (s[0] == t[0] && LexLess(s[1..], t[1..])))
  }

  lemma {:induction false} LexIsTotal(s: string, t: string)
    ensures s == t || LexLess(s, t) || LexLess(t, s)
    ensures !(LexLess(s, t) && LexLess(t, s)) && !LexLess(s, s)
  {
    if s != "" && t != "" && s[0] == t[0] {
      LexIsTotal(s[1..], t[1..]);
      assert s == [s[0]] + s[1..] && t == [t[0]] + t[1..];
    }
    if s != "" { LexIsIrreflexive(s); }
  }

  lemma {:induction false} LexIsIrreflexive(s: string)
    ensures !LexLess(s, s)
  {
    if s != "" { LexIsIrreflexive(s[1..]); }
  }

  lemma {:induction false} LexIsTransitive(s: string, t: string, u: string)
    requires LexLess(s, t) && LexLess(t, u)
    ensures LexLess(s, u)
  {
    if s != "" && s[0] == t[0] && t[0] == u[0] { LexIsTransitive(s[1..], t[1..], u[1..]); }
  }

  /** `s` is smaller at the first place where the two differ, or ends there. */
  ghost predicate SmallerText(s: string, t: string) {
    exists k :: 0 <= k <= |s| && k < |t| && s[..k] == t[..k] && (k == |s| || s[k] < t[k])
  }

  lemma {:induction false} LexMeans(s: string, t: string)
    ensures LexLess(s, t) <==> SmallerText(s, t)
  {
    if s == "" || t == "" || s[0] != t[0] {
      if LexLess(s, t) { assert s[..0] == t[..0]; }
      if SmallerText(s, t) {
        var k :| 0 <= k <= |s| && k < |t| && s[..k] == t[..k] && (k == |s| || s[k] < t[k]);
        if k > 0 { assert s[..k][0] == t[..k][0]; }
      }
    } else {
      LexMeans(s[1..], t[1..]);
      if SmallerText(s[1..], t[1..]) { LexLater(s, t); }
      if SmallerText(s, t) { LexSooner(s, t); }
    }
  }

  lemma LexLater(s: string, t: string)
    requires s != "" && t != "" && s[0] == t[0] && SmallerText(s[1..], t[1..])
    ensures SmallerText(s, t)
  {
    var k :| 0 <= k <= |s[1..]| && k < |t[1..]| && s[1..][..k] == t[1..][..k] && (k == |s[1..]| || s[1..][k] < t[1..][k]);
    assert s[..k + 1] == [s[0]] + s[1..][..k] && t[..k + 1] == [t[0]] + t[1..][..k];
  }

  lemma LexSooner(s: string, t: string)
    requires s != "" && t != "" && s[0] == t[0] && SmallerText(s, t)
    ensures SmallerText(s[1..], t[1..])
  {
    var k :| 0 <= k <= |s| && k < |t| && s[..k] == t[..k] && (k == |s| || s[k] < t[k]);
    assert k > 0;
    assert s[1..][..k - 1] == s[..k][1..] && t[1..][..k - 1] == t[..k][1..];
  }

  /** A sort key: three numbers, larger first, then the action key. */
  datatype Rank = Rank(a: real, b: real, c: real, key: string)

  predicate Before(x: Rank, y: Rank) {
    x.a > y.a || (x.a == y.a && (x.b > y.b || (x.b == y.b && (x.c > y.c || (x.c == y.c && LexLess(x.key, y.key))))))
  }

  lemma BeforeIsTotal(x: Rank, y: Rank)
    ensures x.key != y.key ==> Before(x, y) || Before(y, x)
    ensures !(Before(x, y) && Before(y, x))
  {
    LexIsTotal(x.key, y.key);
  }

  lemma BeforeIsTransitive(x: Rank, y: Rank, z: Rank)
    requires Before(x, y) && Before(y, z)
    ensures Before(x, z)
  {
    if x.a == y.a == z.a && x.b == y.b == z.b && x.c == y.c == z.c { LexIsTransitive(x.key, y.key, z.key); }
  }

  // ---- scores --------------------------------------------------------------------------------------------------------------------

  /** Python's `str.isspace`. */
  predicate IsSpace(c: char) {
    || c == ' ' || '\t' <= c <= '\r' || '\U{1C}' <= c <= '\U{1F}' || c == '\U{85}' || c == '\U{A0}' || c == '\U{1680}'
    || '\U{2000}' <= c <= '\U{200A}' || c == '\U{2028}' || c == '\U{2029}' || c == '\U{202F}' || c == '\U{205F}'
    || c == '\U{3000}'
  }

  /** The twenty-nine spaces, one by one. */
  lemma SpacesAre(c: char)
    ensures IsSpace(c) <==> c in ['\t', '\n', '\U{0B}', '\U{0C}', '\r', '\U{1C}', '\U{1D}', '\U{1E}', '\U{1F}', ' ', '\U{85}',
                                  '\U{A0}', '\U{1680}', '\U{2000}', '\U{2001}', '\U{2002}', '\U{2003}', '\U{2004}', '\U{2005}',
                                  '\U{2006}', '\U{2007}', '\U{2008}', '\U{2009}', '\U{200A}', '\U{2028}', '\U{2029}', '\U{202F}',
                                  '\U{205F}', '\U{3000}']
  {
  }

  predicate IsBlank(region: string) { forall i | 0 <= i < |region| :: IsSpace(region[i]) }

  function NonBlank(regions: seq<string>): seq<string> {
    if regions == [] then [] else (if IsBlank(regions[0]) then [] else [regions[0]]) + NonBlank(regions[1..])
  }

  /** How many pooled actions target a region. */
  function Support(pool: seq<Item>, region: string): nat {
    if pool == [] then 0 else Support(pool[..|pool| - 1], region) + if region in pool[|pool| - 1].regions then 1 else 0
  }

  function SumRarity(pool: seq<Item>, regions: seq<string>): real {
    if regions == [] then 0.0
    else
      var n := Support(pool, regions[0]);
      1.0 / (if n < 1 then 1.0 else n as real) + SumRarity(pool, regions[1..])
  }

  /** `_region_rarity_score` */
  function Rarity(pool: seq<Item>, regions: seq<string>): real {
    var filtered := NonBlank(regions);
    if filtered == [] then 0.0 else SumRarity(pool, filtered) / (|filtered| as real)
  }

  function Unseen(regions: seq<string>, seen: set<string>): nat {
    if regions == [] then 0 else (if regions[0] in seen then 0 else 1) + Unseen(regions[1..], seen)
  }

  /** `_target_family_diversity_score` */
  function FamilyDiversity(regions: seq<string>, seen: set<string>): real {
    var filtered := NonBlank(regions);
    if filtered == [] then 0.0 else if seen == {} then 1.0 else (Unseen(filtered, seen) as real) / (|filtered| as real)
  }

  function Patches(actions: seq<Item>): seq<string> {
    if actions == [] then [] else [actions[0].patch] + Patches(actions[1..])
  }

  function SeenRegions(actions: seq<Item>): set<string> {
    if actions == [] then {} else (set r | r in NonBlank(actions[0].regions)) + SeenRegions(actions[1..])
  }

  /** The part of the score that does not depend on what has been selected. */
  function StaticScore(p: Params, pool: seq<Item>, it: Item): real {
    it.base + p.rarityWeight * Rarity(pool, it.regions) + p.noveltyWeight * it.novelty
  }

  function SelectionScore(p: Params, pool: seq<Item>, actions: seq<Item>, it: Item): real {
    StaticScore(p, pool, it) + p.diversityWeight * p.diversity(it.patch, Patches(actions))
    + (if p.closure then p.diversityWeight * 1.5 else 0.0) * FamilyDiversity(it.regions, SeenRegions(actions))
  }

  lemma {:induction false} SumRarityBounds(pool: seq<Item>, regions: seq<string>)
    ensures 0.0 <= SumRarity(pool, regions) <= |regions| as real
    ensures regions != [] ==> SumRarity(pool, regions) > 0.0
    ensures SumRarity(pool, regions) == |regions| as real <==> forall i | 0 <= i < |regions| :: Support(pool, regions[i]) <= 1
  {
    if regions != [] {
      hide Support;
      var rest := regions[1..];
      SumRarityBounds(pool, rest);
      ReciprocalBounds(Support(pool, regions[0]));
      assert forall i | 0 <= i < |rest| :: rest[i] == regions[i + 1];
      if forall i | 0 <= i < |rest| :: Support(pool, rest[i]) <= 1 {
        assert forall i | 1 <= i < |regions| :: regions[i] == rest[i - 1];
      }
    }
  }

  lemma ReciprocalBounds(n: nat)
    ensures var d := if n < 1 then 1.0 else n as real; 0.0 < 1.0 / d <= 1.0 && (1.0 / d == 1.0 <==> n <= 1)
  {
  }

  lemma QuotientBounds(a: real, n: nat)
    requires 0.0 <= a <= n as real && n > 0
    ensures 0.0 <= a / n as real <= 1.0 && (a / n as real == 0.0 <==> a == 0.0) && (a / n as real == 1.0 <==> a == n as real)
  {
  }

  /** Rarity lies in [0, 1]: zero exactly without regions, one exactly when no other pooled action shares a region. */
  lemma RarityBounds(pool: seq<Item>, regions: seq<string>)
    ensures 0.0 <= Rarity(pool, regions) <= 1.0
    ensures Rarity(pool, regions) == 0.0 <==> NonBlank(regions) == []
    ensures Rarity(pool, regions) == 1.0 <==> NonBlank(regions) != [] && forall r | r in NonBlank(regions) :: Support(pool, r) <= 1
  {
    var filtered := NonBlank(regions);
    if filtered != [] {
      SumRarityBounds(pool, filtered);
      QuotientBounds(SumRarity(pool, filtered), |filtered|);
    }
  }

  lemma {:induction false} UnseenBounds(regions: seq<string>, seen: set<string>, more: set<string>)
    ensures Unseen(regions, seen) <= |regions|
    ensures Unseen(regions, seen) == 0 <==> forall r | r in regions :: r in seen
    ensures Unseen(regions, seen) == |regions| <==> forall r | r in regions :: r !in seen
    ensures seen <= more ==> Unseen(regions, more) <= Unseen(regions, seen)
  {
    if regions != [] {
      UnseenBounds(regions[1..], seen, more);
      assert regions == [regions[0]] + regions[1..];
    }
  }

  /** Family diversity lies in [0, 1], is one exactly when every region is new, zero when none is, and never rises. */
  lemma FamilyDiversityBounds(regions: seq<string>, seen: set<string>, more: set<string>)
    requires seen <= more
    ensures 0.0 <= FamilyDiversity(regions, more) <= FamilyDiversity(regions, seen) <= 1.0
    ensures FamilyDiversity(regions, seen) == 1.0 <==> NonBlank(regions) != [] && forall r | r in NonBlank(regions) :: r !in seen
    ensures FamilyDiversity(regions, seen) == 0.0 <==> forall r | r in NonBlank(regions) :: r in seen
  {
    var filtered := NonBlank(regions);
    if filtered == [] { return; }
    assert filtered[0] in filtered;
    UnseenBounds(filtered, seen, more);
    UnseenBounds(filtered, more, more);
    QuotientBounds(Unseen(filtered, seen) as real, |filtered|);
    QuotientBounds(Unseen(filtered, more) as real, |filtered|);
    QuotientOrder(Unseen(filtered, more), Unseen(filtered, seen), |filtered|);
  }

  lemma QuotientOrder(a: nat, b: nat, n: nat)
    requires a <= b && n > 0
    ensures a as real / n as real <= b as real / n as real
  {
  }

  // ---- sorting -------------------------------------------------------------------------------------------------------------------

  /** The three orders: of the pool, of the remaining actions after some selections, and by the static score alone. */
  datatype Order =
    | PoolOrder
    | Selecting(p: Params, pool: seq<Item>, actions: seq<Item>)
    | Static(q: Params, pooled: seq<Item>)

  function RankOf(o: Order, it: Item): (r: Rank)
    ensures r.key == it.key
  {
    match o
    case PoolOrder => Rank(it.base, it.meanReward, it.count as real, it.key)
    case Selecting(p, pool, actions) => Rank(SelectionScore(p, pool, actions, it), it.base, it.meanReward, it.key)
    case Static(p, pool) => Rank(StaticScore(p, pool, it), it.base, it.meanReward, it.key)
  }

  predicate Precedes(o: Order, x: Item, y: Item) { Before(RankOf(o, x), RankOf(o, y)) }

  function Insert(o: Order, x: Item, s: seq<Item>): seq<Item> {
    if s == [] || Precedes(o, x, s[0]) then [x] + s else [s[0]] + Insert(o, x, s[1..])
  }

  /** What `list.sort` leaves: with distinct action keys there is one sorted order. */
  function Sort(o: Order, s: seq<Item>): seq<Item> { if s == [] then [] else Insert(o, s[0], Sort(o, s[1..])) }

  predicate Sorted(o: Order, s: seq<Item>) { forall i, j | 0 <= i < j < |s| :: Precedes(o, s[i], s[j]) }

  predicate DistinctKeys(s: seq<Item>) { forall i, j | 0 <= i < j < |s| :: s[i].key != s[j].key }

  lemma {:induction false} InsertKeeps(o: Order, x: Item, s: seq<Item>)
    ensures multiset(Insert(o, x, s)) == multiset{x} + multiset(s)
    ensures Insert(o, x, s) != [] && (Insert(o, x, s)[0] == x || (s != [] && Insert(o, x, s)[0] == s[0]))
  {
    if s != [] {
      assert s == [s[0]] + s[1..];
      if !Precedes(o, x, s[0]) { InsertKeeps(o, x, s[1..]); }
    }
  }

  lemma {:induction false} SortKeeps(o: Order, s: seq<Item>)
    ensures multiset(Sort(o, s)) == multiset(s)
  {
    hide Insert;
    if s != [] {
      SortKeeps(o, s[1..]);
      InsertKeeps(o, s[0], Sort(o, s[1..]));
      assert s == [s[0]] + s[1..];
    }
  }

  lemma SortedCons(o: Order, x: Item, s: seq<Item>)
    requires Sorted(o, s) && (s == [] || Precedes(o, x, s[0]))
    ensures Sorted(o, [x] + s)
  {
    forall j | 0 <= j < |s|
      ensures Precedes(o, x, s[j])
    {
      if j > 0 { BeforeIsTransitive(RankOf(o, x), RankOf(o, s[0]), RankOf(o, s[j])); }
    }
  }

  lemma {:induction false} InsertSorts(o: Order, x: Item, s: seq<Item>)
    requires Sorted(o, s) && forall i | 0 <= i < |s| :: s[i].key != x.key
    ensures Sorted(o, Insert(o, x, s))
  {
    if s == [] || Precedes(o, x, s[0]) {
      SortedCons(o, x, s);
    } else {
      BeforeIsTotal(RankOf(o, x), RankOf(o, s[0]));
      InsertSorts(o, x, s[1..]);
      InsertKeeps(o, x, s[1..]);
      SortedCons(o, s[0], Insert(o, x, s[1..]));
    }
  }

  lemma DistinctCons(x: Item, s: seq<Item>)
    requires DistinctKeys(s) && forall i | 0 <= i < |s| :: s[i].key != x.key
    ensures DistinctKeys([x] + s)
  {
  }

  lemma {:induction false} InsertDistinct(o: Order, x: Item, s: seq<Item>)
    requires DistinctKeys(s) && forall i | 0 <= i < |s| :: s[i].key != x.key
    ensures DistinctKeys(Insert(o, x, s))
  {
    if s == [] || Precedes(o, x, s[0]) {
      DistinctCons(x, s);
    } else {
      InsertDistinct(o, x, s[1..]);
      var rest := Insert(o, x, s[1..]);
      forall i | 0 <= i < |rest|
        ensures rest[i].key != s[0].key
      {
        InsertKeeps(o, x, s[1..]);
        assert rest[i] in multiset(rest);
        assert rest[i] == x || rest[i] in multiset(s[1..]);
        if rest[i] != x { var j :| 0 <= j < |s[1..]| && s[1..][j] == rest[i]; assert s[j + 1] == rest[i]; }
      }
      DistinctCons(s[0], rest);
    }
  }

  lemma MemberOfSort(o: Order, s: seq<Item>, x: Item)
    ensures x in Sort(o, s) <==> x in s
  {
    SortKeeps(o, s);
    assert x in Sort(o, s) <==> x in multiset(Sort(o, s));
    assert x in s <==> x in multiset(s);
  }

  lemma {:induction false} SortSorts(o: Order, s: seq<Item>)
    requires DistinctKeys(s)
    ensures Sorted(o, Sort(o, s)) && DistinctKeys(Sort(o, s)) && |Sort(o, s)| == |s|
  {
    SortKeeps(o, s);
    assert |multiset(Sort(o, s))| == |multiset(s)|;
    if s != [] {
      SortSorts(o, s[1..]);
      var rest := Sort(o, s[1..]);
      forall i | 0 <= i < |rest|
        ensures rest[i].key != s[0].key
      {
        MemberOfSort(o, s[1..], rest[i]);
        var j :| 0 <= j < |s[1..]| && s[1..][j] == rest[i];
        assert s[j + 1] == rest[i];
      }
      InsertSorts(o, s[0], rest);
      InsertDistinct(o, s[0], rest);
    }
  }

  /** There is only one sorted sequence of the same items. */
  lemma {:induction false} SortedIsUnique(o: Order, s: seq<Item>, t: seq<Item>)
    requires Sorted(o, s) && Sorted(o, t) && multiset(s) == multiset(t)
    ensures s == t
  {
    hide Sorted, Precedes;
    assert |multiset(s)| == |s| && |multiset(t)| == |t|;
    if s != [] {
      SortedTails(o, s);
      SortedTails(o, t);
      assert s == [s[0]] + s[1..] && t == [t[0]] + t[1..];
      SameFirst(o, s, t);
      assert multiset(s[1..]) == multiset(s) - multiset{s[0]};
      assert multiset(t[1..]) == multiset(t) - multiset{t[0]};
      SortedIsUnique(o, s[1..], t[1..]);
    }
  }

  lemma SortedTails(o: Order, s: seq<Item>)
    requires Sorted(o, s) && s != []
    ensures Sorted(o, s[1..])
  {
  }

  lemma SameFirst(o: Order, s: seq<Item>, t: seq<Item>)
    requires s != [] && t != [] && Sorted(o, s) && Sorted(o, t) && multiset(s) == multiset(t)
    ensures s[0] == t[0]
  {
    assert s[0] in multiset(s) && t[0] in multiset(t);
    var i :| 0 <= i < |t| && t[i] == s[0];
    var j :| 0 <= j < |s| && s[j] == t[0];
    if i > 0 && j > 0 { BeforeIsTotal(RankOf(o, s[0]), RankOf(o, t[0])); }
  }

  /** Sorting does not depend on the order in which the items were collected. */
  lemma SortIsCanonical(o: Order, s: seq<Item>, t: seq<Item>)
    requires DistinctKeys(s) && DistinctKeys(t) && multiset(s) == multiset(t)
    ensures Sort(o, s) == Sort(o, t)
  {
    SortSorts(o, s);
    SortSorts(o, t);
    SortKeeps(o, s);
    SortKeeps(o, t);
    SortedIsUnique(o, Sort(o, s), Sort(o, t));
  }

  // ---- the greedy loop -------------------------------------------------------------------------------------------------------------

  /** The loop of `finalize`: rescore and re-sort what remains, take the first, until the limit or nothing remains. */
  function Greedy(p: Params, pool: seq<Item>, actions: seq<Item>, remaining: seq<Item>, limit: nat): seq<Item>
    decreases limit - |actions|
  {
    if remaining == [] || |actions| >= limit then actions
    else
      SortKeeps(Selecting(p, pool, actions), remaining);
      var sorted := Sort(Selecting(p, pool, actions), remaining);
      assert |multiset(sorted)| == |multiset(remaining)|;
      Greedy(p, pool, actions + [sorted[0]], sorted[1..], limit)
  }

  function LimitOf(p: Params): nat { if p.limit < 1 then 1 else p.limit }

  function Enough(p: Params, items: seq<Item>): seq<Item> {
    if items == [] then []
    else Enough(p, items[..|items| - 1])
         + if items[|items| - 1].count < p.minSamples then [] else [items[|items| - 1]]
  }

  /** `finalize` for one context, before the probabilities: pool the actions with enough samples, sort, select. */
  function Finalize(p: Params, items: seq<Item>): seq<Item> {
    var pool := Sort(PoolOrder, Enough(p, items));
    Greedy(p, pool, [], pool, LimitOf(p))
  }

  method BuildPool(p: Params, items: seq<Item>) returns (pool: seq<Item>)
    ensures pool == Sort(PoolOrder, Enough(p, items))
  {
    pool := [];
    for i := 0 to |items|
      invariant pool == Enough(p, items[..i])
    {
      assert items[..i + 1][..i] == items[..i];
      if items[i].count < p.minSamples { continue; }
      pool := pool + [items[i]];
    }
    assert items[..|items|] == items;
    pool := Sort(PoolOrder, pool);
  }

  method CountSupport(pool: seq<Item>) returns (support: map<string, nat>)
    ensures forall r :: (if r in support then support[r] else 0) == Support(pool, r)
  {
    support := map[];
    for i := 0 to |pool|
      invariant forall r :: (if r in support then support[r] else 0) == Support(pool[..i], r)
    {
      assert pool[..i + 1][..i] == pool[..i];
      var regions := pool[i].regions;
      var done: set<string> := {};
      for j := 0 to |regions|
        invariant forall r :: r in done <==> r in regions[..j]
        invariant forall r :: (if r in support then support[r] else 0) == Support(pool[..i], r) + if r in done then 1 else 0
      {
        assert regions[..j + 1] == regions[..j] + [regions[j]];
        if regions[j] !in done {
          support := support[regions[j] := (if regions[j] in support then support[regions[j]] else 0) + 1];
          done := done + {regions[j]};
        }
      }
      assert regions[..|regions|] == regions;
    }
    assert pool[..|pool|] == pool;
  }

  method SelectActions(p: Params, items: seq<Item>) returns (actions: seq<Item>)
    ensures actions == Finalize(p, items)
  {
    var pool := BuildPool(p, items);
    actions := [];
    var remaining := pool;
    var limit := LimitOf(p);
    while remaining != [] && |actions| < limit
      invariant Greedy(p, pool, actions, remaining, limit) == Finalize(p, items)
      decreases |remaining|
    {
      SortKeeps(Selecting(p, pool, actions), remaining);
      ghost var before := |remaining|;
      assert |multiset(remaining)| == before;
      remaining := Sort(Selecting(p, pool, actions), remaining);
      assert |multiset(remaining)| == |remaining| == before;
      actions := actions + [remaining[0]];
      remaining := remaining[1..];
    }
  }

  // ---- what is selected -----------------------------------------------------------------------------------------------------------

  /** The selection is `actions` and then distinct items of `remaining`, as many as there is room for. */
  ghost predicate Picks(actions: seq<Item>, remaining: seq<Item>, limit: nat, result: seq<Item>) {
    && |actions| <= |result| && result[..|actions|] == actions
    && |result| == (if |actions| >= limit then |actions|
                    else if |actions| + |remaining| <= limit then |actions| + |remaining| else limit)
    && DistinctKeys(result)
    && forall i | |actions| <= i < |result| :: result[i] in remaining
  }

  lemma {:induction false} GreedyPicks(p: Params, pool: seq<Item>, actions: seq<Item>, remaining: seq<Item>, limit: nat)
    requires DistinctKeys(actions + remaining)
    ensures Picks(actions, remaining, limit, Greedy(p, pool, actions, remaining, limit))
    decreases limit - |actions|
  {
    if remaining == [] || |actions| >= limit {
      assert actions == (actions + remaining)[..|actions|];
    } else {
      var o := Selecting(p, pool, actions);
      var sorted := Sort(o, remaining);
      assert remaining == (actions + remaining)[|actions|..];
      SortSorts(o, remaining);
      MoveFirst(o, actions, remaining);
      GreedyPicks(p, pool, actions + [sorted[0]], sorted[1..], limit);
      var result := Greedy(p, pool, actions + [sorted[0]], sorted[1..], limit);
      assert result[..|actions|] == result[..|actions| + 1][..|actions|];
      forall i | |actions| <= i < |result|
        ensures result[i] in remaining
      {
        if i == |actions| { assert result[i] == result[..|actions| + 1][i] == sorted[0]; }
        MemberOfSort(o, remaining, result[i]);
      }
    }
  }

  predicate Apart(s: seq<Item>, t: seq<Item>) { forall x, y | x in s && y in t :: x.key != y.key }

  lemma DistinctJoin(s: seq<Item>, t: seq<Item>)
    ensures DistinctKeys(s + t) <==> DistinctKeys(s) && DistinctKeys(t) && Apart(s, t)
  {
    if DistinctKeys(s + t) {
      assert s == (s + t)[..|s|] && t == (s + t)[|s|..];
      forall x, y | x in s && y in t
        ensures x.key != y.key
      {
        var i :| 0 <= i < |s| && s[i] == x;
        var j :| 0 <= j < |t| && t[j] == y;
        assert (s + t)[i] == x && (s + t)[|s| + j] == y;
      }
    }
  }

  lemma MoveFirst(o: Order, actions: seq<Item>, remaining: seq<Item>)
    requires DistinctKeys(actions + remaining) && remaining != []
    ensures var sorted := Sort(o, remaining);
            sorted != [] && DistinctKeys(actions + [sorted[0]] + sorted[1..])
  {
    hide Sort, DistinctKeys, Sorted;
    DistinctJoin(actions, remaining);
    SortSorts(o, remaining);
    var sorted := Sort(o, remaining);
    assert actions + [sorted[0]] + sorted[1..] == actions + sorted;
    forall x, y | x in actions && y in sorted
      ensures x.key != y.key
    {
      MemberOfSort(o, remaining, y);
    }
    DistinctJoin(actions, sorted);
  }

  /** Pick `i` comes first, under the scores of that moment, among all that was not picked before. */
  ghost predicate PicksBest(p: Params, pool: seq<Item>, all: seq<Item>, result: seq<Item>, i: nat)
    requires i < |result|
  {
    forall x | x in all && x !in result[..i] && x != result[i] :: Precedes(Selecting(p, pool, result[..i]), result[i], x)
  }

  lemma GreedyStep(p: Params, pool: seq<Item>, actions: seq<Item>, remaining: seq<Item>, limit: nat)
    requires remaining != [] && |actions| < limit && DistinctKeys(actions + remaining)
    ensures var sorted := Sort(Selecting(p, pool, actions), remaining);
            && sorted != [] && DistinctKeys(remaining) && DistinctKeys(actions + [sorted[0]] + sorted[1..])
            && Greedy(p, pool, actions, remaining, limit) == Greedy(p, pool, actions + [sorted[0]], sorted[1..], limit)
  {
    assert remaining == (actions + remaining)[|actions|..];
    SortSorts(Selecting(p, pool, actions), remaining);
    MoveFirst(Selecting(p, pool, actions), actions, remaining);
  }

  lemma PrefixOfResult(result: seq<Item>, actions: seq<Item>, x: Item)
    requires |actions| + 1 <= |result| && result[..|actions| + 1] == actions + [x]
    ensures result[..|actions|] == actions && result[|actions|] == x
  {
    assert result[..|actions|] == result[..|actions| + 1][..|actions|];
    assert result[|actions|] == result[..|actions| + 1][|actions|];
  }

  lemma {:induction false} GreedyPicksBest(p: Params, pool: seq<Item>, actions: seq<Item>, remaining: seq<Item>, limit: nat,
                                           i: nat)
    requires DistinctKeys(actions + remaining) && |actions| <= i < |Greedy(p, pool, actions, remaining, limit)|
    ensures PicksBest(p, pool, remaining, Greedy(p, pool, actions, remaining, limit), i)
    decreases limit - |actions|
  {
    if remaining != [] && |actions| < limit {
      hide Sort, DistinctKeys, Precedes;
      GreedyStep(p, pool, actions, remaining, limit);
      var o := Selecting(p, pool, actions);
      var sorted := Sort(o, remaining);
      var result := Greedy(p, pool, actions + [sorted[0]], sorted[1..], limit);
      GreedyPicks(p, pool, actions + [sorted[0]], sorted[1..], limit);
      PrefixOfResult(result, actions, sorted[0]);
      FirstIsBest(o, remaining);
      if i > |actions| {
        GreedyPicksBest(p, pool, actions + [sorted[0]], sorted[1..], limit, i);
        LaterIsBest(p, pool, o, remaining, result, i, |actions|);
      }
    }
  }

  lemma FirstIsBest(o: Order, remaining: seq<Item>)
    requires DistinctKeys(remaining) && remaining != []
    ensures Sort(o, remaining) != []
    ensures forall x | x in remaining && x != Sort(o, remaining)[0] :: Precedes(o, Sort(o, remaining)[0], x)
  {
    SortSorts(o, remaining);
    forall x | x in remaining && x != Sort(o, remaining)[0]
      ensures Precedes(o, Sort(o, remaining)[0], x)
    {
      MemberOfSort(o, remaining, x);
      var j :| 0 <= j < |Sort(o, remaining)| && Sort(o, remaining)[j] == x;
    }
  }

  lemma LaterIsBest(p: Params, pool: seq<Item>, o: Order, remaining: seq<Item>, result: seq<Item>, i: nat, n: nat)
    requires remaining != [] && Sort(o, remaining) != [] && n < i < |result| && result[n] == Sort(o, remaining)[0]
    requires PicksBest(p, pool, Sort(o, remaining)[1..], result, i)
    ensures PicksBest(p, pool, remaining, result, i)
  {
    forall x | x in remaining && x !in result[..i] && x != result[i]
      ensures Precedes(Selecting(p, pool, result[..i]), result[i], x)
    {
      MemberOfSort(o, remaining, x);
      assert result[..i][n] == result[n];
      var sorted := Sort(o, remaining);
      assert sorted == [sorted[0]] + sorted[1..];
    }
  }

  lemma {:induction false} EnoughIsDistinct(p: Params, items: seq<Item>)
    requires DistinctKeys(items)
    ensures DistinctKeys(Enough(p, items)) && forall x | x in Enough(p, items) :: x in items && x.count >= p.minSamples
    ensures forall x | x in items && x.count >= p.minSamples :: x in Enough(p, items)
  {
    if items != [] {
      var front, last := items[..|items| - 1], items[|items| - 1];
      EnoughIsDistinct(p, front);
      assert items == front + [last];
      forall i | 0 <= i < |Enough(p, front)|
        ensures Enough(p, front)[i].key != last.key
      {
        assert Enough(p, front)[i] in front;
        var j :| 0 <= j < |front| && front[j] == Enough(p, front)[i];
        assert items[j] == front[j];
      }
    }
  }

  /** The pool: sorted, distinct, exactly the actions with enough samples. */
  lemma PoolIs(p: Params, items: seq<Item>)
    requires DistinctKeys(items)
    ensures var pool := Sort(PoolOrder, Enough(p, items));
            DistinctKeys([] + pool) && forall x :: x in pool <==> x in items && x.count >= p.minSamples
  {
    EnoughIsDistinct(p, items);
    SortSorts(PoolOrder, Enough(p, items));
    var pool := Sort(PoolOrder, Enough(p, items));
    assert [] + pool == pool;
    forall x
      ensures x in pool <==> x in items && x.count >= p.minSamples
    {
      MemberOfSort(PoolOrder, Enough(p, items), x);
    }
  }

  /** The action list has the size of the limit or the pool, no duplicates, and only pooled actions. */
  lemma SelectionSize(p: Params, items: seq<Item>)
    requires DistinctKeys(items)
    ensures |Finalize(p, items)| == Smaller(|Sort(PoolOrder, Enough(p, items))|, LimitOf(p))
    ensures DistinctKeys(Finalize(p, items))
    ensures forall x | x in Finalize(p, items) :: x in items && x.count >= p.minSamples
  {
    PoolIs(p, items);
    var pool := Sort(PoolOrder, Enough(p, items));
    GreedyPicks(p, pool, [], pool, LimitOf(p));
    forall x | x in Finalize(p, items)
      ensures x in items && x.count >= p.minSamples
    {
      var i :| 0 <= i < |Finalize(p, items)| && Finalize(p, items)[i] == x;
      assert x in pool;
    }
  }

  /** Each pick comes first among what remains, under the scores of that moment. */
  lemma SelectionIsGreedy(p: Params, items: seq<Item>)
    requires DistinctKeys(items)
    ensures var pool := Sort(PoolOrder, Enough(p, items));
            forall i | 0 <= i < |Finalize(p, items)| :: PicksBest(p, pool, pool, Finalize(p, items), i)
  {
    PoolIs(p, items);
    var pool := Sort(PoolOrder, Enough(p, items));
    forall i | 0 <= i < |Finalize(p, items)|
      ensures PicksBest(p, pool, pool, Finalize(p, items), i)
    {
      GreedyPicksBest(p, pool, [], pool, LimitOf(p), i);
    }
  }

  /** `x` has the larger score, or the same and the larger base, the larger mean reward, the smaller key, in this order. */
  ghost predicate Wins(score: real, x: Item, score': real, y: Item) {
    || score > score'
    || (score == score' && (x.base > y.base
        || (x.base == y.base && (x.meanReward > y.meanReward
            || (x.meanReward == y.meanReward && SmallerText(x.key, y.key))))))
  }

  /** The pick in numbers: nothing pooled and not picked before has a larger score, and ties go by base, reward and key. */
  lemma PickWins(p: Params, items: seq<Item>, i: nat, x: Item)
    requires DistinctKeys(items) && i < |Finalize(p, items)|
    requires x in items && x.count >= p.minSamples && x !in Finalize(p, items)[..i] && x != Finalize(p, items)[i]
    ensures var pool := Sort(PoolOrder, Enough(p, items));
            var before, pick := Finalize(p, items)[..i], Finalize(p, items)[i];
            && Wins(SelectionScore(p, pool, before, pick), pick, SelectionScore(p, pool, before, x), x)
            && (forall y: Item :: y in pool <==> y in items && y.count >= p.minSamples)
  {
    hide Finalize, SelectionScore, Sort, Enough, Wins;
    SelectionIsGreedy(p, items);
    PoolIs(p, items);
    var pool, picks := Sort(PoolOrder, Enough(p, items)), Finalize(p, items);
    assert [] + pool == pool;
    assert PicksBest(p, pool, pool, picks, i);
    PrecedesWins(p, pool, picks[..i], picks[i], x);
  }

  lemma PrecedesWins(p: Params, pool: seq<Item>, before: seq<Item>, x: Item, y: Item)
    requires Precedes(Selecting(p, pool, before), x, y)
    ensures Wins(SelectionScore(p, pool, before, x), x, SelectionScore(p, pool, before, y), y)
  {
    hide SelectionScore;
    LexMeans(x.key, y.key);
  }

  lemma SortedWins(p: Params, pool: seq<Item>, s: seq<Item>, i: nat, j: nat)
    requires Sorted(Static(p, pool), s) && i < j < |s|
    ensures Wins(StaticScore(p, pool, s[i]), s[i], StaticScore(p, pool, s[j]), s[j])
  {
    hide StaticScore;
    assert Precedes(Static(p, pool), s[i], s[j]);
    LexMeans(s[i].key, s[j].key);
  }

  lemma {:induction false} EnoughKeeps(p: Params, items: seq<Item>, x: Item)
    ensures multiset(Enough(p, items))[x] == if x.count < p.minSamples then 0 else multiset(items)[x]
  {
    if items != [] {
      var front, last := items[..|items| - 1], items[|items| - 1];
      EnoughKeeps(p, front, x);
      assert items == front + [last];
    }
  }

  /** The selection does not depend on the order in which the actions were collected. */
  lemma SelectionIsCanonical(p: Params, items: seq<Item>, other: seq<Item>)
    requires DistinctKeys(items) && DistinctKeys(other) && multiset(items) == multiset(other)
    ensures Finalize(p, items) == Finalize(p, other)
  {
    EnoughIsDistinct(p, items);
    EnoughIsDistinct(p, other);
    forall x
      ensures multiset(Enough(p, items))[x] == multiset(Enough(p, other))[x]
    {
      EnoughKeeps(p, items, x);
      EnoughKeeps(p, other, x);
    }
    assert multiset(Enough(p, items)) == multiset(Enough(p, other));
    SortIsCanonical(PoolOrder, Enough(p, items), Enough(p, other));
  }

  /** The pool falls in base score, ties by mean reward, then by samples, then by key. */
  lemma PoolFalls(p: Params, items: seq<Item>, i: nat, j: nat)
    requires DistinctKeys(items) && i < j < |Sort(PoolOrder, Enough(p, items))|
    ensures var x, y := Sort(PoolOrder, Enough(p, items))[i], Sort(PoolOrder, Enough(p, items))[j];
            && x.base >= y.base
            && (x.base == y.base ==> x.meanReward >= y.meanReward)
            && (x.base == y.base && x.meanReward == y.meanReward ==> x.count >= y.count)
            && (x.base == y.base && x.meanReward == y.meanReward && x.count == y.count ==> SmallerText(x.key, y.key))
  {
    EnoughIsDistinct(p, items);
    SortSorts(PoolOrder, Enough(p, items));
    var pool := Sort(PoolOrder, Enough(p, items));
    assert Precedes(PoolOrder, pool[i], pool[j]);
    LexMeans(pool[i].key, pool[j].key);
  }

  // ---- without a diversity weight -----------------------------------------------------------------------------------------------------

  lemma SameRanks(p: Params, pool: seq<Item>, actions: seq<Item>, x: Item)
    requires p.diversityWeight == 0.0
    ensures RankOf(Selecting(p, pool, actions), x) == RankOf(Static(p, pool), x)
  {
  }

  lemma {:induction false} SameSort(p: Params, pool: seq<Item>, actions: seq<Item>, s: seq<Item>)
    requires p.diversityWeight == 0.0
    ensures Sort(Selecting(p, pool, actions), s) == Sort(Static(p, pool), s)
  {
    if s != [] {
      SameSort(p, pool, actions, s[1..]);
      SameInsert(p, pool, actions, s[0], Sort(Static(p, pool), s[1..]));
    }
  }

  lemma {:induction false} SameInsert(p: Params, pool: seq<Item>, actions: seq<Item>, x: Item, s: seq<Item>)
    requires p.diversityWeight == 0.0
    ensures Insert(Selecting(p, pool, actions), x, s) == Insert(Static(p, pool), x, s)
  {
    SameRanks(p, pool, actions, x);
    if s != [] {
      SameRanks(p, pool, actions, s[0]);
      SameInsert(p, pool, actions, x, s[1..]);
    }
  }

  lemma SortOfSortedTail(o: Order, s: seq<Item>)
    requires DistinctKeys(s) && s != []
    ensures |Sort(o, s)| == |s| && DistinctKeys(Sort(o, s)[1..]) && Sort(o, Sort(o, s)[1..]) == Sort(o, s)[1..]
  {
    SortSorts(o, s);
    var rest := Sort(o, s)[1..];
    SortSorts(o, rest);
    SortKeeps(o, rest);
    SortedIsUnique(o, Sort(o, rest), rest);
  }

  lemma PrefixGrows(actions: seq<Item>, sorted: seq<Item>, m: nat)
    requires m < |sorted|
    ensures actions + [sorted[0]] + sorted[1..][..m] == actions + sorted[..m + 1]
  {
    assert sorted[..m + 1] == [sorted[0]] + sorted[1..][..m];
  }

  lemma GreedyTakesFirst(p: Params, pool: seq<Item>, actions: seq<Item>, remaining: seq<Item>, limit: nat)
    requires p.diversityWeight == 0.0 && remaining != [] && |actions| < limit && |Sort(Static(p, pool), remaining)| == |remaining|
    ensures var sorted := Sort(Static(p, pool), remaining);
            Greedy(p, pool, actions, remaining, limit) == Greedy(p, pool, actions + [sorted[0]], sorted[1..], limit)
  {
    SameSort(p, pool, actions, remaining);
  }

  function Smaller(a: nat, b: nat): nat { if a <= b then a else b }

  lemma {:induction false} GreedyIsPrefix(p: Params, pool: seq<Item>, actions: seq<Item>, remaining: seq<Item>, limit: nat)
    requires p.diversityWeight == 0.0 && DistinctKeys(remaining) && |actions| <= limit
    ensures |Sort(Static(p, pool), remaining)| == |remaining|
    ensures Greedy(p, pool, actions, remaining, limit)
            == actions + Sort(Static(p, pool), remaining)[..Smaller(|remaining|, limit - |actions|)]
    decreases limit - |actions|
  {
    if remaining == [] || |actions| == limit {
      SortSorts(Static(p, pool), remaining);
    } else {
      hide Sort, Greedy, DistinctKeys;
      var sorted := Sort(Static(p, pool), remaining);
      SortOfSortedTail(Static(p, pool), remaining);
      GreedyTakesFirst(p, pool, actions, remaining, limit);
      var m := Smaller(|remaining| - 1, limit - |actions| - 1);
      GreedyIsPrefix(p, pool, actions + [sorted[0]], sorted[1..], limit);
      assert Greedy(p, pool, actions, remaining, limit) == actions + [sorted[0]] + sorted[1..][..m];
      PrefixGrows(actions, sorted, m);
    }
  }

  /** With zero diversity weight the whole loop is one sort by the static score, and its prefix. */
  lemma NoDiversityIsOneSort(p: Params, items: seq<Item>)
    requires DistinctKeys(items) && p.diversityWeight == 0.0
    ensures var pool := Sort(PoolOrder, Enough(p, items));
            var sorted := Sort(Static(p, pool), pool);
            |sorted| == |pool| && Finalize(p, items) == sorted[..Smaller(|pool|, LimitOf(p))]
  {
    hide Sort, Greedy, DistinctKeys, Enough, Sorted;
    EnoughIsDistinct(p, items);
    SortSorts(PoolOrder, Enough(p, items));
    var pool := Sort(PoolOrder, Enough(p, items));
    GreedyIsPrefix(p, pool, [], pool, LimitOf(p));
  }

  /** Without diversity the list falls in static score, ties by base, reward and key, and no action left out beats one in it. */
  lemma NoDiversityFalls(p: Params, items: seq<Item>, i: nat, x: Item)
    requires DistinctKeys(items) && p.diversityWeight == 0.0 && i < |Finalize(p, items)|
    requires x in items && x.count >= p.minSamples && x !in Finalize(p, items)[..i] && x != Finalize(p, items)[i]
    ensures var pool := Sort(PoolOrder, Enough(p, items));
            var pick := Finalize(p, items)[i];
            Wins(StaticScore(p, pool, pick), pick, StaticScore(p, pool, x), x)
  {
    hide Finalize, Sort, Enough, DistinctKeys, Sorted, Wins;
    NoDiversityIsOneSort(p, items);
    PoolIs(p, items);
    var pool := Sort(PoolOrder, Enough(p, items));
    var sorted := Sort(Static(p, pool), pool);
    assert [] + pool == pool;
    SortSorts(Static(p, pool), pool);
    MemberOfSort(Static(p, pool), pool, x);
    var j :| 0 <= j < |sorted| && sorted[j] == x;
    var picks := Finalize(p, items);
    assert picks[i] == sorted[i];
    NotBefore(picks, sorted, i, j);
    SortedWins(p, pool, sorted, i, j);
  }

  lemma PrefixHolds(picks: seq<Item>, sorted: seq<Item>, i: nat, j: nat)
    requires j < i < |picks| && picks <= sorted
    ensures sorted[j] in picks[..i]
  {
    assert sorted[j] == picks[..i][j];
  }

  lemma NotBefore(picks: seq<Item>, sorted: seq<Item>, i: nat, j: nat)
    requires i < |picks| && j < |sorted| && picks <= sorted && sorted[j] !in picks[..i] && sorted[j] != picks[i]
    ensures i < j
  {
    if j < i { PrefixHolds(picks, sorted, i, j); }
  }

  /** How many: all that have enough samples, or as many as are asked for, and at least one is always asked for. */
  lemma SelectionCount(p: Params, items: seq<Item>)
    requires DistinctKeys(items)
    ensures var n, m := |Finalize(p, items)|, |Enough(p, items)|;
            && n <= m && (n < m ==> n == if p.limit <= 1 then 1 else p.limit) && (p.limit >= 1 ==> n <= p.limit) && (m >= 1 ==> n >= 1)
  {
    SelectionSize(p, items);
    EnoughIsDistinct(p, items);
    SortSorts(PoolOrder, Enough(p, items));
  }
}
