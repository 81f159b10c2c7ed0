/** `collectRegionBlocks`: the single-entry region carved out behind a guard. */
module Region {
  import opened Prelude
  import opened Cfg

  /** `x` is reached from `start` over `n` edges without ever touching `join`. */
  ghost predicate ReachesIn(f: Function, start: BlockId, join: BlockId, x: BlockId, n: nat)
    decreases n
  {
    && x != join
    && if n == 0 then x == start
       else exists y: BlockId :: ReachesIn(f, start, join, y, n - 1) && IsEdge(f, y, x)
  }

  /** The last edge of a walk. */
  lemma LastEdge(f: Function, start: BlockId, join: BlockId, x: BlockId, n: nat) returns (y: BlockId)
    requires ReachesIn(f, start, join, x, n)
    ensures x != join && (n == 0 ==> x == start)
    ensures n > 0 ==> ReachesIn(f, start, join, y, n - 1) && IsEdge(f, y, x)
  {
    y := 0;
    if n > 0 { y :| ReachesIn(f, start, join, y, n - 1) && IsEdge(f, y, x); }
  }

  ghost predicate Reaches(f: Function, start: BlockId, join: BlockId, x: BlockId) {
    exists n: nat :: ReachesIn(f, start, join, x, n)
  }

  /** The blocks reachable from `start` without passing `join`. */
  ghost function Blocks(f: Function, start: BlockId, join: BlockId): set<BlockId> {
    set b: BlockId | b < |f.blocks| && Reaches(f, start, join, b)
  }

  predicate PredsInside(f: Function, b: BlockId, start: BlockId, entryPred: BlockId, region: set<BlockId>) {
    forall p: nat | p < |f.blocks| && IsEdge(f, p, b) :: p in region || (b == start && p == entryPred)
  }

  predicate SuccsInside(f: Function, b: BlockId, join: BlockId, region: set<BlockId>)
    requires b < |f.blocks|
  {
    forall s | s in Successors(f.blocks[b].term) :: s == join || s in region
  }

  predicate Closed(f: Function, b: BlockId, start: BlockId, join: BlockId, entryPred: BlockId, region: set<BlockId>)
    requires b < |f.blocks|
  {
    PredsInside(f, b, start, entryPred, region) && SuccsInside(f, b, join, region)
  }

  /** Every region block below `n` is closed. */
  predicate AllClosed(f: Function, start: BlockId, join: BlockId, entryPred: BlockId, region: set<BlockId>, n: nat)
    requires n <= |f.blocks|
  {
    n == 0 || (AllClosed(f, start, join, entryPred, region, n - 1)
               && (n - 1 in region ==> Closed(f, n - 1, start, join, entryPred, region)))
  }

  /** Some region block below `n` branches to the join. */
  predicate HasExit(f: Function, join: BlockId, region: set<BlockId>, n: nat) {
    n > 0 && (HasExit(f, join, region, n - 1) || (n - 1 in region && IsEdge(f, n - 1, join)))
  }

  lemma {:induction false} AllClosedMeans(f: Function, start: BlockId, join: BlockId, entryPred: BlockId, region: set<BlockId>, n: nat)
    requires n <= |f.blocks|
    ensures AllClosed(f, start, join, entryPred, region, n)
       <==> forall b: BlockId | b < n && b in region :: Closed(f, b, start, join, entryPred, region)
  {
    if n > 0 {
      AllClosedMeans(f, start, join, entryPred, region, n - 1);
    }
  }

  lemma {:induction false} HasExitMeans(f: Function, join: BlockId, region: set<BlockId>, n: nat)
    ensures HasExit(f, join, region, n) <==> exists b: BlockId :: b < n && b in region && IsEdge(f, b, join)
  {
    hide IsEdge;
    if n > 0 {
      HasExitMeans(f, join, region, n - 1);
    }
  }

  /** When the region is accepted: non-empty, entered only over the guard edge, with some edge into the join. */
  ghost predicate Accepted(f: Function, start: BlockId, join: BlockId, entryPred: BlockId) {
    var region := Blocks(f, start, join);
    && start in region
    && AllClosed(f, start, join, entryPred, region, |f.blocks|)
    && HasExit(f, join, region, |f.blocks|)
  }

  lemma AcceptedMeans(f: Function, start: BlockId, join: BlockId, entryPred: BlockId)
    requires WellFormed(f)
    ensures Accepted(f, start, join, entryPred)
       <==> && start in Blocks(f, start, join)
            && (forall b | b in Blocks(f, start, join) :: PredsInside(f, b, start, entryPred, Blocks(f, start, join)))
            && (exists b :: b in Blocks(f, start, join) && IsEdge(f, b, join))
  {
    var region := Blocks(f, start, join);
    AllClosedMeans(f, start, join, entryPred, region, |f.blocks|);
    HasExitMeans(f, join, region, |f.blocks|);
    forall b | b in region ensures SuccsInside(f, b, join, region) {
      SuccessorsStayInside(f, start, join, b);
    }
  }

  lemma {:induction false} AllClosedShrinks(f: Function, start: BlockId, join: BlockId, entryPred: BlockId, region: set<BlockId>, k: nat, n: nat)
    requires k <= n <= |f.blocks| && AllClosed(f, start, join, entryPred, region, n)
    ensures AllClosed(f, start, join, entryPred, region, k)
    decreases n
  {
    if k < n {
      AllClosedShrinks(f, start, join, entryPred, region, k, n - 1);
    }
  }

  /** Anything closed under non-join edges and holding the start holds everything reachable. */
  lemma {:induction false} ClosedHoldsReachable(f: Function, start: BlockId, join: BlockId, x: BlockId, n: nat, s: set<BlockId>)
    requires start in s || start == join
    requires forall a: BlockId, b: BlockId :: a in s && IsEdge(f, a, b) && b != join ==> b in s
    requires ReachesIn(f, start, join, x, n)
    ensures x in s
    decreases n
  {
    hide ReachesIn;
    var y := LastEdge(f, start, join, x, n);
    if n > 0 {
      ClosedHoldsReachable(f, start, join, y, n - 1, s);
    }
  }

  lemma ReachesStep(f: Function, start: BlockId, join: BlockId, a: BlockId, b: BlockId)
    requires Reaches(f, start, join, a) && IsEdge(f, a, b) && b != join
    ensures Reaches(f, start, join, b)
  {
    var n: nat :| ReachesIn(f, start, join, a, n);
    assert ReachesIn(f, start, join, b, n + 1);
  }

  /** The worklist: everything reachable from `start` that does not pass `join`. */
  method Flood(f: Function, start: BlockId, join: BlockId) returns (region: set<BlockId>)
    requires WellFormed(f) && start < |f.blocks|
    ensures region == Blocks(f, start, join)
  {
    var stack := [start];
    region := {};
    assert start != join ==> ReachesIn(f, start, join, start, 0);
    while stack != []
      invariant forall b: BlockId | b in stack :: b < |f.blocks| && (b == join || Reaches(f, start, join, b))
      invariant forall b: BlockId | b in region :: b < |f.blocks| && b != join && Reaches(f, start, join, b)
      invariant start == join || start in region || start in stack
      invariant forall a: BlockId, b: BlockId :: a in region && IsEdge(f, a, b) && b != join ==> b in region || b in stack
      decreases Below(|f.blocks|) - region, |stack|
    {
      var bb := stack[|stack| - 1];
      assert bb in stack;
      ghost var before := stack;
      stack := stack[..|stack| - 1];
      assert forall b :: b in before ==> b == bb || b in stack;
      if bb == join || bb in region { continue; }
      assert bb in Below(|f.blocks|);
      region := region + {bb};
      forall b | b in Successors(f.blocks[bb].term) && b != join
        ensures Reaches(f, start, join, b)
      {
        assert IsEdge(f, bb, b);
        ReachesStep(f, start, join, bb, b);
      }
      assert forall b :: b in Successors(f.blocks[bb].term) ==> IsEdge(f, bb, b);
      stack := stack + Successors(f.blocks[bb].term);
    }
    forall b: BlockId | Reaches(f, start, join, b)
      ensures b in region
    {
      var n: nat :| ReachesIn(f, start, join, b, n);
      ClosedHoldsReachable(f, start, join, b, n, region);
    }
  }

  /** The edge tests on a flooded region, block by block in layout order, and the listing they build. */
  method CheckRegion(f: Function, start: BlockId, join: BlockId, entryPred: BlockId, region: set<BlockId>)
    returns (ok: bool, order: seq<BlockId>)
    requires forall b | b in region :: b < |f.blocks|
    ensures ok <==> AllClosed(f, start, join, entryPred, region, |f.blocks|) && HasExit(f, join, region, |f.blocks|)
    ensures ok ==> order == LayoutOrder(|f.blocks|, region)
  {
    hide Closed;
    order := [];
    var hasExit := false;
    for b := 0 to |f.blocks|
      invariant order == LayoutOrder(b, region)
      invariant AllClosed(f, start, join, entryPred, region, b)
      invariant hasExit <==> HasExit(f, join, region, b)
    {
      if b in region {
        if !Closed(f, b, start, join, entryPred, region) {
          if AllClosed(f, start, join, entryPred, region, |f.blocks|) {
            AllClosedShrinks(f, start, join, entryPred, region, b + 1, |f.blocks|);
          }
          return false, [];
        }
        if IsEdge(f, b, join) {
          hasExit := true;
        }
        order := order + [b];
      }
    }
    ok := hasExit;
  }

  /**
   The region behind a guard whose active successor is `start`, whose other successor is `join` and whose header is
   `entryPred`. It is accepted exactly when it is closed, and it is listed in layout order.
   */
  method CollectRegionBlocks(f: Function, start: BlockId, join: BlockId, entryPred: BlockId)
    returns (ok: bool, order: seq<BlockId>)
    requires WellFormed(f) && start < |f.blocks|
    ensures ok <==> Accepted(f, start, join, entryPred)
    ensures ok ==> order == LayoutOrder(|f.blocks|, Blocks(f, start, join))
  {
    var region := Flood(f, start, join);
    StartInUnlessEmpty(f, start, join);
    if region == {} {
      return false, [];
    }
    ok, order := CheckRegion(f, start, join, entryPred, region);
  }

  lemma StartInUnlessEmpty(f: Function, start: BlockId, join: BlockId)
    requires start < |f.blocks|
    ensures Blocks(f, start, join) != {} ==> start in Blocks(f, start, join)
  {
    if b :| b in Blocks(f, start, join) {
      var n: nat :| ReachesIn(f, start, join, b, n);
      StartIsReached(f, start, join, b, n);
      assert ReachesIn(f, start, join, start, 0);
    }
  }

  lemma {:induction false} StartIsReached(f: Function, start: BlockId, join: BlockId, x: BlockId, n: nat)
    requires ReachesIn(f, start, join, x, n)
    ensures start != join
    decreases n
  {
    hide ReachesIn;
    var y := LastEdge(f, start, join, x, n);
    if n > 0 { StartIsReached(f, start, join, y, n - 1); }
  }

  /** The successor test of the source never fails: the flood already took every successor but the join. */
  lemma SuccessorsStayInside(f: Function, start: BlockId, join: BlockId, b: BlockId)
    requires WellFormed(f) && b in Blocks(f, start, join)
    ensures SuccsInside(f, b, join, Blocks(f, start, join))
  {
    forall s | s in Successors(f.blocks[b].term) && s != join
      ensures s in Blocks(f, start, join)
    {
      assert IsEdge(f, b, s);
      ReachesStep(f, start, join, b, s);
    }
  }

  // ---- region soundness --------------------------------------------------------------------------------------

  ghost predicate IsPath(f: Function, p: seq<BlockId>) {
    forall i :: 0 <= i < |p| - 1 ==> IsEdge(f, p[i], p[i + 1])
  }

  /** A path that starts in the region leaves it, if at all, into the join. */
  lemma {:induction false} FirstOutsideIsJoin(f: Function, start: BlockId, join: BlockId, p: seq<BlockId>, k: nat)
    requires WellFormed(f) && IsPath(f, p) && k < |p|
    requires p[0] in Blocks(f, start, join)
    requires p[k] !in Blocks(f, start, join)
    requires forall i :: 0 <= i < k ==> p[i] in Blocks(f, start, join)
    ensures p[k] == join
  {
    assert IsEdge(f, p[k - 1], p[k]);
    SuccessorsStayInside(f, start, join, p[k - 1]);
  }

  /** An accepted region is entered only by the edge from the guard's header to the region's start. */
  lemma {:induction false} OnlyEntryIsGuardEdge(f: Function, start: BlockId, join: BlockId, entryPred: BlockId, p: seq<BlockId>, k: nat)
    requires Accepted(f, start, join, entryPred) && IsPath(f, p) && k + 1 < |p|
    requires p[k] !in Blocks(f, start, join) && p[k + 1] in Blocks(f, start, join)
    ensures p[k] == entryPred && p[k + 1] == start
  {
    assert IsEdge(f, p[k], p[k + 1]);
    AllClosedMeans(f, start, join, entryPred, Blocks(f, start, join), |f.blocks|);
    assert PredsInside(f, p[k + 1], start, entryPred, Blocks(f, start, join));
  }

  /**
   Executions entering an accepted region arrive at the join with every block before it inside the region, return or
   trap inside, or never come out: the join is the first block outside that is ever entered.
   */
  lemma {:induction false} RegionIsLeftThroughJoin(
      f: Function, hs: Helpers, start: BlockId, join: BlockId, b: BlockId, other: BlockId, regs: Regs, m: Mem, n: nat)
    requires WellFormed(f) && b in Blocks(f, start, join)
    requires other !in Blocks(f, start, join) && other != join
    ensures match RunTo(f, hs, b, other, regs, m, n)
            case At(r, m', left) =>
              // whoever gets to another outside block has been at the join strictly before
              RunTo(f, hs, b, join, regs, m, n).At? && RunTo(f, hs, b, join, regs, m, n).left > left
            case _ => true
    decreases n
  {
    hide ExecAll, Choose, Successors;
    if n > 0 {
      match ExecBlock(hs, f.blocks[b], regs, m) {
        case Moves(Goto(c), r, m') =>
          ChosenIsSuccessor(f.blocks[b].term, r);
          SuccessorsStayInside(f, start, join, b);
          if c == join {
            RunToSpends(f, hs, c, other, r, m', n - 1);
          } else {
            RegionIsLeftThroughJoin(f, hs, start, join, c, other, r, m', n - 1);
          }
        case _ =>
      }
    }
  }

  lemma {:induction false} RunToSpends(f: Function, hs: Helpers, b: BlockId, stop: BlockId, regs: Regs, m: Mem, n: nat)
    requires b != stop
    ensures match RunTo(f, hs, b, stop, regs, m, n)
            case At(_, _, left) => left < n
            case _ => true
    decreases n
  {
    if n > 0 && b < |f.blocks| {
      match ExecBlock(hs, f.blocks[b], regs, m) {
        case Moves(Goto(c), r, m') => if c != stop { RunToSpends(f, hs, c, stop, r, m', n - 1); }
        case _ =>
      }
    }
  }

  lemma {:induction false} PickedCaseIsTarget(cases: seq<(nat, BlockId)>, d: BlockId, v: nat)
    ensures PickCase(cases, d, v) == d || PickCase(cases, d, v) in CaseTargets(cases)
  {
    if cases != [] {
      PickedCaseIsTarget(cases[1..], d, v);
    }
  }

  /** A switch goes to the target of its first case with the value, and to its default when there is none. */
  lemma {:induction false} PickedCaseMatches(cases: seq<(nat, BlockId)>, d: BlockId, v: nat)
    ensures (forall i | 0 <= i < |cases| :: cases[i].0 != v) ==> PickCase(cases, d, v) == d
    ensures forall i | 0 <= i < |cases| && cases[i].0 == v && (forall j | 0 <= j < i :: cases[j].0 != v) ::
              PickCase(cases, d, v) == cases[i].1
  {
    if cases != [] {
      PickedCaseMatches(cases[1..], d, v);
      forall i | 0 <= i < |cases| && cases[i].0 == v && (forall j | 0 <= j < i :: cases[j].0 != v)
        ensures PickCase(cases, d, v) == cases[i].1
      {
        if i > 0 {
          assert cases[0].0 != v && cases[1..][i - 1] == cases[i];
          assert forall j | 0 <= j < i - 1 :: cases[1..][j] == cases[j + 1];
        }
      }
    }
  }

  /** Control moves along CFG edges only. */
  lemma ChosenIsSuccessor(t: Terminator, regs: Regs)
    ensures Choose(t, regs).Goto? ==> Choose(t, regs).b in Successors(t)
  {
    match t {
      case Switch(v, cases, d) =>
        match Eval(v, regs) {
          case Some(Int(n)) => PickedCaseIsTarget(cases, d, n);
          case _ =>
        }
      case _ =>
    }
  }
}
