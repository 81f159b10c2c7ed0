/** Where the regions of a recognised chain lie relative to one another. */
module ChainLayout {
  import opened Cfg
  import Region

  /** Header `h` branches to `start` and `join`, and the region of `start` before `join` was accepted. */
  ghost predicate Carved(f: Function, h: BlockId, start: BlockId, join: BlockId) {
    && IsEdge(f, h, start) && IsEdge(f, h, join)
    && Region.Accepted(f, start, join, h)
  }

  /** Headers in chain order, starting at the entry block; `starts[k]` opens the region of header `k`. */
  ghost predicate Chained(f: Function, headers: seq<BlockId>, starts: seq<BlockId>) {
    && |headers| == |starts| + 1
    && headers[0] == 0
    && (forall j, k :: 0 <= j < k < |headers| ==> headers[j] != headers[k])
    && (forall k :: 0 <= k < |starts| ==> Carved(f, headers[k], starts[k], headers[k + 1]))
  }

  ghost function RegionAt(f: Function, headers: seq<BlockId>, starts: seq<BlockId>, k: nat): set<BlockId>
    requires k < |starts| && k + 1 < |headers|
  {
    Region.Blocks(f, starts[k], headers[k + 1])
  }

  /** Every predecessor of a carved block is in the region, except the header before its start. */
  lemma CarvedPred(f: Function, h: BlockId, start: BlockId, join: BlockId, p: BlockId, b: BlockId)
    requires WellFormed(f) && Carved(f, h, start, join)
    requires IsEdge(f, p, b) && b in Region.Blocks(f, start, join)
    ensures p in Region.Blocks(f, start, join) || (b == start && p == h)
  {
    Region.AcceptedMeans(f, start, join, h);
    assert Region.PredsInside(f, b, start, h, Region.Blocks(f, start, join));
  }

  lemma EntryNotReached(f: Function, h: BlockId, start: BlockId, join: BlockId)
    requires WellFormed(f) && IsEdge(f, h, start)
    ensures 0 !in Region.Blocks(f, start, join)
  {
    forall n: nat ensures !Region.ReachesIn(f, start, join, 0, n) {
      assert n == 0 ==> start != 0;
    }
  }

  /** An edge from outside a carved region, other than its guard edge, leads outside. */
  lemma EdgeStaysOutside(f: Function, h: BlockId, start: BlockId, join: BlockId, p: BlockId, b: BlockId)
    requires WellFormed(f) && Carved(f, h, start, join) && IsEdge(f, p, b)
    requires p !in Region.Blocks(f, start, join) && p != h
    ensures b !in Region.Blocks(f, start, join)
  {
    if b in Region.Blocks(f, start, join) { CarvedPred(f, h, start, join, p, b); }
  }

  lemma EndsAreOutside(f: Function, h: BlockId, start: BlockId, join: BlockId)
    requires WellFormed(f) && Carved(f, h, start, join)
    ensures 0 !in Region.Blocks(f, start, join) && join !in Region.Blocks(f, start, join)
  {
    EntryNotReached(f, h, start, join);
  }

  /** No header of the chain lies in any region. */
  lemma {:induction false} HeaderOutside(f: Function, headers: seq<BlockId>, starts: seq<BlockId>, j: nat, k: nat)
    requires WellFormed(f) && Chained(f, headers, starts) && k < |starts| && j < |headers|
    ensures headers[j] !in RegionAt(f, headers, starts, k)
    decreases j
  {
    hide Region.Blocks, WellFormed;
    assert Carved(f, headers[k], starts[k], headers[k + 1]);
    EndsAreOutside(f, headers[k], starts[k], headers[k + 1]);
    if j != k + 1 && j > 0 {
      assert Carved(f, headers[j - 1], starts[j - 1], headers[j]);
      HeaderOutside(f, headers, starts, j - 1, k);
      EdgeStaysOutside(f, headers[k], starts[k], headers[k + 1], headers[j - 1], headers[j]);
    }
  }

  /** A set entered only past `door` is never entered by paths that keep away from `door`. */
  lemma {:induction false} NeverEnters(
      f: Function, start: BlockId, join: BlockId, x: BlockId, n: nat, door: BlockId, closed: set<BlockId>)
    requires forall p: BlockId, b: BlockId :: IsEdge(f, p, b) && b in closed && p != door ==> p in closed
    requires start !in closed && forall k: nat :: !Region.ReachesIn(f, start, join, door, k)
    requires Region.ReachesIn(f, start, join, x, n)
    ensures x !in closed
    decreases n
  {
    hide Region.ReachesIn;
    var y := Region.LastEdge(f, start, join, x, n);
    if n > 0 { NeverEnters(f, start, join, y, n - 1, door, closed); }
  }

  /** Two regions of the chain share no block. */
  lemma RegionsDisjoint(f: Function, headers: seq<BlockId>, starts: seq<BlockId>, i: nat, k: nat)
    requires WellFormed(f) && Chained(f, headers, starts) && i < |starts| && k < |starts| && i != k
    ensures RegionAt(f, headers, starts, i) !! RegionAt(f, headers, starts, k)
  {
    assert Carved(f, headers[i], starts[i], headers[i + 1]) && Carved(f, headers[k], starts[k], headers[k + 1]);
    HeaderOutside(f, headers, starts, i, k);
    HeaderOutside(f, headers, starts, k, i);
    var closed := RegionAt(f, headers, starts, k);
    forall p: BlockId, b: BlockId | IsEdge(f, p, b) && b in closed && p != headers[k]
      ensures p in closed
    {
      CarvedPred(f, headers[k], starts[k], headers[k + 1], p, b);
    }
    forall x | x in RegionAt(f, headers, starts, i) ensures x !in closed {
      var n: nat :| Region.ReachesIn(f, starts[i], headers[i + 1], x, n);
      NeverEnters(f, starts[i], headers[i + 1], x, n, headers[k], closed);
    }
  }
}
