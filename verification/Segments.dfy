/** `extractGuardedSegments`: reading `___eval_nba` as an ordered chain of guarded segments. */
module Segments {
  import opened Prelude
  import opened Cfg
  import Region

  // ---- the trigger test ----------------------------------------------------------------------------------------

  /** The instruction that assigns `r`, as an LLVM operand would lead to it. */
  function FindDef(blocks: seq<Block>, r: Reg): Option<Instr> {
    if blocks == [] then None
    else match FindIn(blocks[0].instrs, r)
         case Some(i) => Some(i)
         case None => FindDef(blocks[1..], r)
  }

  function FindIn(instrs: seq<Instr>, r: Reg): Option<Instr> {
    if instrs == [] then None
    else if Dst(instrs[0]) == Some(r) then Some(instrs[0])
    else FindIn(instrs[1..], r)
  }

  function DefOf(f: Function, op: Operand): Option<Instr> {
    if op.Local? then FindDef(f.blocks, op.r) else None
  }

  /** The four instructions behind a recognised branch condition. */
  datatype TestChain = TestChain(icmp: Instr, masked: Instr, load: Instr, gep: Instr, mask: nat)

  predicate ValidTest(c: TestChain) {
    && c.icmp.Icmp? && c.masked.Bin? && c.load.Load? && c.gep.Gep?
    && c.gep.index.Const?
  }

  datatype TriggerMaskTest = TriggerMaskTest(triggerPtr: Instr, width: nat, mask: nat, pred: Pred)

  function MaskedOperand(icmp: Instr): Option<Operand>
    requires icmp.Icmp?
  {
    if icmp.a == Const(0) then Some(icmp.b)
    else if icmp.b == Const(0) then Some(icmp.a)
    else None
  }

  /** The mask constant of an `and`, and its other operand: the first operand counts as the mask when it is constant. */
  function SplitMask(masked: Instr): (r: (Operand, Operand))
    requires masked.Bin?
  {
    if masked.a.Const? then (masked.a, masked.b) else (masked.b, masked.a)
  }

  /** `cond` is `(load(gep(arg, const)) & mask) ==/!= 0` in some operand order. */
  function MatchTest(f: Function, cond: Operand): (r: Option<TestChain>)
    ensures r.Some? ==> ValidTest(r.value)
  {
    match DefOf(f, cond)
    case Some(Icmp(d, p, a, b)) =>
      var icmp := Icmp(d, p, a, b);
      if p != Eq && p != Ne then None
      else
        (match MaskedOperand(icmp)
         case None => None
         case Some(x) =>
           match DefOf(f, x)
           case Some(Bin(d1, And, a1, b1, w1)) =>
             var masked := Bin(d1, And, a1, b1, w1);
             var (m, l) := SplitMask(masked);
             if !m.Const? then None
             else
               (match DefOf(f, l)
                case Some(Load(d2, ptr, w)) =>
                  (match DefOf(f, ptr)
                   case Some(Gep(d3, base, index)) =>
                     if index.Const? && base.Arg?
                     then Some(TestChain(icmp, masked, Load(d2, ptr, w), Gep(d3, base, index), m.n))
                     else None
                   case _ => None)
                case _ => None)
           case _ => None)
    case _ => None
  }

  function ParseTriggerMaskTest(f: Function, cond: Operand): Option<TriggerMaskTest> {
    match MatchTest(f, cond)
    case None => None
    case Some(c) => Some(TriggerMaskTest(c.gep, c.load.width, c.mask, c.icmp.pred))
  }

  // ---- what a region may use -----------------------------------------------------------------------------------

  function DefsOf(blk: Block): set<Reg> {
    set i | 0 <= i < |blk.instrs| && Dst(blk.instrs[i]).Some? :: Dst(blk.instrs[i]).value
  }

  predicate InRange(f: Function, region: seq<BlockId>) {
    forall i | 0 <= i < |region| :: region[i] < |f.blocks|
  }

  function RegionDefs(f: Function, region: seq<BlockId>): set<Reg>
    requires InRange(f, region)
  {
    if region == [] then {} else DefsOf(f.blocks[region[0]]) + RegionDefs(f, region[1..])
  }

  predicate OperandInside(op: Operand, defs: set<Reg>) {
    match op
    case Const(_) => true
    case Arg(i) => i == 0
    case Local(r) => r in defs
  }

  predicate InstrInside(i: Instr, defs: set<Reg>) {
    forall op | op in Operands(i) :: OperandInside(op, defs)
  }

  predicate BlockInside(blk: Block, defs: set<Reg>) {
    && (forall i | 0 <= i < |blk.instrs| :: InstrInside(blk.instrs[i], defs))
    && (forall op | op in TermOperands(blk.term) :: OperandInside(op, defs))
  }

  predicate UsesOnlyRootArg(f: Function, region: seq<BlockId>)
    requires InRange(f, region)
  {
    forall i | 0 <= i < |region| :: BlockInside(f.blocks[region[i]], RegionDefs(f, region))
  }

  /** `regionUsesOnlyRootArg`: gather the region's own definitions, then test every operand against them. */
  method RegionUsesOnlyRootArg(f: Function, region: seq<BlockId>) returns (ok: bool)
    requires InRange(f, region)
    ensures ok <==> UsesOnlyRootArg(f, region)
  {
    var insts: set<Reg> := {};
    var i := 0;
    while i < |region|
      invariant i <= |region|
      invariant insts + RegionDefs(f, region[i..]) == RegionDefs(f, region)
    {
      insts := insts + DefsOf(f.blocks[region[i]]);
      i := i + 1;
    }
    for j := 0 to |region|
      invariant forall k | 0 <= k < j :: BlockInside(f.blocks[region[k]], insts)
    {
      if !BlockInside(f.blocks[region[j]], insts) {
        return false;
      }
    }
    ok := true;
  }

  lemma {:induction false} RegionDefsHolds(f: Function, region: seq<BlockId>, r: Reg)
    requires InRange(f, region)
    ensures r in RegionDefs(f, region) <==> exists b: BlockId, i: nat :: b in region && Defines(f, b, i, r)
  {
    if region != [] {
      RegionDefsHolds(f, region[1..], r);
      if b: BlockId, i: nat :| b in region && Defines(f, b, i, r) {
        assert b == region[0] || b in region[1..];
      }
      if r in DefsOf(f.blocks[region[0]]) {
        var i :| 0 <= i < |f.blocks[region[0]].instrs| && Dst(f.blocks[region[0]].instrs[i]) == Some(r);
        assert Defines(f, region[0], i, r);
      }
    }
  }

  // ---- matching one segment ------------------------------------------------------------------------------------

  datatype Segment = Segment(
    guard: TriggerMaskTest, region: seq<BlockId>, callee: Option<FuncName>, join: BlockId, executeOnTrue: bool)

  /** `matchSingleCallBlock`: nothing but one call of a defined function, then a jump to `next`. */
  function SingleCall(blk: Block, defined: set<FuncName>, next: BlockId): Option<FuncName> {
    if blk.term == Br(next) && |blk.instrs| == 1 && blk.instrs[0].Call? && blk.instrs[0].callee in defined
    then Some(blk.instrs[0].callee)
    else None
  }

  datatype Matched = Matched(region: seq<BlockId>, callee: Option<FuncName>)

  function CalleeOf(f: Function, defined: set<FuncName>, active: BlockId, join: BlockId, region: seq<BlockId>): Option<FuncName>
    requires active < |f.blocks|
  {
    if |region| == 1 then SingleCall(f.blocks[active], defined, join) else None
  }

  ghost function RegionOf(f: Function, active: BlockId, join: BlockId): (r: seq<BlockId>)
    ensures InRange(f, r)
    ensures forall b :: b in r <==> b in Region.Blocks(f, active, join)
    ensures forall i, j :: 0 <= i < j < |r| ==> r[i] < r[j]
  {
    LayoutOrderIsSortedListing(|f.blocks|, Region.Blocks(f, active, join));
    var r := LayoutOrder(|f.blocks|, Region.Blocks(f, active, join));
    assert forall i | 0 <= i < |r| :: r[i] in r;
    r
  }

  ghost predicate Matches(f: Function, active: BlockId, join: BlockId, pred: BlockId) {
    Region.Accepted(f, active, join, pred) && UsesOnlyRootArg(f, RegionOf(f, active, join))
  }

  method MatchGuardedRegion(f: Function, defined: set<FuncName>, active: BlockId, join: BlockId, pred: BlockId)
    returns (r: Option<Matched>)
    requires WellFormed(f) && active < |f.blocks|
    ensures r.Some? <==> Matches(f, active, join, pred)
    ensures r.Some? ==> r.value.region == RegionOf(f, active, join)
    ensures r.Some? ==> r.value.callee == CalleeOf(f, defined, active, join, r.value.region)
  {
    var ok, order := Region.CollectRegionBlocks(f, active, join, pred);
    if !ok { return None; }
    assert order == RegionOf(f, active, join);
    var rootOnly := RegionUsesOnlyRootArg(f, order);
    if !rootOnly { return None; }
    return Some(Matched(order, CalleeOf(f, defined, active, join, order)));
  }

  // ---- the chain -----------------------------------------------------------------------------------------------

  predicate TrivialReturn(blk: Block) {
    blk.term == Ret && blk.instrs == []
  }

  /** The segment headed by block `cur`: the true side is tried first, then the false side. */
  ghost function SegmentAt(f: Function, defined: set<FuncName>, cur: BlockId): Option<Segment>
    requires WellFormed(f)
  {
    if cur >= |f.blocks| || !f.blocks[cur].term.CondBr? then None
    else
      match ParseTriggerMaskTest(f, f.blocks[cur].term.cond)
      case None => None
      case Some(g) =>
        var t := f.blocks[cur].term.ifTrue;
        var e := f.blocks[cur].term.ifFalse;
        BranchTargetsExist(f, cur);
        if Matches(f, t, e, cur) then
          Some(Segment(g, RegionOf(f, t, e), CalleeOf(f, defined, t, e, RegionOf(f, t, e)), e, true))
        else if Matches(f, e, t, cur) then
          Some(Segment(g, RegionOf(f, e, t), CalleeOf(f, defined, e, t, RegionOf(f, e, t)), t, false))
        else None
  }

  lemma BranchTargetsExist(f: Function, cur: BlockId)
    requires WellFormed(f) && cur < |f.blocks| && f.blocks[cur].term.CondBr?
    ensures f.blocks[cur].term.ifTrue < |f.blocks| && f.blocks[cur].term.ifFalse < |f.blocks|
    ensures IsEdge(f, cur, f.blocks[cur].term.ifTrue) && IsEdge(f, cur, f.blocks[cur].term.ifFalse)
  {
    assert IsEdge(f, cur, f.blocks[cur].term.ifTrue);
    assert IsEdge(f, cur, f.blocks[cur].term.ifFalse);
  }

  /** The segments from header `cur` on, given the headers already passed; None when the shape is not recognised. */
  ghost function ExtractFrom(f: Function, defined: set<FuncName>, cur: BlockId, seen: set<BlockId>): Option<seq<Segment>>
    requires WellFormed(f) && cur < |f.blocks|
    decreases Below(|f.blocks|) - seen
  {
    if cur in seen then None
    else if TrivialReturn(f.blocks[cur]) then Some([])
    else
      match SegmentAt(f, defined, cur)
      case None => None
      case Some(s) =>
        BranchTargetsExist(f, cur);
        assert cur in Below(|f.blocks|);
        match ExtractFrom(f, defined, s.join, seen + {cur})
        case None => None
        case Some(rest) => Some([s] + rest)
  }

  /** The segments of a recognised function; a function without any segment is not accepted. */
  ghost function Extract(f: Function, defined: set<FuncName>): Option<seq<Segment>>
    requires WellFormed(f)
  {
    match ExtractFrom(f, defined, 0, {})
    case Some(s) => if s == [] then None else Some(s)
    case None => None
  }

  function Prepend(before: seq<Segment>, rest: Option<seq<Segment>>): Option<seq<Segment>> {
    match rest
    case None => None
    case Some(r) => Some(before + r)
  }

  method ExtractGuardedSegments(f: Function, defined: set<FuncName>) returns (r: Option<seq<Segment>>)
    requires WellFormed(f)
    ensures r == Extract(f, defined)
  {
    var cur: BlockId := 0;
    var out: seq<Segment> := [];
    var seen: set<BlockId> := {};
    assert Prepend([], ExtractFrom(f, defined, 0, {})) == ExtractFrom(f, defined, 0, {}) by {
      if ExtractFrom(f, defined, 0, {}).Some? {
        assert [] + ExtractFrom(f, defined, 0, {}).value == ExtractFrom(f, defined, 0, {}).value;
      }
    }
    while true
      invariant cur < |f.blocks|
      invariant ExtractFrom(f, defined, 0, {}) == Prepend(out, ExtractFrom(f, defined, cur, seen))
      decreases Below(|f.blocks|) - seen
    {
      if cur in seen { return None; }
      assert cur in Below(|f.blocks|);
      ghost var seenBefore := seen;
      seen := seen + {cur};
      if TrivialReturn(f.blocks[cur]) {
        assert out + [] == out;
        return if out != [] then Some(out) else None;
      }
      var seg := MatchSegment(f, defined, cur);
      if seg.None? { return None; }
      BranchTargetsExist(f, cur);
      ghost var later := ExtractFrom(f, defined, seg.value.join, seen);
      assert later.Some? ==> out + ([seg.value] + later.value) == (out + [seg.value]) + later.value;
      out := out + [seg.value];
      cur := seg.value.join;
    }
  }

  /** One turn of the chain walk: parse the branch at `cur` and try its two sides. */
  method MatchSegment(f: Function, defined: set<FuncName>, cur: BlockId) returns (r: Option<Segment>)
    requires WellFormed(f) && cur < |f.blocks|
    ensures r == SegmentAt(f, defined, cur)
  {
    if !f.blocks[cur].term.CondBr? { return None; }
    var guard := ParseTriggerMaskTest(f, f.blocks[cur].term.cond);
    if guard.None? { return None; }
    BranchTargetsExist(f, cur);
    var t, e := f.blocks[cur].term.ifTrue, f.blocks[cur].term.ifFalse;
    var m := MatchGuardedRegion(f, defined, t, e, cur);
    if m.Some? {
      return Some(Segment(guard.value, m.value.region, m.value.callee, e, true));
    }
    m := MatchGuardedRegion(f, defined, e, t, cur);
    if m.Some? {
      return Some(Segment(guard.value, m.value.region, m.value.callee, t, false));
    }
    return None;
  }

  // ---- the chain, as a fact about the CFG -------------------------------------------------------------------------

  /** Block heading segment `k`, counting from header `first`. */
  function Header(first: BlockId, segs: seq<Segment>, k: nat): BlockId
    requires k <= |segs|
  {
    if k == 0 then first else segs[k - 1].join
  }

  /** Headers are distinct, each heads its segment, and the last one is the trivial return. */
  ghost predicate IsChain(f: Function, defined: set<FuncName>, first: BlockId, segs: seq<Segment>)
    requires WellFormed(f)
  {
    && (forall k :: 0 <= k <= |segs| ==> Header(first, segs, k) < |f.blocks|)
    && (forall k :: 0 <= k < |segs| ==> SegmentAt(f, defined, Header(first, segs, k)) == Some(segs[k]))
    && (forall j, k :: 0 <= j < k <= |segs| ==> Header(first, segs, j) != Header(first, segs, k))
    && TrivialReturn(f.blocks[Header(first, segs, |segs|)])
  }

  lemma HeaderShifts(cur: BlockId, seg: Segment, rest: seq<Segment>, k: nat)
    requires k <= |rest| + 1
    ensures Header(cur, [seg] + rest, k) == if k == 0 then cur else Header(seg.join, rest, k - 1)
  {
  }

  /** One segment in front of a chain that never comes back to its header. */
  lemma ChainGrows(f: Function, defined: set<FuncName>, cur: BlockId, seg: Segment, rest: seq<Segment>)
    requires WellFormed(f) && cur < |f.blocks| && SegmentAt(f, defined, cur) == Some(seg)
    requires IsChain(f, defined, seg.join, rest)
    requires forall k :: 0 <= k <= |rest| ==> Header(seg.join, rest, k) != cur
    ensures IsChain(f, defined, cur, [seg] + rest)
  {
    hide SegmentAt, TrivialReturn, WellFormed, Header;
    var segs := [seg] + rest;
    forall k | 0 <= k <= |segs|
      ensures Header(cur, segs, k) < |f.blocks|
    {
      HeaderShifts(cur, seg, rest, k);
    }
    forall k | 0 <= k < |segs|
      ensures SegmentAt(f, defined, Header(cur, segs, k)) == Some(segs[k])
    {
      HeaderShifts(cur, seg, rest, k);
    }
    forall j, k | 0 <= j < k <= |segs|
      ensures Header(cur, segs, j) != Header(cur, segs, k)
    {
      HeaderShifts(cur, seg, rest, j);
      HeaderShifts(cur, seg, rest, k);
    }
    HeaderShifts(cur, seg, rest, |segs|);
  }

  lemma {:induction false} ExtractedIsChain(f: Function, defined: set<FuncName>, cur: BlockId, seen: set<BlockId>)
    requires WellFormed(f) && cur < |f.blocks|
    requires ExtractFrom(f, defined, cur, seen).Some?
    ensures IsChain(f, defined, cur, ExtractFrom(f, defined, cur, seen).value)
    ensures forall k :: 0 <= k <= |ExtractFrom(f, defined, cur, seen).value| ==>
              Header(cur, ExtractFrom(f, defined, cur, seen).value, k) !in seen
    decreases Below(|f.blocks|) - seen
  {
    var segs := ExtractFrom(f, defined, cur, seen).value;
    if segs != [] {
      hide SegmentAt, TrivialReturn, IsChain;
      var next := segs[0].join;
      BranchTargetsExist(f, cur);
      assert cur in Below(|f.blocks|);
      ExtractedIsChain(f, defined, next, seen + {cur});
      var rest := ExtractFrom(f, defined, next, seen + {cur}).value;
      assert segs == [segs[0]] + rest;
      ChainGrows(f, defined, cur, segs[0], rest);
      forall k | 0 <= k <= |segs|
        ensures Header(cur, segs, k) !in seen
      {
        if k > 0 { assert Header(next, rest, k - 1) !in seen + {cur}; }
      }
    }
  }
}
