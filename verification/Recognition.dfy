/** Exactly which functions the splitter recognises, stated on their code and not on the recogniser. */
module Recognition {
  import opened Prelude
  import opened Cfg
  import opened Segments
  import Region

  // ---- definitions --------------------------------------------------------------------------------------------------

  /** Some instruction of `f` is `instr`. */
  ghost predicate Occurs(f: Function, instr: Instr) {
    exists b: BlockId, i: nat :: b < |f.blocks| && i < |f.blocks[b].instrs| && f.blocks[b].instrs[i] == instr
  }

  lemma {:induction false} FindInMisses(instrs: seq<Instr>, r: Reg)
    requires forall i | 0 <= i < |instrs| :: Dst(instrs[i]) != Some(r)
    ensures FindIn(instrs, r) == None
  {
    if instrs != [] { FindInMisses(instrs[1..], r); }
  }

  lemma {:induction false} FindInHits(instrs: seq<Instr>, i: nat, r: Reg)
    requires i < |instrs| && Dst(instrs[i]) == Some(r) && forall j | 0 <= j < i :: Dst(instrs[j]) != Some(r)
    ensures FindIn(instrs, r) == Some(instrs[i])
  {
    if i > 0 {
      assert Dst(instrs[0]) != Some(r);
      FindInHits(instrs[1..], i - 1, r);
    }
  }

  lemma {:induction false} FindDefHits(blocks: seq<Block>, b: nat, i: nat, r: Reg)
    requires b < |blocks| && i < |blocks[b].instrs| && Dst(blocks[b].instrs[i]) == Some(r)
    requires forall c: nat, j: nat | c < |blocks| && j < |blocks[c].instrs| && Dst(blocks[c].instrs[j]) == Some(r) :: c == b && j == i
    ensures FindDef(blocks, r) == Some(blocks[b].instrs[i])
  {
    if b == 0 {
      FindInHits(blocks[0].instrs, i, r);
    } else {
      FindInMisses(blocks[0].instrs, r);
      forall c: nat, j: nat | c < |blocks[1..]| && j < |blocks[1..][c].instrs| && Dst(blocks[1..][c].instrs[j]) == Some(r)
        ensures c == b - 1 && j == i
      {
        assert blocks[c + 1] == blocks[1..][c];
      }
      FindDefHits(blocks[1..], b - 1, i, r);
    }
  }

  lemma {:induction false} FindInFound(instrs: seq<Instr>, r: Reg) returns (i: nat)
    requires FindIn(instrs, r).Some?
    ensures i < |instrs| && instrs[i] == FindIn(instrs, r).value && Dst(instrs[i]) == Some(r)
  {
    i := 0;
    if Dst(instrs[0]) != Some(r) {
      i := FindInFound(instrs[1..], r);
      i := i + 1;
    }
  }

  lemma {:induction false} FindDefFound(blocks: seq<Block>, r: Reg) returns (b: nat, i: nat)
    requires FindDef(blocks, r).Some?
    ensures b < |blocks| && i < |blocks[b].instrs| && blocks[b].instrs[i] == FindDef(blocks, r).value
    ensures Dst(blocks[b].instrs[i]) == Some(r)
  {
    b := 0;
    if FindIn(blocks[0].instrs, r).Some? {
      i := FindInFound(blocks[0].instrs, r);
    } else {
      b, i := FindDefFound(blocks[1..], r);
      b := b + 1;
    }
  }

  /** The definition an operand leads to is the one instruction that assigns it. */
  lemma DefOfIs(f: Function, op: Operand, instr: Instr)
    requires WellFormed(f)
    ensures DefOf(f, op) == Some(instr) <==> op.Local? && Dst(instr) == Some(op.r) && Occurs(f, instr)
  {
    if DefOf(f, op) == Some(instr) {
      var b, i := FindDefFound(f.blocks, op.r);
    }
    if op.Local? && Dst(instr) == Some(op.r) && Occurs(f, instr) {
      var b: BlockId, i: nat :| b < |f.blocks| && i < |f.blocks[b].instrs| && f.blocks[b].instrs[i] == instr;
      forall c: nat, j: nat | c < |f.blocks| && j < |f.blocks[c].instrs| && Dst(f.blocks[c].instrs[j]) == Some(op.r)
        ensures c == b && j == i
      {
        assert Defines(f, b, i, op.r) && Defines(f, c, j, op.r);
      }
      FindDefHits(f.blocks, b, i, op.r);
    }
  }

  // ---- the trigger test ---------------------------------------------------------------------------------------------

  /** `x` and `y` are `a` and `b`, in one order or the other. */
  predicate EitherWay(x: Operand, y: Operand, a: Operand, b: Operand) { (x == a && y == b) || (x == b && y == a) }

  /**
   `cond` compares `%d` with zero, `%d` masks `%l`, and `%l` is loaded from a constant offset of an argument: every
   instruction in full, with the operands of the compare and of the mask on either side.
   */
  ghost predicate TestsThrough(f: Function, cond: Operand, t: TriggerMaskTest, c: Reg, d: Reg, l: Reg) {
    && cond == Local(c) && (t.pred == Eq || t.pred == Ne)
    && t.triggerPtr.Gep? && t.triggerPtr.base.Arg? && t.triggerPtr.index.Const? && Occurs(f, t.triggerPtr)
    && Occurs(f, Load(l, Local(t.triggerPtr.dst), t.width))
    && (exists x, y, w: nat :: EitherWay(x, y, Const(t.mask), Local(l)) && Occurs(f, Bin(d, And, x, y, w)))
    && (exists x, y :: EitherWay(x, y, Const(0), Local(d)) && Occurs(f, Icmp(c, t.pred, x, y)))
  }

  ghost predicate TestsTrigger(f: Function, cond: Operand, t: TriggerMaskTest) {
    exists c: Reg, d: Reg, l: Reg :: TestsThrough(f, cond, t, c, d, l)
  }

  lemma TestIsMatched(f: Function, cond: Operand, t: TriggerMaskTest, c: Reg, d: Reg, l: Reg)
    requires WellFormed(f) && TestsThrough(f, cond, t, c, d, l)
    ensures ParseTriggerMaskTest(f, cond) == Some(t)
  {
    hide WellFormed, Occurs, DefOf;
    var x, y, w: nat :| EitherWay(x, y, Const(t.mask), Local(l)) && Occurs(f, Bin(d, And, x, y, w));
    var a, b :| EitherWay(a, b, Const(0), Local(d)) && Occurs(f, Icmp(c, t.pred, a, b));
    DefOfIs(f, cond, Icmp(c, t.pred, a, b));
    DefOfIs(f, Local(d), Bin(d, And, x, y, w));
    DefOfIs(f, Local(l), Load(l, Local(t.triggerPtr.dst), t.width));
    DefOfIs(f, Local(t.triggerPtr.dst), t.triggerPtr);
  }

  lemma MatchedIsTest(f: Function, cond: Operand)
    requires WellFormed(f) && ParseTriggerMaskTest(f, cond).Some?
    ensures TestsTrigger(f, cond, ParseTriggerMaskTest(f, cond).value)
  {
    var t, m := ParseTriggerMaskTest(f, cond).value, MatchTest(f, cond).value;
    DefOfIs(f, cond, m.icmp);
    DefOfIs(f, MaskedOperand(m.icmp).value, m.masked);
    DefOfIs(f, SplitMask(m.masked).1, m.load);
    DefOfIs(f, m.load.ptr, m.gep);
    assert EitherWay(m.masked.a, m.masked.b, Const(t.mask), Local(m.load.dst));
    assert EitherWay(m.icmp.a, m.icmp.b, Const(0), Local(m.masked.dst));
    assert m.masked == Bin(m.masked.dst, And, m.masked.a, m.masked.b, m.masked.width);
    assert m.icmp == Icmp(m.icmp.dst, t.pred, m.icmp.a, m.icmp.b);
    assert TestsThrough(f, cond, t, m.icmp.dst, m.masked.dst, m.load.dst);
  }

  /** A branch condition is recognised, with this address, width, mask and predicate, exactly when the code says so. */
  lemma RecognisedExactly(f: Function, cond: Operand, t: TriggerMaskTest)
    requires WellFormed(f)
    ensures ParseTriggerMaskTest(f, cond) == Some(t) <==> TestsTrigger(f, cond, t)
  {
    if TestsTrigger(f, cond, t) {
      var c: Reg, d: Reg, l: Reg :| TestsThrough(f, cond, t, c, d, l);
      TestIsMatched(f, cond, t, c, d, l);
    }
    if ParseTriggerMaskTest(f, cond) == Some(t) { MatchedIsTest(f, cond); }
  }

  // ---- what a region may use ----------------------------------------------------------------------------------------

  /** An operand of some instruction or terminator of a listed block. */
  ghost predicate UsedIn(f: Function, region: seq<BlockId>, op: Operand) {
    exists b: BlockId :: b in region && b < |f.blocks| &&
      (op in TermOperands(f.blocks[b].term) || exists i :: 0 <= i < |f.blocks[b].instrs| && op in Operands(f.blocks[b].instrs[i]))
  }

  ghost predicate AssignedIn(f: Function, region: seq<BlockId>, r: Reg) {
    exists b: BlockId, i: nat :: b in region && Defines(f, b, i, r)
  }

  /** A region is accepted as root-only exactly when its arguments are the root and its registers its own. */
  lemma RootOnlyMeans(f: Function, region: seq<BlockId>)
    requires InRange(f, region)
    ensures UsesOnlyRootArg(f, region) <==>
            forall op | UsedIn(f, region, op) :: (op.Arg? ==> op.i == 0) && (op.Local? ==> AssignedIn(f, region, op.r))
  {
    var defs := RegionDefs(f, region);
    forall r ensures r in defs <==> AssignedIn(f, region, r) { RegionDefsHolds(f, region, r); }
    if forall op | UsedIn(f, region, op) :: (op.Arg? ==> op.i == 0) && (op.Local? ==> AssignedIn(f, region, op.r)) {
      forall i | 0 <= i < |region| ensures BlockInside(f.blocks[region[i]], defs) {
        assert region[i] in region;
        forall op | op in TermOperands(f.blocks[region[i]].term) ensures OperandInside(op, defs) {
          assert UsedIn(f, region, op);
        }
        forall j, op | 0 <= j < |f.blocks[region[i]].instrs| && op in Operands(f.blocks[region[i]].instrs[j])
          ensures OperandInside(op, defs)
        {
          assert UsedIn(f, region, op);
        }
      }
    }
    if UsesOnlyRootArg(f, region) {
      forall op | UsedIn(f, region, op) ensures OperandInside(op, defs) {
        var b: BlockId :| b in region && b < |f.blocks| &&
          (op in TermOperands(f.blocks[b].term) || exists i :: 0 <= i < |f.blocks[b].instrs| && op in Operands(f.blocks[b].instrs[i]));
        var k :| 0 <= k < |region| && region[k] == b;
        assert BlockInside(f.blocks[region[k]], defs);
      }
    }
  }

  /** A callee is reported exactly for a one-block region that is one call of a defined function and a jump to the join. */
  lemma CalleeIs(f: Function, defined: set<FuncName>, active: BlockId, join: BlockId, region: seq<BlockId>, callee: FuncName)
    requires active < |f.blocks|
    ensures CalleeOf(f, defined, active, join, region) == Some(callee) <==>
            |region| == 1 && callee in defined
            && exists result, args :: f.blocks[active] == Block([Call(result, callee, args)], Br(join))
  {
    var blk := f.blocks[active];
    if CalleeOf(f, defined, active, join, region) == Some(callee) {
      assert blk == Block([Call(blk.instrs[0].result, callee, blk.instrs[0].args)], Br(join));
    }
  }

  // ---- the chain ----------------------------------------------------------------------------------------------------

  /** What segment `seg` says of the side of a guard that leads to `active` and joins at `join`. */
  ghost predicate Describes(f: Function, defined: set<FuncName>, active: BlockId, join: BlockId, seg: Segment)
    requires active < |f.blocks|
  {
    seg.join == join && seg.region == RegionOf(f, active, join) && seg.callee == CalleeOf(f, defined, active, join, seg.region)
  }

  /** Block `h` branches on the trigger test of `seg`, and the side that is carved is the true one whenever it can be. */
  ghost predicate Guards(f: Function, defined: set<FuncName>, h: BlockId, seg: Segment)
    requires WellFormed(f)
  {
    && h < |f.blocks| && f.blocks[h].term.CondBr?
    && TestsTrigger(f, f.blocks[h].term.cond, seg.guard)
    && (BranchTargetsExist(f, h);
        var t, e := f.blocks[h].term.ifTrue, f.blocks[h].term.ifFalse;
        if seg.executeOnTrue then Matches(f, t, e, h) && Describes(f, defined, t, e, seg)
        else !Matches(f, t, e, h) && Matches(f, e, t, h) && Describes(f, defined, e, t, seg))
  }

  lemma GuardsExactly(f: Function, defined: set<FuncName>, h: BlockId, seg: Segment)
    requires WellFormed(f)
    ensures SegmentAt(f, defined, h) == Some(seg) <==> Guards(f, defined, h, seg)
  {
    hide TestsTrigger, ParseTriggerMaskTest, Matches, WellFormed, CalleeOf;
    if h < |f.blocks| && f.blocks[h].term.CondBr? {
      BranchTargetsExist(f, h);
      RecognisedExactly(f, f.blocks[h].term.cond, seg.guard);
    }
  }

  /** Guarded segments one after another from block 0, no header twice, to a trivial return. */
  ghost predicate GuardedChain(f: Function, defined: set<FuncName>, first: BlockId, segs: seq<Segment>)
    requires WellFormed(f)
  {
    && (forall k | 0 <= k < |segs| :: Guards(f, defined, Header(first, segs, k), segs[k]))
    && (forall j, k | 0 <= j < k <= |segs| :: Header(first, segs, j) != Header(first, segs, k))
    && Header(first, segs, |segs|) < |f.blocks| && TrivialReturn(f.blocks[Header(first, segs, |segs|)])
  }

  lemma FirstHeader(first: BlockId, segs: seq<Segment>)
    ensures Header(first, segs, 0) == first
  {
  }

  lemma HeaderOfTail(first: BlockId, segs: seq<Segment>, k: nat)
    requires segs != [] && k < |segs|
    ensures Header(segs[0].join, segs[1..], k) == Header(first, segs, k + 1)
  {
  }

  lemma TailIsChain(f: Function, defined: set<FuncName>, first: BlockId, segs: seq<Segment>)
    requires WellFormed(f) && segs != [] && GuardedChain(f, defined, first, segs)
    ensures GuardedChain(f, defined, segs[0].join, segs[1..])
  {
    hide Guards, TrivialReturn, WellFormed, Header;
    forall k | 0 <= k < |segs[1..]| ensures Guards(f, defined, Header(segs[0].join, segs[1..], k), segs[1..][k]) {
      HeaderOfTail(first, segs, k);
      assert Guards(f, defined, Header(first, segs, k + 1), segs[k + 1]);
    }
    forall j, k | 0 <= j < k <= |segs[1..]| ensures Header(segs[0].join, segs[1..], j) != Header(segs[0].join, segs[1..], k) {
      HeaderOfTail(first, segs, j);
      HeaderOfTail(first, segs, k);
    }
    HeaderOfTail(first, segs, |segs| - 1);
  }

  lemma ExtractGoesOn(f: Function, defined: set<FuncName>, cur: BlockId, seg: Segment, rest: seq<Segment>, seen: set<BlockId>)
    requires WellFormed(f) && cur < |f.blocks| && cur !in seen && !TrivialReturn(f.blocks[cur])
    requires SegmentAt(f, defined, cur) == Some(seg) && seg.join < |f.blocks|
    requires ExtractFrom(f, defined, seg.join, seen + {cur}) == Some(rest)
    ensures ExtractFrom(f, defined, cur, seen) == Some([seg] + rest)
  {
    hide SegmentAt, WellFormed, TrivialReturn;
  }

  lemma ExtractEnds(f: Function, defined: set<FuncName>, cur: BlockId, seen: set<BlockId>)
    requires WellFormed(f) && cur < |f.blocks| && cur !in seen && TrivialReturn(f.blocks[cur])
    ensures ExtractFrom(f, defined, cur, seen) == Some([])
  {
    hide SegmentAt, WellFormed, TrivialReturn;
  }

  /** The first and the last header of a chain. */
  lemma ChainEnds(f: Function, defined: set<FuncName>, cur: BlockId, segs: seq<Segment>)
    requires WellFormed(f) && GuardedChain(f, defined, cur, segs)
    ensures segs == [] ==> TrivialReturn(f.blocks[cur])
    ensures segs != [] ==> Guards(f, defined, cur, segs[0])
    ensures forall k | 0 < k <= |segs| :: Header(cur, segs, k) != cur
  {
    hide Guards, TrivialReturn, WellFormed;
    assert Header(cur, segs, 0) == cur;
    if segs != [] { assert Guards(f, defined, Header(cur, segs, 0), segs[0]); }
  }

  lemma {:induction false} ChainIsExtracted(f: Function, defined: set<FuncName>, cur: BlockId, segs: seq<Segment>, seen: set<BlockId>)
    requires WellFormed(f) && cur < |f.blocks| && GuardedChain(f, defined, cur, segs)
    requires forall k | 0 <= k <= |segs| :: Header(cur, segs, k) !in seen
    ensures ExtractFrom(f, defined, cur, seen) == Some(segs)
    decreases |segs|
  {
    hide Guards, GuardedChain, SegmentAt, WellFormed, ExtractFrom, TrivialReturn, Header;
    FirstHeader(cur, segs);
    ChainEnds(f, defined, cur, segs);
    if segs == [] {
      ExtractEnds(f, defined, cur, seen);
    } else {
      HeaderBranches(f, defined, cur, segs[0]);
      GuardsExactly(f, defined, cur, segs[0]);
      TailIsChain(f, defined, cur, segs);
      forall k | 0 <= k <= |segs[1..]| ensures Header(segs[0].join, segs[1..], k) !in seen + {cur} {
        HeaderOfTail(cur, segs, k);
      }
      ChainIsExtracted(f, defined, segs[0].join, segs[1..], seen + {cur});
      ExtractGoesOn(f, defined, cur, segs[0], segs[1..], seen);
      assert segs == [segs[0]] + segs[1..];
    }
  }

  lemma HeaderBranches(f: Function, defined: set<FuncName>, h: BlockId, seg: Segment)
    requires WellFormed(f) && Guards(f, defined, h, seg)
    ensures h < |f.blocks| && !TrivialReturn(f.blocks[h]) && seg.join < |f.blocks|
  {
    BranchTargetsExist(f, h);
  }

  /**
   The splitter accepts a function, with these segments, exactly when its code is a chain of guarded segments: at least
   one, from the entry block, each header's condition a trigger test, each carved region single-entry and root-only, the
   true side carved whenever it can be, no header twice, and a trivial return at the end.
   */
  lemma ExtractedExactly(f: Function, defined: set<FuncName>, segs: seq<Segment>)
    requires WellFormed(f)
    ensures Extract(f, defined) == Some(segs) <==> segs != [] && GuardedChain(f, defined, 0, segs)
  {
    hide WellFormed, Guards, SegmentAt;
    assert |f.blocks| > 0 by { HasEntry(f); }
    if segs != [] && GuardedChain(f, defined, 0, segs) { ChainIsExtracted(f, defined, 0, segs, {}); }
    if Extract(f, defined) == Some(segs) {
      ExtractedIsChain(f, defined, 0, {});
      forall k | 0 <= k < |segs| ensures Guards(f, defined, Header(0, segs, k), segs[k]) {
        GuardsExactly(f, defined, Header(0, segs, k), segs[k]);
      }
    }
  }

  lemma HasEntry(f: Function)
    requires WellFormed(f)
    ensures |f.blocks| > 0
  {
  }
}
