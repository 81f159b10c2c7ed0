/** Why the layout hypothesis of the main theorem is needed: a function the splitter accepts and does not preserve. */
module SplitLimits {
  import opened Prelude
  import opened Cfg
  import opened Segments
  import opened Wrapper
  import opened GuardEval
  import opened SplitMeaning
  import opened SplitTheorem
  import Region

  const HEADER := Block([Gep(0, Arg(0), Const(0)), Load(1, Local(0), 1), Bin(2, And, Local(1), Const(1), 1),
                         Icmp(3, Ne, Local(2), Const(0))], CondBr(Local(3), 2, 3))
  const LATER := Block([Call(None, "later", [Arg(0)])], Br(3))
  const ENTERED := Block([Call(None, "entered", [Arg(0)])], Br(1))
  const RETURN := Block([], Ret)

  /** The guard enters block 2, which continues with block 1: the region's entry is not its first block in layout order. */
  const REVERSED := Function(1, [HEADER, LATER, ENTERED, RETURN])

  lemma Edges(a: BlockId, b: BlockId)
    ensures IsEdge(REVERSED, a, b) <==> (a == 0 && (b == 2 || b == 3)) || (a == 1 && b == 3) || (a == 2 && b == 1)
  {
    assert a < 4 ==> REVERSED.blocks[a] == [HEADER, LATER, ENTERED, RETURN][a];
  }

  lemma Definitions(b: BlockId, i: nat, r: Reg)
    ensures Defines(REVERSED, b, i, r) <==> b == 0 && i < 4 && r == i
  {
    assert b < 4 ==> REVERSED.blocks[b] == [HEADER, LATER, ENTERED, RETURN][b];
  }

  lemma ReversedIsWellFormed()
    ensures WellFormed(REVERSED)
  {
    forall a: BlockId, b: BlockId | IsEdge(REVERSED, a, b) ensures b < 4 && b != 0 { Edges(a, b); }
    forall b: BlockId, i: nat, c: BlockId, j: nat, r: Reg | Defines(REVERSED, b, i, r) && Defines(REVERSED, c, j, r)
      ensures b == c && i == j
    {
      Definitions(b, i, r);
      Definitions(c, j, r);
    }
    forall b: BlockId, i: nat | b < 4 && i < |REVERSED.blocks[b].instrs| ensures ArgsExist(REVERSED, REVERSED.blocks[b].instrs[i]) {
      assert REVERSED.blocks[b] == [HEADER, LATER, ENTERED, RETURN][b];
    }
  }

  lemma RegionIsBoth()
    ensures Region.Blocks(REVERSED, 2, 3) == {1, 2}
  {
    assert Region.ReachesIn(REVERSED, 2, 3, 2, 0);
    Edges(2, 1);
    assert Region.ReachesIn(REVERSED, 2, 3, 1, 1);
    forall b: BlockId | Region.Reaches(REVERSED, 2, 3, b)
      ensures b in {1, 2}
    {
      var n: nat :| Region.ReachesIn(REVERSED, 2, 3, b, n);
      forall x: BlockId, y: BlockId | x in {1, 2} && IsEdge(REVERSED, x, y) && y != 3 ensures y in {1, 2} { Edges(x, y); }
      Region.ClosedHoldsReachable(REVERSED, 2, 3, b, n, {1, 2});
    }
  }

  lemma RegionIsAccepted()
    ensures Region.Accepted(REVERSED, 2, 3, 0)
  {
    ReversedIsWellFormed();
    RegionIsBoth();
    forall b | b in {1, 2} ensures Region.PredsInside(REVERSED, b, 2, 0, {1, 2}) {
      forall p: nat | p < 4 && IsEdge(REVERSED, p, b) ensures p in {1, 2} || (b == 2 && p == 0) { Edges(p, b); }
    }
    Edges(1, 3);
    Region.AcceptedMeans(REVERSED, 2, 3, 0);
  }

  /** The one increasing listing of 1 and 2. */
  lemma SortedPair(r: seq<BlockId>)
    requires forall i, j :: 0 <= i < j < |r| ==> r[i] < r[j]
    requires forall b: BlockId :: b in r <==> b == 1 || b == 2
    ensures r == [1, 2]
  {
    assert 1 in r && 2 in r;
    var i :| 0 <= i < |r| && r[i] == 1;
    var j :| 0 <= j < |r| && r[j] == 2;
    forall k | 0 <= k < |r| ensures r[k] == 1 || r[k] == 2 { assert r[k] in r; }
    SpreadsOut(r);
  }

  lemma SpreadsOut(r: seq<BlockId>)
    requires forall i, j :: 0 <= i < j < |r| ==> r[i] < r[j]
    ensures |r| > 2 ==> r[2] >= r[0] + 2
  {
    if |r| > 2 { assert r[0] < r[1] && r[1] < r[2]; }
  }

  lemma ListingIsReversed()
    ensures RegionOf(REVERSED, 2, 3) == [1, 2]
  {
    RegionIsBoth();
    SortedPair(RegionOf(REVERSED, 2, 3));
  }

  lemma RegionUsesRootOnly()
    ensures UsesOnlyRootArg(REVERSED, [1, 2])
  {
    assert REVERSED.blocks[1] == LATER && REVERSED.blocks[2] == ENTERED;
  }

  const GUARD := TriggerMaskTest(Gep(0, Arg(0), Const(0)), 1, 1, Ne)
  const SEGMENT := Segment(GUARD, [1, 2], None, 3, true)

  lemma GuardIsRecognised()
    ensures ParseTriggerMaskTest(REVERSED, Local(3)) == Some(GUARD)
  {
    var code := HEADER.instrs;
    assert code[1..][1..] == code[2..] && code[2..][1..] == code[3..];
    assert REVERSED.blocks[0] == HEADER;
    assert FindIn(code[3..], 3) == Some(code[3]) && FindIn(code[2..], 3) == Some(code[3]) && FindIn(code[1..], 3) == Some(code[3]);
    assert FindIn(code[2..], 2) == Some(code[2]) && FindIn(code[1..], 2) == Some(code[2]);
    assert FindIn(code[1..], 1) == Some(code[1]);
    assert DefOf(REVERSED, Local(3)) == Some(code[3]);
    assert DefOf(REVERSED, Local(2)) == Some(code[2]);
    assert DefOf(REVERSED, Local(1)) == Some(code[1]);
    assert DefOf(REVERSED, Local(0)) == Some(code[0]);
  }

  lemma ReversedIsExtracted()
    ensures WellFormed(REVERSED) && Extract(REVERSED, {}) == Some([SEGMENT])
  {
    ReversedIsWellFormed();
    GuardIsRecognised();
    RegionIsAccepted();
    ListingIsReversed();
    RegionUsesRootOnly();
    assert REVERSED.blocks[0] == HEADER && REVERSED.blocks[3] == RETURN;
    assert SegmentAt(REVERSED, {}, 0) == Some(SEGMENT);
    assert ExtractFrom(REVERSED, {}, 3, {} + {0}) == Some([]);
    assert [SEGMENT] + [] == [SEGMENT];
    assert ExtractFrom(REVERSED, {}, 0, {}) == Some([SEGMENT]);
  }

  const WRAPPER := Function(1, [
    Block([Gep(0, Arg(0), Const(0)), Load(1, Local(0), 1), Bin(2, And, Local(1), Const(1), 1), Icmp(3, Ne, Local(2), Const(0))],
          CondBr(Local(3), 2, 1)),
    Block([], Ret),
    Block([Call(None, "later", [Arg(0)])], Br(1)),
    Block([Call(None, "entered", [Arg(0)])], Br(2))])

  lemma ReversedIsWrapped()
    ensures WrapAll(REVERSED, [SEGMENT]) == Some([WRAPPER])
  {
    assert REVERSED.blocks[1] == LATER && REVERSED.blocks[2] == ENTERED;
    assert [Arg(0)][1..] == [] && LATER.instrs[1..] == [] && ENTERED.instrs[1..] == [];
    assert CloneOperands([Arg(0)]) == [Arg(0)];
    assert [1, 2][1..] == [2] && IndexOf([1, 2], 1) == 0 && IndexOf([2], 2) == 0 && IndexOf([1, 2], 2) == 1;
    assert CloneBlock(SEGMENT, LATER) == WRAPPER.blocks[2] && CloneBlock(SEGMENT, ENTERED) == WRAPPER.blocks[3];
    assert CloneRegion(REVERSED, SEGMENT) == [WRAPPER.blocks[2], WRAPPER.blocks[3]];
    assert GuardBlock(SEGMENT) == WRAPPER.blocks[0] && EXIT_BLOCK == WRAPPER.blocks[1];
    assert [GuardBlock(SEGMENT), EXIT_BLOCK] + CloneRegion(REVERSED, SEGMENT) == WRAPPER.blocks;
    assert WrapperOf(REVERSED, SEGMENT) == Some(WRAPPER);
    assert [SEGMENT][1..] == [] && WrapAll(REVERSED, []) == Some([]);
    assert [WRAPPER] + [] == [WRAPPER];
  }

  /** A helper that traps when the block the guard enters is run; the other one returns. */
  function TrapOnEntry(callee: FuncName, args: seq<Val>, m: Mem): CallResult {
    if callee == "entered" then CallTraps else Returned(Int(0), m)
  }

  const ACTIVE: Mem := [1]

  lemma GuardRuns(b: Block, r: Regs)
    requires b.instrs == HEADER.instrs && r == map[]
    ensures var regs := map[0 := Ptr(0), 1 := Int(1), 2 := Int(1), 3 := Int(1)];
            ExecAll(TrapOnEntry, b.instrs, r, ACTIVE) == Next(regs, ACTIVE)
  {
    var code := HEADER.instrs;
    assert code[1..][1..] == code[2..] && code[2..][1..] == code[3..] && code[3..][1..] == [];
    assert ReadBytes(ACTIVE, 0, 1) == 1;
    assert BitAnd(0, 0) == 0 && BitAnd(1, 1) == 1;
    var r0 := r[0 := Ptr(0)];
    var r1 := r0[1 := Int(1)];
    var r2 := r1[2 := Int(1)];
    var r3 := r2[3 := Int(1)];
    assert ExecInstr(TrapOnEntry, code[0], r, ACTIVE) == Next(r0, ACTIVE);
    assert ExecInstr(TrapOnEntry, code[1], r0, ACTIVE) == Next(r1, ACTIVE);
    assert ExecInstr(TrapOnEntry, code[2], r1, ACTIVE) == Next(r2, ACTIVE);
    assert ExecInstr(TrapOnEntry, code[3], r2, ACTIVE) == Next(r3, ACTIVE);
    assert ExecAll(TrapOnEntry, code[3..], r2, ACTIVE) == Next(r3, ACTIVE);
    assert ExecAll(TrapOnEntry, code[2..], r1, ACTIVE) == Next(r3, ACTIVE);
    assert ExecAll(TrapOnEntry, code[1..], r0, ACTIVE) == Next(r3, ACTIVE);
    assert r3 == map[0 := Ptr(0), 1 := Int(1), 2 := Int(1), 3 := Int(1)];
  }

  lemma CallRuns(callee: FuncName, next: BlockId, regs: Regs)
    ensures ExecBlock(TrapOnEntry, Block([Call(None, callee, [Arg(0)])], Br(next)), regs, ACTIVE) ==
            if callee == "entered" then BlockTraps else Moves(Goto(next), regs, ACTIVE)
  {
    RootArgument(regs);
    var code := [Call(None, callee, [Arg(0)])];
    assert code[1..] == [];
    assert ExecAll(TrapOnEntry, [], regs, ACTIVE) == Next(regs, ACTIVE);
  }

  const TESTED: Regs := map[0 := Ptr(0), 1 := Int(1), 2 := Int(1), 3 := Int(1)]

  lemma FunctionTraps()
    ensures Yields(REVERSED, TrapOnEntry, ACTIVE, Trapped) && !Yields(REVERSED, TrapOnEntry, ACTIVE, Done(ACTIVE))
  {
    assert REVERSED.blocks[0] == HEADER && REVERSED.blocks[2] == ENTERED;
    GuardRuns(HEADER, map[]);
    CallRuns("entered", 1, TESTED);
    assert Run(REVERSED, TrapOnEntry, 2, TESTED, ACTIVE, 1) == Trapped;
    assert Run(REVERSED, TrapOnEntry, 0, map[], ACTIVE, 2) == Trapped;
    if Yields(REVERSED, TrapOnEntry, ACTIVE, Done(ACTIVE)) {
      YieldsIsUnique(REVERSED, TrapOnEntry, ACTIVE, Trapped, Done(ACTIVE));
    }
  }

  lemma WrapperReturns()
    ensures ChainYields([WRAPPER], TrapOnEntry, ACTIVE, Done(ACTIVE))
  {
    GuardRuns(WRAPPER.blocks[0], map[]);
    CallRuns("later", 1, TESTED);
    assert ExecBlock(TrapOnEntry, WRAPPER.blocks[1], TESTED, ACTIVE) == Moves(Leave, TESTED, ACTIVE);
    assert Run(WRAPPER, TrapOnEntry, 1, TESTED, ACTIVE, 1) == Done(ACTIVE);
    assert Run(WRAPPER, TrapOnEntry, 2, TESTED, ACTIVE, 2) == Done(ACTIVE);
    assert Run(WRAPPER, TrapOnEntry, 0, map[], ACTIVE, 3) == Done(ACTIVE);
    assert [WRAPPER][1..] == [] && RunChain([], TrapOnEntry, ACTIVE, 3) == Done(ACTIVE);
    assert RunChain([WRAPPER], TrapOnEntry, ACTIVE, 3) == Done(ACTIVE);
  }

  lemma HeaderIsGuardOnly()
    ensures GuardOnlyHeader(REVERSED, [SEGMENT], 0)
  {
    assert REVERSED.blocks[0] == HEADER;
    GuardIsRecognised();
    var chain := MatchTest(REVERSED, Local(3)).value;
    assert chain == TestChain(HEADER.instrs[3], HEADER.instrs[2], HEADER.instrs[1], HEADER.instrs[0], 1);
    assert InstrAt(REVERSED, Header(0, [SEGMENT], 0), 0, chain.gep);
    assert GuardCode(HEADER.instrs, chain, 1, 2, 3) && AddressReady(REVERSED, [SEGMENT], 0, chain.gep, 1);
  }

  /**
   The splitter accepts `REVERSED` and builds its wrapper, every other hypothesis of the main theorem holds, and still the
   outcomes differ: the function traps where the wrapper, which enters the region at its first listed block, returns.
   */
  lemma LayoutOrderMatters()
    ensures WellFormed(REVERSED) && Extract(REVERSED, {}) == Some([SEGMENT])
    ensures WrapAll(REVERSED, [SEGMENT]) == Some([WRAPPER])
    ensures GuardOnlyHeader(REVERSED, [SEGMENT], 0) && HelperTakesRoot(REVERSED, SEGMENT) && REVERSED.nargs == 1
    ensures !EntryIsFirst(REVERSED, [SEGMENT], 0)
    ensures Yields(REVERSED, TrapOnEntry, ACTIVE, Trapped) && !Yields(REVERSED, TrapOnEntry, ACTIVE, Done(ACTIVE))
    ensures ChainYields([WRAPPER], TrapOnEntry, ACTIVE, Done(ACTIVE))
  {
    ReversedIsExtracted();
    ReversedIsWrapped();
    HeaderIsGuardOnly();
    assert REVERSED.blocks[0] == HEADER;
    FunctionTraps();
    WrapperReturns();
  }
}
