/** The main theorem of the splitter: the wrapper chain and `___eval_nba` yield the same outcomes. */
module SplitTheorem {
  import opened Prelude
  import opened Cfg
  import opened Segments
  import opened Wrapper
  import opened ChainLayout
  import opened CloneSim
  import opened GuardEval
  import opened SplitMeaning
  import Region

  // ---- running a chain of functions on one state -----------------------------------------------------------------

  function RunChain(ws: seq<Function>, hs: Helpers, m: Mem, n: nat): Outcome {
    if ws == [] then Done(m)
    else
      match Run(ws[0], hs, 0, map[], m, n)
      case Done(m') => RunChain(ws[1..], hs, m', n)
      case o => o
  }

  ghost predicate ChainYields(ws: seq<Function>, hs: Helpers, m: Mem, o: Outcome) {
    o != NoAnswer && exists n: nat :: RunChain(ws, hs, m, n) == o
  }

  lemma {:induction false} ChainMonotone(ws: seq<Function>, hs: Helpers, m: Mem, n: nat, n': nat)
    requires n <= n' && RunChain(ws, hs, m, n) != NoAnswer
    ensures RunChain(ws, hs, m, n') == RunChain(ws, hs, m, n)
    decreases |ws|
  {
    if ws != [] {
      RunMonotone(ws[0], hs, 0, map[], m, n, n');
      match Run(ws[0], hs, 0, map[], m, n) {
        case Done(m') => ChainMonotone(ws[1..], hs, m', n, n');
        case _ =>
      }
    }
  }

  /** Running on from block `b` of `f` with these registers. */
  ghost predicate YieldsFrom(f: Function, hs: Helpers, b: BlockId, regs: Regs, m: Mem, o: Outcome) {
    o != NoAnswer && exists n: nat :: Run(f, hs, b, regs, m, n) == o
  }

  // ---- one wrapper against one segment ---------------------------------------------------------------------------

  /** A wrapper whose guard cannot be read traps; one whose guard fails falls through to its exit. */
  lemma WrapperEntry(f: Function, seg: Segment, w: Function, hs: Helpers, m: Mem)
    requires seg.guard.triggerPtr.Gep? && seg.guard.triggerPtr.index.Const? && WrapperOf(f, seg) == Some(w)
    ensures !GuardReadable(seg.guard, m) ==> Run(w, hs, 0, map[], m, 1) == Trapped
    ensures GuardReadable(seg.guard, m) && !Active(seg, m) ==> Run(w, hs, 0, map[], m, 2) == Done(m)
  {
    WrapperGuardRuns(hs, seg.guard, m);
    assert w.blocks[0] == GuardBlock(seg) && w.blocks[1] == EXIT_BLOCK;
    match ExecAll(hs, GuardInstrs(seg.guard), map[], m) {
      case Next(r, _) =>
        if !Active(seg, m) {
          assert ExecBlock(hs, GuardBlock(seg), map[], m) == Moves(Goto(EXIT), r, m);
          assert ExecBlock(hs, EXIT_BLOCK, r, m) == Moves(Leave, r, m);
          assert Run(w, hs, 0, map[], m, 2) == Run(w, hs, EXIT, r, m, 1);
        }
      case _ =>
    }
  }

  /** A wrapper whose guard holds enters the code behind it, with only the guard's registers set. */
  lemma EntersClone(f: Function, seg: Segment, w: Function, hs: Helpers, m: Mem) returns (r: Regs)
    requires seg.guard.triggerPtr.Gep? && seg.guard.triggerPtr.index.Const? && WrapperOf(f, seg) == Some(w)
    requires GuardReadable(seg.guard, m) && Active(seg, m)
    ensures r.Keys == {0, 1, 2, 3}
    ensures forall j: nat :: Run(w, hs, 0, map[], m, j + 1) == Run(w, hs, FIRST_CLONE, r, m, j)
  {
    WrapperGuardRuns(hs, seg.guard, m);
    assert w.blocks[0] == GuardBlock(seg);
    r := ExecAll(hs, GuardInstrs(seg.guard), map[], m).regs;
    assert ExecBlock(hs, GuardBlock(seg), map[], m) == Moves(Goto(FIRST_CLONE), r, m);
  }

  /** A region running in place up to its join, against what stands behind the guard in its wrapper. */
  ghost predicate InStep(inPlace: Arrival, w: Function, hs: Helpers, r: Regs, m: Mem, n: nat) {
    match inPlace
    case At(_, m', _) => Run(w, hs, FIRST_CLONE, r, m, n + 1) == Done(m')
    case NeverTrapped => Run(w, hs, FIRST_CLONE, r, m, n) == Trapped
    case NotYet => Run(w, hs, FIRST_CLONE, r, m, n) == NoAnswer
    case NeverReturned(_) => false
  }

  lemma RootArgument(regs: Regs)
    ensures EvalAll([Arg(0)], regs) == Some([Ptr(0)])
  {
    assert [Arg(0)][1..] == [];
    assert EvalAll([], regs) == Some([]);
    assert [Ptr(0)] + [] == [Ptr(0)];
  }

  /** A block that calls a helper on the root, and the wrapper's call block: same memory, registers apart. */
  lemma CallsAlike(hs: Helpers, blk: Block, callee: FuncName, next: BlockId, regs: Regs, r: Regs, m: Mem)
    requires |blk.instrs| == 1 && blk.instrs[0].Call? && blk.term == Br(next)
    requires blk.instrs[0].callee == callee && blk.instrs[0].args == [Arg(0)]
    ensures var clone := Block([Call(None, callee, [Arg(0)])], Br(EXIT));
            match ExecBlock(hs, blk, regs, m)
            case Moves(w, _, m') => w == Goto(next) && ExecBlock(hs, clone, r, m) == Moves(Goto(EXIT), r, m')
            case BlockTraps => ExecBlock(hs, clone, r, m) == BlockTraps
            case BlockDiverges => ExecBlock(hs, clone, r, m) == BlockDiverges
  {
    var call := blk.instrs[0];
    var clone := Block([Call(None, callee, [Arg(0)])], Br(EXIT));
    assert blk.instrs == [call] && [call][1..] == [] && clone.instrs[1..] == [];
    RootArgument(regs);
    RootArgument(r);
    match ExecInstr(hs, call, regs, m) {
      case Next(x, m') =>
        assert ExecAll(hs, blk.instrs, regs, m) == Next(x, m');
        assert ExecAll(hs, clone.instrs, r, m) == Next(r, m');
      case Traps => assert ExecAll(hs, clone.instrs, r, m) == Traps;
      case Diverges => assert ExecAll(hs, clone.instrs, r, m) == Diverges;
    }
  }

  lemma CallSteps(f: Function, hs: Helpers, w: Function, start: BlockId, join: BlockId, regs: Regs, r: Regs, m: Mem, n: nat)
    requires start < |f.blocks| && start != join && |w.blocks| > 2 && w.blocks[1] == EXIT_BLOCK
    requires match ExecBlock(hs, f.blocks[start], regs, m)
             case Moves(to, _, m') => to == Goto(join) && ExecBlock(hs, w.blocks[2], r, m) == Moves(Goto(EXIT), r, m')
             case BlockTraps => ExecBlock(hs, w.blocks[2], r, m) == BlockTraps
             case BlockDiverges => ExecBlock(hs, w.blocks[2], r, m) == BlockDiverges
    ensures InStep(RunTo(f, hs, start, join, regs, m, n), w, hs, r, m, n)
  {
    if n > 0 {
      var place := ExecBlock(hs, f.blocks[start], regs, m);
      if place.Moves? {
        assert RunTo(f, hs, start, join, regs, m, n) == At(place.regs, place.mem, n - 1);
        assert ExecBlock(hs, EXIT_BLOCK, r, place.mem) == Moves(Leave, r, place.mem);
        assert Run(w, hs, FIRST_CLONE, r, m, n + 1) == Run(w, hs, EXIT, r, place.mem, n);
      }
    }
  }

  /** A segment that is one helper call. */
  lemma CallInStep(f: Function, defined: set<FuncName>, h: BlockId, start: BlockId, seg: Segment, w: Function, hs: Helpers, regs: Regs, r: Regs, m: Mem, n: nat)
    requires WellFormed(f) && SegmentIs(f, defined, h, start, seg)
    requires seg.guard.triggerPtr.Gep? && WrapperOf(f, seg) == Some(w)
    requires seg.callee.Some? && seg.region == [start] && HelperTakesRoot(f, seg)
    ensures InStep(RunTo(f, hs, start, seg.join, regs, m, n), w, hs, r, m, n)
  {
    var blk := f.blocks[start];
    assert start in seg.region;
    NotTheJoin(f, start, seg.join);
    CallsAlike(hs, blk, seg.callee.value, seg.join, regs, r, m);
    assert w.blocks[2] == Block([Call(None, seg.callee.value, [Arg(0)])], Br(EXIT)) && w.blocks[1] == EXIT_BLOCK;
    CallSteps(f, hs, w, start, seg.join, regs, r, m, n);
  }

  lemma NotTheJoin(f: Function, start: BlockId, join: BlockId)
    ensures join !in Region.Blocks(f, start, join)
  {
  }

  lemma ClonedForSegment(f: Function, defined: set<FuncName>, h: BlockId, start: BlockId, seg: Segment, w: Function)
    requires WellFormed(f) && SegmentIs(f, defined, h, start, seg)
    requires seg.guard.triggerPtr.Gep? && WrapperOf(f, seg) == Some(w)
    requires !(seg.callee.Some? && |seg.region| == 1) && seg.region != []
    ensures ClonedIn(f, seg, start, w) && seg.region[0] != seg.join && MapSucc(seg, seg.region[0]) == FIRST_CLONE
  {
    forall i | 0 <= i < |seg.region| ensures DefsOf(f.blocks[seg.region[i]]) <= RegionDefs(f, seg.region) {
      BlockDefsAreRegionDefs(f, seg.region, i);
    }
    NotTheJoin(f, start, seg.join);
    assert seg.region[0] in seg.region;
    assert IndexOf(seg.region, seg.region[0]) == 0;
  }

  /** A segment whose region is cloned, entered at its first listed block. */
  lemma CloneInStep(f: Function, defined: set<FuncName>, h: BlockId, start: BlockId, seg: Segment, w: Function, hs: Helpers, regs: Regs, r: Regs, m: Mem, n: nat)
    requires WellFormed(f) && SegmentIs(f, defined, h, start, seg)
    requires seg.guard.triggerPtr.Gep? && WrapperOf(f, seg) == Some(w)
    requires !(seg.callee.Some? && |seg.region| == 1) && seg.region != []
    requires forall x | x in RegionDefs(f, seg.region) :: x !in regs
    requires r.Keys == {0, 1, 2, 3}
    ensures InStep(RunTo(f, hs, seg.region[0], seg.join, regs, m, n), w, hs, r, m, n)
  {
    hide WellFormed, SegmentIs, ClonedIn, RegionDefs, MapSucc, RunTo, Run, WrapperOf;
    ClonedForSegment(f, defined, h, start, seg, w);
    assert seg.region[0] in seg.region;
    RegionSimulates(f, hs, seg, start, w, seg.region[0], regs, r, m, n);
  }

  lemma HeadersOutsideRegion(f: Function, segs: seq<Segment>, k: nat)
    requires WellFormed(f) && Chained(f, Headers(segs), Starts(f, segs)) && k < |segs|
    requires Listed(f, segs, k)
    ensures forall j: nat | j <= |segs| :: Header(0, segs, j) !in SetOf(segs[k].region)
  {
    forall j: nat | j <= |segs| ensures Header(0, segs, j) !in SetOf(segs[k].region) {
      HeaderOutside(f, Headers(segs), Starts(f, segs), j, k);
    }
  }

  /** On arrival at the join the registers are as the next header expects them. */
  lemma RegionArrives(f: Function, segs: seq<Segment>, hs: Helpers, k: nat, start: BlockId, b: BlockId, regs: Regs, m: Mem, n: nat)
    requires WellFormed(f) && k < |segs| && start < |f.blocks| && InRange(f, segs[k].region)
    requires forall b: BlockId :: b in segs[k].region <==> b in Region.Blocks(f, start, segs[k].join)
    requires forall j: nat | j <= k :: Header(0, segs, j) !in SetOf(segs[k].region)
    requires OnlyFrom(f, Visited(segs, k) + {Header(0, segs, k)}, regs) && AddressesKept(f, segs, k + 1, regs)
    requires b in segs[k].region
    ensures match RunTo(f, hs, b, segs[k].join, regs, m, n)
            case At(r, _, _) => Arrived(f, segs, k + 1, r)
            case _ => true
  {
    var defs := RegionDefs(f, segs[k].region);
    RegionOnlyChanges(f, hs, segs[k], start, b, regs, m, n);
    var blocks := SetOf(segs[k].region);
    forall x | x in defs ensures exists b: BlockId, i: nat :: b in blocks && Defines(f, b, i, x) {
      RegionDefsHolds(f, segs[k].region, x);
    }
    match RunTo(f, hs, b, segs[k].join, regs, m, n) {
      case At(r, _, _) =>
        OnlyFromGrows(f, Visited(segs, k) + {Header(0, segs, k)}, defs, blocks, regs, r);
        AddressesSurvive(f, segs, k + 1, defs, blocks, regs, r);
      case _ =>
    }
  }

  /** Inside its region a redirected function runs as the original. */
  lemma {:induction false} RegionRunsAlike(
      f: Function, g: Function, hs: Helpers, seg: Segment, start: BlockId, b: BlockId, regs: Regs, m: Mem, n: nat)
    requires WellFormed(f) && start < |f.blocks| && |g.blocks| == |f.blocks|
    requires forall b: BlockId :: b in seg.region <==> b in Region.Blocks(f, start, seg.join)
    requires forall b | b in seg.region :: b < |f.blocks| && g.blocks[b] == f.blocks[b]
    requires b in seg.region || b == seg.join
    ensures RunTo(g, hs, b, seg.join, regs, m, n) == RunTo(f, hs, b, seg.join, regs, m, n)
    decreases n
  {
    hide WellFormed, Region.Blocks, ExecBlock;
    if b != seg.join && n > 0 {
      match ExecBlock(hs, f.blocks[b], regs, m) {
        case Moves(Goto(c), r, m') =>
          BlockGoesInside(f, hs, seg, start, b, regs, m);
          RegionRunsAlike(f, g, hs, seg, start, c, r, m', n - 1);
        case _ =>
      }
    }
  }

  lemma BlockGoesInside(f: Function, hs: Helpers, seg: Segment, start: BlockId, b: BlockId, regs: Regs, m: Mem)
    requires WellFormed(f) && start < |f.blocks| && b in Region.Blocks(f, start, seg.join)
    requires forall b: BlockId :: b in seg.region <==> b in Region.Blocks(f, start, seg.join)
    ensures b < |f.blocks|
    ensures match ExecBlock(hs, f.blocks[b], regs, m) case Moves(Goto(c), _, _) => c in seg.region || c == seg.join case _ => true
  {
    Region.SuccessorsStayInside(f, start, seg.join, b);
    match ExecBlock(hs, f.blocks[b], regs, m) {
      case Moves(Goto(c), r, _) => Region.ChosenIsSuccessor(f.blocks[b].term, r);
      case _ =>
    }
  }

  /** Segment `k` as the last lemmas need it: its facts, its wrapper, and where the headers and earlier blocks lie. */
  ghost predicate Ready(f: Function, g: Function, defined: set<FuncName>, segs: seq<Segment>, k: nat, w: Function)
    requires k < |segs|
  {
    && WellFormed(f) && f.nargs == 1 && RedirectedAt(f, g, segs, k) && segs[k].region != []
    && SegmentIs(f, defined, Header(0, segs, k), StartOf(f, Header(0, segs, k), segs[k]), segs[k])
    && segs[k].guard.triggerPtr.Gep? && segs[k].guard.triggerPtr.index.Const?
    && GuardOnlyHeader(f, segs, k) && HelperTakesRoot(f, segs[k])
    && WrapperOf(f, segs[k]) == Some(w)
    && (forall j: nat | j < k :: Header(0, segs, j) != Header(0, segs, k))
    && (forall j: nat | j <= k :: Header(0, segs, j) !in SetOf(segs[k].region))
    && (forall b | b in segs[k].region :: b !in Visited(segs, k) && b != Header(0, segs, k))
  }

  lemma ActiveInStep(f: Function, g: Function, defined: set<FuncName>, segs: seq<Segment>, k: nat, w: Function, hs: Helpers, regs: Regs, r: Regs, m: Mem, n: nat)
    requires k < |segs| && Ready(f, g, defined, segs, k, w)
    requires OnlyFrom(f, Visited(segs, k) + {Header(0, segs, k)}, regs) && AddressesKept(f, segs, k + 1, regs)
    requires r.Keys == {0, 1, 2, 3}
    ensures var inPlace := RunTo(g, hs, segs[k].region[0], segs[k].join, regs, m, n);
            && InStep(inPlace, w, hs, r, m, n)
            && (inPlace.At? ==> Arrived(f, segs, k + 1, inPlace.regs))
  {
    var h := Header(0, segs, k);
    var start, entry := StartOf(f, h, segs[k]), segs[k].region[0];
    assert entry in segs[k].region;
    RegionArrives(f, segs, hs, k, start, entry, regs, m, n);
    RegionRunsAlike(f, g, hs, segs[k], start, entry, regs, m, n);
    if segs[k].callee.Some? && |segs[k].region| == 1 {
      assert start in segs[k].region;
      assert segs[k].region == [start];
      CallInStep(f, defined, h, start, segs[k], w, hs, regs, r, m, n);
    } else {
      forall x | x in RegionDefs(f, segs[k].region) ensures x !in regs {
        RegionDefsHolds(f, segs[k].region, x);
      }
      CloneInStep(f, defined, h, start, segs[k], w, hs, regs, r, m, n);
    }
  }

  // ---- from one header to the next ---------------------------------------------------------------------------------

  /** Control passes from `h` to `join`: whatever is yielded from one is yielded from the other. */
  ghost predicate PassesTo(f: Function, hs: Helpers, h: BlockId, regs: Regs, m: Mem, join: BlockId, regs': Regs, m': Mem) {
    forall o :: YieldsFrom(f, hs, h, regs, m, o) <==> YieldsFrom(f, hs, join, regs', m', o)
  }

  lemma SkipPasses(f: Function, hs: Helpers, h: BlockId, regs: Regs, m: Mem, next: BlockId, regs': Regs)
    requires h < |f.blocks| && ExecBlock(hs, f.blocks[h], regs, m) == Moves(Goto(next), regs', m)
    ensures PassesTo(f, hs, h, regs, m, next, regs', m)
  {
    forall o ensures YieldsFrom(f, hs, h, regs, m, o) <==> YieldsFrom(f, hs, next, regs', m, o) {
      if YieldsFrom(f, hs, h, regs, m, o) {
        var n: nat :| Run(f, hs, h, regs, m, n) == o;
        assert Run(f, hs, next, regs', m, n - 1) == o;
      }
      if YieldsFrom(f, hs, next, regs', m, o) {
        var n: nat :| Run(f, hs, next, regs', m, n) == o;
        assert Run(f, hs, h, regs, m, n + 1) == o;
      }
    }
  }

  /** A run from the region with fuel to spare goes on from the join. */
  lemma RunGoesOn(f: Function, hs: Helpers, start: BlockId, regs: Regs, m: Mem, join: BlockId, n: nat, more: nat)
    requires RunTo(f, hs, start, join, regs, m, n).At?
    ensures var a := RunTo(f, hs, start, join, regs, m, n);
            Run(f, hs, start, regs, m, n + more) == Run(f, hs, join, a.regs, a.mem, a.left + more)
  {
    hide Run, RunTo;
    RunToMonotone(f, hs, start, join, regs, m, n, more);
    RunSplitsAt(f, hs, start, join, regs, m, n + more);
  }

  lemma RegionPasses(f: Function, hs: Helpers, start: BlockId, regs: Regs, m: Mem, join: BlockId, n: nat)
    requires RunTo(f, hs, start, join, regs, m, n).At?
    ensures PassesTo(f, hs, start, regs, m, join, RunTo(f, hs, start, join, regs, m, n).regs, RunTo(f, hs, start, join, regs, m, n).mem)
  {
    hide Run, RunTo;
    var a := RunTo(f, hs, start, join, regs, m, n);
    forall o ensures YieldsFrom(f, hs, start, regs, m, o) <==> YieldsFrom(f, hs, join, a.regs, a.mem, o) {
      if YieldsFrom(f, hs, start, regs, m, o) {
        var n': nat :| Run(f, hs, start, regs, m, n') == o;
        RunMonotone(f, hs, start, regs, m, n', n + n');
        RunGoesOn(f, hs, start, regs, m, join, n, n');
      }
      if YieldsFrom(f, hs, join, a.regs, a.mem, o) {
        var n': nat :| Run(f, hs, join, a.regs, a.mem, n') == o;
        RunMonotone(f, hs, join, a.regs, a.mem, n', a.left + n');
        RunGoesOn(f, hs, start, regs, m, join, n, n');
      }
    }
  }

  /** What segment `k` does to a state, in place and in its wrapper alike. */
  datatype SegmentResult = Passes(regs: Regs, mem: Mem) | SegmentTraps | SegmentDiverges

  ghost predicate Realised(f: Function, g: Function, segs: seq<Segment>, k: nat, w: Function, hs: Helpers, regs: Regs, m: Mem, res: SegmentResult)
    requires k < |segs|
  {
    var h := Header(0, segs, k);
    match res
    case Passes(r, m') => PassesTo(g, hs, h, regs, m, segs[k].join, r, m') && Arrived(f, segs, k + 1, r) && Yields(w, hs, m, Done(m'))
    case SegmentTraps => YieldsFrom(g, hs, h, regs, m, Trapped) && Yields(w, hs, m, Trapped)
    case SegmentDiverges => forall o :: !YieldsFrom(g, hs, h, regs, m, o) && !Yields(w, hs, m, o)
  }

  lemma AlwaysInStep(f: Function, g: Function, defined: set<FuncName>, segs: seq<Segment>, k: nat, w: Function, hs: Helpers, entry: BlockId, regs: Regs, r: Regs, m: Mem)
    requires k < |segs| && Ready(f, g, defined, segs, k, w) && entry == segs[k].region[0]
    requires OnlyFrom(f, Visited(segs, k) + {Header(0, segs, k)}, regs) && AddressesKept(f, segs, k + 1, regs)
    requires r.Keys == {0, 1, 2, 3}
    ensures forall n: nat :: InStep(RunTo(g, hs, entry, segs[k].join, regs, m, n), w, hs, r, m, n)
    ensures forall n: nat :: RunTo(g, hs, entry, segs[k].join, regs, m, n).At? ==>
              Arrived(f, segs, k + 1, RunTo(g, hs, entry, segs[k].join, regs, m, n).regs)
  {
    forall n: nat
      ensures InStep(RunTo(g, hs, entry, segs[k].join, regs, m, n), w, hs, r, m, n)
      ensures RunTo(g, hs, entry, segs[k].join, regs, m, n).At? ==> Arrived(f, segs, k + 1, RunTo(g, hs, entry, segs[k].join, regs, m, n).regs)
    {
      ActiveInStep(f, g, defined, segs, k, w, hs, regs, r, m, n);
    }
  }

  /** An active segment, from its header's move into the region. */
  lemma ActiveSegment(f: Function, g: Function, segs: seq<Segment>, k: nat, w: Function, hs: Helpers, entry: BlockId, regs: Regs, r1: Regs, r: Regs, m: Mem)
    returns (res: SegmentResult)
    requires k < |segs| && Header(0, segs, k) < |g.blocks|
    requires ExecBlock(hs, g.blocks[Header(0, segs, k)], regs, m) == Moves(Goto(entry), r1, m)
    requires forall n: nat :: InStep(RunTo(g, hs, entry, segs[k].join, r1, m, n), w, hs, r, m, n)
    requires forall n: nat :: RunTo(g, hs, entry, segs[k].join, r1, m, n).At? ==>
               Arrived(f, segs, k + 1, RunTo(g, hs, entry, segs[k].join, r1, m, n).regs)
    requires forall j: nat :: Run(w, hs, 0, map[], m, j + 1) == Run(w, hs, FIRST_CLONE, r, m, j)
    ensures Realised(f, g, segs, k, w, hs, regs, m, res)
  {
    SkipPasses(g, hs, Header(0, segs, k), regs, m, entry, r1);
    res := ActiveRealised(g, hs, entry, segs[k].join, r1, m, w, r);
  }

  lemma UnreadableSegment(f: Function, g: Function, segs: seq<Segment>, k: nat, w: Function, hs: Helpers, regs: Regs, m: Mem)
    requires k < |segs| && Header(0, segs, k) < |g.blocks|
    requires ExecBlock(hs, g.blocks[Header(0, segs, k)], regs, m) == BlockTraps && Run(w, hs, 0, map[], m, 1) == Trapped
    ensures Realised(f, g, segs, k, w, hs, regs, m, SegmentTraps)
  {
    assert Run(g, hs, Header(0, segs, k), regs, m, 1) == Trapped;
  }

  lemma InactiveSegment(f: Function, g: Function, segs: seq<Segment>, k: nat, w: Function, hs: Helpers, regs: Regs, r1: Regs, m: Mem)
    requires k < |segs| && Header(0, segs, k) < |g.blocks|
    requires ExecBlock(hs, g.blocks[Header(0, segs, k)], regs, m) == Moves(Goto(segs[k].join), r1, m)
    requires Run(w, hs, 0, map[], m, 2) == Done(m) && Arrived(f, segs, k + 1, r1)
    ensures Realised(f, g, segs, k, w, hs, regs, m, Passes(r1, m))
  {
    SkipPasses(g, hs, Header(0, segs, k), regs, m, segs[k].join, r1);
  }

  lemma SegmentRealised(f: Function, g: Function, defined: set<FuncName>, segs: seq<Segment>, k: nat, w: Function, hs: Helpers, regs: Regs, m: Mem)
    returns (res: SegmentResult)
    requires k < |segs| && Ready(f, g, defined, segs, k, w) && Arrived(f, segs, k, regs)
    ensures Realised(f, g, segs, k, w, hs, regs, m, res)
  {
    var h, seg := Header(0, segs, k), segs[k];
    HeaderRuns(f, defined, hs, segs, k, regs, m);
    WrapperEntry(f, seg, w, hs, m);
    if !GuardReadable(seg.guard, m) {
      UnreadableSegment(f, g, segs, k, w, hs, regs, m);
      return SegmentTraps;
    }
    var r1 := ExecBlock(hs, g.blocks[h], regs, m).regs;
    if !Active(seg, m) {
      AddressesKeptAtJoin(f, segs, k, r1);
      InactiveSegment(f, g, segs, k, w, hs, regs, r1, m);
      return Passes(r1, m);
    }
    var r := EntersClone(f, seg, w, hs, m);
    AlwaysInStep(f, g, defined, segs, k, w, hs, seg.region[0], r1, r, m);
    res := ActiveSegment(f, g, segs, k, w, hs, seg.region[0], regs, r1, r, m);
  }

  /** A region skipped leaves the registers as the next header expects them, too. */
  lemma AddressesKeptAtJoin(f: Function, segs: seq<Segment>, k: nat, regs: Regs)
    requires k < |segs|
    requires OnlyFrom(f, Visited(segs, k) + {Header(0, segs, k)}, regs) && AddressesKept(f, segs, k + 1, regs)
    ensures Arrived(f, segs, k + 1, regs)
  {
  }

  lemma ActiveRealised(f: Function, hs: Helpers, start: BlockId, join: BlockId, r1: Regs, m: Mem, w: Function, r: Regs)
    returns (res: SegmentResult)
    requires forall n: nat :: InStep(RunTo(f, hs, start, join, r1, m, n), w, hs, r, m, n)
    requires forall j: nat :: Run(w, hs, 0, map[], m, j + 1) == Run(w, hs, FIRST_CLONE, r, m, j)
    ensures match res
            case Passes(r2, m2) => PassesTo(f, hs, start, r1, m, join, r2, m2) && Yields(w, hs, m, Done(m2))
              && exists n: nat :: RunTo(f, hs, start, join, r1, m, n).At? && RunTo(f, hs, start, join, r1, m, n).regs == r2
            case SegmentTraps => YieldsFrom(f, hs, start, r1, m, Trapped) && Yields(w, hs, m, Trapped)
            case SegmentDiverges => forall o :: !YieldsFrom(f, hs, start, r1, m, o) && !Yields(w, hs, m, o)
  {
    if n: nat :| RunTo(f, hs, start, join, r1, m, n) != NotYet {
      assert InStep(RunTo(f, hs, start, join, r1, m, n), w, hs, r, m, n);
      match RunTo(f, hs, start, join, r1, m, n) {
        case At(r2, m2, _) =>
          RegionPasses(f, hs, start, r1, m, join, n);
          assert Run(w, hs, 0, map[], m, n + 2) == Done(m2);
          return Passes(r2, m2);
        case NeverTrapped =>
          RunSplitsAt(f, hs, start, join, r1, m, n);
          assert Run(w, hs, 0, map[], m, n + 1) == Trapped;
          return SegmentTraps;
      }
    } else {
      forall n: nat ensures Run(f, hs, start, r1, m, n) == NoAnswer && Run(w, hs, 0, map[], m, n) == NoAnswer {
        RunSplitsAt(f, hs, start, join, r1, m, n);
        if n > 0 {
          assert InStep(RunTo(f, hs, start, join, r1, m, n - 1), w, hs, r, m, n - 1);
        }
      }
      return SegmentDiverges;
    }
  }

  lemma ChainAfter(w: Function, rest: seq<Function>, hs: Helpers, m: Mem, m': Mem, o: Outcome)
    requires Yields(w, hs, m, Done(m'))
    ensures ChainYields([w] + rest, hs, m, o) <==> ChainYields(rest, hs, m', o)
  {
    hide Run;
    var k: nat :| Run(w, hs, 0, map[], m, k) == Done(m');
    assert ([w] + rest)[1..] == rest;
    if ChainYields(rest, hs, m', o) {
      var n: nat :| RunChain(rest, hs, m', n) == o;
      RunMonotone(w, hs, 0, map[], m, k, k + n);
      ChainMonotone(rest, hs, m', n, k + n);
      assert RunChain([w] + rest, hs, m, k + n) == o;
    }
    if ChainYields([w] + rest, hs, m, o) {
      var n: nat :| RunChain([w] + rest, hs, m, n) == o;
      RunMonotone(w, hs, 0, map[], m, k, k + n);
      RunMonotone(w, hs, 0, map[], m, n, k + n);
      assert RunChain(rest, hs, m', n) == o;
    }
  }

  lemma ChainStopsWith(w: Function, rest: seq<Function>, hs: Helpers, m: Mem, o: Outcome)
    requires Yields(w, hs, m, Trapped) || forall o' :: !Yields(w, hs, m, o')
    ensures ChainYields([w] + rest, hs, m, o) <==> o == Trapped && Yields(w, hs, m, Trapped)
  {
    if Yields(w, hs, m, Trapped) {
      var k: nat :| Run(w, hs, 0, map[], m, k) == Trapped;
      assert RunChain([w] + rest, hs, m, k) == Trapped;
    }
    if ChainYields([w] + rest, hs, m, o) {
      var n: nat :| RunChain([w] + rest, hs, m, n) == o;
      assert Yields(w, hs, m, Run(w, hs, 0, map[], m, n));
      if Yields(w, hs, m, Trapped) {
        YieldsIsUnique(w, hs, m, Trapped, Run(w, hs, 0, map[], m, n));
      }
    }
  }

  lemma YieldsFromIsUnique(f: Function, hs: Helpers, b: BlockId, regs: Regs, m: Mem, o: Outcome, o': Outcome)
    requires YieldsFrom(f, hs, b, regs, m, o) && YieldsFrom(f, hs, b, regs, m, o')
    ensures o == o'
  {
    var n: nat :| Run(f, hs, b, regs, m, n) == o;
    var n': nat :| Run(f, hs, b, regs, m, n') == o';
    RunMonotone(f, hs, b, regs, m, n, n + n');
    RunMonotone(f, hs, b, regs, m, n', n + n');
  }

  /** What a realised segment says of everything from its header on. */
  lemma SegmentDecides(f: Function, g: Function, segs: seq<Segment>, k: nat, w: Function, rest: seq<Function>, hs: Helpers, regs: Regs,
                       m: Mem, res: SegmentResult, o: Outcome)
    requires k < |segs| && Realised(f, g, segs, k, w, hs, regs, m, res)
    ensures res.Passes? ==>
              Arrived(f, segs, k + 1, res.regs)
              && (YieldsFrom(g, hs, Header(0, segs, k), regs, m, o)
                  <==> YieldsFrom(g, hs, Header(0, segs, k + 1), res.regs, res.mem, o))
              && (ChainYields([w] + rest, hs, m, o) <==> ChainYields(rest, hs, res.mem, o))
    ensures !res.Passes? ==>
              (YieldsFrom(g, hs, Header(0, segs, k), regs, m, o) <==> ChainYields([w] + rest, hs, m, o))
  {
    match res {
      case Passes(r, m') => ChainAfter(w, rest, hs, m, m', o);
      case SegmentTraps =>
        ChainStopsWith(w, rest, hs, m, o);
        if YieldsFrom(g, hs, Header(0, segs, k), regs, m, o) {
          YieldsFromIsUnique(g, hs, Header(0, segs, k), regs, m, o, Trapped);
        }
      case SegmentDiverges => ChainStopsWith(w, rest, hs, m, o);
    }
  }

  /** The last header returns with the memory as it is, as the empty chain does. */
  lemma LastHeaderReturns(f: Function, hs: Helpers, b: BlockId, regs: Regs, m: Mem, o: Outcome)
    requires b < |f.blocks| && TrivialReturn(f.blocks[b])
    ensures YieldsFrom(f, hs, b, regs, m, o) <==> ChainYields([], hs, m, o)
  {
    assert ExecBlock(hs, f.blocks[b], regs, m) == Moves(Leave, regs, m);
    assert Run(f, hs, b, regs, m, 1) == Done(m);
    assert RunChain([], hs, m, 0) == Done(m);
  }

  /** From header `k` on, the function and the remaining wrappers yield the same. */
  lemma {:induction false} SuffixMeans(
      f: Function, g: Function, defined: set<FuncName>, segs: seq<Segment>, ws: seq<Function>, hs: Helpers, k: nat, regs: Regs, m: Mem, o: Outcome)
    requires k <= |segs| == |ws|
    requires forall i | 0 <= i < |segs| :: Ready(f, g, defined, segs, i, ws[i])
    requires Header(0, segs, |segs|) < |g.blocks| && TrivialReturn(g.blocks[Header(0, segs, |segs|)])
    requires Arrived(f, segs, k, regs)
    ensures YieldsFrom(g, hs, Header(0, segs, k), regs, m, o) <==> ChainYields(ws[k..], hs, m, o)
    decreases |segs| - k
  {
    hide Ready, YieldsFrom, ChainYields, Arrived, Realised, TrivialReturn;
    if k == |segs| {
      LastHeaderReturns(g, hs, Header(0, segs, k), regs, m, o);
      assert ws[k..] == [];
    } else {
      assert Ready(f, g, defined, segs, k, ws[k]);
      var res := SegmentRealised(f, g, defined, segs, k, ws[k], hs, regs, m);
      assert ws[k..] == [ws[k]] + ws[k + 1..];
      SegmentDecides(f, g, segs, k, ws[k], ws[k + 1..], hs, regs, m, res, o);
      if res.Passes? { SuffixMeans(f, g, defined, segs, ws, hs, k + 1, res.regs, res.mem, o); }
    }
  }

  lemma SettingReady(f: Function, g: Function, defined: set<FuncName>, segs: seq<Segment>, k: nat, w: Function)
    requires WellFormed(f) && f.nargs == 1 && k < |segs| && RedirectedAt(f, g, segs, k) && segs[k].region != []
    requires Chained(f, Headers(segs), Starts(f, segs))
    requires forall i | 0 <= i < |segs| :: Listed(f, segs, i)
    requires SegmentIs(f, defined, Header(0, segs, k), StartOf(f, Header(0, segs, k), segs[k]), segs[k])
    requires GuardOnlyHeader(f, segs, k) && HelperTakesRoot(f, segs[k])
    requires segs[k].guard.triggerPtr.Gep? && segs[k].guard.triggerPtr.index.Const? && WrapperOf(f, segs[k]) == Some(w)
    ensures Ready(f, g, defined, segs, k, w)
  {
    HeadersOutsideRegion(f, segs, k);
    VisitedApart(f, segs, k, k);
    forall j: nat | j < k ensures Header(0, segs, j) != Header(0, segs, k) {
      assert Headers(segs)[j] != Headers(segs)[k];
    }
  }

  lemma SegmentIsListed(f: Function, defined: set<FuncName>, segs: seq<Segment>, k: nat)
    requires k < |segs| && WellFormed(f)
    requires SegmentIs(f, defined, Header(0, segs, k), StartOf(f, Header(0, segs, k), segs[k]), segs[k])
    ensures Listed(f, segs, k) && segs[k].region != []
  {
    hide WellFormed, Carved, UsesOnlyRootArg, ParseTriggerMaskTest, CalleeOf, StartOf;
    RegionHasStart(f, Header(0, segs, k), StartOf(f, Header(0, segs, k), segs[k]), segs[k]);
  }

  lemma RegionHasStart(f: Function, h: BlockId, start: BlockId, seg: Segment)
    requires Carved(f, h, start, seg.join) && seg.region == RegionOf(f, start, seg.join)
    ensures start in seg.region
  {
  }

  lemma RegionIsUntouched(f: Function, segs: seq<Segment>, k: nat)
    requires WellFormed(f) && Chained(f, Headers(segs), Starts(f, segs)) && k < |segs| && Listed(f, segs, k)
    requires Header(0, segs, k) < |f.blocks| && InRange(f, segs[k].region)
    ensures RedirectedAt(f, Redirected(f, segs), segs, k)
  {
    HeadersAreDistinct(f, segs);
    HeaderIsRedirected(f.blocks, segs, |segs|, k);
    HeadersOutsideRegion(f, segs, k);
    forall b | b in segs[k].region ensures Redirected(f, segs).blocks[b] == f.blocks[b] {
      OtherBlocksStay(f.blocks, segs, |segs|, b);
    }
  }

  lemma HeadersAreDistinct(f: Function, segs: seq<Segment>)
    requires Chained(f, Headers(segs), Starts(f, segs))
    ensures forall i, j :: 0 <= i < j <= |segs| ==> Header(0, segs, i) != Header(0, segs, j)
  {
    forall i, j | 0 <= i < j <= |segs| ensures Header(0, segs, i) != Header(0, segs, j) {
      assert Headers(segs)[i] != Headers(segs)[j];
    }
  }

  lemma GuardsAreGeps(f: Function, defined: set<FuncName>, segs: seq<Segment>)
    requires WellFormed(f) && Extract(f, defined) == Some(segs)
    ensures forall i | 0 <= i < |segs| :: segs[i].guard.triggerPtr.Gep? && segs[i].guard.triggerPtr.index.Const?
  {
    ExtractedIsChain(f, defined, 0, {});
    forall i | 0 <= i < |segs| ensures segs[i].guard.triggerPtr.Gep? && segs[i].guard.triggerPtr.index.Const? {
      SegmentFacts(f, defined, Header(0, segs, i), segs[i]);
    }
  }

  /** Every segment of an accepted function is ready, and its last header returns. */
  lemma ExtractedReady(f: Function, defined: set<FuncName>, segs: seq<Segment>, ws: seq<Function>)
    requires WellFormed(f) && Extract(f, defined) == Some(segs) && AssumedOfCode(f, segs)
    requires forall i | 0 <= i < |segs| :: segs[i].guard.triggerPtr.Gep?
    requires WrapAll(f, segs) == Some(ws)
    ensures |ws| == |segs| && forall k | 0 <= k < |segs| :: Ready(f, Redirected(f, segs), defined, segs, k, ws[k])
    ensures var g := Redirected(f, segs);
            Header(0, segs, |segs|) < |g.blocks| && TrivialReturn(g.blocks[Header(0, segs, |segs|)])
  {
    hide Ready, GuardOnlyHeader;
    ExtractedIsChain(f, defined, 0, {});
    ChainIsChained(f, defined, segs);
    GuardsAreGeps(f, defined, segs);
    WrapAllPointwise(f, segs);
    forall k | 0 <= k < |segs|
      ensures SegmentIs(f, defined, Header(0, segs, k), StartOf(f, Header(0, segs, k), segs[k]), segs[k])
      ensures Listed(f, segs, k) && segs[k].region != []
    {
      SegmentFacts(f, defined, Header(0, segs, k), segs[k]);
      SegmentIsListed(f, defined, segs, k);
    }
    HeadersAreDistinct(f, segs);
    OtherBlocksStay(f.blocks, segs, |segs|, Header(0, segs, |segs|));
    forall k | 0 <= k < |segs| ensures Ready(f, Redirected(f, segs), defined, segs, k, ws[k]) {
      RegionIsUntouched(f, segs, k);
      SettingReady(f, Redirected(f, segs), defined, segs, k, ws[k]);
    }
  }

  /**
   What the wrappers mean, whatever the order of the blocks: calling them in order yields exactly what the function
   yields that differs from `f` in that each guard leads to the first listed block of its region. So the wrappers agree
   with `f` exactly when that function does.
   */
  lemma SplitMeansRedirected(f: Function, defined: set<FuncName>, segs: seq<Segment>, ws: seq<Function>, hs: Helpers, m: Mem)
    requires WellFormed(f) && Extract(f, defined) == Some(segs) && AssumedOfCode(f, segs)
    requires forall i | 0 <= i < |segs| :: segs[i].guard.triggerPtr.Gep?
    requires WrapAll(f, segs) == Some(ws)
    ensures forall o :: Yields(Redirected(f, segs), hs, m, o) <==> ChainYields(ws, hs, m, o)
    ensures (forall o :: Yields(f, hs, m, o) <==> ChainYields(ws, hs, m, o))
       <==> (forall o :: Yields(f, hs, m, o) <==> Yields(Redirected(f, segs), hs, m, o))
  {
    hide Ready, WellFormed, AssumedOfCode, TrivialReturn, Redirected;
    var g := Redirected(f, segs);
    ExtractedReady(f, defined, segs, ws);
    NothingArrived(f, segs);
    forall o ensures Yields(g, hs, m, o) <==> ChainYields(ws, hs, m, o) {
      SuffixMeans(f, g, defined, segs, ws, hs, 0, map[], m, o);
      assert ws[0..] == ws;
    }
  }

  lemma NothingArrived(f: Function, segs: seq<Segment>)
    ensures Arrived(f, segs, 0, map[])
  {
  }

  /**
   Meaning preservation. When the extractor accepts `f`, every wrapper is built, and `f` has the shape that the
   splitter assumes, then on every state, whatever the helpers do, calling the wrappers in order yields exactly what
   calling `f` yields: the same final memory, a trap for a trap, and divergence for divergence.
   */
  lemma SplitPreservesMeaning(f: Function, defined: set<FuncName>, segs: seq<Segment>, ws: seq<Function>, hs: Helpers, m: Mem, o: Outcome)
    requires WellFormed(f) && Extract(f, defined) == Some(segs) && Assumed(f, segs)
    requires forall i | 0 <= i < |segs| :: segs[i].guard.triggerPtr.Gep?
    requires WrapAll(f, segs) == Some(ws)
    ensures Yields(f, hs, m, o) <==> ChainYields(ws, hs, m, o)
  {
    hide Yields, ChainYields, AssumedOfCode;
    SplitMeansRedirected(f, defined, segs, ws, hs, m);
    NothingRedirected(f, segs, |segs|);
    assert Redirected(f, segs) == f;
  }
}
