/** The segment chain, run wrapper by wrapper, means what `___eval_nba` means. */
module SplitMeaning {
  import opened Prelude
  import opened Cfg
  import opened Segments
  import opened Wrapper
  import opened ChainLayout
  import opened CloneSim
  import opened GuardEval
  import Region

  // ---- what the splitter relies on but does not check --------------------------------------------------------------

  /** The trigger's address is computed before the load: in this header, or in one of the earlier headers. */
  ghost predicate AddressReady(f: Function, segs: seq<Segment>, k: nat, gep: Instr, l: nat)
    requires k <= |segs|
  {
    || (exists i: nat :: i < l && InstrAt(f, Header(0, segs, k), i, gep))
    || (exists j: nat, i: nat :: j < k && InstrAt(f, Header(0, segs, j), i, gep))
  }

  predicate InstrAt(f: Function, b: BlockId, i: nat, instr: Instr) {
    b < |f.blocks| && i < |f.blocks[b].instrs| && f.blocks[b].instrs[i] == instr
  }

  /** Header `k` computes its guard and nothing else, and loads the trigger word itself. */
  ghost predicate GuardOnlyHeader(f: Function, segs: seq<Segment>, k: nat)
    requires k < |segs|
  {
    var h := Header(0, segs, k);
    && h < |f.blocks| && f.blocks[h].term.CondBr?
    && MatchTest(f, f.blocks[h].term.cond).Some?
    && var chain := MatchTest(f, f.blocks[h].term.cond).value;
    exists l: nat, a: nat, c: nat :: GuardCode(f.blocks[h].instrs, chain, l, a, c) && AddressReady(f, segs, k, chain.gep, l)
  }

  /** The region's entry is its first block in layout order. */
  predicate EntryIsFirst(f: Function, segs: seq<Segment>, k: nat)
    requires k < |segs|
  {
    segs[k].region != [] && segs[k].region[0] == StartOf(f, Header(0, segs, k), segs[k])
  }

  /** A region that is one helper call passes the root argument and nothing else. */
  predicate HelperTakesRoot(f: Function, seg: Segment) {
    seg.callee.Some? && |seg.region| == 1 && seg.region[0] < |f.blocks| ==>
      forall i | 0 <= i < |f.blocks[seg.region[0]].instrs| ::
        f.blocks[seg.region[0]].instrs[i].Call? ==> f.blocks[seg.region[0]].instrs[i].args == [Arg(0)]
  }

  /** Everything but the order of the blocks. */
  ghost predicate AssumedOfCode(f: Function, segs: seq<Segment>) {
    && f.nargs == 1
    && (forall k | 0 <= k < |segs| :: GuardOnlyHeader(f, segs, k) && HelperTakesRoot(f, segs[k]))
  }

  predicate AssumedOfLayout(f: Function, segs: seq<Segment>) {
    forall k | 0 <= k < |segs| :: EntryIsFirst(f, segs, k)
  }

  ghost predicate Assumed(f: Function, segs: seq<Segment>) {
    AssumedOfCode(f, segs) && AssumedOfLayout(f, segs)
  }

  // ---- the chain in terms of headers and starts ----------------------------------------------------------------------

  function StartOf(f: Function, h: BlockId, seg: Segment): BlockId {
    if h < |f.blocks| && f.blocks[h].term.CondBr?
    then if seg.executeOnTrue then f.blocks[h].term.ifTrue else f.blocks[h].term.ifFalse
    else 0
  }

  function Headers(segs: seq<Segment>): seq<BlockId> {
    seq(|segs| + 1, k requires 0 <= k <= |segs| => Header(0, segs, k))
  }

  function Starts(f: Function, segs: seq<Segment>): seq<BlockId> {
    seq(|segs|, k requires 0 <= k < |segs| => StartOf(f, Header(0, segs, k), segs[k]))
  }

  /** What the extractor established about header `h` and its segment. */
  ghost predicate SegmentIs(f: Function, defined: set<FuncName>, h: BlockId, start: BlockId, seg: Segment) {
    && h < |f.blocks| && start < |f.blocks| && seg.join < |f.blocks|
    && f.blocks[h].term.CondBr?
    && f.blocks[h].term == (if seg.executeOnTrue then CondBr(f.blocks[h].term.cond, start, seg.join)
                            else CondBr(f.blocks[h].term.cond, seg.join, start))
    && Carved(f, h, start, seg.join)
    && seg.region == RegionOf(f, start, seg.join)
    && UsesOnlyRootArg(f, seg.region)
    && ParseTriggerMaskTest(f, f.blocks[h].term.cond) == Some(seg.guard)
    && seg.callee == CalleeOf(f, defined, start, seg.join, seg.region)
  }

  lemma SegmentFacts(f: Function, defined: set<FuncName>, h: BlockId, seg: Segment)
    requires WellFormed(f) && SegmentAt(f, defined, h) == Some(seg)
    ensures SegmentIs(f, defined, h, StartOf(f, h, seg), seg)
    ensures seg.guard.triggerPtr.Gep? && seg.guard.triggerPtr.index.Const?
  {
    BranchTargetsExist(f, h);
  }

  lemma HeaderIsCarved(f: Function, defined: set<FuncName>, segs: seq<Segment>, k: nat)
    requires WellFormed(f) && IsChain(f, defined, 0, segs) && k < |segs|
    ensures Carved(f, Header(0, segs, k), StartOf(f, Header(0, segs, k), segs[k]), segs[k].join)
  {
    SegmentFacts(f, defined, Header(0, segs, k), segs[k]);
  }

  lemma ChainIsChained(f: Function, defined: set<FuncName>, segs: seq<Segment>)
    requires WellFormed(f) && IsChain(f, defined, 0, segs)
    ensures Chained(f, Headers(segs), Starts(f, segs))
  {
    hide Carved, WellFormed, SegmentAt, TrivialReturn, StartOf;
    forall k | 0 <= k < |segs| ensures Carved(f, Headers(segs)[k], Starts(f, segs)[k], Headers(segs)[k + 1]) {
      HeaderIsCarved(f, defined, segs, k);
    }
  }

  // ---- the function that the wrappers mean --------------------------------------------------------------------------------

  /** The branch of a header, its active side led to the first listed block of the region. */
  function RedirectTerm(t: Terminator, seg: Segment): Terminator
    requires t.CondBr? && seg.region != []
  {
    if seg.executeOnTrue then CondBr(t.cond, seg.region[0], t.ifFalse) else CondBr(t.cond, t.ifTrue, seg.region[0])
  }

  function RedirectBlock(blk: Block, seg: Segment): Block {
    if blk.term.CondBr? && seg.region != [] then Block(blk.instrs, RedirectTerm(blk.term, seg)) else blk
  }

  /** The blocks of `f` with the branches of the first `k` headers redirected. */
  function RedirectUpTo(blocks: seq<Block>, segs: seq<Segment>, k: nat): (r: seq<Block>)
    requires k <= |segs|
    ensures |r| == |blocks|
  {
    if k == 0 then blocks
    else
      var r := RedirectUpTo(blocks, segs, k - 1);
      var h := Header(0, segs, k - 1);
      if h < |r| then r[h := RedirectBlock(r[h], segs[k - 1])] else r
  }

  /** `f` with every guard's active edge led to the first listed block of its region, where the wrapper enters. */
  function Redirected(f: Function, segs: seq<Segment>): Function {
    Function(f.nargs, RedirectUpTo(f.blocks, segs, |segs|))
  }

  lemma {:induction false} OtherBlocksStay(blocks: seq<Block>, segs: seq<Segment>, k: nat, b: BlockId)
    requires k <= |segs| && b < |blocks| && forall j: nat | j < k :: Header(0, segs, j) != b
    ensures RedirectUpTo(blocks, segs, k)[b] == blocks[b]
  {
    if k > 0 { OtherBlocksStay(blocks, segs, k - 1, b); }
  }

  lemma {:induction false} HeaderIsRedirected(blocks: seq<Block>, segs: seq<Segment>, k: nat, j: nat)
    requires j < k <= |segs| && Header(0, segs, j) < |blocks|
    requires forall i | 0 <= i <= |segs| && i != j :: Header(0, segs, i) != Header(0, segs, j)
    ensures RedirectUpTo(blocks, segs, k)[Header(0, segs, j)] == RedirectBlock(blocks[Header(0, segs, j)], segs[j])
  {
    hide Header, RedirectBlock;
    if j == k - 1 {
      OtherBlocksStay(blocks, segs, k - 1, Header(0, segs, j));
    } else {
      HeaderIsRedirected(blocks, segs, k - 1, j);
    }
  }

  /** `g` is `f` but for the redirected branch of header `k`, as far as segment `k` runs. */
  predicate RedirectedAt(f: Function, g: Function, segs: seq<Segment>, k: nat)
    requires k < |segs|
  {
    var h := Header(0, segs, k);
    && |g.blocks| == |f.blocks| && h < |f.blocks| && g.blocks[h] == RedirectBlock(f.blocks[h], segs[k])
    && forall b | b in segs[k].region :: b < |f.blocks| && g.blocks[b] == f.blocks[b]
  }

  /** Where every region's entry is listed first, nothing is redirected. */
  lemma {:induction false} NothingRedirected(f: Function, segs: seq<Segment>, k: nat)
    requires k <= |segs| && AssumedOfLayout(f, segs)
    ensures RedirectUpTo(f.blocks, segs, k) == f.blocks
  {
    if k > 0 {
      NothingRedirected(f, segs, k - 1);
      assert EntryIsFirst(f, segs, k - 1);
    }
  }

  // ---- what the registers hold on arrival at a header ------------------------------------------------------------------

  /** Blocks that may have run before header `k` is entered. */
  ghost function Visited(segs: seq<Segment>, k: nat): set<BlockId>
    requires k <= |segs|
  {
    if k == 0 then {} else Visited(segs, k - 1) + {Header(0, segs, k - 1)} + SetOf(segs[k - 1].region)
  }

  ghost predicate Listed(f: Function, segs: seq<Segment>, k: nat)
    requires k < |segs|
  {
    forall b: BlockId :: b in segs[k].region <==> b in RegionAt(f, Headers(segs), Starts(f, segs), k)
  }

  lemma {:induction false} VisitedApart(f: Function, segs: seq<Segment>, k: nat, j: nat)
    requires WellFormed(f) && Chained(f, Headers(segs), Starts(f, segs)) && j <= k < |segs|
    requires forall i | 0 <= i < |segs| :: Listed(f, segs, i)
    ensures forall b | b in segs[k].region :: b !in Visited(segs, j) && b != Header(0, segs, k)
  {
    var starts, headers := Starts(f, segs), Headers(segs);
    assert Listed(f, segs, k);
    HeaderOutside(f, headers, starts, k, k);
    if j > 0 {
      VisitedApart(f, segs, k, j - 1);
      assert Listed(f, segs, j - 1);
      HeaderOutside(f, headers, starts, j - 1, k);
      RegionsDisjoint(f, headers, starts, j - 1, k);
      forall b | b in segs[k].region ensures b !in Visited(segs, j) {
        assert b in RegionAt(f, headers, starts, k) && b !in RegionAt(f, headers, starts, j - 1);
      }
    }
  }

  /** Every register that has a value was assigned in one of `blocks`. */
  ghost predicate OnlyFrom(f: Function, blocks: set<BlockId>, regs: Regs) {
    forall b: BlockId, i: nat, r: Reg :: Defines(f, b, i, r) && r in regs ==> b in blocks
  }

  /** The constant addresses computed by the headers before `k` are in their registers. */
  ghost predicate AddressesKept(f: Function, segs: seq<Segment>, k: nat, regs: Regs)
    requires k <= |segs|
  {
    forall j: nat, i: nat, gep: Instr :: j < k && InstrAt(f, Header(0, segs, j), i, gep) && ConstRootGep(gep) ==>
      gep.dst in regs && regs[gep.dst] == Ptr(gep.index.n)
  }

  ghost predicate Arrived(f: Function, segs: seq<Segment>, k: nat, regs: Regs)
    requires k <= |segs|
  {
    OnlyFrom(f, Visited(segs, k), regs) && AddressesKept(f, segs, k, regs)
  }

  /** Executing code that assigns only in `blocks` keeps the addresses of headers outside `blocks`. */
  lemma AddressesSurvive(f: Function, segs: seq<Segment>, k: nat, defs: set<Reg>, blocks: set<BlockId>, r: Regs, r': Regs)
    requires WellFormed(f) && k <= |segs|
    requires AddressesKept(f, segs, k, r) && OnlyChanges(defs, r, r')
    requires forall x | x in defs :: exists b: BlockId, i: nat :: b in blocks && Defines(f, b, i, x)
    requires forall j: nat | j < k :: Header(0, segs, j) !in blocks
    ensures AddressesKept(f, segs, k, r')
  {
    forall j: nat, i: nat, gep: Instr | j < k && InstrAt(f, Header(0, segs, j), i, gep) && ConstRootGep(gep)
      ensures gep.dst in r' && r'[gep.dst] == Ptr(gep.index.n)
    {
      assert Defines(f, Header(0, segs, j), i, gep.dst);
      assert gep.dst !in defs;
    }
  }

  lemma OnlyFromGrows(f: Function, visited: set<BlockId>, defs: set<Reg>, blocks: set<BlockId>, r: Regs, r': Regs)
    requires WellFormed(f)
    requires OnlyFrom(f, visited, r) && OnlyChanges(defs, r, r')
    requires forall x | x in defs :: exists b: BlockId, i: nat :: b in blocks && Defines(f, b, i, x)
    ensures OnlyFrom(f, visited + blocks, r')
  {
    forall b: BlockId, i: nat, x: Reg | Defines(f, b, i, x) && x in r'
      ensures b in visited + blocks
    {
      if x in defs {
        var b', i' :| b' in blocks && Defines(f, b', i', x);
      }
    }
  }

  // ---- one segment -----------------------------------------------------------------------------------------------------

  /** The guard's trigger word lies in the state, and the guard selects the region. */
  predicate GuardReadable(g: TriggerMaskTest, m: Mem) {
    g.triggerPtr.Gep? && g.triggerPtr.index.Const? && InBounds(TriggerPtr(g), g.width, m)
  }

  predicate Active(seg: Segment, m: Mem)
    requires GuardReadable(seg.guard, m)
  {
    (GuardTest(seg.guard, m) != 0) == seg.executeOnTrue
  }

  lemma DistinctInBlock(f: Function, b: BlockId)
    requires WellFormed(f) && b < |f.blocks|
    ensures DistinctDsts(f.blocks[b].instrs)
  {
    var code := f.blocks[b].instrs;
    forall i, j | 0 <= i < j < |code| && Dst(code[i]).Some? ensures Dst(code[i]) != Dst(code[j]) {
      if Dst(code[i]) == Dst(code[j]) {
        assert Defines(f, b, i, Dst(code[i]).value) && Defines(f, b, j, Dst(code[i]).value);
      }
    }
  }

  lemma AddressIsAhead(f: Function, segs: seq<Segment>, k: nat, chain: TestChain, l: nat, regs: Regs)
    requires WellFormed(f) && k < |segs| && Header(0, segs, k) < |f.blocks|
    requires ValidTest(chain) && ConstRootGep(chain.gep)
    requires AddressReady(f, segs, k, chain.gep, l) && AddressesKept(f, segs, k, regs)
    requires l < |f.blocks[Header(0, segs, k)].instrs|
    requires forall j: nat | j < k :: Header(0, segs, j) != Header(0, segs, k)
    ensures AddressAhead(f.blocks[Header(0, segs, k)].instrs, chain, 0, l, regs)
  {
    var h := Header(0, segs, k);
    var code := f.blocks[h].instrs;
    if i: nat :| i < l && InstrAt(f, h, i, chain.gep) {
      assert code[i] == chain.gep;
    } else {
      var j: nat, i: nat :| j < k && InstrAt(f, Header(0, segs, j), i, chain.gep);
      assert Defines(f, Header(0, segs, j), i, chain.gep.dst);
      forall p | 0 <= p < |code| ensures Dst(code[p]) != Some(chain.gep.dst) {
        if Dst(code[p]) == Some(chain.gep.dst) { assert Defines(f, h, p, chain.gep.dst); }
      }
    }
  }

  lemma GepIsRootGep(f: Function, segs: seq<Segment>, k: nat, chain: TestChain, l: nat)
    requires WellFormed(f) && f.nargs == 1 && k <= |segs|
    requires ValidTest(chain) && chain.gep.base.Arg? && AddressReady(f, segs, k, chain.gep, l)
    ensures ConstRootGep(chain.gep)
  {
    if i: nat :| i < l && InstrAt(f, Header(0, segs, k), i, chain.gep) {
      InstrArgsExist(f, Header(0, segs, k), i, chain.gep);
    } else {
      var j: nat, i: nat :| j < k && InstrAt(f, Header(0, segs, j), i, chain.gep);
      InstrArgsExist(f, Header(0, segs, j), i, chain.gep);
    }
    assert chain.gep.base in Operands(chain.gep);
  }

  lemma InstrArgsExist(f: Function, b: BlockId, i: nat, instr: Instr)
    requires WellFormed(f) && InstrAt(f, b, i, instr)
    ensures ArgsExist(f, instr)
  {
    assert ArgsExist(f, f.blocks[b].instrs[i]);
  }

  /** What running the redirected header `k` yields: the guard's branch, taken with memory untouched; or a trap on the trigger load. */
  ghost predicate HeaderResult(f: Function, segs: seq<Segment>, k: nat, m: Mem, r: BlockResult)
    requires k < |segs| && segs[k].region != []
  {
    if GuardReadable(segs[k].guard, m)
    then && r.Moves? && r.mem == m
         && r.w == Goto(if Active(segs[k], m) then segs[k].region[0] else segs[k].join)
         && OnlyFrom(f, Visited(segs, k) + {Header(0, segs, k)}, r.regs)
         && AddressesKept(f, segs, k + 1, r.regs)
    else r == BlockTraps
  }

  lemma HeaderComputesGuard(f: Function, hs: Helpers, segs: seq<Segment>, k: nat, regs: Regs, m: Mem)
    requires WellFormed(f) && f.nargs == 1 && k < |segs|
    requires GuardOnlyHeader(f, segs, k) && AddressesKept(f, segs, k, regs)
    requires forall j: nat | j < k :: Header(0, segs, j) != Header(0, segs, k)
    requires ParseTriggerMaskTest(f, f.blocks[Header(0, segs, k)].term.cond) == Some(segs[k].guard)
    ensures var code := f.blocks[Header(0, segs, k)].instrs;
      match ExecAll(hs, code, regs, m)
      case Next(r, m') => m' == m && GuardReadable(segs[k].guard, m)
        && Eval(f.blocks[Header(0, segs, k)].term.cond, r) == Some(Int(GuardTest(segs[k].guard, m)))
        && (forall i | 0 <= i < |code| && ConstRootGep(code[i]) :: code[i].dst in r && r[code[i].dst] == Ptr(code[i].index.n))
      case Traps => !GuardReadable(segs[k].guard, m)
      case Diverges => false
  {
    hide WellFormed, ExecAll, AddressReady, AddressesKept, MatchTest, DistinctDsts, AddressAhead;
    var h := Header(0, segs, k);
    var blk := f.blocks[h];
    var cond, code := blk.term.cond, blk.instrs;
    var chain := MatchTest(f, cond).value;
    MatchedIsLinked(f, cond);
    var l: nat, a: nat, c: nat :| GuardCode(code, chain, l, a, c) && AddressReady(f, segs, k, chain.gep, l);
    GepIsRootGep(f, segs, k, chain, l);
    AddressIsAhead(f, segs, k, chain, l, regs);
    DistinctInBlock(f, h);
    assert code[0..] == code;
    HeaderGuardRuns(hs, code, cond, chain, l, a, c, 0, regs, m);
  }

  lemma HeaderRuns(f: Function, defined: set<FuncName>, hs: Helpers, segs: seq<Segment>, k: nat, regs: Regs, m: Mem)
    requires WellFormed(f) && f.nargs == 1 && k < |segs|
    requires SegmentIs(f, defined, Header(0, segs, k), StartOf(f, Header(0, segs, k), segs[k]), segs[k])
    requires GuardOnlyHeader(f, segs, k) && Arrived(f, segs, k, regs) && segs[k].region != []
    requires forall j: nat | j < k :: Header(0, segs, j) != Header(0, segs, k)
    ensures HeaderResult(f, segs, k, m, ExecBlock(hs, RedirectBlock(f.blocks[Header(0, segs, k)], segs[k]), regs, m))
  {
    hide WellFormed, ExecAll, OnlyFrom, GuardOnlyHeader, GuardReadable, GuardTest, Visited, AddressesKept, ConstRootGep,
      ParseTriggerMaskTest, Carved;
    var h := Header(0, segs, k);
    var code := f.blocks[h].instrs;
    HeaderComputesGuard(f, hs, segs, k, regs, m);
    HeaderRegisters(f, hs, segs, k, regs, m);
    match ExecAll(hs, code, regs, m) {
      case Next(r, _) => AddressesGrow(f, segs, k, r);
      case _ =>
    }
  }

  /** The addresses of the earlier headers and of this one are the addresses up to this one. */
  lemma AddressesGrow(f: Function, segs: seq<Segment>, k: nat, r: Regs)
    requires k < |segs| && Header(0, segs, k) < |f.blocks| && AddressesKept(f, segs, k, r)
    requires var code := f.blocks[Header(0, segs, k)].instrs;
             forall i | 0 <= i < |code| && ConstRootGep(code[i]) :: code[i].dst in r && r[code[i].dst] == Ptr(code[i].index.n)
    ensures AddressesKept(f, segs, k + 1, r)
  {
    var code := f.blocks[Header(0, segs, k)].instrs;
    forall j: nat, i: nat, gep: Instr | j < k + 1 && InstrAt(f, Header(0, segs, j), i, gep) && ConstRootGep(gep)
      ensures gep.dst in r && r[gep.dst] == Ptr(gep.index.n)
    {
      if j == k { assert code[i] == gep; }
    }
  }

  lemma HeaderRegisters(f: Function, hs: Helpers, segs: seq<Segment>, k: nat, regs: Regs, m: Mem)
    requires WellFormed(f) && k < |segs| && Header(0, segs, k) < |f.blocks| && Arrived(f, segs, k, regs)
    requires forall j: nat | j < k :: Header(0, segs, j) != Header(0, segs, k)
    ensures var e := ExecAll(hs, f.blocks[Header(0, segs, k)].instrs, regs, m);
            e.Next? ==> OnlyFrom(f, Visited(segs, k) + {Header(0, segs, k)}, e.regs) && AddressesKept(f, segs, k, e.regs)
  {
    var h := Header(0, segs, k);
    var defs := DefsOf(f.blocks[h]);
    InstrsOnlyChange(hs, f.blocks[h].instrs, defs, regs, m);
    forall x | x in defs ensures exists b: BlockId, i: nat :: b in {h} && Defines(f, b, i, x) {
      var i :| 0 <= i < |f.blocks[h].instrs| && Dst(f.blocks[h].instrs[i]) == Some(x);
      assert Defines(f, h, i, x);
    }
    match ExecAll(hs, f.blocks[h].instrs, regs, m) {
      case Next(r, _) =>
        OnlyFromGrows(f, Visited(segs, k), defs, {h}, regs, r);
        AddressesSurvive(f, segs, k, defs, {h}, regs, r);
      case _ =>
    }
  }
}
