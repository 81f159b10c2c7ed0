/** A cloned region executes in its wrapper exactly as the original does in place. */
module CloneSim {
  import opened Prelude
  import opened Cfg
  import opened Segments
  import opened Wrapper
  import Region

  /** On the region's own registers `defs`, the wrapper's register file is the original one, moved past the guard's. */
  ghost predicate Agree(defs: set<Reg>, orig: Regs, clone: Regs) {
    forall r | r in defs :: (r in orig <==> r + GUARD_REGS in clone) && (r in orig ==> orig[r] == clone[r + GUARD_REGS])
  }

  lemma EvalAgrees(defs: set<Reg>, op: Operand, orig: Regs, clone: Regs)
    requires OperandInside(op, defs) && Agree(defs, orig, clone)
    ensures Eval(op, orig) == Eval(CloneOperand(op), clone)
  {
  }

  lemma {:induction false} EvalAllAgrees(defs: set<Reg>, ops: seq<Operand>, orig: Regs, clone: Regs)
    requires (forall op | op in ops :: OperandInside(op, defs)) && Agree(defs, orig, clone)
    ensures EvalAll(ops, orig) == EvalAll(CloneOperands(ops), clone)
  {
    if ops != [] {
      assert ops[0] in ops;
      EvalAgrees(defs, ops[0], orig, clone);
      EvalAllAgrees(defs, ops[1..], orig, clone);
    }
  }

  /** The same effect on memory, and agreeing registers again. */
  ghost predicate SameEffect(defs: set<Reg>, a: Effect, b: Effect) {
    match (a, b)
    case (Next(r, m), Next(r', m')) => m == m' && Agree(defs, r, r')
    case (Traps, Traps) => true
    case (Diverges, Diverges) => true
    case (_, _) => false
  }

  lemma InstrAgrees(hs: Helpers, defs: set<Reg>, i: Instr, orig: Regs, clone: Regs, m: Mem)
    requires InstrInside(i, defs) && Agree(defs, orig, clone)
    requires Dst(i).Some? ==> Dst(i).value in defs
    ensures SameEffect(defs, ExecInstr(hs, i, orig, m), ExecInstr(hs, CloneInstr(i), clone, m))
  {
    forall op | op in Operands(i) ensures Eval(op, orig) == Eval(CloneOperand(op), clone) {
      EvalAgrees(defs, op, orig, clone);
    }
    match i {
      case Gep(d, b, x) => assert b in Operands(i) && x in Operands(i);
      case Load(d, p, w) => assert p in Operands(i);
      case Store(p, v, w) => assert p in Operands(i) && v in Operands(i);
      case Bin(d, op, a, b, w) => assert a in Operands(i) && b in Operands(i);
      case Icmp(d, p, a, b) => assert a in Operands(i) && b in Operands(i);
      case Call(d, c, args) => EvalAllAgrees(defs, args, orig, clone);
    }
  }

  lemma {:induction false} InstrsAgree(hs: Helpers, defs: set<Reg>, instrs: seq<Instr>, orig: Regs, clone: Regs, m: Mem)
    requires Agree(defs, orig, clone)
    requires forall i | 0 <= i < |instrs| :: InstrInside(instrs[i], defs) && (Dst(instrs[i]).Some? ==> Dst(instrs[i]).value in defs)
    ensures SameEffect(defs, ExecAll(hs, instrs, orig, m), ExecAll(hs, CloneInstrs(instrs), clone, m))
  {
    if instrs != [] {
      InstrAgrees(hs, defs, instrs[0], orig, clone, m);
      match (ExecInstr(hs, instrs[0], orig, m), ExecInstr(hs, CloneInstr(instrs[0]), clone, m)) {
        case (Next(r, m'), Next(r', _)) => InstrsAgree(hs, defs, instrs[1..], r, r', m');
        case (_, _) =>
      }
    }
  }

  /** One block of the region against its clone: same memory, and the clone goes where `MapSucc` says. */
  lemma BlockAgrees(hs: Helpers, seg: Segment, blk: Block, defs: set<Reg>, orig: Regs, clone: Regs, m: Mem)
    requires blk.term.Br? || blk.term.CondBr?
    requires BlockInside(blk, defs) && DefsOf(blk) <= defs && Agree(defs, orig, clone)
    ensures match (ExecBlock(hs, blk, orig, m), ExecBlock(hs, CloneBlock(seg, blk), clone, m))
            case (Moves(Goto(c), r, m'), Moves(Goto(c'), r', m'')) =>
              c' == MapSucc(seg, c) && m' == m'' && Agree(defs, r, r') && c in Successors(blk.term)
            case (BlockTraps, BlockTraps) => true
            case (BlockDiverges, BlockDiverges) => true
            case (_, _) => false
    ensures ExecBlock(hs, blk, orig, m).Moves? ==> ExecBlock(hs, blk, orig, m).w.Goto?
  {
    forall i | 0 <= i < |blk.instrs| && Dst(blk.instrs[i]).Some? ensures Dst(blk.instrs[i]).value in defs {
      assert Dst(blk.instrs[i]).value in DefsOf(blk);
    }
    InstrsAgree(hs, defs, blk.instrs, orig, clone, m);
    match (ExecAll(hs, blk.instrs, orig, m), ExecAll(hs, CloneInstrs(blk.instrs), clone, m)) {
      case (Next(r, m'), Next(r', _)) =>
        if blk.term.CondBr? {
          assert blk.term.cond in TermOperands(blk.term);
          EvalAgrees(defs, blk.term.cond, r, r');
        }
      case (_, _) =>
    }
  }

  /** The region of `seg` in `f`, and a wrapper holding its clones behind the guard and exit blocks. */
  ghost predicate ClonedIn(f: Function, seg: Segment, start: BlockId, w: Function) {
    && InRange(f, seg.region) && Clonable(f, seg) && seg.guard.triggerPtr.Gep?
    && start < |f.blocks|
    && (forall b: BlockId :: b in seg.region <==> b in Region.Blocks(f, start, seg.join))
    && (forall i | 0 <= i < |seg.region| ::
          BlockInside(f.blocks[seg.region[i]], RegionDefs(f, seg.region)) && DefsOf(f.blocks[seg.region[i]]) <= RegionDefs(f, seg.region))
    && w.blocks == [GuardBlock(seg), EXIT_BLOCK] + CloneRegion(f, seg)
  }

  lemma {:induction false} BlockDefsAreRegionDefs(f: Function, region: seq<BlockId>, i: nat)
    requires InRange(f, region) && i < |region|
    ensures DefsOf(f.blocks[region[i]]) <= RegionDefs(f, region)
  {
    if i > 0 {
      BlockDefsAreRegionDefs(f, region[1..], i - 1);
    }
  }

  lemma CloneAt(f: Function, seg: Segment, start: BlockId, w: Function, b: BlockId)
    requires WellFormed(f) && ClonedIn(f, seg, start, w) && b in seg.region
    ensures b < |f.blocks| && MapSucc(seg, b) < |w.blocks| && b != seg.join
    ensures f.blocks[b].term.Br? || f.blocks[b].term.CondBr?
    ensures w.blocks[MapSucc(seg, b)] == CloneBlock(seg, f.blocks[b])
    ensures BlockInside(f.blocks[b], RegionDefs(f, seg.region)) && DefsOf(f.blocks[b]) <= RegionDefs(f, seg.region)
    ensures forall c | c in Successors(f.blocks[b].term) :: c == seg.join || c in seg.region
  {
    var i := IndexOf(seg.region, b);
    assert seg.region[i] == b;
    var n: nat :| Region.ReachesIn(f, start, seg.join, b, n);
    Region.SuccessorsStayInside(f, start, seg.join, b);
  }

  /** What a run in place up to the join says of the run of the clone. */
  ghost predicate Mirrors(seg: Segment, n: nat, place: Arrival, w: Function, hs: Helpers, b: BlockId, clone: Regs, m: Mem) {
    match place
    case At(_, m', _) => Run(w, hs, MapSucc(seg, b), clone, m, n + 1) == Done(m')
    case NeverTrapped => Run(w, hs, MapSucc(seg, b), clone, m, n) == Trapped
    case NotYet => Run(w, hs, MapSucc(seg, b), clone, m, n) == NoAnswer
    case NeverReturned(_) => false
  }

  lemma MirrorsAtJoin(f: Function, hs: Helpers, seg: Segment, start: BlockId, w: Function, orig: Regs, clone: Regs, m: Mem, n: nat)
    requires ClonedIn(f, seg, start, w)
    ensures Mirrors(seg, n, RunTo(f, hs, seg.join, seg.join, orig, m, n), w, hs, seg.join, clone, m)
  {
    assert ExecBlock(hs, EXIT_BLOCK, clone, m) == Moves(Leave, clone, m);
  }

  lemma MirrorsMove(f: Function, hs: Helpers, seg: Segment, w: Function, b: BlockId, orig: Regs, clone: Regs, m: Mem, n: nat,
                    c: BlockId, r: Regs, r': Regs, m': Mem)
    requires b != seg.join && b < |f.blocks| && MapSucc(seg, b) < |w.blocks| && n > 0
    requires ExecBlock(hs, f.blocks[b], orig, m) == Moves(Goto(c), r, m')
    requires ExecBlock(hs, w.blocks[MapSucc(seg, b)], clone, m) == Moves(Goto(MapSucc(seg, c)), r', m')
    requires Mirrors(seg, n - 1, RunTo(f, hs, c, seg.join, r, m', n - 1), w, hs, c, r', m')
    ensures Mirrors(seg, n, RunTo(f, hs, b, seg.join, orig, m, n), w, hs, b, clone, m)
  {
    hide ExecBlock, MapSucc;
    assert RunTo(f, hs, b, seg.join, orig, m, n) == RunTo(f, hs, c, seg.join, r, m', n - 1);
    assert Run(w, hs, MapSucc(seg, b), clone, m, n) == Run(w, hs, MapSucc(seg, c), r', m', n - 1);
    assert Run(w, hs, MapSucc(seg, b), clone, m, n + 1) == Run(w, hs, MapSucc(seg, c), r', m', n);
  }

  lemma MirrorsStop(f: Function, hs: Helpers, seg: Segment, w: Function, b: BlockId, orig: Regs, clone: Regs, m: Mem, n: nat)
    requires b != seg.join && b < |f.blocks| && MapSucc(seg, b) < |w.blocks|
    requires n > 0 ==> !ExecBlock(hs, f.blocks[b], orig, m).Moves?
                       && ExecBlock(hs, w.blocks[MapSucc(seg, b)], clone, m) == ExecBlock(hs, f.blocks[b], orig, m)
    ensures Mirrors(seg, n, RunTo(f, hs, b, seg.join, orig, m, n), w, hs, b, clone, m)
  {
    hide ExecBlock, MapSucc;
  }

  /**
   Running the region in place up to the join, and running its clone in the wrapper, step together: arriving at the
   join is the wrapper's return with the same memory, a trap is a trap, and neither ends without the other.
   */
  lemma {:induction false} RegionSimulates(
      f: Function, hs: Helpers, seg: Segment, start: BlockId, w: Function, b: BlockId, orig: Regs, clone: Regs, m: Mem, n: nat)
    requires WellFormed(f) && ClonedIn(f, seg, start, w)
    requires b == seg.join || b in seg.region
    requires Agree(RegionDefs(f, seg.region), orig, clone)
    ensures Mirrors(seg, n, RunTo(f, hs, b, seg.join, orig, m, n), w, hs, b, clone, m)
    decreases n
  {
    if b == seg.join {
      MirrorsAtJoin(f, hs, seg, start, w, orig, clone, m, n);
    } else {
      hide WellFormed, ClonedIn, ExecBlock, Agree, Mirrors, RunTo, MapSucc, CloneBlock, RegionDefs, BlockInside, DefsOf;
      CloneAt(f, seg, start, w, b);
      BlockAgrees(hs, seg, f.blocks[b], RegionDefs(f, seg.region), orig, clone, m);
      var place := ExecBlock(hs, f.blocks[b], orig, m);
      var moved := ExecBlock(hs, w.blocks[MapSucc(seg, b)], clone, m);
      if n == 0 || !place.Moves? {
        MirrorsStop(f, hs, seg, w, b, orig, clone, m, n);
      } else {
        RegionSimulates(f, hs, seg, start, w, place.w.b, place.regs, moved.regs, place.mem, n - 1);
        MirrorsMove(f, hs, seg, w, b, orig, clone, m, n, place.w.b, place.regs, moved.regs, place.mem);
      }
    }
  }

  // ---- what a region leaves alone --------------------------------------------------------------------------------

  /** `r'` differs from `r` only on registers in `defs`. */
  ghost predicate OnlyChanges(defs: set<Reg>, r: Regs, r': Regs) {
    forall x | x !in defs :: (x in r <==> x in r') && (x in r ==> r[x] == r'[x])
  }

  lemma OnlyChangesChain(defs: set<Reg>, r: Regs, r': Regs, r'': Regs)
    requires OnlyChanges(defs, r, r') && OnlyChanges(defs, r', r'')
    ensures OnlyChanges(defs, r, r'')
  {
  }

  lemma {:induction false} InstrsOnlyChange(hs: Helpers, instrs: seq<Instr>, defs: set<Reg>, regs: Regs, m: Mem)
    requires forall i | 0 <= i < |instrs| :: Dst(instrs[i]).Some? ==> Dst(instrs[i]).value in defs
    ensures ExecAll(hs, instrs, regs, m).Next? ==> OnlyChanges(defs, regs, ExecAll(hs, instrs, regs, m).regs)
  {
    if instrs != [] {
      assert Dst(instrs[0]).Some? ==> Dst(instrs[0]).value in defs;
      match ExecInstr(hs, instrs[0], regs, m) {
        case Next(r, m') =>
          assert OnlyChanges(defs, regs, r);
          InstrsOnlyChange(hs, instrs[1..], defs, r, m');
        case _ =>
      }
    }
  }

  lemma BlockOnlyChanges(f: Function, hs: Helpers, region: seq<BlockId>, b: BlockId, regs: Regs, m: Mem)
    requires InRange(f, region) && b in region
    ensures b < |f.blocks|
    ensures ExecBlock(hs, f.blocks[b], regs, m).Moves? ==>
              OnlyChanges(RegionDefs(f, region), regs, ExecBlock(hs, f.blocks[b], regs, m).regs)
    ensures ExecBlock(hs, f.blocks[b], regs, m).Moves? && ExecBlock(hs, f.blocks[b], regs, m).w.Goto? ==>
              ExecBlock(hs, f.blocks[b], regs, m).w.b in Successors(f.blocks[b].term)
  {
    var defs := RegionDefs(f, region);
    var k := IndexOf(region, b);
    BlockDefsAreRegionDefs(f, region, k);
    forall i | 0 <= i < |f.blocks[b].instrs| && Dst(f.blocks[b].instrs[i]).Some?
      ensures Dst(f.blocks[b].instrs[i]).value in defs
    {
      assert Dst(f.blocks[b].instrs[i]).value in DefsOf(f.blocks[b]);
    }
    InstrsOnlyChange(hs, f.blocks[b].instrs, defs, regs, m);
    if ExecBlock(hs, f.blocks[b], regs, m).Moves? {
      Region.ChosenIsSuccessor(f.blocks[b].term, ExecBlock(hs, f.blocks[b], regs, m).regs);
    }
  }

  /** Reaching the join, only the region's own registers have changed. */
  lemma {:induction false} RegionOnlyChanges(
      f: Function, hs: Helpers, seg: Segment, start: BlockId, b: BlockId, regs: Regs, m: Mem, n: nat)
    requires WellFormed(f) && InRange(f, seg.region) && start < |f.blocks|
    requires forall b: BlockId :: b in seg.region <==> b in Region.Blocks(f, start, seg.join)
    requires b == seg.join || b in seg.region
    ensures RunTo(f, hs, b, seg.join, regs, m, n).At? ==>
              OnlyChanges(RegionDefs(f, seg.region), regs, RunTo(f, hs, b, seg.join, regs, m, n).regs)
    decreases n
  {
    if b != seg.join && n > 0 {
      hide WellFormed, RegionDefs, ExecBlock, OnlyChanges;
      BlockOnlyChanges(f, hs, seg.region, b, regs, m);
      match ExecBlock(hs, f.blocks[b], regs, m) {
        case Moves(Goto(c), r, m') =>
          Region.SuccessorsStayInside(f, start, seg.join, b);
          RegionOnlyChanges(f, hs, seg, start, c, r, m', n - 1);
          if RunTo(f, hs, c, seg.join, r, m', n - 1).At? {
            OnlyChangesChain(RegionDefs(f, seg.region), regs, r, RunTo(f, hs, c, seg.join, r, m', n - 1).regs);
          }
        case _ =>
      }
    }
  }
}
