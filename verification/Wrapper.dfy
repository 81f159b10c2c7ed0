/** `createGuardedSegmentWrapper`: one segment outlined into a function that tests the guard again. */
module Wrapper {
  import opened Prelude
  import opened Cfg
  import opened Segments

  /** Blocks of every wrapper: the guard, the exit, then the call block or the cloned region. */
  const ENTRY: BlockId := 0
  const EXIT: BlockId := 1
  const FIRST_CLONE: BlockId := 2

  /** Registers 0 to 3 of a wrapper hold the guard; cloned registers are moved past them. */
  const GUARD_REGS: nat := 4

  function GuardInstrs(g: TriggerMaskTest): seq<Instr>
    requires g.triggerPtr.Gep?
  {
    [ Gep(0, Arg(0), g.triggerPtr.index),
      Load(1, Local(0), g.width),
      Bin(2, And, Local(1), Const(g.mask), g.width),
      Icmp(3, g.pred, Local(2), Const(0)) ]
  }

  function GuardBlock(seg: Segment): Block
    requires seg.guard.triggerPtr.Gep?
  {
    Block(GuardInstrs(seg.guard),
          if seg.executeOnTrue then CondBr(Local(3), FIRST_CLONE, EXIT) else CondBr(Local(3), EXIT, FIRST_CLONE))
  }

  const EXIT_BLOCK := Block([], Ret)

  // ---- cloning -------------------------------------------------------------------------------------------------

  function CloneOperand(op: Operand): Operand {
    if op.Local? then Local(op.r + GUARD_REGS) else op
  }

  function CloneOperands(ops: seq<Operand>): seq<Operand> {
    if ops == [] then [] else [CloneOperand(ops[0])] + CloneOperands(ops[1..])
  }

  function CloneInstr(i: Instr): Instr {
    match i
    case Gep(d, b, x) => Gep(d + GUARD_REGS, CloneOperand(b), CloneOperand(x))
    case Load(d, p, w) => Load(d + GUARD_REGS, CloneOperand(p), w)
    case Store(p, v, w) => Store(CloneOperand(p), CloneOperand(v), w)
    case Bin(d, op, a, b, w) => Bin(d + GUARD_REGS, op, CloneOperand(a), CloneOperand(b), w)
    case Icmp(d, p, a, b) => Icmp(d + GUARD_REGS, p, CloneOperand(a), CloneOperand(b))
    case Call(d, c, args) => Call(if d.Some? then Some(d.value + GUARD_REGS) else None, c, CloneOperands(args))
  }

  function CloneInstrs(instrs: seq<Instr>): seq<Instr> {
    if instrs == [] then [] else [CloneInstr(instrs[0])] + CloneInstrs(instrs[1..])
  }

  /** Position of `b` in the region listing. */
  function IndexOf(region: seq<BlockId>, b: BlockId): (i: nat)
    ensures i <= |region|
    ensures i < |region| ==> region[i] == b
    ensures b in region ==> i < |region|
  {
    if region == [] then 0 else if region[0] == b then 0 else 1 + IndexOf(region[1..], b)
  }

  /** Where an edge of the region leads in the wrapper: the join becomes the exit. */
  function MapSucc(seg: Segment, s: BlockId): BlockId {
    if s == seg.join then EXIT else FIRST_CLONE + IndexOf(seg.region, s)
  }

  /** Only branches can be rewired; any other terminator makes the whole wrapper fail. */
  function CloneTerm(seg: Segment, t: Terminator): Option<Terminator> {
    match t
    case Br(b) => Some(Br(MapSucc(seg, b)))
    case CondBr(c, a, b) => Some(CondBr(CloneOperand(c), MapSucc(seg, a), MapSucc(seg, b)))
    case _ => None
  }

  predicate Clonable(f: Function, seg: Segment) {
    InRange(f, seg.region) && forall i | 0 <= i < |seg.region| ::
      f.blocks[seg.region[i]].term.Br? || f.blocks[seg.region[i]].term.CondBr?
  }

  function CloneBlock(seg: Segment, blk: Block): Block
    requires blk.term.Br? || blk.term.CondBr?
  {
    Block(CloneInstrs(blk.instrs), CloneTerm(seg, blk.term).value)
  }

  function CloneRegion(f: Function, seg: Segment): (r: seq<Block>)
    requires Clonable(f, seg)
    ensures |r| == |seg.region|
    ensures forall i | 0 <= i < |r| :: r[i] == CloneBlock(seg, f.blocks[seg.region[i]])
  {
    seq(|seg.region|, i requires 0 <= i < |seg.region| => CloneBlock(seg, f.blocks[seg.region[i]]))
  }

  /** The wrapper of a segment, when it can be built. */
  function WrapperOf(f: Function, seg: Segment): Option<Function>
    requires seg.guard.triggerPtr.Gep?
  {
    if seg.callee.Some? && |seg.region| == 1 then
      Some(Function(1, [GuardBlock(seg), EXIT_BLOCK, Block([Call(None, seg.callee.value, [Arg(0)])], Br(EXIT))]))
    else if Clonable(f, seg) then
      Some(Function(1, [GuardBlock(seg), EXIT_BLOCK] + CloneRegion(f, seg)))
    else None
  }

  method CreateGuardedSegmentWrapper(f: Function, seg: Segment) returns (w: Option<Function>)
    requires seg.guard.triggerPtr.Gep? && InRange(f, seg.region)
    ensures w == WrapperOf(f, seg)
  {
    var blocks := [GuardBlock(seg), EXIT_BLOCK];
    if seg.callee.Some? && |seg.region| == 1 {
      blocks := blocks + [Block([Call(None, seg.callee.value, [Arg(0)])], Br(EXIT))];
      assert blocks == [GuardBlock(seg), EXIT_BLOCK, Block([Call(None, seg.callee.value, [Arg(0)])], Br(EXIT))];
      return Some(Function(1, blocks));
    }
    var clones: seq<Block> := [];
    for i := 0 to |seg.region|
      invariant |clones| == i
      invariant forall j | 0 <= j < i :: clones[j] == f.blocks[seg.region[j]]
    {
      clones := clones + [f.blocks[seg.region[i]]];
    }
    for i := 0 to |seg.region|
      invariant |clones| == |seg.region|
      invariant forall j | 0 <= j < i :: f.blocks[seg.region[j]].term.Br? || f.blocks[seg.region[j]].term.CondBr?
      invariant forall j | 0 <= j < i :: clones[j] == CloneBlock(seg, f.blocks[seg.region[j]])
      invariant forall j | i <= j < |clones| :: clones[j] == f.blocks[seg.region[j]]
    {
      var term := CloneTerm(seg, clones[i].term);
      if term.None? { return None; }
      clones := clones[i := Block(CloneInstrs(clones[i].instrs), term.value)];
    }
    assert clones == CloneRegion(f, seg);
    return Some(Function(1, blocks + clones));
  }

  /** All wrappers of a chain, in segment order; one failure discards them all. */
  function WrapAll(f: Function, segs: seq<Segment>): Option<seq<Function>>
    requires forall i | 0 <= i < |segs| :: segs[i].guard.triggerPtr.Gep?
  {
    if segs == [] then Some([])
    else match (WrapperOf(f, segs[0]), WrapAll(f, segs[1..]))
         case (Some(w), Some(ws)) => Some([w] + ws)
         case (_, _) => None
  }

  lemma {:induction false} WrapAllPointwise(f: Function, segs: seq<Segment>)
    requires forall i | 0 <= i < |segs| :: segs[i].guard.triggerPtr.Gep?
    requires WrapAll(f, segs).Some?
    ensures |WrapAll(f, segs).value| == |segs|
    ensures forall i | 0 <= i < |segs| :: WrapperOf(f, segs[i]) == Some(WrapAll(f, segs).value[i])
  {
    if segs != [] {
      WrapAllPointwise(f, segs[1..]);
      forall i | 0 <= i < |segs| ensures WrapperOf(f, segs[i]) == Some(WrapAll(f, segs).value[i]) {
        if i > 0 { assert segs[i] == segs[1..][i - 1]; }
      }
    }
  }
}
