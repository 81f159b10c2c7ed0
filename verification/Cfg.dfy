/**
 A small control-flow language standing for the LLVM functions that vlgpugen rewrites.

 A function is called with one argument, the pointer to the root structure of one simulated state. Its memory
 is the byte image of that state; pointers are offsets into it. Registers are SSA names local to a function.
 */
module Cfg {
  import opened Prelude

  type Byte = x: int | 0 <= x < 256
  type Mem = seq<Byte>
  type BlockId = nat
  type Reg = nat
  type FuncName = string

  datatype Val = Int(n: nat) | Ptr(offset: int)

  datatype Operand = Const(n: nat) | Arg(i: nat) | Local(r: Reg)

  datatype BinOp = And | Add | Sub

  datatype Pred = Eq | Ne | Ult | Ugt

  datatype Instr =
    | Gep(dst: Reg, base: Operand, index: Operand)
    | Load(dst: Reg, ptr: Operand, width: nat)
    | Store(ptr: Operand, value: Operand, width: nat)
    | Bin(dst: Reg, op: BinOp, a: Operand, b: Operand, width: nat)
    | Icmp(dst: Reg, pred: Pred, a: Operand, b: Operand)
    | Call(result: Option<Reg>, callee: FuncName, args: seq<Operand>)

  datatype Terminator =
    | Ret
    | Br(target: BlockId)
    | CondBr(cond: Operand, ifTrue: BlockId, ifFalse: BlockId)
    | Switch(value: Operand, cases: seq<(nat, BlockId)>, default: BlockId)
    | Unreachable

  datatype Block = Block(instrs: seq<Instr>, term: Terminator)

  datatype Function = Function(nargs: nat, blocks: seq<Block>)

  function Dst(i: Instr): Option<Reg> {
    match i
    case Gep(d, _, _) => Some(d)
    case Load(d, _, _) => Some(d)
    case Store(_, _, _) => None
    case Bin(d, _, _, _, _) => Some(d)
    case Icmp(d, _, _, _) => Some(d)
    case Call(d, _, _) => d
  }

  function Operands(i: Instr): seq<Operand> {
    match i
    case Gep(_, b, x) => [b, x]
    case Load(_, p, _) => [p]
    case Store(p, v, _) => [p, v]
    case Bin(_, _, a, b, _) => [a, b]
    case Icmp(_, _, a, b) => [a, b]
    case Call(_, _, args) => args
  }

  function TermOperands(t: Terminator): seq<Operand> {
    match t
    case CondBr(c, _, _) => [c]
    case Switch(v, _, _) => [v]
    case _ => []
  }

  function CaseTargets(cases: seq<(nat, BlockId)>): seq<BlockId> {
    if cases == [] then [] else [cases[0].1] + CaseTargets(cases[1..])
  }

  function Successors(t: Terminator): seq<BlockId> {
    match t
    case Ret => []
    case Br(b) => [b]
    case CondBr(_, a, b) => [a, b]
    case Switch(_, cases, d) => [d] + CaseTargets(cases)
    case Unreachable => []
  }

  predicate IsEdge(f: Function, a: BlockId, b: BlockId) {
    a < |f.blocks| && b in Successors(f.blocks[a].term)
  }

  /** `r` is assigned by instruction `i` of block `b`. */
  predicate Defines(f: Function, b: BlockId, i: nat, r: Reg) {
    b < |f.blocks| && i < |f.blocks[b].instrs| && Dst(f.blocks[b].instrs[i]) == Some(r)
  }

  /** What the LLVM verifier promises and the splitter relies on. */
  ghost predicate WellFormed(f: Function) {
    && |f.blocks| > 0
    && (forall a: BlockId, b: BlockId :: IsEdge(f, a, b) ==> b < |f.blocks| && b != 0)  // the entry block has no predecessor
    && (forall b: BlockId, i: nat, c: BlockId, j: nat, r: Reg :: Defines(f, b, i, r) && Defines(f, c, j, r) ==> b == c && i == j)
    && (forall b: BlockId, i: nat :: b < |f.blocks| && i < |f.blocks[b].instrs| ==> ArgsExist(f, f.blocks[b].instrs[i]))
  }

  predicate ArgsExist(f: Function, i: Instr) {
    forall op | op in Operands(i) :: op.Arg? ==> op.i < f.nargs
  }

  // ---- semantics -------------------------------------------------------------------------------------------

  function BitAnd(a: nat, b: nat): nat
    decreases a
  {
    if a == 0 || b == 0 then 0 else (a % 2) * (b % 2) + 2 * BitAnd(a / 2, b / 2)
  }

  /** The splitter rebuilds every guard as `load & mask`, whichever side the mask was on. */
  lemma {:induction false} BitAndCommutes(a: nat, b: nat)
    ensures BitAnd(a, b) == BitAnd(b, a)
    decreases a
  {
    if a != 0 && b != 0 {
      BitAndCommutes(a / 2, b / 2);
    }
  }

  function Pow256(w: nat): nat
    ensures Pow256(w) > 0
  {
    if w == 0 then 1 else 256 * Pow256(w - 1)
  }

  /** Little-endian value of `w` bytes at `at`. */
  function ReadBytes(m: Mem, at: nat, w: nat): nat
    requires at + w <= |m|
    decreases w
  {
    if w == 0 then 0 else m[at] + 256 * ReadBytes(m, at + 1, w - 1)
  }

  function WriteBytes(m: Mem, at: nat, w: nat, v: nat): (r: Mem)
    requires at + w <= |m|
    ensures |r| == |m|
    decreases w
  {
    if w == 0 then m else WriteBytes(m[at := v % 256], at + 1, w - 1, v / 256)
  }

  type Regs = map<Reg, Val>

  datatype CallResult = Returned(value: Val, mem: Mem) | CallTraps | CallDiverges

  /** Meaning of the helper functions: what a call with these arguments does to the state's memory. */
  type Helpers = (FuncName, seq<Val>, Mem) -> CallResult

  function Eval(op: Operand, regs: Regs): Option<Val> {
    match op
    case Const(n) => Some(Int(n))
    case Arg(i) => if i == 0 then Some(Ptr(0)) else None
    case Local(r) => if r in regs then Some(regs[r]) else None
  }

  function EvalAll(ops: seq<Operand>, regs: Regs): Option<seq<Val>> {
    if ops == [] then Some([])
    else
      match (Eval(ops[0], regs), EvalAll(ops[1..], regs))
      case (Some(v), Some(vs)) => Some([v] + vs)
      case (_, _) => None
  }

  predicate InBounds(p: Val, w: nat, m: Mem) {
    p.Ptr? && 0 <= p.offset && p.offset + w <= |m|
  }

  function Compare(p: Pred, a: nat, b: nat): nat {
    match p
    case Eq => if a == b then 1 else 0
    case Ne => if a != b then 1 else 0
    case Ult => if a < b then 1 else 0
    case Ugt => if a > b then 1 else 0
  }

  function Arith(op: BinOp, a: nat, b: nat, w: nat): nat {
    match op
    case And => BitAnd(a, b)
    case Add => (a + b) % Pow256(w)
    case Sub => (a - b) % Pow256(w)
  }

  datatype Effect = Next(regs: Regs, mem: Mem) | Traps | Diverges

  function ExecInstr(hs: Helpers, i: Instr, regs: Regs, m: Mem): Effect {
    match i
    case Gep(d, b, x) =>
      (match (Eval(b, regs), Eval(x, regs))
       case (Some(Ptr(o)), Some(Int(n))) => Next(regs[d := Ptr(o + n)], m)
       case (_, _) => Traps)
    case Load(d, p, w) =>
      (match Eval(p, regs)
       case Some(v) => if InBounds(v, w, m) then Next(regs[d := Int(ReadBytes(m, v.offset, w))], m) else Traps
       case None => Traps)
    case Store(p, v, w) =>
      (match (Eval(p, regs), Eval(v, regs))
       case (Some(q), Some(Int(n))) => if InBounds(q, w, m) then Next(regs, WriteBytes(m, q.offset, w, n)) else Traps
       case (_, _) => Traps)
    case Bin(d, op, a, b, w) =>
      (match (Eval(a, regs), Eval(b, regs))
       case (Some(Int(x)), Some(Int(y))) => Next(regs[d := Int(Arith(op, x, y, w))], m)
       case (_, _) => Traps)
    case Icmp(d, p, a, b) =>
      (match (Eval(a, regs), Eval(b, regs))
       case (Some(Int(x)), Some(Int(y))) => Next(regs[d := Int(Compare(p, x, y))], m)
       case (_, _) => Traps)
    case Call(d, callee, args) =>
      match EvalAll(args, regs)
      case None => Traps
      case Some(vs) =>
        match hs(callee, vs, m)
        case CallTraps => Traps
        case CallDiverges => Diverges
        case Returned(v, m') =>
          // a helper that resizes the state's slice has left it
          if |m'| != |m| then Traps else Next(if d.Some? then regs[d.value := v] else regs, m')
  }

  function ExecAll(hs: Helpers, instrs: seq<Instr>, regs: Regs, m: Mem): Effect {
    if instrs == [] then Next(regs, m)
    else
      match ExecInstr(hs, instrs[0], regs, m)
      case Next(r, m') => ExecAll(hs, instrs[1..], r, m')
      case e => e
  }

  datatype Where = Goto(b: BlockId) | Leave | Stuck

  function PickCase(cases: seq<(nat, BlockId)>, default: BlockId, v: nat): BlockId {
    if cases == [] then default else if cases[0].0 == v then cases[0].1 else PickCase(cases[1..], default, v)
  }

  function Choose(t: Terminator, regs: Regs): Where {
    match t
    case Ret => Leave
    case Br(b) => Goto(b)
    case CondBr(c, a, b) =>
      (match Eval(c, regs)
       case Some(Int(n)) => Goto(if n != 0 then a else b)
       case _ => Stuck)
    case Switch(v, cases, d) =>
      (match Eval(v, regs)
       case Some(Int(n)) => Goto(PickCase(cases, d, n))
       case _ => Stuck)
    case Unreachable => Stuck
  }

  /** Execute one whole block: its effect on registers and memory, then where control goes. */
  datatype BlockResult = Moves(w: Where, regs: Regs, mem: Mem) | BlockTraps | BlockDiverges

  function ExecBlock(hs: Helpers, blk: Block, regs: Regs, m: Mem): BlockResult {
    match ExecAll(hs, blk.instrs, regs, m)
    case Traps => BlockTraps
    case Diverges => BlockDiverges
    case Next(r, m') =>
      var w := Choose(blk.term, r);
      if w.Stuck? then BlockTraps else Moves(w, r, m')
  }

  datatype Outcome = Done(mem: Mem) | Trapped | NoAnswer

  /** Run at most `fuel` blocks of `f` from block `b`. `NoAnswer` means that the fuel ran out. */
  function Run(f: Function, hs: Helpers, b: BlockId, regs: Regs, m: Mem, fuel: nat): Outcome
    decreases fuel
  {
    if fuel == 0 then NoAnswer
    else if b >= |f.blocks| then Trapped
    else
      match ExecBlock(hs, f.blocks[b], regs, m)
      case BlockTraps => Trapped
      case BlockDiverges => NoAnswer
      case Moves(Goto(c), r, m') => Run(f, hs, c, r, m', fuel - 1)
      case Moves(_, _, m') => Done(m')
  }

  /** The function, called on a state with memory `m`, ends with outcome `o`. It diverges when no `o` is yielded. */
  ghost predicate Yields(f: Function, hs: Helpers, m: Mem, o: Outcome) {
    o != NoAnswer && exists n: nat :: Run(f, hs, 0, map[], m, n) == o
  }

  /** More fuel never changes an answer. */
  lemma {:induction false} RunMonotone(f: Function, hs: Helpers, b: BlockId, regs: Regs, m: Mem, n: nat, n': nat)
    requires n <= n' && Run(f, hs, b, regs, m, n) != NoAnswer
    ensures Run(f, hs, b, regs, m, n') == Run(f, hs, b, regs, m, n)
    decreases n
  {
    if b < |f.blocks| {
      match ExecBlock(hs, f.blocks[b], regs, m) {
        case Moves(Goto(c), r, m') => RunMonotone(f, hs, c, r, m', n - 1, n' - 1);
        case _ =>
      }
    }
  }

  /** A function has at most one outcome on a given state. */
  lemma YieldsIsUnique(f: Function, hs: Helpers, m: Mem, o: Outcome, o': Outcome)
    requires Yields(f, hs, m, o) && Yields(f, hs, m, o')
    ensures o == o'
  {
    var n: nat :| Run(f, hs, 0, map[], m, n) == o;
    var n': nat :| Run(f, hs, 0, map[], m, n') == o';
    RunMonotone(f, hs, 0, map[], m, n, n + n');
    RunMonotone(f, hs, 0, map[], m, n', n + n');
  }

  // ---- stopping at a block ---------------------------------------------------------------------------------

  datatype Arrival = At(regs: Regs, mem: Mem, left: nat) | NeverTrapped | NeverReturned(mem: Mem) | NotYet

  /** Run from `b` until control is about to enter block `stop`; `left` is the fuel still unspent there. */
  function RunTo(f: Function, hs: Helpers, b: BlockId, stop: BlockId, regs: Regs, m: Mem, fuel: nat): Arrival
    decreases fuel
  {
    if b == stop then At(regs, m, fuel)
    else if fuel == 0 then NotYet
    else if b >= |f.blocks| then NeverTrapped
    else
      match ExecBlock(hs, f.blocks[b], regs, m)
      case BlockTraps => NeverTrapped
      case BlockDiverges => NotYet
      case Moves(Goto(c), r, m') => RunTo(f, hs, c, stop, r, m', fuel - 1)
      case Moves(_, _, m') => NeverReturned(m')
  }

  /** A run splits at the first arrival at `stop`. */
  lemma {:induction false} RunSplitsAt(f: Function, hs: Helpers, b: BlockId, stop: BlockId, regs: Regs, m: Mem, n: nat)
    ensures match RunTo(f, hs, b, stop, regs, m, n)
            case At(r, m', left) => left <= n && Run(f, hs, b, regs, m, n) == Run(f, hs, stop, r, m', left)
            case NeverTrapped => Run(f, hs, b, regs, m, n) == Trapped
            case NeverReturned(m') => Run(f, hs, b, regs, m, n) == Done(m')
            case NotYet => Run(f, hs, b, regs, m, n) == NoAnswer
    decreases n
  {
    if b != stop && n > 0 && b < |f.blocks| {
      match ExecBlock(hs, f.blocks[b], regs, m) {
        case Moves(Goto(c), r, m') => RunSplitsAt(f, hs, c, stop, r, m', n - 1);
        case _ =>
      }
    }
  }

  /** Arriving with spare fuel leaves the same spare fuel more. */
  lemma {:induction false} RunToMonotone(f: Function, hs: Helpers, b: BlockId, stop: BlockId, regs: Regs, m: Mem, n: nat, extra: nat)
    ensures match RunTo(f, hs, b, stop, regs, m, n)
            case At(r, m', left) => RunTo(f, hs, b, stop, regs, m, n + extra) == At(r, m', left + extra)
            case NotYet => true
            case e => RunTo(f, hs, b, stop, regs, m, n + extra) == e
    decreases n
  {
    if b != stop && n > 0 && b < |f.blocks| {
      match ExecBlock(hs, f.blocks[b], regs, m) {
        case Moves(Goto(c), r, m') => RunToMonotone(f, hs, c, stop, r, m', n - 1, extra);
        case _ =>
      }
    }
  }
}
