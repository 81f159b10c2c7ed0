/** The guard of a segment, computed by its header in place and recomputed at the head of its wrapper. */
module GuardEval {
  import opened Prelude
  import opened Cfg
  import opened Segments
  import opened Wrapper

  /** How the four instructions of a recognised test feed one another. */
  predicate Linked(cond: Operand, c: TestChain) {
    && ValidTest(c)
    && cond == Local(c.icmp.dst)
    && (c.icmp.pred == Eq || c.icmp.pred == Ne)
    && MaskedOperand(c.icmp) == Some(Local(c.masked.dst))
    && c.masked.op == And
    && SplitMask(c.masked) == (Const(c.mask), Local(c.load.dst))
    && c.load.ptr == Local(c.gep.dst)
    && c.gep.base.Arg?
  }

  lemma {:induction false} FindInAssigns(instrs: seq<Instr>, r: Reg)
    ensures FindIn(instrs, r).Some? ==> Dst(FindIn(instrs, r).value) == Some(r)
  {
    if instrs != [] { FindInAssigns(instrs[1..], r); }
  }

  lemma {:induction false} FindDefAssigns(blocks: seq<Block>, r: Reg)
    ensures FindDef(blocks, r).Some? ==> Dst(FindDef(blocks, r).value) == Some(r)
  {
    if blocks != [] {
      FindInAssigns(blocks[0].instrs, r);
      FindDefAssigns(blocks[1..], r);
    }
  }

  lemma DefOfAssigns(f: Function, op: Operand)
    ensures DefOf(f, op).Some? ==> op.Local? && Dst(DefOf(f, op).value) == Some(op.r)
  {
    if op.Local? { FindDefAssigns(f.blocks, op.r); }
  }

  lemma MatchedIsLinked(f: Function, cond: Operand)
    requires MatchTest(f, cond).Some?
    ensures Linked(cond, MatchTest(f, cond).value)
  {
    var c := MatchTest(f, cond).value;
    DefOfAssigns(f, cond);
    DefOfAssigns(f, MaskedOperand(c.icmp).value);
    DefOfAssigns(f, SplitMask(c.masked).1);
    DefOfAssigns(f, c.load.ptr);
  }

  // ---- the value of the guard ------------------------------------------------------------------------------------

  function TriggerPtr(g: TriggerMaskTest): Val
    requires g.triggerPtr.Gep? && g.triggerPtr.index.Const?
  {
    Ptr(g.triggerPtr.index.n)
  }

  /** The trigger word under the mask, compared with zero. */
  function GuardTest(g: TriggerMaskTest, m: Mem): nat
    requires g.triggerPtr.Gep? && g.triggerPtr.index.Const? && InBounds(TriggerPtr(g), g.width, m)
  {
    Compare(g.pred, BitAnd(ReadBytes(m, TriggerPtr(g).offset, g.width), g.mask), 0)
  }

  /** The wrapper's own copy of the guard. */
  lemma WrapperGuardRuns(hs: Helpers, g: TriggerMaskTest, m: Mem)
    requires g.triggerPtr.Gep? && g.triggerPtr.index.Const?
    ensures if InBounds(TriggerPtr(g), g.width, m)
            then && ExecAll(hs, GuardInstrs(g), map[], m).Next?
                 && ExecAll(hs, GuardInstrs(g), map[], m).mem == m
                 && ExecAll(hs, GuardInstrs(g), map[], m).regs.Keys == {0, 1, 2, 3}
                 && ExecAll(hs, GuardInstrs(g), map[], m).regs[3] == Int(GuardTest(g, m))
            else ExecAll(hs, GuardInstrs(g), map[], m) == Traps
  {
    var code := GuardInstrs(g);
    var r0: Regs := map[];
    var r1 := r0[0 := TriggerPtr(g)];
    assert ExecInstr(hs, code[0], r0, m) == Next(r1, m);
    assert ExecAll(hs, code, r0, m) == ExecAll(hs, code[1..], r1, m);
    assert code[1..][0] == code[1] && code[1..][1..] == code[2..];
    if InBounds(TriggerPtr(g), g.width, m) {
      var x := ReadBytes(m, TriggerPtr(g).offset, g.width);
      var r2 := r1[1 := Int(x)];
      assert ExecAll(hs, code[1..], r1, m) == ExecAll(hs, code[2..], r2, m);
      var r3 := r2[2 := Int(BitAnd(x, g.mask))];
      assert code[2..][0] == code[2] && code[2..][1..] == code[3..];
      assert ExecAll(hs, code[2..], r2, m) == ExecAll(hs, code[3..], r3, m);
      var r4 := r3[3 := Int(GuardTest(g, m))];
      assert code[3..][0] == code[3] && code[3..][1..] == [];
      assert ExecAll(hs, code[3..], r3, m) == Next(r4, m);
    }
  }

  /** A constant offset from the root argument: computing it touches nothing and cannot fail. */
  predicate ConstRootGep(i: Instr) {
    i.Gep? && i.base == Arg(0) && i.index.Const?
  }

  /** The guard's load, mask and compare sit at `l < a < c` of `code`; everything else computes constant offsets. */
  ghost predicate GuardCode(code: seq<Instr>, chain: TestChain, l: nat, a: nat, c: nat) {
    && l < a < c < |code|
    && code[l] == chain.load && code[a] == chain.masked && code[c] == chain.icmp
    && forall i | 0 <= i < |code| && i != l && i != a && i != c :: ConstRootGep(code[i])
  }

  ghost predicate DistinctDsts(code: seq<Instr>) {
    forall i, j | 0 <= i < j < |code| && Dst(code[i]).Some? :: Dst(code[i]) != Dst(code[j])
  }

  /** The trigger's address is in the registers already, or its computation is still ahead of the load. */
  ghost predicate AddressAhead(code: seq<Instr>, chain: TestChain, p: nat, l: nat, regs: Regs)
    requires ValidTest(chain)
  {
    || (chain.gep.dst in regs && regs[chain.gep.dst] == Ptr(chain.gep.index.n)
        && forall i | p <= i < |code| :: Dst(code[i]) != Some(chain.gep.dst))
    || (exists i :: p <= i < l && i < |code| && code[i] == chain.gep)
  }

  /** What has been computed once the first `p` instructions are done. */
  ghost predicate Progress(code: seq<Instr>, cond: Operand, chain: TestChain, l: nat, a: nat, c: nat, p: nat, regs: Regs, m: Mem)
    requires Linked(cond, chain)
  {
    && (p <= l ==> AddressAhead(code, chain, p, l, regs))
    && (p > l ==> InBounds(Ptr(chain.gep.index.n), chain.load.width, m)
                  && chain.load.dst in regs
                  && regs[chain.load.dst] == Int(ReadBytes(m, chain.gep.index.n, chain.load.width)))
    && (p > a ==> InBounds(Ptr(chain.gep.index.n), chain.load.width, m)
                  && chain.masked.dst in regs
                  && regs[chain.masked.dst] == Int(BitAnd(ReadBytes(m, chain.gep.index.n, chain.load.width), chain.mask)))
    && (p > c ==> InBounds(Ptr(chain.gep.index.n), chain.load.width, m)
                  && chain.icmp.dst in regs
                  && regs[chain.icmp.dst] ==
                     Int(Compare(chain.icmp.pred, BitAnd(ReadBytes(m, chain.gep.index.n, chain.load.width), chain.mask), 0)))
  }

  lemma GuardStep(hs: Helpers, code: seq<Instr>, cond: Operand, chain: TestChain, l: nat, a: nat, c: nat, p: nat, regs: Regs, m: Mem)
    requires Linked(cond, chain) && chain.gep.base == Arg(0)
    requires GuardCode(code, chain, l, a, c) && DistinctDsts(code) && p < |code|
    requires Progress(code, cond, chain, l, a, c, p, regs, m)
    ensures match ExecInstr(hs, code[p], regs, m)
            case Next(r, m') => m' == m && Progress(code, cond, chain, l, a, c, p + 1, r, m)
                             && (ConstRootGep(code[p]) ==> r == regs[code[p].dst := Ptr(code[p].index.n)])
            case Traps => p == l && !InBounds(Ptr(chain.gep.index.n), chain.load.width, m)
            case Diverges => false
  {
    if p == a || p == c {
      BitAndCommutes(ReadBytes(m, chain.gep.index.n, chain.load.width), chain.mask);
    }
  }

  /** The header computes its guard and leaves memory alone; it traps exactly when the trigger word is out of bounds. */
  lemma {:induction false} HeaderGuardRuns(
      hs: Helpers, code: seq<Instr>, cond: Operand, chain: TestChain, l: nat, a: nat, c: nat, p: nat, regs: Regs, m: Mem)
    requires Linked(cond, chain) && chain.gep.base == Arg(0)
    requires GuardCode(code, chain, l, a, c) && DistinctDsts(code) && p <= |code|
    requires Progress(code, cond, chain, l, a, c, p, regs, m)
    ensures match ExecAll(hs, code[p..], regs, m)
            case Next(r, m') => m' == m && Progress(code, cond, chain, l, a, c, |code|, r, m)
              && (forall i | p <= i < |code| && ConstRootGep(code[i]) :: code[i].dst in r && r[code[i].dst] == Ptr(code[i].index.n))
            case Traps => !InBounds(Ptr(chain.gep.index.n), chain.load.width, m)
            case Diverges => false
    decreases |code| - p
  {
    if p < |code| {
      GuardStep(hs, code, cond, chain, l, a, c, p, regs, m);
      assert code[p..][0] == code[p] && code[p..][1..] == code[p + 1..];
      match ExecInstr(hs, code[p], regs, m) {
        case Next(r, _) =>
          HeaderGuardRuns(hs, code, cond, chain, l, a, c, p + 1, r, m);
          if ConstRootGep(code[p]) {
            LaterKeeps(hs, code, p + 1, code[p].dst, r, m);
          }
        case _ =>
      }
    }
  }

  /** A register no later instruction assigns keeps its value. */
  lemma {:induction false} LaterKeeps(hs: Helpers, code: seq<Instr>, p: nat, x: Reg, regs: Regs, m: Mem)
    requires p <= |code| && x in regs
    requires forall i | p <= i < |code| :: Dst(code[i]) != Some(x)
    ensures ExecAll(hs, code[p..], regs, m).Next? ==>
              x in ExecAll(hs, code[p..], regs, m).regs && ExecAll(hs, code[p..], regs, m).regs[x] == regs[x]
    decreases |code| - p
  {
    if p < |code| {
      assert code[p..][0] == code[p] && code[p..][1..] == code[p + 1..];
      match ExecInstr(hs, code[p], regs, m) {
        case Next(r, m') =>
          assert Dst(code[p]) != Some(x);
          LaterKeeps(hs, code, p + 1, x, r, m');
        case _ =>
      }
    }
  }
}
