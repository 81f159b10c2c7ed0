/** What the run commands and GET_STOP_REASON do, stated on the words of the command and the answers of the steps alone. */
module RunCommands {
  import opened MailboxAbi
  import opened MockCore
  import opened RunLoops
  import opened Dispatch
  import opened Prelude
  import Bindings

  // ---- RUN_UNTIL_EVENT --------------------------------------------------------------------------------------------------

  ghost predicate PcIsBound(env: Env) {
    exists i :: 0 <= i < |env.regs| && env.regs[i].space == ADDR_REG_DEBUG && env.regs[i].index == DEBUG_REG_PC
  }

  /** The cycles of a step: its own, else the second argument word, else one. */
  function StepCycles(cmd: Command, step: StepOutcome): nat {
    if step.Failed? then 0 else if step.cycles != 0 then step.cycles else if cmd.arg1 != 0 then cmd.arg1 else 1
  }

  /** The pc bytes of a step: its own, else what the last two words say, else nothing with a bound pc and four without. */
  ghost function StepBytes(env: Env, cmd: Command, step: StepOutcome): nat {
    if step.Failed? then 0
    else if step.pcs != 0 then step.pcs
    else if cmd.reserved2 != 0 || cmd.reserved3 != 0 then cmd.reserved3 * W32 + cmd.reserved2
    else if PcIsBound(env) then 0 else 4
  }

  function CyclesAfter(env: Env, c: Core, cmd: Command, k: nat): nat {
    if k == 0 then 0 else CyclesAfter(env, c, cmd, k - 1) + StepCycles(cmd, env.steps(c.taken + k - 1))
  }

  ghost function BytesAfter(env: Env, c: Core, cmd: Command, k: nat): nat {
    if k == 0 then 0 else BytesAfter(env, c, cmd, k - 1) + StepBytes(env, cmd, env.steps(c.taken + k - 1))
  }

  /** The timeout that reserved words 0 and 1 carry has passed after `k` epochs. */
  predicate TimeIsUp(env: Env, c: Core, cmd: Command, k: nat) {
    var timeout := cmd.reserved1 * W32 + cmd.reserved0;
    timeout != NEVER && CyclesAfter(env, c, cmd, k) % W64 >= timeout
  }

  /** As many epochs have run as the address words allow. */
  predicate ExternalStopIsDue(cmd: Command, k: nat) {
    var epochs := cmd.addrHi * W32 + cmd.addrLo;
    epochs != NEVER && k >= epochs
  }

  /** The pc has come to the breakpoint after `k` epochs. */
  ghost predicate PcIsAtBreakpoint(env: Env, c: Core, cmd: Command, k: nat) {
    c.state.bpEnabled && (c.state.pc + BytesAfter(env, c, cmd, k)) % W64 == c.state.bpPc
  }

  /** What stops the run after `k` epochs, before another step. */
  function StopsBefore(env: Env, c: Core, cmd: Command, k: nat): u32 {
    if TimeIsUp(env, c, cmd, k) then STOP_TIMEOUT
    else if ExternalStopIsDue(cmd, k) then STOP_EXTERNAL_STOP
    else if env.steps(c.taken + k).Failed? then STOP_FAULT
    else STOP_NONE
  }

  /** What stops the run right after step `k`. */
  ghost function StopsAfter(env: Env, c: Core, cmd: Command, k: nat): u32 {
    if env.steps(c.taken + k).Failed? then STOP_NONE
    else if env.steps(c.taken + k).stop != STOP_NONE then env.steps(c.taken + k).stop
    else if PcIsAtBreakpoint(env, c, cmd, k + 1) then STOP_BREAKPOINT_HIT
    else if TimeIsUp(env, c, cmd, k + 1) then STOP_TIMEOUT
    else STOP_NONE
  }

  lemma {:induction false} FindFromMisses(table: seq<Bindings.Binding>, key: Bindings.Key, p: nat)
    requires p <= |table|
    ensures Bindings.FindFrom(table, key, p) < |table| <==>
            exists i :: p <= i < |table| && table[i].space == key.space && table[i].index == key.index
    decreases |table| - p
  {
    if p < |table| { FindFromMisses(table, key, p + 1); }
  }

  lemma DeltasAre(env: Env, cmd: Command, i: nat)
    ensures CyclesOf(env.steps, ArgsOf(env, cmd), i) == StepCycles(cmd, env.steps(i))
    ensures PcsOf(env.steps, ArgsOf(env, cmd), i) == StepBytes(env, cmd, env.steps(i))
  {
    FindFromMisses(env.regs, Bindings.Key(ADDR_REG_DEBUG, DEBUG_REG_PC), 0);
    WordsAre(cmd.reserved2, cmd.reserved3);
  }

  lemma WordsAre(lo: u32, hi: u32)
    ensures FromWords(lo, hi) == hi * W32 + lo && (FromWords(lo, hi) == 0 <==> lo == 0 && hi == 0)
  {
  }

  lemma {:induction false} SumsAre(env: Env, c: Core, cmd: Command, k: nat)
    ensures SumCycles(env.steps, ArgsOf(env, cmd), c.taken, k) == CyclesAfter(env, c, cmd, k)
    ensures SumPcs(env.steps, ArgsOf(env, cmd), c.taken, k) == BytesAfter(env, c, cmd, k)
  {
    hide ArgsOf;
    if k > 0 {
      SumsAre(env, c, cmd, k - 1);
      DeltasAre(env, cmd, c.taken + k - 1);
    }
  }

  lemma {:induction false} BreakpointStays(steps: Steps, a: Args, c: Core, k: nat)
    ensures var s := After(steps, a, c, k).state; s.bpEnabled == c.state.bpEnabled && s.bpPc == c.state.bpPc
  {
    if k > 0 { BreakpointStays(steps, a, c, k - 1); }
  }

  lemma ElapsedIs(base: u64, n: nat)
    ensures Sub64((base + n) % W64, base) == n % W64
  {
  }

  /** What the loop tests after `k` epochs, in terms of the words. */
  lemma TestsAre(env: Env, c: Core, cmd: Command, k: nat)
    ensures var s := After(env.steps, ArgsOf(env, cmd), c, k).state;
            && (TimedOut(ArgsOf(env, cmd), c.state.cycleCount, s) <==> TimeIsUp(env, c, cmd, k))
            && (AtBreakpoint(s) <==> PcIsAtBreakpoint(env, c, cmd, k))
  {
    hide After, CyclesAfter, BytesAfter, Add64, Sub64, FromWords;
    AfterTotals(env.steps, ArgsOf(env, cmd), c, k);
    BreakpointStays(env.steps, ArgsOf(env, cmd), c, k);
    SumsAre(env, c, cmd, k);
    ElapsedIs(c.state.cycleCount, CyclesAfter(env, c, cmd, k));
    WordsAre(cmd.reserved0, cmd.reserved1);
  }

  lemma ReasonsAre(env: Env, c: Core, cmd: Command, k: nat)
    ensures StopBefore(env.steps, ArgsOf(env, cmd), c, k) == StopsBefore(env, c, cmd, k)
    ensures StopAfter(env.steps, ArgsOf(env, cmd), c, k) == StopsAfter(env, c, cmd, k)
  {
    hide After, TimedOut, TimeIsUp, AtBreakpoint, PcIsAtBreakpoint;
    TestsAre(env, c, cmd, k);
    TestsAre(env, c, cmd, k + 1);
    AfterTaken(env.steps, ArgsOf(env, cmd), c, k);
    WordsAre(cmd.addrLo, cmd.addrHi);
  }

  /** The fault that an earlier run left does not matter to the tests. */
  lemma FaultIsIgnored(env: Env, c: Core, cmd: Command, k: nat)
    ensures var c0 := c.(fault := NO_FAULT);
            StopsBefore(env, c0, cmd, k) == StopsBefore(env, c, cmd, k) && StopsAfter(env, c0, cmd, k) == StopsAfter(env, c, cmd, k)
  {
    SameSums(env, c, cmd, k);
    SameSums(env, c, cmd, k + 1);
  }

  lemma {:induction false} SameSums(env: Env, c: Core, cmd: Command, k: nat)
    ensures CyclesAfter(env, c.(fault := NO_FAULT), cmd, k) == CyclesAfter(env, c, cmd, k)
    ensures BytesAfter(env, c.(fault := NO_FAULT), cmd, k) == BytesAfter(env, c, cmd, k)
  {
    if k > 0 { SameSums(env, c, cmd, k - 1); }
  }

  /**
   RUN_UNTIL_EVENT by its words, for all steps. It runs at most `arg0` epochs, stops at the first of them where the
   timeout of reserved words 0 and 1, the external stop of the address words, a failing or reporting step or the
   breakpoint stops it, and reports how many epochs it ran, why it stopped, and where.
   */
  lemma RunUntilEventByWords(env: Env, c: Core, cmd: Command) returns (i: nat, executed: nat, stop: u32)
    requires cmd.opcode == OP_RUN_UNTIL_EVENT
    ensures i <= cmd.arg0
    ensures forall j: nat | j < i :: StopsBefore(env, c, cmd, j) == STOP_NONE && StopsAfter(env, c, cmd, j) == STOP_NONE
    ensures i == cmd.arg0 ==> executed == i && stop == STOP_EPOCH_LIMIT
    ensures i < cmd.arg0 && StopsBefore(env, c, cmd, i) != STOP_NONE ==> executed == i && stop == StopsBefore(env, c, cmd, i)
    ensures i < cmd.arg0 && StopsBefore(env, c, cmd, i) == STOP_NONE ==>
              executed == i + 1 && stop == StopsAfter(env, c, cmd, i) != STOP_NONE
    ensures var r := ExecuteCommand(env, c, cmd);
            && executed < W64
            && Reports(r, cmd, executed, stop,
                       if stop == STOP_FAULT then STATUS_FAULT else if stop == STOP_TIMEOUT then STATUS_TIMEOUT else STATUS_OK)
            && (if i < cmd.arg0 && StopsBefore(env, c, cmd, i) == STOP_FAULT then NamesFault(r.core, env.steps(c.taken + i))
                else r.core.fault == NO_FAULT)
            && r.core.totalEpochs == r.core.state.totalEpochs == (c.totalEpochs + executed) % W64
            && r.core.state.cycleCount == (c.state.cycleCount + CyclesAfter(env, c, cmd, executed)) % W64
            && r.core.state.pc == (c.state.pc + BytesAfter(env, c, cmd, executed)) % W64
  {
    hide RunLoops.RunUntilEvent, StopsBefore, StopsAfter, StopBefore, StopAfter, CyclesAfter, BytesAfter, SumCycles, SumPcs, ExecuteCommand;
    var a, c0 := ArgsOf(env, cmd), c.(fault := NO_FAULT);
    i := EarliestStop(env.steps, a, c);
    RunAccounts(env.steps, a, c);
    RunUntilEventReports(env, c, cmd);
    var run := RunLoops.RunUntilEvent(env.steps, a, c);
    executed, stop := run.executed, run.stop;
    SumsAre(env, c, cmd, executed);
    forall j: nat
      ensures StopBefore(env.steps, a, c0, j) == StopsBefore(env, c, cmd, j)
      ensures StopAfter(env.steps, a, c0, j) == StopsAfter(env, c, cmd, j)
    {
      ReasonsAre(env, c0, cmd, j);
      FaultIsIgnored(env, c, cmd, j);
    }
    forall j: nat | j < i ensures StopsBefore(env, c, cmd, j) == STOP_NONE && StopsAfter(env, c, cmd, j) == STOP_NONE {
      assert RunsOn(env.steps, a, c0, j);
    }
  }

  // ---- RUN_CYCLES -------------------------------------------------------------------------------------------------------

  /** The cycles of the first `k` steps, an empty step counting as one, and their pc bytes. */
  function CyclesOfSteps(steps: Steps, from: nat, k: nat): nat {
    if k == 0 then 0
    else CyclesOfSteps(steps, from, k - 1)
         + match steps(from + k - 1) case Failed(_) => 0 case Stepped(cycles, _, _) => if cycles == 0 then 1 else cycles
  }

  function BytesOfSteps(steps: Steps, from: nat, k: nat): nat {
    if k == 0 then 0
    else BytesOfSteps(steps, from, k - 1) + match steps(from + k - 1) case Failed(_) => 0 case Stepped(_, pcs, _) => pcs
  }

  /** Step `k` is taken, succeeds and reports nothing. */
  predicate StepsOn(steps: Steps, target: u64, c: Core, k: nat) {
    CyclesOfSteps(steps, c.taken, k) % W64 < target && steps(c.taken + k).Stepped? && steps(c.taken + k).stop == STOP_NONE
  }

  /** The epochs of RUN_CYCLES are those of a run with deltas one and zero. */
  const BY_CYCLES := Args(0, NEVER, NEVER, 1, 0)

  lemma {:induction false} SumsOfSteps(steps: Steps, from: nat, k: nat)
    ensures SumCycles(steps, BY_CYCLES, from, k) == CyclesOfSteps(steps, from, k)
    ensures SumPcs(steps, BY_CYCLES, from, k) == BytesOfSteps(steps, from, k)
  {
    if k > 0 { SumsOfSteps(steps, from, k - 1); }
  }

  /** The core after `k` completed steps. */
  lemma StepTotals(steps: Steps, c: Core, k: nat)
    ensures var d := After(steps, BY_CYCLES, c, k);
            && d.taken == c.taken + k && d.fault == c.fault && d.totalEpochs == (c.totalEpochs + k) % W64
            && d.state.cycleCount == (c.state.cycleCount + CyclesOfSteps(steps, c.taken, k)) % W64
            && d.state.pc == (c.state.pc + BytesOfSteps(steps, c.taken, k)) % W64
            && Sub64(d.state.cycleCount, c.state.cycleCount) == CyclesOfSteps(steps, c.taken, k) % W64
  {
    AfterTotals(steps, BY_CYCLES, c, k);
    SumsOfSteps(steps, c.taken, k);
    ElapsedIs(c.state.cycleCount, CyclesOfSteps(steps, c.taken, k));
  }

  lemma {:induction false} CyclesReach(steps: Steps, target: u64, c: Core, fuel: nat, k: nat)
    requires k <= fuel && forall j: nat | j < k :: StepsOn(steps, target, c, j)
    ensures RunCyclesFrom(steps, target, c.state.cycleCount, c, fuel)
            == RunCyclesFrom(steps, target, c.state.cycleCount, After(steps, BY_CYCLES, c, k), fuel - k)
    decreases k
  {
    hide Epoch, CyclesOfSteps, BytesOfSteps, Sub64;
    if k > 0 {
      CyclesReach(steps, target, c, fuel, k - 1);
      StepTotals(steps, c, k - 1);
      assert StepsOn(steps, target, c, k - 1);
      NextEpoch(steps, c, k - 1);
    }
  }

  lemma NextEpoch(steps: Steps, c: Core, k: nat)
    requires steps(c.taken + k).Stepped?
    ensures After(steps, BY_CYCLES, c, k + 1)
            == Epoch(After(steps, BY_CYCLES, c, k), Or(steps(c.taken + k).cycles, 1), steps(c.taken + k).pcs)
  {
    hide Epoch;
  }

  lemma {:induction false} FirstNotOn(steps: Steps, target: u64, c: Core, fuel: nat, k: nat) returns (i: nat)
    requires k <= fuel && forall j: nat | j < k :: StepsOn(steps, target, c, j)
    ensures k <= i <= fuel && forall j: nat | j < i :: StepsOn(steps, target, c, j)
    ensures i < fuel ==> !StepsOn(steps, target, c, i)
    decreases fuel - k
  {
    if k < fuel && StepsOn(steps, target, c, k) { i := FirstNotOn(steps, target, c, fuel, k + 1); } else { i := k; }
  }

  /** How a run of cycles that stepped on `i` times and no further ends, after `n` epochs. */
  ghost predicate EndsCycles(steps: Steps, target: u64, c: Core, i: nat, n: nat, stop: u32) {
    if CyclesOfSteps(steps, c.taken, i) % W64 >= target then n == i && stop == STOP_RUN_CYCLES_DONE
    else if steps(c.taken + i).Failed? then n == i && stop == STOP_FAULT
    else n == i + 1 && stop == steps(c.taken + i).stop != STOP_NONE
  }

  /** The fault that such a run leaves: that of a failing step, else none. */
  predicate FaultOfCycles(steps: Steps, target: u64, c: Core, i: nat, d: Core) {
    if CyclesOfSteps(steps, c.taken, i) % W64 < target && steps(c.taken + i).Failed? then NamesFault(d, steps(c.taken + i))
    else d.fault == NO_FAULT
  }

  lemma LastTurn(steps: Steps, target: u64, start: u64, d: Core, fuel: nat)
    requires RunCyclesFrom(steps, target, start, d, fuel).2
    requires Sub64(d.state.cycleCount, start) < target ==> steps(d.taken).Failed? || steps(d.taken).stop != STOP_NONE
    ensures RunCyclesFrom(steps, target, start, d, fuel) ==
            if Sub64(d.state.cycleCount, start) >= target then (d, STOP_NONE, true)
            else if steps(d.taken).Failed? then (Fail(d, steps(d.taken).fault), STOP_FAULT, true)
            else (Epoch(d, Or(steps(d.taken).cycles, 1), steps(d.taken).pcs), steps(d.taken).stop, true)
  {
  }

  lemma NeedsFuel(steps: Steps, target: u64, c: Core, i: nat)
    requires RunCyclesFrom(steps, target, c.state.cycleCount, After(steps, BY_CYCLES, c, i), 0).2
    ensures !StepsOn(steps, target, c, i)
  {
    hide After, CyclesOfSteps, BytesOfSteps;
    StepTotals(steps, c, i);
  }

  /**
   The accounting of RUN_CYCLES: it takes steps until the target is met, a step fails or a step reports a stop, the first
   of these; epochs, cycles and pc advance by exactly what the completed steps report, an empty step counting one cycle.
   */
  lemma RunCyclesAccounts(steps: Steps, target: u64, c: Core, fuel: nat) returns (i: nat, n: nat)
    requires CyclesEnd(steps, target, c, fuel)
    ensures forall j: nat | j < i :: StepsOn(steps, target, c, j)
    ensures var (d, stop, executed) := RunCycles(steps, target, c, fuel);
            && EndsCycles(steps, target, c, i, n, stop)
            && FaultOfCycles(steps, target, c, i, d)
            && executed == CyclesOfSteps(steps, c.taken, n) % W64
            && d.totalEpochs == d.state.totalEpochs == (c.totalEpochs + n) % W64
            && d.state.cycleCount == (c.state.cycleCount + executed) % W64
            && d.state.pc == (c.state.pc + BytesOfSteps(steps, c.taken, n)) % W64
            && d.state.lastStop == stop
  {
    hide After, CyclesOfSteps, BytesOfSteps, RunCyclesFrom;
    var c0, start := c.(fault := NO_FAULT), c.state.cycleCount;
    i := FirstNotOn(steps, target, c0, fuel, 0);
    CyclesReach(steps, target, c0, fuel, i);
    var last := After(steps, BY_CYCLES, c0, i);
    if i == fuel { NeedsFuel(steps, target, c0, i); }
    StepTotals(steps, c0, i);
    LastTurn(steps, target, start, last, fuel - i);
    forall j: nat | j < i ensures StepsOn(steps, target, c, j) { assert StepsOn(steps, target, c0, j); }
    n := i;
    if CyclesOfSteps(steps, c.taken, i) % W64 < target && steps(c.taken + i).Stepped? {
      n := i + 1;
      NextEpoch(steps, c0, i);
      StepTotals(steps, c0, n);
    }
    SumWraps(start, CyclesOfSteps(steps, c.taken, n));
  }

  lemma SumWraps(base: u64, n: nat)
    ensures (base + n) % W64 == (base + n % W64) % W64
  {
  }

  /** RUN_CYCLES by its words: the target is the pair of argument words, and the reply reports what the steps did. */
  lemma RunCyclesByWords(env: Env, c: Core, cmd: Command) returns (target: u64, i: nat, n: nat, stop: u32)
    requires cmd.opcode == OP_RUN_CYCLES && Ends(env, c, cmd)
    ensures target == cmd.arg1 * W32 + cmd.arg0
    ensures (forall j: nat | j < i :: StepsOn(env.steps, target, c, j)) && EndsCycles(env.steps, target, c, i, n, stop)
    ensures var r := ExecuteCommand(env, c, cmd);
            && Reports(r, cmd, CyclesOfSteps(env.steps, c.taken, n) % W64, stop, if stop == STOP_FAULT then STATUS_FAULT else STATUS_OK)
            && FaultOfCycles(env.steps, target, c, i, r.core)
            && r.core.totalEpochs == r.core.state.totalEpochs == (c.totalEpochs + n) % W64
            && r.core.state.pc == (c.state.pc + BytesOfSteps(env.steps, c.taken, n)) % W64
  {
    hide ExecuteCommand, RunCycles, CyclesEnd, StepsOn, EndsCycles, FaultOfCycles, Reports;
    WordsAre(cmd.arg0, cmd.arg1);
    target := Argument(cmd);
    i, n := RunCyclesAccounts(env.steps, Argument(cmd), c, env.fuel);
    RunCyclesReports(env, c, cmd);
    stop := RunCycles(env.steps, Argument(cmd), c, env.fuel).1;
  }

  // ---- GET_STOP_REASON --------------------------------------------------------------------------------------------------

  /** GET_STOP_REASON answers the last stop reason and the cycle count, low word first, and changes nothing. */
  lemma StopReasonIsAnswered(env: Env, c: Core, cmd: Command)
    requires cmd.opcode == OP_GET_STOP_REASON
    ensures var r := ExecuteCommand(env, c, cmd);
            && r.core == c && r.ev.eventType == EVENT_NONE && r.rsp.requestId == cmd.requestId && r.rsp.status == STATUS_OK
            && r.rsp.arg0 == c.state.lastStop && r.rsp.sizeBytes * W32 + r.rsp.arg1 == c.state.cycleCount
    ensures var x := Execute(cmd, c.state);
            && !x.haveEvent && x.state == Refresh(c.state) && x.rsp == ExecuteCommand(env, c, cmd).rsp
  {
    WordsRoundTrip(c.state.cycleCount, 0, 0);
    WordsAre(Lo(c.state.cycleCount), Hi(c.state.cycleCount));
  }
}
