/** The mock's one-shot RUN_UNTIL_EVENT against the stepped loop of the runtime. */
module ClosedForm {
  import opened MailboxAbi
  import opened MockCore
  import opened RunLoops
  import opened Dispatch
  import opened Prelude

  /** Every step succeeds, takes one cycle and four bytes, and reports no stop. */
  ghost predicate UnitSteps(steps: Steps, a: Args) {
    forall i: nat :: steps(i).Stepped? && CyclesOf(steps, a, i) == 1 && PcsOf(steps, a, i) == 4 && steps(i).stop == STOP_NONE
  }

  /** A command without external stop and timeout, that leaves the stop reason to the mock. */
  predicate PlainRun(cmd: Command) {
    && cmd.opcode == OP_RUN_UNTIL_EVENT && cmd.arg1 == 0
    && FromWords(cmd.addrLo, cmd.addrHi) == NEVER && FromWords(cmd.reserved0, cmd.reserved1) == NEVER
  }

  /** The distance to the breakpoint, in bytes, going up and around. */
  function Gap(s: MockState): u64 { Sub64(s.bpPc, s.pc) }

  /** The breakpoint is where the run starts, or lies below and is met by wrapping round within the limit. */
  predicate Disagrees(s: MockState, limit: u32) {
    s.bpEnabled && (s.bpPc == s.pc || (s.bpPc < s.pc && Gap(s) % 4 == 0 && Gap(s) / 4 <= limit))
  }

  lemma {:induction false} UnitSums(steps: Steps, a: Args, i: nat, k: nat)
    requires UnitSteps(steps, a)
    ensures SumCycles(steps, a, i, k) == k && SumPcs(steps, a, i, k) == 4 * k
  {
    if k > 0 { UnitSums(steps, a, i, k - 1); }
  }

  lemma EpochLands(c: Core, d: Core, n: nat, stop: u32)
    requires d.state == Landed(c.state, c.totalEpochs, n, stop) && d.totalEpochs == (c.totalEpochs + n) % W64
    ensures Epoch(d, 1, 4).state == Landed(c.state, c.totalEpochs, n + 1, stop)
  {
    AddWraps(c.totalEpochs, n, 1);
    AddWraps(c.state.cycleCount, n, 1);
    AddWraps(c.state.pc, 4 * n, 4);
  }

  lemma {:induction false} UnitAfter(steps: Steps, a: Args, c: Core, k: nat)
    requires UnitSteps(steps, a) && k > 0
    ensures After(steps, a, c, k).state == Landed(c.state, c.totalEpochs, k, c.state.lastStop)
    ensures After(steps, a, c, k).totalEpochs == (c.totalEpochs + k) % W64
  {
    AfterTotals(steps, a, c, k);
    if k == 1 {
      FirstEpoch(steps, a, c);
    } else {
      UnitAfter(steps, a, c, k - 1);
      EpochLands(c, After(steps, a, c, k - 1), k - 1, c.state.lastStop);
    }
  }

  lemma FirstEpoch(steps: Steps, a: Args, c: Core)
    requires UnitSteps(steps, a)
    ensures After(steps, a, c, 1).state == Landed(c.state, c.totalEpochs, 1, c.state.lastStop)
  {
    assert After(steps, a, c, 0) == c;
    assert After(steps, a, c, 1) == Epoch(c, 1, 4);
  }

  lemma FinishLands(c: Core, d: Core, n: nat, stop: u32)
    requires (n == 0 && d == c) || d.state == Landed(c.state, c.totalEpochs, n, c.state.lastStop)
    requires d.totalEpochs == (c.totalEpochs + n) % W64
    ensures Finish(d, stop).state == Landed(c.state, c.totalEpochs, n, stop)
  {
  }

  /** Where the stepped loop stops: at the breakpoint if it lies one to `limit` steps ahead, going round, else at the limit. */
  function StepsToStop(s: MockState, limit: u32): nat {
    if s.bpEnabled && Gap(s) != 0 && Gap(s) % 4 == 0 && Gap(s) / 4 <= limit then Gap(s) / 4 else limit
  }

  function StopThere(s: MockState, limit: u32): u32 {
    if s.bpEnabled && Gap(s) != 0 && Gap(s) % 4 == 0 && Gap(s) / 4 <= limit then STOP_BREAKPOINT_HIT else STOP_EPOCH_LIMIT
  }

  /** The pc meets the breakpoint after `n` steps exactly when the gap is `4n` bytes. */
  lemma MeetsBreakpoint(s: MockState, n: nat)
    requires 4 * n < W64
    ensures (s.pc + 4 * n) % W64 == s.bpPc <==> Gap(s) == 4 * n
  {
  }

  lemma UnitTurn(steps: Steps, a: Args, c: Core, k: nat)
    requires UnitSteps(steps, a) && a.externalStopAt == NEVER && a.timeoutAt == NEVER && 4 * (k + 1) < W64
    ensures StopBefore(steps, a, c, k) == STOP_NONE
    ensures StopAfter(steps, a, c, k) ==
            if c.state.bpEnabled && Gap(c.state) == 4 * (k + 1) then STOP_BREAKPOINT_HIT else STOP_NONE
  {
    UnitAfter(steps, a, c, k + 1);
    MeetsBreakpoint(c.state, k + 1);
  }

  lemma UnitRun(steps: Steps, a: Args, c: Core)
    requires UnitSteps(steps, a) && a.externalStopAt == NEVER && a.timeoutAt == NEVER && a.epochLimit < W32
    ensures var r := RunUntilEvent(steps, a, c);
            && r.executed == StepsToStop(c.state, a.epochLimit) && r.stop == StopThere(c.state, a.epochLimit)
            && r.core.state == Landed(c.state, c.totalEpochs, r.executed, r.stop)
  {
    var c0 := c.(fault := NO_FAULT);
    var i := EpochsStopFirst(steps, a, c0);
    if i < a.epochLimit { UnitTurn(steps, a, c0, i); }
    var n := StepsToStop(c.state, a.epochLimit);
    if i > 0 { UnitTurn(steps, a, c0, i - 1); }
    UnitStopIs(steps, a, c0, i);
    AfterTotals(steps, a, c0, n);
    if n > 0 { UnitAfter(steps, a, c0, n); }
    FinishLands(c0, After(steps, a, c0, n), n, StopThere(c.state, a.epochLimit));
  }

  lemma UnitStopIs(steps: Steps, a: Args, c: Core, i: nat)
    requires UnitSteps(steps, a) && a.externalStopAt == NEVER && a.timeoutAt == NEVER && a.epochLimit < W32
    requires i <= a.epochLimit && forall j: nat | j < i :: RunsOn(steps, a, c, j)
    requires i < a.epochLimit ==> !RunsOn(steps, a, c, i)
    ensures i == a.epochLimit ==> StopThere(c.state, a.epochLimit) == STOP_EPOCH_LIMIT
    ensures i < a.epochLimit ==> StepsToStop(c.state, a.epochLimit) == i + 1
                                 && StopThere(c.state, a.epochLimit) == STOP_BREAKPOINT_HIT
  {
    if i < a.epochLimit { UnitTurn(steps, a, c, i); }
    if StopThere(c.state, a.epochLimit) == STOP_BREAKPOINT_HIT {
      var k := Gap(c.state) / 4 - 1;
      UnitTurn(steps, a, c, k);
      assert !RunsOn(steps, a, c, k);
    }
  }

  /** What the loop replies. */
  lemma LoopLands(env: Env, c: Core, cmd: Command)
    requires PlainRun(cmd) && UnitSteps(env.steps, ArgsOf(env, cmd))
    ensures var r := ExecuteRunUntilEvent(env, c, cmd);
            var n := StepsToStop(c.state, cmd.arg0);
            var stop := StopThere(c.state, cmd.arg0);
            && r.core.state == Landed(c.state, c.totalEpochs, n, stop)
            && r.ev == MakeStopEvent(Landed(c.state, c.totalEpochs, n, stop), ClassifyStop(stop), stop)
  {
    UnitRun(env.steps, ArgsOf(env, cmd), c);
  }

  /** Two landings after fewer than 2^32 steps are the same only if the steps and the reasons are. */
  lemma LandingsDiffer(s: MockState, total: u64, n: nat, stop: u32, n': nat, stop': u32)
    requires n < W32 && n' < W32
    ensures (var l, l' := Landed(s, total, n, stop), Landed(s, total, n', stop');
             l.cycleCount == l'.cycleCount && l.lastStop == l'.lastStop) <==> n == n' && stop == stop'
  {
  }

  lemma WhereTheyStop(s: MockState, limit: u32)
    ensures var n := if Hits(s, limit) then (s.bpPc - s.pc) / 4 else limit;
            var stop := if Hits(s, limit) then STOP_BREAKPOINT_HIT else STOP_EPOCH_LIMIT;
            (n == StepsToStop(s, limit) && stop == StopThere(s, limit)) <==> !Disagrees(s, limit)
  {
    if s.bpPc >= s.pc { assert Gap(s) == s.bpPc - s.pc; }
  }

  /** Same cycle count, pc, epoch count, stop reason and event. */
  predicate SameRun(x: Executed, r: Reply) {
    && x.state.cycleCount == r.core.state.cycleCount && x.state.pc == r.core.state.pc
    && x.state.totalEpochs == r.core.state.totalEpochs && x.state.lastStop == r.core.state.lastStop
    && x.ev == r.ev
  }

  /**
   * The closed form refines the stepped loop exactly when the breakpoint is not at the start and not met by wrapping
   * round; then the states agree everywhere once the mock's mirrors are refreshed.
   */
  lemma ClosedFormRefinesLoop(env: Env, c: Core, cmd: Command)
    requires PlainRun(cmd) && UnitSteps(env.steps, ArgsOf(env, cmd)) && c.totalEpochs == c.state.totalEpochs
    ensures SameRun(Execute(cmd, c.state), ExecuteRunUntilEvent(env, c, cmd)) <==> !Disagrees(c.state, cmd.arg0)
    ensures !Disagrees(c.state, cmd.arg0) ==>
              Refresh(Execute(cmd, c.state).state) == ExecuteRunUntilEvent(env, c, cmd).core.state
  {
    var s, limit := c.state, cmd.arg0;
    MockLands(cmd, s);
    LoopLands(env, c, cmd);
    WhereTheyStop(s, limit);
    LandingsDiffer(s, s.totalEpochs, if Hits(s, limit) then (s.bpPc - s.pc) / 4 else limit,
                   if Hits(s, limit) then STOP_BREAKPOINT_HIT else STOP_EPOCH_LIMIT,
                   StepsToStop(s, limit), StopThere(s, limit));
  }
}
