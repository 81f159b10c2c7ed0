/** The two run loops of the mailbox runtime, as functions of the answers of the step callback. */
module RunLoops {
  import opened MailboxAbi
  import opened MockCore
  import opened Prelude

  /** One call of the step callback: it fails, or reports its deltas and perhaps a stop. */
  datatype StepOutcome = Failed(fault: Fault) | Stepped(cycles: u64, pcs: u64, stop: u32)

  /** The callback's answers, by the number of calls made before. */
  type Steps = nat -> StepOutcome

  /** The part of a session the loops change. */
  datatype Core = Core(state: MockState, fault: Fault, totalEpochs: u64, taken: nat)

  datatype Args = Args(epochLimit: u64, externalStopAt: u64, timeoutAt: u64, cycleDelta: u64, pcDelta: u64)

  function Or(delta: u64, other: u64): u64 { if delta != 0 then delta else other }

  /** One completed epoch. */
  function Epoch(c: Core, cycles: u64, pcs: u64): Core {
    var total := Add64(c.totalEpochs, 1);
    Core(Refresh(c.state.(cycleCount := Add64(c.state.cycleCount, cycles), pc := Add64(c.state.pc, pcs),
                          totalEpochs := total)),
         c.fault, total, c.taken + 1)
  }

  function SetFault(c: Core, fault: Fault): Core {
    c.(fault := fault, state := Refresh(c.state.(lastStop := STOP_FAULT)))
  }

  /** A failed step: its fault, or a communication fault when it names none. */
  function Fail(c: Core, fault: Fault): Core {
    SetFault(c.(taken := c.taken + 1),
             if fault.kind == FAULT_NONE then CommunicationFault(STAGE_RUNTIME, 0, 0, c.state.cycleCount, c.state.pc)
             else fault)
  }

  function TimedOut(a: Args, start: u64, s: MockState): bool {
    a.timeoutAt != NEVER && Sub64(s.cycleCount, start) >= a.timeoutAt
  }

  function AtBreakpoint(s: MockState): bool { s.bpEnabled && s.pc == s.bpPc }

  function Finish(c: Core, stop: u32): Core {
    c.(state := Refresh(c.state.(lastStop := stop, totalEpochs := c.totalEpochs)))
  }

  /** One turn of the loop: the next core, or the end of the run. */
  datatype Turn = GoOn(next: Core) | Halt(core: Core, executed: nat, reason: u32)

  function Iterate(steps: Steps, a: Args, start: u64, c: Core, epoch: nat): Turn {
    if TimedOut(a, start, c.state) then Halt(c, epoch, STOP_TIMEOUT)
    else if a.externalStopAt != NEVER && epoch >= a.externalStopAt then Halt(c, epoch, STOP_EXTERNAL_STOP)
    else
      match steps(c.taken)
      case Failed(fault) => Halt(Fail(c, fault), epoch, STOP_FAULT)
      case Stepped(cycles, pcs, stop) =>
        var d := Epoch(c, Or(cycles, a.cycleDelta), Or(pcs, a.pcDelta));
        if stop != STOP_NONE then Halt(d, epoch + 1, stop)
        else if AtBreakpoint(d.state) then Halt(d, epoch + 1, STOP_BREAKPOINT_HIT)
        else if TimedOut(a, start, d.state) then Halt(d, epoch + 1, STOP_TIMEOUT)
        else GoOn(d)
  }

  /** The loop of `RunUntilEvent` from epoch number `epoch` on: the core, the epochs executed, the reason (if any). */
  function RunEpochs(steps: Steps, a: Args, start: u64, c: Core, epoch: nat): (Core, nat, u32)
    decreases a.epochLimit - epoch
  {
    if epoch >= a.epochLimit then (c, epoch, STOP_NONE)
    else
      match Iterate(steps, a, start, c, epoch)
      case Halt(d, executed, reason) => (d, executed, reason)
      case GoOn(d) => RunEpochs(steps, a, start, d, epoch + 1)
  }

  datatype RunResult = RunResult(core: Core, executed: nat, stop: u32)

  function RunUntilEvent(steps: Steps, a: Args, c: Core): RunResult {
    var (d, executed, reason) := RunEpochs(steps, a, c.state.cycleCount, c.(fault := NO_FAULT), 0);
    var stop := if reason == STOP_NONE then STOP_EPOCH_LIMIT else reason;
    RunResult(Finish(d, stop), executed, stop)
  }

  // ---- the earliest stop ---------------------------------------------------------------------------------------------------

  function CyclesOf(steps: Steps, a: Args, i: nat): u64 {
    match steps(i) case Failed(_) => 0 case Stepped(cycles, _, _) => Or(cycles, a.cycleDelta)
  }

  function PcsOf(steps: Steps, a: Args, i: nat): u64 {
    match steps(i) case Failed(_) => 0 case Stepped(_, pcs, _) => Or(pcs, a.pcDelta)
  }

  /** The core after `k` completed epochs, had nothing stopped them. */
  function After(steps: Steps, a: Args, c: Core, k: nat): Core {
    if k == 0 then c
    else Epoch(After(steps, a, c, k - 1), CyclesOf(steps, a, c.taken + k - 1), PcsOf(steps, a, c.taken + k - 1))
  }

  function SumCycles(steps: Steps, a: Args, i: nat, k: nat): nat {
    if k == 0 then 0 else SumCycles(steps, a, i, k - 1) + CyclesOf(steps, a, i + k - 1)
  }

  function SumPcs(steps: Steps, a: Args, i: nat, k: nat): nat {
    if k == 0 then 0 else SumPcs(steps, a, i, k - 1) + PcsOf(steps, a, i + k - 1)
  }

  /** What stops a run at core `d`, after `k` epochs and before the next step. */
  function ReasonBefore(steps: Steps, a: Args, start: u64, d: Core, k: nat): u32 {
    if TimedOut(a, start, d.state) then STOP_TIMEOUT
    else if a.externalStopAt != NEVER && k >= a.externalStopAt then STOP_EXTERNAL_STOP
    else if steps(d.taken).Failed? then STOP_FAULT
    else STOP_NONE
  }

  /** What stops a run at core `e`, right after a step. */
  function ReasonAfter(a: Args, start: u64, step: StepOutcome, e: Core): u32 {
    if step.Failed? then STOP_NONE
    else if step.stop != STOP_NONE then step.stop
    else if AtBreakpoint(e.state) then STOP_BREAKPOINT_HIT
    else if TimedOut(a, start, e.state) then STOP_TIMEOUT
    else STOP_NONE
  }

  function StopBefore(steps: Steps, a: Args, c: Core, k: nat): u32 {
    ReasonBefore(steps, a, c.state.cycleCount, After(steps, a, c, k), k)
  }

  function StopAfter(steps: Steps, a: Args, c: Core, k: nat): u32 {
    ReasonAfter(a, c.state.cycleCount, steps(c.taken + k), After(steps, a, c, k + 1))
  }

  ghost predicate RunsOn(steps: Steps, a: Args, c: Core, k: nat) {
    StopBefore(steps, a, c, k) == STOP_NONE && StopAfter(steps, a, c, k) == STOP_NONE
  }

  lemma {:induction false} AfterTaken(steps: Steps, a: Args, c: Core, k: nat)
    ensures After(steps, a, c, k).taken == c.taken + k
  {
    if k > 0 { AfterTaken(steps, a, c, k - 1); }
  }

  lemma EpochAdds(c: Core, cycles: u64, pcs: u64)
    ensures var d := Epoch(c, cycles, pcs);
            && d.taken == c.taken + 1 && d.fault == c.fault && d.totalEpochs == Add64(c.totalEpochs, 1)
            && d.state.cycleCount == Add64(c.state.cycleCount, cycles) && d.state.pc == Add64(c.state.pc, pcs)
  {
  }

  lemma AddWraps(base: u64, n: nat, d: u64)
    ensures Add64((base + n) % W64, d) == (base + (n + d)) % W64
  {
  }

  /** Every total of the core after `k` epochs. */
  lemma {:induction false} AfterTotals(steps: Steps, a: Args, c: Core, k: nat)
    ensures var d := After(steps, a, c, k);
            && d.taken == c.taken + k && d.fault == c.fault && d.totalEpochs == (c.totalEpochs + k) % W64
            && d.state.cycleCount == (c.state.cycleCount + SumCycles(steps, a, c.taken, k)) % W64
            && d.state.pc == (c.state.pc + SumPcs(steps, a, c.taken, k)) % W64
  {
    hide Epoch, Add64;
    if k > 0 {
      AfterTotals(steps, a, c, k - 1);
      EpochAdds(After(steps, a, c, k - 1), CyclesOf(steps, a, c.taken + k - 1), PcsOf(steps, a, c.taken + k - 1));
      AddWraps(c.totalEpochs, k - 1, 1);
      AddWraps(c.state.cycleCount, SumCycles(steps, a, c.taken, k - 1), CyclesOf(steps, a, c.taken + k - 1));
      AddWraps(c.state.pc, SumPcs(steps, a, c.taken, k - 1), PcsOf(steps, a, c.taken + k - 1));
    }
  }

  /** A run that ends with core `d` and `reason` after `executed` epochs was stopped at index `i` and not before the step. */
  ghost predicate StopsAt(steps: Steps, a: Args, c: Core, i: nat, d: Core, executed: nat, reason: u32) {
    if i >= a.epochLimit then i == a.epochLimit == executed && reason == STOP_NONE && d == After(steps, a, c, i)
    else if StopBefore(steps, a, c, i) != STOP_NONE then
      && executed == i && reason == StopBefore(steps, a, c, i)
      && var last := After(steps, a, c, i);
         d == if reason == STOP_FAULT then Fail(last, steps(last.taken).fault) else last
    else
      && executed == i + 1 && reason == StopAfter(steps, a, c, i) && reason != STOP_NONE
      && d == After(steps, a, c, i + 1)
  }

  /** One turn, in terms of the reasons around the step. */
  lemma TurnMeans(steps: Steps, a: Args, start: u64, d: Core, e: Core, k: nat)
    requires steps(d.taken).Stepped? ==> e == Epoch(d, CyclesOf(steps, a, d.taken), PcsOf(steps, a, d.taken))
    ensures var before := ReasonBefore(steps, a, start, d, k);
            var after := ReasonAfter(a, start, steps(d.taken), e);
            Iterate(steps, a, start, d, k) ==
            if before == STOP_FAULT then Halt(Fail(d, steps(d.taken).fault), k, before)
            else if before != STOP_NONE then Halt(d, k, before)
            else if after != STOP_NONE then Halt(e, k + 1, after)
            else GoOn(e)
  {
  }

  /** One iteration, at an index whose predecessors ran on. */
  lemma IterationStops(steps: Steps, a: Args, c: Core, k: nat)
    ensures var turn := Iterate(steps, a, c.state.cycleCount, After(steps, a, c, k), k);
            && (RunsOn(steps, a, c, k) ==> turn == GoOn(After(steps, a, c, k + 1)))
            && (!RunsOn(steps, a, c, k) && k < a.epochLimit ==>
                  turn.Halt? && StopsAt(steps, a, c, k, turn.core, turn.executed, turn.reason))
  {
    var d, e := After(steps, a, c, k), After(steps, a, c, k + 1);
    AfterTaken(steps, a, c, k);
    assert e == Epoch(d, CyclesOf(steps, a, c.taken + k), PcsOf(steps, a, c.taken + k));
    TurnMeans(steps, a, c.state.cycleCount, d, e, k);
  }

  lemma RunTakesTurn(steps: Steps, a: Args, start: u64, c: Core, k: nat)
    requires k < a.epochLimit
    ensures var turn := Iterate(steps, a, start, c, k);
            RunEpochs(steps, a, start, c, k) ==
            if turn.Halt? then (turn.core, turn.executed, turn.reason) else RunEpochs(steps, a, start, turn.next, k + 1)
  {
  }

  function EpochsFrom(steps: Steps, a: Args, c: Core, k: nat): (Core, nat, u32) {
    RunEpochs(steps, a, c.state.cycleCount, After(steps, a, c, k), k)
  }

  lemma {:induction false} EpochsReach(steps: Steps, a: Args, c: Core, k: nat)
    requires k <= a.epochLimit && forall j: nat | j < k :: RunsOn(steps, a, c, j)
    ensures EpochsFrom(steps, a, c, 0) == EpochsFrom(steps, a, c, k)
  {
    hide RunEpochs, Iterate, RunsOn;
    if k > 0 {
      EpochsReach(steps, a, c, k - 1);
      IterationStops(steps, a, c, k - 1);
      RunTakesTurn(steps, a, c.state.cycleCount, After(steps, a, c, k - 1), k - 1);
    }
  }

  lemma {:induction false} FirstStop(steps: Steps, a: Args, c: Core, k: nat) returns (i: nat)
    requires k <= a.epochLimit && forall j: nat | j < k :: RunsOn(steps, a, c, j)
    ensures k <= i <= a.epochLimit && forall j: nat | j < i :: RunsOn(steps, a, c, j)
    ensures i < a.epochLimit ==> !RunsOn(steps, a, c, i)
    decreases a.epochLimit - k
  {
    if k < a.epochLimit && RunsOn(steps, a, c, k) { i := FirstStop(steps, a, c, k + 1); } else { i := k; }
  }

  /** The loop, when nothing stopped its first epochs, finds the least index at which something does. */
  lemma EpochsStopFirst(steps: Steps, a: Args, c: Core) returns (i: nat)
    ensures i <= a.epochLimit && forall j: nat | j < i :: RunsOn(steps, a, c, j)
    ensures i < a.epochLimit ==> !RunsOn(steps, a, c, i)
    ensures var r := EpochsFrom(steps, a, c, 0); StopsAt(steps, a, c, i, r.0, r.1, r.2)
  {
    i := FirstStop(steps, a, c, 0);
    EpochsReach(steps, a, c, i);
    if i < a.epochLimit {
      IterationStops(steps, a, c, i);
      RunTakesTurn(steps, a, c.state.cycleCount, After(steps, a, c, i), i);
    }
  }

  /** The fault left by a failed step: its own, or one that says where the run stood when the step names none. */
  predicate NamesFault(c: Core, step: StepOutcome) {
    && step.Failed?
    && (step.fault.kind != FAULT_NONE ==> c.fault == step.fault)
    && (step.fault.kind == FAULT_NONE ==>
          && c.fault.kind == FAULT_COMMUNICATION && c.fault.stage == STAGE_RUNTIME && c.fault.code == c.fault.aux0 == 0
          && c.fault.value0 == c.state.cycleCount && c.fault.value1 == c.state.pc)
  }

  /**
   * `RunUntilEvent` stops at the first point where anything stops it, timeout before external stop before the step, and
   * after the step its own report before the breakpoint before the timeout; otherwise it runs exactly the limit.
   */
  lemma EarliestStop(steps: Steps, a: Args, c: Core) returns (i: nat)
    ensures i <= a.epochLimit && forall j: nat | j < i :: RunsOn(steps, a, c.(fault := NO_FAULT), j)
    ensures var c0 := c.(fault := NO_FAULT);
            var r := RunUntilEvent(steps, a, c);
            && (i == a.epochLimit ==> r.executed == i && r.stop == STOP_EPOCH_LIMIT)
            && (i < a.epochLimit && StopBefore(steps, a, c0, i) != STOP_NONE ==>
                  r.executed == i && r.stop == StopBefore(steps, a, c0, i))
            && (i < a.epochLimit && StopBefore(steps, a, c0, i) == STOP_NONE ==>
                  r.executed == i + 1 && r.stop == StopAfter(steps, a, c0, i) != STOP_NONE)
            && (if i < a.epochLimit && StopBefore(steps, a, c0, i) == STOP_FAULT then NamesFault(r.core, steps(c.taken + i))
                else r.core.fault == NO_FAULT)
  {
    var c0 := c.(fault := NO_FAULT);
    i := EpochsStopFirst(steps, a, c0);
    AfterTotals(steps, a, c0, i);
    AfterTotals(steps, a, c0, i + 1);
  }

  /** The accounting of a run: never beyond the limit, every total advanced by what was executed. */
  lemma RunAccounts(steps: Steps, a: Args, c: Core)
    ensures var r := RunUntilEvent(steps, a, c);
            && r.executed <= a.epochLimit
            && r.core.totalEpochs == r.core.state.totalEpochs == (c.totalEpochs + r.executed) % W64
            && r.core.state.cycleCount == (c.state.cycleCount + SumCycles(steps, a, c.taken, r.executed)) % W64
            && r.core.state.pc == (c.state.pc + SumPcs(steps, a, c.taken, r.executed)) % W64
            && r.core.state.lastStop == r.stop
  {
    var c0 := c.(fault := NO_FAULT);
    var i := EpochsStopFirst(steps, a, c0);
    AfterTotals(steps, a, c0, RunUntilEvent(steps, a, c).executed);
  }

  /** If no step reports EPOCH_LIMIT itself, that reason means that the limit was reached and nothing stopped the run. */
  lemma EpochLimitMeansLimit(steps: Steps, a: Args, c: Core)
    requires forall i: nat :: steps(i).Stepped? ==> steps(i).stop != STOP_EPOCH_LIMIT
    ensures RunUntilEvent(steps, a, c).stop == STOP_EPOCH_LIMIT
            <==> forall j: nat | j < a.epochLimit :: RunsOn(steps, a, c.(fault := NO_FAULT), j)
    ensures RunUntilEvent(steps, a, c).stop == STOP_EPOCH_LIMIT ==> RunUntilEvent(steps, a, c).executed == a.epochLimit
  {
    var i := EpochsStopFirst(steps, a, c.(fault := NO_FAULT));
  }

  // ---- RUN_CYCLES ----------------------------------------------------------------------------------------------------------

  /** The loop of `ExecuteRunCycles`, for at most `fuel` steps: the core, the reason, and whether the loop was left. */
  function RunCyclesFrom(steps: Steps, target: u64, start: u64, c: Core, fuel: nat): (Core, u32, bool)
    decreases fuel
  {
    if Sub64(c.state.cycleCount, start) >= target then (c, STOP_NONE, true)
    else if fuel == 0 then (c, STOP_NONE, false)
    else
      match steps(c.taken)
      case Failed(fault) => (Fail(c, fault), STOP_FAULT, true)
      case Stepped(cycles, pcs, stop) =>
        var d := Epoch(c, Or(cycles, 1), pcs);
        if stop != STOP_NONE then (d, stop, true) else RunCyclesFrom(steps, target, start, d, fuel - 1)
  }

  predicate CyclesEnd(steps: Steps, target: u64, c: Core, fuel: nat) {
    RunCyclesFrom(steps, target, c.state.cycleCount, c.(fault := NO_FAULT), fuel).2
  }

  /** The core at the end, the reason, and the cycles executed. */
  function RunCycles(steps: Steps, target: u64, c: Core, fuel: nat): (Core, u32, u64) {
    var (d, reason, _) := RunCyclesFrom(steps, target, c.state.cycleCount, c.(fault := NO_FAULT), fuel);
    var stop := if reason == STOP_NONE then STOP_RUN_CYCLES_DONE else reason;
    (Finish(d, stop), stop, Sub64(d.state.cycleCount, c.state.cycleCount))
  }

  lemma {:induction false} MoreFuelIsSame(steps: Steps, target: u64, start: u64, c: Core, fuel: nat, more: nat)
    requires RunCyclesFrom(steps, target, start, c, fuel).2 && fuel <= more
    ensures RunCyclesFrom(steps, target, start, c, more) == RunCyclesFrom(steps, target, start, c, fuel)
    decreases fuel
  {
    if Sub64(c.state.cycleCount, start) < target && steps(c.taken).Stepped? && steps(c.taken).stop == STOP_NONE {
      var d := Epoch(c, Or(steps(c.taken).cycles, 1), steps(c.taken).pcs);
      MoreFuelIsSame(steps, target, start, d, fuel - 1, more - 1);
    }
  }

  ghost predicate DeltasAtMost(steps: Steps, bound: u64) {
    forall i: nat :: steps(i).Stepped? ==> steps(i).cycles <= bound
  }

  lemma ElapsedAdds(cycle: u64, start: u64, delta: u64)
    ensures var e := Sub64(cycle, start);
            Sub64(Add64(cycle, delta), start) == if e + delta < W64 then e + delta else e + delta - W64
  {
  }

  /** With no wrap the elapsed count only grows, so at most one step per missing cycle is needed. */
  lemma {:induction false} CyclesTerminate(steps: Steps, target: u64, start: u64, c: Core, bound: u64, fuel: nat)
    requires DeltasAtMost(steps, bound) && 1 <= bound && target + bound <= W64
    requires Sub64(c.state.cycleCount, start) >= target || Sub64(c.state.cycleCount, start) + fuel >= target
    ensures RunCyclesFrom(steps, target, start, c, fuel).2
    ensures var (d, reason, _) := RunCyclesFrom(steps, target, start, c, fuel);
            && d.taken <= c.taken + fuel
            && (reason == STOP_NONE ==>
                  target <= Sub64(d.state.cycleCount, start)
                  && (Sub64(c.state.cycleCount, start) < target ==> Sub64(d.state.cycleCount, start) < target + bound))
    decreases fuel
  {
    if Sub64(c.state.cycleCount, start) < target && steps(c.taken).Stepped? && steps(c.taken).stop == STOP_NONE {
      var delta := Or(steps(c.taken).cycles, 1);
      var d := Epoch(c, delta, steps(c.taken).pcs);
      ElapsedAdds(c.state.cycleCount, start, delta);
      if fuel > 0 { CyclesTerminate(steps, target, start, d, bound, fuel - 1); }
    }
  }

  lemma {:induction false} DoneIsNotReported(steps: Steps, target: u64, start: u64, c: Core, fuel: nat)
    requires forall i: nat :: steps(i).Stepped? ==> steps(i).stop != STOP_RUN_CYCLES_DONE
    ensures RunCyclesFrom(steps, target, start, c, fuel).1 != STOP_RUN_CYCLES_DONE
    decreases fuel
  {
    if fuel > 0 && steps(c.taken).Stepped? {
      DoneIsNotReported(steps, target, start, Epoch(c, Or(steps(c.taken).cycles, 1), steps(c.taken).pcs), fuel - 1);
    }
  }

  /** RUN_CYCLES with bounded deltas ends within `target` steps, and without a reported stop overshoots by less than a step. */
  lemma RunCyclesIsBounded(steps: Steps, target: u64, c: Core, bound: u64)
    requires DeltasAtMost(steps, bound) && 1 <= bound && target + bound <= W64
    ensures CyclesEnd(steps, target, c, target)
    ensures var (d, stop, executed) := RunCycles(steps, target, c, target);
            && d.taken <= c.taken + target
            && (stop == STOP_RUN_CYCLES_DONE && (forall i: nat :: steps(i).Stepped? ==> steps(i).stop != STOP_RUN_CYCLES_DONE) ==>
                  target <= executed && executed < target + bound)
  {
    CyclesTerminate(steps, target, c.state.cycleCount, c.(fault := NO_FAULT), bound, target);
    if forall i: nat :: steps(i).Stepped? ==> steps(i).stop != STOP_RUN_CYCLES_DONE {
      DoneIsNotReported(steps, target, c.state.cycleCount, c.(fault := NO_FAULT), target);
    }
  }

  /** An answer sequence that creeps up to one below the target and then leaps over it, again and again. */
  function Leap(target: u64, bound: u64, i: nat): u64
    requires target > 0
  {
    if i == 0 then 0
    else
      var before := Leap(target, bound, i - 1);
      if before + 1 < target then before + 1 else if before + bound < W64 then before + bound else before + bound - W64
  }

  function Leaping(target: u64, bound: u64, base: nat): Steps
    requires target > 0
  {
    i => if i < base then Stepped(1, 0, STOP_NONE)
         else Stepped(if Leap(target, bound, i - base) + 1 < target then 1 else bound, 0, STOP_NONE)
  }

  lemma {:induction false} LeapStaysBelow(target: u64, bound: u64, i: nat)
    requires target > 0 && bound >= 1 && target + bound > W64
    ensures Leap(target, bound, i) < target
  {
    if i > 0 { LeapStaysBelow(target, bound, i - 1); }
  }

  lemma {:induction false} LeapingGoesOn(target: u64, bound: u64, start: u64, base: nat, c: Core, fuel: nat)
    requires target > 0 && bound >= 1 && target + bound > W64
    requires c.taken >= base && Sub64(c.state.cycleCount, start) == Leap(target, bound, c.taken - base)
    ensures !RunCyclesFrom(Leaping(target, bound, base), target, start, c, fuel).2
    decreases fuel
  {
    hide Epoch, Sub64, Add64;
    var k := c.taken - base;
    LeapStaysBelow(target, bound, k);
    LeapStaysBelow(target, bound, k + 1);
    if fuel > 0 {
      var delta: u64 := if Leap(target, bound, k) + 1 < target then 1 else bound;
      ElapsedAdds(c.state.cycleCount, start, delta);
      EpochAdds(c, delta, 0);
      LeapingGoesOn(target, bound, start, base, Epoch(c, delta, 0), fuel - 1);
    }
  }

  ghost predicate AlwaysEnds(target: u64, bound: u64, c: Core) {
    forall steps: Steps :: DeltasAtMost(steps, bound) ==> exists fuel: nat :: CyclesEnd(steps, target, c, fuel)
  }

  /** RUN_CYCLES ends for all step deltas up to `bound` exactly when target and bound together do not pass 2^64. */
  lemma RunCyclesEndsExactly(target: u64, bound: u64, c: Core)
    requires bound >= 1
    ensures AlwaysEnds(target, bound, c) <==> target == 0 || target + bound <= W64
  {
    if target == 0 || target + bound <= W64 {
      forall steps: Steps | DeltasAtMost(steps, bound)
        ensures exists fuel: nat :: CyclesEnd(steps, target, c, fuel)
      {
        if target == 0 {
          assert CyclesEnd(steps, target, c, 0);
        } else {
          RunCyclesIsBounded(steps, target, c, bound);
        }
      }
    } else {
      var steps := Leaping(target, bound, c.taken);
      assert DeltasAtMost(steps, bound);
      forall fuel: nat
        ensures !CyclesEnd(steps, target, c, fuel)
      {
        LeapingGoesOn(target, bound, c.state.cycleCount, c.taken, c.(fault := NO_FAULT), fuel);
      }
    }
  }
}
