/** The command dispatcher: what one command does to a session's core, and what it answers. */
module Dispatch {
  import opened MailboxAbi
  import opened MockCore
  import opened RunLoops
  import opened Prelude
  import Bindings

  /** What a dispatch hook returns; below zero it failed, zero means that it leaves the command to the mock. */
  datatype HookReply = HookReply(rc: int, core: Core, rsp: Response, ev: Event, haveEvent: bool)

  type Hook = (Core, Command) -> HookReply

  /**
   * What surrounds a session: the step callback, the hooks, the binding table, and how many steps to wait for a
   * RUN_CYCLES loop (any number that lets the loop end gives the same answer).
   */
  datatype Env = Env(steps: Steps, regHook: Option<Hook>, memHook: Option<Hook>, regs: seq<Bindings.Binding>, fuel: nat)

  datatype Reply = Reply(core: Core, rsp: Response, ev: Event)

  /** The kind of event for a stop reason: only no reason is no event, and only a fault is a fault. */
  function ClassifyStop(stop: u32): (kind: u32)
    ensures (kind == EVENT_NONE <==> stop == STOP_NONE) && (kind == EVENT_FAULT <==> stop == STOP_FAULT)
    ensures kind <= EVENT_FAULT
  {
    if stop == STOP_BREAKPOINT_HIT then EVENT_BREAKPOINT
    else if stop == STOP_WATCHPOINT_HIT then EVENT_WATCHPOINT
    else if stop == STOP_FAULT then EVENT_FAULT
    else if stop == STOP_NONE then EVENT_NONE
    else EVENT_STOP
  }

  function FaultEvent(f: Fault): Event {
    NO_EVENT.(eventType := EVENT_FAULT, stopReason := STOP_FAULT, arg0 := f.kind, arg1 := f.stage,
              reserved0 := f.code, reserved1 := f.aux0, reserved2 := Lo(f.value0), reserved3 := Hi(f.value0))
  }

  /** `ExecuteRunCycles` after its loop has ended. */
  function ExecuteRunCycles(env: Env, c: Core, cmd: Command): Reply {
    var (d, stop, executed) := RunCycles(env.steps, Argument(cmd), c, env.fuel);
    if stop == STOP_FAULT then Reply(d, WithValue(MakeResponse(cmd, STATUS_FAULT), executed), FaultEvent(d.fault))
    else Reply(d, WithValue(MakeResponse(cmd, STATUS_OK), executed), MakeStopEvent(d.state, ClassifyStop(stop), stop))
  }

  function PcBound(regs: seq<Bindings.Binding>): bool {
    Bindings.FindFrom(regs, Bindings.Key(ADDR_REG_DEBUG, DEBUG_REG_PC), 0) < |regs|
  }

  function ArgsOf(env: Env, cmd: Command): Args {
    var pcDelta := FromWords(cmd.reserved2, cmd.reserved3);
    Args(cmd.arg0, FromWords(cmd.addrLo, cmd.addrHi), FromWords(cmd.reserved0, cmd.reserved1),
         if cmd.arg1 != 0 then cmd.arg1 else 1,
         if pcDelta != 0 then pcDelta else if PcBound(env.regs) then 0 else 4)
  }

  function ExecuteRunUntilEvent(env: Env, c: Core, cmd: Command): Reply {
    var r := RunUntilEvent(env.steps, ArgsOf(env, cmd), c);
    RunAccounts(env.steps, ArgsOf(env, cmd), c);
    var executed: u64 := r.executed;
    if r.stop == STOP_FAULT then
      Reply(r.core, WithValue(MakeResponse(cmd, STATUS_FAULT), executed), FaultEvent(r.core.fault))
    else
      Reply(r.core,
            WithValue(MakeResponse(cmd, if r.stop == STOP_TIMEOUT then STATUS_TIMEOUT else STATUS_OK), executed),
            MakeStopEvent(r.core.state, ClassifyStop(r.stop), r.stop))
  }

  /** The event written when a command has none. */
  function NoEvent(c: Core): Event { MakeStopEvent(c.state, EVENT_NONE, STOP_NONE) }

  function Immediate(c: Core, cmd: Command): Reply {
    var x := Execute(cmd, c.state);
    var d := c.(state := x.state);
    Reply(d, x.rsp, if x.haveEvent then x.ev else NoEvent(d))
  }

  /**
   * A hooked command. A failing hook makes the dispatcher return -1 from a function declared `bool`: the caller sees
   * success, with the reply it had zeroed.
   */
  function Hooked(hook: Hook, c: Core, cmd: Command): Reply {
    var h := hook(c, cmd);
    if h.rc < 0 then Reply(h.core, NO_RESPONSE, NO_EVENT)
    else if h.rc == 0 then Immediate(h.core, cmd)
    else Reply(h.core, h.rsp, if h.haveEvent then h.ev else NoEvent(h.core))
  }

  /** A reply that carries an event only if its type says so. */
  function Settled(r: Reply): Reply {
    if r.ev.eventType != EVENT_NONE then r else r.(ev := NoEvent(r.core))
  }

  function ExecuteCommand(env: Env, c: Core, cmd: Command): Reply {
    if cmd.opcode == OP_NOP then Reply(c, MakeResponse(cmd, STATUS_OK), NoEvent(c))
    else if cmd.opcode == OP_RUN_CYCLES then Settled(ExecuteRunCycles(env, c, cmd))
    else if cmd.opcode == OP_RUN_UNTIL_EVENT then Settled(ExecuteRunUntilEvent(env, c, cmd))
    else if cmd.opcode == OP_GET_STOP_REASON then
      Reply(c, MakeResponse(cmd, STATUS_OK).(arg0 := c.state.lastStop, arg1 := Lo(c.state.cycleCount),
                                             sizeBytes := Hi(c.state.cycleCount)), NoEvent(c))
    else if (cmd.opcode == OP_READ_REG || cmd.opcode == OP_WRITE_REG) && env.regHook.Some? then
      Hooked(env.regHook.value, c, cmd)
    else if (cmd.opcode == OP_READ_MEM || cmd.opcode == OP_WRITE_MEM) && env.memHook.Some? then
      Hooked(env.memHook.value, c, cmd)
    else Immediate(c, cmd)
  }

  /** The loop of a RUN_CYCLES command ends; every other command always does. */
  predicate Ends(env: Env, c: Core, cmd: Command) {
    cmd.opcode == OP_RUN_CYCLES ==> CyclesEnd(env.steps, Argument(cmd), c, env.fuel)
  }

  // ---- request ids -----------------------------------------------------------------------------------------------------------

  /** The hook that serves a command, if any. */
  function HookFor(env: Env, cmd: Command): Option<Hook> {
    if cmd.opcode == OP_READ_REG || cmd.opcode == OP_WRITE_REG then env.regHook
    else if cmd.opcode == OP_READ_MEM || cmd.opcode == OP_WRITE_MEM then env.memHook
    else None
  }

  /** The response carries the request's id, unless a hook fails on a nonzero id or answers with another id. */
  lemma RequestIdIsEchoed(env: Env, c: Core, cmd: Command)
    ensures ExecuteCommand(env, c, cmd).rsp.requestId == cmd.requestId <==>
            match HookFor(env, cmd)
            case None => true
            case Some(hook) =>
              var h := hook(c, cmd);
              if h.rc < 0 then cmd.requestId == 0 else h.rc > 0 ==> h.rsp.requestId == cmd.requestId
  {
  }

  // ---- what run commands report -------------------------------------------------------------------------------------------------

  /** The response of a run carries the executed count, and its event the reason and the place where the run stopped. */
  predicate Reports(r: Reply, cmd: Command, executed: u64, stop: u32, status: u32) {
    && r.rsp.requestId == cmd.requestId && r.rsp.status == status && r.rsp.sizeBytes == 8
    && FromWords(r.rsp.arg0, r.rsp.arg1) == executed
    && r.ev.stopReason == stop == r.core.state.lastStop
    && (r.ev.eventType == EVENT_BREAKPOINT <==> stop == STOP_BREAKPOINT_HIT)
    && (r.ev.eventType == EVENT_WATCHPOINT <==> stop == STOP_WATCHPOINT_HIT)
    && (r.ev.eventType == EVENT_FAULT <==> stop == STOP_FAULT)
    && (r.ev.eventType == EVENT_STOP <==> stop !in {STOP_BREAKPOINT_HIT, STOP_WATCHPOINT_HIT, STOP_FAULT})
    && (stop != STOP_FAULT ==> FromWords(r.ev.cycleLo, r.ev.cycleHi) == r.core.state.cycleCount
                               && FromWords(r.ev.pcLo, r.ev.pcHi) == r.core.state.pc)
    && (stop == STOP_FAULT ==>
          && r.ev.arg0 == r.core.fault.kind && r.ev.arg1 == r.core.fault.stage
          && r.ev.reserved0 == r.core.fault.code && r.ev.reserved1 == r.core.fault.aux0
          && FromWords(r.ev.reserved2, r.ev.reserved3) == r.core.fault.value0)
  }

  /** RUN_CYCLES reports the cycles it executed, split into two words. */
  lemma RunCyclesReports(env: Env, c: Core, cmd: Command)
    requires cmd.opcode == OP_RUN_CYCLES
    ensures var (d, stop, executed) := RunCycles(env.steps, Argument(cmd), c, env.fuel);
            var r := ExecuteCommand(env, c, cmd);
            && r.core == d && Reports(r, cmd, executed, stop, if stop == STOP_FAULT then STATUS_FAULT else STATUS_OK)
            && executed == Sub64(d.state.cycleCount, c.state.cycleCount)
  {
    hide RunCyclesFrom, FromWords, Lo, Hi;
    var (d, stop, executed) := RunCycles(env.steps, Argument(cmd), c, env.fuel);
    WordsRoundTrip(executed, 0, 0);
    WordsRoundTrip(d.fault.value0, 0, 0);
    WordsRoundTrip(d.state.cycleCount, 0, 0);
    WordsRoundTrip(d.state.pc, 0, 0);
  }

  /** RUN_UNTIL_EVENT reports the epochs it executed; a timeout is a status of its own. */
  lemma RunUntilEventReports(env: Env, c: Core, cmd: Command)
    requires cmd.opcode == OP_RUN_UNTIL_EVENT
    ensures var run := RunUntilEvent(env.steps, ArgsOf(env, cmd), c);
            var r := ExecuteCommand(env, c, cmd);
            && r.core == run.core && run.executed < W64
            && Reports(r, cmd, run.executed, run.stop,
                       if run.stop == STOP_FAULT then STATUS_FAULT
                       else if run.stop == STOP_TIMEOUT then STATUS_TIMEOUT else STATUS_OK)
  {
    hide RunEpochs, FromWords, Lo, Hi, Refresh, ArgsOf;
    var run := RunUntilEvent(env.steps, ArgsOf(env, cmd), c);
    RunAccounts(env.steps, ArgsOf(env, cmd), c);
    WordsRoundTrip(run.executed, 0, 0);
    WordsRoundTrip(run.core.fault.value0, 0, 0);
    WordsRoundTrip(run.core.state.cycleCount, 0, 0);
    WordsRoundTrip(run.core.state.pc, 0, 0);
  }

  /** A command without an event, and not served by a hook, answers an empty one that shows where the core stands. */
  lemma QuietReplies(env: Env, c: Core, cmd: Command)
    requires HookFor(env, cmd).None? && ExecuteCommand(env, c, cmd).ev.eventType == EVENT_NONE
    ensures var r := ExecuteCommand(env, c, cmd);
            && r.ev.stopReason == STOP_NONE && FromWords(r.ev.cycleLo, r.ev.cycleHi) == r.core.state.cycleCount
            && FromWords(r.ev.pcLo, r.ev.pcHi) == r.core.state.pc
  {
    hide FromWords, Lo, Hi, RunCyclesFrom, RunEpochs, Reports, Refresh;
    var r := ExecuteCommand(env, c, cmd);
    WordsRoundTrip(r.core.state.cycleCount, 0, 0);
    WordsRoundTrip(r.core.state.pc, 0, 0);
  }
}
