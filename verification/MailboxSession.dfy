/** The mailbox session object: rings, dispatcher, run loops and the two main loops, updated in place. */
module MailboxSession {
  import opened MailboxAbi
  import opened MockCore
  import opened RunLoops
  import opened Dispatch
  import opened MailboxLoop
  import opened Prelude
  import opened Ring

  const QUEUE_CAPACITY: u32 := 32

  class Session {
    var state: MockState
    var lastFault: Fault
    var totalEpochs: u64
    var taken: nat            // calls of the step callback so far
    var dispatchBusy: bool
    const commands: RingBuffer<Command>
    const responses: RingBuffer<Response>
    const events: RingBuffer<Event>

    ghost predicate Valid()
      reads this, commands, commands.entries, responses, responses.entries, events, events.entries
    {
      commands.Valid() && responses.Valid() && events.Valid()
    }

    function CoreOf(): Core
      reads this
    {
      Core(state, lastFault, totalEpochs, taken)
    }

    ghost function Contents(): View
      requires Valid()
      reads this, commands, commands.entries, responses, responses.entries, events, events.entries
    {
      View(CoreOf(), commands.Contents(), responses.Contents(), events.Contents())
    }

    ghost function RoomOf(): Room
      requires Valid()
      reads this, commands, commands.entries, responses, responses.entries, events, events.entries
    {
      Room(responses.capacity - 1, events.capacity - 1)
    }

    /** `SessionInit` */
    constructor (initial: MockState, zeroCommand: Command)
      ensures Valid() && !dispatchBusy && CoreOf() == Core(Refresh(initial), NO_FAULT, 0, 0)
      ensures Contents() == View(CoreOf(), [], [], []) && RoomOf() == Room(31, 31)
      ensures commands.capacity == QUEUE_CAPACITY
      ensures fresh(commands) && fresh(responses) && fresh(events)
      ensures fresh(commands.entries) && fresh(responses.entries) && fresh(events.entries)
    {
      state := Refresh(initial);
      lastFault := NO_FAULT;
      totalEpochs := 0;
      taken := 0;
      dispatchBusy := false;
      var c := new RingBuffer<Command>(COMMAND_WORDS, QUEUE_CAPACITY, zeroCommand);
      var r := new RingBuffer<Response>(RESPONSE_WORDS, QUEUE_CAPACITY, NO_RESPONSE);
      var e := new RingBuffer<Event>(EVENT_WORDS, QUEUE_CAPACITY, NO_EVENT);
      commands, responses, events := c, r, e;
    }

    /** `SessionPushCommand`: refused while a command is being executed, and when the ring is full. */
    method PushCommand(cmd: Command) returns (ok: bool)
      requires Valid()
      modifies commands, commands.entries
      ensures Valid() && commands.capacity == old(commands.capacity)
      ensures ok == (!dispatchBusy && |old(commands.Contents())| < commands.capacity - 1)
      ensures Contents() == old(Contents()).(cmds := if ok then old(commands.Contents()) + [cmd] else old(commands.Contents()))
      ensures dispatchBusy ==> commands.Value() == old(commands.Value())
    {
      if dispatchBusy { return false; }
      ok := commands.PushEntry(cmd);
    }

    method SetFault(fault: Fault)
      modifies this
      ensures CoreOf() == RunLoops.SetFault(old(CoreOf()), fault) && dispatchBusy == old(dispatchBusy)
    {
      lastFault := fault;
      state := Refresh(state.(lastStop := STOP_FAULT));
    }

    /** What both run loops do with a successful step. */
    method AdvanceEpoch(cycles: u64, pcs: u64)
      modifies this
      ensures CoreOf() == Epoch(old(CoreOf()), cycles, pcs) && dispatchBusy == old(dispatchBusy)
    {
      state := state.(cycleCount := Add64(state.cycleCount, cycles), pc := Add64(state.pc, pcs));
      totalEpochs := Add64(totalEpochs, 1);
      taken := taken + 1;
      state := Refresh(state.(totalEpochs := totalEpochs));
    }

    /** What both run loops do with a failed step. */
    method FailStep(fault: Fault)
      modifies this
      ensures CoreOf() == Fail(old(CoreOf()), fault) && dispatchBusy == old(dispatchBusy)
    {
      taken := taken + 1;
      var f := fault;
      if f.kind == FAULT_NONE {
        f := CommunicationFault(STAGE_RUNTIME, 0, 0, state.cycleCount, state.pc);
      }
      SetFault(f);
    }

    method FinishRun(stop: u32)
      modifies this
      ensures CoreOf() == Finish(old(CoreOf()), stop) && dispatchBusy == old(dispatchBusy)
    {
      state := Refresh(state.(lastStop := stop, totalEpochs := totalEpochs));
    }

    /** `hybridDebugMailboxRunUntilEvent` */
    method RunUntilEvent(steps: Steps, a: Args) returns (executed: u64)
      modifies this
      ensures var r := RunLoops.RunUntilEvent(steps, a, old(CoreOf()));
              CoreOf() == r.core && executed == r.executed
      ensures dispatchBusy == old(dispatchBusy)
    {
      lastFault := NO_FAULT;
      executed := 0;
      ghost var first := CoreOf();
      var start := state.cycleCount;
      var stopReason := STOP_NONE;
      var epoch: nat := 0;
      while epoch < a.epochLimit
        invariant epoch == executed <= a.epochLimit && stopReason == STOP_NONE
        invariant dispatchBusy == old(dispatchBusy)
        invariant RunEpochs(steps, a, start, CoreOf(), epoch) == RunEpochs(steps, a, start, first, 0)
      {
        RunTakesTurn(steps, a, start, CoreOf(), epoch);
        if TimedOut(a, start, state) {
          stopReason := STOP_TIMEOUT;
          break;
        }
        if a.externalStopAt != NEVER && executed >= a.externalStopAt {
          stopReason := STOP_EXTERNAL_STOP;
          break;
        }
        var step := steps(taken);
        if step.Failed? {
          FailStep(step.fault);
          stopReason := STOP_FAULT;
          break;
        }
        AdvanceEpoch(Or(step.cycles, a.cycleDelta), Or(step.pcs, a.pcDelta));
        executed := executed + 1;
        if step.stop != STOP_NONE {
          stopReason := step.stop;
          break;
        }
        if AtBreakpoint(state) {
          stopReason := STOP_BREAKPOINT_HIT;
          break;
        }
        if TimedOut(a, start, state) {
          stopReason := STOP_TIMEOUT;
          break;
        }
        epoch := epoch + 1;
      }
      if stopReason == STOP_NONE {
        stopReason := STOP_EPOCH_LIMIT;
      }
      FinishRun(stopReason);
    }

    /** `hybridDebugMailboxRuntimeExecuteRunCycles`, for a loop that ends within `env.fuel` steps. */
    method ExecuteRunCycles(env: Env, cmd: Command) returns (rsp: Response, ev: Event)
      requires CyclesEnd(env.steps, Argument(cmd), CoreOf(), env.fuel)
      modifies this
      ensures var r := Dispatch.ExecuteRunCycles(env, old(CoreOf()), cmd);
              CoreOf() == r.core && rsp == r.rsp && ev == r.ev
      ensures dispatchBusy == old(dispatchBusy)
    {
      lastFault := NO_FAULT;
      ghost var first := CoreOf();
      var target := Argument(cmd);
      var start := state.cycleCount;
      var stopReason := STOP_NONE;
      ghost var fuel := env.fuel;
      ghost var goal := RunCyclesFrom(env.steps, target, start, first, env.fuel);
      while Sub64(state.cycleCount, start) < target
        invariant stopReason == STOP_NONE && dispatchBusy == old(dispatchBusy)
        invariant RunCyclesFrom(env.steps, target, start, CoreOf(), fuel) == goal
        decreases fuel
      {
        var step := env.steps(taken);
        if step.Failed? {
          FailStep(step.fault);
          stopReason := STOP_FAULT;
          break;
        }
        AdvanceEpoch(Or(step.cycles, 1), step.pcs);
        if step.stop != STOP_NONE {
          stopReason := step.stop;
          break;
        }
        fuel := fuel - 1;
      }
      if stopReason == STOP_NONE {
        stopReason := STOP_RUN_CYCLES_DONE;
      }
      FinishRun(stopReason);
      var executed := Sub64(state.cycleCount, start);
      if stopReason == STOP_FAULT {
        rsp, ev := WithValue(MakeResponse(cmd, STATUS_FAULT), executed), FaultEvent(lastFault);
      } else {
        rsp := WithValue(MakeResponse(cmd, STATUS_OK), executed);
        ev := MakeStopEvent(state, ClassifyStop(stopReason), stopReason);
      }
    }

    /** `hybridDebugMailboxRuntimeExecuteRunUntilEvent` */
    method ExecuteRunUntilEvent(env: Env, cmd: Command) returns (rsp: Response, ev: Event)
      modifies this
      ensures var r := Dispatch.ExecuteRunUntilEvent(env, old(CoreOf()), cmd);
              CoreOf() == r.core && rsp == r.rsp && ev == r.ev
      ensures dispatchBusy == old(dispatchBusy)
    {
      RunAccounts(env.steps, ArgsOf(env, cmd), CoreOf());
      var executed := RunUntilEvent(env.steps, ArgsOf(env, cmd));
      var stop := state.lastStop;
      if stop == STOP_FAULT {
        rsp, ev := WithValue(MakeResponse(cmd, STATUS_FAULT), executed), FaultEvent(lastFault);
      } else {
        rsp := WithValue(MakeResponse(cmd, if stop == STOP_TIMEOUT then STATUS_TIMEOUT else STATUS_OK), executed);
        ev := MakeStopEvent(state, ClassifyStop(stop), stop);
      }
    }

    method SetCore(c: Core)
      modifies this
      ensures CoreOf() == c && dispatchBusy == old(dispatchBusy)
    {
      state, lastFault, totalEpochs, taken := c.state, c.fault, c.totalEpochs, c.taken;
    }

    /**
     * `hybridDebugMailboxRuntimeExecuteCommand`: with its pointers given it always reports success. A failing hook makes
     * it return -1, which is true as a `bool`.
     */
    method ExecuteCommand(env: Env, cmd: Command) returns (ok: bool, rsp: Response, ev: Event)
      requires Ends(env, CoreOf(), cmd)
      modifies this
      ensures ok
      ensures var r := Dispatch.ExecuteCommand(env, old(CoreOf()), cmd);
              CoreOf() == r.core && rsp == r.rsp && ev == r.ev
      ensures !dispatchBusy
    {
      dispatchBusy := true;
      var rc := 1;
      if cmd.opcode == OP_NOP {
        rsp, ev := MakeResponse(cmd, STATUS_OK), NoEvent(CoreOf());
      } else if cmd.opcode == OP_RUN_CYCLES {
        rsp, ev := ExecuteRunCycles(env, cmd);
        if ev.eventType == EVENT_NONE { ev := NoEvent(CoreOf()); }
      } else if cmd.opcode == OP_RUN_UNTIL_EVENT {
        rsp, ev := ExecuteRunUntilEvent(env, cmd);
        if ev.eventType == EVENT_NONE { ev := NoEvent(CoreOf()); }
      } else if cmd.opcode == OP_GET_STOP_REASON {
        rsp := MakeResponse(cmd, STATUS_OK);
        rsp := rsp.(arg0 := state.lastStop, arg1 := Lo(state.cycleCount), sizeBytes := Hi(state.cycleCount));
        ev := NoEvent(CoreOf());
      } else if (cmd.opcode == OP_READ_REG || cmd.opcode == OP_WRITE_REG) && env.regHook.Some? {
        rc, rsp, ev := RunHook(env.regHook.value, cmd);
      } else if (cmd.opcode == OP_READ_MEM || cmd.opcode == OP_WRITE_MEM) && env.memHook.Some? {
        rc, rsp, ev := RunHook(env.memHook.value, cmd);
      } else {
        rsp, ev := RunImmediate(cmd);
      }
      dispatchBusy := false;
      ok := rc != 0;
    }

    method RunImmediate(cmd: Command) returns (rsp: Response, ev: Event)
      modifies this
      ensures var r := Immediate(old(CoreOf()), cmd); CoreOf() == r.core && rsp == r.rsp && ev == r.ev
      ensures dispatchBusy == old(dispatchBusy)
    {
      var x := Execute(cmd, state);
      state := x.state;
      rsp := x.rsp;
      ev := if x.haveEvent then x.ev else NoEvent(CoreOf());
    }

    /** A hooked command returns -1 when its hook fails, and true otherwise. */
    method RunHook(hook: Hook, cmd: Command) returns (rc: int, rsp: Response, ev: Event)
      modifies this
      ensures rc == if hook(old(CoreOf()), cmd).rc < 0 then -1 else 1
      ensures var r := Hooked(hook, old(CoreOf()), cmd); CoreOf() == r.core && rsp == r.rsp && ev == r.ev
      ensures dispatchBusy == old(dispatchBusy)
    {
      var h := hook(CoreOf(), cmd);
      SetCore(h.core);
      rc := if h.rc < 0 then -1 else 1;
      if h.rc < 0 {
        rsp, ev := NO_RESPONSE, NO_EVENT;
      } else if h.rc == 0 {
        rsp, ev := RunImmediate(cmd);
      } else {
        rsp := h.rsp;
        ev := if h.haveEvent then h.ev else NoEvent(CoreOf());
      }
    }

    /** Test the output rings for room. */
    method FindFullRing() returns (code: u32)
      requires Valid()
      ensures code == FullRing(RoomOf(), Contents())
    {
      var full := responses.Full();
      if full { return CODE_RESPONSES_FULL; }
      full := events.Full();
      if full { return CODE_EVENTS_FULL; }
      return 0;
    }

    /** Record a full ring as a communication fault. */
    method RecordFull(code: u32)
      requires Valid()
      modifies this
      ensures Valid() && dispatchBusy == old(dispatchBusy)
      ensures var v := old(Contents());
              CoreOf() == RunLoops.SetFault(v.core, CommunicationFault(STAGE_D2H, code, RingCount(v, code), |v.cmds|, 0))
    {
      var count;
      if code == CODE_RESPONSES_FULL { count := responses.Count(); } else { count := events.Count(); }
      var waiting := commands.Count();
      SetFault(CommunicationFault(STAGE_D2H, code, count, waiting, 0));
    }

    ghost predicate SameOverflow(c: u32, r: u32, e: u32)
      reads this, commands, responses, events
    {
      commands.overflow == c && responses.overflow == r && events.overflow == e
    }

    /** Publish a reply: with room tested before, neither push can fail, so fault codes 4 and 5 are never set. */
    method Publish(rsp: Response, ev: Event)
      requires Valid() && |responses.Contents()| < RoomOf().rsps && |events.Contents()| < RoomOf().evs
      modifies responses, responses.entries, events, events.entries
      ensures Valid() && RoomOf() == old(RoomOf())
      ensures SameOverflow(old(commands.overflow), old(responses.overflow), old(events.overflow))
      ensures commands.Contents() == old(commands.Contents())
      ensures responses.Contents() == old(responses.Contents()) + [rsp]
      ensures events.Contents() == if ev.eventType != EVENT_NONE then old(events.Contents()) + [ev] else old(events.Contents())
    {
      if ev.eventType != EVENT_NONE {
        var pushed := events.PushEntry(ev);
        if !pushed { assert false; }
      }
      var answered := responses.PushEntry(rsp);
      if !answered { assert false; }
    }

    /** Take one command, execute it, and publish its reply. */
    method ServeOne(env: Env) returns (took: bool, ev: Event)
      requires Valid() && AllEnd(env, CoreOf(), commands.Contents())
      requires |responses.Contents()| < RoomOf().rsps && |events.Contents()| < RoomOf().evs
      modifies this, commands, responses, responses.entries, events, events.entries
      ensures Valid() && RoomOf() == old(RoomOf())
      ensures SameOverflow(old(commands.overflow), old(responses.overflow), old(events.overflow))
      ensures took == (old(commands.Contents()) != [])
      ensures !took ==> Contents() == old(Contents()) && dispatchBusy == old(dispatchBusy)
      ensures var v := old(Contents());
              took ==> !dispatchBusy && ev == Dispatch.ExecuteCommand(env, v.core, v.cmds[0]).ev
                       && Contents() == WithReply(v, Dispatch.ExecuteCommand(env, v.core, v.cmds[0]))
    {
      ev := NO_EVENT;
      var cmd := commands.PopEntry();
      if cmd.None? { return false, ev; }
      assert old(commands.Contents())[0] == cmd.value && old(commands.Contents())[1..] == commands.Contents();
      var ok, rsp;
      ok, rsp, ev := ExecuteCommand(env, cmd.value);
      if !ok { assert false; }
      Publish(rsp, ev);
      return true, ev;
    }

    /** Hand over the oldest queued event. */
    method PopStopEvent() returns (stop: Event)
      requires Valid() && events.Contents() != []
      modifies events
      ensures Valid() && RoomOf() == old(RoomOf()) && events.overflow == old(events.overflow)
      ensures Contents() == old(Contents()).(evs := old(events.Contents())[1..]) && stop == old(events.Contents())[0]
    {
      var popped := events.PopEntry();
      stop := if popped.Some? then popped.value else NO_EVENT;
    }

    /** Leave a full ring alone, with or without a fault. */
    method Refuse(fl: Flags, code: u32)
      requires Valid()
      modifies this
      ensures Valid() && dispatchBusy == old(dispatchBusy)
      ensures Contents() == Backpressure(old(Contents()), fl, code, RingCount(old(Contents()), code))
      ensures RoomOf() == old(RoomOf())
    {
      if fl.faultOnBackpressure { RecordFull(code); }
    }

    /** The body of the main loop: whether it goes on, and whether it has served a command. */
    method TakeTurn(env: Env, fl: Flags, ghost limit: nat, ghost processed: nat)
      returns (go: bool, took: bool, stop: Event)
      requires Valid() && AllEnd(env, CoreOf(), commands.Contents()) && processed < limit
      modifies this, commands, responses, responses.entries, events, events.entries
      ensures Valid() && RoomOf() == old(RoomOf())
      ensures SameOverflow(old(commands.overflow), old(responses.overflow), old(events.overflow))
      ensures dispatchBusy == (old(dispatchBusy) && !took) && (go ==> took)
      ensures go ==> stop == NO_EVENT && AllEnd(env, CoreOf(), commands.Contents())
      ensures LoopFrom(env, RoomOf(), fl, limit, old(Contents()), processed) ==
              if go then LoopFrom(env, RoomOf(), fl, limit, Contents(), processed + 1)
              else Outcome(Contents(), if took then processed + 1 else processed, stop)
    {
      hide LoopFrom, AllEnd, Dispatch.ExecuteCommand, Backpressure, RingCount;
      ghost var v := Contents();
      LoopTurn(env, RoomOf(), fl, limit, v, processed);
      if v.cmds != [] { AllEndNext(env, v); }
      stop := NO_EVENT;
      var full := FindFullRing();
      if full != 0 {
        Refuse(fl, full);
        return false, false, stop;
      }
      var ev;
      took, ev := ServeOne(env);
      if !took { return false, false, stop; }
      go := !(fl.stopOnEvent && ev.eventType != EVENT_NONE);
      if !go && fl.consume && fl.hasStop { stop := PopStopEvent(); }
    }

    /**
     * `hybridDebugMailboxRuntimeMainLoop`. The output rings are tested before a command is taken, so no push can fail
     * and no overflow is counted; with its pointers given a command never fails to execute either.
     */
    method MainLoop(env: Env, maxCommands: u32, fl: Flags) returns (processed: u32, stop: Event)
      requires Valid() && AllEnd(env, CoreOf(), commands.Contents())
      modifies this, commands, responses, responses.entries, events, events.entries
      ensures Valid() && RoomOf() == old(RoomOf())
      ensures Outcome(Contents(), processed, stop)
              == MailboxLoop.MainLoop(env, RoomOf(), fl, maxCommands, old(Contents()))
      ensures SameOverflow(old(commands.overflow), old(responses.overflow), old(events.overflow))
      ensures dispatchBusy == (old(dispatchBusy) && processed == 0)
    {
      hide LoopFrom, AllEnd, FaultEvent;
      var limit := LimitOf(maxCommands);
      ghost var goal := LoopFrom(env, RoomOf(), fl, limit, Contents(), 0);
      stop := NO_EVENT;
      processed := 0;
      while processed < limit
        invariant Valid() && RoomOf() == old(RoomOf()) && stop == NO_EVENT && processed <= limit
        invariant LoopFrom(env, RoomOf(), fl, limit, Contents(), processed) == goal
        invariant AllEnd(env, CoreOf(), commands.Contents())
        invariant SameOverflow(old(commands.overflow), old(responses.overflow), old(events.overflow))
        invariant dispatchBusy == (old(dispatchBusy) && processed == 0)
        decreases limit - processed
      {
        var go, took, handed := TakeTurn(env, fl, limit, processed);
        if took { processed := processed + 1; }
        if !go {
          stop := handed;
          break;
        }
      }
      if processed >= limit { LoopIsDone(env, RoomOf(), fl, limit, Contents(), processed); }
      if lastFault.kind != FAULT_NONE && fl.hasStop && stop.eventType == EVENT_NONE {
        stop := FaultEvent(lastFault);
      }
    }

    /** The body of the outer loop: one inner loop, and whether to go on after it. */
    method OuterTurn(env: Env, limit: u32, total: u32) returns (go: bool, sum: u32, stop: Event)
      requires Valid() && AllEnd(env, CoreOf(), commands.Contents()) && total < limit
      modifies this, commands, responses, responses.entries, events, events.entries
      ensures Valid() && RoomOf() == old(RoomOf())
      ensures SameOverflow(old(commands.overflow), old(responses.overflow), old(events.overflow))
      ensures go ==> stop == NO_EVENT && total < sum <= limit && AllEnd(env, CoreOf(), commands.Contents())
      ensures RunLoopFrom(env, RoomOf(), limit, old(Contents()), total) ==
              if go then RunLoopFrom(env, RoomOf(), limit, Contents(), sum) else Outcome(Contents(), sum, stop)
    {
      hide RunLoopFrom, MailboxLoop.MainLoop, AllEnd, FaultEvent;
      ghost var v := Contents();
      RestEnds(env, RoomOf(), limit - total, v);
      var processed, loopEvent := MainLoop(env, limit - total, EVENT_LOOP);
      RunLoopTurn(env, RoomOf(), limit, v, total, Outcome(Contents(), processed, loopEvent));
      go, sum, stop := false, total + processed, NO_EVENT;
      if loopEvent.eventType != EVENT_NONE {
        stop := loopEvent;
        return;
      }
      if lastFault.kind != FAULT_NONE {
        stop := FaultEvent(lastFault);
        return;
      }
      if processed == 0 { return; }
      var pending := commands.Count();
      go := pending != 0;
    }

    /** `hybridDebugMailboxRuntimeRunLoop` */
    method RunLoop(env: Env, maxCommands: u32) returns (total: u32, stop: Event)
      requires Valid() && AllEnd(env, CoreOf(), commands.Contents())
      modifies this, commands, responses, responses.entries, events, events.entries
      ensures Valid() && RoomOf() == old(RoomOf())
      ensures Outcome(Contents(), total, stop) == MailboxLoop.RunLoop(env, RoomOf(), maxCommands, old(Contents()))
      ensures SameOverflow(old(commands.overflow), old(responses.overflow), old(events.overflow))
    {
      hide RunLoopFrom, AllEnd;
      var limit := LimitOf(maxCommands);
      ghost var goal := RunLoopFrom(env, RoomOf(), limit, Contents(), 0);
      stop := NO_EVENT;
      total := 0;
      while total < limit
        invariant Valid() && RoomOf() == old(RoomOf()) && stop == NO_EVENT && total <= limit
        invariant RunLoopFrom(env, RoomOf(), limit, Contents(), total) == goal
        invariant AllEnd(env, CoreOf(), commands.Contents())
        invariant SameOverflow(old(commands.overflow), old(responses.overflow), old(events.overflow))
        decreases limit - total
      {
        var go;
        go, total, stop := OuterTurn(env, limit, total);
        if !go { return; }
      }
      RunLoopIsOver(env, RoomOf(), limit, Contents());
    }
  }
}
