/** The mock debug core: its architectural state and the immediate execution of one command. */
module MockCore {
  import opened MailboxAbi
  import opened Prelude

  type Regs = s: seq<u64> | |s| == 32 witness seq(32, i => 0)
  type Words = s: seq<u64> | |s| == 64 witness seq(64, i => 0)

  datatype MockState = MockState(
    cycleCount: u64, pc: u64, totalEpochs: u64, lastStop: u32, bpEnabled: bool, bpPc: u64,
    wpEnabled: bool, wpSpace: u32, wpIndex: u64,
    gpr: Regs, csr: Regs, dbg: Regs, phys: Words, dccm: Words, iccm: Words, mmio: Words)

  /** Mirror the counters into the first debug registers and clear the fault mirrors. */
  function Refresh(s: MockState): MockState {
    s.(dbg := [s.pc, s.lastStop, s.totalEpochs, s.cycleCount, 0, 0, 0, 0] + s.dbg[8..])
  }

  function CsrSlot(index: u64): Option<nat> {
    if index == 0x300 then Some(0)
    else if index == 0x305 then Some(1)
    else if index == 0x340 then Some(2)
    else if index == 0x341 then Some(3)
    else if index == 0x342 then Some(4)
    else if index == 0x7b0 then Some(5)
    else if index == 0x7b1 then Some(6)
    else None
  }

  /** The register a selector names, or nothing: an unknown CSR, an index out of range, no such space. */
  function ReadReg(s: MockState, space: u32, index: u64): Option<u64> {
    if space == ADDR_REG_GPR then (if index < 32 then Some(s.gpr[index]) else None)
    else if space == ADDR_REG_CSR then (match CsrSlot(index) case Some(slot) => Some(s.csr[slot]) case None => None)
    else if space == ADDR_REG_DEBUG then
      (if index == DEBUG_REG_PC then Some(s.pc) else if index < 32 then Some(s.dbg[index]) else None)
    else None
  }

  function WriteReg(s: MockState, space: u32, index: u64, v: u64): Option<MockState> {
    if space == ADDR_REG_GPR then (if index < 32 then Some(Refresh(s.(gpr := s.gpr[index := v]))) else None)
    else if space == ADDR_REG_CSR then
      (match CsrSlot(index) case Some(slot) => Some(Refresh(s.(csr := s.csr[slot := v]))) case None => None)
    else if space == ADDR_REG_DEBUG then
      (if index == DEBUG_REG_PC then Some(Refresh(s.(pc := v)))
       else if index < 32 then Some(Refresh(s.(dbg := s.dbg[index := v]))) else None)
    else None
  }

  function ReadMem(s: MockState, space: u32, index: u64): Option<u64> {
    if index >= 64 then None
    else if space == ADDR_MEM_PHYS then Some(s.phys[index])
    else if space == ADDR_MEM_DCCM then Some(s.dccm[index])
    else if space == ADDR_MEM_ICCM then Some(s.iccm[index])
    else if space == ADDR_MEM_MMIO then Some(s.mmio[index])
    else None
  }

  function WriteMem(s: MockState, space: u32, index: u64, v: u64): Option<MockState> {
    if index >= 64 then None
    else if space == ADDR_MEM_PHYS then Some(s.(phys := s.phys[index := v]))
    else if space == ADDR_MEM_DCCM then Some(s.(dccm := s.dccm[index := v]))
    else if space == ADDR_MEM_ICCM then Some(s.(iccm := s.iccm[index := v]))
    else if space == ADDR_MEM_MMIO then Some(s.(mmio := s.mmio[index := v]))
    else None
  }

  predicate WatchpointHit(s: MockState, space: u32, index: u64) {
    s.wpEnabled && s.wpSpace == space && s.wpIndex == index
  }

  function MakeResponse(cmd: Command, status: u32): Response {
    NO_RESPONSE.(requestId := cmd.requestId, status := status)
  }

  function MakeStopEvent(s: MockState, eventType: u32, stop: u32): Event {
    NO_EVENT.(eventType := eventType, stopReason := stop, cycleLo := Lo(s.cycleCount), cycleHi := Hi(s.cycleCount),
              pcLo := Lo(s.pc), pcHi := Hi(s.pc))
  }

  function WithValue(rsp: Response, v: u64): Response { rsp.(arg0 := Lo(v), arg1 := Hi(v), sizeBytes := 8) }

  function Address(cmd: Command): u64 { FromWords(cmd.addrLo, cmd.addrHi) }

  function Argument(cmd: Command): u64 { FromWords(cmd.arg0, cmd.arg1) }

  /** What one command does: the new state, the response, and the event if there is one. */
  datatype Executed = Executed(state: MockState, rsp: Response, ev: Event, haveEvent: bool)

  function StopOnWatchpoint(s: MockState, rsp: Response, space: u32, index: u64): Executed {
    if WatchpointHit(s, space, index) then
      var t := s.(lastStop := STOP_WATCHPOINT_HIT);
      Executed(t, rsp, MakeStopEvent(t, EVENT_WATCHPOINT, STOP_WATCHPOINT_HIT), true)
    else Executed(s, rsp, NO_EVENT, false)
  }

  /** Run `n` unit cycles of four bytes each in one go. */
  function Jump(s: MockState, n: u64, stop: u32): MockState {
    Refresh(s.(cycleCount := Add64(s.cycleCount, n), totalEpochs := Add64(s.totalEpochs, n),
               pc := Add64(s.pc, Mul64(4, n)))).(lastStop := stop)
  }

  /** The closed form of RUN_UNTIL_EVENT: how many cycles, and why it stops. */
  function JumpUntil(s: MockState, cmd: Command): (u64, u32, u32) {
    var limit := cmd.arg0;
    if s.bpEnabled && s.bpPc >= s.pc && (s.bpPc - s.pc) % 4 == 0 && (s.bpPc - s.pc) / 4 <= limit then
      ((s.bpPc - s.pc) / 4, STOP_BREAKPOINT_HIT, EVENT_BREAKPOINT)
    else (limit, if cmd.arg1 != 0 then cmd.arg1 else STOP_EPOCH_LIMIT, EVENT_STOP)
  }

  /** `hybrid_debug_mailbox_mock_execute_immediate` */
  function Execute(cmd: Command, s0: MockState): Executed {
    var s := Refresh(s0);
    var ok := MakeResponse(cmd, STATUS_OK);
    var bad := MakeResponse(cmd, STATUS_BAD_ADDR);
    if cmd.opcode == OP_READ_REG then
      (match ReadReg(s, cmd.addrSpace, Address(cmd))
       case None => Executed(s, bad, NO_EVENT, false)
       case Some(v) => Executed(s, WithValue(ok, v), NO_EVENT, false))
    else if cmd.opcode == OP_WRITE_REG then
      (match WriteReg(s, cmd.addrSpace, Address(cmd), Argument(cmd))
       case None => Executed(s, bad, NO_EVENT, false)
       case Some(t) => Executed(t, ok, NO_EVENT, false))
    else if cmd.opcode == OP_READ_MEM then
      (match ReadMem(s, cmd.addrSpace, Address(cmd))
       case None => Executed(s, bad, NO_EVENT, false)
       case Some(v) => StopOnWatchpoint(s, WithValue(ok, v), cmd.addrSpace, Address(cmd)))
    else if cmd.opcode == OP_WRITE_MEM then
      (match WriteMem(s, cmd.addrSpace, Address(cmd), Argument(cmd))
       case None => Executed(s, bad, NO_EVENT, false)
       case Some(t) => StopOnWatchpoint(t, ok, cmd.addrSpace, Address(cmd)))
    else if cmd.opcode == OP_SET_BREAKPOINT then
      Executed(s.(bpEnabled := true, bpPc := Address(cmd)), ok, NO_EVENT, false)
    else if cmd.opcode == OP_CLEAR_BREAKPOINT then
      Executed(s.(bpEnabled := false, bpPc := 0), ok, NO_EVENT, false)
    else if cmd.opcode == OP_SET_WATCHPOINT then
      Executed(s.(wpEnabled := true, wpSpace := cmd.addrSpace, wpIndex := Address(cmd)), ok, NO_EVENT, false)
    else if cmd.opcode == OP_CLEAR_WATCHPOINT then
      Executed(s.(wpEnabled := false, wpSpace := ADDR_NONE, wpIndex := 0), ok, NO_EVENT, false)
    else if cmd.opcode == OP_RUN_CYCLES then
      var t := Jump(s, cmd.arg0, STOP_RUN_CYCLES_DONE);
      Executed(t, ok, MakeStopEvent(t, EVENT_STOP, STOP_RUN_CYCLES_DONE), true)
    else if cmd.opcode == OP_RUN_UNTIL_EVENT then
      var (n, stop, kind) := JumpUntil(s, cmd);
      var t := Jump(s, n, stop);
      Executed(t, ok, MakeStopEvent(t, kind, stop), true)
    else if cmd.opcode == OP_GET_STOP_REASON then
      Executed(s, ok.(arg0 := s.lastStop, arg1 := Lo(s.cycleCount), sizeBytes := Hi(s.cycleCount)), NO_EVENT, false)
    else
      Executed(s, MakeResponse(cmd, STATUS_UNSUPPORTED), NO_EVENT, false)
  }

  // ---- what the commands promise together ---------------------------------------------------------------------------------

  function WriteCommand(opcode: u32, id: u32, space: u32, index: u64, v: u64): Command {
    Command(opcode, 0, id, space, Lo(index), Hi(index), 0, Lo(v), Hi(v), 0, 0, 0, 0, 0, 0, 0)
  }

  /** The value a register read would answer after `Refresh`: a debug mirror shows its counter, not what was written. */
  predicate IsMirror(space: u32, index: u64) { space == ADDR_REG_DEBUG && 1 <= index < 8 }

  /** A register write followed by a read returns the written value exactly when the register is no mirror (or agrees). */
  lemma WriteThenReadReg(s: MockState, id: u32, id': u32, space: u32, index: u64, v: u64)
    ensures var w := Execute(WriteCommand(OP_WRITE_REG, id, space, index, v), s);
            var r := Execute(WriteCommand(OP_READ_REG, id', space, index, 0), w.state);
            && w.rsp.requestId == id && r.rsp.requestId == id'
            && (w.rsp.status == STATUS_OK <==> ReadReg(s, space, index).Some?)
            && (w.rsp.status == STATUS_OK <==> r.rsp.status == STATUS_OK)
            && (w.rsp.status == STATUS_OK ==>
                  (FromWords(r.rsp.arg0, r.rsp.arg1) == v
                   <==> !IsMirror(space, index) || ReadReg(Refresh(s), space, index) == Some(v)))
  {
    WordsRoundTrip(index, 0, 0);
    WordsRoundTrip(v, 0, 0);
    var w := Execute(WriteCommand(OP_WRITE_REG, id, space, index, v), s);
    if w.rsp.status == STATUS_OK {
      var x := ReadReg(Refresh(w.state), space, index);
      WordsRoundTrip(x.value, 0, 0);
    }
  }

  /** An access of a memory word, once its address is joined again from two words. */
  lemma MemAccessIs(s: MockState, id: u32, space: u32, index: u64, v: u64)
    ensures Execute(WriteCommand(OP_WRITE_MEM, id, space, index, v), s) ==
            match WriteMem(Refresh(s), space, index, v)
            case None => Executed(Refresh(s), NO_RESPONSE.(requestId := id, status := STATUS_BAD_ADDR), NO_EVENT, false)
            case Some(t) => StopOnWatchpoint(t, NO_RESPONSE.(requestId := id, status := STATUS_OK), space, index)
    ensures Execute(WriteCommand(OP_READ_MEM, id, space, index, v), s) ==
            match ReadMem(s, space, index)
            case None => Executed(Refresh(s), NO_RESPONSE.(requestId := id, status := STATUS_BAD_ADDR), NO_EVENT, false)
            case Some(x) =>
              StopOnWatchpoint(Refresh(s), WithValue(NO_RESPONSE.(requestId := id, status := STATUS_OK), x), space, index)
  {
    hide FromWords, Lo, Hi, StopOnWatchpoint, WithValue, WriteMem;
    WordsRoundTrip(index, 0, 0);
    WordsRoundTrip(v, 0, 0);
  }

  /** A memory write followed by a read returns the value; both stop exactly on a watchpoint at that word. */
  lemma WriteThenReadMem(s: MockState, id: u32, id': u32, space: u32, index: u64, v: u64)
    ensures var w := Execute(WriteCommand(OP_WRITE_MEM, id, space, index, v), s);
            var r := Execute(WriteCommand(OP_READ_MEM, id', space, index, 0), w.state);
            && (w.rsp.status == STATUS_OK <==> index < 64 && ADDR_MEM_PHYS <= space <= ADDR_MEM_MMIO)
            && (w.rsp.status == STATUS_OK ==> r.rsp.status == STATUS_OK && FromWords(r.rsp.arg0, r.rsp.arg1) == v)
            && (w.haveEvent <==> w.rsp.status == STATUS_OK && WatchpointHit(s, space, index))
            && w.haveEvent == r.haveEvent
  {
    hide FromWords, Lo, Hi, MakeStopEvent, Execute, WriteCommand;
    MemAccessIs(s, id, space, index, v);
    MemAccessIs(Execute(WriteCommand(OP_WRITE_MEM, id, space, index, v), s).state, id', space, index, 0);
    WordsRoundTrip(v, 0, 0);
  }

  /** The CSRs the mock has, and no other; nothing lies past register 31 of the other spaces. */
  lemma MockRegisters(s: MockState, space: u32, index: u64)
    ensures ReadReg(s, space, index).Some? <==>
            || ((space == ADDR_REG_GPR || space == ADDR_REG_DEBUG) && index < 32)
            || (space == ADDR_REG_CSR && index in {0x300, 0x305, 0x340, 0x341, 0x342, 0x7b0, 0x7b1})
  {
  }

  /** What a read of the first debug registers answers: pc, stop reason, epochs, cycles, and no fault. */
  lemma DebugMirrorsShow(s: MockState, id: u32, index: u64)
    requires index < 8
    ensures var r := Execute(WriteCommand(OP_READ_REG, id, ADDR_REG_DEBUG, index, 0), s).rsp;
            r.status == STATUS_OK && FromWords(r.arg0, r.arg1) ==
            if index == 0 then s.pc else if index == 1 then s.lastStop else if index == 2 then s.totalEpochs
            else if index == 3 then s.cycleCount else 0
  {
    hide FromWords, Lo, Hi;
    WordsRoundTrip(index, 0, 0);
    WordsRoundTrip(ReadReg(Refresh(s), ADDR_REG_DEBUG, index).value, 0, 0);
  }

  /** A register write changes no other register but the mirrors, which only the pc can move. */
  lemma WriteRegIsLocal(s: MockState, id: u32, space: u32, index: u64, v: u64, space': u32, index': u64)
    requires (space', index') != (space, index) && !IsMirror(space', index')
    ensures ReadReg(Execute(WriteCommand(OP_WRITE_REG, id, space, index, v), s).state, space', index') == ReadReg(s, space', index')
  {
    hide FromWords, Lo, Hi;
    WordsRoundTrip(index, 0, 0);
    WordsRoundTrip(v, 0, 0);
  }

  // ---- over whole command sequences -----------------------------------------------------------------------------------------

  /** A place that holds a value: a register or a memory word. */
  datatype Cell = Register(space: u32, index: u64) | Word(space: u32, index: u64) {
    /** The pc and the mirrors of the counters move without being written. */
    predicate Stable() { Register? && space == ADDR_REG_DEBUG ==> index >= 8 }

    predicate Exists(s: MockState) { Peek(s, this).Some? }

    function ReadOpcode(): u32 { if Register? then OP_READ_REG else OP_READ_MEM }

    predicate WrittenBy(cmd: Command) {
      cmd.opcode == (if Register? then OP_WRITE_REG else OP_WRITE_MEM) && cmd.addrSpace == space && Address(cmd) == index
    }
  }

  /** What a cell holds; nothing when no such cell exists, whatever the state. */
  function Peek(s: MockState, c: Cell): Option<u64> {
    if c.Register? then ReadReg(s, c.space, c.index) else ReadMem(s, c.space, c.index)
  }

  lemma CellsStay(s: MockState, t: MockState, c: Cell)
    ensures Peek(s, c).Some? <==> Peek(t, c).Some?
    ensures c.Stable() ==> Peek(Refresh(s), c) == Peek(s, c)
  {
  }

  /** What a register write does to every cell. */
  lemma WriteRegSets(s: MockState, space: u32, index: u64, v: u64, c: Cell)
    requires c.Stable() && WriteReg(s, space, index, v).Some?
    ensures Peek(WriteReg(s, space, index, v).value, c) == if c == Register(space, index) then Some(v) else Peek(s, c)
  {
  }

  lemma WriteMemSets(s: MockState, space: u32, index: u64, v: u64, c: Cell)
    requires WriteMem(s, space, index, v).Some?
    ensures Peek(WriteMem(s, space, index, v).value, c) == if c == Word(space, index) then Some(v) else Peek(s, c)
  {
  }

  /** One command changes a stable cell only by writing it. */
  lemma CommandSets(cmd: Command, s: MockState, c: Cell)
    requires c.Stable()
    ensures Peek(Execute(cmd, s).state, c) ==
            if c.WrittenBy(cmd) && Peek(s, c).Some? then Some(Argument(cmd)) else Peek(s, c)
  {
    hide WriteReg, WriteMem, Address, Argument, MakeStopEvent, WithValue;
    var r := Refresh(s);
    CellsStay(s, r, c);
    if cmd.opcode == OP_WRITE_REG {
      WriteAccepted(r, Register(cmd.addrSpace, Address(cmd)), Argument(cmd));
      if WriteReg(r, cmd.addrSpace, Address(cmd), Argument(cmd)).Some? {
        WriteRegSets(r, cmd.addrSpace, Address(cmd), Argument(cmd), c);
      }
    } else if cmd.opcode == OP_WRITE_MEM {
      WriteAccepted(r, Word(cmd.addrSpace, Address(cmd)), Argument(cmd));
      if WriteMem(r, cmd.addrSpace, Address(cmd), Argument(cmd)).Some? {
        WriteMemSets(r, cmd.addrSpace, Address(cmd), Argument(cmd), c);
      }
    } else {
      OtherCommandsKeep(cmd, s, c);
    }
  }

  lemma WriteAccepted(s: MockState, c: Cell, v: u64)
    ensures (if c.Register? then WriteReg(s, c.space, c.index, v).Some? else WriteMem(s, c.space, c.index, v).Some?)
            <==> Peek(s, c).Some?
  {
  }

  lemma OtherCommandsKeep(cmd: Command, s: MockState, c: Cell)
    requires c.Stable() && cmd.opcode != OP_WRITE_REG && cmd.opcode != OP_WRITE_MEM
    ensures Peek(Execute(cmd, s).state, c) == Peek(s, c)
  {
    hide Execute;
    OtherCommandsMoveCounters(cmd, s);
    SameCells(s, Execute(cmd, s).state, c);
  }

  predicate OnlyCountersDiffer(s: MockState, t: MockState) {
    && s.gpr == t.gpr && s.csr == t.csr && s.dbg[8..] == t.dbg[8..]
    && s.phys == t.phys && s.dccm == t.dccm && s.iccm == t.iccm && s.mmio == t.mmio
  }

  lemma OtherCommandsMoveCounters(cmd: Command, s: MockState)
    requires cmd.opcode != OP_WRITE_REG && cmd.opcode != OP_WRITE_MEM
    ensures OnlyCountersDiffer(s, Execute(cmd, s).state)
  {
    hide Address, Argument, MakeStopEvent, WithValue, WriteReg, WriteMem, ReadReg, ReadMem, JumpUntil, Add64, Mul64;
  }

  lemma SameCells(s: MockState, t: MockState, c: Cell)
    requires c.Stable() && OnlyCountersDiffer(s, t)
    ensures Peek(s, c) == Peek(t, c)
  {
    if c.Register? && c.space == ADDR_REG_DEBUG && c.index < 32 {
      assert s.dbg[c.index] == s.dbg[8..][c.index - 8] && t.dbg[c.index] == t.dbg[8..][c.index - 8];
    }
  }

  function ExecuteAll(cmds: seq<Command>, s: MockState): MockState {
    if cmds == [] then s else Execute(cmds[|cmds| - 1], ExecuteAll(cmds[..|cmds| - 1], s)).state
  }

  /** The value of the last command that writes a cell. */
  function LastWrite(cmds: seq<Command>, c: Cell): Option<u64> {
    if cmds == [] then None
    else if c.WrittenBy(cmds[|cmds| - 1]) then Some(Argument(cmds[|cmds| - 1]))
    else LastWrite(cmds[..|cmds| - 1], c)
  }

  lemma {:induction false} CellAfterCommands(cmds: seq<Command>, s: MockState, c: Cell)
    requires c.Stable()
    ensures Peek(ExecuteAll(cmds, s), c) ==
            if Peek(s, c).Some? && LastWrite(cmds, c).Some? then LastWrite(cmds, c) else Peek(s, c)
  {
    if cmds != [] {
      hide Peek, Execute, Argument;
      CellAfterCommands(cmds[..|cmds| - 1], s, c);
      CommandSets(cmds[|cmds| - 1], ExecuteAll(cmds[..|cmds| - 1], s), c);
    }
  }

  /** After any commands, a read answers the last value written to its cell, or what the cell held at first. */
  lemma ReadAnswersLastWrite(cmds: seq<Command>, s: MockState, c: Cell, id: u32)
    requires c.Stable()
    ensures var r := Execute(WriteCommand(c.ReadOpcode(), id, c.space, c.index, 0), ExecuteAll(cmds, s)).rsp;
            && r.requestId == id && r.status == (if Peek(s, c).Some? then STATUS_OK else STATUS_BAD_ADDR)
            && (Peek(s, c).Some? ==>
                  FromWords(r.arg0, r.arg1) == if LastWrite(cmds, c).Some? then LastWrite(cmds, c).value else Peek(s, c).value)
  {
    hide ExecuteAll, LastWrite, FromWords, Lo, Hi, ReadReg, ReadMem, MakeStopEvent;
    CellAfterCommands(cmds, s, c);
    var t := ExecuteAll(cmds, s);
    CellsStay(t, t, c);
    WordsRoundTrip(c.index, 0, 0);
    if Peek(t, c).Some? { WordsRoundTrip(Peek(t, c).value, 0, 0); }
  }

  // ---- runs ------------------------------------------------------------------------------------------------------------------

  function RunCommand(opcode: u32, id: u32, limit: u32): Command {
    Command(opcode, 0, id, 0, 0, 0, 0, limit, 0, 0, 0, 0, 0, 0, 0, 0)
  }

  /** The mock goes to a breakpoint at or above the pc, within the limit. */
  predicate Hits(s: MockState, limit: u32) {
    s.bpEnabled && s.bpPc >= s.pc && (s.bpPc - s.pc) % 4 == 0 && (s.bpPc - s.pc) / 4 <= limit
  }

  /** The state after `n` unit epochs and a stop, mirrors included. */
  function Landed(s: MockState, total: u64, n: nat, stop: u32): MockState {
    Refresh(s.(cycleCount := (s.cycleCount + n) % W64, pc := (s.pc + 4 * n) % W64, totalEpochs := (total + n) % W64,
               lastStop := stop))
  }

  lemma JumpLands(s: MockState, n: u64, stop: u32)
    requires n < W32
    ensures var t := Jump(Refresh(s), n, stop);
            Refresh(t) == Landed(s, s.totalEpochs, n, stop) && t.lastStop == stop
  {
    assert Mul64(4, n) == 4 * n;
  }

  lemma MockJumps(cmd: Command, s: MockState)
    requires cmd.opcode == OP_RUN_UNTIL_EVENT
    ensures var (n, stop, kind) := JumpUntil(Refresh(s), cmd);
            var t := Jump(Refresh(s), n, stop);
            Execute(cmd, s) == Executed(t, MakeResponse(cmd, STATUS_OK), MakeStopEvent(t, kind, stop), true)
  {
  }

  /** A run lands on the breakpoint it hits, or goes exactly to its limit. */
  lemma MockLands(cmd: Command, s: MockState)
    requires cmd.opcode == OP_RUN_UNTIL_EVENT && cmd.arg1 == 0
    ensures var x := Execute(cmd, s);
            var (n, stop, kind) := if Hits(s, cmd.arg0) then ((s.bpPc - s.pc) / 4, STOP_BREAKPOINT_HIT, EVENT_BREAKPOINT)
                                   else (cmd.arg0, STOP_EPOCH_LIMIT, EVENT_STOP);
            && Refresh(x.state) == Landed(s, s.totalEpochs, n, stop) && x.state.lastStop == stop && x.haveEvent
            && x.ev == MakeStopEvent(Landed(s, s.totalEpochs, n, stop), kind, stop)
  {
    MockJumps(cmd, s);
    var n: u64 := if Hits(s, cmd.arg0) then (s.bpPc - s.pc) / 4 else cmd.arg0;
    JumpLands(s, n, if Hits(s, cmd.arg0) then STOP_BREAKPOINT_HIT else STOP_EPOCH_LIMIT);
  }

  /**
   * The mock writes its stop reason after it has refreshed the debug registers: after a run their mirror shows the
   * reason of before, and so differs exactly when the reason has changed.
   */
  lemma StopMirrorIsStale(cmd: Command, s: MockState)
    requires cmd.opcode == OP_RUN_CYCLES || cmd.opcode == OP_RUN_UNTIL_EVENT
    ensures var t := Execute(cmd, s).state;
            && t.dbg[1] == s.lastStop
            && (t == Refresh(t) <==> t.lastStop == s.lastStop)
  {
    hide JumpUntil, Add64, Mul64, MakeStopEvent;
    var t := Execute(cmd, s).state;
    assert t.lastStop == s.lastStop ==> t.dbg == Refresh(t).dbg;
    assert Refresh(t).dbg[1] == t.lastStop;
  }

  lemma RunReaches(s: MockState, id: u32, limit: u32)
    ensures var r := Execute(RunCommand(OP_RUN_UNTIL_EVENT, id, limit), s);
            && r.ev.eventType == (if Hits(s, limit) then EVENT_BREAKPOINT else EVENT_STOP)
            && (Hits(s, limit) ==> r.state.pc == s.bpPc)
            && (!Hits(s, limit) ==> r.state.cycleCount == Add64(s.cycleCount, limit))
  {
    hide Execute;
    MockLands(RunCommand(OP_RUN_UNTIL_EVENT, id, limit), s);
    var t := Execute(RunCommand(OP_RUN_UNTIL_EVENT, id, limit), s).state;
    assert Refresh(t).pc == t.pc && Refresh(t).cycleCount == t.cycleCount;
  }

  /** A breakpoint set above the pc stops a run exactly there; a cleared one stops nothing. */
  lemma BreakpointStopsRun(s: MockState, id: u32, at: u64, limit: u32)
    ensures var t := Execute(WriteCommand(OP_SET_BREAKPOINT, id, ADDR_REG_DEBUG, at, 0), s).state;
            var r := Execute(RunCommand(OP_RUN_UNTIL_EVENT, id, limit), t);
            && (r.ev.eventType == EVENT_BREAKPOINT <==> exists n: nat :: n <= limit && at == s.pc + 4 * n)
            && (r.ev.eventType == EVENT_BREAKPOINT ==> r.state.pc == at)
    ensures var t := Execute(WriteCommand(OP_CLEAR_BREAKPOINT, id, ADDR_REG_DEBUG, at, 0), s).state;
            var r := Execute(RunCommand(OP_RUN_UNTIL_EVENT, id, limit), t);
            r.ev.eventType == EVENT_STOP && r.state.cycleCount == Add64(s.cycleCount, limit)
  {
    WordsRoundTrip(at, 0, 0);
    hide FromWords, Lo, Hi, Jump, JumpUntil, Add64;
    RunReaches(Execute(WriteCommand(OP_SET_BREAKPOINT, id, ADDR_REG_DEBUG, at, 0), s).state, id, limit);
    RunReaches(Execute(WriteCommand(OP_CLEAR_BREAKPOINT, id, ADDR_REG_DEBUG, at, 0), s).state, id, limit);
    MultiplesOfFour(at, s.pc, limit);
  }

  lemma MultiplesOfFour(at: nat, pc: nat, limit: nat)
    ensures (exists n: nat :: n <= limit && at == pc + 4 * n) <==> at >= pc && (at - pc) % 4 == 0 && (at - pc) / 4 <= limit
  {
    if at >= pc && (at - pc) % 4 == 0 { assert at == pc + 4 * ((at - pc) / 4); }
  }

  /** A watchpoint stops the accesses of its own word, reads and writes, and nothing once cleared. */
  lemma WatchpointStopsAccess(s: MockState, id: u32, space: u32, index: u64, space': u32, index': u64, v: u64, write: bool)
    ensures var t := Execute(WriteCommand(OP_SET_WATCHPOINT, id, space, index, 0), s).state;
            var x := Execute(WriteCommand(if write then OP_WRITE_MEM else OP_READ_MEM, id, space', index', v), t);
            x.haveEvent <==> x.rsp.status == STATUS_OK && space' == space && index' == index
    ensures var t := Execute(WriteCommand(OP_CLEAR_WATCHPOINT, id, space, index, 0), s).state;
            !Execute(WriteCommand(if write then OP_WRITE_MEM else OP_READ_MEM, id, space', index', v), t).haveEvent
  {
    hide FromWords, Lo, Hi, MakeStopEvent;
    WordsRoundTrip(index, 0, 0);
    WordsRoundTrip(index', 0, 0);
    WordsRoundTrip(v, 0, 0);
  }

  // ---- what every command reports ---------------------------------------------------------------------------------------------

  /** A memory access that succeeds on the watched word. */
  predicate TripsWatchpoint(cmd: Command, s: MockState) {
    && (cmd.opcode == OP_READ_MEM || cmd.opcode == OP_WRITE_MEM)
    && s.wpEnabled && s.wpSpace == cmd.addrSpace && s.wpIndex == cmd.addrHi * W32 + cmd.addrLo
    && Word(cmd.addrSpace, cmd.addrHi * W32 + cmd.addrLo).Exists(s)
  }

  /** Runs and tripped watchpoints have an event, which names its kind and reason; nothing else has one or stops anything. */
  lemma EventsOfCommands(cmd: Command, s: MockState)
    ensures var x := Execute(cmd, s);
            && (x.haveEvent <==> cmd.opcode == OP_RUN_CYCLES || cmd.opcode == OP_RUN_UNTIL_EVENT || TripsWatchpoint(cmd, s))
            && (x.haveEvent ==> x.ev.stopReason == x.state.lastStop
                                && x.ev.cycleHi * W32 + x.ev.cycleLo == x.state.cycleCount
                                && x.ev.pcHi * W32 + x.ev.pcLo == x.state.pc)
            && (cmd.opcode == OP_RUN_CYCLES ==> x.ev.eventType == EVENT_STOP && x.ev.stopReason == STOP_RUN_CYCLES_DONE)
            && (TripsWatchpoint(cmd, s) ==> x.ev.eventType == EVENT_WATCHPOINT && x.ev.stopReason == STOP_WATCHPOINT_HIT)
            && (!x.haveEvent ==> x.ev == NO_EVENT && x.state.lastStop == s.lastStop)
  {
    hide Lo, Hi, Refresh, WithValue, Jump, JumpUntil, Mul64, Add64, WriteReg, ReadReg;
    var x := Execute(cmd, s);
    WordsRoundTrip(x.state.cycleCount, 0, 0);
    WordsRoundTrip(x.state.pc, 0, 0);
    RefreshKeeps(s);
    if cmd.opcode == OP_WRITE_REG { WriteKeepsStop(Refresh(s), cmd.addrSpace, Address(cmd), Argument(cmd)); }
    JumpStops(Refresh(s), cmd.arg0, STOP_RUN_CYCLES_DONE);
    JumpStops(Refresh(s), JumpUntil(Refresh(s), cmd).0, JumpUntil(Refresh(s), cmd).1);
  }

  lemma RefreshKeeps(s: MockState)
    ensures var t := Refresh(s);
            && t.lastStop == s.lastStop && t.wpEnabled == s.wpEnabled && t.wpSpace == s.wpSpace && t.wpIndex == s.wpIndex
            && t.bpEnabled == s.bpEnabled && t.bpPc == s.bpPc
            && t.phys == s.phys && t.dccm == s.dccm && t.iccm == s.iccm && t.mmio == s.mmio
  {
  }

  lemma WriteKeepsStop(s: MockState, space: u32, index: u64, v: u64)
    ensures WriteReg(s, space, index, v).Some? ==>
              var t := WriteReg(s, space, index, v).value;
              && t.lastStop == s.lastStop && t.wpEnabled == s.wpEnabled && t.wpSpace == s.wpSpace && t.wpIndex == s.wpIndex
              && t.bpEnabled == s.bpEnabled && t.bpPc == s.bpPc
  {
  }

  lemma JumpStops(s: MockState, n: u64, stop: u32)
    ensures var t := Jump(s, n, stop);
            && t.lastStop == stop && t.wpEnabled == s.wpEnabled && t.wpSpace == s.wpSpace && t.wpIndex == s.wpIndex
            && t.bpEnabled == s.bpEnabled && t.bpPc == s.bpPc
  {
  }

  /** RUN_CYCLES advances cycles and epochs by its argument, and the pc by four bytes each. */
  lemma CyclesLand(cmd: Command, s: MockState)
    requires cmd.opcode == OP_RUN_CYCLES
    ensures var x := Execute(cmd, s);
            Refresh(x.state) == Landed(s, s.totalEpochs, cmd.arg0, STOP_RUN_CYCLES_DONE) && x.state.lastStop == STOP_RUN_CYCLES_DONE
  {
    JumpLands(s, cmd.arg0, STOP_RUN_CYCLES_DONE);
  }

  /** The stop points change by their own commands alone: set to the address given, or cleared. */
  lemma StopPointsAreSet(cmd: Command, s: MockState)
    ensures var t := Execute(cmd, s).state;
            var at := cmd.addrHi * W32 + cmd.addrLo;
            && (t.bpEnabled, t.bpPc) == (if cmd.opcode == OP_SET_BREAKPOINT then (true, at)
                                         else if cmd.opcode == OP_CLEAR_BREAKPOINT then (false, 0) else (s.bpEnabled, s.bpPc))
            && (t.wpEnabled, t.wpSpace, t.wpIndex) ==
               (if cmd.opcode == OP_SET_WATCHPOINT then (true, cmd.addrSpace, at)
                else if cmd.opcode == OP_CLEAR_WATCHPOINT then (false, ADDR_NONE, 0) else (s.wpEnabled, s.wpSpace, s.wpIndex))
  {
    hide Lo, Hi, Refresh, WithValue, Jump, JumpUntil, Mul64, Add64, WriteReg, ReadReg, MakeStopEvent;
    RefreshKeeps(s);
    if cmd.opcode == OP_WRITE_REG { WriteKeepsStop(Refresh(s), cmd.addrSpace, Address(cmd), Argument(cmd)); }
    JumpStops(Refresh(s), cmd.arg0, STOP_RUN_CYCLES_DONE);
    JumpStops(Refresh(s), JumpUntil(Refresh(s), cmd).0, JumpUntil(Refresh(s), cmd).1);
  }

  /** The status of a command: an access of what does not exist, an opcode of its own, or success. */
  lemma StatusOfCommands(cmd: Command, s: MockState)
    ensures var at := cmd.addrHi * W32 + cmd.addrLo;
            Execute(cmd, s).rsp.status ==
            if cmd.opcode == OP_READ_REG || cmd.opcode == OP_WRITE_REG then
              (if Register(cmd.addrSpace, at).Exists(s) then STATUS_OK else STATUS_BAD_ADDR)
            else if cmd.opcode == OP_READ_MEM || cmd.opcode == OP_WRITE_MEM then
              (if Word(cmd.addrSpace, at).Exists(s) then STATUS_OK else STATUS_BAD_ADDR)
            else if OP_RUN_CYCLES <= cmd.opcode <= OP_CLEAR_WATCHPOINT then STATUS_OK else STATUS_UNSUPPORTED
    ensures Execute(cmd, s).rsp.requestId == cmd.requestId
  {
    hide Lo, Hi, Refresh, Jump, JumpUntil, Mul64, Add64, MakeStopEvent;
    CellsStay(s, Refresh(s), Register(cmd.addrSpace, Address(cmd)));
    CellsStay(s, Refresh(s), Word(cmd.addrSpace, Address(cmd)));
  }
}
