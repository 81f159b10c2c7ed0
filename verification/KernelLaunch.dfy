/** A batch kernel: what one of its threads does, and what a complete launch of it does to all states. */
module KernelLaunch {
  import opened Prelude
  import opened Cfg
  import opened BatchLaunch
  import opened SplitTheorem

  /** The fake symbol-table pointer that every kernel stores into the state first, when its offset is known. */
  datatype VlSyms = VlSyms(off: nat, bytes: seq<Byte>)

  datatype Kernel = Kernel(callees: seq<Function>, vlSyms: Option<VlSyms>)

  function StoreSyms(v: Option<VlSyms>, m: Mem): (r: Option<Mem>)
    ensures r.Some? ==> |r.value| == |m|
  {
    match v
    case None => Some(m)
    case Some(s) =>
      if s.off + |s.bytes| <= |m| then Some(m[..s.off] + s.bytes + m[s.off + |s.bytes|..]) else None
  }

  // ---- one thread of a kernel ------------------------------------------------------------------------------------------

  datatype Thread = Begin | Within(rest: seq<Function>, b: BlockId, regs: Regs) | Halted | Crashed

  function Calling(rest: seq<Function>): Thread {
    if rest == [] then Halted else Within(rest, 0, map[])
  }

  /** One step of a thread: the symbol-table store, or one block of the function being called. */
  function ThreadStep(k: Kernel, hs: Helpers, t: Thread, m: Mem): (Thread, Mem) {
    match t
    case Begin =>
      (match StoreSyms(k.vlSyms, m)
       case None => (Crashed, m)
       case Some(m') => (Calling(k.callees), m'))
    case Within(rest, b, regs) =>
      if rest == [] || b >= |rest[0].blocks| then (Crashed, m)
      else
        (match ExecBlock(hs, rest[0].blocks[b], regs, m)
         case BlockTraps => (Crashed, m)
         case BlockDiverges => (t, m)
         case Moves(Goto(c), r, m') => (Within(rest, c, r), m')
         case Moves(_, _, m') => (Calling(rest[1..]), m'))
    case Halted => (Halted, m)
    case Crashed => (Crashed, m)
  }

  lemma {:induction false} InstrsKeepSize(hs: Helpers, instrs: seq<Instr>, regs: Regs, m: Mem)
    ensures ExecAll(hs, instrs, regs, m).Next? ==> |ExecAll(hs, instrs, regs, m).mem| == |m|
  {
    if instrs != [] {
      match ExecInstr(hs, instrs[0], regs, m) {
        case Next(r, m') => InstrsKeepSize(hs, instrs[1..], r, m');
        case _ =>
      }
    }
  }

  lemma StepKeepsSize(k: Kernel, hs: Helpers, t: Thread, m: Mem)
    ensures |ThreadStep(k, hs, t, m).1| == |m|
  {
    if t.Within? && t.rest != [] && t.b < |t.rest[0].blocks| {
      InstrsKeepSize(hs, t.rest[0].blocks[t.b].instrs, t.regs, m);
    }
  }

  function ThreadMachine(k: Kernel, hs: Helpers): Machine<Thread> {
    Machine(Begin, Halted, (t: Thread, m: Mem) => ThreadStep(k, hs, t, m))
  }

  lemma ThreadMachineKeepsSize(k: Kernel, hs: Helpers)
    ensures KeepsSize(ThreadMachine(k, hs))
  {
    forall t: Thread, m: Mem ensures |ThreadMachine(k, hs).step(t, m).1| == |m| {
      StepKeepsSize(k, hs, t, m);
    }
  }

  /** What a kernel does to one state: the store, then its callees one after another. */
  ghost predicate KernelYields(k: Kernel, hs: Helpers, m: Mem, o: Outcome) {
    match StoreSyms(k.vlSyms, m)
    case None => o == Trapped
    case Some(m') => ChainYields(k.callees, hs, m', o)
  }

  /** From the front: n more steps. */
  function Steps(k: Kernel, hs: Helpers, t: Thread, m: Mem, n: nat): (Thread, Mem)
    decreases n
  {
    if n == 0 then (t, m) else var (t', m') := ThreadStep(k, hs, t, m); Steps(k, hs, t', m', n - 1)
  }

  lemma {:induction false} StepsBack(k: Kernel, hs: Helpers, t: Thread, m: Mem, n: nat)
    requires n > 0
    ensures Steps(k, hs, t, m, n)
         == ThreadStep(k, hs, Steps(k, hs, t, m, n - 1).0, Steps(k, hs, t, m, n - 1).1)
    decreases n
  {
    if n > 1 {
      var (t', m') := ThreadStep(k, hs, t, m);
      StepsBack(k, hs, t', m', n - 1);
    }
  }

  lemma {:induction false} IterateIsSteps(k: Kernel, hs: Helpers, t: Thread, m: Mem, n: nat)
    ensures Iterate(ThreadMachine(k, hs), t, m, n) == Steps(k, hs, t, m, n)
    decreases n
  {
    if n > 0 {
      IterateIsSteps(k, hs, t, m, n - 1);
      StepsBack(k, hs, t, m, n);
    }
  }

  /** A thread that halts inside a call has finished that call and all the calls after it. */
  lemma {:induction false} HaltingThreadReturned(k: Kernel, hs: Helpers, rest: seq<Function>, b: BlockId, regs: Regs, m: Mem, m': Mem, n: nat)
    requires rest != [] && Steps(k, hs, Within(rest, b, regs), m, n) == (Halted, m')
    ensures exists m1: Mem :: YieldsFrom(rest[0], hs, b, regs, m, Done(m1)) && ChainYields(rest[1..], hs, m1, Done(m'))
    decreases n, 0
  {
    if b >= |rest[0].blocks| {
      if n > 0 { CrashedStays(k, hs, m, n - 1); }
    } else {
      var e := ExecBlock(hs, rest[0].blocks[b], regs, m);
      if e.BlockTraps? {
        CrashedStays(k, hs, m, n - 1);
      } else if e.BlockDiverges? {
        HaltingThreadReturned(k, hs, rest, b, regs, m, m', n - 1);
      } else if e.w.Goto? {
        HaltingThreadReturned(k, hs, rest, e.w.b, e.regs, e.mem, m', n - 1);
        var m1: Mem :| YieldsFrom(rest[0], hs, e.w.b, e.regs, e.mem, Done(m1)) && ChainYields(rest[1..], hs, m1, Done(m'));
        var j: nat :| Run(rest[0], hs, e.w.b, e.regs, e.mem, j) == Done(m1);
        assert Run(rest[0], hs, b, regs, m, j + 1) == Done(m1);
      } else {
        assert Run(rest[0], hs, b, regs, m, 1) == Done(e.mem);
        HaltingCallsReturned(k, hs, rest[1..], e.mem, m', n - 1);
      }
    }
  }

  lemma {:induction false} HaltingCallsReturned(k: Kernel, hs: Helpers, rest: seq<Function>, m: Mem, m': Mem, n: nat)
    requires Steps(k, hs, Calling(rest), m, n) == (Halted, m')
    ensures ChainYields(rest, hs, m, Done(m'))
    decreases n, 1
  {
    if rest == [] {
      HaltedStays(k, hs, m, n);
      assert RunChain(rest, hs, m, 0) == Done(m);
    } else {
      HaltingThreadReturned(k, hs, rest, 0, map[], m, m', n);
      var m1: Mem :| YieldsFrom(rest[0], hs, 0, map[], m, Done(m1)) && ChainYields(rest[1..], hs, m1, Done(m'));
      assert Yields(rest[0], hs, m, Done(m1));
      ChainAfter(rest[0], rest[1..], hs, m, m1, Done(m'));
      assert rest == [rest[0]] + rest[1..];
    }
  }

  lemma {:induction false} HaltedStays(k: Kernel, hs: Helpers, m: Mem, n: nat)
    ensures Steps(k, hs, Halted, m, n) == (Halted, m)
    decreases n
  {
    if n > 0 { HaltedStays(k, hs, m, n - 1); }
  }

  lemma {:induction false} CrashedStays(k: Kernel, hs: Helpers, m: Mem, n: nat)
    ensures Steps(k, hs, Crashed, m, n) == (Crashed, m)
    decreases n
  {
    if n > 0 { CrashedStays(k, hs, m, n - 1); }
  }

  /** A halted thread has done to its slice what the kernel means. */
  lemma HaltedThreadYields(k: Kernel, hs: Helpers, m: Mem, m': Mem, n: nat)
    requires Steps(k, hs, Begin, m, n) == (Halted, m')
    ensures KernelYields(k, hs, m, Done(m'))
  {
    match StoreSyms(k.vlSyms, m) {
      case None => CrashedStays(k, hs, m, n - 1);
      case Some(m1) => HaltingCallsReturned(k, hs, k.callees, m1, m', n - 1);
    }
  }

  // ---- a thread of a kernel that returns halts ---------------------------------------------------------------------------

  lemma {:induction false} StepsAdd(k: Kernel, hs: Helpers, t: Thread, m: Mem, a: nat, b: nat)
    ensures Steps(k, hs, t, m, a + b) == Steps(k, hs, Steps(k, hs, t, m, a).0, Steps(k, hs, t, m, a).1, b)
    decreases a
  {
    if a > 0 {
      var (t', m') := ThreadStep(k, hs, t, m);
      StepsAdd(k, hs, t', m', a - 1, b);
    }
  }

  lemma {:induction false} ReturningThreadSteps(
      k: Kernel, hs: Helpers, rest: seq<Function>, b: BlockId, regs: Regs, m: Mem, m': Mem, fuel: nat) returns (n: nat)
    requires rest != [] && Run(rest[0], hs, b, regs, m, fuel) == Done(m')
    ensures Steps(k, hs, Within(rest, b, regs), m, n) == (Calling(rest[1..]), m')
    decreases fuel
  {
    n := 1;
    match ExecBlock(hs, rest[0].blocks[b], regs, m) {
      case Moves(Goto(c), r, m1) =>
        var j := ReturningThreadSteps(k, hs, rest, c, r, m1, m', fuel - 1);
        n := j + 1;
      case _ =>
    }
  }

  lemma {:induction false} ReturningCallsHalt(k: Kernel, hs: Helpers, rest: seq<Function>, m: Mem, m': Mem, fuel: nat)
    returns (n: nat)
    requires RunChain(rest, hs, m, fuel) == Done(m')
    ensures Steps(k, hs, Calling(rest), m, n) == (Halted, m')
    decreases |rest|
  {
    if rest == [] {
      n := 0;
    } else {
      var m1 := Run(rest[0], hs, 0, map[], m, fuel).mem;
      var i := ReturningThreadSteps(k, hs, rest, 0, map[], m, m1, fuel);
      var j := ReturningCallsHalt(k, hs, rest[1..], m1, m', fuel);
      n := i + j;
      StepsAdd(k, hs, Calling(rest), m, i, j);
    }
  }

  /** When the kernel returns on a state, its thread halts there, and stays halted. */
  lemma YieldingThreadHalts(k: Kernel, hs: Helpers, m: Mem, m': Mem) returns (n: nat)
    requires KernelYields(k, hs, m, Done(m'))
    ensures forall more: nat | more >= n :: Steps(k, hs, Begin, m, more) == (Halted, m')
  {
    var stored := StoreSyms(k.vlSyms, m).value;
    var fuel: nat :| RunChain(k.callees, hs, stored, fuel) == Done(m');
    var j := ReturningCallsHalt(k, hs, k.callees, stored, m', fuel);
    n := j + 1;
    forall more: nat | more >= n ensures Steps(k, hs, Begin, m, more) == (Halted, m') {
      StepsAdd(k, hs, Begin, m, n, more - n);
      HaltedStays(k, hs, m', more - n);
    }
  }

  /** A kernel keeps the size of the state it is given. */
  lemma KernelKeepsSize(k: Kernel, hs: Helpers, m: Mem, m': Mem)
    requires KernelYields(k, hs, m, Done(m'))
    ensures |m'| == |m|
  {
    var n := YieldingThreadHalts(k, hs, m, m');
    ThreadMachineKeepsSize(k, hs);
    IterateIsSteps(k, hs, Begin, m, n);
    IterateKeepsSize(ThreadMachine(k, hs), Begin, m, n);
  }

  // ---- one launch ------------------------------------------------------------------------------------------------------

  /** The device as a launch finds it. */
  ghost function Started(l: Launch, m: Mem): Device<Thread>
    requires l.Valid()
  {
    Device(map p | p in l.Threads() :: Begin, m)
  }

  ghost predicate LaunchedBy(k: Kernel, hs: Helpers, storage: nat, l: Launch, m: Mem, m': Mem, schedule: seq<ThreadId>)
    requires l.Valid() && IsBuffer(m, storage, l.nstates)
  {
    ThreadMachineKeepsSize(k, hs);
    && (forall i | 0 <= i < |schedule| :: l.Has(schedule[i]))
    && var d := RunSchedule(ThreadMachine(k, hs), storage, l, Started(l, m), schedule);
    && (forall p | p in d.threads :: d.threads[p] == Halted)
    && d.mem == m'
  }

  /** A complete launch: some interleaving of the threads of all blocks after which every one of them has halted. */
  ghost predicate Launched(k: Kernel, hs: Helpers, storage: nat, l: Launch, m: Mem, m': Mem)
    requires l.Valid() && IsBuffer(m, storage, l.nstates)
  {
    exists schedule: seq<ThreadId> :: LaunchedBy(k, hs, storage, l, m, m', schedule)
  }

  /** Every state holds what the kernel makes of it alone. */
  ghost predicate MapsStates(k: Kernel, hs: Helpers, storage: nat, nstates: nat, m: Mem, m': Mem)
    requires IsBuffer(m, storage, nstates) && IsBuffer(m', storage, nstates)
  {
    forall g: nat | g < nstates :: KernelYields(k, hs, Slice(m, storage, nstates, g), Done(Slice(m', storage, nstates, g)))
  }

  lemma WorkerOutcome(k: Kernel, hs: Helpers, storage: nat, l: Launch, m: Mem, schedule: seq<ThreadId>, g: nat)
    requires l.Fits() && IsBuffer(m, storage, l.nstates) && g < l.nstates && KeepsSize(ThreadMachine(k, hs))
    requires forall i | 0 <= i < |schedule| :: l.Has(schedule[i])
    ensures var d := RunSchedule(ThreadMachine(k, hs), storage, l, Started(l, m), schedule);
            && WorkerOf(l, g) in d.threads
            && (d.threads[WorkerOf(l, g)], Slice(d.mem, storage, l.nstates, g))
               == Steps(k, hs, Begin, Slice(m, storage, l.nstates, g), Turns(schedule, WorkerOf(l, g)))
  {
    InterleavingProjects(ThreadMachine(k, hs), storage, l, Started(l, m), schedule, g);
    IterateIsSteps(k, hs, Begin, Slice(m, storage, l.nstates, g), Turns(schedule, WorkerOf(l, g)));
  }

  lemma LaunchMaps(k: Kernel, hs: Helpers, storage: nat, l: Launch, m: Mem, m': Mem, schedule: seq<ThreadId>)
    requires l.Fits() && IsBuffer(m, storage, l.nstates) && LaunchedBy(k, hs, storage, l, m, m', schedule)
    ensures IsBuffer(m', storage, l.nstates) && MapsStates(k, hs, storage, l.nstates, m, m')
  {
    hide Slice, RunSchedule, KernelYields;
    ThreadMachineKeepsSize(k, hs);
    forall g: nat | g < l.nstates
      ensures KernelYields(k, hs, Slice(m, storage, l.nstates, g), Done(Slice(m', storage, l.nstates, g)))
    {
      WorkerOutcome(k, hs, storage, l, m, schedule, g);
      HaltedThreadYields(k, hs, Slice(m, storage, l.nstates, g), Slice(m', storage, l.nstates, g), Turns(schedule, WorkerOf(l, g)));
    }
  }

  /** Enough turns for the workers of the first `n` states to halt. */
  lemma {:induction false} EnoughTurns(k: Kernel, hs: Helpers, storage: nat, nstates: nat, m: Mem, m': Mem, n: nat)
    returns (turns: nat)
    requires IsBuffer(m, storage, nstates) && IsBuffer(m', storage, nstates) && n <= nstates
    requires MapsStates(k, hs, storage, nstates, m, m')
    ensures turns >= 1
    ensures forall g: nat, more: nat | g < n && more >= turns ::
              Steps(k, hs, Begin, Slice(m, storage, nstates, g), more) == (Halted, Slice(m', storage, nstates, g))
    decreases n
  {
    hide Slice, Steps, KernelYields;
    turns := 1;
    if n > 0 {
      var before := EnoughTurns(k, hs, storage, nstates, m, m', n - 1);
      var last := YieldingThreadHalts(k, hs, Slice(m, storage, nstates, n - 1), Slice(m', storage, nstates, n - 1));
      turns := before + last;
    }
  }

  /** When the kernel returns on every state, some interleaving is a complete launch. */
  lemma SomeLaunchCompletes(k: Kernel, hs: Helpers, storage: nat, l: Launch, m: Mem, m': Mem)
    requires l.Fits() && IsBuffer(m, storage, l.nstates) && IsBuffer(m', storage, l.nstates)
    requires MapsStates(k, hs, storage, l.nstates, m, m')
    ensures Launched(k, hs, storage, l, m, m')
  {
    hide Slice, RunSchedule, Steps, KernelYields, Grid, Gid;
    ThreadMachineKeepsSize(k, hs);
    var turns := EnoughTurns(k, hs, storage, l.nstates, m, m', l.nstates);
    var schedule := ManyRounds(l.Threads(), turns);
    assert forall i | 0 <= i < |schedule| :: schedule[i] in schedule;
    var d := RunSchedule(ThreadMachine(k, hs), storage, l, Started(l, m), schedule);
    forall g: nat | g < l.nstates
      ensures Slice(d.mem, storage, l.nstates, g) == Slice(m', storage, l.nstates, g)
      ensures WorkerOf(l, g) in d.threads && d.threads[WorkerOf(l, g)] == Halted
    {
      WorkerOutcome(k, hs, storage, l, m, schedule, g);
    }
    SlicesDetermine(d.mem, m', storage, l.nstates);
    forall p | p in d.threads ensures d.threads[p] == Halted {
      if l.StateOf(p) < l.nstates {
        OneWorker(l, l.StateOf(p));
      } else {
        IdleThreadEnds(ThreadMachine(k, hs), storage, l, Started(l, m), schedule, p);
      }
    }
    assert LaunchedBy(k, hs, storage, l, m, m', schedule);
  }

  /**
   Batch launch equals map, for a launch whose grid arithmetic does not wrap: some interleaving of all its threads
   completes with `m'` if and only if `m'` holds, state by state, what the kernel makes of that state alone.
   */
  lemma LaunchIsPerState(k: Kernel, hs: Helpers, storage: nat, l: Launch, m: Mem, m': Mem)
    requires l.Fits() && IsBuffer(m, storage, l.nstates)
    ensures Launched(k, hs, storage, l, m, m')
       <==> IsBuffer(m', storage, l.nstates) && MapsStates(k, hs, storage, l.nstates, m, m')
  {
    hide LaunchedBy, MapsStates;
    if Launched(k, hs, storage, l, m, m') {
      var schedule: seq<ThreadId> :| LaunchedBy(k, hs, storage, l, m, m', schedule);
      LaunchMaps(k, hs, storage, l, m, m', schedule);
    } else if IsBuffer(m', storage, l.nstates) && MapsStates(k, hs, storage, l.nstates, m, m') {
      SomeLaunchCompletes(k, hs, storage, l, m, m');
    }
  }

  lemma FirstIsThread(l: Launch, schedule: seq<ThreadId>)
    requires l.Valid() && forall i | 0 <= i < |schedule| :: l.Has(schedule[i])
    ensures schedule == [] || l.Has(schedule[0])
  {
  }

  /** Where the grid arithmetic wraps, a launch has no thread and changes nothing. */
  lemma WrappedLaunchIsEmpty(k: Kernel, hs: Helpers, storage: nat, l: Launch, m: Mem, m': Mem)
    requires l.Valid() && l.nstates < W32 && l.block < W32 && !l.Fits() && IsBuffer(m, storage, l.nstates)
    ensures Launched(k, hs, storage, l, m, m') <==> m' == m
  {
    WrapEmptiesGrid(l.nstates, l.block);
    ThreadMachineKeepsSize(k, hs);
    assert l.Threads() == {};
    if schedule: seq<ThreadId> :| LaunchedBy(k, hs, storage, l, m, m', schedule) {
      FirstIsThread(l, schedule);
      assert schedule == [];
    }
    if m' == m { assert LaunchedBy(k, hs, storage, l, m, m', []); }
  }
}
