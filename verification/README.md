# GPU code generation and debug mailbox of the Verilator hybrid simulator, modelled in Dafny

The project models three components of the repository and proves what they promise together, plus a few smaller ones.

**The segment split and the batch launch** (`Cfg`, `Region`, `Segments`, `Recognition`, `Wrapper`, `ChainLayout`,
`CloneSim`, `GuardEval`, `Words`, `SplitMeaning`, `SplitTheorem`, `SplitLimits`, `BatchLaunch`, `KernelLaunch`,
`HybridHost`, `SegmentKernels`, `ClosedModule`, `KernelManifest`, `JsonString`). The generator recognises
`___eval_nba` as a chain of "load trigger, mask, compare, branch" headers, carves the region behind each guard, clones
it into a wrapper that tests the guard again, and emits one kernel per wrapper; the host writes its patches and
launches the kernels one after another over all states, step after step. A small language of blocks, registers and one
byte memory per state, with a fuel semantics that distinguishes returning, trapping and running on, stands for LLVM
functions.

**The convergence patch** (`Convergence`, `ConvergenceRuns`, `ConvergenceAgreement`). The edit that must make
Verilator's convergence loops end once the fatal call is an empty stub, on loops nested at will, with both counter
shapes and with the header on either side of the latch.

**The debug mailbox** (`MailboxAbi`, `Ring`, `MockCore`, `RunLoops`, `ClosedForm`, `Dispatch`, `RunCommands`,
`MailboxLoop`, `MailboxSession`, `Bindings`). Three rings with 32-bit indices, a dispatcher with a busy flag, two run
loops, a main loop with backpressure and an outer loop around it, the register binding table, and the mock that
computes in one shot what a run loop does step by step. All 32- and 64-bit arithmetic wraps as in the source.

**Smaller cores**: state selectors (`Selector`, `Numerals`), the greedy policy selection (`Policy`, `PolicyScores`)
and the reward-alignment report (`Alignment`); Python floats are exact reals.

Objects that the source updates in place are classes whose methods are proved against functions; the properties are
proved about those functions.

## Hypotheses of the split theorem

The generator relies on these without checking them. They are the predicate `SplitMeaning.Assumed` and premises of
`SplitTheorem.SplitPreservesMeaning` and `SegmentKernels.SegmentLaunchesMapEvalNba`:

- `GuardOnlyHeader`: a header holds its guard and address computations only, and loads the trigger word itself; the code
  looks only at the terminator (src/passes/vlgpugen.cpp:718-724) and the wrapper loads again (line 778).
- `EntryIsFirst`: a region's start is the first of its blocks in layout order, since the wrapper enters the first listed
  block (line 803). `SplitLimits.LayoutOrderMatters` is an input on which the split fails without it, and
  `SplitTheorem.SplitMeansRedirected` says what the wrappers mean without it, and so exactly when they agree.
- `HelperTakesRoot`: a region that is one helper call passes the root argument only (line 791).
- The function takes one argument, and (for the kernels) no segment overwrites the symbol pointer that every kernel
  stores; with no such pointer the second condition is empty.
- A launch runs every state only if `nstates + block - 1` fits in 32 bits (`BatchLaunch.AllCoveredIffNoWrap`,
  `KernelLaunch.WrappedLaunchIsEmpty`).

## Where code and comments disagree

- src/passes/VlGpuPasses.cpp:82 says that the patched loop becomes fatal after its first body iteration. In the shape
  drawn above that line the compare is on the incremented counter, so with the limit zero the body is never entered
  (`ConvergenceRuns.CompareAfterSkipsBody`). `ConvergenceAgreement.PatchAgreesExactlyWhenQuiet` says exactly when patched
  and original agree.
- `hybridDebugMailboxRuntimeExecuteCommand` is declared `bool` and returns -1 when a hook fails
  (include/sim_accel/HYBRID_DEBUG_MAILBOX_LOOP_RUNTIME.h:297, 314). The caller sees success and publishes its zeroed
  reply. `Dispatch.RequestIdIsEchoed` says exactly when the id is right. `MailboxSession.Session.ExecuteCommand` is proved
  to report success always, so the branch guarded by `faultOnExecuteFailure` is never taken.
- `RunLoop` and `ServeUntilEvent` differ when the oldest queued event has type NONE: it is popped as the stop event, and
  the outer loop goes on. `MailboxLoop.LoopsAgreeExactly` gives the exact condition. Without a place for the stop event
  they differ by that event alone (`MailboxLoop.ServeWithoutPlace`).
- The mock writes its stop reason after it has refreshed the debug registers, so the mirror of that reason is stale until
  the next refresh (`MockCore.StopMirrorIsStale`); `ClosedForm.ClosedFormRefinesLoop` compares states after a refresh.
- When a wrapper cannot be built, kernels of earlier segments stay in the module although the manifest no longer lists
  them (`KernelManifest.EmitPhases`).

## Model

| member | source | states |
|---|---|---|
| Region.Flood | src/passes/vlgpugen.cpp:615-628 | The worklist ends with exactly the blocks reachable from the start on walks that never touch the join |
| Region.CheckRegion | src/passes/vlgpugen.cpp:633-663 | The edge tests in layout order accept exactly when every region block is closed and some region block branches to the join; the listing is the region in layout order |
| Region.CollectRegionBlocks | src/passes/vlgpugen.cpp:613-664 | Accepts if and only if the region is nonempty, entered only over the guard edge, with an edge into the join; then lists exactly the reachable blocks in layout order |
| Region.AcceptedMeans | src/passes/vlgpugen.cpp:635-663 | What acceptance means: the start is in the region, every predecessor of a region block is in the region or is the guard before the start, and some region block branches to the join |
| Region.SuccessorsStayInside | src/passes/vlgpugen.cpp:649-658 | The successor test never fails: every successor of a region block is in the region or is the join |
| Region.FirstOutsideIsJoin | src/passes/vlgpugen.cpp:613-664 | On every path that starts in the region, the first block outside it is the join |
| Region.OnlyEntryIsGuardEdge | src/passes/vlgpugen.cpp:639-647 | On every path that starts outside an accepted region, the first step into it is the guard edge into the start |
| Region.RegionIsLeftThroughJoin | src/passes/vlgpugen.cpp:613-664 | Every execution that starts in the region reaches the join first among outside blocks, ends inside the region, or runs on |
| Segments.RegionUsesOnlyRootArg | src/passes/vlgpugen.cpp:666-689 | True if and only if every operand in the region is a constant, the root argument, or defined in the region |
| Segments.MatchGuardedRegion | src/passes/vlgpugen.cpp:691-705 | Succeeds if and only if the region is accepted and uses only the root argument; a callee is reported exactly for a one-block region that is one call |
| Segments.ExtractGuardedSegments | src/passes/vlgpugen.cpp:707-745 | The loop computes the chain specification: the segments from the entry block, true side tried before false side, refused on a revisited block, an unrecognised guard or an empty chain |
| Segments.ExtractedIsChain | src/passes/vlgpugen.cpp:712-744 | An accepted chain has pairwise distinct headers, each heading its own segment, and ends in a trivial return block |
| Recognition.RecognisedExactly | src/passes/vlgpugen.cpp:532-576 | A branch condition is recognised, with this address, width, mask and predicate, if and only if the code compares with zero, equal or unequal, a masked load from a constant offset of an argument, operands on either side |
| Recognition.RootOnlyMeans | src/passes/vlgpugen.cpp:666-689 | A region is root-only if and only if every argument it uses is the root and every register is assigned inside it |
| Recognition.CalleeIs | src/passes/vlgpugen.cpp:590-611 | A callee is reported if and only if the region is one block that calls that one defined function and jumps to the join |
| Recognition.ExtractedExactly | src/passes/vlgpugen.cpp:707-745 | A function is accepted, with these segments, if and only if it is a nonempty chain of headers on trigger tests with accepted root-only regions, the true side first, no header twice, ending in a trivial return |
| GuardEval.MatchedIsLinked | src/passes/vlgpugen.cpp:532-576 | The recognised compare, mask, load and address are linked operand by operand, in either operand order |
| GuardEval.WrapperGuardRuns | src/passes/vlgpugen.cpp:772-782 | The guard rebuilt in a wrapper traps exactly when the trigger word is out of bounds, and otherwise computes the masked test of the memory it is given |
| GuardEval.HeaderGuardRuns | src/passes/vlgpugen.cpp:532-576 | A header that holds only its guard computes the same test, with the operands in any recognised order and address computations interleaved |
| Words.GuardReadsBits | src/passes/vlgpugen.cpp:772-782 | A guard holds if and only if some bit of its mask is set in the trigger word, or, when it tests for equality, none is |
| Wrapper.CreateGuardedSegmentWrapper | src/passes/vlgpugen.cpp:760-842 | The wrapper is the guard, the exit and either one helper call or the rewired clones; it fails exactly when some region block does not end in a branch |
| Wrapper.WrapAllPointwise | src/passes/vlgpugen.cpp:1113-1119 | When every wrapper is built, wrapper `i` is the wrapper of segment `i` |
| ChainLayout.HeaderOutside | src/passes/vlgpugen.cpp:712-744 | No header of an accepted chain lies in any of its regions |
| ChainLayout.RegionsDisjoint | src/passes/vlgpugen.cpp:712-744 | The regions of an accepted chain are pairwise disjoint |
| CloneSim.BlockAgrees | src/passes/vlgpugen.cpp:797-836 | One region block and its clone have the same effect on memory, and the clone goes where the successor map sends the original |
| CloneSim.RegionSimulates | src/passes/vlgpugen.cpp:793-837 | Running a region in place up to its join and running its clone step together: arrival is the wrapper's return with the same memory, a trap is a trap, neither ends without the other; inner branches and loops included |
| CloneSim.RegionOnlyChanges | src/passes/vlgpugen.cpp:666-689 | On arrival at the join only registers defined in the region have changed |
| SplitMeaning.HeaderComputesGuard | src/passes/vlgpugen.cpp:718-724 | Under the stated header hypothesis, a header leaves memory alone, computes its guard and keeps the addresses later headers rely on |
| SplitTheorem.WrapperEntry | src/passes/vlgpugen.cpp:769-788 | A wrapper traps when its guard word cannot be read and returns the memory unchanged when its guard fails |
| SplitTheorem.CallInStep | src/passes/vlgpugen.cpp:783-792 | A segment that is one helper call does in its wrapper what it does in place |
| SplitTheorem.CloneInStep | src/passes/vlgpugen.cpp:793-837 | A segment whose region is cloned does in its wrapper what it does in place |
| SplitTheorem.SegmentRealised | src/passes/vlgpugen.cpp:707-842 | From its header on, a segment either passes on to the next header with the memory its wrapper returns, or traps with it, or diverges with it |
| SplitTheorem.SplitMeansRedirected | src/passes/vlgpugen.cpp:797-837 | What the wrappers mean whatever the block order: exactly the function whose guards lead to the first listed block of their regions; so wrappers and `___eval_nba` agree if and only if that function and `___eval_nba` do |
| SplitTheorem.SplitPreservesMeaning | src/passes/vlgpugen.cpp:707-842 | Main theorem: for every accepted function whose wrappers are all built, under the listed hypotheses, running the wrappers in order yields an outcome if and only if running the function does; traps and divergence included |
| SplitLimits.LayoutOrderMatters | src/passes/vlgpugen.cpp:803-807 | A concrete function that is accepted and wrapped, meets every other hypothesis, and traps where its wrapper returns, because its region's entry is not the first listed block |
| BatchLaunch.EachStateOnce | src/passes/vlgpugen.cpp:932-937 | When the launch arithmetic does not wrap, exactly one launched thread works on each state |
| BatchLaunch.AllCoveredIffNoWrap | src/hybrid/run_vl_hybrid.c:480-482 | Every state is run if and only if `nstates + block - 1` fits in 32 bits; beyond that the grid is zero |
| BatchLaunch.SliceIsAtOffset | src/passes/vlgpugen.cpp:940-943 | A thread's pointer arithmetic selects exactly its state's slice |
| BatchLaunch.PutThenSlice | src/passes/vlgpugen.cpp:939-951 | Writing one state's slice changes that slice and no other |
| BatchLaunch.InterleavingProjects | src/passes/vlgpugen.cpp:908-960 | In any interleaving of the threads of all blocks, each state's slice and thread are what that thread's own steps alone produce; threads past the last state do nothing |
| HybridHost.WritePatches | src/hybrid/run_vl_hybrid.c:507-515 | Succeeds if and only if all offsets fit; otherwise exactly the patches before the first bad one have been written |
| HybridHost.RunSteps | src/hybrid/run_vl_hybrid.c:506-560 | Reports a bad patch if and only if one does not fit, in the first step and before any kernel; a finished run has written the patches and completed every kernel of every step, in order |
| HybridHost.ChainIsPerState | src/hybrid/run_vl_hybrid.c:519-522 | A chain of complete launches can leave a buffer if and only if every state of it is what the kernels in order make of that state alone |
| HybridHost.BatchEqualsMap | src/hybrid/run_vl_hybrid.c:505-566 | After any number of steps, every launch interleaved at will, the buffer can hold `m'` if and only if every state of `m'` is what its own patches and the kernels in order, step after step, make of that state alone |
| HybridHost.UploadInitState | src/hybrid/run_vl_hybrid.c:447-474 | An image of the whole buffer is copied, an image of one state is replicated to every state, any other size is refused |
| KernelLaunch.HaltedThreadYields | src/passes/vlgpugen.cpp:908-960 | A thread that has halted did to its slice what calling the kernel's callees in order does |
| KernelLaunch.YieldingThreadHalts | src/passes/vlgpugen.cpp:908-960 | When the callees return on a state, its thread halts with that memory |
| KernelLaunch.LaunchIsPerState | src/passes/vlgpugen.cpp:908-960 | When the grid arithmetic does not wrap, some interleaving of all threads of all blocks completes with `m'` if and only if `m'` holds, state by state, what the kernel makes of that state alone |
| KernelLaunch.WrappedLaunchIsEmpty | src/hybrid/run_vl_hybrid.c:480-482 | When the grid arithmetic wraps, a launch has no thread and changes nothing |
| SegmentKernels.KernelsCompose | src/passes/vlgpugen.cpp:1113-1122 | One kernel per segment, launched in order, does to a state exactly what one kernel calling all segments does, when no segment writes the symbol pointer |
| SegmentKernels.SegmentChainIsEvalNba | src/passes/vlgpugen.cpp:1109-1134 | The segment kernels do to one state exactly what one kernel calling `___eval_nba` does |
| SegmentKernels.SegmentLaunchesMapEvalNba | src/passes/vlgpugen.cpp:1109-1134 | End to end, for any steps, patches and interleavings of a grid that does not wrap: the segment kernels can leave a buffer if and only if every state of it is what its patches and `___eval_nba`, step after step, make of that state alone; and if and only if one kernel calling `___eval_nba` can |
| Convergence.PassFunction.CollectCandidates | src/passes/VlGpuPasses.cpp:101-110 | Collects exactly the compares with the threshold, in layout order |
| Convergence.PatchSiteMeans | src/passes/VlGpuPasses.cpp:84-153 | On any function: the first branch on the flag names the fatal block, the first branch to the header, on either side, names the exit, and without either nothing is written |
| Convergence.PassFunction.RunPass | src/passes/VlGpuPasses.cpp:84-155 | The in-place pass computes the specified edit of all candidates in order; it reports a change if and only if something changed |
| Convergence.PatchSiteEditsLoop | src/passes/VlGpuPasses.cpp:84-153 | On the compare of a documented loop the edit is exactly: limit zero in the header, fatal block to the exit, no other block touched |
| Convergence.EditOneLoop | src/passes/VlGpuPasses.cpp:116-153 | Editing one of several nested loops edits that loop and leaves every other one as it was |
| Convergence.PassEditsEveryLoop | src/passes/VlGpuPasses.cpp:84-155 | In a function of documented loops, nested at will, the pass edits every loop and nothing else |
| ConvergenceRuns.UnpatchedDiverges | src/passes/VlGpuPasses.cpp:64-80 | Unpatched and with a returning fatal stub, a loop whose phase always answers for another round never leaves its own blocks, whichever answer that is |
| ConvergenceRuns.PatchedEnds | src/passes/VlGpuPasses.cpp:84-155 | Every entry of edited code ends within a static bound, visiting each header at most twice and any other block at most once |
| ConvergenceRuns.CompareAfterSkipsBody | src/passes/VlGpuPasses.cpp:64-76 | In the drawn shape (compare after increment) the patched loop leaves before its body: no phase is asked, nothing is called |
| ConvergenceAgreement.AsksEach | src/passes/VlGpuPasses.cpp:64-76 | A finished run of unpatched code asks every phase at least once, and asks no more only if every phase converges at once |
| ConvergenceAgreement.PatchBoundsEveryRun | src/passes/VlGpuPasses.cpp:84-155 | For every documented function and any answers, the patched function reaches its end within the bound, each header visited at most twice |
| ConvergenceAgreement.PatchAgreesExactlyWhenQuiet | src/passes/VlGpuPasses.cpp:84-155 | The patched and the original run end in the same state if and only if no loop compares after its increment and every phase converges at once |
| MailboxAbi.WordsRoundTrip | include/sim_accel/HYBRID_DEBUG_MAILBOX_RUNTIME.h:12-20 | Splitting a 64-bit value and joining two words undo each other |
| Ring.CountIsExact | include/sim_accel/HYBRID_DEBUG_MAILBOX_RUNTIME.h:49-53 | The 32-bit count is exact at every pair of indices if and only if the capacity is at most 2^31 |
| Ring.TinyRingsHoldNothing | include/sim_accel/HYBRID_DEBUG_MAILBOX_RUNTIME.h:49-59 | A ring of no place counts nothing and one of a single place has no room |
| Ring.PushRefines | include/sim_accel/HYBRID_DEBUG_MAILBOX_RUNTIME.h:79-96 | A push is refused exactly at length capacity - 1, and then only the overflow count changes; otherwise the entry is appended |
| Ring.PopRefines | include/sim_accel/HYBRID_DEBUG_MAILBOX_RUNTIME.h:98-113 | A pop takes the oldest entry, and fails without change exactly when the ring is empty |
| Ring.RingIsBoundedQueue | include/sim_accel/HYBRID_DEBUG_MAILBOX_RUNTIME.h:49-113 | Over every sequence of pushes and pops the ring answers as a bounded queue does; its overflow count is the number of refusals modulo 2^32 |
| Ring.RingBuffer.PushEntry | include/sim_accel/HYBRID_DEBUG_MAILBOX_RUNTIME.h:79-96 | The in-place push has the specified effect on all fields and entries |
| Ring.RingBuffer.PopEntry | include/sim_accel/HYBRID_DEBUG_MAILBOX_RUNTIME.h:98-113 | The in-place pop has the specified effect on all fields; overflow and entries stay |
| MockCore.WriteThenReadReg | include/sim_accel/HYBRID_DEBUG_MAILBOX_MOCK.h:217-249 | A register write then read returns the value if and only if the register is no refreshed mirror (or agrees); both commands accept the same addresses |
| MockCore.MockRegisters | include/sim_accel/HYBRID_DEBUG_MAILBOX_MOCK.h:109-250 | Exactly which registers the mock has: 32 general, 32 debug, seven CSRs |
| MockCore.DebugMirrorsShow | include/sim_accel/HYBRID_DEBUG_MAILBOX_MOCK.h:65-78 | Reads of the first debug registers answer pc, stop reason, epochs and cycles of the moment, and no fault |
| MockCore.WriteThenReadMem | include/sim_accel/HYBRID_DEBUG_MAILBOX_MOCK.h:251-267 | A memory write then read returns the value; both stop exactly on a watchpoint at that word |
| MockCore.WriteRegIsLocal | include/sim_accel/HYBRID_DEBUG_MAILBOX_MOCK.h:217-249 | A register write changes no other register, apart from the refreshed mirrors |
| MockCore.CommandSets | include/sim_accel/HYBRID_DEBUG_MAILBOX_MOCK.h:292-426 | One command changes a register or memory word, pc and counter mirrors apart, if and only if it is an accepted write to it |
| MockCore.ReadAnswersLastWrite | include/sim_accel/HYBRID_DEBUG_MAILBOX_MOCK.h:217-426 | After any sequence of commands a read answers the last value written to that register or word, or what it held at first |
| MockCore.MockLands | include/sim_accel/HYBRID_DEBUG_MAILBOX_MOCK.h:385-415 | Where the one-shot run lands, and its event |
| MockCore.StopMirrorIsStale | include/sim_accel/HYBRID_DEBUG_MAILBOX_MOCK.h:376-415 | After a run the mirror of the stop reason shows the reason of before: it differs from a refreshed one if and only if the reason changed |
| MockCore.CyclesLand | include/sim_accel/HYBRID_DEBUG_MAILBOX_MOCK.h:374-384 | A mock RUN_CYCLES advances cycles and epochs by its argument and the pc by four bytes each |
| MockCore.EventsOfCommands | include/sim_accel/HYBRID_DEBUG_MAILBOX_MOCK.h:292-426 | Exactly the runs and the tripped watchpoints have an event; it names kind, reason, cycles and pc, and no other command changes the stop reason |
| MockCore.StopPointsAreSet | include/sim_accel/HYBRID_DEBUG_MAILBOX_MOCK.h:360-373 | Breakpoint and watchpoint change by their own commands alone, to the address given or to nothing |
| MockCore.StatusOfCommands | include/sim_accel/HYBRID_DEBUG_MAILBOX_MOCK.h:292-426 | The status is BAD_ADDR exactly for accesses of what does not exist, UNSUPPORTED exactly for other opcodes |
| MockCore.BreakpointStopsRun | include/sim_accel/HYBRID_DEBUG_MAILBOX_MOCK.h:360-415 | After SET_BREAKPOINT a run stops at the address if and only if it lies a whole number of instructions, at most the limit, ahead; after CLEAR_BREAKPOINT it goes to its limit |
| MockCore.WatchpointStopsAccess | include/sim_accel/HYBRID_DEBUG_MAILBOX_MOCK.h:327-383 | After SET_WATCHPOINT a memory access stops if and only if it succeeds on that very word; after CLEAR_WATCHPOINT none does |
| RunLoops.EarliestStop | include/sim_accel/HYBRID_DEBUG_MAILBOX_LOOP_RUNTIME.h:88-137 | The run stops at the first index where anything stops it, with the precedence of the code on both sides of the step; otherwise it runs exactly the limit |
| RunLoops.RunAccounts | include/sim_accel/HYBRID_DEBUG_MAILBOX_LOOP_RUNTIME.h:88-142 | At most the limit is executed; epochs, cycles and pc advance by exactly what was executed, modulo 2^64 |
| RunLoops.EpochLimitMeansLimit | include/sim_accel/HYBRID_DEBUG_MAILBOX_LOOP_RUNTIME.h:135-137 | If no step reports it, EPOCH_LIMIT is the reason if and only if nothing stopped any of the allowed epochs |
| RunLoops.RunCyclesIsBounded | include/sim_accel/HYBRID_DEBUG_MAILBOX_LOOP_RUNTIME.h:162-194 | With bounded deltas the loop ends within `target` steps and overshoots by less than one step |
| RunLoops.RunCyclesEndsExactly | include/sim_accel/HYBRID_DEBUG_MAILBOX_LOOP_RUNTIME.h:162-190 | The loop ends for all steps with deltas up to the bound if and only if the target is zero or target and bound together do not pass 2^64 |
| ClosedForm.UnitRun | include/sim_accel/HYBRID_DEBUG_MAILBOX_LOOP_RUNTIME.h:78-143 | With unit steps the stepped loop stops at the breakpoint when it lies one to `limit` steps ahead, going round, else at the limit |
| ClosedForm.ClosedFormRefinesLoop | include/sim_accel/HYBRID_DEBUG_MAILBOX_MOCK.h:385-415 | The one-shot form and the stepped loop agree on cycles, pc, epochs, reason and event if and only if the breakpoint is not the start pc and is not met by wrapping round; then the states agree once refreshed |
| Dispatch.RequestIdIsEchoed | include/sim_accel/HYBRID_DEBUG_MAILBOX_LOOP_RUNTIME.h:262-343 | The response carries the request's id if and only if the serving hook, if any, does not fail on a nonzero id and echoes it |
| Dispatch.RunCyclesReports | include/sim_accel/HYBRID_DEBUG_MAILBOX_LOOP_RUNTIME.h:145-212 | The response and the stop event of RUN_CYCLES report the executed cycles, the stop reason and the final state, split into words |
| Dispatch.RunUntilEventReports | include/sim_accel/HYBRID_DEBUG_MAILBOX_LOOP_RUNTIME.h:214-260 | The response and the stop event of RUN_UNTIL_EVENT report the executed epochs and the stop reason; a timeout has its own status |
| RunCommands.RunUntilEventByWords | include/sim_accel/HYBRID_DEBUG_MAILBOX_LOOP_RUNTIME.h:63-143 | RUN_UNTIL_EVENT stated on its words, for all steps: limit, timeout, external stop, step deltas and their defaults, the first thing that stops it, the fault it leaves, and the totals after it |
| RunCommands.RunCyclesAccounts | include/sim_accel/HYBRID_DEBUG_MAILBOX_LOOP_RUNTIME.h:162-194 | RUN_CYCLES takes steps until the target is met, a step fails or reports, the first of these; epochs, cycles and pc advance by exactly what the steps report, an empty step counting one cycle; a failed step leaves its fault, or one that says where the run stood |
| RunCommands.RunCyclesByWords | include/sim_accel/HYBRID_DEBUG_MAILBOX_LOOP_RUNTIME.h:145-212 | RUN_CYCLES stated on its words: target and reply |
| Dispatch.QuietReplies | include/sim_accel/HYBRID_DEBUG_MAILBOX_LOOP_RUNTIME.h:334-341 | A command without an event answers an empty one that shows cycles and pc of the moment |
| RunCommands.StopReasonIsAnswered | include/sim_accel/HYBRID_DEBUG_MAILBOX_LOOP_RUNTIME.h:286-289 | GET_STOP_REASON answers the last stop reason and the cycle count, low word first, and changes nothing |
| MailboxLoop.LoopServesPrefix | include/sim_accel/HYBRID_DEBUG_MAILBOX_LOOP_RUNTIME.h:362-439 | The main loop serves exactly a prefix of its commands, up to the first point where an event, the limit, a full ring or an empty queue stops it |
| MailboxLoop.MainLoopLosesNothing | include/sim_accel/HYBRID_DEBUG_MAILBOX_LOOP_RUNTIME.h:345-446 | The processed commands are answered one each, in order, id by id under echoing hooks; the rest still wait; every event is queued or handed over; the rings never exceed their room |
| MailboxLoop.LoopFaults | include/sim_accel/HYBRID_DEBUG_MAILBOX_LOOP_RUNTIME.h:363-387 | The fault a loop leaves is its last command's, or names a full ring, 1 for responses and 2 for events, with the number waiting there and the commands waiting: codes 4 and 5 do not occur |
| MailboxLoop.RunLoopIsOnePass | include/sim_accel/HYBRID_DEBUG_MAILBOX_LOOP_RUNTIME.h:471-501 | With the oldest queued event typed, or none queued, `RunLoop` returns the count, session and stop event of a single `ServeUntilEvent` |
| MailboxLoop.LoopsAgreeExactly | include/sim_accel/HYBRID_DEBUG_MAILBOX_LOOP_RUNTIME.h:345-501 | The two loops agree for all cores and all waiting commands if and only if the oldest queued event is typed or missing, or an output ring is full, or the limit is one command and that event is all zero |
| MailboxLoop.ServeWithoutPlace | include/sim_accel/HYBRID_DEBUG_MAILBOX_LOOP_RUNTIME.h:433-436 | Without a place for the stop event a single pass leaves that event queued, and differs in nothing else |
| MailboxLoop.UntypedEventSplitsThem | include/sim_accel/HYBRID_DEBUG_MAILBOX_LOOP_RUNTIME.h:485-499 | In every other case an empty RUN_CYCLES followed by a NOP tells the loops apart, whatever the core |
| MailboxSession.Session.constructor | include/sim_accel/HYBRID_DEBUG_MAILBOX_EPOCH_RUNTIME.h:71-80 | A new session is idle, refreshed, without fault, with three empty rings of capacity 32 |
| MailboxSession.Session.PushCommand | include/sim_accel/HYBRID_DEBUG_MAILBOX_EPOCH_RUNTIME.h:310-316 | Refused exactly while a command is being executed or the ring is full; a busy refusal changes nothing |
| MailboxSession.Session.RunUntilEvent | include/sim_accel/HYBRID_DEBUG_MAILBOX_LOOP_RUNTIME.h:78-143 | The in-place loop computes the specified run |
| MailboxSession.Session.ExecuteRunCycles | include/sim_accel/HYBRID_DEBUG_MAILBOX_LOOP_RUNTIME.h:145-212 | The in-place loop computes the specified run, whenever it ends |
| MailboxSession.Session.ExecuteCommand | include/sim_accel/HYBRID_DEBUG_MAILBOX_LOOP_RUNTIME.h:262-343 | The dispatcher computes the specified reply and state, reports success even when a hook fails, and is idle afterwards |
| MailboxSession.Session.Publish | include/sim_accel/HYBRID_DEBUG_MAILBOX_LOOP_RUNTIME.h:407-430 | With room tested before, both pushes succeed and no overflow is counted |
| MailboxSession.Session.MainLoop | include/sim_accel/HYBRID_DEBUG_MAILBOX_LOOP_RUNTIME.h:345-446 | The in-place loop computes the specified outcome with all overflow counts unchanged |
| MailboxSession.Session.RunLoop | include/sim_accel/HYBRID_DEBUG_MAILBOX_LOOP_RUNTIME.h:471-501 | The in-place outer loop computes the specified outcome with all overflow counts unchanged |
| Bindings.TableIsMap | include/sim_accel/HYBRID_DEBUG_MAILBOX_EPOCH_RUNTIME.h:168-227 | Over every sequence of binds keys stay distinct, at most 64, each with its last target, in first-bind order |
| Bindings.LookupIsMap | include/sim_accel/HYBRID_DEBUG_MAILBOX_EPOCH_RUNTIME.h:168-176 | Lookup finds exactly the bound keys, with their last targets |
| Bindings.CsrListingIsIndex | include/sim_accel/HYBRID_DEBUG_MAILBOX_CSR_RUNTIME.h:12-70 | Ordinals below the bound-CSR count list exactly the CSR keys in first-bind order (truncated to 32 bits); later ordinals fail |
| Bindings.DiscoveryCounts | include/sim_accel/HYBRID_DEBUG_MAILBOX_CSR_RUNTIME.h:84-96 | The count registers answer the known CSRs, the bound CSRs and the profile; the registers around them answer nothing |
| Bindings.WindowsAreSeparate | include/sim_accel/HYBRID_DEBUG_MAILBOX_CSR_RUNTIME.h:81-117 | From register 16 up, discovery reads answer as the windows say if and only if the index is below 2^32 + 32 or its ordinals, truncated to 32 bits, miss both windows |
| Bindings.BindingTable.Find | include/sim_accel/HYBRID_DEBUG_MAILBOX_EPOCH_RUNTIME.h:168-176 | The scan finds the first position of a key |
| Bindings.BindingTable.Bind | include/sim_accel/HYBRID_DEBUG_MAILBOX_EPOCH_RUNTIME.h:202-227 | The in-place bind replaces, appends or refuses as specified |
| Bindings.BindingTable.BoundCsrCount | include/sim_accel/HYBRID_DEBUG_MAILBOX_CSR_RUNTIME.h:12-21 | The scan counts the CSR bindings |
| Bindings.BindingTable.BoundCsrIndexAt | include/sim_accel/HYBRID_DEBUG_MAILBOX_CSR_RUNTIME.h:56-70 | The scan finds the CSR of an ordinal |
| Selector.ParseDecimal | include/sim_accel/HYBRID_DEBUG_MAILBOX_PRELOAD_SHARED.h:68-76 | Parsing a printed 64-bit value gives it back |
| Numerals.TextIsRead | include/sim_accel/HYBRID_DEBUG_MAILBOX_PRELOAD_SHARED.h:68-76 | What is read from every text: up to the first NUL, past leading spaces and one sign, one numeral below 2^64, a minus sign negating modulo 2^64 |
| Numerals.EveryTextSplits | include/sim_accel/HYBRID_DEBUG_MAILBOX_PRELOAD_SHARED.h:68-76 | Every text is of that form, so nothing else is read |
| Numerals.MagnitudeMeans | include/sim_accel/HYBRID_DEBUG_MAILBOX_PRELOAD_SHARED.h:68-76 | The base of every numeral by its prefix |
| Numerals.ValueIsOfDigits | include/sim_accel/HYBRID_DEBUG_MAILBOX_PRELOAD_SHARED.h:68-76 | A digit string has a value exactly when all its characters are digits of the base, in either case |
| Selector.ParseSigned | include/sim_accel/HYBRID_DEBUG_MAILBOX_PRELOAD_SHARED.h:68-76 | A signed numeral is read, a minus sign negating modulo 2^64 |
| Selector.ParsePrefixed | include/sim_accel/HYBRID_DEBUG_MAILBOX_PRELOAD_SHARED.h:68-76 | Hexadecimal and octal numerals are read by their prefix |
| Selector.ParseSkipsSpaces | include/sim_accel/HYBRID_DEBUG_MAILBOX_PRELOAD_SHARED.h:68-76 | Leading spaces never matter |
| Selector.BoundedIsUnboundedThatFits | include/sim_accel/HYBRID_DEBUG_MAILBOX_PRELOAD_SHARED.h:84-162 | The bounded parser succeeds exactly when the unbounded one does and its range fits, with the same range and no wrap |
| Selector.State0IsMembership | include/sim_accel/HYBRID_DEBUG_MAILBOX_PRELOAD_SHARED.h:164-172 | The state-0 test is membership of 0 in the selected range |
| Selector.FormatRoundTrip | include/sim_accel/HYBRID_DEBUG_MAILBOX_PRELOAD_SHARED.h:174-178 | Parsing a printed selector gives its range back if and only if it is nonempty and fits |
| Selector.ReplaceAll | include/sim_accel/HYBRID_DEBUG_MAILBOX_PRELOAD_SHARED.h:180-190 | The result is the text split at the occurrences, leftmost first, and joined with the replacement |
| Selector.JoinUndoesSplit | include/sim_accel/HYBRID_DEBUG_MAILBOX_PRELOAD_SHARED.h:180-190 | Splitting loses nothing, and no piece holds an occurrence |
| JsonString.WriteJsonString | src/passes/vlgpugen.cpp:268-303 | The output is the quoted escape of the input |
| JsonString.EscapeIsUndone | src/passes/vlgpugen.cpp:268-303 | Whatever follows, reading by section 7 of RFC 8259 gives the input back and ends at the written closing quote |
| JsonString.EscapeIsShort | src/passes/vlgpugen.cpp:270-300 | Exactly the seven short escapes take two bytes, other controls six in lower-case digits, and any other byte is itself |
| JsonString.EscapeIsPrintable | src/passes/vlgpugen.cpp:293-299 | No control byte is left in the output; bytes that need no escape stand for themselves |
| ClosedModule.CollectReachable | src/passes/vlgpugen.cpp:844-858 | Exactly the defined functions called transitively from the root, casts stripped |
| ClosedModule.MergeRuntime | src/passes/vlgpugen.cpp:217-242 | In whatever order the set is iterated, the result is the runtime set and every reachable function outside the design that calls a host-like declaration, with its first such callee as reason |
| ClosedModule.PlaceFunctions | src/passes/vlgpugen.cpp:993-1006 | The reachable functions are placed; one is runtime if and only if its name or printed text falls under the rule, or, with the merge, it calls a host declaration outside the design |
| ClosedModule.RuntimeMeans | src/passes/vlgpugen.cpp:114-158 | The classifier's rule on characters: a listed prefix followed by anything or a marker in the text, and none of the three design patterns in the name |
| ClosedModule.FirstHostIsFirst | src/passes/vlgpugen.cpp:228-238 | The host callee reported for a merge is the first in instruction order |
| ClosedModule.OutputModule.Generate | src/passes/vlgpugen.cpp:1055-1076 | The in-place steps (stub, delete, stub externs) compute the specified module |
| ClosedModule.BodiesAfterGeneration | src/passes/vlgpugen.cpp:1055-1076 | What becomes of every function, in terms of the input alone |
| ClosedModule.OutputIsClosed | src/passes/vlgpugen.cpp:1055-1076 | A GPU function is kept as it was, and every direct callee has a body or is an intrinsic; a callee reached through a cast stays a declaration exactly when no GPU function calls it directly |
| ClosedModule.DesignFunctionsSurvive | src/passes/vlgpugen.cpp:118-120 | No reachable function of the design is classified, merged, stubbed or deleted |
| ClosedModule.ForceIncludeIsMerged | src/passes/vlgpugen.cpp:225-239 | A force-included function is never classified as runtime, but is merged exactly when it is outside the design and calls a host-like declaration |
| ClosedModule.GenerateModule | src/passes/vlgpugen.cpp:993-1076 | GPU and runtime functions partition what is reachable; runtime are exactly the functions of the rule and the merge, they end as stubs, every other body is given, what is not written as it was calls nothing, and the written module is closed |
| KernelManifest.EmitPhases | src/passes/vlgpugen.cpp:1100-1148 | The manifest is the ico kernel and either every segment or the two legacy kernels; kernels built before a failing wrapper stay in the module, unlisted |
| KernelManifest.EntriesListSegments | src/passes/vlgpugen.cpp:1111-1127 | Segment `k` is listed in place `k`, by its helper when it is a helper call, else by its number, with its own kernel |
| KernelManifest.SegmentKernelsAreDistinct | src/passes/vlgpugen.cpp:1120-1122 | Segment kernels have distinct names |
| Policy.SortIsCanonical | src/grpo/train_grpo_policy_minimal.py:204-211 | Sorting does not depend on the order in which the items were collected |
| Policy.CountSupport | src/grpo/train_grpo_policy_minimal.py:212-215 | The counted support of a region is the number of pooled actions that target it |
| Policy.RarityBounds | src/grpo/train_grpo_policy_minimal.py:59-71 | Rarity lies in [0, 1], zero exactly without regions, one exactly when no two pooled actions share one of them |
| Policy.FamilyDiversityBounds | src/grpo/train_grpo_policy_minimal.py:73-87 | Family diversity lies in [0, 1], is one exactly when every region is new, zero when none is, and never rises as actions are selected |
| PolicyScores.RarityIsAverage | src/grpo/train_grpo_policy_minimal.py:59-71 | Rarity averages over regions, and one region shared by n pooled actions has rarity one n-th |
| PolicyScores.FamilyDiversityIsAverage | src/grpo/train_grpo_policy_minimal.py:73-87 | Family diversity averages over regions |
| PolicyScores.SupportCounts | src/grpo/train_grpo_policy_minimal.py:212-215 | Support is the number of pooled actions that target the region |
| PolicyScores.ScoreRises | src/grpo/train_grpo_policy_minimal.py:244-254 | With weights not negative a score rises with base, rarity, novelty, patch diversity and, in the closure profile only, family diversity, strictly where the weight is positive |
| PolicyScores.FamiliesAreWorthMore | src/grpo/train_grpo_policy_minimal.py:234-254 | One unit of family diversity is worth one and a half of patch diversity |
| Policy.SelectActions | src/grpo/train_grpo_policy_minimal.py:204-263 | The loop computes the specified selection |
| Policy.SelectionSize | src/grpo/train_grpo_policy_minimal.py:221-263 | The action list has the size of the limit or the pool, no duplicates, and only actions with enough samples |
| Policy.SelectionCount | src/grpo/train_grpo_policy_minimal.py:221-222 | All pooled actions, or as many as asked for, at least one |
| Policy.PickWins | src/grpo/train_grpo_policy_minimal.py:224-263 | Each pick in numbers: no pooled action not picked before has a larger selection score; ties go by base score, mean reward and then the smaller key |
| Policy.PoolFalls | src/grpo/train_grpo_policy_minimal.py:204-211 | The pool falls in base score, then mean reward, then samples, then rises in key |
| Policy.NoDiversityFalls | src/grpo/train_grpo_policy_minimal.py:224-263 | With zero diversity weight the list falls in static score with the same ties, and nothing left out beats a pick |
| Policy.SelectionIsGreedy | src/grpo/train_grpo_policy_minimal.py:224-263 | Each pick comes first among what remains, under the scores of that moment and the full tie-break |
| Policy.SelectionIsCanonical | src/grpo/train_grpo_policy_minimal.py:170-269 | The selection does not depend on the order in which the actions were collected |
| Policy.NoDiversityIsOneSort | src/grpo/train_grpo_policy_minimal.py:224-263 | With zero diversity weight the loop is one sort by the static score, and its prefix |
| Alignment.CauchySchwarz | src/grpo/report_grpo_reward_alignment.py:44-48 | The inner product is bounded by the norms |
| Alignment.PearsonIsCorrelation | src/grpo/report_grpo_reward_alignment.py:37-48 | Undefined exactly for unequal, short or constant sequences; otherwise within [-1, 1] |
| Alignment.PearsonBySums | src/grpo/report_grpo_reward_alignment.py:37-48 | The correlation by the raw sums of values, squares and products |
| Alignment.VarianceBySums | src/grpo/report_grpo_reward_alignment.py:30-34 | The variance is the mean square less the squared mean; fewer than two values have none |
| Alignment.DeviationsBalance | src/grpo/report_grpo_reward_alignment.py:26-27 | The mean is where the deviations sum to zero |
| Alignment.ConstantHasNoCorrelation | src/grpo/report_grpo_reward_alignment.py:37-48 | A constant sequence has norm zero and no correlation |
| Alignment.PearsonIsScaleFree | src/grpo/report_grpo_reward_alignment.py:37-48 | A positive affine rescaling of one side changes no correlation |
| Alignment.ClassIsScaleFree | src/grpo/report_grpo_reward_alignment.py:78-102 | The alignment class does not depend on the unit or the origin of the rewards |
| Alignment.ConstantClassesMeanConstant | src/grpo/report_grpo_reward_alignment.py:86-89 | The first two classes hold exactly for constant rewards, and for varying rewards with only constant metrics |
| Alignment.ClassesByCorrelation | src/grpo/report_grpo_reward_alignment.py:78-102 | Each of the five classes, if and only if, by the variance and the four correlations with their thresholds |

## Left out

- Real LLVM IR: PHI nodes, attributes, comdats, aliases, metadata, the TBAA offset search and the NVPTX target; regions are straight blocks over registers, and a phi in a region is not represented.
- Any claim that the kernel sequence equals `vl_eval_batch_gpu`: the ico kernel and the convergence bookkeeping of eval are not replayed.
- Meaning of the two legacy kernels that are emitted when the split is refused; only the manifest that lists them is modelled.
- CUDA calls, timing, warm-up launches, stack limits, environment variables and file handling of the host program.
- HybridHost.RunSteps: launching is a parameter that either fails or leaves what a complete launch can leave; waiting for the device is not modelled, since launches of one stream run in order.
- KernelLaunch.LaunchIsPerState: a thread takes a step at a time over its own slice; weak memory order between threads does not matter there and is not modelled. Launches that never complete are not described.
- Convergence.PassFunction.RunPass: the branch driven by a compare is the first one in layout order, where the source takes the first user of the compare; a phi and its start value are a counter reset before the loop.
- MailboxSession.Session.ExecuteRunCycles: requires that the loop ends; `RunLoops.RunCyclesEndsExactly` says when it does for all steps.
- MailboxSession.Session.MainLoop: requires valid rings, pointers that are not null, and RUN_CYCLES loops that end.
- Dispatch.RequestIdIsEchoed: hooks see the session's core but not its rings; the step callback is a sequence of answers, by the number of calls before.
- ClosedModule.OutputIsClosed: global aliases and host-only globals are not modelled.
- ClosedModule.CollectReachable: the search for the eval function by name is not modelled; the root is given.
- JsonString.EscapeIsUndone: the reader handles escapes of ASCII code points only; the writer produces no others.
- Selector.ParseDecimal: the numeral grammar is the C library's in base 0 without binary literals and locale digits.
- Policy.SelectionIsGreedy: sums of rewards, the frequency-novelty root, the patch diversity score and the softmax are given; the files they come from, or real square roots, are not part of this model.
- Alignment.PearsonIsCorrelation: the square roots are given as exact norms; quartile gaps are not modelled.
- Memory bindings, which repeat the register binding table with other fields, and the fixed-size epoch helpers.
- The mailbox bench script, the host probes, the report writers and the remaining scripts of `src/grpo`, `src/rocm`, `src/runners`, `src/meta`, `src/generators` and `complexity_audit`.
