/** The host program: upload of the initial state, then patches and kernel chain, step after step. */
module HybridHost {
  import opened Prelude
  import opened Cfg
  import opened BatchLaunch
  import opened KernelLaunch

  /** One byte of the device buffer set before every step. */
  datatype Patch = Patch(globalOff: nat, val: Byte)

  predicate PatchesFit(patches: seq<Patch>, total: nat) {
    forall i | 0 <= i < |patches| :: patches[i].globalOff < total
  }

  function ApplyPatches(m: Mem, patches: seq<Patch>): (r: Mem)
    requires PatchesFit(patches, |m|)
    ensures |r| == |m|
  {
    if patches == [] then m
    else
      var last := |patches| - 1;
      ApplyPatches(m, patches[..last])[patches[last].globalOff := patches[last].val]
  }

  // ---- what a run leaves in the buffer -----------------------------------------------------------------------------------

  /** The kernels of one step, launched one after another: each launch complete, its threads interleaved at will. */
  ghost predicate ChainLaunched(kernels: seq<Kernel>, hs: Helpers, storage: nat, l: Launch, m: Mem, m': Mem)
    requires l.Valid() && IsBuffer(m, storage, l.nstates)
  {
    if kernels == [] then m' == m
    else
      var last := |kernels| - 1;
      exists m1: Mem :: IsBuffer(m1, storage, l.nstates) && ChainLaunched(kernels[..last], hs, storage, l, m, m1)
                        && Launched(kernels[last], hs, storage, l, m1, m')
  }

  /** Any number of steps: the patches, then the kernels. */
  ghost predicate StepsLaunched(
      patches: seq<Patch>, kernels: seq<Kernel>, hs: Helpers, storage: nat, l: Launch, m: Mem, m': Mem, steps: nat)
    requires l.Valid() && IsBuffer(m, storage, l.nstates) && PatchesFit(patches, |m|)
    decreases steps
  {
    if steps == 0 then m' == m
    else exists m1: Mem :: IsBuffer(m1, storage, l.nstates) && StepsLaunched(patches, kernels, hs, storage, l, m, m1, steps - 1)
                           && ChainLaunched(kernels, hs, storage, l, ApplyPatches(m1, patches), m')
  }

  // ---- the host's loops --------------------------------------------------------------------------------------------------

  /** The part of the patch loop before the first offset outside the buffer. */
  function FittingPrefix(patches: seq<Patch>, total: nat): (n: nat)
    ensures n <= |patches| && PatchesFit(patches[..n], total)
    ensures n < |patches| ==> patches[n].globalOff >= total
  {
    if patches == [] then 0
    else if patches[0].globalOff >= total then 0
    else
      var n := 1 + FittingPrefix(patches[1..], total);
      assert patches[..n] == [patches[0]] + patches[1..][..n - 1];
      n
  }

  /** Write the patches in order; stop at the first one outside the buffer. */
  method WritePatches(buf: array<Byte>, patches: seq<Patch>) returns (ok: bool)
    modifies buf
    ensures ok <==> PatchesFit(patches, buf.Length)
    ensures ok ==> PatchesFit(patches, |old(buf[..])|) && buf[..] == ApplyPatches(old(buf[..]), patches)
    ensures !ok ==> exists n | 0 <= n < |patches| ::
              patches[n].globalOff >= buf.Length && PatchesFit(patches[..n], buf.Length)
              && buf[..] == ApplyPatches(old(buf[..]), patches[..n])
  {
    for i := 0 to |patches|
      invariant PatchesFit(patches[..i], buf.Length)
      invariant buf[..] == ApplyPatches(old(buf[..]), patches[..i])
    {
      if patches[i].globalOff >= buf.Length {
        return false;
      }
      assert patches[..i + 1][..i] == patches[..i];
      buf[patches[i].globalOff] := patches[i].val;
    }
    assert patches[..|patches|] == patches;
    return true;
  }

  /** The GPU: what a launch leaves in the buffer, or nothing when it fails. A launch that succeeds is complete. */
  type Gpu = (Kernel, Mem) -> Option<Mem>

  ghost predicate Drives(gpu: Gpu, hs: Helpers, storage: nat, l: Launch)
    requires l.Valid()
  {
    forall k: Kernel, m: Mem :: IsBuffer(m, storage, l.nstates) && gpu(k, m).Some? ==>
      IsBuffer(gpu(k, m).value, storage, l.nstates) && Launched(k, hs, storage, l, m, gpu(k, m).value)
  }

  lemma ChainGrows(kernels: seq<Kernel>, i: nat, hs: Helpers, storage: nat, l: Launch, m: Mem, m1: Mem, m': Mem)
    requires l.Valid() && IsBuffer(m, storage, l.nstates) && IsBuffer(m1, storage, l.nstates) && i < |kernels|
    requires ChainLaunched(kernels[..i], hs, storage, l, m, m1) && Launched(kernels[i], hs, storage, l, m1, m')
    ensures ChainLaunched(kernels[..i + 1], hs, storage, l, m, m')
  {
    assert kernels[..i + 1][..i] == kernels[..i];
  }

  method LaunchChain(buf: array<Byte>, storage: nat, l: Launch, kernels: seq<Kernel>, gpu: Gpu, ghost hs: Helpers)
    returns (ok: bool)
    requires l.Valid() && Drives(gpu, hs, storage, l) && IsBuffer(buf[..], storage, l.nstates)
    modifies buf
    ensures IsBuffer(buf[..], storage, l.nstates)
    ensures ok ==> ChainLaunched(kernels, hs, storage, l, old(buf[..]), buf[..])
    ensures !ok ==> exists k, m | k in kernels :: gpu(k, m) == None
  {
    hide Launched, ChainLaunched;
    ghost var was := buf[..];
    NoKernels(hs, storage, l, was);
    for k := 0 to |kernels|
      invariant IsBuffer(buf[..], storage, l.nstates)
      invariant ChainLaunched(kernels[..k], hs, storage, l, was, buf[..])
    {
      ghost var before := buf[..];
      var after := gpu(kernels[k], buf[..]);
      if after.None? { return false; }
      WriteSlice(buf, 0, after.value);
      assert buf[..] == after.value;
      ChainGrows(kernels, k, hs, storage, l, was, before, buf[..]);
    }
    assert kernels[..|kernels|] == kernels;
    return true;
  }

  lemma NoKernels(hs: Helpers, storage: nat, l: Launch, m: Mem)
    requires l.Valid() && IsBuffer(m, storage, l.nstates)
    ensures ChainLaunched([], hs, storage, l, m, m)
  {
  }

  datatype HostResult = Finished | BadPatch | LaunchFailed

  /** The step loop. A patch outside the buffer ends the run during the first step, before any kernel. */
  method RunSteps(buf: array<Byte>, storage: nat, l: Launch, steps: nat, patches: seq<Patch>, kernels: seq<Kernel>,
                  gpu: Gpu, ghost hs: Helpers)
    returns (result: HostResult)
    requires l.Valid() && Drives(gpu, hs, storage, l) && IsBuffer(buf[..], storage, l.nstates)
    modifies buf
    ensures result == BadPatch <==> steps > 0 && !PatchesFit(patches, buf.Length)
    ensures result == Finished && steps > 0 ==>
              PatchesFit(patches, |old(buf[..])|)
              && StepsLaunched(patches, kernels, hs, storage, l, old(buf[..]), buf[..], steps)
    ensures result == BadPatch ==> exists n | 0 <= n < |patches| ::
              patches[n].globalOff >= buf.Length && PatchesFit(patches[..n], buf.Length)
              && buf[..] == ApplyPatches(old(buf[..]), patches[..n])
    ensures result == LaunchFailed ==> exists k, m | k in kernels :: gpu(k, m) == None
    ensures steps == 0 ==> result == Finished && buf[..] == old(buf[..])
  {
    hide ChainLaunched;
    ghost var was := buf[..];
    for s := 0 to steps
      invariant s > 0 ==> PatchesFit(patches, buf.Length)
      invariant IsBuffer(buf[..], storage, l.nstates)
      invariant PatchesFit(patches, buf.Length) ==> StepsLaunched(patches, kernels, hs, storage, l, was, buf[..], s)
      invariant s == 0 ==> buf[..] == was
    {
      ghost var before := buf[..];
      var fit := WritePatches(buf, patches);
      if !fit {
        return BadPatch;
      }
      var launched := LaunchChain(buf, storage, l, kernels, gpu, hs);
      if !launched {
        return LaunchFailed;
      }
      assert StepsLaunched(patches, kernels, hs, storage, l, was, before, s);
    }
    return Finished;
  }

  // ---- state by state --------------------------------------------------------------------------------------------------

  /** A patch as state `g` sees it. */
  function PatchState(p: Patch, storage: nat, g: nat, s: Mem): (r: Mem)
    requires |s| == storage
    ensures |r| == storage
  {
    if Base(g, storage) <= p.globalOff < Base(g, storage) + storage
    then s[p.globalOff - Base(g, storage) := p.val] else s
  }

  function PatchesState(patches: seq<Patch>, storage: nat, g: nat, s: Mem): (r: Mem)
    requires |s| == storage
    ensures |r| == storage
  {
    if patches == [] then s
    else PatchState(patches[|patches| - 1], storage, g, PatchesState(patches[..|patches| - 1], storage, g, s))
  }

  /** The kernels one after another, on one state alone. */
  ghost predicate StateChain(kernels: seq<Kernel>, hs: Helpers, s: Mem, s': Mem) {
    if kernels == [] then s' == s
    else
      var last := |kernels| - 1;
      exists s1: Mem :: StateChain(kernels[..last], hs, s, s1) && KernelYields(kernels[last], hs, s1, Done(s'))
  }

  /** Any number of steps on state `g` alone: its own patches, then the kernels. */
  ghost predicate StateRuns(
      patches: seq<Patch>, kernels: seq<Kernel>, hs: Helpers, storage: nat, g: nat, s: Mem, s': Mem, steps: nat)
    decreases steps
  {
    if steps == 0 then s' == s
    else exists s1: Mem :: |s1| == storage && StateRuns(patches, kernels, hs, storage, g, s, s1, steps - 1)
                           && StateChain(kernels, hs, PatchesState(patches, storage, g, s1), s')
  }

  lemma PatchOneSlice(m: Mem, p: Patch, storage: nat, nstates: nat, g: nat)
    requires IsBuffer(m, storage, nstates) && g < nstates && p.globalOff < |m|
    ensures Slice(m[p.globalOff := p.val], storage, nstates, g) == PatchState(p, storage, g, Slice(m, storage, nstates, g))
  {
    SliceIsAtOffset(m, storage, nstates, g);
    SliceIsAtOffset(m[p.globalOff := p.val], storage, nstates, g);
  }

  lemma {:induction false} PatchesSlice(m: Mem, patches: seq<Patch>, storage: nat, nstates: nat, g: nat)
    requires IsBuffer(m, storage, nstates) && g < nstates && PatchesFit(patches, |m|)
    ensures Slice(ApplyPatches(m, patches), storage, nstates, g) == PatchesState(patches, storage, g, Slice(m, storage, nstates, g))
  {
    if patches != [] {
      var last := |patches| - 1;
      PatchesSlice(m, patches[..last], storage, nstates, g);
      PatchOneSlice(ApplyPatches(m, patches[..last]), patches[last], storage, nstates, g);
    }
  }

  lemma {:induction false} StateChainKeepsSize(kernels: seq<Kernel>, hs: Helpers, s: Mem, s': Mem)
    requires StateChain(kernels, hs, s, s')
    ensures |s'| == |s|
  {
    if kernels != [] {
      var last := |kernels| - 1;
      var s1: Mem :| StateChain(kernels[..last], hs, s, s1) && KernelYields(kernels[last], hs, s1, Done(s'));
      StateChainKeepsSize(kernels[..last], hs, s, s1);
      KernelKeepsSize(kernels[last], hs, s1, s');
    }
  }

  /** Every state has gone through the kernels. */
  ghost predicate EachChained(kernels: seq<Kernel>, hs: Helpers, storage: nat, nstates: nat, m: Mem, m': Mem)
    requires IsBuffer(m, storage, nstates) && IsBuffer(m', storage, nstates)
  {
    forall g: nat | g < nstates :: StateChain(kernels, hs, Slice(m, storage, nstates, g), Slice(m', storage, nstates, g))
  }

  /** A state between the last kernel and the ones before it. */
  ghost function BeforeLast(kernels: seq<Kernel>, hs: Helpers, s: Mem, s': Mem): (s1: Mem)
    requires kernels != [] && StateChain(kernels, hs, s, s')
    ensures |s1| == |s| && StateChain(kernels[..|kernels| - 1], hs, s, s1)
    ensures KernelYields(kernels[|kernels| - 1], hs, s1, Done(s'))
  {
    var s1: Mem :| StateChain(kernels[..|kernels| - 1], hs, s, s1) && KernelYields(kernels[|kernels| - 1], hs, s1, Done(s'));
    StateChainKeepsSize(kernels[..|kernels| - 1], hs, s, s1);
    s1
  }

  lemma ChainSplits(kernels: seq<Kernel>, hs: Helpers, storage: nat, nstates: nat, m: Mem, m': Mem) returns (m1: Mem)
    requires IsBuffer(m, storage, nstates) && IsBuffer(m', storage, nstates) && kernels != []
    requires EachChained(kernels, hs, storage, nstates, m, m')
    ensures IsBuffer(m1, storage, nstates) && EachChained(kernels[..|kernels| - 1], hs, storage, nstates, m, m1)
    ensures MapsStates(kernels[|kernels| - 1], hs, storage, nstates, m1, m')
  {
    hide Slice, StateChain, KernelYields;
    var slices := seq(nstates, g requires 0 <= g < nstates =>
      BeforeLast(kernels, hs, Slice(m, storage, nstates, g), Slice(m', storage, nstates, g)));
    m1 := Joined(slices, storage);
    forall g: nat | g < nstates ensures Slice(m1, storage, nstates, g) == slices[g] { JoinedSlices(slices, storage, g); }
  }

  lemma {:induction false} ChainIsPerState(kernels: seq<Kernel>, hs: Helpers, storage: nat, l: Launch, m: Mem, m': Mem)
    requires l.Fits() && IsBuffer(m, storage, l.nstates)
    ensures ChainLaunched(kernels, hs, storage, l, m, m')
       <==> IsBuffer(m', storage, l.nstates) && EachChained(kernels, hs, storage, l.nstates, m, m')
    decreases |kernels|
  {
    if kernels == [] {
      if IsBuffer(m', storage, l.nstates) && EachChained(kernels, hs, storage, l.nstates, m, m') {
        SlicesDetermine(m, m', storage, l.nstates);
      }
    } else {
      var front, k := kernels[..|kernels| - 1], kernels[|kernels| - 1];
      if ChainLaunched(kernels, hs, storage, l, m, m') {
        var m1: Mem :| IsBuffer(m1, storage, l.nstates) && ChainLaunched(front, hs, storage, l, m, m1)
                       && Launched(k, hs, storage, l, m1, m');
        ChainIsPerState(front, hs, storage, l, m, m1);
        LaunchIsPerState(k, hs, storage, l, m1, m');
        ChainJoins(kernels, hs, storage, l.nstates, m, m1, m');
      }
      if IsBuffer(m', storage, l.nstates) && EachChained(kernels, hs, storage, l.nstates, m, m') {
        var m1 := ChainSplits(kernels, hs, storage, l.nstates, m, m');
        ChainIsPerState(front, hs, storage, l, m, m1);
        LaunchIsPerState(k, hs, storage, l, m1, m');
      }
    }
  }

  lemma ChainJoins(kernels: seq<Kernel>, hs: Helpers, storage: nat, nstates: nat, m: Mem, m1: Mem, m': Mem)
    requires IsBuffer(m, storage, nstates) && IsBuffer(m1, storage, nstates) && IsBuffer(m', storage, nstates) && kernels != []
    requires EachChained(kernels[..|kernels| - 1], hs, storage, nstates, m, m1)
    requires MapsStates(kernels[|kernels| - 1], hs, storage, nstates, m1, m')
    ensures EachChained(kernels, hs, storage, nstates, m, m')
  {
    hide Slice, KernelYields;
  }

  /** Every state has gone through the steps with its own patches. */
  ghost predicate EachRuns(
      patches: seq<Patch>, kernels: seq<Kernel>, hs: Helpers, storage: nat, nstates: nat, m: Mem, m': Mem, steps: nat)
    requires IsBuffer(m, storage, nstates) && IsBuffer(m', storage, nstates)
  {
    forall g: nat | g < nstates ::
      StateRuns(patches, kernels, hs, storage, g, Slice(m, storage, nstates, g), Slice(m', storage, nstates, g), steps)
  }

  ghost function BeforeStep(patches: seq<Patch>, kernels: seq<Kernel>, hs: Helpers, storage: nat, g: nat, s: Mem, s': Mem, steps: nat)
    : (s1: Mem)
    requires steps > 0 && StateRuns(patches, kernels, hs, storage, g, s, s', steps)
    ensures |s1| == storage && StateRuns(patches, kernels, hs, storage, g, s, s1, steps - 1)
    ensures StateChain(kernels, hs, PatchesState(patches, storage, g, s1), s')
  {
    var s1: Mem :| |s1| == storage && StateRuns(patches, kernels, hs, storage, g, s, s1, steps - 1)
                   && StateChain(kernels, hs, PatchesState(patches, storage, g, s1), s');
    s1
  }

  lemma StepSplits(patches: seq<Patch>, kernels: seq<Kernel>, hs: Helpers, storage: nat, nstates: nat, m: Mem, m': Mem, steps: nat)
    returns (m1: Mem)
    requires IsBuffer(m, storage, nstates) && IsBuffer(m', storage, nstates) && PatchesFit(patches, |m|) && steps > 0
    requires EachRuns(patches, kernels, hs, storage, nstates, m, m', steps)
    ensures IsBuffer(m1, storage, nstates) && EachRuns(patches, kernels, hs, storage, nstates, m, m1, steps - 1)
    ensures EachChained(kernels, hs, storage, nstates, ApplyPatches(m1, patches), m')
  {
    hide Slice, StateChain, StateRuns, PatchesState, ApplyPatches;
    var slices := seq(nstates, g requires 0 <= g < nstates =>
      BeforeStep(patches, kernels, hs, storage, g, Slice(m, storage, nstates, g), Slice(m', storage, nstates, g), steps));
    m1 := Joined(slices, storage);
    forall g: nat | g < nstates
      ensures Slice(m1, storage, nstates, g) == slices[g]
      ensures Slice(ApplyPatches(m1, patches), storage, nstates, g) == PatchesState(patches, storage, g, slices[g])
    {
      JoinedSlices(slices, storage, g);
      PatchesSlice(m1, patches, storage, nstates, g);
    }
  }

  lemma StepJoins(patches: seq<Patch>, kernels: seq<Kernel>, hs: Helpers, storage: nat, nstates: nat, m: Mem, m1: Mem, m': Mem, steps: nat)
    requires IsBuffer(m, storage, nstates) && IsBuffer(m1, storage, nstates) && IsBuffer(m', storage, nstates)
    requires PatchesFit(patches, |m|) && steps > 0
    requires EachRuns(patches, kernels, hs, storage, nstates, m, m1, steps - 1)
    requires EachChained(kernels, hs, storage, nstates, ApplyPatches(m1, patches), m')
    ensures EachRuns(patches, kernels, hs, storage, nstates, m, m', steps)
  {
    hide Slice, StateChain, PatchesState, ApplyPatches;
    forall g: nat | g < nstates
      ensures StateRuns(patches, kernels, hs, storage, g, Slice(m, storage, nstates, g), Slice(m', storage, nstates, g), steps)
    {
      PatchesSlice(m1, patches, storage, nstates, g);
      assert |Slice(m1, storage, nstates, g)| == storage;
    }
  }

  /**
   Batch equals map. After any number of steps, with the patches written before each and every launch interleaved at
   will, the buffer can hold `m'` if and only if every state of `m'` is what its own patches and the kernels, in order,
   make of that state alone.
   */
  lemma {:induction false} BatchEqualsMap(
      patches: seq<Patch>, kernels: seq<Kernel>, hs: Helpers, storage: nat, l: Launch, m: Mem, m': Mem, steps: nat)
    requires l.Fits() && IsBuffer(m, storage, l.nstates) && PatchesFit(patches, |m|)
    ensures StepsLaunched(patches, kernels, hs, storage, l, m, m', steps)
       <==> IsBuffer(m', storage, l.nstates) && EachRuns(patches, kernels, hs, storage, l.nstates, m, m', steps)
    decreases steps
  {
    hide ChainLaunched, EachChained;
    if steps == 0 {
      if IsBuffer(m', storage, l.nstates) && EachRuns(patches, kernels, hs, storage, l.nstates, m, m', steps) {
        SlicesDetermine(m, m', storage, l.nstates);
      }
    } else {
      hide EachRuns;
      if StepsLaunched(patches, kernels, hs, storage, l, m, m', steps) {
        var m1: Mem :| IsBuffer(m1, storage, l.nstates) && StepsLaunched(patches, kernels, hs, storage, l, m, m1, steps - 1)
                       && ChainLaunched(kernels, hs, storage, l, ApplyPatches(m1, patches), m');
        BatchEqualsMap(patches, kernels, hs, storage, l, m, m1, steps - 1);
        ChainIsPerState(kernels, hs, storage, l, ApplyPatches(m1, patches), m');
        StepJoins(patches, kernels, hs, storage, l.nstates, m, m1, m', steps);
      }
      if IsBuffer(m', storage, l.nstates) && EachRuns(patches, kernels, hs, storage, l.nstates, m, m', steps) {
        var m1 := StepSplits(patches, kernels, hs, storage, l.nstates, m, m', steps);
        BatchEqualsMap(patches, kernels, hs, storage, l, m, m1, steps - 1);
        ChainIsPerState(kernels, hs, storage, l, ApplyPatches(m1, patches), m');
      }
    }
  }

  // ---- initial state ---------------------------------------------------------------------------------------------------

  /** A state image fills the whole buffer, or one state image is copied to every state; any other size is refused. */
  method UploadInitState(buf: array<Byte>, image: Mem, storage: nat, nstates: nat) returns (ok: bool)
    requires IsBuffer(buf[..], storage, nstates) && 0 < nstates
    modifies buf
    ensures ok <==> |image| == storage || |image| == buf.Length
    ensures ok && |image| == buf.Length ==> buf[..] == image
    ensures IsBuffer(buf[..], storage, nstates)
    ensures ok && |image| != buf.Length ==> forall g: nat | g < nstates :: Slice(buf[..], storage, nstates, g) == image
    ensures !ok ==> buf[..] == old(buf[..])
  {
    if |image| != storage && |image| != buf.Length {
      return false;
    }
    if |image| == buf.Length {
      WriteSlice(buf, 0, image);
      return true;
    }
    for state := 0 to nstates
      invariant IsBuffer(buf[..], storage, nstates)
      invariant forall g: nat | g < state :: Slice(buf[..], storage, nstates, g) == image
    {
      ghost var was := buf[..];
      BaseIsProduct(state, storage);
      PutIsAtOffset(was, storage, nstates, state, image);
      WriteSlice(buf, state * storage, image);
      assert buf[..] == PutSlice(was, storage, nstates, state, image);
      forall g: nat | g <= state ensures Slice(buf[..], storage, nstates, g) == image {
        PutThenSlice(was, storage, nstates, state, image, g);
      }
    }
    return true;
  }
}
