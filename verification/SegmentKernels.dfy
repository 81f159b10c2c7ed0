/** From the segment wrappers to the GPU: the emitted kernels, launched over all states, step after step. */
module SegmentKernels {
  import opened Prelude
  import opened Cfg
  import opened Segments
  import opened Wrapper
  import opened BatchLaunch
  import opened KernelLaunch
  import opened HybridHost
  import opened SplitMeaning
  import opened SplitTheorem

  /** One kernel per wrapper, in segment order. */
  function KernelsOf(ws: seq<Function>, v: Option<VlSyms>): (r: seq<Kernel>)
    ensures |r| == |ws| && forall i | 0 <= i < |ws| :: r[i] == Kernel([ws[i]], v)
  {
    seq(|ws|, i requires 0 <= i < |ws| => Kernel([ws[i]], v))
  }

  predicate SymsStored(v: Option<VlSyms>, m: Mem) {
    StoreSyms(v, m) == Some(m)
  }

  /** The segments never write the symbol-table pointer (trivially so when no kernel stores it). */
  ghost predicate SegmentsKeepSyms(ws: seq<Function>, hs: Helpers, v: Option<VlSyms>) {
    forall i, m: Mem, m': Mem | 0 <= i < |ws| && SymsStored(v, m) && Yields(ws[i], hs, m, Done(m')) :: SymsStored(v, m')
  }

  lemma StoreIsIdempotent(v: Option<VlSyms>, m: Mem)
    requires StoreSyms(v, m).Some?
    ensures SymsStored(v, StoreSyms(v, m).value)
  {
    match v {
      case None =>
      case Some(s) =>
        var r := StoreSyms(v, m).value;
        assert r[..s.off] == m[..s.off] && r[s.off + |s.bytes|..] == m[s.off + |s.bytes|..];
    }
  }

  lemma SingleCallee(w: Function, hs: Helpers, m: Mem, o: Outcome)
    ensures ChainYields([w], hs, m, o) <==> Yields(w, hs, m, o)
  {
    if ChainYields([w], hs, m, o) {
      var n: nat :| RunChain([w], hs, m, n) == o;
      assert [w][1..] == [] && forall m' :: RunChain([], hs, m', n) == Done(m');
      assert Run(w, hs, 0, map[], m, n) == o;
    }
    if Yields(w, hs, m, o) {
      var n: nat :| Run(w, hs, 0, map[], m, n) == o;
      assert [w][1..] == [];
      assert RunChain([w], hs, m, n) == o;
    }
  }

  // ---- one more function at the end of a chain ---------------------------------------------------------------------------

  lemma {:induction false} RunChainThen(ws: seq<Function>, w: Function, hs: Helpers, m: Mem, n: nat)
    ensures RunChain(ws + [w], hs, m, n) ==
            match RunChain(ws, hs, m, n) case Done(m1) => Run(w, hs, 0, map[], m1, n) case o => o
  {
    if ws == [] {
      assert ws + [w] == [w] && [w][1..] == [];
    } else {
      assert (ws + [w])[1..] == ws[1..] + [w];
      match Run(ws[0], hs, 0, map[], m, n) {
        case Done(m1) => RunChainThen(ws[1..], w, hs, m1, n);
        case _ =>
      }
    }
  }

  lemma ChainThen(ws: seq<Function>, w: Function, hs: Helpers, m: Mem, m': Mem)
    ensures ChainYields(ws + [w], hs, m, Done(m'))
       <==> exists m1: Mem :: ChainYields(ws, hs, m, Done(m1)) && Yields(w, hs, m1, Done(m'))
  {
    if ChainYields(ws + [w], hs, m, Done(m')) {
      var n: nat :| RunChain(ws + [w], hs, m, n) == Done(m');
      RunChainThen(ws, w, hs, m, n);
      assert ChainYields(ws, hs, m, Done(RunChain(ws, hs, m, n).mem));
    }
    if m1: Mem :| ChainYields(ws, hs, m, Done(m1)) && Yields(w, hs, m1, Done(m')) {
      var i: nat :| RunChain(ws, hs, m, i) == Done(m1);
      var j: nat :| Run(w, hs, 0, map[], m1, j) == Done(m');
      ChainMonotone(ws, hs, m, i, i + j);
      RunMonotone(w, hs, 0, map[], m1, j, i + j);
      RunChainThen(ws, w, hs, m, i + j);
    }
  }

  lemma {:induction false} ChainKeepsSyms(ws: seq<Function>, hs: Helpers, v: Option<VlSyms>, m: Mem, m': Mem)
    requires SegmentsKeepSyms(ws, hs, v) && SymsStored(v, m) && ChainYields(ws, hs, m, Done(m'))
    ensures SymsStored(v, m')
    decreases |ws|
  {
    var n: nat :| RunChain(ws, hs, m, n) == Done(m');
    if ws != [] {
      var m1 := Run(ws[0], hs, 0, map[], m, n).mem;
      assert Yields(ws[0], hs, m, Done(m1)) && SymsStored(v, m1);
      assert RunChain(ws[1..], hs, m1, n) == Done(m');
      ChainKeepsSyms(ws[1..], hs, v, m1, m');
    }
  }

  // ---- the segment kernels ----------------------------------------------------------------------------------------------

  lemma LastKernel(ws: seq<Function>, v: Option<VlSyms>)
    requires ws != []
    ensures KernelsOf(ws, v)[..|ws| - 1] == KernelsOf(ws[..|ws| - 1], v)
    ensures KernelsOf(ws, v)[|ws| - 1] == Kernel([ws[|ws| - 1]], v)
  {
  }

  lemma SingleKernel(k: Kernel, hs: Helpers, s: Mem, s': Mem)
    ensures StateChain([k], hs, s, s') <==> KernelYields(k, hs, s, Done(s'))
  {
    assert [k][..0] == [];
    assert StateChain([], hs, s, s);
    if StateChain([k], hs, s, s') {
      var s1: Mem :| StateChain([k][..0], hs, s, s1) && KernelYields(k, hs, s1, Done(s'));
    }
  }

  /** With the pointer stored already, a one-callee kernel does what its callee does. */
  lemma StoredKernel(w: Function, hs: Helpers, v: Option<VlSyms>, s: Mem, o: Outcome)
    requires SymsStored(v, s)
    ensures KernelYields(Kernel([w], v), hs, s, o) <==> Yields(w, hs, s, o)
  {
    SingleCallee(w, hs, s, o);
  }

  /** What the segment kernels do to a state one after another is what one kernel calling all the segments does. */
  lemma {:induction false} KernelsCompose(ws: seq<Function>, hs: Helpers, v: Option<VlSyms>, s: Mem, s': Mem)
    requires ws != [] && SegmentsKeepSyms(ws, hs, v)
    ensures StateChain(KernelsOf(ws, v), hs, s, s') <==> KernelYields(Kernel(ws, v), hs, s, Done(s'))
    decreases |ws|
  {
    var front, w := ws[..|ws| - 1], ws[|ws| - 1];
    assert ws == front + [w];
    LastKernel(ws, v);
    if front == [] {
      assert KernelsOf(ws, v) == [Kernel([w], v)];
      SingleKernel(Kernel([w], v), hs, s, s');
    } else {
      forall s1: Mem
        ensures StateChain(KernelsOf(front, v), hs, s, s1) <==> KernelYields(Kernel(front, v), hs, s, Done(s1))
      {
        KernelsCompose(front, hs, v, s, s1);
      }
      FrontThenLast(front, w, hs, v, s, s');
    }
  }

  lemma FrontThenLast(front: seq<Function>, w: Function, hs: Helpers, v: Option<VlSyms>, s: Mem, s': Mem)
    requires SegmentsKeepSyms(front + [w], hs, v)
    ensures (exists s1: Mem :: KernelYields(Kernel(front, v), hs, s, Done(s1)) && KernelYields(Kernel([w], v), hs, s1, Done(s')))
       <==> KernelYields(Kernel(front + [w], v), hs, s, Done(s'))
  {
    hide ChainYields, Yields;
    if StoreSyms(v, s).Some? {
      var stored := StoreSyms(v, s).value;
      StoreIsIdempotent(v, s);
      KeepsFront(front, w, hs, v);
      ChainThen(front, w, hs, stored, s');
      if s1: Mem :| KernelYields(Kernel(front, v), hs, s, Done(s1)) && KernelYields(Kernel([w], v), hs, s1, Done(s')) {
        ChainKeepsSyms(front, hs, v, stored, s1);
        StoredKernel(w, hs, v, s1, Done(s'));
      }
      if s1: Mem :| ChainYields(front, hs, stored, Done(s1)) && Yields(w, hs, s1, Done(s')) {
        ChainKeepsSyms(front, hs, v, stored, s1);
        StoredKernel(w, hs, v, s1, Done(s'));
        assert KernelYields(Kernel(front, v), hs, s, Done(s1));
      }
    }
  }

  lemma KeepsFront(front: seq<Function>, w: Function, hs: Helpers, v: Option<VlSyms>)
    requires SegmentsKeepSyms(front + [w], hs, v)
    ensures SegmentsKeepSyms(front, hs, v)
  {
    forall i, m: Mem, m': Mem | 0 <= i < |front| && SymsStored(v, m) && Yields(front[i], hs, m, Done(m'))
      ensures SymsStored(v, m')
    {
      assert (front + [w])[i] == front[i];
    }
  }

  /** The segment kernels of an accepted `___eval_nba` do to one state what one kernel calling it does. */
  lemma SegmentChainIsEvalNba(
      f: Function, defined: set<FuncName>, segs: seq<Segment>, ws: seq<Function>, hs: Helpers, v: Option<VlSyms>, s: Mem, s': Mem)
    requires WellFormed(f) && Extract(f, defined) == Some(segs) && Assumed(f, segs)
    requires forall i | 0 <= i < |segs| :: segs[i].guard.triggerPtr.Gep?
    requires WrapAll(f, segs) == Some(ws) && SegmentsKeepSyms(ws, hs, v)
    ensures StateChain(KernelsOf(ws, v), hs, s, s') <==> StateChain([Kernel([f], v)], hs, s, s')
  {
    hide WellFormed, Assumed, SegmentsKeepSyms, ChainYields, Yields, StateChain, KernelsOf;
    WrapAllPointwise(f, segs);
    KernelsCompose(ws, hs, v, s, s');
    SingleKernel(Kernel([f], v), hs, s, s');
    if StoreSyms(v, s).Some? {
      var stored := StoreSyms(v, s).value;
      SplitPreservesMeaning(f, defined, segs, ws, hs, stored, Done(s'));
      SingleCallee(f, hs, stored, Done(s'));
    }
  }

  lemma {:induction false} SameChainSameRuns(
      patches: seq<Patch>, a: seq<Kernel>, b: seq<Kernel>, hs: Helpers, storage: nat, g: nat, s: Mem, s': Mem, steps: nat)
    requires forall x: Mem, y: Mem :: StateChain(a, hs, x, y) <==> StateChain(b, hs, x, y)
    ensures StateRuns(patches, a, hs, storage, g, s, s', steps) <==> StateRuns(patches, b, hs, storage, g, s, s', steps)
    decreases steps
  {
    hide StateChain;
    if steps > 0 {
      var earlier := steps - 1;
      forall s1: Mem
        ensures StateRuns(patches, a, hs, storage, g, s, s1, earlier) <==> StateRuns(patches, b, hs, storage, g, s, s1, earlier)
      {
        SameChainSameRuns(patches, a, b, hs, storage, g, s, s1, earlier);
      }
    }
  }

  /**
   End to end. Run the host for any number of steps with the segment kernels of an accepted `___eval_nba`: patches
   before every step, every launch complete over all blocks and threads, interleaved at will. The buffer can end as
   `m'` if and only if every state of `m'` is what its own patches and `___eval_nba`, step after step, make of that
   state alone; which is also what one kernel calling `___eval_nba` leaves.
   */
  lemma SegmentLaunchesMapEvalNba(
      f: Function, defined: set<FuncName>, segs: seq<Segment>, ws: seq<Function>, hs: Helpers, v: Option<VlSyms>,
      patches: seq<Patch>, storage: nat, l: Launch, m: Mem, m': Mem, steps: nat)
    requires WellFormed(f) && Extract(f, defined) == Some(segs) && Assumed(f, segs)
    requires forall i | 0 <= i < |segs| :: segs[i].guard.triggerPtr.Gep?
    requires WrapAll(f, segs) == Some(ws) && SegmentsKeepSyms(ws, hs, v)
    requires l.Fits() && IsBuffer(m, storage, l.nstates) && PatchesFit(patches, |m|)
    ensures StepsLaunched(patches, KernelsOf(ws, v), hs, storage, l, m, m', steps)
       <==> IsBuffer(m', storage, l.nstates) && EachRuns(patches, [Kernel([f], v)], hs, storage, l.nstates, m, m', steps)
    ensures StepsLaunched(patches, KernelsOf(ws, v), hs, storage, l, m, m', steps)
       <==> StepsLaunched(patches, [Kernel([f], v)], hs, storage, l, m, m', steps)
  {
    hide WellFormed, Assumed, SegmentsKeepSyms, StateChain, StateRuns, KernelsOf, StepsLaunched, Slice;
    var split, whole := KernelsOf(ws, v), [Kernel([f], v)];
    forall x: Mem, y: Mem ensures StateChain(split, hs, x, y) <==> StateChain(whole, hs, x, y) {
      SegmentChainIsEvalNba(f, defined, segs, ws, hs, v, x, y);
    }
    BatchEqualsMap(patches, split, hs, storage, l, m, m', steps);
    BatchEqualsMap(patches, whole, hs, storage, l, m, m', steps);
    if IsBuffer(m', storage, l.nstates) {
      forall g: nat | g < l.nstates
        ensures StateRuns(patches, split, hs, storage, g, Slice(m, storage, l.nstates, g), Slice(m', storage, l.nstates, g), steps)
           <==> StateRuns(patches, whole, hs, storage, g, Slice(m, storage, l.nstates, g), Slice(m', storage, l.nstates, g), steps)
      {
        SameChainSameRuns(patches, split, whole, hs, storage, g, Slice(m, storage, l.nstates, g), Slice(m', storage, l.nstates, g), steps);
      }
    }
  }
}
