/** The convergence patch as a whole: every run is bounded, and exactly when it computes what the loop computed. */
module ConvergenceAgreement {
  import opened Convergence
  import opened ConvergenceRuns

  // ---- first arrivals ---------------------------------------------------------------------------------------------------

  ghost predicate FirstArrival(f: seq<Block>, o: Oracle, s: State, k: nat, to: BlockId) {
    Run(f, o, s, k).at == to && forall j: nat :: j < k ==> Run(f, o, s, j).at != to
  }

  lemma ArrivalGoesOn(f: seq<Block>, o: Oracle, s: State, k: nat, to: BlockId, i: nat)
    requires FirstArrival(f, o, s, k, to) && i <= k
    ensures FirstArrival(f, o, Run(f, o, s, i), k - i, to)
    ensures Run(f, o, Run(f, o, s, i), k - i) == Run(f, o, s, k)
  {
    RunAdds(f, o, s, i, k - i, 0);
    forall j: nat | j < k - i
      ensures Run(f, o, Run(f, o, s, i), j).at != to
    {
      RunAdds(f, o, s, i, j, 0);
    }
  }

  lemma ArrivalComesFrom(f: seq<Block>, o: Oracle, s: State, k: nat, to: BlockId)
    requires s.at != to && FirstArrival(f, o, Step(f, o, s), k, to)
    ensures FirstArrival(f, o, s, k + 1, to)
  {
    forall j: nat | j < k + 1
      ensures Run(f, o, s, j).at != to
    {
      if j > 0 { assert Run(f, o, s, j) == Run(f, o, Step(f, o, s), j - 1); }
    }
  }

  /** Unedited code that gets past a node has passed its continuation. */
  lemma {:induction false} PassesThrough(f: seq<Block>, o: Oracle, s: State, n: Node, k: nat, to: BlockId) returns (j: nat)
    requires Distinct(n) && Holds(f, n, {}) && to !in Labels(n)
    requires s.at in Labels(n) || s.at == Next(n)
    requires Run(f, o, s, k).at == to
    ensures j <= k && FirstArrival(f, o, s, j, Next(n))
    decreases k
  {
    if s.at == Next(n) {
      j := 0;
    } else {
      StepStaysInside(f, o, s, n);
      j := PassesThrough(f, o, Step(f, o, s), n, k - 1, to);
      ArrivalComesFrom(f, o, s, j, Next(n));
      j := j + 1;
    }
  }

  lemma {:induction false} AskedGrows(f: seq<Block>, o: Oracle, s: State, k: nat)
    ensures Run(f, o, s, k).asked >= s.asked
    decreases k
  {
    if k > 0 {
      if s.at < |f| { ExecAskedGrows(o, f[s.at].instrs, s); }
      AskedGrows(f, o, Step(f, o, s), k - 1);
    }
  }

  lemma {:induction false} ExecAskedGrows(o: Oracle, instrs: seq<Instr>, s: State)
    ensures ExecAll(o, instrs, s).asked >= s.asked
  {
    if instrs != [] { ExecAskedGrows(o, instrs[1..], Exec(o, instrs[0], s)); }
  }

  // ---- what the unedited code asks ------------------------------------------------------------------------------------------

  /** The phase calls from the `asked`-th on, one a loop, inner loops first, all lead out: every phase converges at once. */
  predicate Quiet(o: Oracle, asked: nat, n: Node)
    decreases n
  {
    match n
    case Skip(_) => true
    case Call(_, _, _) => true
    case Then(a, b) => Quiet(o, asked, a) && Quiet(o, asked + LoopCount(a), b)
    case Loop(_, _, _, body, _, _, _, _, _, _, _, back) => Quiet(o, asked, body) && o(asked + LoopCount(body)) != back
  }

  /** A finished run asked every phase once, and asked no more only if every phase converged at once. */
  predicate AskedEach(o: Oracle, before: nat, after: nat, n: Node) {
    after >= before + LoopCount(n) && (after == before + LoopCount(n) ==> Quiet(o, before, n))
  }

  lemma {:induction false} AsksEach(f: seq<Block>, o: Oracle, s: State, n: Node, k: nat)
    requires Distinct(n) && Holds(f, n, {}) && s.at == Entry(n) && FirstArrival(f, o, s, k, Next(n))
    ensures AskedEach(o, s.asked, Run(f, o, s, k).asked, n)
    decreases n, k + 1
  {
    match n {
      case Skip(_) => AskedGrows(f, o, s, k);
      case Call(_, _, _) => AskedGrows(f, o, s, k);
      case Then(a, b) =>
        hide AskedEach, Run, Step;
        var t, i := FirstHalfAsks(f, o, s, n, k);
        AsksEach(f, o, t, b, i);
        AskedBoth(o, s.asked, t.asked, Run(f, o, s, k).asked, a, b);
      case Loop(_, _, _, _, _, _, _, _, _, _, _, _) =>
        var t := PreheaderStep(f, o, s, n, k);
        LoopAsksEach(f, o, t, n, k - 1);
    }
  }

  lemma AskedBoth(o: Oracle, before: nat, mid: nat, after: nat, a: Node, b: Node)
    requires AskedEach(o, before, mid, a) && AskedEach(o, mid, after, b)
    ensures AskedEach(o, before, after, Then(a, b))
  {
  }

  lemma {:induction false} FirstHalfAsks(f: seq<Block>, o: Oracle, s: State, n: Node, k: nat) returns (t: State, i: nat)
    requires n.Then? && Distinct(n) && Holds(f, n, {}) && s.at == Entry(n) && FirstArrival(f, o, s, k, Next(n))
    ensures i <= k && t.at == Next(n.first) && AskedEach(o, s.asked, t.asked, n.first)
    ensures FirstArrival(f, o, t, i, Next(n)) && Run(f, o, t, i) == Run(f, o, s, k)
    decreases n, 0
  {
    EntryIsInside(f, n.first, {});
    var j := PassesThrough(f, o, s, n.first, k, Next(n.second));
    AsksEach(f, o, s, n.first, j);
    ArrivalGoesOn(f, o, s, k, Next(n.second), j);
    t, i := Run(f, o, s, j), k - j;
  }

  lemma PreheaderStep(f: seq<Block>, o: Oracle, s: State, n: Node, k: nat) returns (t: State)
    requires n.Loop? && Distinct(n) && Holds(f, n, {}) && s.at == n.pre && FirstArrival(f, o, s, k, n.exit)
    ensures k > 0 && t.at == n.header && t.asked == s.asked
    ensures FirstArrival(f, o, t, k - 1, n.exit) && Run(f, o, t, k - 1) == Run(f, o, s, k)
  {
    LoopStep(f, o, s, n, {});
    OneStep(f, o, s);
    ArrivalGoesOn(f, o, s, k, n.exit, 1);
    t := Step(f, o, s);
  }

  /** From the header, fatal or not, the unedited code enters the body without asking. */
  lemma HeaderEntersBody(f: seq<Block>, o: Oracle, s: State, n: Node, k: nat) returns (i: nat)
    requires n.Loop? && Distinct(n) && Holds(f, n, {}) && s.at == n.header && FirstArrival(f, o, s, k, n.exit)
    ensures 1 <= i <= k && Run(f, o, s, i).at == Entry(n.body) && Run(f, o, s, i).asked == s.asked
    ensures FirstArrival(f, o, Run(f, o, s, i), k - i, n.exit)
    ensures Run(f, o, Run(f, o, s, i), k - i) == Run(f, o, s, k)
  {
    HeaderStep(f, o, s, n, THRESHOLD);
    OneStep(f, o, s);
    i := 1;
    if Step(f, o, s).at == n.fatal {
      LoopStep(f, o, Step(f, o, s), n, {});
      ArrivalGoesOn(f, o, s, k, n.exit, 1);
      OneStep(f, o, Step(f, o, s));
      RunAdds(f, o, s, 1, 1, 0);
      i := 2;
    }
    ArrivalGoesOn(f, o, s, k, n.exit, i);
  }

  /** At the latch: out, or back to the header, with one answer more. */
  lemma LatchTurns(f: seq<Block>, o: Oracle, s: State, n: Node, k: nat) returns (t: State)
    requires n.Loop? && Distinct(n) && Holds(f, n, {}) && s.at == n.latch && FirstArrival(f, o, s, k, n.exit)
    ensures k > 0 && t.asked == s.asked + 1
    ensures o(s.asked) != n.back ==> Run(f, o, s, k).asked == t.asked
    ensures o(s.asked) == n.back ==> t.at == n.header && FirstArrival(f, o, t, k - 1, n.exit)
    ensures Run(f, o, t, k - 1) == Run(f, o, s, k)
  {
    LoopStep(f, o, s, n, {});
    OneStep(f, o, s);
    t := Step(f, o, s);
    ArrivalGoesOn(f, o, s, k, n.exit, 1);
    if o(s.asked) != n.back {
      assert Run(f, o, s, 1).at == n.exit;
      assert k == 1;
    }
  }

  lemma ArrivalIs(f: seq<Block>, o: Oracle, s: State, k: nat, to: BlockId)
    requires FirstArrival(f, o, s, k, to)
    ensures Run(f, o, s, k).at == to
  {
  }

  lemma BodyIsShorter(f: seq<Block>, o: Oracle, s: State, j: nat, k: nat, n: Node)
    requires n.Loop? && Distinct(n) && FirstArrival(f, o, s, j, n.latch) && FirstArrival(f, o, s, k, n.exit)
    ensures j != k
  {
  }

  lemma {:induction false} BodyAsksEach(f: seq<Block>, o: Oracle, s: State, n: Node, k: nat) returns (v: State, k': nat)
    requires n.Loop? && Distinct(n) && Holds(f, n, {}) && s.at == n.header && FirstArrival(f, o, s, k, n.exit)
    ensures v.at == n.latch && AskedEach(o, s.asked, v.asked, n.body)
    ensures k' < k && FirstArrival(f, o, v, k', n.exit) && Run(f, o, v, k') == Run(f, o, s, k)
    decreases n.body, k + 2
  {
    hide Run, Step, AskedEach, FirstArrival;
    var i := HeaderEntersBody(f, o, s, n, k);
    var u := Run(f, o, s, i);
    EntryIsInside(f, n.body, {});
    ArrivalIs(f, o, u, k - i, n.exit);
    var j := PassesThrough(f, o, u, n.body, k - i, n.exit);
    ArrivalIs(f, o, u, j, n.latch);
    AsksEach(f, o, u, n.body, j);
    BodyIsShorter(f, o, u, j, k - i, n);
    ArrivalGoesOn(f, o, u, k - i, n.exit, j);
    v, k' := Run(f, o, u, j), k - i - j;
  }

  lemma {:induction false} LoopAsksEach(f: seq<Block>, o: Oracle, s: State, n: Node, k: nat)
    requires n.Loop? && Distinct(n) && Holds(f, n, {}) && s.at == n.header && FirstArrival(f, o, s, k, n.exit)
    ensures AskedEach(o, s.asked, Run(f, o, s, k).asked, n)
    decreases n, k
  {
    var v, k' := BodyAsksEach(f, o, s, n, k);
    var t := LatchTurns(f, o, v, n, k');
    if o(v.asked) == n.back {
      LoopAsksEach(f, o, t, n, k' - 1);
    } else {
      QuietAndOneMore(o, s.asked, v.asked, n);
    }
  }

  lemma QuietAndOneMore(o: Oracle, before: nat, after: nat, n: Node)
    requires n.Loop? && AskedEach(o, before, after, n.body) && o(after) != n.back
    ensures AskedEach(o, before, after + 1, n)
  {
  }

  // ---- when patched and unpatched agree ----------------------------------------------------------------------------------

  /** The two functions take the same `k` steps. */
  ghost predicate Lockstep(f: seq<Block>, f': seq<Block>, o: Oracle, s: State, k: nat)
    decreases k
  {
    k == 0 || (Step(f, o, s) == Step(f', o, s) && Lockstep(f, f', o, Step(f, o, s), k - 1))
  }

  lemma {:induction false} LockstepAdds(f: seq<Block>, f': seq<Block>, o: Oracle, s: State, i: nat, j: nat)
    requires Lockstep(f, f', o, s, i) && Lockstep(f, f', o, Run(f, o, s, i), j)
    ensures Lockstep(f, f', o, s, i + j)
    decreases i
  {
    if i > 0 { LockstepAdds(f, f', o, Step(f, o, s), i - 1, j); }
  }

  lemma {:induction false} LockstepArrives(f: seq<Block>, f': seq<Block>, o: Oracle, s: State, k: nat, to: BlockId)
    requires Lockstep(f, f', o, s, k) && FirstArrival(f, o, s, k, to)
    ensures FirstArrival(f', o, s, k, to) && Run(f', o, s, k) == Run(f, o, s, k)
    decreases k
  {
    if k > 0 {
      OneStep(f, o, s);
      ArrivalGoesOn(f, o, s, k, to, 1);
      LockstepArrives(f, f', o, Step(f, o, s), k - 1, to);
      assert Run(f, o, s, 0).at != to;
      ArrivalComesFrom(f', o, s, k - 1, to);
    }
  }

  predicate AllBefore(n: Node) {
    match n
    case Skip(_) => true
    case Call(_, _, _) => true
    case Then(a, b) => AllBefore(a) && AllBefore(b)
    case Loop(_, _, _, body, _, _, _, _, _, _, shape, _) => shape == CompareBefore && AllBefore(body)
  }

  /** Edited code asks at most once per loop; exactly once only if no loop compares after the increment. */
  lemma {:induction false} PatchedAsksAtMost(n: Node)
    ensures PatchedAsks(n) <= LoopCount(n)
    ensures PatchedAsks(n) == LoopCount(n) <==> AllBefore(n)
  {
    match n {
      case Then(a, b) => PatchedAsksAtMost(a); PatchedAsksAtMost(b);
      case Loop(_, _, _, body, _, _, _, _, _, _, _, _) => PatchedAsksAtMost(body);
      case _ =>
    }
  }

  lemma {:induction false} NextIsOutside(n: Node)
    requires Distinct(n)
    ensures Next(n) !in Labels(n)
  {
    match n {
      case Then(a, b) => NextIsOutside(b);
      case _ =>
    }
  }

  lemma {:induction false} UnvisitedIsFirst(f: seq<Block>, o: Oracle, s: State, k: nat, to: BlockId)
    requires Visits(f, o, s, k, to) == 0 && Run(f, o, s, k).at == to
    ensures FirstArrival(f, o, s, k, to)
    decreases k
  {
    if k > 0 {
      UnvisitedIsFirst(f, o, Step(f, o, s), k - 1, to);
      ArrivalComesFrom(f, o, s, k - 1, to);
    }
  }

  lemma {:induction false} ArrivalIsUnique(f: seq<Block>, o: Oracle, s: State, k: nat, k': nat, to: BlockId)
    requires FirstArrival(f, o, s, k, to) && FirstArrival(f, o, s, k', to)
    ensures k == k'
  {
  }

  /** Both functions make the same `k` steps to `to`, and ask `count` phases on the way. */
  ghost predicate SameRun(f: seq<Block>, f': seq<Block>, o: Oracle, s: State, k: nat, to: BlockId, count: nat) {
    Lockstep(f, f', o, s, k) && Run(f, o, s, k).at == to && Run(f, o, s, k).asked == s.asked + count
  }

  lemma SameRunsJoin(f: seq<Block>, f': seq<Block>, o: Oracle, s: State, i: nat, j: nat, mid: BlockId, to: BlockId,
                     count: nat, count': nat)
    requires SameRun(f, f', o, s, i, mid, count) && SameRun(f, f', o, Run(f, o, s, i), j, to, count')
    ensures SameRun(f, f', o, s, i + j, to, count + count') && Run(f, o, s, i + j) == Run(f, o, Run(f, o, s, i), j)
  {
    LockstepAdds(f, f', o, s, i, j);
    Chain(f, o, s, i, j);
  }

  /** From preheader to body the edit changes nothing. */
  lemma QuietStart(f: seq<Block>, f': seq<Block>, o: Oracle, s: State, n: Node, patched: set<BlockId>)
    requires n.Loop? && n.shape == CompareBefore && Distinct(n) && Holds(f, n, {}) && Holds(f', n, patched)
    requires s.at == n.pre
    ensures SameRun(f, f', o, s, 2, Entry(n.body), 0)
  {
    LoopStep(f, o, s, n, {});
    LoopStep(f', o, s, n, patched);
    var t := Step(f, o, s);
    HeaderStep(f, o, t, n, THRESHOLD);
    HeaderStep(f', o, t, n, if n.header in patched then 0 else THRESHOLD);
    assert Run(f, o, s, 2) == Run(f, o, t, 1);
    OneStep(f, o, t);
    assert Lockstep(f, f', o, Step(f, o, t), 0) && Lockstep(f, f', o, t, 1);
  }

  /** Nor from latch to exit when the phase has converged. */
  lemma QuietEnd(f: seq<Block>, f': seq<Block>, o: Oracle, s: State, n: Node, patched: set<BlockId>)
    requires n.Loop? && n.shape == CompareBefore && Distinct(n) && Holds(f, n, {}) && Holds(f', n, patched)
    requires s.at == n.latch && o(s.asked) != n.back
    ensures SameRun(f, f', o, s, 1, n.exit, 1)
  {
    LoopStep(f, o, s, n, {});
    LoopStep(f', o, s, n, patched);
    OneStep(f, o, s);
  }

  /** When every phase converges at once, edited and unedited code make the same steps. */
  lemma {:induction false} QuietRuns(f: seq<Block>, f': seq<Block>, o: Oracle, s: State, n: Node, patched: set<BlockId>)
    returns (k: nat)
    requires Distinct(n) && AllBefore(n) && Holds(f, n, {}) && Holds(f', n, patched) && s.at == Entry(n)
    requires Quiet(o, s.asked, n)
    ensures SameRun(f, f', o, s, k, Next(n), LoopCount(n))
    decreases n, 1
  {
    match n {
      case Skip(_) => k := 0;
      case Call(_, _, _) =>
        QuietCall(f, f', o, s, n, patched);
        k := 1;
      case Then(a, b) =>
        var i, j := QuietHalves(f, f', o, s, n, patched);
        SameRunsJoin(f, f', o, s, i, j, Next(a), Next(b), LoopCount(a), LoopCount(b));
        k := i + j;
      case Loop(_, _, _, _, _, _, _, _, _, _, _, _) =>
        k := QuietLoopRuns(f, f', o, s, n, patched);
    }
  }

  lemma QuietCall(f: seq<Block>, f': seq<Block>, o: Oracle, s: State, n: Node, patched: set<BlockId>)
    requires n.Call? && Holds(f, n, {}) && Holds(f', n, patched) && s.at == n.at
    ensures SameRun(f, f', o, s, 1, n.next, 0)
  {
    OneInstrStep(f, o, s, Work(n.id), Jump(n.next));
    OneInstrStep(f', o, s, Work(n.id), Jump(n.next));
    OneStep(f, o, s);
  }

  lemma {:induction false} QuietHalves(f: seq<Block>, f': seq<Block>, o: Oracle, s: State, n: Node, patched: set<BlockId>)
    returns (i: nat, j: nat)
    requires n.Then? && Distinct(n) && AllBefore(n) && Holds(f, n, {}) && Holds(f', n, patched) && s.at == Entry(n)
    requires Quiet(o, s.asked, n)
    ensures SameRun(f, f', o, s, i, Next(n.first), LoopCount(n.first))
    ensures SameRun(f, f', o, Run(f, o, s, i), j, Next(n.second), LoopCount(n.second))
    decreases n, 0
  {
    i := QuietRuns(f, f', o, s, n.first, patched);
    j := QuietRuns(f, f', o, Run(f, o, s, i), n.second, patched);
  }

  lemma {:induction false} QuietLoopRuns(f: seq<Block>, f': seq<Block>, o: Oracle, s: State, n: Node, patched: set<BlockId>)
    returns (k: nat)
    requires n.Loop? && Distinct(n) && AllBefore(n) && Holds(f, n, {}) && Holds(f', n, patched) && s.at == n.pre
    requires Quiet(o, s.asked, n)
    ensures SameRun(f, f', o, s, k, n.exit, LoopCount(n))
    decreases n, 0
  {
    hide Run, Lockstep, Step, HeaderBlock;
    QuietStart(f, f', o, s, n, patched);
    var t := Run(f, o, s, 2);
    var i := QuietRuns(f, f', o, t, n.body, patched);
    SameRunsJoin(f, f', o, s, 2, i, Entry(n.body), n.latch, 0, LoopCount(n.body));
    var u := Run(f, o, s, 2 + i);
    QuietEnd(f, f', o, u, n, patched);
    SameRunsJoin(f, f', o, s, 2 + i, 1, n.latch, n.exit, LoopCount(n.body), 1);
    k := 2 + i + 1;
  }

  lemma {:induction false} FirstOfArrivals(f: seq<Block>, o: Oracle, s: State, k: nat, to: BlockId) returns (j: nat)
    requires Run(f, o, s, k).at == to
    ensures j <= k && FirstArrival(f, o, s, j, to)
    decreases k
  {
    if s.at == to {
      j := 0;
    } else {
      j := FirstOfArrivals(f, o, Step(f, o, s), k - 1, to);
      ArrivalComesFrom(f, o, s, j, to);
      j := j + 1;
    }
  }

  lemma {:induction false} LockstepPrefix(f: seq<Block>, f': seq<Block>, o: Oracle, s: State, k: nat, j: nat)
    requires Lockstep(f, f', o, s, k) && j <= k
    ensures Lockstep(f, f', o, s, j)
    decreases k
  {
    if j > 0 { LockstepPrefix(f, f', o, Step(f, o, s), k - 1, j - 1); }
  }

  // ---- the pass -----------------------------------------------------------------------------------------------------------

  /** The pass bounds every run of every documented function, whatever the phase calls answer. */
  lemma PatchBoundsEveryRun(f: seq<Block>, o: Oracle, s: State, n: Node) returns (k: nat)
    requires Documented(f, n) && s.at == Entry(n)
    ensures k <= Cost(n) && FirstArrival(Patched(f), o, s, k, Next(n))
    ensures BoundedRun(Patched(f), o, s, k, Next(n), Headers(n), Labels(n))
    ensures Run(Patched(f), o, s, k).asked == s.asked + PatchedAsks(n)
  {
    PassEditsEveryLoop(f, n);
    k := PatchedEnds(Patched(f), o, s, n, Headers(n));
    NextIsOutside(n);
    HeadersAreLabels(n);
    UnvisitedIsFirst(Patched(f), o, s, k, Next(n));
  }

  /** Both functions reach the end of `n`, in the same state. */
  ghost predicate Agree(f: seq<Block>, f': seq<Block>, o: Oracle, s: State, to: BlockId) {
    exists k: nat, k': nat :: FirstArrival(f, o, s, k, to) && FirstArrival(f', o, s, k', to) && Run(f, o, s, k) == Run(f', o, s, k')
  }

  /** The pass keeps the meaning of a run exactly when no loop has the documented shape and every phase converges at once. */
  lemma PatchAgreesExactlyWhenQuiet(f: seq<Block>, o: Oracle, s: State, n: Node)
    requires Documented(f, n) && s.at == Entry(n)
    ensures Agree(f, Patched(f), o, s, Next(n)) <==> AllBefore(n) && Quiet(o, s.asked, n)
  {
    PassEditsEveryLoop(f, n);
    if AllBefore(n) && Quiet(o, s.asked, n) {
      QuietMakesAgree(f, Patched(f), o, s, n);
    }
    if Agree(f, Patched(f), o, s, Next(n)) {
      AgreeMakesQuiet(f, o, s, n);
    }
  }

  lemma QuietMakesAgree(f: seq<Block>, f': seq<Block>, o: Oracle, s: State, n: Node)
    requires Distinct(n) && AllBefore(n) && Holds(f, n, {}) && Holds(f', n, Headers(n)) && s.at == Entry(n)
    requires Quiet(o, s.asked, n)
    ensures Agree(f, f', o, s, Next(n))
  {
    var k := QuietRuns(f, f', o, s, n, Headers(n));
    var j := FirstOfArrivals(f, o, s, k, Next(n));
    LockstepPrefix(f, f', o, s, k, j);
    LockstepArrives(f, f', o, s, j, Next(n));
  }

  lemma AgreeMakesQuiet(f: seq<Block>, o: Oracle, s: State, n: Node)
    requires Documented(f, n) && s.at == Entry(n) && Agree(f, Patched(f), o, s, Next(n))
    ensures AllBefore(n) && Quiet(o, s.asked, n)
  {
    var f' := Patched(f);
    var k: nat, k': nat :| FirstArrival(f, o, s, k, Next(n)) && FirstArrival(f', o, s, k', Next(n))
                           && Run(f, o, s, k) == Run(f', o, s, k');
    AsksEach(f, o, s, n, k);
    var m := PatchBoundsEveryRun(f, o, s, n);
    ArrivalIsUnique(f', o, s, k', m, Next(n));
    PatchedAsksAtMost(n);
  }
}
