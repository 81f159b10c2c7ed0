/** What the convergence patch does to runs: bounded with it, possibly endless without it, and when the two agree. */
module ConvergenceRuns {
  import opened Prelude
  import opened Convergence

  // ---- one step of each kind of block -----------------------------------------------------------------------------------

  lemma OneInstrStep(f: seq<Block>, o: Oracle, s: State, i: Instr, t: Term)
    requires s.at < |f| && f[s.at] == Block([i], t)
    ensures Step(f, o, s) == Leave(t, Exec(o, i, s))
  {
    assert [i][1..] == [];
    assert ExecAll(o, [i], s) == ExecAll(o, [], Exec(o, i, s));
  }

  lemma TwoInstrStep(f: seq<Block>, o: Oracle, s: State, i: Instr, j: Instr, t: Term)
    requires s.at < |f| && f[s.at] == Block([i, j], t)
    ensures Step(f, o, s) == Leave(t, Exec(o, j, Exec(o, i, s)))
  {
    assert [i, j][1..] == [j] && [j][1..] == [];
    assert ExecAll(o, [i, j], s) == ExecAll(o, [j], Exec(o, i, s));
    assert ExecAll(o, [j], Exec(o, i, s)) == ExecAll(o, [], Exec(o, j, Exec(o, i, s)));
  }

  function Bumped(s: State, c: nat): State { s.(counters := s.counters[c := (Counter(s, c) + 1) % W32]) }

  /** The count a header compares: the new one or the old one, by shape. */
  function Compared(n: Node, s: State): nat
    requires n.Loop?
  {
    if n.shape == CompareAfter then (Counter(s, n.c) + 1) % W32 else Counter(s, n.c)
  }

  lemma HeaderStep(f: seq<Block>, o: Oracle, s: State, n: Node, limit: nat)
    requires n.Loop? && s.at == n.header < |f| && f[n.header] == HeaderBlock(n, limit)
    ensures var over := Compared(n, s) > limit;
            var t := Bumped(s, n.c);
            Step(f, o, s) == t.(flags := t.flags[n.ovf := over], at := if over then n.fatal else Entry(n.body))
  {
    var incr, over := Incr(n.c), Over(n.ovf, n.c, limit);
    if n.shape == CompareAfter {
      TwoInstrStep(f, o, s, incr, over, f[n.header].term);
    } else {
      TwoInstrStep(f, o, s, over, incr, f[n.header].term);
    }
  }

  /** What happens in the other blocks of a loop. */
  lemma LoopStep(f: seq<Block>, o: Oracle, s: State, n: Node, patched: set<BlockId>)
    requires n.Loop? && Holds(f, n, patched)
    ensures s.at == n.pre ==> Step(f, o, s) == s.(counters := s.counters[n.c := 0], at := n.header)
    ensures s.at == n.fatal && n.pre != n.fatal ==>
              Step(f, o, s) == s.(at := if n.header in patched then n.exit else Entry(n.body))
    ensures s.at == n.latch && n.pre != n.latch && n.fatal != n.latch ==>
              Step(f, o, s) == s.(flags := s.flags[n.again := o(s.asked)], asked := s.asked + 1,
                                  at := if o(s.asked) == n.back then n.header else n.exit)
  {
    if s.at == n.pre {
      OneInstrStep(f, o, s, Reset(n.c), f[s.at].term);
    } else if s.at == n.fatal {
      OneInstrStep(f, o, s, Fatal, f[s.at].term);
    } else if s.at == n.latch {
      OneInstrStep(f, o, s, Phase(n.again, n.phase), f[s.at].term);
    }
  }

  // ---- the unedited code ------------------------------------------------------------------------------------------------

  lemma {:induction false} EntryIsInside(f: seq<Block>, n: Node, patched: set<BlockId>)
    requires Holds(f, n, patched)
    ensures Entry(n) in Labels(n) || Entry(n) == Next(n)
  {
    match n {
      case Then(a, b) => EntryIsInside(f, a, patched); EntryIsInside(f, b, patched);
      case _ =>
    }
  }

  /** A step of the unedited code: inside a node it stays inside or continues after it; a spinning loop stays inside. */
  lemma {:induction false} StepStaysInside(f: seq<Block>, o: Oracle, s: State, n: Node)
    requires Distinct(n) && Holds(f, n, {}) && s.at in Labels(n)
    ensures Step(f, o, s).at in Labels(n) || Step(f, o, s).at == Next(n)
    ensures n.Loop? && (forall k: nat :: o(k) == n.back) ==> Step(f, o, s).at in Labels(n)
  {
    match n {
      case Call(_, next, id) => OneInstrStep(f, o, s, Work(id), Jump(next));
      case Then(a, b) =>
        EntryIsInside(f, b, {});
        if s.at in Labels(a) { StepStaysInside(f, o, s, a); } else { StepStaysInside(f, o, s, b); }
      case Loop(_, h, _, body, _, _, _, _, _, _, _, _) =>
        EntryIsInside(f, body, {});
        if s.at in Labels(body) {
          StepStaysInside(f, o, s, body);
        } else if s.at == h {
          HeaderStep(f, o, s, n, THRESHOLD);
        } else {
          LoopStep(f, o, s, n, {});
        }
    }
  }

  /** Without the patch a loop whose phase always asks for another round never leaves: the stubbed fatal call cannot stop it. */
  lemma {:induction false} UnpatchedDiverges(f: seq<Block>, o: Oracle, s: State, n: Node, k: nat)
    requires n.Loop? && Distinct(n) && Holds(f, n, {}) && s.at in Labels(n)
    requires forall j: nat :: o(j) == n.back
    ensures Run(f, o, s, k).at in Labels(n) && Run(f, o, s, k).at != Next(n)
    decreases k
  {
    if k > 0 {
      StepStaysInside(f, o, s, n);
      UnpatchedDiverges(f, o, Step(f, o, s), n, k - 1);
    }
  }

  // ---- the edited code --------------------------------------------------------------------------------------------------

  /** The run reaches `to`; it visits header blocks twice at most and other blocks of `inside` once at most. */
  ghost predicate BoundedRun(f: seq<Block>, o: Oracle, s: State, k: nat, to: BlockId, headers: set<BlockId>,
                             inside: set<BlockId>) {
    && Run(f, o, s, k).at == to
    && forall b: BlockId :: Visits(f, o, s, k, b) <= if b in headers then 2 else if b in inside then 1 else 0
  }

  /** How many phase calls one entry of the edited code makes: none in a loop of the documented shape. */
  function PatchedAsks(n: Node): nat {
    match n
    case Skip(_) => 0
    case Call(_, _, _) => 0
    case Then(a, b) => PatchedAsks(a) + PatchedAsks(b)
    case Loop(_, _, _, body, _, _, _, _, _, _, shape, _) => if shape == CompareAfter then 0 else PatchedAsks(body) + 1
  }

  /** Only the given counters change. */
  ghost predicate KeepsCounters(s: State, t: State, changed: set<nat>) {
    forall c: nat :: c !in changed ==> Counter(s, c) == Counter(t, c)
  }

  lemma Chain(f: seq<Block>, o: Oracle, s: State, i: nat, j: nat)
    ensures Run(f, o, s, i + j) == Run(f, o, Run(f, o, s, i), j)
    ensures forall b: BlockId :: Visits(f, o, s, i + j, b) == Visits(f, o, s, i, b) + Visits(f, o, Run(f, o, s, i), j, b)
  {
    forall b: BlockId
      ensures Run(f, o, s, i + j) == Run(f, o, Run(f, o, s, i), j)
      ensures Visits(f, o, s, i + j, b) == Visits(f, o, s, i, b) + Visits(f, o, Run(f, o, s, i), j, b)
    {
      RunAdds(f, o, s, i, j, b);
    }
    RunAdds(f, o, s, i, j, 0);
  }

  lemma OneStep(f: seq<Block>, o: Oracle, s: State)
    ensures Run(f, o, s, 1) == Step(f, o, s)
    ensures forall b: BlockId :: Visits(f, o, s, 1, b) == if s.at == b then 1 else 0
  {
    assert Run(f, o, s, 1) == Run(f, o, Step(f, o, s), 0);
  }

  /** From the header with a counter above zero: to the fatal block, and out. */
  lemma HeaderLeaves(f: seq<Block>, o: Oracle, s: State, n: Node, patched: set<BlockId>)
    requires n.Loop? && Distinct(n) && Holds(f, n, patched) && n.header in patched
    requires s.at == n.header && Compared(n, s) > 0
    ensures BoundedRun(f, o, s, 2, n.exit, {}, {n.header, n.fatal})
    ensures KeepsCounters(s, Run(f, o, s, 2), {n.c})
    ensures Run(f, o, s, 2).asked == s.asked && Run(f, o, s, 2).log == s.log
  {
    HeaderStep(f, o, s, n, 0);
    var t := Step(f, o, s);
    LoopStep(f, o, t, n, patched);
    OneStep(f, o, s);
    OneStep(f, o, t);
    Chain(f, o, s, 1, 1);
  }

  /** From the latch: out at once, or once more through the header. */
  lemma LatchLeaves(f: seq<Block>, o: Oracle, s: State, n: Node, patched: set<BlockId>) returns (k: nat)
    requires n.Loop? && Distinct(n) && Holds(f, n, patched) && n.header in patched
    requires s.at == n.latch && n.shape == CompareBefore && Counter(s, n.c) > 0
    ensures k <= 3 && BoundedRun(f, o, s, k, n.exit, {}, {n.latch, n.header, n.fatal})
    ensures KeepsCounters(s, Run(f, o, s, k), {n.c})
    ensures Run(f, o, s, k).asked == s.asked + 1
  {
    LoopStep(f, o, s, n, patched);
    OneStep(f, o, s);
    k := 1;
    if o(s.asked) == n.back {
      HeaderLeaves(f, o, Step(f, o, s), n, patched);
      Chain(f, o, s, 1, 2);
      k := 3;
    }
  }

  /** From the preheader to the first block after the header. */
  lemma LoopStarts(f: seq<Block>, o: Oracle, s: State, n: Node, patched: set<BlockId>)
    requires n.Loop? && Distinct(n) && Holds(f, n, patched) && s.at == n.pre && n.shape == CompareBefore
    ensures Run(f, o, s, 2).at == Entry(n.body) && Counter(Run(f, o, s, 2), n.c) == 1
    ensures BoundedRun(f, o, s, 2, Entry(n.body), {}, {n.pre, n.header})
    ensures KeepsCounters(s, Run(f, o, s, 2), {n.c})
    ensures Run(f, o, s, 2).asked == s.asked
  {
    LoopStartsAs(f, o, s, n, patched);
  }

  lemma HeaderIs(f: seq<Block>, n: Node, patched: set<BlockId>)
    requires n.Loop? && Holds(f, n, patched)
    ensures n.header < |f| && f[n.header] == HeaderBlock(n, if n.header in patched then 0 else THRESHOLD)
  {
  }

  lemma LoopStartsAs(f: seq<Block>, o: Oracle, s: State, n: Node, patched: set<BlockId>)
    requires n.Loop? && Distinct(n) && Holds(f, n, patched) && s.at == n.pre && n.shape == CompareBefore
    ensures BoundedRun(f, o, s, 2, Entry(n.body), {}, {n.pre, n.header})
    ensures Run(f, o, s, 2) == s.(counters := s.counters[n.c := 0][n.c := 1], flags := s.flags[n.ovf := false],
                                  at := Entry(n.body))
  {
    hide Step, HeaderBlock;
    LoopStep(f, o, s, n, patched);
    var t := Step(f, o, s);
    HeaderIs(f, n, patched);
    HeaderStep(f, o, t, n, if n.header in patched then 0 else THRESHOLD);
    OneStep(f, o, s);
    OneStep(f, o, t);
    Chain(f, o, s, 1, 1);
  }

  /** In the shape the pass documents, the edited loop leaves before its body: nothing is called, nothing is asked. */
  lemma CompareAfterSkipsBody(f: seq<Block>, o: Oracle, s: State, n: Node, patched: set<BlockId>)
    requires n.Loop? && Distinct(n) && Holds(f, n, patched) && n.header in patched
    requires s.at == n.pre && n.shape == CompareAfter
    ensures BoundedRun(f, o, s, 3, n.exit, {}, {n.pre, n.header, n.fatal})
    ensures KeepsCounters(s, Run(f, o, s, 3), {n.c})
    ensures Run(f, o, s, 3).asked == s.asked && Run(f, o, s, 3).log == s.log
  {
    LoopStep(f, o, s, n, patched);
    OneStep(f, o, s);
    HeaderLeaves(f, o, Step(f, o, s), n, patched);
    Chain(f, o, s, 1, 2);
  }

  /** Two bounded runs through disjoint code make one. */
  lemma BoundedChain(f: seq<Block>, o: Oracle, s: State, i: nat, j: nat, mid: BlockId, to: BlockId,
                     hs: set<BlockId>, bs: set<BlockId>, hs': set<BlockId>, bs': set<BlockId>)
    requires BoundedRun(f, o, s, i, mid, hs, bs) && BoundedRun(f, o, Run(f, o, s, i), j, to, hs', bs')
    requires hs <= bs && hs' <= bs' && bs !! bs'
    ensures BoundedRun(f, o, s, i + j, to, hs + hs', bs + bs')
  {
    Chain(f, o, s, i, j);
  }

  lemma ThenEnds(f: seq<Block>, o: Oracle, s: State, a: Node, b: Node, i: nat, j: nat)
    requires Distinct(Then(a, b))
    requires BoundedRun(f, o, s, i, Next(a), Headers(a), Labels(a))
    requires BoundedRun(f, o, Run(f, o, s, i), j, Next(b), Headers(b), Labels(b))
    requires KeepsCounters(s, Run(f, o, s, i), Counters(a))
    requires KeepsCounters(Run(f, o, s, i), Run(f, o, s, i + j), Counters(b))
    ensures BoundedRun(f, o, s, i + j, Next(b), Headers(Then(a, b)), Labels(Then(a, b)))
    ensures KeepsCounters(s, Run(f, o, s, i + j), Counters(Then(a, b)))
  {
    HeadersAreLabels(a);
    HeadersAreLabels(b);
    BoundedChain(f, o, s, i, j, Next(a), Next(b), Headers(a), Labels(a), Headers(b), Labels(b));
  }

  lemma ThenParts(f: seq<Block>, n: Node, patched: set<BlockId>)
    requires n.Then? && Distinct(n) && Holds(f, n, patched)
    ensures Distinct(n.first) && Distinct(n.second) && Holds(f, n.first, patched) && Holds(f, n.second, patched)
    ensures Next(n.first) == Entry(n.second)
  {
  }

  lemma EndOf(f: seq<Block>, o: Oracle, s: State, k: nat, to: BlockId, hs: set<BlockId>, bs: set<BlockId>)
    requires BoundedRun(f, o, s, k, to, hs, bs)
    ensures Run(f, o, s, k).at == to
  {
  }

  /** The three legs of an edited loop entered at the count zero: to the body, through it, and out. */
  lemma LoopEnds(f: seq<Block>, o: Oracle, s: State, n: Node, i: nat, j: nat)
    requires n.Loop? && Distinct(n)
    requires BoundedRun(f, o, s, 2, Entry(n.body), {}, {n.pre, n.header})
    requires BoundedRun(f, o, Run(f, o, s, 2), i, n.latch, Headers(n.body), Labels(n.body))
    requires BoundedRun(f, o, Run(f, o, s, 2 + i), j, n.exit, {}, {n.latch, n.header, n.fatal})
    ensures BoundedRun(f, o, s, 2 + i + j, n.exit, Headers(n), Labels(n))
  {
    HeadersAreLabels(n.body);
    Chain(f, o, s, 2, i);
    BoundedChain(f, o, s, 2, i, Entry(n.body), n.latch, {}, {n.pre, n.header}, Headers(n.body), Labels(n.body));
    LoopEndsVisits(f, o, s, n, 2 + i, j);
  }

  lemma LoopEndsVisits(f: seq<Block>, o: Oracle, s: State, n: Node, i: nat, j: nat)
    requires n.Loop? && Distinct(n) && Headers(n.body) <= Labels(n.body)
    requires BoundedRun(f, o, s, i, n.latch, {} + Headers(n.body), {n.pre, n.header} + Labels(n.body))
    requires BoundedRun(f, o, Run(f, o, s, i), j, n.exit, {}, {n.latch, n.header, n.fatal})
    ensures BoundedRun(f, o, s, i + j, n.exit, Headers(n), Labels(n))
  {
    Chain(f, o, s, i, j);
    assert Headers(n) == {n.header} + Headers(n.body);
    assert Labels(n) == {n.pre, n.header, n.fatal, n.latch} + Labels(n.body);
  }

  /** Every entry of edited code ends, within `Cost`, having run each header at most twice and any other block once. */
  lemma {:induction false} PatchedEnds(f: seq<Block>, o: Oracle, s: State, n: Node, patched: set<BlockId>) returns (k: nat)
    requires Distinct(n) && Holds(f, n, patched) && Headers(n) <= patched && s.at == Entry(n)
    ensures k <= Cost(n) && BoundedRun(f, o, s, k, Next(n), Headers(n), Labels(n))
    ensures KeepsCounters(s, Run(f, o, s, k), Counters(n))
    ensures Run(f, o, s, k).asked == s.asked + PatchedAsks(n)
    decreases n, 1
  {
    match n {
      case Skip(_) => k := 0;
      case Call(_, next, id) =>
        OneInstrStep(f, o, s, Work(id), Jump(next));
        OneStep(f, o, s);
        k := 1;
      case Then(_, _) =>
        k := PatchedThenEnds(f, o, s, n, patched);
      case Loop(_, _, _, _, _, _, _, _, _, _, _, _) =>
        k := PatchedLoopEnds(f, o, s, n, patched);
    }
  }

  lemma {:induction false} PatchedThenEnds(f: seq<Block>, o: Oracle, s: State, n: Node, patched: set<BlockId>)
    returns (k: nat)
    requires n.Then? && Distinct(n) && Holds(f, n, patched) && Headers(n) <= patched && s.at == Entry(n)
    ensures k <= Cost(n) && BoundedRun(f, o, s, k, Next(n), Headers(n), Labels(n))
    ensures KeepsCounters(s, Run(f, o, s, k), Counters(n))
    ensures Run(f, o, s, k).asked == s.asked + PatchedAsks(n)
    decreases n, 0
  {
    hide Run, BoundedRun, KeepsCounters, Distinct, Holds, Visits, Labels;
    ThenParts(f, n, patched);
    var a, b := n.first, n.second;
    var i := PatchedEnds(f, o, s, a, patched);
    EndOf(f, o, s, i, Next(a), Headers(a), Labels(a));
    var j := PatchedEnds(f, o, Run(f, o, s, i), b, patched);
    Chain(f, o, s, i, j);
    ThenEnds(f, o, s, a, b, i, j);
    k := i + j;
  }

  lemma KeepsBoth(s: State, t: State, u: State, changed: set<nat>, changed': set<nat>, all: set<nat>)
    requires KeepsCounters(s, t, changed) && KeepsCounters(t, u, changed')
    requires changed <= all && changed' <= all
    ensures KeepsCounters(s, u, all)
  {
  }

  lemma Widen(f: seq<Block>, o: Oracle, s: State, k: nat, to: BlockId, hs: set<BlockId>, bs: set<BlockId>,
              hs': set<BlockId>, bs': set<BlockId>)
    requires BoundedRun(f, o, s, k, to, hs, bs) && hs <= hs' && bs <= bs'
    ensures BoundedRun(f, o, s, k, to, hs', bs')
  {
  }

  lemma {:induction false} PatchedLoopEnds(f: seq<Block>, o: Oracle, s: State, n: Node, patched: set<BlockId>)
    returns (k: nat)
    requires n.Loop? && Distinct(n) && Holds(f, n, patched) && Headers(n) <= patched && s.at == n.pre
    ensures k <= Cost(n) && BoundedRun(f, o, s, k, n.exit, Headers(n), Labels(n))
    ensures KeepsCounters(s, Run(f, o, s, k), Counters(n))
    ensures Run(f, o, s, k).asked == s.asked + PatchedAsks(n)
    decreases n, 0
  {
    if n.shape == CompareAfter {
      CompareAfterSkipsBody(f, o, s, n, patched);
      k := 3;
      Widen(f, o, s, 3, n.exit, {}, {n.pre, n.header, n.fatal}, Headers(n), Labels(n));
    } else {
      k := PatchedBodyEnds(f, o, s, n, patched);
    }
  }

  lemma {:induction false} PatchedBodyEnds(f: seq<Block>, o: Oracle, s: State, n: Node, patched: set<BlockId>)
    returns (k: nat)
    requires n.Loop? && Distinct(n) && Holds(f, n, patched) && Headers(n) <= patched && s.at == n.pre
    requires n.shape == CompareBefore
    ensures k <= Cost(n) && BoundedRun(f, o, s, k, n.exit, Headers(n), Labels(n))
    ensures KeepsCounters(s, Run(f, o, s, k), Counters(n))
    ensures Run(f, o, s, k).asked == s.asked + PatchedAsks(n)
    decreases n.body, 3
  {
    hide Run, BoundedRun, KeepsCounters, Distinct, Holds, Labels;
    LoopStarts(f, o, s, n, patched);
    var i, j := BodyAndLatch(f, o, Run(f, o, s, 2), n, patched);
    BodyRunsJoin(f, o, s, n, i, j);
    k := 2 + i + j;
  }

  lemma {:induction false} BodyAndLatch(f: seq<Block>, o: Oracle, t: State, n: Node, patched: set<BlockId>)
    returns (i: nat, j: nat)
    requires n.Loop? && Distinct(n) && Holds(f, n, patched) && Headers(n) <= patched
    requires n.shape == CompareBefore && t.at == Entry(n.body) && Counter(t, n.c) == 1
    ensures i <= Cost(n.body) && j <= 3
    ensures BoundedRun(f, o, t, i, n.latch, Headers(n.body), Labels(n.body))
    ensures BoundedRun(f, o, Run(f, o, t, i), j, n.exit, {}, {n.latch, n.header, n.fatal})
    ensures KeepsCounters(t, Run(f, o, t, i), Counters(n.body))
    ensures KeepsCounters(Run(f, o, t, i), Run(f, o, Run(f, o, t, i), j), {n.c})
    ensures Run(f, o, Run(f, o, t, i), j).asked == t.asked + PatchedAsks(n.body) + 1
    decreases n.body, 2
  {
    i := PatchedEnds(f, o, t, n.body, patched);
    j := LatchLeaves(f, o, Run(f, o, t, i), n, patched);
  }

  lemma BodyRunsJoin(f: seq<Block>, o: Oracle, s: State, n: Node, i: nat, j: nat)
    requires n.Loop? && Distinct(n)
    requires BoundedRun(f, o, s, 2, Entry(n.body), {}, {n.pre, n.header})
    requires BoundedRun(f, o, Run(f, o, s, 2), i, n.latch, Headers(n.body), Labels(n.body))
    requires BoundedRun(f, o, Run(f, o, Run(f, o, s, 2), i), j, n.exit, {}, {n.latch, n.header, n.fatal})
    requires KeepsCounters(s, Run(f, o, s, 2), {n.c})
    requires KeepsCounters(Run(f, o, s, 2), Run(f, o, Run(f, o, s, 2), i), Counters(n.body))
    requires KeepsCounters(Run(f, o, Run(f, o, s, 2), i), Run(f, o, Run(f, o, Run(f, o, s, 2), i), j), {n.c})
    ensures BoundedRun(f, o, s, 2 + i + j, n.exit, Headers(n), Labels(n))
    ensures KeepsCounters(s, Run(f, o, s, 2 + i + j), Counters(n))
    ensures Run(f, o, s, 2 + i + j) == Run(f, o, Run(f, o, Run(f, o, s, 2), i), j)
  {
    hide Run, BoundedRun, KeepsCounters, Distinct;
    var t := Run(f, o, s, 2);
    var u := Run(f, o, t, i);
    KeepsBoth(s, t, u, {n.c}, Counters(n.body), Counters(n));
    KeepsBoth(s, u, Run(f, o, u, j), Counters(n), {n.c}, Counters(n));
    Chain(f, o, s, 2, i);
    Chain(f, o, s, 2 + i, j);
    LoopEnds(f, o, s, n, i, j);
  }
}
