/**
 `vl-patch-convergence`: the CFG edit that keeps Verilator's convergence loops from spinning forever once the fatal
 call is an empty stub.
 */
module Convergence {
  import opened Prelude

  type BlockId = nat

  const THRESHOLD: nat := 100

  datatype Instr =
    | Reset(c: nat)                          // the counter's value on loop entry
    | Incr(c: nat)                           // add i32 %c, 1
    | Over(flag: nat, c: nat, limit: nat)    // icmp ugt i32 %c, limit
    | Phase(flag: nat, id: nat)              // call i1 @eval_phase
    | Work(id: nat)                          // any other call
    | Fatal                                  // call @VL_FATAL_MT, stubbed: returns at once

  datatype Term = Jump(to: BlockId) | Branch(flag: nat, ifTrue: BlockId, ifFalse: BlockId) | Return

  datatype Block = Block(instrs: seq<Instr>, term: Term)

  // ---- the pass -----------------------------------------------------------------------------------------------------

  datatype Site = Site(b: BlockId, i: nat)

  predicate IsCandidate(blocks: seq<Block>, s: Site) {
    s.b < |blocks| && s.i < |blocks[s.b].instrs| && blocks[s.b].instrs[s.i].Over?
    && blocks[s.b].instrs[s.i].limit == THRESHOLD
  }

  function CandidatesIn(blocks: seq<Block>, b: BlockId, n: nat): seq<Site>
    requires b < |blocks| && n <= |blocks[b].instrs|
  {
    if n == 0 then []
    else CandidatesIn(blocks, b, n - 1) + (if IsCandidate(blocks, Site(b, n - 1)) then [Site(b, n - 1)] else [])
  }

  /** All `icmp ugt %x, 100`, in layout order. */
  function Candidates(blocks: seq<Block>, n: nat): seq<Site>
    requires n <= |blocks|
  {
    if n == 0 then [] else Candidates(blocks, n - 1) + CandidatesIn(blocks, n - 1, |blocks[n - 1].instrs|)
  }

  /** The first conditional branch driven by `flag`. */
  function GuardBranch(blocks: seq<Block>, flag: nat, n: nat): Option<BlockId>
    requires n <= |blocks|
    decreases |blocks| - n
  {
    if n == |blocks| then None
    else if blocks[n].term.Branch? && blocks[n].term.flag == flag then Some(n)
    else GuardBranch(blocks, flag, n + 1)
  }

  /** `findLoopExit`: the first conditional branch to `header`; its other successor counts as the exit. */
  function FindLoopExit(blocks: seq<Block>, header: BlockId, n: nat): Option<BlockId>
    requires n <= |blocks|
    decreases |blocks| - n
  {
    if n == |blocks| then None
    else if blocks[n].term.Branch? && blocks[n].term.ifTrue == header then Some(blocks[n].term.ifFalse)
    else if blocks[n].term.Branch? && blocks[n].term.ifFalse == header then Some(blocks[n].term.ifTrue)
    else FindLoopExit(blocks, header, n + 1)
  }

  function SetLimit(blk: Block, i: nat, limit: nat): Block
    requires i < |blk.instrs| && blk.instrs[i].Over?
  {
    Block(blk.instrs[i := blk.instrs[i].(limit := limit)], blk.term)
  }

  /** The edits for one candidate: fatal block to exit, threshold to zero; none when no branch or no exit is found. */
  function PatchSite(blocks: seq<Block>, s: Site): (r: seq<Block>)
    requires s.b < |blocks| && s.i < |blocks[s.b].instrs| && blocks[s.b].instrs[s.i].Over?
    ensures |r| == |blocks|
  {
    match GuardBranch(blocks, blocks[s.b].instrs[s.i].flag, 0)
    case None => blocks
    case Some(g) =>
      GuardBranchFinds(blocks, blocks[s.b].instrs[s.i].flag, 0);
      var fatal := blocks[g].term.ifTrue;
      match FindLoopExit(blocks, s.b, 0)
      case None => blocks
      case Some(exit) =>
        var redirected := if fatal < |blocks| && blocks[fatal].term.Jump?
                          then blocks[fatal := Block(blocks[fatal].instrs, Jump(exit))] else blocks;
        redirected[s.b := SetLimit(redirected[s.b], s.i, 0)]
  }

  lemma {:induction false} GuardBranchFinds(blocks: seq<Block>, flag: nat, n: nat)
    requires n <= |blocks|
    ensures GuardBranch(blocks, flag, n).Some? ==>
              GuardBranch(blocks, flag, n).value < |blocks| && blocks[GuardBranch(blocks, flag, n).value].term.Branch?
    decreases |blocks| - n
  {
    if n < |blocks| { GuardBranchFinds(blocks, flag, n + 1); }
  }

  /** Block `b` branches on `flag`, and no block before it does. */
  ghost predicate FirstBranchOn(blocks: seq<Block>, flag: nat, b: BlockId) {
    && b < |blocks| && blocks[b].term.Branch? && blocks[b].term.flag == flag
    && forall a: BlockId | a < b :: blocks[a].term.Branch? ==> blocks[a].term.flag != flag
  }

  /** Block `b` branches to `header` on one side and to `exit` on the other, and no block before it branches to `header`. */
  ghost predicate FirstLatch(blocks: seq<Block>, header: BlockId, b: BlockId, exit: BlockId) {
    && b < |blocks|
    && (exists flag :: blocks[b].term == Branch(flag, header, exit) || blocks[b].term == Branch(flag, exit, header))
    && forall a: BlockId | a < b :: blocks[a].term.Branch? ==> blocks[a].term.ifTrue != header && blocks[a].term.ifFalse != header
  }

  lemma {:induction false} GuardBranchIsFirst(blocks: seq<Block>, flag: nat, n: nat, g: BlockId)
    requires n <= |blocks| && forall a: BlockId | a < n :: blocks[a].term.Branch? ==> blocks[a].term.flag != flag
    ensures GuardBranch(blocks, flag, n) == Some(g) <==> FirstBranchOn(blocks, flag, g)
    decreases |blocks| - n
  {
    if n < |blocks| && !(blocks[n].term.Branch? && blocks[n].term.flag == flag) { GuardBranchIsFirst(blocks, flag, n + 1, g); }
  }

  lemma {:induction false} LoopExitIsOfFirst(blocks: seq<Block>, header: BlockId, n: nat, exit: BlockId)
    requires n <= |blocks|
    requires forall a: BlockId | a < n ::
               blocks[a].term.Branch? ==> blocks[a].term.ifTrue != header && blocks[a].term.ifFalse != header
    ensures FindLoopExit(blocks, header, n) == Some(exit) <==> exists b :: FirstLatch(blocks, header, b, exit)
    decreases |blocks| - n
  {
    if n < |blocks| {
      var t := blocks[n].term;
      if t.Branch? && (t.ifTrue == header || t.ifFalse == header) {
        var other := if t.ifTrue == header then t.ifFalse else t.ifTrue;
        assert t == Branch(t.flag, header, other) || t == Branch(t.flag, other, header);
        assert FirstLatch(blocks, header, n, other);
      } else {
        LoopExitIsOfFirst(blocks, header, n + 1, exit);
      }
    }
  }

  /** What one candidate's edit writes, block by block, with `g` its branch and `exit` the exit found. */
  ghost predicate EditsSite(blocks: seq<Block>, s: Site, g: BlockId, exit: BlockId, r: seq<Block>)
    requires s.b < |blocks| && s.i < |blocks[s.b].instrs| && blocks[s.b].instrs[s.i].Over?
    requires g < |blocks| && blocks[g].term.Branch?
  {
    && |r| == |blocks|
    && (forall b: BlockId | b < |blocks| ::
          r[b].term == if b == blocks[g].term.ifTrue && blocks[b].term.Jump? then Jump(exit) else blocks[b].term)
    && (forall b: BlockId | b < |blocks| && b != s.b :: r[b].instrs == blocks[b].instrs)
    && |r[s.b].instrs| == |blocks[s.b].instrs|
    && r[s.b].instrs[s.i] == Over(blocks[s.b].instrs[s.i].flag, blocks[s.b].instrs[s.i].c, 0)
    && (forall i | 0 <= i < |blocks[s.b].instrs| && i != s.i :: r[s.b].instrs[i] == blocks[s.b].instrs[i])
  }

  /**
   The edit of one candidate on any function at all: the first branch on its flag names the fatal block, the first
   branch to its header names the exit, and without either nothing is written.
   */
  lemma PatchSiteMeans(blocks: seq<Block>, s: Site)
    requires s.b < |blocks| && s.i < |blocks[s.b].instrs| && blocks[s.b].instrs[s.i].Over?
    ensures forall g, b, exit | FirstBranchOn(blocks, blocks[s.b].instrs[s.i].flag, g) && FirstLatch(blocks, s.b, b, exit) ::
              EditsSite(blocks, s, g, exit, PatchSite(blocks, s))
    ensures (forall g :: !FirstBranchOn(blocks, blocks[s.b].instrs[s.i].flag, g)) ==> PatchSite(blocks, s) == blocks
    ensures (forall b, exit :: !FirstLatch(blocks, s.b, b, exit)) ==> PatchSite(blocks, s) == blocks
  {
    var flag := blocks[s.b].instrs[s.i].flag;
    forall g, b, exit | FirstBranchOn(blocks, flag, g) && FirstLatch(blocks, s.b, b, exit)
      ensures EditsSite(blocks, s, g, exit, PatchSite(blocks, s))
    {
      GuardBranchIsFirst(blocks, flag, 0, g);
      LoopExitIsOfFirst(blocks, s.b, 0, exit);
      SiteIsEdited(blocks, s, g, exit);
    }
    var guard, exit := GuardBranch(blocks, flag, 0), FindLoopExit(blocks, s.b, 0);
    if guard.Some? { GuardBranchIsFirst(blocks, flag, 0, guard.value); }
    if exit.Some? { LoopExitIsOfFirst(blocks, s.b, 0, exit.value); }
  }

  lemma SiteIsEdited(blocks: seq<Block>, s: Site, g: BlockId, exit: BlockId)
    requires s.b < |blocks| && s.i < |blocks[s.b].instrs| && blocks[s.b].instrs[s.i].Over?
    requires GuardBranch(blocks, blocks[s.b].instrs[s.i].flag, 0) == Some(g) && FindLoopExit(blocks, s.b, 0) == Some(exit)
    ensures g < |blocks| && blocks[g].term.Branch? && EditsSite(blocks, s, g, exit, PatchSite(blocks, s))
  {
    GuardBranchFinds(blocks, blocks[s.b].instrs[s.i].flag, 0);
    var fatal := blocks[g].term.ifTrue;
    var redirected := if fatal < |blocks| && blocks[fatal].term.Jump?
                      then blocks[fatal := Block(blocks[fatal].instrs, Jump(exit))] else blocks;
    assert redirected[s.b].instrs == blocks[s.b].instrs;
    assert PatchSite(blocks, s) == redirected[s.b := SetLimit(redirected[s.b], s.i, 0)];
  }

  predicate StillThere(blocks: seq<Block>, sites: seq<Site>) {
    forall k | 0 <= k < |sites| ::
      sites[k].b < |blocks| && sites[k].i < |blocks[sites[k].b].instrs| && blocks[sites[k].b].instrs[sites[k].i].Over?
  }

  lemma PatchKeepsSites(blocks: seq<Block>, s: Site, sites: seq<Site>)
    requires s.b < |blocks| && s.i < |blocks[s.b].instrs| && blocks[s.b].instrs[s.i].Over?
    requires StillThere(blocks, sites)
    ensures StillThere(PatchSite(blocks, s), sites)
  {
    forall k | 0 <= k < |sites|
      ensures var r := PatchSite(blocks, s);
              sites[k].b < |r| && sites[k].i < |r[sites[k].b].instrs| && r[sites[k].b].instrs[sites[k].i].Over?
    {
      PatchKeepsOver(blocks, s, sites[k].b, sites[k].i);
    }
  }

  lemma PatchKeepsOver(blocks: seq<Block>, s: Site, b: BlockId, i: nat)
    requires s.b < |blocks| && s.i < |blocks[s.b].instrs| && blocks[s.b].instrs[s.i].Over?
    requires b < |blocks| && i < |blocks[b].instrs| && blocks[b].instrs[i].Over?
    ensures i < |PatchSite(blocks, s)[b].instrs| && PatchSite(blocks, s)[b].instrs[i].Over?
    ensures blocks[b].instrs[i].limit == 0 ==> PatchSite(blocks, s)[b].instrs[i].limit == 0
  {
    var guard := GuardBranch(blocks, blocks[s.b].instrs[s.i].flag, 0);
    var exit := FindLoopExit(blocks, s.b, 0);
    if guard.Some? && exit.Some? {
      GuardBranchFinds(blocks, blocks[s.b].instrs[s.i].flag, 0);
      var fatal := blocks[guard.value].term.ifTrue;
      var redirected := if fatal < |blocks| && blocks[fatal].term.Jump?
                        then blocks[fatal := Block(blocks[fatal].instrs, Jump(exit.value))] else blocks;
      assert redirected[s.b].instrs == blocks[s.b].instrs && redirected[b].instrs == blocks[b].instrs;
      assert PatchSite(blocks, s) == redirected[s.b := SetLimit(redirected[s.b], s.i, 0)];
    }
  }

  function PatchSites(blocks: seq<Block>, sites: seq<Site>): (r: seq<Block>)
    requires StillThere(blocks, sites)
    ensures |r| == |blocks|
    decreases |sites|
  {
    if sites == [] then blocks
    else
      PatchKeepsSites(blocks, sites[0], sites[1..]);
      PatchSites(PatchSite(blocks, sites[0]), sites[1..])
  }

  lemma {:induction false} CandidatesInAre(blocks: seq<Block>, b: BlockId, n: nat)
    requires b < |blocks| && n <= |blocks[b].instrs|
    ensures forall s :: s in CandidatesIn(blocks, b, n) <==> s.b == b && s.i < n && IsCandidate(blocks, s)
  {
    if n > 0 { CandidatesInAre(blocks, b, n - 1); }
  }

  lemma {:induction false} CandidatesAre(blocks: seq<Block>, n: nat)
    requires n <= |blocks|
    ensures forall s :: s in Candidates(blocks, n) <==> s.b < n && IsCandidate(blocks, s)
  {
    if n > 0 {
      CandidatesAre(blocks, n - 1);
      CandidatesInAre(blocks, n - 1, |blocks[n - 1].instrs|);
    }
  }

  lemma SitesAreThere(blocks: seq<Block>)
    ensures StillThere(blocks, Candidates(blocks, |blocks|))
  {
    CandidatesAre(blocks, |blocks|);
    var sites := Candidates(blocks, |blocks|);
    assert forall k | 0 <= k < |sites| :: sites[k] in sites;
  }

  /** The whole pass, as a function of the function's blocks. */
  function Patched(blocks: seq<Block>): (r: seq<Block>)
    ensures |r| == |blocks|
  {
    SitesAreThere(blocks);
    PatchSites(blocks, Candidates(blocks, |blocks|))
  }

  /** The compare at this site has the limit zero. */
  predicate ClearedAt(blocks: seq<Block>, s: Site) {
    s.b < |blocks| && s.i < |blocks[s.b].instrs| && blocks[s.b].instrs[s.i].Over? && blocks[s.b].instrs[s.i].limit == 0
  }

  /** A function under transformation: the pass rewrites its blocks in place. */
  class PassFunction {
    var blocks: seq<Block>

    constructor (blocks: seq<Block>)
      ensures this.blocks == blocks
    {
      this.blocks := blocks;
    }

    method CollectCandidates() returns (sites: seq<Site>)
      ensures sites == Candidates(blocks, |blocks|)
    {
      sites := [];
      for b := 0 to |blocks|
        invariant sites == Candidates(blocks, b)
      {
        for i := 0 to |blocks[b].instrs|
          invariant sites == Candidates(blocks, b) + CandidatesIn(blocks, b, i)
        {
          if IsCandidate(blocks, Site(b, i)) {
            sites := sites + [Site(b, i)];
          }
        }
      }
    }

    method RunPass() returns (changed: bool)
      modifies this
      ensures blocks == Patched(old(blocks))
      ensures changed <==> blocks != old(blocks)
    {
      hide PatchSite, Candidates;
      ghost var was := blocks;
      var sites := CollectCandidates();
      SitesAreThere(blocks);
      CandidatesAre(blocks, |blocks|);
      assert forall k | 0 <= k < |sites| :: sites[k] in sites;
      changed := false;
      ghost var edited := Site(0, 0);
      var k := 0;
      assert sites[0..] == sites;
      while k < |sites|
        invariant k <= |sites| && |blocks| == |old(blocks)|
        invariant StillThere(blocks, sites)
        invariant Patched(old(blocks)) == PatchSites(blocks, sites[k..])
        invariant !changed ==> blocks == was
        invariant changed ==> IsCandidate(was, edited) && edited in sites && ClearedAt(blocks, edited)
      {
        var s := sites[k];
        assert sites[k..][0] == s && sites[k..][1..] == sites[k + 1..];
        PatchKeepsSites(blocks, s, sites);
        if changed { PatchKeepsOver(blocks, s, edited.b, edited.i); }
        var patched := PatchOne(s);
        if patched { edited := s; }
        changed := changed || patched;
        k := k + 1;
      }
      assert sites[k..] == [];
    }

    method PatchOne(s: Site) returns (changed: bool)
      requires s.b < |blocks| && s.i < |blocks[s.b].instrs| && blocks[s.b].instrs[s.i].Over?
      modifies this
      ensures blocks == PatchSite(old(blocks), s)
      ensures if changed then ClearedAt(blocks, s) else blocks == old(blocks)
    {
      var guard := GuardBranch(blocks, blocks[s.b].instrs[s.i].flag, 0);
      if guard.None? { return false; }
      GuardBranchFinds(blocks, blocks[s.b].instrs[s.i].flag, 0);
      var fatal := blocks[guard.value].term.ifTrue;
      var exit := FindLoopExit(blocks, s.b, 0);
      if exit.None? { return false; }
      if fatal < |blocks| && blocks[fatal].term.Jump? {
        blocks := blocks[fatal := Block(blocks[fatal].instrs, Jump(exit.value))];
      }
      blocks := blocks[s.b := SetLimit(blocks[s.b], s.i, 0)];
      return true;
    }
  }

  // ---- execution --------------------------------------------------------------------------------------------------------

  /** The answers of the phase calls, in the order in which they are made. */
  type Oracle = nat -> bool

  datatype State = State(at: BlockId, counters: map<nat, nat>, flags: map<nat, bool>, asked: nat, log: seq<nat>)

  function Counter(s: State, c: nat): nat { if c in s.counters then s.counters[c] else 0 }

  function Flag(s: State, f: nat): bool { f in s.flags && s.flags[f] }

  function Exec(o: Oracle, i: Instr, s: State): State {
    match i
    case Reset(c) => s.(counters := s.counters[c := 0])
    case Incr(c) => s.(counters := s.counters[c := (Counter(s, c) + 1) % W32])
    case Over(f, c, limit) => s.(flags := s.flags[f := Counter(s, c) > limit])
    case Phase(f, _) => s.(flags := s.flags[f := o(s.asked)], asked := s.asked + 1)
    case Work(id) => s.(log := s.log + [id])
    case Fatal => s
  }

  function ExecAll(o: Oracle, instrs: seq<Instr>, s: State): State {
    if instrs == [] then s else ExecAll(o, instrs[1..], Exec(o, instrs[0], s))
  }

  function Leave(t: Term, s: State): State {
    match t
    case Jump(b) => s.(at := b)
    case Branch(f, a, b) => s.(at := if Flag(s, f) then a else b)
    case Return => s
  }

  /** Execute the current block and move on; a returning block stays where it is. */
  function Step(f: seq<Block>, o: Oracle, s: State): State {
    if s.at < |f| then Leave(f[s.at].term, ExecAll(o, f[s.at].instrs, s)) else s
  }

  function Run(f: seq<Block>, o: Oracle, s: State, n: nat): State
    decreases n
  {
    if n == 0 then s else Run(f, o, Step(f, o, s), n - 1)
  }

  /** How often block `b` is executed in the first `n` steps. */
  function Visits(f: seq<Block>, o: Oracle, s: State, n: nat, b: BlockId): nat
    decreases n
  {
    if n == 0 then 0 else (if s.at == b then 1 else 0) + Visits(f, o, Step(f, o, s), n - 1, b)
  }

  lemma {:induction false} RunAdds(f: seq<Block>, o: Oracle, s: State, n: nat, n': nat, b: BlockId)
    ensures Run(f, o, s, n + n') == Run(f, o, Run(f, o, s, n), n')
    ensures Visits(f, o, s, n + n', b) == Visits(f, o, s, n, b) + Visits(f, o, Run(f, o, s, n), n', b)
    decreases n
  {
    if n > 0 { RunAdds(f, o, Step(f, o, s), n - 1, n', b); }
  }

  // ---- the documented shape, nested at will -----------------------------------------------------------------------------

  /** Compare the counter after its increment, as in the pass's own drawing, or before it. */
  datatype Shape = CompareAfter | CompareBefore

  datatype Node =
    | Skip(at: BlockId)
    | Call(at: BlockId, next: BlockId, id: nat)
    | Then(first: Node, second: Node)
    | Loop(pre: BlockId, header: BlockId, fatal: BlockId, body: Node, latch: BlockId, exit: BlockId,
           c: nat, ovf: nat, again: nat, phase: nat, shape: Shape, back: bool)

  function Entry(n: Node): BlockId {
    match n
    case Skip(at) => at
    case Call(at, _, _) => at
    case Then(a, _) => Entry(a)
    case Loop(pre, _, _, _, _, _, _, _, _, _, _, _) => pre
  }

  function Next(n: Node): BlockId {
    match n
    case Skip(at) => at
    case Call(_, next, _) => next
    case Then(_, b) => Next(b)
    case Loop(_, _, _, _, _, exit, _, _, _, _, _, _) => exit
  }

  /** The blocks that belong to a node. */
  function Labels(n: Node): set<BlockId> {
    match n
    case Skip(_) => {}
    case Call(at, _, _) => {at}
    case Then(a, b) => Labels(a) + Labels(b)
    case Loop(pre, h, fatal, body, latch, _, _, _, _, _, _, _) => {pre, h, fatal, latch} + Labels(body)
  }

  function Counters(n: Node): set<nat> {
    match n
    case Skip(_) => {}
    case Call(_, _, _) => {}
    case Then(a, b) => Counters(a) + Counters(b)
    case Loop(_, _, _, body, _, _, c, _, _, _, _, _) => {c} + Counters(body)
  }

  /** Every block plays one role only, nothing continues inside itself, and an inner loop has its own counter. */
  predicate Distinct(n: Node) {
    match n
    case Skip(_) => true
    case Call(at, next, _) => at != next
    case Then(a, b) => Distinct(a) && Distinct(b) && Labels(a) !! Labels(b) && Next(b) !in Labels(a)
    case Loop(pre, h, fatal, body, latch, exit, c, _, _, _, _, _) =>
      && Distinct(body) && c !in Counters(body)
      && pre != h && pre != fatal && pre != latch && h != fatal && h != latch && fatal != latch
      && pre !in Labels(body) && h !in Labels(body) && fatal !in Labels(body) && latch !in Labels(body)
      && exit != pre && exit != h && exit != fatal && exit != latch && exit !in Labels(body)
  }

  function HeaderBlock(n: Node, limit: nat): Block
    requires n.Loop?
  {
    Block(if n.shape == CompareAfter then [Incr(n.c), Over(n.ovf, n.c, limit)] else [Over(n.ovf, n.c, limit), Incr(n.c)],
          Branch(n.ovf, n.fatal, Entry(n.body)))
  }

  /** The latch asks its phase; the answer `back` leads to the header again, the other one out. */
  function LatchBlock(n: Node): Block
    requires n.Loop?
  {
    Block([Phase(n.again, n.phase)], if n.back then Branch(n.again, n.header, n.exit) else Branch(n.again, n.exit, n.header))
  }

  function CompareIndex(n: Node): nat
    requires n.Loop?
  {
    if n.shape == CompareAfter then 1 else 0
  }

  /** `f` holds the code of `n`; the loops whose header is in `patched` have been edited. */
  predicate Holds(f: seq<Block>, n: Node, patched: set<BlockId>) {
    match n
    case Skip(_) => true
    case Call(at, next, id) => at < |f| && f[at] == Block([Work(id)], Jump(next))
    case Then(a, b) => Holds(f, a, patched) && Holds(f, b, patched) && Next(a) == Entry(b)
    case Loop(pre, h, fatal, body, latch, exit, c, ovf, again, phase, shape, back) =>
      && pre < |f| && h < |f| && fatal < |f| && latch < |f|
      && f[pre] == Block([Reset(c)], Jump(h))
      && f[h] == HeaderBlock(n, if h in patched then 0 else THRESHOLD)
      && f[fatal] == Block([Fatal], Jump(if h in patched then exit else Entry(body)))
      && f[latch] == LatchBlock(n)
      && Next(body) == latch
      && Holds(f, body, patched)
  }

  function Headers(n: Node): set<BlockId> {
    match n
    case Skip(_) => {}
    case Call(_, _, _) => {}
    case Then(a, b) => Headers(a) + Headers(b)
    case Loop(_, h, _, body, _, _, _, _, _, _, _, _) => {h} + Headers(body)
  }

  function LoopCount(n: Node): nat {
    match n
    case Skip(_) => 0
    case Call(_, _, _) => 0
    case Then(a, b) => LoopCount(a) + LoopCount(b)
    case Loop(_, _, _, body, _, _, _, _, _, _, _, _) => 1 + LoopCount(body)
  }

  /** Blocks executed at most: each once, and each header once more. */
  function Cost(n: Node): nat {
    match n
    case Skip(_) => 0
    case Call(_, _, _) => 1
    case Then(a, b) => Cost(a) + Cost(b)
    case Loop(_, _, _, body, _, _, _, _, _, _, _, _) => 5 + Cost(body)
  }

  // ---- what the pass does to documented loops ----------------------------------------------------------------------------

  /** The loops of a node. */
  predicate HasLoop(n: Node, l: Node)
  {
    match n
    case Skip(_) => false
    case Call(_, _, _) => false
    case Then(a, b) => HasLoop(a, l) || HasLoop(b, l)
    case Loop(_, _, _, body, _, _, _, _, _, _, _, _) => n == l || HasLoop(body, l)
  }

  /** Only the latch branches back to the header, and only the header branches on its compare. */
  ghost predicate SoleLatch(f: seq<Block>, l: Node)
    requires l.Loop?
  {
    forall g: BlockId :: g < |f| && f[g].term.Branch? ==>
      && (f[g].term.ifTrue == l.header || f[g].term.ifFalse == l.header ==> g == l.latch)
      && (f[g].term.flag == l.ovf ==> g == l.header)
  }

  /** The function is made of documented loops: every threshold compare heads one of them. */
  ghost predicate Documented(f: seq<Block>, n: Node) {
    && Distinct(n) && Holds(f, n, {})
    && LoopsAlone(f, n)
    && (forall s :: IsCandidate(f, s) ==> HeadsLoop(n, s))
  }

  lemma {:induction false} LoopIsHeld(f: seq<Block>, n: Node, patched: set<BlockId>, l: Node)
    requires HasLoop(n, l) && Holds(f, n, patched) && Distinct(n)
    ensures l.Loop? && Holds(f, l, patched) && Distinct(l) && Labels(l) <= Labels(n) && l.header in Headers(n)
  {
    match n {
      case Then(a, b) => if HasLoop(a, l) { LoopIsHeld(f, a, patched, l); } else { LoopIsHeld(f, b, patched, l); }
      case Loop(_, _, _, body, _, _, _, _, _, _, _, _) => if n != l { LoopIsHeld(f, body, patched, l); }
      case _ =>
    }
  }

  lemma {:induction false} HeadersAreLabels(n: Node)
    ensures Headers(n) <= Labels(n)
  {
    match n {
      case Then(a, b) => HeadersAreLabels(a); HeadersAreLabels(b);
      case Loop(_, _, _, body, _, _, _, _, _, _, _, _) => HeadersAreLabels(body);
      case _ =>
    }
  }

  /** Code that differs only outside a node, in blocks and in the set of edited headers, still holds the node. */
  lemma {:induction false} HoldsElsewhere(f: seq<Block>, f': seq<Block>, n: Node, patched: set<BlockId>, patched': set<BlockId>)
    requires Holds(f, n, patched) && |f| == |f'|
    requires forall b | b in Labels(n) :: b < |f| ==> f[b] == f'[b]
    requires forall b | b in Labels(n) :: b in patched <==> b in patched'
    ensures Holds(f', n, patched')
  {
    match n {
      case Then(a, b) => HoldsElsewhere(f, f', a, patched, patched'); HoldsElsewhere(f, f', b, patched, patched');
      case Loop(_, _, _, body, _, _, _, _, _, _, _, _) => HoldsElsewhere(f, f', body, patched, patched');
      case _ =>
    }
  }

  /** `f'` is `f` with the header and the fatal block of `l` edited. */
  ghost predicate EditedAt(f: seq<Block>, f': seq<Block>, l: Node)
    requires l.Loop?
  {
    && |f| == |f'| && l.header < |f| && l.fatal < |f|
    && f'[l.header] == HeaderBlock(l, 0) && f'[l.fatal] == Block([Fatal], Jump(l.exit))
    && (forall b: BlockId | b < |f| && b != l.header && b != l.fatal :: f[b] == f'[b])
  }

  lemma EditElsewhere(f: seq<Block>, f': seq<Block>, n: Node, patched: set<BlockId>, l: Node)
    requires l.Loop? && EditedAt(f, f', l) && Holds(f, n, patched)
    requires l.header !in Labels(n) && l.fatal !in Labels(n)
    ensures Holds(f', n, patched + {l.header})
  {
    HoldsElsewhere(f, f', n, patched, patched + {l.header});
  }

  /** Editing the header and the fatal block of one loop of `n` edits that loop and leaves every other one as it was. */
  lemma {:induction false} EditOneLoop(f: seq<Block>, f': seq<Block>, n: Node, patched: set<BlockId>, l: Node)
    requires Distinct(n) && Holds(f, n, patched) && HasLoop(n, l) && l.Loop?
    requires EditedAt(f, f', l)
    ensures Holds(f', n, patched + {l.header})
  {
    match n {
      case Then(a, b) =>
        if HasLoop(a, l) {
          LoopIsHeld(f, a, patched, l);
          EditOneLoop(f, f', a, patched, l);
          EditElsewhere(f, f', b, patched, l);
        } else {
          LoopIsHeld(f, b, patched, l);
          EditOneLoop(f, f', b, patched, l);
          EditElsewhere(f, f', a, patched, l);
        }
      case Loop(pre, h, fatal, body, latch, _, _, _, _, _, _, _) =>
        if n == l {
          EditElsewhere(f, f', body, patched, l);
        } else {
          LoopIsHeld(f, body, patched, l);
          EditOneLoop(f, f', body, patched, l);
          assert l.header in Labels(body) && l.fatal in Labels(body);
        }
      case _ =>
    }
  }

  lemma {:induction false} SoleLatchGivesExit(f: seq<Block>, l: Node, n: nat)
    requires l.Loop? && SoleLatch(f, l) && n <= l.latch < |f|
    requires f[l.latch] == LatchBlock(l) && l.exit != l.header
    ensures FindLoopExit(f, l.header, n) == Some(l.exit)
    decreases |f| - n
  {
    if n < l.latch { SoleLatchGivesExit(f, l, n + 1); }
  }

  lemma {:induction false} SoleBranchIsFound(f: seq<Block>, l: Node, n: nat)
    requires l.Loop? && SoleLatch(f, l) && n <= l.header < |f|
    requires f[l.header].term.Branch? && f[l.header].term.flag == l.ovf
    ensures GuardBranch(f, l.ovf, n) == Some(l.header)
    decreases |f| - n
  {
    if n < l.header { SoleBranchIsFound(f, l, n + 1); }
  }

  predicate SameBranches(f: seq<Block>, f': seq<Block>) {
    |f| == |f'| && forall b: BlockId | b < |f| :: f[b].term == f'[b].term || (f[b].term.Jump? && f'[b].term.Jump?)
  }

  lemma SameBranchesKeepLatch(f: seq<Block>, f': seq<Block>, l: Node)
    requires l.Loop? && SoleLatch(f, l) && SameBranches(f, f')
    ensures SoleLatch(f', l)
  {
  }

  /** On the compare of a documented loop the edits are exactly: limit 0 in the header, fatal block to the exit. */
  lemma PatchSiteEditsLoop(f: seq<Block>, l: Node, patched: set<BlockId>)
    requires l.Loop? && Distinct(l) && Holds(f, l, patched) && SoleLatch(f, l)
    requires CompareIndex(l) < |f[l.header].instrs| && f[l.header].instrs[CompareIndex(l)].Over?
    ensures EditedAt(f, PatchSite(f, Site(l.header, CompareIndex(l))), l)
    ensures SameBranches(f, PatchSite(f, Site(l.header, CompareIndex(l))))
  {
    SoleLatchGivesExit(f, l, 0);
    SoleBranchIsFound(f, l, 0);
    var redirected := f[l.fatal := Block(f[l.fatal].instrs, Jump(l.exit))];
    assert PatchSite(f, Site(l.header, CompareIndex(l))) ==
           redirected[l.header := SetLimit(redirected[l.header], CompareIndex(l), 0)];
    assert SetLimit(f[l.header], CompareIndex(l), 0).instrs == HeaderBlock(l, 0).instrs;
  }

  ghost predicate LoopsAlone(f: seq<Block>, n: Node) {
    forall l :: HasLoop(n, l) ==> l.Loop? && SoleLatch(f, l)
  }

  ghost predicate HeadsLoop(n: Node, s: Site) {
    exists l :: HasLoop(n, l) && l.Loop? && s == Site(l.header, CompareIndex(l))
  }

  function SiteBlocks(sites: seq<Site>): set<BlockId> {
    if sites == [] then {} else {sites[0].b} + SiteBlocks(sites[1..])
  }

  lemma {:induction false} SiteIsInSiteBlocks(sites: seq<Site>, s: Site)
    requires s in sites
    ensures s.b in SiteBlocks(sites)
  {
    if s != sites[0] { SiteIsInSiteBlocks(sites[1..], s); }
  }

  lemma {:induction false} PatchSitesEditLoops(f: seq<Block>, n: Node, sites: seq<Site>, patched: set<BlockId>)
    requires Distinct(n) && Holds(f, n, patched) && LoopsAlone(f, n) && StillThere(f, sites)
    requires forall k | 0 <= k < |sites| :: HeadsLoop(n, sites[k])
    ensures Holds(PatchSites(f, sites), n, patched + SiteBlocks(sites))
    decreases |sites|
  {
    if sites == [] {
      assert patched + SiteBlocks(sites) == patched;
    } else {
      assert HeadsLoop(n, sites[0]);
      var l :| HasLoop(n, l) && l.Loop? && sites[0] == Site(l.header, CompareIndex(l));
      PatchSiteOfLoop(f, n, patched, l);
      PatchKeepsSites(f, sites[0], sites[1..]);
      PatchSitesEditLoops(PatchSite(f, sites[0]), n, sites[1..], patched + {l.header});
      assert patched + {l.header} + SiteBlocks(sites[1..]) == patched + SiteBlocks(sites);
    }
  }

  lemma PatchSiteOfLoop(f: seq<Block>, n: Node, patched: set<BlockId>, l: Node)
    requires Distinct(n) && Holds(f, n, patched) && LoopsAlone(f, n) && HasLoop(n, l) && l.Loop?
    requires l.header < |f| && CompareIndex(l) < |f[l.header].instrs| && f[l.header].instrs[CompareIndex(l)].Over?
    ensures Holds(PatchSite(f, Site(l.header, CompareIndex(l))), n, patched + {l.header})
    ensures LoopsAlone(PatchSite(f, Site(l.header, CompareIndex(l))), n)
  {
    var f' := PatchSite(f, Site(l.header, CompareIndex(l)));
    LoopIsHeld(f, n, patched, l);
    PatchSiteEditsLoop(f, l, patched);
    EditOneLoop(f, f', n, patched, l);
    forall m | HasLoop(n, m)
      ensures m.Loop? && SoleLatch(f', m)
    {
      SameBranchesKeepLatch(f, f', m);
    }
  }

  lemma {:induction false} HeaderOfLoop(f: seq<Block>, n: Node, patched: set<BlockId>, h: BlockId) returns (l: Node)
    requires h in Headers(n) && Holds(f, n, patched)
    ensures HasLoop(n, l) && l.Loop? && l.header == h && Holds(f, l, patched)
  {
    match n {
      case Then(a, b) => if h in Headers(a) { l := HeaderOfLoop(f, a, patched, h); }
                         else { l := HeaderOfLoop(f, b, patched, h); }
      case Loop(_, _, _, body, _, _, _, _, _, _, _, _) =>
        if h == n.header { l := n; } else { l := HeaderOfLoop(f, body, patched, h); }
    }
  }

  /** The pass edits every documented loop, nested ones included, and nothing else. */
  lemma PassEditsEveryLoop(f: seq<Block>, n: Node)
    requires Documented(f, n)
    ensures Holds(Patched(f), n, Headers(n))
  {
    CandidatesAre(f, |f|);
    var sites := Candidates(f, |f|);
    assert forall k | 0 <= k < |sites| :: sites[k] in sites;
    assert forall k | 0 <= k < |sites| :: IsCandidate(f, sites[k]) && HeadsLoop(n, sites[k]);
    PatchSitesEditLoops(f, n, sites, {});
    SitesAreHeaders(f, n, sites);
    assert {} + SiteBlocks(sites) == Headers(n);
  }

  lemma SitesAreHeaders(f: seq<Block>, n: Node, sites: seq<Site>)
    requires Distinct(n) && Holds(f, n, {})
    requires forall k | 0 <= k < |sites| :: HeadsLoop(n, sites[k])
    requires forall s: Site :: IsCandidate(f, s) ==> s in sites
    ensures SiteBlocks(sites) == Headers(n)
  {
    SiteBlocksAreHeaders(f, n, sites);
    forall h | h in Headers(n)
      ensures h in SiteBlocks(sites)
    {
      var l := HeaderOfLoop(f, n, {}, h);
      assert IsCandidate(f, Site(h, CompareIndex(l)));
      SiteIsInSiteBlocks(sites, Site(h, CompareIndex(l)));
    }
  }

  lemma {:induction false} SiteBlocksAreHeaders(f: seq<Block>, n: Node, sites: seq<Site>)
    requires Distinct(n) && Holds(f, n, {})
    requires forall k | 0 <= k < |sites| :: HeadsLoop(n, sites[k])
    ensures SiteBlocks(sites) <= Headers(n)
  {
    if sites != [] {
      assert HeadsLoop(n, sites[0]);
      var l :| HasLoop(n, l) && l.Loop? && sites[0] == Site(l.header, CompareIndex(l));
      LoopIsHeld(f, n, {}, l);
      SiteBlocksAreHeaders(f, n, sites[1..]);
    }
  }
}
