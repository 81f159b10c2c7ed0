/** Launching one thread per state: thread indexing, disjoint slices, and the host's step loop. */
module BatchLaunch {
  import opened Prelude
  import opened Cfg

  // ---- thread indices, in 32-bit arithmetic --------------------------------------------------------------------------

  /** Blocks launched by the host. */
  function Grid(nstates: nat, block: nat): nat
    requires 0 < nstates && 0 < block
  {
    ((nstates + block - 1) % W32) / block
  }

  /** The state a thread works on, as the kernel computes it. */
  function Gid(ctaid: nat, ntid: nat, tid: nat): nat {
    ((ctaid * ntid) % W32 + tid) % W32
  }

  /** Some launched thread works on state `s`. */
  ghost predicate Covered(nstates: nat, block: nat, s: nat)
    requires 0 < nstates && 0 < block
  {
    exists c: nat, t: nat :: c < Grid(nstates, block) && t < block && Gid(c, block, t) == s
  }

  lemma GridBounds(nstates: nat, block: nat)
    requires 0 < nstates && 0 < block && nstates + block - 1 < W32
    ensures nstates <= Grid(nstates, block) * block <= nstates + block - 1
  {
    var x := nstates + block - 1;
    assert x == (x / block) * block + x % block;
  }

  lemma GidIsLinear(c: nat, block: nat, t: nat, grid: nat)
    requires c < grid && t < block && grid * block < W32
    ensures Gid(c, block, t) == c * block + t < grid * block
  {
    MulMonotone(c + 1, grid, block);
    assert (c + 1) * block == c * block + block;
    NoWrap(c * block, t);
  }

  lemma NoWrap(p: nat, t: nat)
    requires p + t < W32
    ensures (p % W32 + t) % W32 == p + t
  {
  }

  lemma DivModUnique(c: nat, t: nat, block: nat, s: nat)
    requires 0 < block && t < block && s == c * block + t
    ensures c == s / block && t == s % block
  {
    if c < s / block {
      MulMonotone(c + 1, s / block, block);
    } else if c > s / block {
      MulMonotone(s / block + 1, c, block);
    }
  }

  lemma QuotientBelow(c: nat, grid: nat, block: nat, s: nat)
    requires c * block <= s < grid * block
    ensures c < grid
  {
    if c >= grid {
      MulMonotone(grid, c, block);
    }
  }

  lemma DivModIs(s: nat, block: nat)
    requires 0 < block
    ensures s == (s / block) * block + s % block && s % block < block
  {
  }

  lemma ThreadIsThere(nstates: nat, block: nat, c: nat, t: nat)
    requires 0 < nstates && 0 < block && nstates + block - 1 < W32 && t < block && c * block + t < nstates
    ensures c < Grid(nstates, block) && Gid(c, block, t) == c * block + t
  {
    GridBounds(nstates, block);
    QuotientBelow(c, Grid(nstates, block), block, c * block + t);
    GidIsLinear(c, block, t, Grid(nstates, block));
  }

  lemma ThreadIsUnique(nstates: nat, block: nat, c: nat, t: nat)
    requires 0 < nstates && 0 < block && nstates + block - 1 < W32 && c < Grid(nstates, block) && t < block
    ensures c == Gid(c, block, t) / block && t == Gid(c, block, t) % block
  {
    GridBounds(nstates, block);
    GidIsLinear(c, block, t, Grid(nstates, block));
    DivModUnique(c, t, block, Gid(c, block, t));
  }

  /** Exactly one thread runs each state, when the launch arithmetic does not wrap. */
  lemma EachStateOnce(nstates: nat, block: nat, s: nat)
    requires 0 < nstates && 0 < block && nstates + block - 1 < W32 && s < nstates
    ensures s / block < Grid(nstates, block) && s % block < block && Gid(s / block, block, s % block) == s
    ensures forall c: nat, t: nat :: c < Grid(nstates, block) && t < block && Gid(c, block, t) == s ==> c == s / block && t == s % block
  {
    hide Grid, Gid;
    DivModIs(s, block);
    ThreadIsThere(nstates, block, s / block, s % block);
    forall c: nat, t: nat | c < Grid(nstates, block) && t < block && Gid(c, block, t) == s
      ensures c == s / block && t == s % block
    {
      ThreadIsUnique(nstates, block, c, t);
    }
  }

  lemma WrapEmptiesGrid(nstates: nat, block: nat)
    requires 0 < nstates < W32 && 0 < block < W32 && nstates + block - 1 >= W32
    ensures Grid(nstates, block) == 0
  {
    var x := nstates + block - 1 - W32;
    assert (nstates + block - 1) % W32 == x;
    DivModUnique(0, x, block, x);
  }

  lemma NoWrapCoversAll(nstates: nat, block: nat)
    requires 0 < nstates && 0 < block && nstates + block - 1 < W32
    ensures forall s: nat :: s < nstates ==> Covered(nstates, block, s)
  {
    hide Grid, Gid;
    forall s: nat | s < nstates ensures Covered(nstates, block, s) {
      EachStateOnce(nstates, block, s);
    }
  }

  /**
   Every state is run if and only if `nstates + block - 1` fits in 32 bits. Beyond that the rounding-up wraps and the
   grid is empty: no state is run at all.
   */
  lemma AllCoveredIffNoWrap(nstates: nat, block: nat)
    requires 0 < nstates < W32 && 0 < block < W32
    ensures (forall s: nat :: s < nstates ==> Covered(nstates, block, s)) <==> nstates + block - 1 < W32
    ensures nstates + block - 1 >= W32 ==> Grid(nstates, block) == 0
  {
    hide Grid, Gid;
    if nstates + block - 1 < W32 {
      NoWrapCoversAll(nstates, block);
    } else {
      WrapEmptiesGrid(nstates, block);
      assert !Covered(nstates, block, 0);
    }
  }

  // ---- slices of the device buffer -----------------------------------------------------------------------------------

  /** Byte offset of slice `g`. */
  function Base(g: nat, storage: nat): nat {
    if g == 0 then 0 else Base(g - 1, storage) + storage
  }

  lemma {:induction false} BaseIsProduct(g: nat, storage: nat)
    ensures Base(g, storage) == g * storage
  {
    if g > 0 {
      BaseIsProduct(g - 1, storage);
      assert g * storage == (g - 1) * storage + storage;
    }
  }

  /** `nstates` consecutive slices of `storage` bytes. */
  predicate IsBuffer(m: Mem, storage: nat, nstates: nat) {
    |m| == Base(nstates, storage)
  }

  lemma {:induction false} SlicesApart(storage: nat, g: nat, h: nat)
    requires g < h
    ensures Base(g, storage) + storage <= Base(h, storage)
    decreases h
  {
    if g + 1 < h { SlicesApart(storage, g, h - 1); }
  }

  /** The bytes of state `g`. */
  function Slice(m: Mem, storage: nat, nstates: nat, g: nat): (s: Mem)
    requires IsBuffer(m, storage, nstates) && g < nstates
    ensures |s| == storage
    decreases g
  {
    if g == 0 then m[..storage] else Slice(m[storage..], storage, nstates - 1, g - 1)
  }

  function PutSlice(m: Mem, storage: nat, nstates: nat, g: nat, s: Mem): (r: Mem)
    requires IsBuffer(m, storage, nstates) && g < nstates && |s| == storage
    ensures IsBuffer(r, storage, nstates)
    decreases g
  {
    if g == 0 then s + m[storage..] else m[..storage] + PutSlice(m[storage..], storage, nstates - 1, g - 1, s)
  }

  /** A slice is where the kernel's pointer arithmetic finds it. */
  lemma {:induction false} SliceIsAtOffset(m: Mem, storage: nat, nstates: nat, g: nat)
    requires IsBuffer(m, storage, nstates) && g < nstates
    ensures Base(g, storage) + storage <= |m|
    ensures Slice(m, storage, nstates, g) == m[Base(g, storage)..Base(g, storage) + storage]
    decreases g
  {
    SlicesApart(storage, g, nstates);
    if g > 0 {
      SliceIsAtOffset(m[storage..], storage, nstates - 1, g - 1);
    }
  }

  /** Splicing `s` into what follows the first `k` bytes is splicing it `k` bytes later. */
  lemma SpliceLater(m: Mem, k: nat, at: nat, s: Mem)
    requires k + at + |s| <= |m|
    ensures m[..k] + (m[k..][..at] + s + m[k..][at + |s|..]) == m[..at + k] + s + m[at + k + |s|..]
  {
    assert m[..k] + m[k..][..at] == m[..at + k];
    assert m[k..][at + |s|..] == m[at + k + |s|..];
  }

  lemma PutFirst(m: Mem, storage: nat, nstates: nat, s: Mem)
    requires IsBuffer(m, storage, nstates) && 0 < nstates && |s| == storage
    ensures Base(0, storage) == 0 && storage <= |m|
    ensures PutSlice(m, storage, nstates, 0, s) == m[..0] + s + m[storage..]
  {
  }

  lemma PutLater(m: Mem, storage: nat, nstates: nat, g: nat, s: Mem)
    requires IsBuffer(m, storage, nstates) && 0 < g < nstates && |s| == storage
    ensures storage <= |m| && IsBuffer(m[storage..], storage, nstates - 1) && Base(g, storage) == Base(g - 1, storage) + storage
    ensures PutSlice(m, storage, nstates, g, s) == m[..storage] + PutSlice(m[storage..], storage, nstates - 1, g - 1, s)
  {
  }

  lemma {:induction false} PutIsAtOffset(m: Mem, storage: nat, nstates: nat, g: nat, s: Mem)
    requires IsBuffer(m, storage, nstates) && g < nstates && |s| == storage
    ensures Base(g, storage) + storage <= |m|
    ensures PutSlice(m, storage, nstates, g, s) == m[..Base(g, storage)] + s + m[Base(g, storage) + storage..]
    decreases g
  {
    hide PutSlice, Base;
    SlicesApart(storage, g, nstates);
    if g == 0 {
      PutFirst(m, storage, nstates, s);
    } else {
      PutLater(m, storage, nstates, g, s);
      PutIsAtOffset(m[storage..], storage, nstates - 1, g - 1, s);
      SpliceLater(m, storage, Base(g - 1, storage), s);
    }
  }

  /** Writing one slice changes that slice and no other. */
  lemma {:induction false} PutThenSlice(m: Mem, storage: nat, nstates: nat, g: nat, s: Mem, h: nat)
    requires IsBuffer(m, storage, nstates) && g < nstates && h < nstates && |s| == storage
    ensures Slice(PutSlice(m, storage, nstates, g, s), storage, nstates, h) == (if h == g then s else Slice(m, storage, nstates, h))
    decreases g
  {
    var r := PutSlice(m, storage, nstates, g, s);
    if g == 0 {
      assert r[storage..] == m[storage..] && r[..storage] == s;
    } else {
      var tail := PutSlice(m[storage..], storage, nstates - 1, g - 1, s);
      assert r[storage..] == tail && r[..storage] == m[..storage];
      if h > 0 { PutThenSlice(m[storage..], storage, nstates - 1, g - 1, s, h - 1); }
    }
  }

  /** A buffer is determined by its slices. */
  lemma {:induction false} SlicesDetermine(a: Mem, b: Mem, storage: nat, nstates: nat)
    requires IsBuffer(a, storage, nstates) && IsBuffer(b, storage, nstates)
    requires forall g: nat | g < nstates :: Slice(a, storage, nstates, g) == Slice(b, storage, nstates, g)
    ensures a == b
    decreases nstates
  {
    if nstates > 0 {
      assert Slice(a, storage, nstates, 0) == Slice(b, storage, nstates, 0);
      var a', b', n := a[storage..], b[storage..], nstates - 1;
      forall g: nat | g < n ensures Slice(a', storage, n, g) == Slice(b', storage, n, g) {
        assert Slice(a, storage, nstates, g + 1) == Slice(b, storage, nstates, g + 1);
      }
      SlicesDetermine(a[storage..], b[storage..], storage, nstates - 1);
      assert a == a[..storage] + a[storage..] && b == b[..storage] + b[storage..];
    }
  }

  // ---- any interleaving of a launch's threads --------------------------------------------------------------------------

  /** One thread of a launch: its block, and its place in the block. */
  datatype ThreadId = ThreadId(ctaid: nat, tid: nat)

  datatype Launch = Launch(nstates: nat, block: nat) {
    predicate Valid() { 0 < nstates && 0 < block }

    /** The grid size is computed without wrapping. */
    predicate Fits() { Valid() && nstates + block - 1 < W32 }

    predicate Has(p: ThreadId)
      requires Valid()
    {
      p.ctaid < Grid(nstates, block) && p.tid < block
    }

    /** The state a thread works on, when there is one with that number. */
    function StateOf(p: ThreadId): nat { Gid(p.ctaid, block, p.tid) }

    ghost function Threads(): (r: set<ThreadId>)
      requires Valid()
      ensures forall p :: p in r <==> Has(p)
    {
      var r := set c: nat, t: nat | c < Grid(nstates, block) && t < block :: ThreadId(c, t);
      assert forall p | Has(p) :: p == ThreadId(p.ctaid, p.tid);
      r
    }
  }

  /** The one thread of a launch that works on state `g`. */
  function WorkerOf(l: Launch, g: nat): ThreadId
    requires l.Valid()
  {
    ThreadId(g / l.block, g % l.block)
  }

  lemma OneWorker(l: Launch, g: nat)
    requires l.Fits() && g < l.nstates
    ensures l.Has(WorkerOf(l, g)) && l.StateOf(WorkerOf(l, g)) == g
    ensures forall p | l.Has(p) && l.StateOf(p) == g :: p == WorkerOf(l, g)
  {
    EachStateOnce(l.nstates, l.block, g);
    forall p | l.Has(p) && l.StateOf(p) == g ensures p == WorkerOf(l, g) {
      assert Gid(p.ctaid, l.block, p.tid) == g;
    }
  }

  /** What a thread runs: a state that each step updates together with the thread's own slice, and the state of one at its end. */
  datatype Machine<!S> = Machine(init: S, done: S, step: (S, Mem) -> (S, Mem))

  ghost predicate KeepsSize<S(!new)>(k: Machine<S>) {
    forall s: S, m: Mem :: |k.step(s, m).1| == |m|
  }

  function Iterate<S>(k: Machine<S>, s: S, m: Mem, n: nat): (S, Mem)
    decreases n
  {
    if n == 0 then (s, m) else var (s', m') := Iterate(k, s, m, n - 1); k.step(s', m')
  }

  lemma {:induction false} IterateKeepsSize<S(!new)>(k: Machine<S>, s: S, m: Mem, n: nat)
    requires KeepsSize(k)
    ensures |Iterate(k, s, m, n).1| == |m|
  {
    if n > 0 { IterateKeepsSize(k, s, m, n - 1); }
  }

  datatype Device<!S> = Device(threads: map<ThreadId, S>, mem: Mem)

  /** A thread takes one step, on its own state and its own slice; a thread past the last state ends at once. */
  function StepThread<S(!new)>(k: Machine<S>, storage: nat, l: Launch, d: Device<S>, p: ThreadId): (r: Device<S>)
    requires KeepsSize(k) && IsBuffer(d.mem, storage, l.nstates) && p in d.threads
    ensures IsBuffer(r.mem, storage, l.nstates) && r.threads.Keys == d.threads.Keys
  {
    var g := l.StateOf(p);
    if g < l.nstates then
      var (s, m) := k.step(d.threads[p], Slice(d.mem, storage, l.nstates, g));
      Device(d.threads[p := s], PutSlice(d.mem, storage, l.nstates, g, m))
    else Device(d.threads[p := k.done], d.mem)
  }

  /** Run a schedule: the threads that take a step, in order. */
  function RunSchedule<S(!new)>(k: Machine<S>, storage: nat, l: Launch, d: Device<S>, schedule: seq<ThreadId>): (r: Device<S>)
    requires KeepsSize(k) && IsBuffer(d.mem, storage, l.nstates)
    requires forall i | 0 <= i < |schedule| :: schedule[i] in d.threads
    ensures IsBuffer(r.mem, storage, l.nstates) && r.threads.Keys == d.threads.Keys
    decreases |schedule|
  {
    if schedule == [] then d
    else
      var last := |schedule| - 1;
      StepThread(k, storage, l, RunSchedule(k, storage, l, d, schedule[..last]), schedule[last])
  }

  function Turns(schedule: seq<ThreadId>, p: ThreadId): nat {
    if schedule == [] then 0
    else Turns(schedule[..|schedule| - 1], p) + (if schedule[|schedule| - 1] == p then 1 else 0)
  }

  /**
   Whatever the schedule of a launch, what state `g` and its thread have become depends only on how many steps that
   thread took: it is as if the thread had run alone on its slice.
   */
  lemma {:induction false} InterleavingProjects<S(!new)>(
      k: Machine<S>, storage: nat, l: Launch, d: Device<S>, schedule: seq<ThreadId>, g: nat)
    requires KeepsSize(k) && l.Fits() && g < l.nstates
    requires IsBuffer(d.mem, storage, l.nstates) && d.threads.Keys == l.Threads()
    requires forall i | 0 <= i < |schedule| :: schedule[i] in d.threads
    ensures WorkerOf(l, g) in d.threads
    ensures var r := RunSchedule(k, storage, l, d, schedule);
            (r.threads[WorkerOf(l, g)], Slice(r.mem, storage, l.nstates, g))
            == Iterate(k, d.threads[WorkerOf(l, g)], Slice(d.mem, storage, l.nstates, g), Turns(schedule, WorkerOf(l, g)))
    decreases |schedule|
  {
    hide Slice, PutSlice, Grid, Gid;
    OneWorker(l, g);
    if schedule != [] {
      var last := |schedule| - 1;
      InterleavingProjects(k, storage, l, d, schedule[..last], g);
      var before := RunSchedule(k, storage, l, d, schedule[..last]);
      var h := l.StateOf(schedule[last]);
      if h < l.nstates {
        var (s, m) := k.step(before.threads[schedule[last]], Slice(before.mem, storage, l.nstates, h));
        PutThenSlice(before.mem, storage, l.nstates, h, m, g);
      }
    }
  }

  /** A thread past the last state has ended as soon as it has had a turn. */
  lemma {:induction false} IdleThreadEnds<S(!new)>(
      k: Machine<S>, storage: nat, l: Launch, d: Device<S>, schedule: seq<ThreadId>, p: ThreadId)
    requires KeepsSize(k) && IsBuffer(d.mem, storage, l.nstates) && p in d.threads && l.StateOf(p) >= l.nstates
    requires forall i | 0 <= i < |schedule| :: schedule[i] in d.threads
    ensures RunSchedule(k, storage, l, d, schedule).threads[p] == if Turns(schedule, p) > 0 then k.done else d.threads[p]
    decreases |schedule|
  {
    if schedule != [] { IdleThreadEnds(k, storage, l, d, schedule[..|schedule| - 1], p); }
  }

  lemma {:induction false} TurnsAdd(a: seq<ThreadId>, b: seq<ThreadId>, p: ThreadId)
    ensures Turns(a + b, p) == Turns(a, p) + Turns(b, p)
    decreases |b|
  {
    if b == [] {
      assert a + b == a;
    } else {
      assert (a + b)[..|a + b| - 1] == a + b[..|b| - 1];
      TurnsAdd(a, b[..|b| - 1], p);
    }
  }

  /** Some schedule gives every thread a turn. */
  lemma {:induction false} OneRound(threads: set<ThreadId>) returns (schedule: seq<ThreadId>)
    ensures forall p | p in schedule :: p in threads
    ensures forall p | p in threads :: Turns(schedule, p) >= 1
    decreases |threads|
  {
    schedule := [];
    if q :| q in threads {
      var rest := OneRound(threads - {q});
      schedule := rest + [q];
      forall p | p in threads ensures Turns(schedule, p) >= 1 { TurnsAdd(rest, [q], p); }
    }
  }

  /** Some schedule gives every thread `n` turns. */
  lemma {:induction false} ManyRounds(threads: set<ThreadId>, n: nat) returns (schedule: seq<ThreadId>)
    ensures forall p | p in schedule :: p in threads
    ensures forall p | p in threads :: Turns(schedule, p) >= n
    decreases n
  {
    schedule := [];
    if n > 0 {
      var rest := ManyRounds(threads, n - 1);
      var round := OneRound(threads);
      schedule := rest + round;
      forall p | p in threads ensures Turns(schedule, p) >= n { TurnsAdd(rest, round, p); }
    }
  }

  /** A buffer with given slices. */
  function Joined(slices: seq<Mem>, storage: nat): (m: Mem)
    requires forall g | 0 <= g < |slices| :: |slices[g]| == storage
    ensures IsBuffer(m, storage, |slices|)
  {
    if slices == [] then [] else slices[0] + Joined(slices[1..], storage)
  }

  lemma {:induction false} JoinedSlices(slices: seq<Mem>, storage: nat, g: nat)
    requires g < |slices| && forall g | 0 <= g < |slices| :: |slices[g]| == storage
    ensures Slice(Joined(slices, storage), storage, |slices|, g) == slices[g]
    decreases g
  {
    var m := Joined(slices, storage);
    assert m[storage..] == Joined(slices[1..], storage) && m[..storage] == slices[0];
    if g > 0 { JoinedSlices(slices[1..], storage, g - 1); }
  }

  // ---- writing the device buffer ---------------------------------------------------------------------------------------

  method WriteSlice(buf: array<Byte>, at: nat, s: Mem)
    requires at + |s| <= buf.Length
    modifies buf
    ensures buf[..] == old(buf[..at]) + s + old(buf[at + |s|..])
  {
    ghost var was := buf[..];
    for i := 0 to |s|
      invariant buf[..] == was[..at] + s[..i] + was[at + i..]
    {
      buf[at + i] := s[i];
    }
  }
}
