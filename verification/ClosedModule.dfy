/** Which functions the generator keeps, stubs and deletes, and why the module it writes is closed. */
module ClosedModule {
  import opened Prelude

  type FnId = nat

  /** `Direct` calls a function as it is, `Cast` through pointer casts; any other call has no known callee. */
  datatype Call = Direct(callee: FnId) | Cast(callee: FnId) | Indirect

  datatype Body = Declared | Original | Stub

  /** `text` is the printed function, which the classifier searches. */
  datatype Fn = Fn(name: string, params: nat, body: Body, calls: seq<Call>, text: string)

  type Module = seq<Fn>

  // ---- names ------------------------------------------------------------------------------------------------------------------

  predicate StartsWith(s: string, p: string) { |p| <= |s| && s[..|p|] == p }

  predicate Contains(s: string, p: string) { StartsWith(s, p) || (s != "" && Contains(s[1..], p)) }

  predicate IsForceInclude(name: string) { Contains(name, "___ico_sequent") || Contains(name, "___nba_comb") }

  predicate IsRootLocal(name: string) { Contains(name, "___024root___") }

  const RUNTIME_PREFIXES: seq<string> := [
    "_ZN9Verilated", "_ZNK9Verilated", "_ZN16VerilatedContext", "_ZNK16VerilatedContext", "_ZN14VerilatedModel",
    "_ZNK14VerilatedModel", "_ZN9VlDeleter", "_ZNSt", "_ZSt", "_Z13sc_time_stamp", "_Z15vl_time_stamp", "__cxa_", "_ZTHN"]

  predicate HasRuntimePrefix(name: string) { exists i | 0 <= i < |RUNTIME_PREFIXES| :: StartsWith(name, RUNTIME_PREFIXES[i]) }

  predicate IsIntrinsic(name: string) { StartsWith(name, "llvm.") }

  predicate HostLikeDecl(f: Fn) { f.body.Declared? && !IsIntrinsic(f.name) && HasRuntimePrefix(f.name) }

  /** `classifyRuntimeReason` */
  predicate IsRuntime(f: Fn) {
    && !IsForceInclude(f.name) && !IsRootLocal(f.name)
    && (HasRuntimePrefix(f.name) || Contains(f.text, "@_ZGVZ") || Contains(f.text, "VerilatedSyms")
        || Contains(f.text, "_gpu_cov_tb__Syms"))
  }

  /** `p` stands somewhere in `s`. */
  ghost predicate Within(s: string, p: string) { exists i: nat :: StandsAt(s, p, i) }

  predicate StandsAt(s: string, p: string, i: nat) { i + |p| <= |s| && s[i..i + |p|] == p }

  lemma {:induction false} ContainsMeans(s: string, p: string)
    ensures Contains(s, p) <==> Within(s, p)
  {
    if StartsWith(s, p) {
      assert StandsAt(s, p, 0);
    } else if s != "" {
      ContainsMeans(s[1..], p);
      if Within(s[1..], p) {
        var i: nat :| StandsAt(s[1..], p, i);
        assert StandsAt(s, p, i + 1);
      }
      if Within(s, p) {
        var i: nat :| StandsAt(s, p, i);
        assert StandsAt(s[1..], p, i - 1);
      }
    }
  }

  /** `name` is `p` followed by anything. */
  ghost predicate Opens(p: string, name: string) { exists rest: string :: name == p + rest }

  lemma StartsWithMeans(name: string, p: string)
    ensures StartsWith(name, p) <==> Opens(p, name)
  {
    if StartsWith(name, p) { assert name == p + name[|p|..]; }
  }

  /** Names of Verilator's and C++'s runtime. */
  ghost predicate RuntimeName(name: string) {
    || Opens("_ZN9Verilated", name) || Opens("_ZNK9Verilated", name)
    || Opens("_ZN16VerilatedContext", name) || Opens("_ZNK16VerilatedContext", name)
    || Opens("_ZN14VerilatedModel", name) || Opens("_ZNK14VerilatedModel", name)
    || Opens("_ZN9VlDeleter", name) || Opens("_ZNSt", name) || Opens("_ZSt", name)
    || Opens("_Z13sc_time_stamp", name) || Opens("_Z15vl_time_stamp", name) || Opens("__cxa_", name) || Opens("_ZTHN", name)
  }

  lemma RuntimePrefixMeans(name: string)
    ensures HasRuntimePrefix(name) <==> RuntimeName(name)
  {
    forall i | 0 <= i < |RUNTIME_PREFIXES|
      ensures StartsWith(name, RUNTIME_PREFIXES[i]) <==> Opens(RUNTIME_PREFIXES[i], name)
    {
      StartsWithMeans(name, RUNTIME_PREFIXES[i]);
    }
    hide StartsWith, Opens;
    assert RuntimeName(name) <==> exists i | 0 <= i < |RUNTIME_PREFIXES| :: Opens(RUNTIME_PREFIXES[i], name) by {
      var p := RUNTIME_PREFIXES;
      assert RuntimeName(name) <==>
             Opens(p[0], name) || Opens(p[1], name) || Opens(p[2], name) || Opens(p[3], name) || Opens(p[4], name)
             || Opens(p[5], name) || Opens(p[6], name) || Opens(p[7], name) || Opens(p[8], name) || Opens(p[9], name)
             || Opens(p[10], name) || Opens(p[11], name) || Opens(p[12], name);
    }
  }

  /** The classifier's rule, on the name and the printed text: a runtime name or a marker, and nothing of the design. */
  ghost predicate RuntimeByRule(f: Fn) {
    && !Within(f.name, "___ico_sequent") && !Within(f.name, "___nba_comb") && !Within(f.name, "___024root___")
    && (RuntimeName(f.name) || Within(f.text, "@_ZGVZ") || Within(f.text, "VerilatedSyms") || Within(f.text, "_gpu_cov_tb__Syms"))
  }

  lemma RuntimeMeans(f: Fn)
    ensures IsRuntime(f) <==> RuntimeByRule(f)
    ensures IsForceInclude(f.name) <==> Within(f.name, "___ico_sequent") || Within(f.name, "___nba_comb")
    ensures IsRootLocal(f.name) <==> Within(f.name, "___024root___")
  {
    hide Contains, Within, HasRuntimePrefix, RuntimeName;
    ContainsMeans(f.name, "___ico_sequent");
    ContainsMeans(f.name, "___nba_comb");
    ContainsMeans(f.name, "___024root___");
    ContainsMeans(f.text, "@_ZGVZ");
    ContainsMeans(f.text, "VerilatedSyms");
    ContainsMeans(f.text, "_gpu_cov_tb__Syms");
    RuntimePrefixMeans(f.name);
  }

  predicate WellFormed(m: Module) {
    forall f | 0 <= f < |m| ::
      (m[f].body != Original ==> m[f].calls == [])
      && forall i | 0 <= i < |m[f].calls| :: m[f].calls[i] != Indirect ==> m[f].calls[i].callee < |m|
  }

  // ---- reachability -----------------------------------------------------------------------------------------------------------

  /** The defined functions called, casts stripped, in instruction order. */
  function Callees(m: Module, calls: seq<Call>): seq<FnId> {
    if calls == [] then []
    else
      var c := calls[0];
      (if c.Indirect? || c.callee >= |m| || m[c.callee].body.Declared? then [] else [c.callee]) + Callees(m, calls[1..])
  }

  ghost predicate ReachesIn(m: Module, root: FnId, f: FnId, k: nat)
    decreases k
  {
    if k == 0 then f == root
    else exists g: FnId :: g < |m| && ReachesIn(m, root, g, k - 1) && f in Callees(m, m[g].calls)
  }

  ghost predicate Reaches(m: Module, root: FnId, f: FnId) { exists k: nat :: ReachesIn(m, root, f, k) }

  ghost predicate CallsDefined(m: Module, calls: seq<Call>, c: int) {
    0 <= c < |m| && !m[c].body.Declared? && (Direct(c) in calls || Cast(c) in calls)
  }

  lemma {:induction false} CalleesAreDefined(m: Module, calls: seq<Call>)
    ensures forall c :: c in Callees(m, calls) <==> CallsDefined(m, calls, c)
  {
    if calls != [] {
      CalleesAreDefined(m, calls[1..]);
      assert calls == [calls[0]] + calls[1..];
    }
  }

  /** Everything in `s` that is called from `s` is in `s` or waits on the stack. */
  ghost predicate ClosedUpTo(m: Module, s: set<FnId>, stack: seq<FnId>) {
    forall g, c | g in s && g < |m| && c in Callees(m, m[g].calls) :: c in s || c in stack
  }

  ghost predicate AllReached(m: Module, root: FnId, s: set<FnId>, stack: seq<FnId>) {
    && (forall f | f in s :: f < |m| && Reaches(m, root, f))
    && (forall i | 0 <= i < |stack| :: stack[i] < |m| && Reaches(m, root, stack[i]))
  }

  lemma ReachesOn(m: Module, root: FnId, g: FnId, c: FnId)
    requires g < |m| && Reaches(m, root, g) && c in Callees(m, m[g].calls)
    ensures c < |m| && Reaches(m, root, c)
  {
    CalleesAreDefined(m, m[g].calls);
    var k: nat :| ReachesIn(m, root, g, k);
    assert ReachesIn(m, root, c, k + 1);
  }

  lemma {:induction false} ClosedHoldsReached(m: Module, root: FnId, s: set<FnId>, f: FnId, k: nat)
    requires root in s && ClosedUpTo(m, s, []) && ReachesIn(m, root, f, k)
    ensures f in s
    decreases k
  {
    if k > 0 {
      var g: FnId :| g < |m| && ReachesIn(m, root, g, k - 1) && f in Callees(m, m[g].calls);
      ClosedHoldsReached(m, root, s, g, k - 1);
    }
  }

  /** `collectReachable`: exactly the functions reached from the root through calls to defined functions. */
  method CollectReachable(m: Module, root: FnId) returns (out: set<FnId>)
    requires root < |m|
    ensures forall f :: f in out <==> Reaches(m, root, f)
    ensures root in out && ClosedUpTo(m, out, [])
    ensures forall f | f in out :: f < |m|
  {
    out := {};
    var stack := [root];
    assert ReachesIn(m, root, root, 0);
    while stack != []
      invariant AllReached(m, root, out, stack) && ClosedUpTo(m, out, stack)
      invariant root in out || root in stack
      decreases Below(|m|) - out, |stack|
    {
      var f := stack[|stack| - 1];
      var below := stack[..|stack| - 1];
      assert stack == below + [f];
      if f in out {
        PopSeen(m, root, out, below, f);
        stack := below;
      } else {
        PopNew(m, root, out, below, f);
        assert f in Below(|m|) - out;
        out := out + {f};
        stack := below + Callees(m, m[f].calls);
      }
    }
    forall f | Reaches(m, root, f)
      ensures f in out
    {
      var k: nat :| ReachesIn(m, root, f, k);
      ClosedHoldsReached(m, root, out, f, k);
    }
  }

  lemma PopSeen(m: Module, root: FnId, out: set<FnId>, below: seq<FnId>, f: FnId)
    requires f in out && AllReached(m, root, out, below + [f]) && ClosedUpTo(m, out, below + [f])
    ensures AllReached(m, root, out, below) && ClosedUpTo(m, out, below)
  {
    forall i | 0 <= i < |below|
      ensures below[i] < |m| && Reaches(m, root, below[i])
    {
      assert below[i] == (below + [f])[i];
    }
  }

  lemma PopNew(m: Module, root: FnId, out: set<FnId>, below: seq<FnId>, f: FnId)
    requires f < |m| && AllReached(m, root, out, below + [f]) && ClosedUpTo(m, out, below + [f])
    ensures AllReached(m, root, out + {f}, below + Callees(m, m[f].calls))
    ensures ClosedUpTo(m, out + {f}, below + Callees(m, m[f].calls))
  {
    NewIsReached(m, root, out, below, f);
    NewIsClosed(m, out, below, f);
  }

  lemma NewIsReached(m: Module, root: FnId, out: set<FnId>, below: seq<FnId>, f: FnId)
    requires f < |m| && AllReached(m, root, out, below + [f])
    ensures AllReached(m, root, out + {f}, below + Callees(m, m[f].calls))
  {
    var stack, called := below + [f], Callees(m, m[f].calls);
    assert stack[|below|] == f;
    forall i | 0 <= i < |below + called|
      ensures (below + called)[i] < |m| && Reaches(m, root, (below + called)[i])
    {
      if i < |below| {
        assert (below + called)[i] == stack[i];
      } else {
        assert (below + called)[i] == called[i - |below|];
        assert called[i - |below|] in called;
        ReachesOn(m, root, f, called[i - |below|]);
      }
    }
  }

  lemma NewIsClosed(m: Module, out: set<FnId>, below: seq<FnId>, f: FnId)
    requires f < |m| && ClosedUpTo(m, out, below + [f])
    ensures ClosedUpTo(m, out + {f}, below + Callees(m, m[f].calls))
  {
    var called := Callees(m, m[f].calls);
    forall g, c | g in out + {f} && g < |m| && c in Callees(m, m[g].calls)
      ensures c in out + {f} || c in below + called
    {
      if g != f && c !in out {
        assert c in below + [f];
      }
    }
  }

  // ---- placement --------------------------------------------------------------------------------------------------------------

  datatype Reason = Reason(category: string, detail: string)

  /** The first host-like declaration called, casts stripped. */
  function FirstHost(m: Module, calls: seq<Call>): (r: Option<FnId>)
    ensures r.Some? ==> r.value < |m|
  {
    if calls == [] then None
    else
      var c := calls[0];
      if !c.Indirect? && c.callee < |m| && HostLikeDecl(m[c.callee]) then Some(c.callee) else FirstHost(m, calls[1..])
  }

  /** `mergeRuntimeViaDeclCalls` for one function: a call to a host-like declaration, outside the design's own functions. */
  predicate JoinsRuntime(m: Module, f: FnId) {
    f < |m| && !IsRootLocal(m[f].name) && FirstHost(m, m[f].calls).Some?
  }

  function Classified(m: Module, reach: set<FnId>): set<FnId> { set f | f in reach && f < |m| && IsRuntime(m[f]) }

  function Merged(m: Module, reach: set<FnId>, runtime: set<FnId>): set<FnId> {
    runtime + set f | f in reach && JoinsRuntime(m, f)
  }

  /** A declaration of the runtime that is no intrinsic. */
  ghost predicate HostDeclaration(m: Module, c: int) {
    0 <= c < |m| && m[c].body.Declared? && !Opens("llvm.", m[c].name) && RuntimeName(m[c].name)
  }

  /** `f` calls such a declaration, as it is or through casts. */
  ghost predicate CallsHost(m: Module, f: FnId)
    requires f < |m|
  {
    exists c: FnId :: HostDeclaration(m, c) && (Direct(c) in m[f].calls || Cast(c) in m[f].calls)
  }

  lemma HostMeans(m: Module, c: FnId)
    ensures c < |m| && HostLikeDecl(m[c]) <==> HostDeclaration(m, c)
  {
    if c < |m| {
      RuntimePrefixMeans(m[c].name);
      StartsWithMeans(m[c].name, "llvm.");
    }
  }

  lemma {:induction false} FirstHostIs(m: Module, calls: seq<Call>)
    ensures FirstHost(m, calls).Some? <==> exists c: FnId :: HostDeclaration(m, c) && (Direct(c) in calls || Cast(c) in calls)
  {
    if calls != [] {
      hide HostDeclaration, HostLikeDecl;
      if !calls[0].Indirect? { HostMeans(m, calls[0].callee); }
      FirstHostIs(m, calls[1..]);
      assert calls == [calls[0]] + calls[1..];
    }
  }

  /** The host callee that is reported is the first one in instruction order. */
  lemma {:induction false} FirstHostIsFirst(m: Module, calls: seq<Call>) returns (i: nat)
    requires FirstHost(m, calls).Some?
    ensures i < |calls| && !calls[i].Indirect? && calls[i].callee == FirstHost(m, calls).value && HostDeclaration(m, calls[i].callee)
    ensures forall j | 0 <= j < i :: !calls[j].Indirect? ==> !HostDeclaration(m, calls[j].callee)
  {
    hide HostDeclaration, HostLikeDecl;
    i := 0;
    if !calls[0].Indirect? { HostMeans(m, calls[0].callee); }
    if calls[0].Indirect? || !HostDeclaration(m, calls[0].callee) {
      i := FirstHostIsFirst(m, calls[1..]);
      i := i + 1;
    }
  }

  /** Which reachable functions are runtime: those the rule names, and with the merge those outside the design that call a host declaration. */
  lemma PlacedExactly(m: Module, reach: set<FnId>, f: FnId)
    requires f < |m|
    ensures f in Classified(m, reach) <==> f in reach && RuntimeByRule(m[f])
    ensures f in Merged(m, reach, Classified(m, reach)) <==>
            f in reach && (RuntimeByRule(m[f]) || (!Within(m[f].name, "___024root___") && CallsHost(m, f)))
  {
    RuntimeMeans(m[f]);
    FirstHostIs(m, m[f].calls);
  }

  method HostCallee(m: Module, calls: seq<Call>) returns (r: Option<FnId>)
    ensures r == FirstHost(m, calls)
  {
    r := None;
    for i := 0 to |calls|
      invariant FirstHost(m, calls) == FirstHost(m, calls[i..])
    {
      assert calls[i..][0] == calls[i] && calls[i..][1..] == calls[i + 1..];
      var c := calls[i];
      if !c.Indirect? && c.callee < |m| && HostLikeDecl(m[c.callee]) {
        return Some(c.callee);
      }
    }
    assert calls[|calls|..] == [];
  }

  /**
   * The repeated pass over the reachable set, in whatever order the set is iterated: the result is the closed form, with
   * each newcomer's first host callee as its reason.
   */
  method MergeRuntime(m: Module, order: seq<FnId>, runtime: set<FnId>, reasons: map<FnId, Reason>)
    returns (merged: set<FnId>, why: map<FnId, Reason>)
    requires forall i | 0 <= i < |order| :: order[i] < |m|
    ensures merged == Merged(m, SetOf(order), runtime)
    ensures forall f | f in merged - runtime ::
              f in why && JoinsRuntime(m, f) && why[f] == Reason("decl_host_callee", m[FirstHost(m, m[f].calls).value].name)
    ensures forall f | f !in merged - runtime :: (f in why <==> f in reasons) && (f in why ==> why[f] == reasons[f])
  {
    merged, why := runtime, reasons;
    var changed := true;
    ghost var goal := Merged(m, SetOf(order), runtime);
    while changed
      invariant runtime <= merged <= goal
      invariant forall f | f in merged - runtime :: NewReason(m, why, f)
      invariant forall f | f !in merged - runtime :: SameReason(reasons, why, f)
      invariant changed || forall i | 0 <= i < |order| :: !JoinsRuntime(m, order[i]) || order[i] in merged
      decreases goal - merged, if changed then 1 else 0
    {
      changed := false;
      ghost var before := merged;
      for i := 0 to |order|
        invariant before <= merged && runtime <= merged <= goal && (!changed ==> merged == before)
        invariant changed ==> merged != before
        invariant forall f | f in merged - runtime :: NewReason(m, why, f)
        invariant forall f | f !in merged - runtime :: SameReason(reasons, why, f)
        invariant forall j | 0 <= j < i :: !JoinsRuntime(m, order[j]) || order[j] in merged
      {
        var f := order[i];
        assert f in order;
        if f !in merged && !IsRootLocal(m[f].name) {
          var host := HostCallee(m, m[f].calls);
          if host.Some? {
            ghost var was, sofar := merged, why;
            merged := merged + {f};
            why := why[f := Reason("decl_host_callee", m[host.value].name)];
            changed := true;
            forall g | g in merged - runtime
              ensures NewReason(m, why, g)
            {
              if g != f { assert g in was - runtime && NewReason(m, sofar, g); }
            }
            forall g | g !in merged - runtime
              ensures SameReason(reasons, why, g)
            {
              assert g !in was - runtime && SameReason(reasons, sofar, g);
            }
          }
        }
      }
    }
    forall f | f in goal
      ensures f in merged
    {
      if f !in runtime {
        assert f in order;
        var i :| 0 <= i < |order| && order[i] == f;
      }
    }
  }

  ghost predicate NewReason(m: Module, why: map<FnId, Reason>, f: FnId) {
    f in why && JoinsRuntime(m, f) && why[f] == Reason("decl_host_callee", m[FirstHost(m, m[f].calls).value].name)
  }

  ghost predicate SameReason(reasons: map<FnId, Reason>, why: map<FnId, Reason>, f: FnId) {
    (f in why <==> f in reasons) && (f in why ==> why[f] == reasons[f])
  }

  // ---- the module that is written ----------------------------------------------------------------------------------------------

  function StubFn(f: Fn): Fn { f.(body := Stub, calls := []) }

  function DeleteFn(f: Fn): Fn { f.(body := Declared, calls := []) }

  predicate IsExtern(m: Module, runtime: set<FnId>, c: FnId) {
    c < |m| && m[c].body.Declared? && !IsIntrinsic(m[c].name) && c !in runtime
  }

  /** The extern declarations among the direct callees. */
  function Externs(m: Module, runtime: set<FnId>, calls: seq<Call>): set<FnId> {
    if calls == [] then {}
    else
      (if calls[0].Direct? && IsExtern(m, runtime, calls[0].callee) then {calls[0].callee} else {})
      + Externs(m, runtime, calls[1..])
  }

  /** The extern declarations called directly by the GPU functions below `n`. */
  function ExternCalls(m: Module, gpu: set<FnId>, runtime: set<FnId>, n: nat): set<FnId>
    requires n <= |m|
  {
    if n == 0 then {}
    else ExternCalls(m, gpu, runtime, n - 1) + if n - 1 in gpu then Externs(m, runtime, m[n - 1].calls) else {}
  }

  function StubAll(m: Module, fs: set<FnId>): (r: Module)
    ensures |r| == |m|
  {
    seq(|m|, i requires 0 <= i < |m| => if i in fs then StubFn(m[i]) else m[i])
  }

  function DeleteOutside(m: Module, reach: set<FnId>): (r: Module)
    ensures |r| == |m|
  {
    seq(|m|, i requires 0 <= i < |m| => if i in reach || m[i].body.Declared? then m[i] else DeleteFn(m[i]))
  }

  function Generated(m: Module, reach: set<FnId>, runtime: set<FnId>): (r: Module)
    ensures |r| == |m|
  {
    var kept := DeleteOutside(StubAll(m, runtime), reach);
    StubAll(kept, ExternCalls(kept, reach - runtime, runtime, |kept|))
  }

  class OutputModule {
    var fns: Module

    constructor (m: Module)
      ensures fns == m
    {
      fns := m;
    }

    method StubFunctions(fs: set<FnId>)
      modifies this
      ensures fns == StubAll(old(fns), fs)
    {
      ghost var m := fns;
      for i := 0 to |fns|
        invariant |fns| == |m|
        invariant forall j | 0 <= j < |m| :: fns[j] == if j < i && j in fs then StubFn(m[j]) else m[j]
      {
        if i in fs { fns := fns[i := StubFn(fns[i])]; }
      }
    }

    method DeleteUnreachable(reach: set<FnId>)
      modifies this
      ensures fns == DeleteOutside(old(fns), reach)
    {
      ghost var m := fns;
      for i := 0 to |fns|
        invariant |fns| == |m|
        invariant forall j | 0 <= j < |m| ::
            fns[j] == if j < i && j !in reach && !m[j].body.Declared? then DeleteFn(m[j]) else m[j]
      {
        if !fns[i].body.Declared? && i !in reach { fns := fns[i := DeleteFn(fns[i])]; }
      }
    }

    method CollectExterns(gpu: set<FnId>, runtime: set<FnId>) returns (externs: set<FnId>)
      ensures externs == ExternCalls(fns, gpu, runtime, |fns|)
    {
      externs := {};
      for f := 0 to |fns|
        invariant externs == ExternCalls(fns, gpu, runtime, f)
      {
        if f in gpu {
          var calls := fns[f].calls;
          for i := 0 to |calls|
            invariant externs + Externs(fns, runtime, calls[i..])
                      == ExternCalls(fns, gpu, runtime, f) + Externs(fns, runtime, calls)
          {
            assert calls[i..][0] == calls[i] && calls[i..][1..] == calls[i + 1..];
            if calls[i].Direct? && IsExtern(fns, runtime, calls[i].callee) {
              externs := externs + {calls[i].callee};
            }
          }
          assert calls[|calls|..] == [];
        }
      }
    }

    /** Stub the runtime, delete what is not reachable, stub the externs the GPU functions call. */
    method Generate(reach: set<FnId>, runtime: set<FnId>)
      modifies this
      ensures fns == Generated(old(fns), reach, runtime)
    {
      StubFunctions(runtime);
      DeleteUnreachable(reach);
      var externs := CollectExterns(reach - runtime, runtime);
      StubFunctions(externs);
    }
  }

  // ---- the written module is closed ----------------------------------------------------------------------------------------------

  lemma {:induction false} ExternsAre(m: Module, runtime: set<FnId>, calls: seq<Call>)
    ensures forall c :: c in Externs(m, runtime, calls) <==> Direct(c) in calls && IsExtern(m, runtime, c)
  {
    if calls != [] {
      ExternsAre(m, runtime, calls[1..]);
      assert calls == [calls[0]] + calls[1..];
    }
  }

  ghost predicate CalledDirectly(m: Module, gpu: set<FnId>, c: FnId, n: nat) {
    exists f: FnId :: f < n && f < |m| && f in gpu && Direct(c) in m[f].calls
  }

  lemma {:induction false} ExternCallsAre(m: Module, gpu: set<FnId>, runtime: set<FnId>, n: nat)
    requires n <= |m|
    ensures forall c :: c in ExternCalls(m, gpu, runtime, n) <==> IsExtern(m, runtime, c) && CalledDirectly(m, gpu, c, n)
  {
    if n > 0 {
      ExternCallsAre(m, gpu, runtime, n - 1);
      ExternsAre(m, runtime, m[n - 1].calls);
      forall c
        ensures c in ExternCalls(m, gpu, runtime, n) <==> IsExtern(m, runtime, c) && CalledDirectly(m, gpu, c, n)
      {
        if n - 1 in gpu && Direct(c) in m[n - 1].calls { assert CalledDirectly(m, gpu, c, n); }
        if CalledDirectly(m, gpu, c, n - 1) { assert CalledDirectly(m, gpu, c, n); }
        if CalledDirectly(m, gpu, c, n) {
          var f: FnId :| f < n && f < |m| && f in gpu && Direct(c) in m[f].calls;
          if f < n - 1 { assert CalledDirectly(m, gpu, c, n - 1); }
        }
      }
    }
  }

  /** Placement: reachable from the root, split into runtime and GPU functions. */
  ghost predicate Placed(m: Module, root: FnId, reach: set<FnId>, runtime: set<FnId>) {
    && (forall f | f in reach :: f < |m| && !m[f].body.Declared?)
    && root in reach && ClosedUpTo(m, reach, []) && runtime <= reach
  }

  /** What becomes of every function, in terms of the input alone. */
  function FinalBody(m: Module, reach: set<FnId>, runtime: set<FnId>, c: FnId, calledDirectly: bool): Body
    requires c < |m|
  {
    if c in runtime then Stub
    else if m[c].body.Declared? then (if calledDirectly && !IsIntrinsic(m[c].name) then Stub else Declared)
    else if c in reach then m[c].body
    else Declared
  }

  /** A function is written as it was, or calls nothing any more. */
  predicate SameOrEmptied(f: Fn, g: Fn) { g == f || (g.name == f.name && g.params == f.params && g.calls == []) }

  lemma BodiesAfterGeneration(m: Module, root: FnId, reach: set<FnId>, runtime: set<FnId>, c: FnId)
    requires Placed(m, root, reach, runtime) && c < |m|
    ensures Generated(m, reach, runtime)[c].body
            == FinalBody(m, reach, runtime, c, CalledDirectly(m, reach - runtime, c, |m|))
    ensures c in reach - runtime ==> Generated(m, reach, runtime)[c] == m[c]
    ensures SameOrEmptied(m[c], Generated(m, reach, runtime)[c])
  {
    var kept := DeleteOutside(StubAll(m, runtime), reach);
    ExternCallsAre(kept, reach - runtime, runtime, |kept|);
    SameDirectCalls(m, reach, runtime, c);
    if c !in runtime && !m[c].body.Declared? && c !in reach { NotCalledFromInside(m, root, reach, runtime, c); }
  }

  lemma SameDirectCalls(m: Module, reach: set<FnId>, runtime: set<FnId>, c: FnId)
    ensures var kept := DeleteOutside(StubAll(m, runtime), reach);
            CalledDirectly(kept, reach - runtime, c, |m|) <==> CalledDirectly(m, reach - runtime, c, |m|)
  {
    var kept := DeleteOutside(StubAll(m, runtime), reach);
    forall f | 0 <= f < |m| && f in reach - runtime
      ensures kept[f] == m[f]
    {
    }
  }

  /** A defined function that a GPU function calls is reachable. */
  lemma NotCalledFromInside(m: Module, root: FnId, reach: set<FnId>, runtime: set<FnId>, c: FnId)
    requires Placed(m, root, reach, runtime) && c < |m| && !m[c].body.Declared? && c !in reach
    ensures !CalledDirectly(m, reach - runtime, c, |m|)
  {
    forall f: FnId | f < |m| && f in reach - runtime
      ensures Direct(c) !in m[f].calls
    {
      CalleesAreDefined(m, m[f].calls);
    }
  }

  /**
   * The written module is closed: GPU functions are kept as they were, and whatever one of them calls directly has a body
   * or is an intrinsic. A callee reached through a cast only may remain a declaration.
   */
  lemma OutputIsClosed(m: Module, root: FnId, reach: set<FnId>, runtime: set<FnId>, f: FnId, c: FnId)
    requires WellFormed(m) && Placed(m, root, reach, runtime) && f in reach - runtime && c < |m|
    ensures Generated(m, reach, runtime)[f] == m[f]
    ensures Direct(c) in m[f].calls ==> !Generated(m, reach, runtime)[c].body.Declared? || IsIntrinsic(m[c].name)
    ensures Cast(c) in m[f].calls ==>
              (Generated(m, reach, runtime)[c].body.Declared?
               <==> m[c].body.Declared? && (IsIntrinsic(m[c].name) || !CalledDirectly(m, reach - runtime, c, |m|)))
  {
    BodiesAfterGeneration(m, root, reach, runtime, f);
    BodiesAfterGeneration(m, root, reach, runtime, c);
    CalleesAreDefined(m, m[f].calls);
    if Direct(c) in m[f].calls {
      assert CalledDirectly(m, reach - runtime, c, |m|);
      assert !m[c].body.Declared? ==> c in Callees(m, m[f].calls);
    }
    if Cast(c) in m[f].calls {
      assert !m[c].body.Declared? ==> c in Callees(m, m[f].calls);
    }
  }

  /** No reachable function of the design itself is ever classified, merged, stubbed or deleted. */
  lemma DesignFunctionsSurvive(m: Module, root: FnId, reach: set<FnId>, f: FnId)
    requires Placed(m, root, reach, Merged(m, reach, Classified(m, reach))) && f in reach && IsRootLocal(m[f].name)
    ensures f !in Merged(m, reach, Classified(m, reach))
    ensures Generated(m, reach, Merged(m, reach, Classified(m, reach)))[f] == m[f]
  {
    BodiesAfterGeneration(m, root, reach, Merged(m, reach, Classified(m, reach)), f);
  }

  /** The include list protects a phase function from classification, but not from the merge. */
  lemma ForceIncludeIsMerged(m: Module, reach: set<FnId>, f: FnId)
    requires f in reach && f < |m| && IsForceInclude(m[f].name)
    ensures f !in Classified(m, reach)
    ensures f in Merged(m, reach, Classified(m, reach)) <==> !IsRootLocal(m[f].name) && FirstHost(m, m[f].calls).Some?
  {
  }

  lemma {:induction false} ReachedAreDefined(m: Module, root: FnId, f: FnId, k: nat)
    requires root < |m| && !m[root].body.Declared? && ReachesIn(m, root, f, k)
    ensures f < |m| && !m[f].body.Declared?
  {
    if k > 0 {
      var g: FnId :| g < |m| && ReachesIn(m, root, g, k - 1) && f in Callees(m, m[g].calls);
      CalleesAreDefined(m, m[g].calls);
    }
  }

  lemma {:induction false} SetOfMembers(s: seq<nat>)
    ensures forall x :: x in SetOf(s) <==> x in s
  {
    if s != [] { SetOfMembers(s[1..]); }
  }

  /** What the generator promises of the module it writes, about a GPU function `f` and a callee `c`. */
  ghost predicate ClosedAt(m: Module, out: Module, gpu: set<FnId>, f: FnId, c: FnId)
    requires |out| == |m|
  {
    f in gpu && f < |m| && c < |m| ==>
      && out[f] == m[f]
      && (Direct(c) in m[f].calls ==> !out[c].body.Declared? || IsIntrinsic(m[c].name))
  }

  lemma ReachIsDefined(m: Module, root: FnId, reach: set<FnId>)
    requires root < |m| && !m[root].body.Declared? && forall f :: f in reach <==> Reaches(m, root, f)
    ensures forall f | f in reach :: f < |m| && !m[f].body.Declared?
  {
    forall f | f in reach
      ensures f < |m| && !m[f].body.Declared?
    {
      var k: nat :| ReachesIn(m, root, f, k);
      ReachedAreDefined(m, root, f, k);
    }
  }

  lemma ListingIsSet(n: nat, s: set<nat>)
    requires forall x | x in s :: x < n
    ensures SetOf(LayoutOrder(n, s)) == s
    ensures forall i | 0 <= i < |LayoutOrder(n, s)| :: LayoutOrder(n, s)[i] in s
  {
    LayoutOrderIsSortedListing(n, s);
    SetOfMembers(LayoutOrder(n, s));
  }

  /** What makes a reachable function runtime: the rule, or with the merge a call of a host declaration outside the design. */
  ghost predicate RuntimeOrMerged(m: Module, f: FnId, mergeDecls: bool)
    requires f < |m|
  {
    RuntimeByRule(m[f]) || (mergeDecls && !Within(m[f].name, "___024root___") && CallsHost(m, f))
  }

  /** The placement of `main`: what is reachable, and which of it is runtime. */
  method PlaceFunctions(m: Module, root: FnId, mergeDecls: bool) returns (reach: set<FnId>, runtime: set<FnId>)
    requires root < |m| && !m[root].body.Declared?
    ensures Placed(m, root, reach, runtime) && forall f :: f in reach <==> Reaches(m, root, f)
    ensures runtime == if mergeDecls then Merged(m, reach, Classified(m, reach)) else Classified(m, reach)
    ensures forall f: FnId | f < |m| :: f in runtime <==> f in reach && RuntimeOrMerged(m, f, mergeDecls)
  {
    reach := CollectReachable(m, root);
    ReachIsDefined(m, root, reach);
    runtime := Classify(m, reach);
    if mergeDecls {
      ListingIsSet(|m|, reach);
      var why;
      runtime, why := MergeRuntime(m, LayoutOrder(|m|, reach), runtime, map[]);
    }
    forall f: FnId | f < |m| ensures f in runtime <==> f in reach && RuntimeOrMerged(m, f, mergeDecls) {
      PlacedExactly(m, reach, f);
    }
  }

  /** The generation flow of `main` up to the kernels. */
  method GenerateModule(m: Module, root: FnId, mergeDecls: bool) returns (out: Module, gpu: set<FnId>, runtime: set<FnId>)
    requires WellFormed(m) && root < |m| && !m[root].body.Declared?
    ensures |out| == |m| && gpu !! runtime
    ensures forall f :: f in gpu + runtime <==> Reaches(m, root, f)
    ensures forall f: FnId | f < |m| :: f in runtime <==> Reaches(m, root, f) && RuntimeOrMerged(m, f, mergeDecls)
    ensures forall f: FnId | f < |m| :: out[f].body == FinalBody(m, gpu + runtime, runtime, f, CalledDirectly(m, gpu, f, |m|))
    ensures forall f: FnId | f < |m| :: SameOrEmptied(m[f], out[f])
    ensures forall f: FnId, c: FnId :: ClosedAt(m, out, gpu, f, c)
    ensures forall f | f in gpu + runtime && f < |m| && IsRootLocal(m[f].name) :: f in gpu
  {
    var reach;
    reach, runtime := PlaceFunctions(m, root, mergeDecls);
    gpu := reach - runtime;
    assert gpu + runtime == reach;
    var output := new OutputModule(m);
    output.Generate(reach, runtime);
    out := output.fns;
    OutputIsClosedEverywhere(m, root, reach, runtime);
    forall f: FnId | f < |m|
      ensures out[f].body == FinalBody(m, reach, runtime, f, CalledDirectly(m, gpu, f, |m|)) && SameOrEmptied(m[f], out[f])
    {
      BodiesAfterGeneration(m, root, reach, runtime, f);
    }
  }

  lemma OutputIsClosedEverywhere(m: Module, root: FnId, reach: set<FnId>, runtime: set<FnId>)
    requires WellFormed(m) && Placed(m, root, reach, runtime)
    ensures forall f: FnId, c: FnId :: ClosedAt(m, Generated(m, reach, runtime), reach - runtime, f, c)
  {
    forall f: FnId, c: FnId
      ensures ClosedAt(m, Generated(m, reach, runtime), reach - runtime, f, c)
    {
      if f in reach - runtime && f < |m| && c < |m| { OutputIsClosed(m, root, reach, runtime, f, c); }
    }
  }

  method Classify(m: Module, reach: set<FnId>) returns (runtime: set<FnId>)
    ensures runtime == Classified(m, reach)
  {
    runtime := {};
    for f := 0 to |m|
      invariant runtime == set g | g in reach && g < f && IsRuntime(m[g])
    {
      if f in reach && IsRuntime(m[f]) { runtime := runtime + {f}; }
    }
  }
}
