/** The mailbox main loop over abstract queues, and what it does with the commands it takes. */
module MailboxLoop {
  import opened MailboxAbi
  import opened MockCore
  import opened RunLoops
  import opened Dispatch
  import opened Prelude

  datatype View = View(core: Core, cmds: seq<Command>, rsps: seq<Response>, evs: seq<Event>)

  /** How many responses and events the output rings can hold. */
  datatype Room = Room(rsps: nat, evs: nat)

  /** `hasStop`: the caller passed a place for the stop event. */
  datatype Flags = Flags(stopOnEvent: bool, consume: bool, hasStop: bool, faultOnBackpressure: bool)

  /** `stop` is what the caller's stop event holds afterwards. */
  datatype Outcome = Outcome(view: View, processed: nat, stop: Event)

  const CODE_RESPONSES_FULL: u32 := 1
  const CODE_EVENTS_FULL: u32 := 2

  function Backpressure(v: View, fl: Flags, code: u32, count: nat): View {
    if fl.faultOnBackpressure then
      v.(core := SetFault(v.core, CommunicationFault(STAGE_D2H, code, count % W32, |v.cmds| % W32, 0)))
    else v
  }

  function WithReply(v: View, r: Reply): View
    requires v.cmds != []
  {
    View(r.core, v.cmds[1..], v.rsps + [r.rsp], if r.ev.eventType != EVENT_NONE then v.evs + [r.ev] else v.evs)
  }

  function LoopFrom(env: Env, room: Room, fl: Flags, limit: nat, v: View, processed: nat): Outcome
    decreases |v.cmds|
  {
    if processed >= limit then Outcome(v, processed, NO_EVENT)
    else if |v.rsps| >= room.rsps then Outcome(Backpressure(v, fl, CODE_RESPONSES_FULL, |v.rsps|), processed, NO_EVENT)
    else if |v.evs| >= room.evs then Outcome(Backpressure(v, fl, CODE_EVENTS_FULL, |v.evs|), processed, NO_EVENT)
    else if v.cmds == [] then Outcome(v, processed, NO_EVENT)
    else
      var r := ExecuteCommand(env, v.core, v.cmds[0]);
      var t := WithReply(v, r);
      if fl.stopOnEvent && r.ev.eventType != EVENT_NONE then
        if fl.consume && fl.hasStop then Outcome(t.(evs := t.evs[1..]), processed + 1, t.evs[0])
        else Outcome(t, processed + 1, NO_EVENT)
      else LoopFrom(env, room, fl, limit, t, processed + 1)
  }

  /** Which output ring is full, if any: the code of the fault it may leave. */
  function FullRing(room: Room, v: View): u32 {
    if |v.rsps| >= room.rsps then CODE_RESPONSES_FULL else if |v.evs| >= room.evs then CODE_EVENTS_FULL else 0
  }

  function RingCount(v: View, code: u32): nat { if code == CODE_RESPONSES_FULL then |v.rsps| else |v.evs| }

  /** One turn of the loop, by what it finds. */
  lemma LoopTurn(env: Env, room: Room, fl: Flags, limit: nat, v: View, processed: nat)
    requires processed < limit
    ensures var code := FullRing(room, v);
            code != 0 ==> LoopFrom(env, room, fl, limit, v, processed)
                          == Outcome(Backpressure(v, fl, code, RingCount(v, code)), processed, NO_EVENT)
    ensures FullRing(room, v) == 0 && v.cmds == [] ==>
              LoopFrom(env, room, fl, limit, v, processed) == Outcome(v, processed, NO_EVENT)
    ensures FullRing(room, v) == 0 && v.cmds != [] ==>
              var r := ExecuteCommand(env, v.core, v.cmds[0]);
              var t := WithReply(v, r);
              LoopFrom(env, room, fl, limit, v, processed) ==
              if fl.stopOnEvent && r.ev.eventType != EVENT_NONE then
                if fl.consume && fl.hasStop then Outcome(t.(evs := t.evs[1..]), processed + 1, t.evs[0])
                else Outcome(t, processed + 1, NO_EVENT)
              else LoopFrom(env, room, fl, limit, t, processed + 1)
  {
  }

  lemma LoopIsDone(env: Env, room: Room, fl: Flags, limit: nat, v: View, processed: nat)
    requires processed >= limit
    ensures LoopFrom(env, room, fl, limit, v, processed) == Outcome(v, processed, NO_EVENT)
  {
  }

  function LimitOf(maxCommands: u32): u32 { if maxCommands == 0 then 0xFFFF_FFFF else maxCommands }

  /** A fault left over fills an empty stop event. */
  function ReportFault(o: Outcome, fl: Flags): Outcome {
    if fl.hasStop && o.view.core.fault.kind != FAULT_NONE && o.stop.eventType == EVENT_NONE then
      o.(stop := FaultEvent(o.view.core.fault))
    else o
  }

  function MainLoop(env: Env, room: Room, fl: Flags, maxCommands: u32, v: View): Outcome {
    ReportFault(LoopFrom(env, room, fl, LimitOf(maxCommands), v, 0), fl)
  }

  /** Every RUN_CYCLES loop met on the way ends. */
  predicate AllEnd(env: Env, c: Core, cmds: seq<Command>)
    decreases |cmds|
  {
    cmds == [] || (Ends(env, c, cmds[0]) && AllEnd(env, ExecuteCommand(env, c, cmds[0]).core, cmds[1..]))
  }

  lemma AllEndNext(env: Env, v: View)
    requires AllEnd(env, v.core, v.cmds) && v.cmds != []
    ensures var t := WithReply(v, ExecuteCommand(env, v.core, v.cmds[0]));
            AllEnd(env, t.core, t.cmds)
  {
  }

  // ---- serving commands one after another ------------------------------------------------------------------------------------

  /** The core, the responses and the events after serving commands in order, with nothing in the way. */
  function Serve(env: Env, c: Core, cmds: seq<Command>): (Core, seq<Response>, seq<Event>)
    decreases |cmds|
  {
    if cmds == [] then (c, [], [])
    else
      var r := ExecuteCommand(env, c, cmds[0]);
      var (d, rsps, evs) := Serve(env, r.core, cmds[1..]);
      (d, [r.rsp] + rsps, (if r.ev.eventType != EVENT_NONE then [r.ev] else []) + evs)
  }

  /** A session that has served its first `j` commands: nothing dropped, nothing reordered, nothing repeated. */
  function Served(env: Env, v: View, j: nat): View
    requires j <= |v.cmds|
  {
    var (c, rsps, evs) := Serve(env, v.core, v.cmds[..j]);
    View(c, v.cmds[j..], v.rsps + rsps, v.evs + evs)
  }

  function EventsOf(env: Env, v: View, j: nat): seq<Event>
    requires j <= |v.cmds|
  {
    Serve(env, v.core, v.cmds[..j]).2
  }

  /** Something keeps the loop from taking a command after the first `j`. */
  predicate StopsHere(env: Env, room: Room, fl: Flags, limit: nat, v: View, processed: nat, j: nat)
    requires j <= |v.cmds|
  {
    var t := Served(env, v, j);
    || (fl.stopOnEvent && EventsOf(env, v, j) != [])
    || processed + j >= limit || |t.rsps| >= room.rsps || |t.evs| >= room.evs || t.cmds == []
  }

  /** How the loop ends at a point where it stops: an event first, then the limit, the rings, the empty queue. */
  function HaltAt(room: Room, fl: Flags, limit: nat, t: View, processed: nat, event: bool): Outcome
    requires event ==> t.evs != []
  {
    if fl.stopOnEvent && event then
      if fl.consume && fl.hasStop then Outcome(t.(evs := t.evs[1..]), processed, t.evs[0])
      else Outcome(t, processed, NO_EVENT)
    else if processed >= limit then Outcome(t, processed, NO_EVENT)
    else if |t.rsps| >= room.rsps then Outcome(Backpressure(t, fl, CODE_RESPONSES_FULL, |t.rsps|), processed, NO_EVENT)
    else if |t.evs| >= room.evs then Outcome(Backpressure(t, fl, CODE_EVENTS_FULL, |t.evs|), processed, NO_EVENT)
    else Outcome(t, processed, NO_EVENT)
  }

  /** One command on: serving `j` is serving the first and then `j - 1`. */
  lemma ServedShift(env: Env, v: View, j: nat)
    requires 0 < j <= |v.cmds|
    ensures var r := ExecuteCommand(env, v.core, v.cmds[0]);
            var t := WithReply(v, r);
            && Served(env, v, j) == Served(env, t, j - 1)
            && EventsOf(env, v, j) == (if r.ev.eventType != EVENT_NONE then [r.ev] else []) + EventsOf(env, t, j - 1)
  {
    assert v.cmds[..j][0] == v.cmds[0] && v.cmds[..j][1..] == v.cmds[1..][..j - 1];
    var r := ExecuteCommand(env, v.core, v.cmds[0]);
    var (c, rsps, evs) := Serve(env, r.core, v.cmds[1..][..j - 1]);
    assert v.rsps + ([r.rsp] + rsps) == v.rsps + [r.rsp] + rsps;
    if r.ev.eventType != EVENT_NONE {
      assert v.evs + ([r.ev] + evs) == v.evs + [r.ev] + evs;
    } else {
      assert [] + evs == evs;
    }
  }

  lemma ServedNone(env: Env, v: View)
    ensures Served(env, v, 0) == v && EventsOf(env, v, 0) == []
  {
    assert v.cmds[..0] == [];
  }

  ghost predicate IsFirstStop(env: Env, room: Room, fl: Flags, limit: nat, v: View, processed: nat, k: nat) {
    && k <= |v.cmds| && StopsHere(env, room, fl, limit, v, processed, k)
    && forall j: nat | j < k :: !StopsHere(env, room, fl, limit, v, processed, j)
  }

  lemma LoopHalts(env: Env, room: Room, fl: Flags, limit: nat, v: View, processed: nat)
    requires StopsHere(env, room, fl, limit, v, processed, 0)
    ensures LoopFrom(env, room, fl, limit, v, processed) == HaltAt(room, fl, limit, v, processed, false)
  {
    ServedNone(env, v);
  }

  lemma LoopTakesOne(env: Env, room: Room, fl: Flags, limit: nat, v: View, processed: nat)
    requires !StopsHere(env, room, fl, limit, v, processed, 0)
    ensures v.cmds != []
    ensures var r := ExecuteCommand(env, v.core, v.cmds[0]);
            var t := WithReply(v, r);
            LoopFrom(env, room, fl, limit, v, processed) ==
            if fl.stopOnEvent && r.ev.eventType != EVENT_NONE then HaltAt(room, fl, limit, t, processed + 1, true)
            else LoopFrom(env, room, fl, limit, t, processed + 1)
  {
    ServedNone(env, v);
  }

  /** An event of the first command stops the loop right after it. */
  lemma EventStopsFirst(env: Env, room: Room, fl: Flags, limit: nat, v: View, processed: nat)
    requires !StopsHere(env, room, fl, limit, v, processed, 0) && v.cmds != []
    requires fl.stopOnEvent && ExecuteCommand(env, v.core, v.cmds[0]).ev.eventType != EVENT_NONE
    ensures IsFirstStop(env, room, fl, limit, v, processed, 1)
    ensures Served(env, v, 1) == WithReply(v, ExecuteCommand(env, v.core, v.cmds[0])) && EventsOf(env, v, 1) != []
  {
    ServedShift(env, v, 1);
    ServedNone(env, WithReply(v, ExecuteCommand(env, v.core, v.cmds[0])));
  }

  /** The main loop serves exactly a prefix of its commands, up to the first point where something stops it. */
  lemma {:induction false} LoopServesPrefix(env: Env, room: Room, fl: Flags, limit: nat, v: View, processed: nat)
    returns (k: nat)
    ensures IsFirstStop(env, room, fl, limit, v, processed, k)
    ensures LoopFrom(env, room, fl, limit, v, processed)
            == HaltAt(room, fl, limit, Served(env, v, k), processed + k, EventsOf(env, v, k) != [])
    decreases |v.cmds|, 0
  {
    if StopsHere(env, room, fl, limit, v, processed, 0) {
      k := 0;
      ServedNone(env, v);
      LoopHalts(env, room, fl, limit, v, processed);
    } else {
      LoopTakesOne(env, room, fl, limit, v, processed);
      var r := ExecuteCommand(env, v.core, v.cmds[0]);
      if fl.stopOnEvent && r.ev.eventType != EVENT_NONE {
        k := 1;
        EventStopsFirst(env, room, fl, limit, v, processed);
      } else {
        k := LoopServesRest(env, room, fl, limit, v, WithReply(v, r), processed);
      }
    }
  }

  lemma {:induction false} LoopServesRest(env: Env, room: Room, fl: Flags, limit: nat, v: View, t: View, processed: nat)
    returns (k: nat)
    requires !StopsHere(env, room, fl, limit, v, processed, 0) && v.cmds != []
    requires t == WithReply(v, ExecuteCommand(env, v.core, v.cmds[0]))
    requires !(fl.stopOnEvent && ExecuteCommand(env, v.core, v.cmds[0]).ev.eventType != EVENT_NONE)
    ensures IsFirstStop(env, room, fl, limit, v, processed, k)
    ensures LoopFrom(env, room, fl, limit, t, processed + 1)
            == HaltAt(room, fl, limit, Served(env, v, k), processed + k, EventsOf(env, v, k) != [])
    decreases |t.cmds|, 1
  {
    hide LoopFrom, HaltAt, Served, EventsOf, ExecuteCommand, StopsHere;
    var i := LoopServesPrefix(env, room, fl, limit, t, processed + 1);
    StopsShift(env, room, fl, limit, v, processed, i);
    k := i + 1;
    SameEnd(env, room, fl, limit, v, t, processed, i);
  }

  lemma SameEnd(env: Env, room: Room, fl: Flags, limit: nat, v: View, t: View, processed: nat, i: nat)
    requires v.cmds != [] && i <= |v.cmds| - 1
    requires t == WithReply(v, ExecuteCommand(env, v.core, v.cmds[0]))
    requires !(fl.stopOnEvent && ExecuteCommand(env, v.core, v.cmds[0]).ev.eventType != EVENT_NONE)
    ensures HaltAt(room, fl, limit, Served(env, t, i), processed + 1 + i, EventsOf(env, t, i) != [])
            == HaltAt(room, fl, limit, Served(env, v, i + 1), processed + (i + 1), EventsOf(env, v, i + 1) != [])
  {
    ServedShift(env, v, i + 1);
  }

  lemma StopsShift(env: Env, room: Room, fl: Flags, limit: nat, v: View, processed: nat, k: nat)
    requires k < |v.cmds| && !StopsHere(env, room, fl, limit, v, processed, 0)
    requires var r := ExecuteCommand(env, v.core, v.cmds[0]);
             && !(fl.stopOnEvent && r.ev.eventType != EVENT_NONE)
             && IsFirstStop(env, room, fl, limit, WithReply(v, r), processed + 1, k)
    ensures IsFirstStop(env, room, fl, limit, v, processed, k + 1)
  {
    var t := WithReply(v, ExecuteCommand(env, v.core, v.cmds[0]));
    ServedShift(env, v, k + 1);
    forall j: nat | j < k + 1
      ensures !StopsHere(env, room, fl, limit, v, processed, j)
    {
      if j > 0 {
        ServedShift(env, v, j);
        assert !StopsHere(env, room, fl, limit, t, processed + 1, j - 1);
      }
    }
  }

  // ---- no work is lost -------------------------------------------------------------------------------------------------------

  predicate Echoes(hook: Option<Hook>, c: Core, cmd: Command) {
    hook.Some? ==> var h := hook.value(c, cmd); h.rc >= 0 && (h.rc > 0 ==> h.rsp.requestId == cmd.requestId)
  }

  /** Hooks never fail and answer with the id they were asked with. */
  ghost predicate Echoing(env: Env) {
    && (forall c: Core, cmd: Command :: Echoes(env.regHook, c, cmd))
    && (forall c: Core, cmd: Command :: Echoes(env.memHook, c, cmd))
  }

  /** The responses answer the commands: one each, in order, id by id. */
  ghost predicate Answers(rsps: seq<Response>, cmds: seq<Command>) {
    |rsps| == |cmds| && forall i | 0 <= i < |rsps| :: rsps[i].requestId == cmds[i].requestId
  }

  lemma {:induction false} ServeAnswers(env: Env, c: Core, cmds: seq<Command>)
    ensures |Serve(env, c, cmds).1| == |cmds| && |Serve(env, c, cmds).2| <= |cmds|
    ensures forall i | 0 <= i < |Serve(env, c, cmds).2| :: Serve(env, c, cmds).2[i].eventType != EVENT_NONE
    ensures Echoing(env) ==> Answers(Serve(env, c, cmds).1, cmds)
    decreases |cmds|
  {
    if cmds != [] {
      var r := ExecuteCommand(env, c, cmds[0]);
      ServeAnswers(env, r.core, cmds[1..]);
      RequestIdIsEchoed(env, c, cmds[0]);
      if Echoing(env) { assert Echoes(env.regHook, c, cmds[0]) && Echoes(env.memHook, c, cmds[0]); }
    }
  }

  /**
   * What a main loop leaves behind: the first `processed` commands are answered in order, the rest still wait, each
   * produced event is queued or handed over, and the rings hold no more than their room.
   */
  ghost predicate LosesNothing(env: Env, room: Room, fl: Flags, v: View, o: Outcome) {
    && o.processed <= |v.cmds| && o.view.cmds == v.cmds[o.processed..]
    && |v.rsps| <= |o.view.rsps| && o.view.rsps[..|v.rsps|] == v.rsps
    && |o.view.rsps| == |v.rsps| + o.processed
    && (Echoing(env) ==> Answers(o.view.rsps[|v.rsps|..], v.cmds[..o.processed]))
    && (|v.rsps| <= room.rsps ==> |o.view.rsps| <= room.rsps)
    && (|v.evs| <= room.evs ==> |o.view.evs| <= room.evs)
    && var evs := v.evs + EventsOf(env, v, o.processed);
       || o.view.evs == evs
       || (fl.stopOnEvent && fl.consume && fl.hasStop && evs != [] && o.view.evs == evs[1..]
           && (evs[0].eventType != EVENT_NONE ==> o.stop == evs[0]))
  }

  /** Between the stops the rings have room for one more. */
  lemma PrefixFits(env: Env, room: Room, fl: Flags, limit: nat, v: View, processed: nat, k: nat)
    requires IsFirstStop(env, room, fl, limit, v, processed, k)
    ensures |v.rsps| <= room.rsps ==> |Served(env, v, k).rsps| <= room.rsps
    ensures |v.evs| <= room.evs ==> |Served(env, v, k).evs| <= room.evs
  {
    if k == 0 {
      ServedNone(env, v);
    } else {
      assert !StopsHere(env, room, fl, limit, v, processed, k - 1);
      ServedOneMore(env, v, k);
    }
  }

  lemma {:induction false} ServedOneMore(env: Env, v: View, k: nat)
    requires 0 < k <= |v.cmds|
    ensures |Served(env, v, k).rsps| == |Served(env, v, k - 1).rsps| + 1
    ensures |Served(env, v, k).evs| <= |Served(env, v, k - 1).evs| + 1
    decreases k
  {
    ServedShift(env, v, k);
    ServedNone(env, v);
    var t := WithReply(v, ExecuteCommand(env, v.core, v.cmds[0]));
    ServedNone(env, t);
    if k > 1 {
      ServedShift(env, v, k - 1);
      ServedOneMore(env, t, k - 1);
    }
  }

  lemma PrefixAnswers(env: Env, v: View, k: nat)
    requires k <= |v.cmds|
    ensures var t := Served(env, v, k);
            && |t.rsps| == |v.rsps| + k && t.rsps[..|v.rsps|] == v.rsps
            && (Echoing(env) ==> Answers(t.rsps[|v.rsps|..], v.cmds[..k]))
  {
    ServeAnswers(env, v.core, v.cmds[..k]);
    assert Served(env, v, k).rsps[|v.rsps|..] == Serve(env, v.core, v.cmds[..k]).1;
  }

  lemma PrefixIsLimited(env: Env, room: Room, fl: Flags, limit: nat, v: View, k: nat)
    requires IsFirstStop(env, room, fl, limit, v, 0, k)
    ensures k <= limit
  {
    if k > 0 { assert !StopsHere(env, room, fl, limit, v, 0, k - 1); }
  }

  lemma MainLoopLosesNothing(env: Env, room: Room, fl: Flags, maxCommands: u32, v: View)
    ensures LosesNothing(env, room, fl, v, MainLoop(env, room, fl, maxCommands, v))
    ensures MainLoop(env, room, fl, maxCommands, v).processed <= LimitOf(maxCommands)
  {
    hide LoopFrom, HaltAt, Serve, Echoing, Answers, Backpressure;
    var limit := LimitOf(maxCommands);
    var k := LoopServesPrefix(env, room, fl, limit, v, 0);
    PrefixFits(env, room, fl, limit, v, 0, k);
    PrefixAnswers(env, v, k);
    HaltKeepsQueues(room, fl, limit, Served(env, v, k), k, EventsOf(env, v, k) != []);
    PrefixIsLimited(env, room, fl, limit, v, k);
  }

  lemma HaltKeepsQueues(room: Room, fl: Flags, limit: nat, t: View, processed: nat, event: bool)
    requires event ==> t.evs != []
    ensures var o := HaltAt(room, fl, limit, t, processed, event);
            && o.processed == processed && o.view.cmds == t.cmds && o.view.rsps == t.rsps
            && |o.view.evs| <= |t.evs|
            && (|| o.view.evs == t.evs
                || (fl.stopOnEvent && fl.consume && fl.hasStop && t.evs != [] && o.view.evs == t.evs[1..] && o.stop == t.evs[0]))
  {
  }

  /** The fault of a full ring: 1 for responses and 2 for events, how many wait in it, and how many commands wait. */
  predicate NamesFullRing(room: Room, v: View) {
    var f := v.core.fault;
    && f.kind == FAULT_COMMUNICATION && f.stage == STAGE_D2H && f.value0 == |v.cmds| % W32 && f.value1 == 0
    && (|| (f.code == 1 && |v.rsps| >= room.rsps && f.aux0 == |v.rsps| % W32)
        || (f.code == 2 && |v.rsps| < room.rsps && |v.evs| >= room.evs && f.aux0 == |v.evs| % W32))
  }

  /** The fault left by the loop is the last command's, or names a full ring. */
  lemma LoopFaults(env: Env, room: Room, fl: Flags, maxCommands: u32, v: View)
    ensures MainLoop(env, room, fl, maxCommands, v).processed <= |v.cmds|
    ensures var o := MainLoop(env, room, fl, maxCommands, v);
            var served := Serve(env, v.core, v.cmds[..o.processed]).0;
            || o.view.core == served
            || (fl.faultOnBackpressure && o.view.core == SetFault(served, o.view.core.fault) && NamesFullRing(room, o.view))
  {
    hide LoopFrom, Serve, FaultEvent;
    var k := LoopServesPrefix(env, room, fl, LimitOf(maxCommands), v, 0);
  }

  // ---- the outer loop --------------------------------------------------------------------------------------------------------

  const EVENT_LOOP: Flags := Flags(true, true, true, true)

  function RunLoopFrom(env: Env, room: Room, limit: u32, v: View, total: u32): Outcome
    requires total <= limit
    decreases |v.cmds|
  {
    if total == limit then Outcome(v, total, NO_EVENT)
    else
      MainLoopLosesNothing(env, room, EVENT_LOOP, limit - total, v);
      var o := MainLoop(env, room, EVENT_LOOP, limit - total, v);
      var sum := total + o.processed;
      if o.stop.eventType != EVENT_NONE then Outcome(o.view, sum, o.stop)
      else if o.view.core.fault.kind != FAULT_NONE then Outcome(o.view, sum, FaultEvent(o.view.core.fault))
      else if o.processed == 0 || o.view.cmds == [] then Outcome(o.view, sum, NO_EVENT)
      else RunLoopFrom(env, room, limit, o.view, sum)
  }

  /** One turn of the outer loop, by what the inner loop leaves. */
  lemma RunLoopTurn(env: Env, room: Room, limit: u32, v: View, total: u32, o: Outcome)
    requires total < limit && o == MainLoop(env, room, EVENT_LOOP, limit - total, v)
    ensures total + o.processed <= limit
    ensures RunLoopFrom(env, room, limit, v, total) ==
            if o.stop.eventType != EVENT_NONE then Outcome(o.view, total + o.processed, o.stop)
            else if o.view.core.fault.kind != FAULT_NONE then
              Outcome(o.view, total + o.processed, FaultEvent(o.view.core.fault))
            else if o.processed == 0 || o.view.cmds == [] then Outcome(o.view, total + o.processed, NO_EVENT)
            else RunLoopFrom(env, room, limit, o.view, total + o.processed)
  {
    hide MainLoop, LosesNothing, FaultEvent;
    MainLoopLosesNothing(env, room, EVENT_LOOP, limit - total, v);
  }

  lemma RunLoopIsOver(env: Env, room: Room, limit: u32, v: View)
    ensures RunLoopFrom(env, room, limit, v, limit) == Outcome(v, limit, NO_EVENT)
  {
  }

  lemma {:induction false} AllEndAfter(env: Env, v: View, k: nat)
    requires k <= |v.cmds| && AllEnd(env, v.core, v.cmds)
    ensures AllEnd(env, Served(env, v, k).core, v.cmds[k..])
    decreases k
  {
    if k == 0 {
      ServedNone(env, v);
    } else {
      ServedShift(env, v, k);
      AllEndAfter(env, WithReply(v, ExecuteCommand(env, v.core, v.cmds[0])), k - 1);
    }
  }

  /** The commands an inner loop leaves without a fault still end. */
  lemma RestEnds(env: Env, room: Room, maxCommands: u32, v: View)
    requires AllEnd(env, v.core, v.cmds)
    ensures var o := MainLoop(env, room, EVENT_LOOP, maxCommands, v);
            o.view.core.fault.kind == FAULT_NONE ==> AllEnd(env, o.view.core, o.view.cmds)
  {
    var k := LoopServesPrefix(env, room, EVENT_LOOP, LimitOf(maxCommands), v, 0);
    AllEndAfter(env, v, k);
  }

  function RunLoop(env: Env, room: Room, maxCommands: u32, v: View): Outcome {
    RunLoopFrom(env, room, LimitOf(maxCommands), v, 0)
  }

  function ServeUntilEvent(env: Env, room: Room, maxCommands: u32, hasStop: bool, v: View): Outcome {
    MainLoop(env, room, Flags(true, true, hasStop, true), maxCommands, v)
  }

  /** The oldest queued event, if any, has a type. */
  predicate FirstIsTyped(evs: seq<Event>) { evs != [] ==> evs[0].eventType != EVENT_NONE }

  /** A main loop that hands over no event and leaves no fault has emptied its queue or reached its limit. */
  lemma QuietLoopIsDone(env: Env, room: Room, limit: u32, v: View)
    requires limit > 0 && FirstIsTyped(v.evs)
    ensures var o := MainLoop(env, room, EVENT_LOOP, limit, v);
            o.stop.eventType == EVENT_NONE ==> o.stop == NO_EVENT && (o.processed == limit || o.view.cmds == [])
  {
    var k := LoopServesPrefix(env, room, EVENT_LOOP, limit, v, 0);
    ServeAnswers(env, v.core, v.cmds[..k]);
    var t := Served(env, v, k);
    if t.evs != [] { assert t.evs[0] == if v.evs != [] then v.evs[0] else EventsOf(env, v, k)[0]; }
    MainLoopLosesNothing(env, room, EVENT_LOOP, limit, v);
  }

  /** With the oldest queued event typed, one pass of `ServeUntilEvent` does all that `RunLoop` does. */
  lemma RunLoopIsOnePass(env: Env, room: Room, maxCommands: u32, v: View)
    requires FirstIsTyped(v.evs)
    ensures RunLoop(env, room, maxCommands, v) == ServeUntilEvent(env, room, maxCommands, true, v)
  {
    var limit := LimitOf(maxCommands);
    QuietLoopIsDone(env, room, limit, v);
    MainLoopLosesNothing(env, room, EVENT_LOOP, limit, v);
    var o := MainLoop(env, room, EVENT_LOOP, limit, v);
    assert LimitOf(limit) == limit && ServeUntilEvent(env, room, maxCommands, true, v) == o;
    if o.stop.eventType == EVENT_NONE {
      assert o.view.core.fault.kind == FAULT_NONE;
      if o.processed == limit { assert RunLoopFrom(env, room, limit, o.view, limit) == o; }
    }
  }

  // ---- when the two loops agree -------------------------------------------------------------------------------------------------

  /** No command can be taken: an output ring is full. */
  predicate Blocked(room: Room, rsps: seq<Response>, evs: seq<Event>) { |rsps| >= room.rsps || |evs| >= room.evs }

  /** The two loops agree, whatever the core and the waiting commands. */
  ghost predicate LoopsAgree(env: Env, room: Room, maxCommands: u32, rsps: seq<Response>, evs: seq<Event>) {
    forall c: Core, cmds: seq<Command> ::
      RunLoop(env, room, maxCommands, View(c, cmds, rsps, evs))
      == ServeUntilEvent(env, room, maxCommands, true, View(c, cmds, rsps, evs))
  }

  /** What a caller can check: the oldest event, the rings, and for a single command that the event is empty. */
  predicate AgreementKnown(room: Room, maxCommands: u32, rsps: seq<Response>, evs: seq<Event>) {
    FirstIsTyped(evs) || Blocked(room, rsps, evs) || (maxCommands == 1 && evs[0] == NO_EVENT)
  }

  lemma BlockedLoopsAgree(env: Env, room: Room, maxCommands: u32, v: View)
    requires Blocked(room, v.rsps, v.evs)
    ensures RunLoop(env, room, maxCommands, v) == ServeUntilEvent(env, room, maxCommands, true, v)
  {
    hide LoopFrom, RunLoopFrom;
    var limit := LimitOf(maxCommands);
    LoopTurn(env, room, EVENT_LOOP, limit, v, 0);
    var o := MainLoop(env, room, EVENT_LOOP, limit, v);
    RunLoopTurn(env, room, limit, v, 0, o);
  }

  lemma SingleCommandAgrees(env: Env, room: Room, v: View)
    requires v.evs != [] && v.evs[0] == NO_EVENT && !Blocked(room, v.rsps, v.evs)
    ensures RunLoop(env, room, 1, v) == ServeUntilEvent(env, room, 1, true, v)
  {
    hide LoopFrom, RunLoopFrom, ExecuteCommand;
    LoopTurn(env, room, EVENT_LOOP, 1, v, 0);
    if v.cmds != [] {
      var t := WithReply(v, ExecuteCommand(env, v.core, v.cmds[0]));
      LoopIsDone(env, room, EVENT_LOOP, 1, t, 1);
      assert t.evs[0] == NO_EVENT;
    }
    var o := MainLoop(env, room, EVENT_LOOP, 1, v);
    RunLoopTurn(env, room, 1, v, 0, o);
    RunLoopIsOver(env, room, 1, o.view);
  }

  function Plain(opcode: u32): Command { Command(opcode, 0, 0, 0, 0, 0, 0, 0, 0, 0, 0, 0, 0, 0, 0, 0) }

  /** RUN_CYCLES for no cycles: no step is taken, no fault left, and a stop event is produced. */
  lemma EmptyRunStops(env: Env, c: Core)
    ensures var r := ExecuteCommand(env, c, Plain(OP_RUN_CYCLES)); r.core.fault == NO_FAULT && r.ev.eventType == EVENT_STOP
  {
  }

  /** One pass over the empty run and a NOP takes the first and hands over the untyped event. */
  lemma PassHandsOverUntyped(env: Env, room: Room, maxCommands: u32, v: View)
    requires !Blocked(room, v.rsps, v.evs) && !FirstIsTyped(v.evs) && v.cmds == [Plain(OP_RUN_CYCLES), Plain(OP_NOP)]
    ensures var r := ExecuteCommand(env, v.core, v.cmds[0]);
            ServeUntilEvent(env, room, maxCommands, true, v)
            == Outcome(View(r.core, [Plain(OP_NOP)], v.rsps + [r.rsp], v.evs[1..] + [r.ev]), 1, v.evs[0])
  {
    hide LoopFrom, ExecuteCommand;
    EmptyRunStops(env, v.core);
    LoopTurn(env, room, EVENT_LOOP, LimitOf(maxCommands), v, 0);
    var r := ExecuteCommand(env, v.core, v.cmds[0]);
    assert (v.evs + [r.ev])[1..] == v.evs[1..] + [r.ev] && v.cmds[1..] == [Plain(OP_NOP)];
  }

  /** The outer loop then goes on: it serves the NOP, or finds the response ring full and reports that fault. */
  lemma OuterLoopGoesOn(env: Env, room: Room, limit: u32, v: View, u: View)
    requires limit >= 2 && !Blocked(room, v.rsps, v.evs) && !FirstIsTyped(v.evs)
    requires MainLoop(env, room, EVENT_LOOP, limit, v) == Outcome(u, 1, v.evs[0])
    requires u.core.fault == NO_FAULT && u.cmds == [Plain(OP_NOP)] && |u.rsps| == |v.rsps| + 1 && |u.evs| == |v.evs|
    ensures var o := RunLoopFrom(env, room, limit, v, 0); o.processed != 1 || o.stop != v.evs[0]
  {
    hide LoopFrom, RunLoopFrom, ExecuteCommand;
    RunLoopTurn(env, room, limit, v, 0, Outcome(u, 1, v.evs[0]));
    var o := MainLoop(env, room, EVENT_LOOP, limit - 1, u);
    RunLoopTurn(env, room, limit, u, 1, o);
    LoopTurn(env, room, EVENT_LOOP, limit - 1, u, 0);
    if |u.rsps| < room.rsps { NopIsServed(env, room, limit - 1, u); }
  }

  lemma NopIsServed(env: Env, room: Room, limit: u32, u: View)
    requires limit >= 1 && u.cmds == [Plain(OP_NOP)] && !Blocked(room, u.rsps, u.evs)
    ensures var o := MainLoop(env, room, EVENT_LOOP, limit, u);
            o.processed == 1 && o.view.cmds == []
  {
    hide LoopFrom;
    var r := ExecuteCommand(env, u.core, Plain(OP_NOP));
    assert r.ev.eventType == EVENT_NONE;
    var t := WithReply(u, r);
    LoopTurn(env, room, EVENT_LOOP, limit, u, 0);
    if limit == 1 {
      LoopIsDone(env, room, EVENT_LOOP, limit, t, 1);
    } else {
      LoopTurn(env, room, EVENT_LOOP, limit, t, 1);
    }
  }

  /** Commands on which the two loops differ when the oldest event is untyped and a ring place is free. */
  lemma UntypedEventSplitsThem(env: Env, room: Room, maxCommands: u32, c: Core, rsps: seq<Response>, evs: seq<Event>)
    requires !AgreementKnown(room, maxCommands, rsps, evs)
    ensures var v := View(c, [Plain(OP_RUN_CYCLES), Plain(OP_NOP)], rsps, evs);
            RunLoop(env, room, maxCommands, v) != ServeUntilEvent(env, room, maxCommands, true, v)
  {
    hide LoopFrom, RunLoopFrom, ExecuteCommand;
    var v := View(c, [Plain(OP_RUN_CYCLES), Plain(OP_NOP)], rsps, evs);
    var limit := LimitOf(maxCommands);
    PassHandsOverUntyped(env, room, maxCommands, v);
    EmptyRunStops(env, c);
    var o := MainLoop(env, room, EVENT_LOOP, limit, v);
    if limit == 1 {
      RunLoopTurn(env, room, 1, v, 0, o);
      RunLoopIsOver(env, room, 1, o.view);
    } else {
      OuterLoopGoesOn(env, room, limit, v, o.view);
    }
  }

  /**
   * Exactly when `RunLoop` and `ServeUntilEvent` agree, for all cores and all waiting commands: the oldest queued event
   * is typed or missing, or an output ring is full, or a single command is allowed and the oldest event is all zero.
   */
  lemma LoopsAgreeExactly(env: Env, room: Room, maxCommands: u32, rsps: seq<Response>, evs: seq<Event>)
    ensures LoopsAgree(env, room, maxCommands, rsps, evs) <==> AgreementKnown(room, maxCommands, rsps, evs)
  {
    hide RunLoop, ServeUntilEvent;
    if AgreementKnown(room, maxCommands, rsps, evs) {
      forall c: Core, cmds: seq<Command>
        ensures RunLoop(env, room, maxCommands, View(c, cmds, rsps, evs))
                == ServeUntilEvent(env, room, maxCommands, true, View(c, cmds, rsps, evs))
      {
        var v := View(c, cmds, rsps, evs);
        if FirstIsTyped(evs) {
          RunLoopIsOnePass(env, room, maxCommands, v);
        } else if Blocked(room, rsps, evs) {
          BlockedLoopsAgree(env, room, maxCommands, v);
        } else {
          SingleCommandAgrees(env, room, v);
        }
      }
    } else {
      var zeros: MockCore.Regs, words: Words := seq(32, _ => 0), seq(64, _ => 0);
      var c := Core(MockState(0, 0, 0, 0, false, 0, false, 0, 0, zeros, zeros, zeros, words, words, words, words), NO_FAULT, 0, 0);
      UntypedEventSplitsThem(env, room, maxCommands, c, rsps, evs);
    }
  }

  /** Without a place for the stop event a single pass leaves the event it stopped at in its ring; nothing else differs. */
  lemma ServeWithoutPlace(env: Env, room: Room, maxCommands: u32, v: View)
    ensures var a := ServeUntilEvent(env, room, maxCommands, true, v);
            var b := ServeUntilEvent(env, room, maxCommands, false, v);
            && a.processed == b.processed <= |v.cmds| && a.view.core == b.view.core
            && a.view.cmds == b.view.cmds && a.view.rsps == b.view.rsps
            && b.view.evs == v.evs + EventsOf(env, v, b.processed)
            && a.view.evs == if EventsOf(env, v, b.processed) != [] then b.view.evs[1..] else b.view.evs
  {
    var limit := LimitOf(maxCommands);
    var with, without := EVENT_LOOP, Flags(true, true, false, true);
    var k := LoopServesPrefix(env, room, with, limit, v, 0);
    var k' := LoopServesPrefix(env, room, without, limit, v, 0);
    FirstStopIsUnique(env, room, with, without, limit, v, k, k');
  }

  lemma FirstStopIsUnique(env: Env, room: Room, fl: Flags, fl': Flags, limit: nat, v: View, k: nat, k': nat)
    requires fl.stopOnEvent == fl'.stopOnEvent
    requires IsFirstStop(env, room, fl, limit, v, 0, k) && IsFirstStop(env, room, fl', limit, v, 0, k')
    ensures k == k'
  {
    assert StopsHere(env, room, fl', limit, v, 0, k) && StopsHere(env, room, fl, limit, v, 0, k');
  }
}
