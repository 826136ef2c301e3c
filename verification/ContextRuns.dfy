/**
 Registers over whole runs: the life cycle of Enclaves together with the register exchange of
 Threads. Between two calls every hart may have computed anything, so each call brings the trap
 frame of that moment. `entered` and `left` record history; no step looks at them.
 */
module ContextRuns {
  import opened Bits
  import opened PmpHardware
  import opened PmpRegions
  import opened Enclaves
  import opened Lifecycle
  import opened LifecycleSteps
  import HartSteps
  import CreateDestroy
  import TrapRuns
  import opened Threads

  /** Why an enclave was left. */
  datatype How = Interrupted | EdgeCall | Finished

  /** An enclave's registers when it was left. */
  datatype Left = Left(ctx: Context, how: How)

  /** `threads[e]` is `enclaves[e].threads[0]`; `entered[h]` what hart `h` last entered an enclave with. */
  datatype World = World(sys: System, threads: seq<Context>, entered: seq<Context>, left: seq<Left>)

  /** Where S-mode continues: in a switched context, or with its own frame and the call's result. */
  datatype Return = To(ctx: Context) | OwnFrame

  /** A trap frame; the trap entry stores x0, which is zero. */
  predicate Frame(m: Context) { Full(m) && m.x[ZERO] == 0 }

  predicate Sized(w: World) {
    && Shaped(w.sys) && |w.threads| == ENCL_MAX && |w.entered| == N_HART && |w.left| == ENCL_MAX
    && (forall e :: 0 <= e < ENCL_MAX ==> Full(w.threads[e]) && Full(w.left[e].ctx))
    && (forall h :: 0 <= h < N_HART ==> Full(w.entered[h]) && w.sys.cpus[h].eid < ENCL_MAX)
  }

  /** The arguments of a first run, a1..a7. */
  function ArgsOf(p: Params): (b: RunArgs)
    ensures b.Valid()
  {
    RunArgs([p.dramBase, p.dramSize, p.runtimeBase, p.userBase, p.freeBase, p.untrustedBase, p.untrustedSize])
  }

  /** Does a create get as far as `clean_state`? */
  predicate CreateCleans(s: System, a: CreateArgs, env: CreateEnv)
    requires Shaped(s)
  {
    !env.copyFails && ArgsValid(a) && FreeEid(s.enclaves, 0) < ENCL_MAX && Reserve(s.table, a).Reserved?
  }

  function StopHow(request: nat): How {
    if request == STOP_EDGE_CALL_HOST || request == STOP_EDGE_CALL_HOST_ACCEPT then EdgeCall else Finished
  }

  function StopCode(request: nat): U64 {
    if request == STOP_TIMER_INTERRUPT then ERR_INTERRUPTED
    else if StopHow(request) == EdgeCall then ERR_EDGE_CALL_HOST else ERR_UNKNOWN
  }

  /** What the thread state holds of an enclave that was left. */
  function LeftBehind(l: Left): (t: Context)
    requires Full(l.ctx)
    ensures Full(t)
  {
    match l.how
    case Interrupted => Outgoing(l.ctx.(mepc := Minus4(l.ctx.mepc)), false)
    case EdgeCall => Outgoing(l.ctx, true)
    case Finished => Outgoing(l.ctx, false)
  }

  /** Entering enclave `eid` with host frame `m`. */
  function Enter(w: World, h: nat, eid: nat, m: Context): (r: World)
    requires Sized(w) && Frame(m) && h < N_HART && eid < ENCL_MAX
    ensures r.sys == w.sys && |r.threads| == ENCL_MAX
  {
    w.(threads := w.threads[eid := Outgoing(m, true)], entered := w.entered[h := m])
  }

  /** Leaving enclave `eid` with enclave frame `m`. */
  function Leave(w: World, eid: nat, m: Context, how: How): (r: World)
    requires Sized(w) && Frame(m) && eid < ENCL_MAX
    ensures r.sys == w.sys && |r.threads| == ENCL_MAX
  {
    w.(threads := w.threads[eid := LeftBehind(Left(m, how))], left := w.left[eid := Left(m, how)])
  }

  /** `clean_state` on the thread of slot `eid`. */
  function Clean(w: World, eid: nat, scounteren: U64): (r: World)
    requires Sized(w) && eid < ENCL_MAX
    ensures Sized(r)
  {
    w.(threads := w.threads[eid := Cleaned(w.threads[eid], scounteren)])
  }

  /**
   The registers' side of what hart `h` does with trap frame `m`, when the monitor's side has led to
   `s` and answered `ret`: the new world and where the hart continues. An interrupt is routed by the
   execution flag, so it can find no enclave to stop, or stop one that another hart runs.
   */
  function Respond(w: World, s: System, ret: nat, h: nat, call: Enclaves.Call, m: Context): (res: (World, Return))
    requires Sized(w) && Frame(m) && h < N_HART
  {
    var here := w.sys.cpus[h].eid;
    var back := m.(mepc := Minus4(m.mepc));
    if Prohibited(w.sys.cpus[h].isEnclave, call) then (w, OwnFrame)
    else match call
      case Create(a, env) =>
        var w1 := if CreateCleans(w.sys, a, env) then Clean(w, FreeEid(w.sys.enclaves, 0), m.csrs.scounteren) else w;
        (w1.(sys := s), OwnFrame)
      case Destroy(_) => (w.(sys := s), OwnFrame)
      case Run(eid) =>
        if ret == SUCCESS && eid < ENCL_MAX then
          var p := w.sys.enclaves[eid].params;
          (Enter(w, h, eid, m).(sys := s), To(FirstRun(m, w.threads[eid], p.dramBase, ArgsOf(p))))
        else (w.(sys := s), To(RunFails(m, ERR_NOT_FRESH)))
      case Resume(eid) =>
        if ret == SUCCESS && eid < ENCL_MAX then
          (Enter(w, h, eid, m).(sys := s), To(Resumed(Incoming(m, w.threads[eid]), SUCCESS)))
        else (w.(sys := s), To(Resumed(m, ERR_NOT_RESUMABLE)))
      case Stop(request) =>
        if ret == ERR_NOT_RUNNING then (w.(sys := s), To(RunFails(m, ERR_NOT_RUNNING)))
        else (Leave(w, here, m, StopHow(request)).(sys := s), To(BackFromStop(m, w.threads[here], StopCode(request))))
      case Exit =>
        if ret == ERR_NOT_RUNNING then (w.(sys := s), To(ExitFails(m, ERR_NOT_RUNNING)))
        else (Leave(w, here, m, Finished).(sys := s), To(BackFromExit(m, w.threads[here])))
      case Interrupt =>
        if !w.sys.executing[h] then (w.(sys := s), OwnFrame)
        else if ret == ERR_NOT_RUNNING then (w.(sys := s), To(RunFails(back, ERR_NOT_RUNNING)))
        else (Leave(w, here, m, Interrupted).(sys := s), To(BackFromStop(back, w.threads[here], ERR_INTERRUPTED)))
      case FirmwareReturn => (w.(sys := s), OwnFrame)
  }

  /** What hart `h` does with trap frame `m`. */
  function Call(w: World, h: nat, call: Enclaves.Call, m: Context): (res: (World, Return))
    requires Sized(w) && Frame(m) && h < N_HART
  {
    var (s, ret) := Step(w.sys, h, call);
    Respond(w, s, ret, h, call, m)
  }

  // ---------- what a call does to states and context flags ----------

  /** Slot `eid`, the lowest free one, may have become Fresh, and only after its thread was cleaned. */
  ghost predicate MakesFresh(s: System, r: System, a: CreateArgs, env: CreateEnv)
    requires Shaped(s) && Shaped(r)
  {
    var eid := FreeEid(s.enclaves, 0);
    && r.cpus == s.cpus
    && (forall i :: 0 <= i < ENCL_MAX && i != eid ==> r.enclaves[i] == s.enclaves[i])
    && (eid < ENCL_MAX ==>
          && (r.enclaves[eid].state == Invalid || r.enclaves[eid].state == Fresh)
          && (r.enclaves[eid].state == Fresh ==> CreateCleans(s, a, env)))
  }

  ghost predicate SameOrGone(s: System, r: System)
    requires Shaped(s) && Shaped(r)
  {
    && r.cpus == s.cpus
    && forall i :: 0 <= i < ENCL_MAX ==> r.enclaves[i].state == s.enclaves[i].state || r.enclaves[i].state == Invalid
  }

  /** The enclave is entered. */
  ghost predicate HasEntered(s: System, r: System, h: nat)
    requires Shaped(s) && Shaped(r) && h < N_HART
  {
    && r.cpus == s.cpus[h := Cpu(true, 0)] && r.enclaves[0].state == Running
    && forall i :: 0 < i < ENCL_MAX ==> r.enclaves[i] == s.enclaves[i]
  }

  /** The enclave is left and stopped. */
  ghost predicate HasLeft(s: System, r: System, h: nat)
    requires Shaped(s) && Shaped(r) && h < N_HART
  {
    && r.cpus == s.cpus[h := s.cpus[h].(isEnclave := false)] && r.enclaves[0].state == Stopped
    && forall i :: 0 < i < ENCL_MAX ==> r.enclaves[i] == s.enclaves[i]
  }

  ghost predicate Transition(s: System, r: System, ret: nat, h: nat, call: Enclaves.Call)
    requires Shaped(s) && Shaped(r) && h < N_HART && s.cpus[h].eid < ENCL_MAX
  {
    if Prohibited(s.cpus[h].isEnclave, call) then r == s
    else match call
      case Create(a, env) => MakesFresh(s, r, a, env)
      case Destroy(_) => SameOrGone(s, r)
      case FirmwareReturn => SameOrGone(s, r)
      case Run(eid) => EnterTransition(s, r, ret, h, call)
      case Resume(eid) => EnterTransition(s, r, ret, h, call)
      case _ =>
        && (ret != ERR_NOT_RUNNING <==> Leaves(s, h, call) || (call.Interrupt? && !s.executing[h]))
        && if Leaves(s, h, call) then HasLeft(s, r, h) else SameOrGone(s, r)
  }

  ghost predicate EnterTransition(s: System, r: System, ret: nat, h: nat, call: Enclaves.Call)
    requires Shaped(s) && Shaped(r) && h < N_HART
  {
    (ret == SUCCESS <==> Enters(s, h, call)) && if Enters(s, h, call) then HasEntered(s, r, h) else SameOrGone(s, r)
  }

  lemma CreateTransition(s: System, h: nat, a: CreateArgs, env: CreateEnv)
    requires TablesInv(s) && 1 <= h < N_HART
    ensures MakesFresh(s, SbiCreate(s, h, a, env).0, a, env)
  {
    SbiCreateResult(s, h, a, env);
    ResultTransition(s, SbiCreate(s, h, a, env).0, SbiCreate(s, h, a, env).1, h, a, env);
  }

  lemma ResultTransition(s: System, r: System, ret: nat, h: nat, a: CreateArgs, env: CreateEnv)
    requires TablesInv(s) && Shaped(r) && CreateResult(s, r, ret, h, a, env)
    ensures MakesFresh(s, r, a, env)
  {
    ResultSlots(s, r, ret, h, a, env);
    if r.enclaves == s.enclaves {
      NothingCreated(s, r, a, env);
    } else {
      SlotTransition(s, r, a, env);
    }
  }

  lemma ResultSlots(s: System, r: System, ret: nat, h: nat, a: CreateArgs, env: CreateEnv)
    requires Shaped(s) && Shaped(r) && CreateResult(s, r, ret, h, a, env)
    ensures r.cpus == s.cpus && forall i :: 0 < i < ENCL_MAX ==> r.enclaves[i] == s.enclaves[i]
    ensures r.enclaves != s.enclaves ==>
              && !Live(s.enclaves[0]) && (r.enclaves[0].state == Invalid || r.enclaves[0].state == Fresh)
              && !env.copyFails && ArgsValid(a) && Reserve(s.table, a).Reserved?
  {
    if r.enclaves != s.enclaves { assert r.enclaves == s.enclaves[0 := r.enclaves[0]]; }
  }

  lemma NothingCreated(s: System, r: System, a: CreateArgs, env: CreateEnv)
    requires Shaped(s) && Shaped(r) && r.enclaves == s.enclaves && r.cpus == s.cpus
    ensures MakesFresh(s, r, a, env)
  {
  }

  lemma SlotTransition(s: System, r: System, a: CreateArgs, env: CreateEnv)
    requires TablesInv(s) && Shaped(r) && !Live(s.enclaves[0])
    requires r.cpus == s.cpus && forall i :: 0 < i < ENCL_MAX ==> r.enclaves[i] == s.enclaves[i]
    requires r.enclaves[0].state == Invalid || r.enclaves[0].state == Fresh
    requires !env.copyFails && ArgsValid(a) && Reserve(s.table, a).Reserved?
    ensures MakesFresh(s, r, a, env)
  {
    TablesNoneLive(s);
  }

  lemma DestroyTransition(s: System, h: nat, eid: nat)
    requires Shaped(s) && h < N_HART
    ensures SameOrGone(s, DestroyEnclave(s, h, eid).0)
  {
  }

  lemma EntersTransition(s: System, h: nat, call: Enclaves.Call)
    requires TablesInv(s) && 1 <= h < N_HART && !s.cpus[h].isEnclave && (call.Run? || call.Resume?)
    ensures var (r, ret) := Step(s, h, call);
            EnterTransition(s, r, ret, h, call)
  {
    TrapRuns.EnterAnswer(s, h, call);
    if Enters(s, h, call) {
      EntersEffect(s, h, call);
    } else {
      OtherCalls(s, h, call);
    }
  }

  lemma LeavesTransition(s: System, h: nat, call: Enclaves.Call)
    requires TablesInv(s) && 1 <= h < N_HART && (EnclaveCall(call) || call.Interrupt?)
    requires !Prohibited(s.cpus[h].isEnclave, call)
    ensures var (r, ret) := Step(s, h, call);
            && (ret != ERR_NOT_RUNNING <==> Leaves(s, h, call) || (call.Interrupt? && !s.executing[h]))
            && if Leaves(s, h, call) then HasLeft(s, r, h) else SameOrGone(s, r)
  {
    if Leaves(s, h, call) {
      LeavesEffect(s, h, call);
    } else {
      OtherCalls(s, h, call);
    }
  }

  lemma StepTransition(s: System, h: nat, call: Enclaves.Call)
    requires TablesInv(s) && 1 <= h < N_HART
    ensures var (r, ret) := Step(s, h, call);
            Transition(s, r, ret, h, call)
  {
    if !Prohibited(s.cpus[h].isEnclave, call) {
      match call
      case Create(a, env) => CreateTransition(s, h, a, env);
      case Destroy(eid) => DestroyTransition(s, h, eid);
      case FirmwareReturn =>
      case Run(eid) => EntersTransition(s, h, call);
      case Resume(eid) => EntersTransition(s, h, call);
      case _ => LeavesTransition(s, h, call);
    }
  }

  // ---------- the invariant ----------

  /** Nothing but zeroes, and a counter-enable mask. */
  predicate Blank(t: Context) {
    && Full(t) && (forall i :: 1 <= i < N_X ==> t.x[i] == 0)
    && t.csrs == SmodeCsrs(0, 0, 0, t.csrs.scounteren, 0, 0, 0, 0)
  }

  predicate ThreadOk(w: World, e: nat)
    requires Sized(w) && e < ENCL_MAX
  {
    && (w.sys.enclaves[e].state == Fresh ==> Blank(w.threads[e]))
    && (w.sys.enclaves[e].state == Stopped ==> w.threads[e] == LeftBehind(w.left[e]))
  }

  /** A hart inside an enclave has its host's registers in the enclave's thread state. */
  ghost predicate HostsSaved(w: World)
    requires Sized(w)
  {
    forall h: nat, e: nat :: Inside(w.sys, h, e) ==> w.threads[e] == Outgoing(w.entered[h], true)
  }

  ghost predicate SavedOk(w: World) {
    Sized(w) && OneToOne(w.sys) && (forall e :: 0 <= e < ENCL_MAX ==> ThreadOk(w, e)) && HostsSaved(w)
  }

  ghost predicate WorldInv(w: World) { SavedOk(w) && TablesInv(w.sys) && TrapRuns.Routed(w.sys) }

  /** Only slot `eid`, which held no enclave, has changed; if it is Fresh now its thread state is clean. */
  lemma NewSlotKeepsSaved(w: World, s: System, eid: nat, clean: bool, scounteren: U64)
    requires SavedOk(w) && Shaped(s) && OneToOne(s) && s.cpus == w.sys.cpus && (clean ==> eid < ENCL_MAX)
    requires forall i :: 0 <= i < ENCL_MAX && i != eid ==> s.enclaves[i] == w.sys.enclaves[i]
    requires eid < ENCL_MAX ==>
               && w.sys.enclaves[eid].state == Invalid
               && (s.enclaves[eid].state == Invalid || s.enclaves[eid].state == Fresh)
               && (s.enclaves[eid].state == Fresh ==> clean)
    ensures SavedOk((if clean then Clean(w, eid, scounteren) else w).(sys := s))
  {
    var r := (if clean then Clean(w, eid, scounteren) else w).(sys := s);
    forall e | 0 <= e < ENCL_MAX ensures ThreadOk(r, e) { assert ThreadOk(w, e); }
    forall k: nat, e: nat | Inside(r.sys, k, e) ensures r.threads[e] == Outgoing(r.entered[k], true) {
      assert Inside(w.sys, k, e);
      assert w.sys.enclaves[e].state == Running;
    }
  }

  /** No context is switched and no enclave becomes Fresh or Stopped. */
  lemma SameThreadsKeep(w: World, s: System)
    requires SavedOk(w) && Shaped(s) && OneToOne(s) && s.cpus == w.sys.cpus
    requires forall i :: 0 <= i < ENCL_MAX ==>
             s.enclaves[i].state == w.sys.enclaves[i].state || s.enclaves[i].state == Invalid
    ensures SavedOk(w.(sys := s))
  {
    var r := w.(sys := s);
    forall e | 0 <= e < ENCL_MAX ensures ThreadOk(r, e) { assert ThreadOk(w, e); }
    forall k: nat, e: nat | Inside(r.sys, k, e) ensures r.threads[e] == Outgoing(r.entered[k], true) {
      assert Inside(w.sys, k, e);
    }
  }

  /** Entering: the thread state now holds the host. */
  lemma EnterKeepsSaved(w: World, h: nat, eid: nat, m: Context, s: System)
    requires SavedOk(w) && h < N_HART && Frame(m) && eid < ENCL_MAX && w.sys.enclaves[eid].state != Running
    requires Shaped(s) && OneToOne(s) && s.cpus == w.sys.cpus[h := Cpu(true, eid)] && s.enclaves[eid].state == Running
    requires forall i :: 0 <= i < ENCL_MAX && i != eid ==> s.enclaves[i] == w.sys.enclaves[i]
    ensures SavedOk(Enter(w, h, eid, m).(sys := s))
  {
    var r := Enter(w, h, eid, m).(sys := s);
    forall e | 0 <= e < ENCL_MAX ensures ThreadOk(r, e) { assert ThreadOk(w, e); }
    forall k: nat, e: nat | Inside(s, k, e) ensures r.threads[e] == Outgoing(r.entered[k], true) {
      if k != h {
        assert Inside(w.sys, k, e);
        assert w.sys.enclaves[e].state == Running;
      }
    }
  }

  /** Leaving: the thread state now holds the enclave. */
  lemma LeaveKeepsSaved(w: World, h: nat, m: Context, how: How, s: System)
    requires SavedOk(w) && h < N_HART && Frame(m) && w.sys.cpus[h].isEnclave
    requires Shaped(s) && OneToOne(s) && s.cpus == w.sys.cpus[h := w.sys.cpus[h].(isEnclave := false)]
    requires s.enclaves[w.sys.cpus[h].eid].state == Stopped
    requires forall i :: 0 <= i < ENCL_MAX && i != w.sys.cpus[h].eid ==> s.enclaves[i] == w.sys.enclaves[i]
    ensures SavedOk(Leave(w, w.sys.cpus[h].eid, m, how).(sys := s))
  {
    var eid := w.sys.cpus[h].eid;
    var r := Leave(w, eid, m, how).(sys := s);
    forall e | 0 <= e < ENCL_MAX ensures ThreadOk(r, e) { assert ThreadOk(w, e); }
    forall k: nat, e: nat | Inside(s, k, e) ensures r.threads[e] == Outgoing(r.entered[k], true) {
      assert Inside(w.sys, k, e) && Inside(w.sys, h, eid);
    }
  }

  lemma RespondKeepsSaved(w: World, s: System, ret: nat, h: nat, call: Enclaves.Call, m: Context)
    requires WorldInv(w) && Shaped(s) && OneToOne(s) && h < N_HART && Frame(m) && Transition(w.sys, s, ret, h, call)
    requires !HartSteps.Strands(w.sys, h, call)
    ensures SavedOk(Respond(w, s, ret, h, call, m).0)
  {
    if !Prohibited(w.sys.cpus[h].isEnclave, call) {
      match call
      case Create(a, env) =>
        NewSlotKeepsSaved(w, s, FreeEid(w.sys.enclaves, 0), CreateCleans(w.sys, a, env), m.csrs.scounteren);
      case Destroy(_) => SameThreadsKeep(w, s);
      case FirmwareReturn => SameThreadsKeep(w, s);
      case Run(eid) => EnteringKeepsSaved(w, s, ret, h, call, m);
      case Resume(eid) => EnteringKeepsSaved(w, s, ret, h, call, m);
      case _ => LeavingKeepsSaved(w, s, ret, h, call, m);
    }
  }

  lemma EnteringKeepsSaved(w: World, s: System, ret: nat, h: nat, call: Enclaves.Call, m: Context)
    requires WorldInv(w) && Shaped(s) && OneToOne(s) && h < N_HART && Frame(m) && !w.sys.cpus[h].isEnclave
    requires (call.Run? || call.Resume?) && EnterTransition(w.sys, s, ret, h, call)
    ensures SavedOk(Respond(w, s, ret, h, call, m).0)
  {
    if Enters(w.sys, h, call) {
      EnterKeepsSaved(w, h, 0, m, s);
    } else {
      SameThreadsKeep(w, s);
    }
  }

  lemma LeavingKeepsSaved(w: World, s: System, ret: nat, h: nat, call: Enclaves.Call, m: Context)
    requires WorldInv(w) && Shaped(s) && OneToOne(s) && h < N_HART && Frame(m) && Transition(w.sys, s, ret, h, call)
    requires (EnclaveCall(call) || call.Interrupt?) && !Prohibited(w.sys.cpus[h].isEnclave, call)
    requires !HartSteps.Strands(w.sys, h, call)
    ensures SavedOk(Respond(w, s, ret, h, call, m).0)
  {
    if Leaves(w.sys, h, call) {
      LeaveKeepsSaved(w, h, m, LeaveHow(call), s);
    } else {
      SameThreadsKeep(w, s);
    }
  }

  /** The new world's monitor state is the one the call has led to. */
  lemma RespondSystem(w: World, s: System, ret: nat, h: nat, call: Enclaves.Call, m: Context)
    requires Sized(w) && Shaped(s) && h < N_HART && Frame(m) && Transition(w.sys, s, ret, h, call)
    ensures Respond(w, s, ret, h, call, m).0.sys == s
  {
  }

  /** Every call keeps what the thread states hold, exactly if it is not the interrupt that strands a hart. */
  lemma CallKeepsWorldIff(w: World, h: nat, call: Enclaves.Call, m: Context)
    requires WorldInv(w) && 1 <= h < N_HART && Frame(m)
    ensures Call(w, h, call, m).0.sys == Step(w.sys, h, call).0
    ensures WorldInv(Call(w, h, call, m).0) <==> !HartSteps.Strands(w.sys, h, call)
  {
    StepKeepsTables(w.sys, h, call);
    StepTransition(w.sys, h, call);
    TrapRuns.OneToOneStepIff(w.sys, h, call);
    var (s, ret) := Step(w.sys, h, call);
    RespondSystem(w, s, ret, h, call, m);
    if !HartSteps.Strands(w.sys, h, call) {
      TrapRuns.StepKeepsRouted(w.sys, h, call);
      RespondKeepsSaved(w, s, ret, h, call, m);
    }
  }

  /** What the stray interrupt does to registers: the hart goes on with the frame another hart entered with. */
  lemma StrayInterruptMixes(w: World, h: nat, k: nat, m: Context)
    requires WorldInv(w) && 1 <= h < N_HART && Frame(m) && HartSteps.Strands(w.sys, h, Interrupt) && Inside(w.sys, k, 0)
    ensures k != h
    ensures var r := Call(w, h, Interrupt, m).1;
            r.To? && Regains(r.ctx, w.entered[k], {A0}) && r.ctx.mepc == (w.entered[k].mepc + 4) % WORD
  {
    StrayReturn(w, h, k, m);
    HostRegains(Interrupt, m, w.entered[k]);
  }

  lemma StrayReturn(w: World, h: nat, k: nat, m: Context)
    requires WorldInv(w) && 1 <= h < N_HART && Frame(m) && HartSteps.Strands(w.sys, h, Interrupt) && Inside(w.sys, k, 0)
    ensures k != h && Call(w, h, Interrupt, m).1 == To(HostFrame(Interrupt, m, Outgoing(w.entered[k], true)))
  {
    StepTransition(w.sys, h, Interrupt);
  }

  /**
   What becomes of the frame the stray interrupt found: the enclave continues with it, instead of its own
   registers, when any host hart next resumes it.
   */
  lemma StrayFrameResumed(w: World, h: nat, m: Context, j: nat, n: Context)
    requires WorldInv(w) && 1 <= h < N_HART && Frame(m) && HartSteps.Strands(w.sys, h, Interrupt)
    requires 1 <= j < N_HART && Frame(n) && !w.sys.cpus[j].isEnclave
    ensures Sized(Call(w, h, Interrupt, m).0)
    ensures var r := Call(Call(w, h, Interrupt, m).0, j, Resume(0), n).1;
            r.To? && Regains(r.ctx, m, {}) && r.ctx.mepc == m.mepc
  {
    StepKeepsTables(w.sys, h, Interrupt);
    StepTransition(w.sys, h, Interrupt);
    var (s, ret) := Step(w.sys, h, Interrupt);
    StrayTransition(w.sys, s, ret, h);
    StrayLeft(w, s, ret, h, m);
    var w1 := Call(w, h, Interrupt, m).0;
    ResumesLeft(w1, j, n);
    ResumedRegains(n, w1.left[0]);
  }

  lemma StrayTransition(s: System, r: System, ret: nat, h: nat)
    requires TablesInv(s) && Shaped(r) && h < N_HART && s.cpus[h].eid < ENCL_MAX
    requires HartSteps.Strands(s, h, Interrupt) && Transition(s, r, ret, h, Interrupt)
    ensures s.executing[h] && s.cpus[h].eid == 0 && ret != ERR_NOT_RUNNING
    ensures r.enclaves[0].state == Stopped && r.cpus == s.cpus
  {
    assert Leaves(s, h, Interrupt);
  }

  lemma StrayLeft(w: World, s: System, ret: nat, h: nat, m: Context)
    requires Sized(w) && Shaped(s) && h < N_HART && Frame(m) && w.sys.executing[h] && ret != ERR_NOT_RUNNING
    requires w.sys.cpus[h].eid == 0 && s.cpus == w.sys.cpus
    ensures var r := Respond(w, s, ret, h, Interrupt, m).0;
            Sized(r) && r.sys == s && r.left[0] == Left(m, Interrupted) && r.threads[0] == LeftBehind(r.left[0])
  {
    RespondLeaves(w, s, ret, h, Interrupt, m);
  }

  function LeaveHow(call: Enclaves.Call): How
    requires call.Stop? || call.Exit? || call.Interrupt?
  {
    match call
    case Stop(request) => StopHow(request)
    case Exit => Finished
    case Interrupt => Interrupted
  }

  /** A hart that the monitor does not find running nothing leaves. */
  lemma RespondLeaves(w: World, s: System, ret: nat, h: nat, call: Enclaves.Call, m: Context)
    requires Sized(w) && Shaped(s) && h < N_HART && Frame(m) && ret != ERR_NOT_RUNNING
    requires !Prohibited(w.sys.cpus[h].isEnclave, call) && (call.Stop? || call.Exit? || call.Interrupt?)
    requires call.Interrupt? ==> w.sys.executing[h]
    ensures Respond(w, s, ret, h, call, m).0 == Leave(w, w.sys.cpus[h].eid, m, LeaveHow(call)).(sys := s)
  {
  }

  /** A stopped enclave's resume by a host hart swaps its thread state in, whatever that holds. */
  lemma ResumesLeft(w: World, j: nat, n: Context)
    requires Sized(w) && TablesInv(w.sys) && 1 <= j < N_HART && Frame(n)
    requires !w.sys.cpus[j].isEnclave && w.sys.enclaves[0].state == Stopped
    ensures Call(w, j, Resume(0), n).1 == To(Resumed(Incoming(n, w.threads[0]), SUCCESS))
  {
    StepTransition(w.sys, j, Resume(0));
  }

  /**
   A stop or exit of a hart that is stranded, after any run of calls: it keeps its own registers, behind
   the ecall, with the error in a0 and, on exit, what was in a0 in a1.
   */
  lemma RefusedLeave(w: World, h: nat, call: Enclaves.Call, m: Context)
    requires Sized(w) && TablesInv(w.sys) && 1 <= h < N_HART && Frame(m)
    requires w.sys.cpus[h].isEnclave && (call.Stop? || call.Exit?) && !Leaves(w.sys, h, call)
    ensures var r := Call(w, h, call, m).1;
            && r.To? && Regains(r.ctx, m, if call.Exit? then {A0, A1} else {A0})
            && r.ctx.x[A0] == ERR_NOT_RUNNING && (call.Exit? ==> r.ctx.x[A1] == m.x[A0])
            && r.ctx.mepc == (m.mepc + 4) % WORD
  {
    StepTransition(w.sys, h, call);
  }

  /** A run or resume that is refused: the hart goes on behind its ecall with its own registers and the error. */
  lemma RefusedEnter(w: World, h: nat, call: Enclaves.Call, m: Context)
    requires Sized(w) && TablesInv(w.sys) && 1 <= h < N_HART && Frame(m)
    requires !w.sys.cpus[h].isEnclave && (call.Run? || call.Resume?) && !Enters(w.sys, h, call)
    ensures var (r, to) := Call(w, h, call, m);
            && r.threads == w.threads && to.To? && Regains(to.ctx, m, {A0})
            && to.ctx.x[A0] == (if call.Run? then ERR_NOT_FRESH else ERR_NOT_RESUMABLE)
            && to.ctx.mepc == (m.mepc + 4) % WORD
  {
    StepTransition(w.sys, h, call);
  }

  // ---------- whole runs ----------

  datatype Event = Event(hart: nat, call: Enclaves.Call, frame: Context)

  predicate ValidRun(run: seq<Event>) {
    forall i :: 0 <= i < |run| ==> 1 <= run[i].hart < N_HART && Frame(run[i].frame)
  }

  const NOTHING: Context := Context(seq(N_X, _ => 0), 0, 0, SmodeCsrs(0, 0, 0, 0, 0, 0, 0, 0))

  ghost function Start(before: seq<Csrs>, mem: map<nat, Byte>): (w: World)
    requires AllValid(before)
    ensures WorldInv(w)
  {
    HartSteps.BootedInv(before, mem);
    World(HartSteps.BootSystem(before, mem), seq(ENCL_MAX, _ => NOTHING), seq(N_HART, _ => NOTHING),
          seq(ENCL_MAX, _ => Left(NOTHING, Finished)))
  }

  /** A run that strands no hart, and the world after it, oldest event first. */
  ghost predicate Calm(before: seq<Csrs>, mem: map<nat, Byte>, run: seq<Event>)
    requires AllValid(before) && ValidRun(run)
    decreases |run|, 0
  {
    run == [] ||
    (Calm(before, mem, run[..|run| - 1]) &&
     var e := run[|run| - 1];
     !HartSteps.Strands(After(before, mem, run[..|run| - 1]).sys, e.hart, e.call))
  }

  ghost function After(before: seq<Csrs>, mem: map<nat, Byte>, run: seq<Event>): (w: World)
    requires AllValid(before) && ValidRun(run) && Calm(before, mem, run)
    ensures WorldInv(w)
    decreases |run|, 1
  {
    if run == [] then Start(before, mem)
    else
      var w := After(before, mem, run[..|run| - 1]);
      var e := run[|run| - 1];
      CallKeepsWorldIff(w, e.hart, e.call, e.frame);
      Call(w, e.hart, e.call, e.frame).0
  }

  /** The run without its trap frames. */
  function Events(run: seq<Event>): (r: seq<HartSteps.Event>)
    ensures |r| == |run| && forall i :: 0 <= i < |run| ==> r[i] == HartSteps.Event(run[i].hart, run[i].call)
  {
    seq(|run|, i requires 0 <= i < |run| => HartSteps.Event(run[i].hart, run[i].call))
  }

  /** The monitor's side of a world is the state the same run reaches without registers. */
  lemma {:induction false} AfterReached(before: seq<Csrs>, mem: map<nat, Byte>, run: seq<Event>)
    requires AllValid(before) && ValidRun(run) && Calm(before, mem, run)
    ensures HartSteps.ValidRun(Events(run))
    ensures After(before, mem, run).sys == HartSteps.Reached(before, mem, Events(run))
    decreases |run|
  {
    if run != [] {
      var (rest, e) := (run[..|run| - 1], run[|run| - 1]);
      AfterReached(before, mem, rest);
      AfterSystem(before, mem, run);
      ReachedNext(before, mem, run);
    } else {
      assert Events(run) == [];
    }
  }

  lemma {:induction false} ReachedNext(before: seq<Csrs>, mem: map<nat, Byte>, run: seq<Event>)
    requires AllValid(before) && ValidRun(run) && run != []
    ensures var (rest, e) := (Events(run[..|run| - 1]), run[|run| - 1]);
            && HartSteps.ValidRun(rest) && HartSteps.ValidRun(Events(run))
            && HartSteps.Reached(before, mem, Events(run)) ==
                Step(HartSteps.Reached(before, mem, rest), e.hart, e.call).0
  {
    var (rest, e) := (Events(run[..|run| - 1]), run[|run| - 1]);
    assert Events(run) == rest + [HartSteps.Event(e.hart, e.call)];
    HartSteps.ReachNext(before, mem, rest, HartSteps.Event(e.hart, e.call));
  }

  lemma {:induction false} AfterSystem(before: seq<Csrs>, mem: map<nat, Byte>, run: seq<Event>)
    requires AllValid(before) && ValidRun(run) && run != [] && Calm(before, mem, run)
    ensures var e := run[|run| - 1];
            After(before, mem, run).sys == Step(After(before, mem, run[..|run| - 1]).sys, e.hart, e.call).0
  {
    var e := run[|run| - 1];
    CallKeepsWorldIff(After(before, mem, run[..|run| - 1]), e.hart, e.call, e.frame);
  }

  // ---------- what comes back ----------

  /** `r` is `c` again in every register but the ones in `except`, in the CSRs and in the masked mstatus fields. */
  ghost predicate Regains(r: Context, c: Context, except: set<nat>) {
    && Full(r) && Full(c)
    && (forall i: nat :: 1 <= i < N_X && i !in except ==> r.x[i] == c.x[i])
    && r.csrs == c.csrs && SameFields(r.mstatus, c.mstatus)
  }

  lemma Plus4Minus4(pc: U64)
    ensures Plus4(Minus4(pc)) == pc
  {
  }

  /** A resume of a stopped enclave by a host hart succeeds and swaps its thread state in. */
  lemma ResumeOutcome(w: World, h: nat, e: nat, m: Context)
    requires WorldInv(w) && 1 <= h < N_HART && e < ENCL_MAX && Frame(m)
    requires !w.sys.cpus[h].isEnclave && w.sys.enclaves[e].state == Stopped
    ensures w.threads[e] == LeftBehind(w.left[e])
    ensures Call(w, h, Resume(e), m).1 == To(Resumed(Incoming(m, w.threads[e]), SUCCESS))
  {
    assert ThreadOk(w, e);
    StepTransition(w.sys, h, Resume(e));
  }

  lemma ResumedRegains(m: Context, l: Left)
    requires Full(m) && Full(l.ctx)
    ensures var r := Resumed(Incoming(m, LeftBehind(l)), SUCCESS);
            && Regains(r, l.ctx, {A0})
            && r.x[A0] == (if l.how == EdgeCall then 0 else l.ctx.x[A0])
            && r.mepc == (if l.how == Interrupted then l.ctx.mepc else Plus4(l.ctx.mepc))
  {
    MixRestores(m.mstatus, l.ctx.mstatus);
    Plus4Minus4(l.ctx.mepc);
  }

  /**
   After any run that strands no hart, resuming a stopped enclave on any hart gives it back the registers it was left
   with. An interrupted enclave continues where it was, with a0 as it was; after an edge call it
   continues behind the ecall with a0 = 0.
   */
  lemma {:induction false} ResumeRestores(before: seq<Csrs>, mem: map<nat, Byte>, run: seq<Event>, h: nat, e: nat,
                                          m: Context)
    requires AllValid(before) && ValidRun(run) && Calm(before, mem, run) && 1 <= h < N_HART && e < ENCL_MAX && Frame(m)
    requires var w := After(before, mem, run);
             !w.sys.cpus[h].isEnclave && w.sys.enclaves[e].state == Stopped
    ensures var w := After(before, mem, run);
            var l := w.left[e];
            var r := Call(w, h, Resume(e), m).1;
            && r.To? && Regains(r.ctx, l.ctx, {A0})
            && r.ctx.x[A0] == (if l.how == EdgeCall then 0 else l.ctx.x[A0])
            && r.ctx.mepc == (if l.how == Interrupted then l.ctx.mepc else (l.ctx.mepc + 4) % WORD)
  {
    var w := After(before, mem, run);
    ResumeOutcome(w, h, e, m);
    ResumedRegains(m, w.left[e]);
  }

  /** What the host finds in a0 when its enclave was left: why, and for an exit that it was one. */
  predicate LeaveCode(call: Enclaves.Call, a0: U64)
    requires call.Stop? || call.Exit? || call.Interrupt?
  {
    match call
    case Exit => a0 == SUCCESS
    case Interrupt => a0 == ERR_INTERRUPTED
    case Stop(request) =>
      && (request == STOP_TIMER_INTERRUPT ==> a0 == ERR_INTERRUPTED)
      && (request == STOP_EDGE_CALL_HOST || request == STOP_EDGE_CALL_HOST_ACCEPT ==> a0 == ERR_EDGE_CALL_HOST)
      && (request !in {STOP_TIMER_INTERRUPT, STOP_EDGE_CALL_HOST, STOP_EDGE_CALL_HOST_ACCEPT} ==> a0 == ERR_UNKNOWN)
  }

  /** The frame the host gets when the enclave's frame is `m` and the thread state holds `saved`. */
  function HostFrame(call: Enclaves.Call, m: Context, saved: Context): (r: Context)
    requires (call.Stop? || call.Exit? || call.Interrupt?) && Full(m) && Full(saved)
    ensures Full(r)
  {
    match call
    case Stop(request) => BackFromStop(m, saved, StopCode(request))
    case Exit => BackFromExit(m, saved)
    case Interrupt => BackFromStop(m.(mepc := Minus4(m.mepc)), saved, ERR_INTERRUPTED)
  }

  lemma LeaveReturn(w: World, h: nat, call: Enclaves.Call, m: Context)
    requires WorldInv(w) && 1 <= h < N_HART && Frame(m)
    requires w.sys.cpus[h].isEnclave && (call.Stop? || call.Exit? || call.Interrupt?)
    ensures Call(w, h, call, m).1 == To(HostFrame(call, m, Outgoing(w.entered[h], true)))
  {
    assert Inside(w.sys, h, w.sys.cpus[h].eid);
    StepTransition(w.sys, h, call);
  }

  lemma HostRegains(call: Enclaves.Call, m: Context, host: Context)
    requires (call.Stop? || call.Exit? || call.Interrupt?) && Full(m) && Full(host)
    ensures var r := HostFrame(call, m, Outgoing(host, true));
            && Regains(r, host, if call.Exit? then {A0, A1} else {A0})
            && LeaveCode(call, r.x[A0]) && (call.Exit? ==> r.x[A1] == m.x[A0])
            && r.mepc == Plus4(host.mepc)
  {
    MixRestores(m.mstatus, host.mstatus);
  }

  /**
   A hart that leaves with frame `m`: the host gets back the registers it entered with, behind its own ecall, with the
   monitor's answer, which gives the reason, in a0 and, on exit, the enclave's a0 in a1.
   */
  ghost predicate HostGoesOn(w: World, h: nat, call: Enclaves.Call, m: Context)
    requires WorldInv(w) && 1 <= h < N_HART && Frame(m) && (call.Stop? || call.Exit? || call.Interrupt?)
  {
    var r := Call(w, h, call, m).1;
    && r.To? && Regains(r.ctx, w.entered[h], if call.Exit? then {A0, A1} else {A0})
    && LeaveCode(call, r.ctx.x[A0]) && r.ctx.x[A0] == Step(w.sys, h, call).1
    && (call.Exit? ==> r.ctx.x[A1] == m.x[A0]) && r.ctx.mepc == (w.entered[h].mepc + 4) % WORD
  }

  /** After any run that strands no hart, so it is when a hart leaves the enclave it is in. */
  lemma {:induction false} LeaveRestores(before: seq<Csrs>, mem: map<nat, Byte>, run: seq<Event>, h: nat,
                                         call: Enclaves.Call, m: Context)
    requires AllValid(before) && ValidRun(run) && Calm(before, mem, run) && 1 <= h < N_HART && Frame(m)
    requires After(before, mem, run).sys.cpus[h].isEnclave && (call.Stop? || call.Exit? || call.Interrupt?)
    ensures HostGoesOn(After(before, mem, run), h, call, m)
  {
    LeaveRestoresAt(After(before, mem, run), h, call, m);
  }

  lemma LeaveRestoresAt(w: World, h: nat, call: Enclaves.Call, m: Context)
    requires WorldInv(w) && 1 <= h < N_HART && Frame(m)
    requires w.sys.cpus[h].isEnclave && (call.Stop? || call.Exit? || call.Interrupt?)
    ensures HostGoesOn(w, h, call, m)
  {
    LeaveReturn(w, h, call, m);
    LeaveAnswer(w, h, call);
    HostRegains(call, m, w.entered[h]);
    OneCode(call, HostFrame(call, m, Outgoing(w.entered[h], true)).x[A0], Step(w.sys, h, call).1);
  }

  /** There is one code for each kind of leaving. */
  lemma OneCode(call: Enclaves.Call, a: U64, b: U64)
    requires (call.Stop? || call.Exit? || call.Interrupt?) && LeaveCode(call, a) && LeaveCode(call, b)
    ensures a == b
  {
  }

  /** The monitor's answer to a hart that leaves. */
  lemma LeaveAnswer(w: World, h: nat, call: Enclaves.Call)
    requires WorldInv(w) && 1 <= h < N_HART && w.sys.cpus[h].isEnclave && (call.Stop? || call.Exit? || call.Interrupt?)
    ensures Step(w.sys, h, call).1 < WORD && LeaveCode(call, Step(w.sys, h, call).1)
  {
    assert Inside(w.sys, h, w.sys.cpus[h].eid);
  }

  lemma RunOutcome(w: World, h: nat, e: nat, m: Context)
    requires WorldInv(w) && 1 <= h < N_HART && e < ENCL_MAX && Frame(m)
    requires !w.sys.cpus[h].isEnclave && w.sys.enclaves[e].state == Fresh
    ensures Blank(w.threads[e])
    ensures var p := w.sys.enclaves[e].params;
            Call(w, h, Run(e), m).1 == To(FirstRun(m, w.threads[e], p.dramBase, ArgsOf(p)))
  {
    assert ThreadOk(w, e);
    StepTransition(w.sys, h, Run(e));
  }

  /** a1..a7 */
  predicate StartArguments(c: Context, base: U64, size: U64, runtime: U64, user: U64, free: U64, untrusted: U64,
                           untrustedSize: U64) {
    && Full(c) && c.x[11] == base && c.x[12] == size && c.x[13] == runtime && c.x[14] == user && c.x[15] == free
    && c.x[16] == untrusted && c.x[17] == untrustedSize
  }

  lemma FirstRunRegisters(m: Context, saved: Context, p: Params)
    requires Full(m) && Blank(saved)
    ensures var r := FirstRun(m, saved, p.dramBase, ArgsOf(p));
            && r.mepc == p.dramBase && r.mstatus == MPP_S
            && StartArguments(r, p.dramBase, p.dramSize, p.runtimeBase, p.userBase, p.freeBase, p.untrustedBase,
                              p.untrustedSize)
            && (forall i :: 1 <= i < N_X && !(A1 <= i <= A7) ==> r.x[i] == 0)
            && r.csrs == SmodeCsrs(0, 0, 0, r.csrs.scounteren, 0, 0, 0, 0)
  {
    Plus4Minus4(p.dramBase);
  }

  /**
   After any run that strands no hart, a first run starts at the enclave's base with its parameters
   and nothing of the host's registers.
   */
  lemma {:induction false} FirstRunStarts(before: seq<Csrs>, mem: map<nat, Byte>, run: seq<Event>, h: nat, e: nat,
                                          m: Context)
    requires AllValid(before) && ValidRun(run) && Calm(before, mem, run) && 1 <= h < N_HART && e < ENCL_MAX && Frame(m)
    requires var w := After(before, mem, run);
             !w.sys.cpus[h].isEnclave && w.sys.enclaves[e].state == Fresh
    ensures var w := After(before, mem, run);
            var p := w.sys.enclaves[e].params;
            var r := Call(w, h, Run(e), m).1;
            && r.To? && Full(r.ctx) && r.ctx.mepc == p.dramBase && r.ctx.mstatus == 0x800
            && StartArguments(r.ctx, p.dramBase, p.dramSize, p.runtimeBase, p.userBase, p.freeBase, p.untrustedBase,
                              p.untrustedSize)
            && (forall i :: 1 <= i < N_X && !(A1 <= i <= A7) ==> r.ctx.x[i] == 0)
            && r.ctx.csrs == SmodeCsrs(0, 0, 0, r.ctx.csrs.scounteren, 0, 0, 0, 0)
  {
    var w := After(before, mem, run);
    RunOutcome(w, h, e, m);
    FirstRunRegisters(m, w.threads[e], w.sys.enclaves[e].params);
  }

  lemma CreateCleansThread(w: World, h: nat, a: CreateArgs, env: CreateEnv, m: Context)
    requires WorldInv(w) && 1 <= h < N_HART && Frame(m) && !w.sys.cpus[h].isEnclave
    requires Step(w.sys, h, Create(a, env)).1 == SUCCESS
    ensures Call(w, h, Create(a, env), m).0.threads[0].csrs == SmodeCsrs(0, 0, 0, m.csrs.scounteren, 0, 0, 0, 0)
  {
    SbiCreateResult(w.sys, h, a, env);
    TablesNoneLive(w.sys);
  }

  /**
   After any run that strands no hart: a create that succeeds, then a run on any host hart. The enclave
   starts at the address the create was given, with the create's arguments and nothing else.
   */
  lemma {:induction false} CreateThenRun(before: seq<Csrs>, mem: map<nat, Byte>, run: seq<Event>, h: nat,
                                         a: CreateArgs, env: CreateEnv, m: Context, k: nat, n: Context)
    requires AllValid(before) && ValidRun(run) && Calm(before, mem, run) && 1 <= h < N_HART && 1 <= k < N_HART
    requires Frame(m) && Frame(n)
    requires var w := After(before, mem, run);
             !w.sys.cpus[h].isEnclave && !w.sys.cpus[k].isEnclave && Step(w.sys, h, Create(a, env)).1 == SUCCESS
    ensures var w1 := Call(After(before, mem, run), h, Create(a, env), m).0;
            && WorldInv(w1)
            && var r := Call(w1, k, Run(0), n).1;
               && r.To? && Full(r.ctx) && r.ctx.mepc == a.epmAddr && r.ctx.mstatus == 0x800
               && StartArguments(r.ctx, a.epmAddr, a.epmSize, a.runtime, a.user, a.free, a.utmAddr, a.utmSize)
               && (forall i :: 1 <= i < N_X && !(A1 <= i <= A7) ==> r.ctx.x[i] == 0)
               && r.ctx.csrs == SmodeCsrs(0, 0, 0, m.csrs.scounteren, 0, 0, 0, 0)
  {
    var w := After(before, mem, run);
    CreateDestroy.CreatedState(w.sys, h, a, env);
    CallKeepsWorldIff(w, h, Create(a, env), m);
    var w1 := Call(w, h, Create(a, env), m).0;
    CreateCleansThread(w, h, a, env, m);
    RunOutcome(w1, k, 0, n);
    FirstRunRegisters(n, w1.threads[0], w1.sys.enclaves[0].params);
  }

  // ---------- the history is the one the lemmas mean ----------

  lemma HistoryOfHostCall(w: World, h: nat, call: Enclaves.Call, m: Context)
    requires WorldInv(w) && 1 <= h < N_HART && Frame(m) && !w.sys.cpus[h].isEnclave && HostCall(call)
    ensures var r := Call(w, h, call, m).0;
            && r.left == w.left && |r.entered| == N_HART && |r.sys.cpus| == N_HART
            && (r.sys.cpus[h].isEnclave ==> r.entered[h] == m)
            && (forall k: nat :: k < N_HART && k != h ==>
                r.entered[k] == w.entered[k] && r.sys.cpus[k] == w.sys.cpus[k])
  {
    StepTransition(w.sys, h, call);
    var (s, ret) := Step(w.sys, h, call);
    HistoryOfEntering(w, s, ret, h, call, m);
  }

  lemma HistoryOfEntering(w: World, s: System, ret: nat, h: nat, call: Enclaves.Call, m: Context)
    requires Sized(w) && Shaped(s) && h < N_HART && Frame(m) && Transition(w.sys, s, ret, h, call)
    requires !w.sys.cpus[h].isEnclave && HostCall(call)
    ensures var r := Respond(w, s, ret, h, call, m).0;
            && r.left == w.left && |r.entered| == N_HART && |r.sys.cpus| == N_HART
            && (r.sys.cpus[h].isEnclave ==> r.entered[h] == m)
            && (forall k: nat :: k < N_HART && k != h ==>
                r.entered[k] == w.entered[k] && r.sys.cpus[k] == w.sys.cpus[k])
  {
  }

  /** Why the enclave was left: an interrupt, a call to the host, or for good. */
  predicate LeftHow(call: Enclaves.Call, how: How) {
    && (how == Interrupted <==> call.Interrupt?)
    && (how == EdgeCall <==> call.Stop? && (call.request == STOP_EDGE_CALL_HOST
                                            || call.request == STOP_EDGE_CALL_HOST_ACCEPT))
  }

  lemma HistoryOfLeaving(w: World, h: nat, call: Enclaves.Call, m: Context)
    requires WorldInv(w) && 1 <= h < N_HART && Frame(m) && w.sys.cpus[h].isEnclave
    requires call.Stop? || call.Exit? || call.Interrupt?
    ensures var r := Call(w, h, call, m).0;
            && r.entered == w.entered && |r.left| == ENCL_MAX
            && r.left[w.sys.cpus[h].eid].ctx == m && LeftHow(call, r.left[w.sys.cpus[h].eid].how)
            && (forall e: nat :: e < ENCL_MAX && e != w.sys.cpus[h].eid ==> r.left[e] == w.left[e])
  {
    StepTransition(w.sys, h, call);
    var (s, ret) := Step(w.sys, h, call);
    InsideLeaves(w, s, ret, h, call);
    HistoryOfLeft(w, s, ret, h, call, m);
  }

  lemma InsideLeaves(w: World, s: System, ret: nat, h: nat, call: Enclaves.Call)
    requires WorldInv(w) && Shaped(s) && h < N_HART && Transition(w.sys, s, ret, h, call)
    requires w.sys.cpus[h].isEnclave && (call.Stop? || call.Exit? || call.Interrupt?)
    ensures ret != ERR_NOT_RUNNING && w.sys.executing[h]
  {
    assert Inside(w.sys, h, 0) && Leaves(w.sys, h, call);
  }

  lemma HistoryOfLeft(w: World, s: System, ret: nat, h: nat, call: Enclaves.Call, m: Context)
    requires Sized(w) && Shaped(s) && h < N_HART && Frame(m) && w.sys.executing[h] && ret != ERR_NOT_RUNNING
    requires w.sys.cpus[h].isEnclave && (call.Stop? || call.Exit? || call.Interrupt?)
    ensures var r := Respond(w, s, ret, h, call, m).0;
            && r.entered == w.entered && |r.left| == ENCL_MAX
            && r.left[w.sys.cpus[h].eid].ctx == m && LeftHow(call, r.left[w.sys.cpus[h].eid].how)
            && (forall e: nat :: e < ENCL_MAX && e != w.sys.cpus[h].eid ==> r.left[e] == w.left[e])
  {
    RespondLeaves(w, s, ret, h, call, m);
  }
}
