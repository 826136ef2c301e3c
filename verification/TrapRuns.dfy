/**
 Which runs keep isolation, and which keep the correspondence between harts in enclave context and
 running enclaves. Calls are admitted by one flag and traps are routed by another, and a refused run
 or resume sets only the latter. And every return from the firmware overwrites pmpcfg0 with a constant that
 leaves a private region of one register closed but switches off one of two. So neither property holds of all
 runs: each holds throughout a run exactly when the run has no trap of certain kinds.
 */
module TrapRuns {
  import opened Bits
  import opened PmpHardware
  import opened PmpRegions
  import opened PmpEncoding
  import opened PmpWord
  import opened Boot
  import opened Enclaves
  import opened Lifecycle
  import opened LifecycleSteps
  import opened HartSteps
  import opened Isolation

  // ---------- the live enclave, one step ----------

  /** Unless a create succeeds, an enclave that is live was live before, with the same memory. */
  lemma LiveKept(s: System, h: nat, call: Call)
    requires TablesInv(s) && 1 <= h < N_HART
    ensures var (r, ret) := Step(s, h, call);
            Live(r.enclaves[0]) && !(call.Create? && ret == SUCCESS) ==>
              Live(s.enclaves[0]) && r.enclaves[0].params == s.enclaves[0].params && r.table == s.table
  {
    if Enters(s, h, call) {
      EntersEffect(s, h, call);
    } else if Leaves(s, h, call) {
      LeavesEffect(s, h, call);
    } else if Creates(s, h, call) {
      CreatesStep(s, h, call);
      RefusedCreate(s, h, call.args, call.env);
    } else if Destroys(s, h, call) {
      DestroysStep(s, h, call);
      DestroyKeepsTables(s, h, call.eid);
    } else if !call.FirmwareReturn? {
      OtherCalls(s, h, call);
    }
  }

  lemma RefusedCreate(s: System, h: nat, a: CreateArgs, env: CreateEnv)
    requires TablesInv(s) && 1 <= h < N_HART
    ensures var (r, ret) := SbiCreate(s, h, a, env);
            Live(r.enclaves[0]) && ret != SUCCESS ==> r.enclaves == s.enclaves && r.table == s.table
  {
    SbiCreateResult(s, h, a, env);
  }

  // ---------- the correspondence, one step ----------

  lemma SameFlags(s: System, r: System)
    requires Shaped(s) && Shaped(r) && OneToOne(s) && r.cpus == s.cpus
    requires forall i :: 0 <= i < ENCL_MAX ==> (r.enclaves[i].state == Running <==> s.enclaves[i].state == Running)
    ensures OneToOne(r)
  {
    forall k: nat, e: nat ensures Inside(r, k, e) <==> Inside(s, k, e) { }
    forall e: nat | e < ENCL_MAX && r.enclaves[e].state == Running
      ensures exists k: nat :: Inside(r, k, e)
    {
      var k: nat :| Inside(s, k, e);
      assert Inside(r, k, e);
    }
  }

  lemma EnterFlags(s: System, r: System, h: nat)
    requires Shaped(s) && Shaped(r) && OneToOne(s) && h < N_HART
    requires s.enclaves[0].state != Running && !s.cpus[h].isEnclave
    requires r.cpus == s.cpus[h := Cpu(true, 0)] && r.enclaves[0].state == Running
    requires forall i :: 0 < i < ENCL_MAX ==> r.enclaves[i] == s.enclaves[i]
    ensures OneToOne(r)
  {
    forall k: nat, e: nat ensures Inside(r, k, e) <==> Inside(s, k, e) || (k == h && e == 0) { }
    forall e: nat | e < ENCL_MAX && r.enclaves[e].state == Running
      ensures exists k: nat :: Inside(r, k, e)
    {
      if e == 0 {
        assert Inside(r, h, e);
      } else {
        var k: nat :| Inside(s, k, e);
        assert Inside(r, k, e);
      }
    }
  }

  lemma LeaveFlags(s: System, r: System, h: nat)
    requires Shaped(s) && Shaped(r) && OneToOne(s) && Inside(s, h, 0)
    requires r.cpus == s.cpus[h := s.cpus[h].(isEnclave := false)] && r.enclaves[0].state == Stopped
    requires forall i :: 0 < i < ENCL_MAX ==> r.enclaves[i] == s.enclaves[i]
    ensures OneToOne(r)
  {
    forall k: nat, e: nat ensures Inside(r, k, e) <==> Inside(s, k, e) && k != h { }
    forall k | 0 <= k < N_HART && r.cpus[k].isEnclave ensures r.enclaves[r.cpus[k].eid].state == Running {
      assert Inside(s, k, s.cpus[k].eid);
    }
    forall e: nat | e < ENCL_MAX && r.enclaves[e].state == Running
      ensures exists k: nat :: Inside(r, k, e)
    {
      var k: nat :| Inside(s, k, e);
      assert Inside(r, k, e);
    }
  }

  /** A stray interrupt stops the enclave under the hart that runs it, and leaves that hart inside. */
  lemma StrandsHart(s: System, h: nat, call: Call)
    requires TablesInv(s) && 1 <= h < N_HART && OneToOne(s) && Strands(s, h, call)
    ensures var r := Step(s, h, call).0;
            !OneToOne(r) && exists k: nat :: k != h && Inside(r, k, 0) && r.enclaves[0].state == Stopped
  {
    LeavesEffect(s, h, call);
    var r := Step(s, h, call).0;
    var k: nat :| Inside(s, k, 0);
    assert k != h && Inside(r, k, 0);
  }

  /** Does the call tell the other harts of a region, and wait until they have heard? */
  predicate Tells(s: System, h: nat, call: Call)
    requires Shaped(s) && h < N_HART
  {
    (Creates(s, h, call) && Reserves(s, call.args, call.env)) || Destroys(s, h, call)
  }

  /** No enclave runs at that moment. */
  lemma TellsIdle(s: System, h: nat, call: Call)
    requires TablesInv(s) && 1 <= h < N_HART && Tells(s, h, call)
    ensures s.enclaves[0].state != Running
  {
    if Creates(s, h, call) { ReservedOnlyWhenIdle(s, call.args); } else { DestroyKeepsTables(s, h, call.eid); }
  }

  /** So the interrupt by which a hart is told lowers its execution flag, if it is up, and does nothing else. */
  lemma ToldByInterrupt(s: System, h: nat, call: Call, k: nat)
    requires TablesInv(s) && 1 <= h < N_HART && 1 <= k < N_HART && Tells(s, h, call)
    ensures Step(s, k, Interrupt).0 == s.(executing := s.executing[k := false])
  {
    TellsIdle(s, h, call);
    IdleInterrupt(s, k);
  }

  lemma IdleInterrupt(s: System, k: nat)
    requires TablesInv(s) && 1 <= k < N_HART && s.enclaves[0].state != Running
    ensures Step(s, k, Interrupt).0 == s.(executing := s.executing[k := false])
  {
    if !s.executing[k] { assert s.executing[k := false] == s.executing; }
  }

  /** Creates and destroys touch only enclaves that are not running, and no flag but those of harts that are told. */
  ghost predicate SameRunning(s: System, r: System, h: nat, told: bool)
    requires Shaped(s) && Shaped(r)
  {
    && r.cpus == s.cpus && r.executing == (if told then Quieted(s.executing, h) else s.executing)
    && forall i :: 0 <= i < ENCL_MAX ==> (r.enclaves[i].state == Running <==> s.enclaves[i].state == Running)
  }

  lemma CreateFlags(s: System, h: nat, a: CreateArgs, env: CreateEnv)
    requires TablesInv(s) && 1 <= h < N_HART
    ensures SameRunning(s, SbiCreate(s, h, a, env).0, h, Reserves(s, a, env))
  {
    SbiCreateResult(s, h, a, env);
    ResultFlags(s, SbiCreate(s, h, a, env).0, SbiCreate(s, h, a, env).1, h, a, env);
  }

  lemma ResultFlags(s: System, r: System, ret: nat, h: nat, a: CreateArgs, env: CreateEnv)
    requires Shaped(s) && Shaped(r) && CreateResult(s, r, ret, h, a, env)
    ensures SameRunning(s, r, h, Reserves(s, a, env))
  {
  }

  lemma DestroyFlags(s: System, h: nat, eid: nat)
    requires TablesInv(s) && 1 <= h < N_HART && Destroyable(s, eid)
    ensures SameRunning(s, DestroyEnclave(s, h, eid).0, h, true)
  {
    DestroyKeepsTables(s, h, eid);
    assert EnclaveOk(s.enclaves[0]);
    DestroyFields(s, h, eid);
  }

  lemma CreateOrDestroyFlags(s: System, h: nat, call: Call)
    requires TablesInv(s) && 1 <= h < N_HART && (Creates(s, h, call) || Destroys(s, h, call))
    ensures SameRunning(s, Step(s, h, call).0, h, Tells(s, h, call))
  {
    if Creates(s, h, call) {
      CreatesStep(s, h, call);
      CreateFlags(s, h, call.args, call.env);
    } else {
      DestroysStep(s, h, call);
      DestroyFlags(s, h, call.eid);
    }
  }

  /** A return from the firmware changes registers of that hart alone. */
  lemma ReturnKeepsFlags(s: System, h: nat, call: Call)
    requires TablesInv(s) && 1 <= h < N_HART && call.FirmwareReturn?
    ensures var r := Step(s, h, call).0;
            r == s.(harts := s.harts[h := r.harts[h]])
  {
  }

  lemma SwitchKeepsFlags(s: System, h: nat, call: Call)
    requires TablesInv(s) && 1 <= h < N_HART && OneToOne(s) && !Strands(s, h, call)
    requires Enters(s, h, call) || Leaves(s, h, call)
    ensures OneToOne(Step(s, h, call).0)
  {
    if Enters(s, h, call) {
      EntersEffect(s, h, call);
      EnterFlags(s, Step(s, h, call).0, h);
    } else {
      LeavesEffect(s, h, call);
      LeaveFlags(s, Step(s, h, call).0, h);
    }
  }

  lemma NoSwitchKeepsFlags(s: System, h: nat, call: Call)
    requires TablesInv(s) && 1 <= h < N_HART && OneToOne(s) && !Enters(s, h, call) && !Leaves(s, h, call)
    ensures OneToOne(Step(s, h, call).0)
  {
    if Creates(s, h, call) || Destroys(s, h, call) {
      CreateOrDestroyFlags(s, h, call);
    } else if !call.FirmwareReturn? {
      OtherCalls(s, h, call);
    } else {
      ReturnKeepsFlags(s, h, call);
    }
    SameFlags(s, Step(s, h, call).0);
  }

  /** Whatever a hart does, the correspondence survives exactly if it is not the stray interrupt. */
  lemma OneToOneStepIff(s: System, h: nat, call: Call)
    requires TablesInv(s) && 1 <= h < N_HART && OneToOne(s)
    ensures OneToOne(Step(s, h, call).0) <==> !Strands(s, h, call)
  {
    if Strands(s, h, call) {
      StrandsHart(s, h, call);
    } else if Enters(s, h, call) || Leaves(s, h, call) {
      SwitchKeepsFlags(s, h, call);
    } else {
      NoSwitchKeepsFlags(s, h, call);
    }
  }

  // ---------- whole runs ----------

  /** The state before event `n`, or after the last one. */
  ghost function At(before: seq<Csrs>, mem: map<nat, Byte>, run: seq<Event>, n: nat): (s: System)
    requires AllValid(before) && ValidRun(run) && n <= |run|
    ensures CoreInv(s)
  {
    Reached(before, mem, run[..n])
  }

  lemma AtNext(before: seq<Csrs>, mem: map<nat, Byte>, run: seq<Event>, n: nat)
    requires AllValid(before) && ValidRun(run) && n < |run|
    ensures At(before, mem, run, n + 1) == Step(At(before, mem, run, n), run[n].hart, run[n].call).0
  {
    BootedInv(before, mem);
    assert run[..n + 1] == run[..n] + [run[n]];
    LastStep(BootSystem(before, mem), run[..n], run[n]);
  }

  lemma AtLast(before: seq<Csrs>, mem: map<nat, Byte>, run: seq<Event>, n: nat)
    requires AllValid(before) && ValidRun(run) && 0 < n <= |run|
    ensures At(before, mem, run, n) == Step(At(before, mem, run, n - 1), run[n - 1].hart, run[n - 1].call).0
  {
    BootedInv(before, mem);
    assert run[..n] == run[..n - 1] + [run[n - 1]];
    LastStep(BootSystem(before, mem), run[..n - 1], run[n - 1]);
  }

  lemma AtStart(before: seq<Csrs>, mem: map<nat, Byte>, run: seq<Event>)
    requires AllValid(before) && ValidRun(run)
    ensures At(before, mem, run, 0) == BootSystem(before, mem)
  {
    assert run[..0] == [];
  }

  /** At first no enclave is live, and no hart is in enclave context or stray. */
  lemma StartsIdle(before: seq<Csrs>, mem: map<nat, Byte>, run: seq<Event>)
    requires AllValid(before) && ValidRun(run)
    ensures var s := At(before, mem, run, 0);
            !Live(s.enclaves[0]) && forall k :: 0 <= k < N_HART ==> !s.cpus[k].isEnclave && !s.executing[k]
  {
    AtStart(before, mem, run);
  }

  /** No event up to `n` is an interrupt on a stray hart while the enclave runs elsewhere. */
  ghost predicate Unstranded(before: seq<Csrs>, mem: map<nat, Byte>, run: seq<Event>, n: nat)
    requires AllValid(before) && ValidRun(run) && n <= |run|
  {
    forall i: nat :: i < n ==> !Strands(At(before, mem, run, i), run[i].hart, run[i].call)
  }

  lemma {:induction false} UnstrandedOneToOne(before: seq<Csrs>, mem: map<nat, Byte>, run: seq<Event>, n: nat)
    requires AllValid(before) && ValidRun(run) && n <= |run| && Unstranded(before, mem, run, n)
    ensures OneToOne(At(before, mem, run, n))
  {
    if n == 0 {
      AtStart(before, mem, run);
      BootedInv(before, mem);
    } else {
      UnstrandedOneToOne(before, mem, run, n - 1);
      OneToOneNextIff(before, mem, run, n - 1);
    }
  }

  lemma OneToOneNextIff(before: seq<Csrs>, mem: map<nat, Byte>, run: seq<Event>, n: nat)
    requires AllValid(before) && ValidRun(run) && n < |run| && OneToOne(At(before, mem, run, n))
    ensures OneToOne(At(before, mem, run, n + 1)) <==> !Strands(At(before, mem, run, n), run[n].hart, run[n].call)
  {
    AtNext(before, mem, run, n);
    OneToOneStepIff(At(before, mem, run, n), run[n].hart, run[n].call);
  }

  /**
   In a run from boot, RUNNING enclaves and harts in enclave context correspond one to one in
   every state exactly when no interrupt comes to a stray hart while the enclave is RUNNING.
   */
  lemma OneToOneRunIff(before: seq<Csrs>, mem: map<nat, Byte>, run: seq<Event>)
    requires AllValid(before) && ValidRun(run)
    ensures (forall n: nat :: n <= |run| ==> OneToOne(At(before, mem, run, n))) <==> Unstranded(before, mem, run, |run|)
  {
    if Unstranded(before, mem, run, |run|) {
      forall n: nat | n <= |run| ensures OneToOne(At(before, mem, run, n)) {
        UnstrandedOneToOne(before, mem, run, n);
      }
    } else {
      var i: nat :| i < |run| && Strands(At(before, mem, run, i), run[i].hart, run[i].call);
      if OneToOne(At(before, mem, run, i)) {
        OneToOneNextIff(before, mem, run, i);
        assert !OneToOne(At(before, mem, run, i + 1));
      }
    }
  }

  // ---------- which harts are stray ----------

  /** What a call by hart `h` does to the two flags of each hart. */
  ghost predicate FlagsStep(s: System, r: System, h: nat, call: Call)
    requires Shaped(s) && Shaped(r) && h < N_HART
  {
    forall k :: 0 <= k < N_HART ==>
      && r.cpus[k].isEnclave == (if k == h then NextContext(s, h, call) else s.cpus[k].isEnclave)
      && r.executing[k] == (if k == h then NextExecuting(s, h, call)
                            else s.executing[k] && !(1 <= k && Tells(s, h, call)))
  }

  lemma StepFlags(s: System, h: nat, call: Call)
    requires TablesInv(s) && 1 <= h < N_HART
    ensures FlagsStep(s, Step(s, h, call).0, h, call)
  {
    if Enters(s, h, call) || Leaves(s, h, call) {
      SwitchFlags(s, h, call);
    } else if Creates(s, h, call) || Destroys(s, h, call) {
      CreateOrDestroyFlags(s, h, call);
    } else if !call.FirmwareReturn? {
      OtherFlags(s, h, call);
    } else {
      ReturnKeepsFlags(s, h, call);
    }
  }

  lemma SwitchFlags(s: System, h: nat, call: Call)
    requires TablesInv(s) && 1 <= h < N_HART && (Enters(s, h, call) || Leaves(s, h, call))
    ensures FlagsStep(s, Step(s, h, call).0, h, call)
  {
    if Enters(s, h, call) {
      EntersEffect(s, h, call);
      EnteringFlags(s, Step(s, h, call).0, h, call);
    } else {
      LeavesEffect(s, h, call);
      LeavingFlags(s, Step(s, h, call).0, h, call);
    }
  }

  lemma EnteringFlags(s: System, r: System, h: nat, call: Call)
    requires Shaped(s) && Shaped(r) && 1 <= h < N_HART && Enters(s, h, call)
    requires r.cpus == s.cpus[h := Cpu(true, 0)] && r.executing == s.executing[h := true]
    ensures FlagsStep(s, r, h, call)
  {
  }

  lemma LeavingFlags(s: System, r: System, h: nat, call: Call)
    requires Shaped(s) && Shaped(r) && 1 <= h < N_HART && Leaves(s, h, call)
    requires r.cpus == s.cpus[h := s.cpus[h].(isEnclave := false)] && r.executing == s.executing[h := false]
    ensures FlagsStep(s, r, h, call)
  {
  }

  predicate NextContext(s: System, h: nat, call: Call)
    requires Shaped(s) && h < N_HART
  {
    Enters(s, h, call) || (s.cpus[h].isEnclave && !Leaves(s, h, call))
  }

  predicate NextExecuting(s: System, h: nat, call: Call)
    requires Shaped(s) && h < N_HART
  {
    if (call.Run? || call.Resume?) && !s.cpus[h].isEnclave then true
    else if (EnclaveCall(call) && s.cpus[h].isEnclave) || call.Interrupt? then false
    else s.executing[h]
  }

  lemma OtherFlags(s: System, h: nat, call: Call)
    requires TablesInv(s) && 1 <= h < N_HART
    requires !Enters(s, h, call) && !Leaves(s, h, call) && !call.FirmwareReturn?
    requires !Creates(s, h, call) && !Destroys(s, h, call)
    ensures Step(s, h, call).0 == s.(executing := s.executing[h := NextExecuting(s, h, call)])
  {
    forall i | 0 <= i < ENCL_MAX ensures EnclaveOk(s.enclaves[i]) && (i == 0 || s.enclaves[i].state == Invalid) { }
  }

  /** The traps of harts in enclave context go the enclave's way. */
  predicate Routed(s: System)
    requires Shaped(s)
  {
    forall h :: 0 <= h < N_HART && s.cpus[h].isEnclave ==> s.executing[h]
  }

  lemma StepKeepsRouted(s: System, h: nat, call: Call)
    requires TablesInv(s) && 1 <= h < N_HART && OneToOne(s) && Routed(s)
    ensures Routed(Step(s, h, call).0)
  {
    StepFlags(s, h, call);
    if Tells(s, h, call) { TellsIdle(s, h, call); }
    FlagsKeepRouted(s, Step(s, h, call).0, h, call);
  }

  lemma FlagsKeepRouted(s: System, r: System, h: nat, call: Call)
    requires TablesInv(s) && Shaped(r) && 1 <= h < N_HART && OneToOne(s) && Routed(s) && FlagsStep(s, r, h, call)
    requires Tells(s, h, call) ==> s.enclaves[0].state != Running
    ensures Routed(r)
  {
  }

  /** Of the answers to run and resume, the gate's refusal is told apart from the enclave's. */
  lemma EnterAnswer(s: System, h: nat, call: Call)
    requires TablesInv(s) && 1 <= h < N_HART && (call.Run? || call.Resume?)
    ensures Step(s, h, call).1 == ERR_SBI_PROHIBITED <==> s.cpus[h].isEnclave
    ensures Step(s, h, call).1 == SUCCESS <==> Enters(s, h, call)
  {
    forall i | 0 <= i < ENCL_MAX ensures EnclaveOk(s.enclaves[i]) && (i == 0 || s.enclaves[i].state == Invalid) { }
  }

  /** Is hart `k`'s last run or resume a refused one after a call, if it `was` before? */
  predicate RefusedAfter(s: System, h: nat, call: Call, k: nat, was: bool)
    requires Shaped(s) && h < N_HART
  {
    if h == k && (call.Run? || call.Resume?) && !s.cpus[h].isEnclave then !Enters(s, h, call)
    else if h == k && call.Interrupt? then false
    else if h != k && Tells(s, h, call) then false
    else was
  }

  lemma StrayStep(s: System, h: nat, call: Call, k: nat)
    requires TablesInv(s) && 1 <= h < N_HART && 1 <= k < N_HART
    ensures Stray(Step(s, h, call).0, k) <==> RefusedAfter(s, h, call, k, Stray(s, k))
  {
    StepFlags(s, h, call);
    StrayFlags(s, Step(s, h, call).0, h, call, k);
  }

  lemma StrayFlags(s: System, r: System, h: nat, call: Call, k: nat)
    requires Shaped(s) && Shaped(r) && 1 <= h < N_HART && 1 <= k < N_HART && FlagsStep(s, r, h, call)
    ensures Stray(r, k) <==> RefusedAfter(s, h, call, k, Stray(s, k))
  {
  }

  /**
   Was the last run or resume that hart `h` was admitted with refused, with no interrupt since and no create or
   destroy that told it of a region? `EnterAnswer` says what refused and admitted mean in terms of answers.
   */
  ghost predicate Refused(before: seq<Csrs>, mem: map<nat, Byte>, run: seq<Event>, n: nat, h: nat)
    requires AllValid(before) && ValidRun(run) && n <= |run|
  {
    n > 0 &&
    RefusedAfter(At(before, mem, run, n - 1), run[n - 1].hart, run[n - 1].call, h, Refused(before, mem, run, n - 1, h))
  }

  /** In every run, the stray harts are those whose last run or resume was refused. */
  lemma {:induction false} StrayIffRefused(before: seq<Csrs>, mem: map<nat, Byte>, run: seq<Event>, n: nat, h: nat)
    requires AllValid(before) && ValidRun(run) && n <= |run| && 1 <= h < N_HART
    ensures Stray(At(before, mem, run, n), h) <==> Refused(before, mem, run, n, h)
  {
    if n == 0 {
      StartsIdle(before, mem, run);
    } else {
      var was := Refused(before, mem, run, n - 1, h);
      StrayIffRefused(before, mem, run, n - 1, h);
      StrayNext(before, mem, run, n - 1, h, was);
      RefusedNext(before, mem, run, n - 1, h, was);
    }
  }

  lemma RefusedNext(before: seq<Csrs>, mem: map<nat, Byte>, run: seq<Event>, n: nat, h: nat, was: bool)
    requires AllValid(before) && ValidRun(run) && n < |run| && was == Refused(before, mem, run, n, h)
    ensures Refused(before, mem, run, n + 1, h)
       <==> RefusedAfter(At(before, mem, run, n), run[n].hart, run[n].call, h, was)
  {
  }

  lemma StrayNext(before: seq<Csrs>, mem: map<nat, Byte>, run: seq<Event>, n: nat, h: nat, was: bool)
    requires AllValid(before) && ValidRun(run) && n < |run| && 1 <= h < N_HART
    requires Stray(At(before, mem, run, n), h) == was
    ensures Stray(At(before, mem, run, n + 1), h)
       <==> RefusedAfter(At(before, mem, run, n), run[n].hart, run[n].call, h, was)
  {
    AtNext(before, mem, run, n);
    StrayStep(At(before, mem, run, n), run[n].hart, run[n].call, h);
  }

  // ---------- who has the private memory open, in every run ----------

  /** Does an enclave come to life between two states? */
  predicate Begins(s: System, r: System)
    requires Shaped(s) && Shaped(r)
  {
    !Live(s.enclaves[0]) && Live(r.enclaves[0])
  }

  /** An enclave comes to life exactly by a create that succeeds. */
  lemma BeginsIffMade(s: System, h: nat, call: Call)
    requires CoreInv(s) && 1 <= h < N_HART
    ensures Begins(s, Step(s, h, call).0) <==> call.Create? && Step(s, h, call).1 == SUCCESS
  {
    LiveKept(s, h, call);
    if call.Create? && Step(s, h, call).1 == SUCCESS {
      CreatesStep(s, h, call);
      CreatesHarts(s, h, call.args, call.env);
    }
  }

  /** A return from the firmware with the execution flag down: nothing is repaired. */
  predicate Relocks(s: System, h: nat, call: Call)
    requires Shaped(s) && h < N_HART
  {
    call.FirmwareReturn? && !s.executing[h]
  }

  /** What is the private region on hart `k` after a call that leads to `r`, if it `was` so before? */
  function EpmAfter(s: System, r: System, h: nat, call: Call, k: nat, was: Epm): Epm
    requires Shaped(s) && Shaped(r) && h < N_HART
  {
    if Begins(s, r) then Closed
    else if k != h then was
    else if Enters(s, h, call) || Fixes(s, h, call) then Open
    else if Leaves(s, h, call) then Closed
    else if Relocks(s, h, call) then (if Live(s.enclaves[0]) && !OneRegister(s.enclaves[0].params) then Off else Closed)
    else was
  }

  function StandNext(s: System, r: System, h: nat, call: Call, st: seq<Epm>): (next: seq<Epm>)
    requires Shaped(s) && Shaped(r) && h < N_HART && |st| == N_HART
    ensures |next| == N_HART && forall k :: 0 <= k < N_HART ==> next[k] == EpmAfter(s, r, h, call, k, st[k])
  {
    seq(N_HART, k requires 0 <= k < N_HART => EpmAfter(s, r, h, call, k, st[k]))
  }

  /**
   What the private region is on each hart: closed by the create, open from entering or a repair, closed again by the
   switch back, and by a return from the firmware closed if it takes one register and off if it takes two.
   */
  ghost function Standing(before: seq<Csrs>, mem: map<nat, Byte>, run: seq<Event>, n: nat): (st: seq<Epm>)
    requires AllValid(before) && ValidRun(run) && n <= |run|
    ensures |st| == N_HART
  {
    if n == 0 then seq(N_HART, _ => Closed)
    else StandNext(At(before, mem, run, n - 1), At(before, mem, run, n), run[n - 1].hart, run[n - 1].call,
                   Standing(before, mem, run, n - 1))
  }

  /** The private region, if there is one, is `e` on hart `k`. */
  ghost predicate HasEpm(s: System, k: nat, e: Epm)
    requires Shaped(s) && k < N_HART
  {
    Live(s.enclaves[0]) ==> EpmIs(s.harts[k], s.table.regions[EPM_RID], e)
  }

  /** While an enclave is live a create does no more than reopen the OS region of the calling hart. */
  lemma LiveCreate(s: System, h: nat, a: CreateArgs, env: CreateEnv)
    requires CoreInv(s) && 1 <= h < N_HART && Live(s.enclaves[0])
    ensures var r := SbiCreate(s, h, a, env).0;
            r.harts == s.harts[h := r.harts[h]] && Reopened(s.harts[h], r.harts[h])
  {
    SbiCreateParts(s, h, a, env);
    assert CoreHart(s, h);
    TablesNoneLive(s);
    OsReopens(s.table, s.harts[h]);
    var s1 := s.(harts := s.harts[h := OsUnlockLock(s.table, s.harts[h])]);
    OsReopens(s.table, s1.harts[h]);
    SameTables(s, s1);
    CreateOutcomes(s1, h, a, env);
  }

  lemma RefusedCreateKeepsEpm(s: System, h: nat, call: Call, k: nat)
    requires CoreInv(s) && 1 <= h < N_HART && 1 <= k < N_HART && Live(s.enclaves[0]) && Creates(s, h, call)
    ensures var r := Step(s, h, call).0;
            && (forall e: Epm :: EpmIs(s.harts[k], s.table.regions[EPM_RID], e) ==>
                  EpmIs(r.harts[k], s.table.regions[EPM_RID], e))
            && (if k == h then OsOpen(r.harts[k]) else r.harts[k] == s.harts[k])
  {
    CreatesStep(s, h, call);
    LiveCreate(s, h, call.args, call.env);
  }

  lemma SwitchStands(s: System, h: nat, call: Call, k: nat, was: Epm)
    requires CoreInv(s) && 1 <= h < N_HART && 1 <= k < N_HART && HasEpm(s, k, was)
    requires Enters(s, h, call) || Leaves(s, h, call)
    ensures HasEpm(Step(s, h, call).0, k, if k != h then was else if Enters(s, h, call) then Open else Closed)
  {
    if Enters(s, h, call) {
      EntersHart(s, h, call, k);
      EntersEffect(s, h, call);
    } else {
      LeavesHart(s, h, call, k);
      LeavesEffect(s, h, call);
    }
  }

  /** One register for a private range that is an aligned power of two, and two for any other. */
  lemma RegistersOf(s: System)
    requires TablesInv(s) && Live(s.enclaves[0])
    ensures OneRegister(s.enclaves[0].params) <==> s.table.regions[EPM_RID].mode == A_NAPOT
    ensures EpmShaped(s.table.regions[EPM_RID])
  {
  }

  lemma ReturnStands(s: System, h: nat, call: Call, k: nat, was: Epm)
    requires CoreInv(s) && 1 <= h < N_HART && 1 <= k < N_HART && HasEpm(s, k, was) && call.FirmwareReturn?
    ensures HasEpm(Step(s, h, call).0, k,
                   if k != h then was else if Fixes(s, h, call) then Open
                   else if OneRegister(s.enclaves[0].params) then Closed else Off)
  {
    if Fixes(s, h, call) { FixesHart(s, h, call); } else { RelockHart(s, h); }
    if Live(s.enclaves[0]) { RegistersOf(s); }
  }

  lemma CreateStands(s: System, h: nat, call: Call, k: nat, was: Epm)
    requires CoreInv(s) && 1 <= h < N_HART && 1 <= k < N_HART && HasEpm(s, k, was) && Creates(s, h, call)
    ensures HasEpm(Step(s, h, call).0, k, if Step(s, h, call).1 == SUCCESS then Closed else was)
  {
    LiveKept(s, h, call);
    if Step(s, h, call).1 == SUCCESS {
      CreatesStep(s, h, call);
      CreatesHarts(s, h, call.args, call.env);
    } else if Live(s.enclaves[0]) {
      RefusedCreateKeepsEpm(s, h, call, k);
    }
  }

  lemma OtherStands(s: System, h: nat, call: Call, k: nat, was: Epm)
    requires CoreInv(s) && 1 <= h < N_HART && 1 <= k < N_HART && HasEpm(s, k, was)
    requires !Enters(s, h, call) && !Leaves(s, h, call) && !call.FirmwareReturn? && !Creates(s, h, call)
    ensures HasEpm(Step(s, h, call).0, k, was)
  {
    if Destroys(s, h, call) {
      DestroysStep(s, h, call);
      DestroyKeepsTables(s, h, call.eid);
    } else {
      OtherCalls(s, h, call);
    }
  }

  lemma StepStands(s: System, h: nat, call: Call, k: nat, was: Epm)
    requires CoreInv(s) && 1 <= h < N_HART && 1 <= k < N_HART && HasEpm(s, k, was)
    ensures HasEpm(Step(s, h, call).0, k, EpmAfter(s, Step(s, h, call).0, h, call, k, was))
  {
    BeginsIffMade(s, h, call);
    if Enters(s, h, call) || Leaves(s, h, call) {
      SwitchStands(s, h, call, k, was);
    } else if call.FirmwareReturn? {
      ReturnStands(s, h, call, k, was);
      ReturnKeepsFlags(s, h, call);
    } else if Creates(s, h, call) {
      CreateStands(s, h, call, k, was);
    } else {
      OtherStands(s, h, call, k, was);
    }
  }

  /** On each hart the private region is what `st` says. */
  ghost predicate EpmOn(s: System, st: seq<Epm>)
    requires Shaped(s) && |st| == N_HART
  {
    forall k: nat :: 1 <= k < N_HART ==> HasEpm(s, k, st[k])
  }

  lemma EpmOnStep(s: System, h: nat, call: Call, st: seq<Epm>)
    requires CoreInv(s) && 1 <= h < N_HART && |st| == N_HART && EpmOn(s, st)
    ensures EpmOn(Step(s, h, call).0, StandNext(s, Step(s, h, call).0, h, call, st))
  {
    var r := Step(s, h, call).0;
    forall k: nat | 1 <= k < N_HART ensures HasEpm(r, k, StandNext(s, r, h, call, st)[k]) {
      StepStands(s, h, call, k, st[k]);
    }
  }

  lemma {:induction false} StandingTells(before: seq<Csrs>, mem: map<nat, Byte>, run: seq<Event>, n: nat)
    requires AllValid(before) && ValidRun(run) && n <= |run|
    ensures EpmOn(At(before, mem, run, n), Standing(before, mem, run, n))
  {
    if n == 0 {
      StartsIdle(before, mem, run);
    } else {
      StandingTells(before, mem, run, n - 1);
      StandingNext(before, mem, run, n);
    }
  }

  lemma StandingNext(before: seq<Csrs>, mem: map<nat, Byte>, run: seq<Event>, n: nat)
    requires AllValid(before) && ValidRun(run) && 0 < n <= |run|
    requires EpmOn(At(before, mem, run, n - 1), Standing(before, mem, run, n - 1))
    ensures EpmOn(At(before, mem, run, n), Standing(before, mem, run, n))
  {
    AtLast(before, mem, run, n);
    EpmOnStep(At(before, mem, run, n - 1), run[n - 1].hart, run[n - 1].call, Standing(before, mem, run, n - 1));
  }

  /** What a hart may do at an address of private memory that the PMP can express. */
  ghost function PrivateGrant(c: Csrs, p: Params, e: Epm, x: nat): nat
    requires ValidCsrs(c)
  {
    match e
    case Closed => NO_PERM
    case Open => SU_RWX
    case Off => if FirstBytes(p, x) then NO_PERM else PermFrom(c, x, 7)
  }

  /**
   In every run whatever, at every moment, a hart may do with a live enclave's private memory: everything if it last
   entered the enclave or had its permissions repaired; if the region takes two registers and the last of these was a
   return from the firmware with nothing repaired, what the bottom entry says, but for eight bytes; else nothing.
   */
  lemma PrivateMemoryExact(before: seq<Csrs>, mem: map<nat, Byte>, run: seq<Event>, k: nat, x: nat)
    requires AllValid(before) && ValidRun(run) && 1 <= k < N_HART && x < PHYS
    requires Visible(Reached(before, mem, run)) && InEpm(Reached(before, mem, run).enclaves[0].params, x)
    ensures var s := Reached(before, mem, run);
            Perm(s.harts[k], x) ==
              PrivateGrant(s.harts[k], s.enclaves[0].params, Standing(before, mem, run, |run|)[k], x)
  {
    assert run[..|run|] == run;
    StandingTells(before, mem, run, |run|);
    PermByStanding(Reached(before, mem, run), Standing(before, mem, run, |run|), k, x);
  }

  lemma PermByStanding(s: System, st: seq<Epm>, k: nat, x: nat)
    requires CoreInv(s) && 1 <= k < N_HART && x < PHYS && |st| == N_HART && EpmOn(s, st)
    requires Visible(s) && InEpm(s.enclaves[0].params, x)
    ensures Perm(s.harts[k], x) == PrivateGrant(s.harts[k], s.enclaves[0].params, st[k], x)
  {
    var (p, c) := (s.enclaves[0].params, s.harts[k]);
    assert CoreHart(s, k) && HasEpm(s, k, st[k]);
    if st[k] == Off {
      EpmOutsideBoot(s.table, p, x);
      OffEntry(c, s.table, p, x);
    } else {
      PermInEpm(c, s.table, p, if st[k] == Open then SU_RWX else NO_PERM, x);
    }
  }

  // ---------- who has entered the live enclave ----------

  /** Has hart `k` entered the live enclave, and not left it, after a call that leads to `r`, if it `was` so before? */
  predicate EnteredAfter(s: System, r: System, h: nat, call: Call, k: nat, was: bool)
    requires Shaped(s) && Shaped(r) && h < N_HART
  {
    if Begins(s, r) then false
    else if k == h && Enters(s, h, call) then true
    else if k == h && Leaves(s, h, call) then false
    else was
  }

  function EnteredNext(s: System, r: System, h: nat, call: Call, entered: set<nat>): set<nat>
    requires Shaped(s) && Shaped(r) && h < N_HART
  {
    set k: nat | 1 <= k < N_HART && EnteredAfter(s, r, h, call, k, k in entered)
  }

  /** The harts that ran or resumed the live enclave since its create and have not been switched back since. */
  ghost function Entered(before: seq<Csrs>, mem: map<nat, Byte>, run: seq<Event>, n: nat): set<nat>
    requires AllValid(before) && ValidRun(run) && n <= |run|
  {
    if n == 0 then {}
    else EnteredNext(At(before, mem, run, n - 1), At(before, mem, run, n), run[n - 1].hart, run[n - 1].call,
                     Entered(before, mem, run, n - 1))
  }

  /** The harts in enclave context. */
  function InContext(s: System): set<nat>
    requires Shaped(s)
  {
    set k: nat | 1 <= k < N_HART && s.cpus[k].isEnclave
  }

  /** A call that leaves the enclave FRESH has not entered it, and made it if it was not FRESH before. */
  lemma FreshStep(s: System, h: nat, call: Call)
    requires CoreInv(s) && 1 <= h < N_HART && Step(s, h, call).0.enclaves[0].state == Fresh
    ensures !Enters(s, h, call) && (Begins(s, Step(s, h, call).0) || s.enclaves[0].state == Fresh)
  {
    if Enters(s, h, call) {
      EntersEffect(s, h, call);
    } else if Leaves(s, h, call) {
      LeavesEffect(s, h, call);
    } else if Creates(s, h, call) {
      CreatesStep(s, h, call);
      SbiCreateResult(s, h, call.args, call.env);
    } else if Destroys(s, h, call) {
      DestroysStep(s, h, call);
      DestroyKeepsTables(s, h, call.eid);
    } else if !call.FirmwareReturn? {
      OtherCalls(s, h, call);
    }
  }

  /** The harts that may have entered: those in enclave context, and none while the enclave is FRESH. */
  function MayHaveEntered(s: System): set<nat>
    requires Shaped(s)
  {
    set k: nat | 1 <= k < N_HART && s.cpus[k].isEnclave && s.enclaves[0].state != Fresh
  }

  lemma EnteredStep(s: System, r: System, h: nat, call: Call, entered: set<nat>)
    requires Shaped(s) && Shaped(r) && 1 <= h < N_HART && entered <= MayHaveEntered(s) && FlagsStep(s, r, h, call)
    requires r.enclaves[0].state == Fresh ==> !Enters(s, h, call) && (Begins(s, r) || s.enclaves[0].state == Fresh)
    ensures EnteredNext(s, r, h, call, entered) <= MayHaveEntered(r)
  {
  }

  lemma InsideKept(before: seq<Csrs>, mem: map<nat, Byte>, run: seq<Event>, n: nat, entered: set<nat>)
    requires AllValid(before) && ValidRun(run) && n < |run| && entered <= MayHaveEntered(At(before, mem, run, n))
    ensures var (s, r) := (At(before, mem, run, n), At(before, mem, run, n + 1));
            EnteredNext(s, r, run[n].hart, run[n].call, entered) <= MayHaveEntered(r)
  {
    AtNext(before, mem, run, n);
    var (s, r) := (At(before, mem, run, n), At(before, mem, run, n + 1));
    StepFlags(s, run[n].hart, run[n].call);
    if r.enclaves[0].state == Fresh { FreshStep(s, run[n].hart, run[n].call); }
    EnteredStep(s, r, run[n].hart, run[n].call, entered);
  }

  lemma EnteredUnfolds(before: seq<Csrs>, mem: map<nat, Byte>, run: seq<Event>, n: nat)
    requires AllValid(before) && ValidRun(run) && n < |run|
    ensures Entered(before, mem, run, n + 1) ==
              EnteredNext(At(before, mem, run, n), At(before, mem, run, n + 1), run[n].hart, run[n].call,
                          Entered(before, mem, run, n))
  {
  }

  lemma EnteredStaysInside(before: seq<Csrs>, mem: map<nat, Byte>, run: seq<Event>, n: nat)
    requires AllValid(before) && ValidRun(run) && n < |run|
    requires Entered(before, mem, run, n) <= MayHaveEntered(At(before, mem, run, n))
    ensures Entered(before, mem, run, n + 1) <= MayHaveEntered(At(before, mem, run, n + 1))
  {
    EnteredUnfolds(before, mem, run, n);
    InsideKept(before, mem, run, n, Entered(before, mem, run, n));
  }

  /** In every run, harts that have entered are in enclave context, and nobody has entered a FRESH enclave. */
  lemma {:induction false} EnteredIsInside(before: seq<Csrs>, mem: map<nat, Byte>, run: seq<Event>, n: nat)
    requires AllValid(before) && ValidRun(run) && n <= |run|
    ensures Entered(before, mem, run, n) <= MayHaveEntered(At(before, mem, run, n))
  {
    if n > 0 {
      EnteredIsInside(before, mem, run, n - 1);
      EnteredStaysInside(before, mem, run, n - 1);
    }
  }

  /** While the correspondence holds, no hart is in enclave context when an enclave comes to life. */
  lemma InsideStep(s: System, r: System, h: nat, call: Call)
    requires TablesInv(s) && Shaped(r) && 1 <= h < N_HART && OneToOne(s) && FlagsStep(s, r, h, call)
    ensures EnteredNext(s, r, h, call, InContext(s)) == InContext(r)
  {
    if Begins(s, r) { assert InContext(s) == {}; }
  }

  /** In every run that strands no hart, they are exactly the harts in enclave context. */
  lemma {:induction false} EnteredIffInside(before: seq<Csrs>, mem: map<nat, Byte>, run: seq<Event>, n: nat)
    requires AllValid(before) && ValidRun(run) && n <= |run| && Unstranded(before, mem, run, n)
    ensures Entered(before, mem, run, n) == InContext(At(before, mem, run, n))
  {
    if n == 0 {
      StartsIdle(before, mem, run);
    } else {
      EnteredIffInside(before, mem, run, n - 1);
      UnstrandedOneToOne(before, mem, run, n - 1);
      InsideNext(before, mem, run, n - 1);
    }
  }

  lemma InsideNext(before: seq<Csrs>, mem: map<nat, Byte>, run: seq<Event>, n: nat)
    requires AllValid(before) && ValidRun(run) && n < |run| && OneToOne(At(before, mem, run, n))
    ensures var (s, r) := (At(before, mem, run, n), At(before, mem, run, n + 1));
            EnteredNext(s, r, run[n].hart, run[n].call, InContext(s)) == InContext(r)
  {
    AtNext(before, mem, run, n);
    StepFlags(At(before, mem, run, n), run[n].hart, run[n].call);
    InsideStep(At(before, mem, run, n), At(before, mem, run, n + 1), run[n].hart, run[n].call);
  }

  // ---------- isolation, one step ----------

  /** Every hart that has not entered the live enclave is denied its private memory, if the PMP can express it. */
  ghost predicate IsolatesFrom(s: System, entered: set<nat>)
    requires CoreInv(s)
  {
    Visible(s) ==> forall k: nat :: 1 <= k < N_HART && k !in entered ==> Denied(s, k)
  }

  /** Does a private region that is `e` on hart `k` keep the hart from the private memory? */
  ghost predicate Harmless(s: System, k: nat, e: Epm)
    requires Shaped(s) && k < N_HART
  {
    match e
    case Closed => true
    case Open => false
    case Off => !BottomOpens(s.harts[k], s.enclaves[0].params)
  }

  lemma DeniedIffHarmless(s: System, k: nat, e: Epm)
    requires CoreInv(s) && 1 <= k < N_HART && Visible(s) && HasEpm(s, k, e)
    ensures Denied(s, k) <==> Harmless(s, k, e)
  {
    if e == Off { DeniedOffIff(s, k); } else { DeniedIffNotOpen(s, k, e == Open); }
  }

  /** No hart that has not entered has the private memory, as far as `st` says. */
  ghost predicate NoIntruder(s: System, st: seq<Epm>, entered: set<nat>)
    requires Shaped(s) && |st| == N_HART
  {
    forall k: nat :: 1 <= k < N_HART && k !in entered ==> Harmless(s, k, st[k])
  }

  lemma IsolatesIffNoIntruder(s: System, st: seq<Epm>, entered: set<nat>)
    requires CoreInv(s) && |st| == N_HART && EpmOn(s, st)
    ensures IsolatesFrom(s, entered) <==> (Visible(s) ==> NoIntruder(s, st, entered))
  {
    if Visible(s) {
      forall k: nat | 1 <= k < N_HART ensures Denied(s, k) <==> Harmless(s, k, st[k]) {
        assert HasEpm(s, k, st[k]);
        DeniedIffHarmless(s, k, st[k]);
      }
    }
  }

  /** A return from the firmware that repairs a hart which has not entered the live enclave. */
  predicate Repairs(s: System, h: nat, call: Call, entered: set<nat>)
    requires Shaped(s) && h < N_HART
  {
    Fixes(s, h, call) && Live(s.enclaves[0]) && h !in entered
  }

  /**
   What gives the private memory, if there is some to give, to a hart that has not entered: a repair; a return from
   the firmware without one, if the private range is no aligned power of two and the bottom entry covers some of it;
   and, if the region is off on the hart without that, a create of its own, which gives it the OS region back.
   */
  ghost predicate Breaches(s: System, h: nat, call: Call, entered: set<nat>)
    requires CoreInv(s) && h < N_HART
  {
    && Visible(s) && h !in entered
    && var p := s.enclaves[0].params;
       || Fixes(s, h, call)
       || (Relocks(s, h, call) && !OneRegister(p) && BottomOpens(Locked(s.harts[h]), p))
       || (Creates(s, h, call) && SwitchedOff(s.harts[h], s.table.regions[EPM_RID]))
  }

  lemma VisibleStep(s: System, h: nat, call: Call, entered: set<nat>)
    requires CoreInv(s) && 1 <= h < N_HART
    ensures CoreInv(Step(s, h, call).0)
    ensures Visible(Step(s, h, call).0) && !Begins(s, Step(s, h, call).0) ==> Visible(s)
    ensures Breaches(s, h, call, entered) ==> Visible(Step(s, h, call).0) && !Begins(s, Step(s, h, call).0)
  {
    StepKeepsCore(s, h, call);
    LiveKept(s, h, call);
    BeginsIffMade(s, h, call);
    if Breaches(s, h, call, entered) {
      if call.FirmwareReturn? {
        ReturnKeepsFlags(s, h, call);
      } else {
        CreatesStep(s, h, call);
        SbiCreateResult(s, h, call.args, call.env);
      }
    }
  }

  /** While the enclave stays live, a call changes no other hart's registers. */
  lemma OthersKept(s: System, h: nat, call: Call, k: nat)
    requires CoreInv(s) && 1 <= h < N_HART && 1 <= k < N_HART && k != h
    requires Live(s.enclaves[0]) && Live(Step(s, h, call).0.enclaves[0])
    ensures Step(s, h, call).0.harts[k] == s.harts[k]
  {
    if Enters(s, h, call) {
      EntersEffect(s, h, call);
    } else if Leaves(s, h, call) {
      LeavesEffect(s, h, call);
    } else if Creates(s, h, call) {
      RefusedCreateKeepsEpm(s, h, call, k);
    } else if Destroys(s, h, call) {
      DestroysStep(s, h, call);
      DestroyKeepsTables(s, h, call.eid);
    } else if !call.FirmwareReturn? {
      OtherCalls(s, h, call);
    } else {
      ReturnKeepsFlags(s, h, call);
    }
  }

  /** What a call does to whether a hart that has not entered is kept out. */
  lemma HarmlessStep(s: System, h: nat, call: Call, k: nat, e: Epm, entered: set<nat>)
    requires CoreInv(s) && 1 <= h < N_HART && 1 <= k < N_HART && Visible(s) && CoreInv(Step(s, h, call).0)
    requires Visible(Step(s, h, call).0) && HasEpm(s, k, e) && k !in entered && Harmless(s, k, e)
    ensures var r := Step(s, h, call).0;
            k in EnteredNext(s, r, h, call, entered) ||
            (Harmless(r, k, EpmAfter(s, r, h, call, k, e)) <==> !(k == h && Breaches(s, h, call, entered)))
  {
    LiveKept(s, h, call);
    BeginsIffMade(s, h, call);
    if k != h { OthersKept(s, h, call, k); } else { SelfHarm(s, h, call, e, entered); }
  }

  lemma SelfHarm(s: System, h: nat, call: Call, e: Epm, entered: set<nat>)
    requires CoreInv(s) && 1 <= h < N_HART && Visible(s) && Live(Step(s, h, call).0.enclaves[0])
    requires HasEpm(s, h, e) && h !in entered && Harmless(s, h, e) && !(call.Create? && Step(s, h, call).1 == SUCCESS)
    ensures var r := Step(s, h, call).0;
            h in EnteredNext(s, r, h, call, entered) ||
            (Harmless(r, h, EpmAfter(s, r, h, call, h, e)) <==> !Breaches(s, h, call, entered))
  {
    if call.FirmwareReturn? {
      ReturnHarm(s, h, call, entered);
    } else if Creates(s, h, call) {
      CreateHarm(s, h, call, e, entered);
    } else if Enters(s, h, call) || Leaves(s, h, call) {
      SwitchHarm(s, Step(s, h, call).0, h, call, e, entered);
    } else {
      OwnHarm(s, h, call, e);
    }
  }

  /** A hart that enters has entered, and one that leaves has the region closed. */
  lemma SwitchHarm(s: System, r: System, h: nat, call: Call, e: Epm, entered: set<nat>)
    requires CoreInv(s) && Shaped(r) && 1 <= h < N_HART && Live(s.enclaves[0])
    requires Enters(s, h, call) || Leaves(s, h, call)
    ensures h in EnteredNext(s, r, h, call, entered) ||
            (Harmless(r, h, EpmAfter(s, r, h, call, h, e)) && !Breaches(s, h, call, entered))
  {
  }

  lemma ReturnHarm(s: System, h: nat, call: Call, entered: set<nat>)
    requires CoreInv(s) && 1 <= h < N_HART && Visible(s) && call.FirmwareReturn? && h !in entered
    ensures var r := Step(s, h, call).0;
            var next := if Fixes(s, h, call) then Open else if OneRegister(s.enclaves[0].params) then Closed else Off;
            Harmless(r, h, next) <==> !Breaches(s, h, call, entered)
  {
    ReturnKeepsFlags(s, h, call);
    RelockHart(s, h);
  }

  lemma CreateHarm(s: System, h: nat, call: Call, e: Epm, entered: set<nat>)
    requires CoreInv(s) && 1 <= h < N_HART && Visible(s) && Creates(s, h, call) && h !in entered
    requires HasEpm(s, h, e) && Harmless(s, h, e)
    requires Live(Step(s, h, call).0.enclaves[0]) && Step(s, h, call).1 != SUCCESS
    ensures Harmless(Step(s, h, call).0, h, e) <==> !Breaches(s, h, call, entered)
  {
    RefusedCreateKeepsEpm(s, h, call, h);
    LiveKept(s, h, call);
    var r := Step(s, h, call).0;
    OsOpensOff(r.harts[h], s.table, s.enclaves[0].params);
    RegistersOf(s);
  }

  lemma OwnHarm(s: System, h: nat, call: Call, e: Epm)
    requires CoreInv(s) && 1 <= h < N_HART && Visible(s) && Visible(s) && Harmless(s, h, e)
    requires !Enters(s, h, call) && !Leaves(s, h, call) && !call.FirmwareReturn? && !Creates(s, h, call)
    requires Live(Step(s, h, call).0.enclaves[0])
    ensures Harmless(Step(s, h, call).0, h, e)
  {
    if Destroys(s, h, call) {
      DestroysStep(s, h, call);
      DestroyKeepsTables(s, h, call.eid);
    } else {
      OtherCalls(s, h, call);
    }
  }

  /** Whatever a hart does, isolation survives exactly if it is no breach. */
  lemma IsolationStepIff(s: System, h: nat, call: Call, st: seq<Epm>, entered: set<nat>)
    requires CoreInv(s) && 1 <= h < N_HART && |st| == N_HART && EpmOn(s, st) && IsolatesFrom(s, entered)
    ensures var r := Step(s, h, call).0;
            CoreInv(r) && (IsolatesFrom(r, EnteredNext(s, r, h, call, entered)) <==> !Breaches(s, h, call, entered))
  {
    var r := Step(s, h, call).0;
    VisibleStep(s, h, call, entered);
    EpmOnStep(s, h, call, st);
    IsolatesIffNoIntruder(s, st, entered);
    IsolatesIffNoIntruder(r, StandNext(s, r, h, call, st), EnteredNext(s, r, h, call, entered));
    if Visible(r) { NoIntruderStep(s, h, call, st, entered); }
  }

  lemma NoIntruderStep(s: System, h: nat, call: Call, st: seq<Epm>, entered: set<nat>)
    requires CoreInv(s) && 1 <= h < N_HART && |st| == N_HART && EpmOn(s, st)
    requires CoreInv(Step(s, h, call).0) && Visible(Step(s, h, call).0)
    requires Begins(s, Step(s, h, call).0) || (Visible(s) && NoIntruder(s, st, entered))
    ensures var r := Step(s, h, call).0;
            NoIntruder(r, StandNext(s, r, h, call, st), EnteredNext(s, r, h, call, entered)) <==>
            !Breaches(s, h, call, entered)
  {
    var r := Step(s, h, call).0;
    if !Begins(s, r) {
      forall k: nat | 1 <= k < N_HART && k !in entered
        ensures k in EnteredNext(s, r, h, call, entered) ||
                (Harmless(r, k, EpmAfter(s, r, h, call, k, st[k])) <==> !(k == h && Breaches(s, h, call, entered)))
      {
        assert HasEpm(s, k, st[k]) && Harmless(s, k, st[k]);
        HarmlessStep(s, h, call, k, st[k], entered);
      }
      IntruderIff(s, r, h, call, st, entered);
    }
  }

  lemma IntruderIff(s: System, r: System, h: nat, call: Call, st: seq<Epm>, entered: set<nat>)
    requires CoreInv(s) && Shaped(r) && 1 <= h < N_HART && |st| == N_HART && !Begins(s, r)
    requires forall k: nat :: 1 <= k < N_HART && k !in entered ==>
               k in EnteredNext(s, r, h, call, entered) ||
               (Harmless(r, k, EpmAfter(s, r, h, call, k, st[k])) <==> !(k == h && Breaches(s, h, call, entered)))
    ensures NoIntruder(r, StandNext(s, r, h, call, st), EnteredNext(s, r, h, call, entered)) <==>
            !Breaches(s, h, call, entered)
  {
    var (next, inside) := (StandNext(s, r, h, call, st), EnteredNext(s, r, h, call, entered));
    if Breaches(s, h, call, entered) {
      assert h !in inside && !Harmless(r, h, next[h]);
    } else {
      forall k: nat | 1 <= k < N_HART && k !in inside ensures Harmless(r, k, next[k]) {
        LeftHart(s, r, h, call, st, entered, k);
      }
    }
  }

  /** A hart that is in no longer has left, and so has the region closed. */
  lemma LeftHart(s: System, r: System, h: nat, call: Call, st: seq<Epm>, entered: set<nat>, k: nat)
    requires CoreInv(s) && Shaped(r) && 1 <= h < N_HART && 1 <= k < N_HART && |st| == N_HART && !Begins(s, r)
    requires k !in EnteredNext(s, r, h, call, entered)
    requires k !in entered ==> Harmless(r, k, EpmAfter(s, r, h, call, k, st[k]))
    ensures Harmless(r, k, EpmAfter(s, r, h, call, k, st[k]))
  {
  }

  // ---------- isolation, whole runs ----------

  /** Isolation in the state before event `n`, or after the last one. */
  ghost predicate Isolates(before: seq<Csrs>, mem: map<nat, Byte>, run: seq<Event>, n: nat)
    requires AllValid(before) && ValidRun(run) && n <= |run|
  {
    IsolatesFrom(At(before, mem, run, n), Entered(before, mem, run, n))
  }

  /** Event `n` gives private memory to a hart that has not entered. */
  ghost predicate BreachAt(before: seq<Csrs>, mem: map<nat, Byte>, run: seq<Event>, n: nat)
    requires AllValid(before) && ValidRun(run) && n < |run|
  {
    Breaches(At(before, mem, run, n), run[n].hart, run[n].call, Entered(before, mem, run, n))
  }

  ghost predicate Unbreached(before: seq<Csrs>, mem: map<nat, Byte>, run: seq<Event>, n: nat)
    requires AllValid(before) && ValidRun(run) && n <= |run|
  {
    forall i: nat :: i < n ==> !BreachAt(before, mem, run, i)
  }

  lemma IsolationNextIff(before: seq<Csrs>, mem: map<nat, Byte>, run: seq<Event>, n: nat)
    requires AllValid(before) && ValidRun(run) && n < |run| && Isolates(before, mem, run, n)
    ensures Isolates(before, mem, run, n + 1) <==> !BreachAt(before, mem, run, n)
  {
    AtNext(before, mem, run, n);
    StandingTells(before, mem, run, n);
    IsolationStepIff(At(before, mem, run, n), run[n].hart, run[n].call,
                     Standing(before, mem, run, n), Entered(before, mem, run, n));
  }

  lemma StartsIsolated(before: seq<Csrs>, mem: map<nat, Byte>, run: seq<Event>)
    requires AllValid(before) && ValidRun(run)
    ensures Isolates(before, mem, run, 0)
  {
    StartsIdle(before, mem, run);
  }

  lemma {:induction false} UnbreachedIsolates(before: seq<Csrs>, mem: map<nat, Byte>, run: seq<Event>, n: nat)
    requires AllValid(before) && ValidRun(run) && n <= |run| && Unbreached(before, mem, run, n)
    ensures Isolates(before, mem, run, n)
  {
    if n == 0 {
      StartsIsolated(before, mem, run);
    } else {
      UnbreachedIsolates(before, mem, run, n - 1);
      UnbreachedNext(before, mem, run, n);
    }
  }

  lemma UnbreachedNext(before: seq<Csrs>, mem: map<nat, Byte>, run: seq<Event>, n: nat)
    requires AllValid(before) && ValidRun(run) && 0 < n <= |run| && Unbreached(before, mem, run, n)
    requires Isolates(before, mem, run, n - 1)
    ensures Isolates(before, mem, run, n)
  {
    assert !BreachAt(before, mem, run, n - 1);
    IsolationNextIff(before, mem, run, n - 1);
  }

  /**
   In a run from boot, every hart that has not entered the live enclave is denied its private memory in
   every state, exactly when no event is a breach.
   */
  lemma IsolationRunIff(before: seq<Csrs>, mem: map<nat, Byte>, run: seq<Event>)
    requires AllValid(before) && ValidRun(run)
    ensures (forall n: nat :: n <= |run| ==> Isolates(before, mem, run, n)) <==> Unbreached(before, mem, run, |run|)
  {
    if Unbreached(before, mem, run, |run|) {
      forall n: nat | n <= |run| ensures Isolates(before, mem, run, n) { UnbreachedIsolates(before, mem, run, n); }
    } else {
      var i: nat :| i < |run| && BreachAt(before, mem, run, i);
      if Isolates(before, mem, run, i) {
        IsolationNextIff(before, mem, run, i);
        assert !Isolates(before, mem, run, i + 1);
      }
    }
  }

  // ---------- who is repaired ----------

  /** Harts in enclave context whose traps go the enclave's way have entered the live enclave. */
  predicate InsideEntered(s: System, entered: set<nat>)
    requires Shaped(s)
  {
    Live(s.enclaves[0]) ==>
      forall k: nat :: 1 <= k < N_HART && s.cpus[k].isEnclave && s.executing[k] ==> k in entered
  }

  /** The create that brings an enclave to life has told all other harts. */
  lemma BeginsTells(s: System, h: nat, call: Call)
    requires CoreInv(s) && 1 <= h < N_HART && Begins(s, Step(s, h, call).0)
    ensures Tells(s, h, call) && !s.cpus[h].isEnclave
  {
    BeginsIffMade(s, h, call);
    CreatesStep(s, h, call);
    SbiCreateResult(s, h, call.args, call.env);
  }

  lemma InsideEnteredStep(s: System, h: nat, call: Call, entered: set<nat>)
    requires CoreInv(s) && 1 <= h < N_HART && InsideEntered(s, entered)
    ensures var r := Step(s, h, call).0;
            InsideEntered(r, EnteredNext(s, r, h, call, entered))
  {
    StepFlags(s, h, call);
    if Begins(s, Step(s, h, call).0) { BeginsTells(s, h, call); }
    InsideEnteredFlags(s, Step(s, h, call).0, h, call, entered);
  }

  lemma InsideEnteredFlags(s: System, r: System, h: nat, call: Call, entered: set<nat>)
    requires Shaped(s) && Shaped(r) && 1 <= h < N_HART && InsideEntered(s, entered) && FlagsStep(s, r, h, call)
    requires Begins(s, r) ==> Tells(s, h, call) && !s.cpus[h].isEnclave
    ensures InsideEntered(r, EnteredNext(s, r, h, call, entered))
  {
  }

  lemma {:induction false} InsideHasEntered(before: seq<Csrs>, mem: map<nat, Byte>, run: seq<Event>, n: nat)
    requires AllValid(before) && ValidRun(run) && n <= |run|
    ensures InsideEntered(At(before, mem, run, n), Entered(before, mem, run, n))
  {
    if n == 0 {
      StartsIdle(before, mem, run);
    } else {
      InsideHasEntered(before, mem, run, n - 1);
      InsideEnteredNext(before, mem, run, n - 1);
    }
  }

  lemma InsideEnteredNext(before: seq<Csrs>, mem: map<nat, Byte>, run: seq<Event>, n: nat)
    requires AllValid(before) && ValidRun(run) && n < |run|
    requires InsideEntered(At(before, mem, run, n), Entered(before, mem, run, n))
    ensures InsideEntered(At(before, mem, run, n + 1), Entered(before, mem, run, n + 1))
  {
    AtNext(before, mem, run, n);
    EnteredUnfolds(before, mem, run, n);
    InsideEnteredStep(At(before, mem, run, n), run[n].hart, run[n].call, Entered(before, mem, run, n));
  }

  /**
   In every run whatever, a hart whose permissions are repaired without its having entered the live enclave is stray,
   never one that was stranded in an earlier enclave.
   */
  lemma RepairsOnStray(before: seq<Csrs>, mem: map<nat, Byte>, run: seq<Event>, n: nat)
    requires AllValid(before) && ValidRun(run) && n < |run|
    ensures Repairs(At(before, mem, run, n), run[n].hart, run[n].call, Entered(before, mem, run, n)) ==>
              Stray(At(before, mem, run, n), run[n].hart)
  {
    InsideHasEntered(before, mem, run, n);
  }

  // ---------- private regions of one register ----------

  /** Whatever a hart has of a private region of one register, a return from the firmware without repair closes it. */
  lemma OneRegisterSurvives(s: System, h: nat)
    requires CoreInv(s) && 1 <= h < N_HART && Live(s.enclaves[0]) && OneRegister(s.enclaves[0].params)
    requires !s.executing[h]
    ensures var r := Step(s, h, FirmwareReturn).0;
            && CoreInv(r) && Programmed(r.harts[h], r.table.regions[EPM_RID], NO_PERM)
            && (s.enclaves[0].params.dramBase < PHYS ==> Visible(r)) && (Visible(r) ==> Denied(r, h))
  {
    RelockHart(s, h);
    RegistersOf(s);
    StepKeepsCore(s, h, FirmwareReturn);
    var r := Step(s, h, FirmwareReturn).0;
    if Visible(r) { DeniedIffNotOpen(r, h, false); }
  }

  /** No firmware returns while an enclave is live whose private region takes two registers. */
  ghost predicate OneRegisterRun(before: seq<Csrs>, mem: map<nat, Byte>, run: seq<Event>)
    requires AllValid(before) && ValidRun(run)
  {
    forall i: nat :: i < |run| && run[i].call.FirmwareReturn? && Live(At(before, mem, run, i).enclaves[0]) ==>
      OneRegister(At(before, mem, run, i).enclaves[0].params)
  }

  predicate NoneOff(st: seq<Epm>) { |st| == N_HART && forall k :: 0 <= k < N_HART ==> st[k] != Off }

  lemma {:induction false} NeverOff(before: seq<Csrs>, mem: map<nat, Byte>, run: seq<Event>, n: nat)
    requires AllValid(before) && ValidRun(run) && n <= |run| && OneRegisterRun(before, mem, run)
    ensures NoneOff(Standing(before, mem, run, n))
  {
    if n > 0 {
      NeverOff(before, mem, run, n - 1);
      NoneOffNext(before, mem, run, n, Standing(before, mem, run, n - 1));
    }
  }

  lemma NoneOffNext(before: seq<Csrs>, mem: map<nat, Byte>, run: seq<Event>, n: nat, st: seq<Epm>)
    requires AllValid(before) && ValidRun(run) && 0 < n <= |run| && OneRegisterRun(before, mem, run) && NoneOff(st)
    ensures var (s, r) := (At(before, mem, run, n - 1), At(before, mem, run, n));
            NoneOff(StandNext(s, r, run[n - 1].hart, run[n - 1].call, st))
  {
  }

  /** A region of two registers is not programmed and off at once. */
  lemma OffIsOff(s: System, h: nat, e: Epm)
    requires TablesInv(s) && 1 <= h < N_HART && Live(s.enclaves[0]) && HasEpm(s, h, e)
    requires SwitchedOff(s.harts[h], s.table.regions[EPM_RID])
    ensures e == Off
  {
    RegistersOf(s);
  }

  /** In such a run the only breaches are repairs. */
  lemma BreachRepairs(before: seq<Csrs>, mem: map<nat, Byte>, run: seq<Event>, n: nat)
    requires AllValid(before) && ValidRun(run) && n < |run| && OneRegisterRun(before, mem, run)
    ensures var s := At(before, mem, run, n);
            BreachAt(before, mem, run, n) <==>
            Repairs(s, run[n].hart, run[n].call, Entered(before, mem, run, n)) && Visible(s)
  {
    NeverOff(before, mem, run, n);
    StandingTells(before, mem, run, n);
    RepairsOnly(At(before, mem, run, n), run[n].hart, run[n].call, Standing(before, mem, run, n),
                Entered(before, mem, run, n));
  }

  lemma RepairsOnly(s: System, h: nat, call: Call, st: seq<Epm>, entered: set<nat>)
    requires CoreInv(s) && 1 <= h < N_HART && NoneOff(st) && EpmOn(s, st)
    requires call.FirmwareReturn? && Live(s.enclaves[0]) ==> OneRegister(s.enclaves[0].params)
    ensures Breaches(s, h, call, entered) <==> Repairs(s, h, call, entered) && Visible(s)
  {
    if Visible(s) && SwitchedOff(s.harts[h], s.table.regions[EPM_RID]) {
      assert HasEpm(s, h, st[h]);
      OffIsOff(s, h, st[h]);
    }
  }

  /**
   In a run in which no firmware returns while an enclave of two registers is live, isolation holds throughout exactly
   if no stray hart is repaired while there is private memory to expose.
   */
  lemma OneRegisterRunIff(before: seq<Csrs>, mem: map<nat, Byte>, run: seq<Event>)
    requires AllValid(before) && ValidRun(run) && OneRegisterRun(before, mem, run)
    ensures (forall n: nat :: n <= |run| ==> Isolates(before, mem, run, n)) <==> NoneRepaired(before, mem, run)
  {
    forall n: nat | n < |run|
      ensures BreachAt(before, mem, run, n) <==> RepairedAt(before, mem, run, n)
    {
      BreachRepairs(before, mem, run, n);
      RepairsOnStray(before, mem, run, n);
    }
    IsolationRunIff(before, mem, run);
  }

  /** Event `n` repairs a stray hart that has not entered, with private memory to expose. */
  ghost predicate RepairedAt(before: seq<Csrs>, mem: map<nat, Byte>, run: seq<Event>, n: nat)
    requires AllValid(before) && ValidRun(run) && n < |run|
  {
    var s := At(before, mem, run, n);
    && Visible(s) && Stray(s, run[n].hart) && run[n].call.FirmwareReturn?
    && run[n].hart !in Entered(before, mem, run, n)
  }

  ghost predicate NoneRepaired(before: seq<Csrs>, mem: map<nat, Byte>, run: seq<Event>)
    requires AllValid(before) && ValidRun(run)
  {
    forall n: nat :: n < |run| ==> !RepairedAt(before, mem, run, n)
  }

  // ---------- runs that keep both ----------

  /** No trap comes to a hart whose last run or resume was refused. */
  ghost predicate Quiet(before: seq<Csrs>, mem: map<nat, Byte>, run: seq<Event>)
    requires AllValid(before) && ValidRun(run)
  {
    forall i: nat :: i < |run| && (run[i].call.Interrupt? || run[i].call.FirmwareReturn?) ==>
      !Refused(before, mem, run, i, run[i].hart)
  }

  lemma QuietStrandsNone(before: seq<Csrs>, mem: map<nat, Byte>, run: seq<Event>)
    requires AllValid(before) && ValidRun(run) && Quiet(before, mem, run)
    ensures Unstranded(before, mem, run, |run|)
  {
    forall i: nat | i < |run| ensures !Strands(At(before, mem, run, i), run[i].hart, run[i].call) {
      StrayIffRefused(before, mem, run, i, run[i].hart);
    }
  }

  lemma QuietRepairsNone(before: seq<Csrs>, mem: map<nat, Byte>, run: seq<Event>)
    requires AllValid(before) && ValidRun(run) && Quiet(before, mem, run)
    ensures NoneRepaired(before, mem, run)
  {
    forall i: nat | i < |run| ensures !RepairedAt(before, mem, run, i) {
      StrayIffRefused(before, mem, run, i, run[i].hart);
    }
  }

  /** Quiet runs keep the correspondence, and isolation if private regions take one register. */
  lemma QuietIsSafe(before: seq<Csrs>, mem: map<nat, Byte>, run: seq<Event>)
    requires AllValid(before) && ValidRun(run) && Quiet(before, mem, run)
    ensures forall n: nat :: n <= |run| ==> OneToOne(At(before, mem, run, n))
    ensures OneRegisterRun(before, mem, run) ==> forall n: nat :: n <= |run| ==> Isolates(before, mem, run, n)
  {
    QuietStrandsNone(before, mem, run);
    OneToOneRunIff(before, mem, run);
    if OneRegisterRun(before, mem, run) {
      QuietRepairsNone(before, mem, run);
      OneRegisterRunIff(before, mem, run);
    }
  }
}
