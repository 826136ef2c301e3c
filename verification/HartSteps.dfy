/**
 What each call does to each hart's registers, and the core invariant over every run from boot.
 */
module HartSteps {
  import opened Bits
  import opened PmpHardware
  import opened PmpRegions
  import opened PmpEncoding
  import opened PmpWord
  import opened Boot
  import opened Enclaves
  import opened Lifecycle
  import opened LifecycleSteps

  /** Hart `k` keeps the boot regions, and the OS region if it has it. */
  ghost predicate HartKept(s: System, r: System, k: nat)
    requires Shaped(s) && Shaped(r) && k < N_HART
  {
    CoreHart(r, k) && (OpenToHost(s, k) ==> OpenToHost(r, k))
  }

  lemma SameHart(s: System, r: System, k: nat)
    requires Shaped(s) && Shaped(r) && k < N_HART && CoreHart(s, k)
    requires r.harts[k] == s.harts[k] && r.cpus[k].isEnclave == s.cpus[k].isEnclave
    requires r.table == s.table && Live(r.enclaves[0]) == Live(s.enclaves[0])
    ensures HartKept(s, r, k)
  {
  }

  // ---------- entering, leaving, repairing ----------

  lemma EntersHart(s: System, h: nat, call: Call, k: nat)
    requires CoreInv(s) && 1 <= h < N_HART && 1 <= k < N_HART && Enters(s, h, call)
    ensures HartKept(s, Step(s, h, call).0, k)
    ensures k == h ==> Step(s, h, call).0.cpus[k].isEnclave && OpenToEnclave(Step(s, h, call).0, k)
  {
    EntersEffect(s, h, call);
    assert CoreHart(s, k) && EnclaveOk(s.enclaves[0]);
    if k == h {
      EnclaveViewIsEnclaveHart(WithState(s, 0, Running, 1), h, 0);
    } else {
      SameHart(s, Step(s, h, call).0, k);
    }
  }

  lemma LeavesHart(s: System, h: nat, call: Call, k: nat)
    requires CoreInv(s) && 1 <= h < N_HART && 1 <= k < N_HART && Leaves(s, h, call)
    ensures HartKept(s, Step(s, h, call).0, k)
    ensures k == h ==>
              var r := Step(s, h, call).0;
              && !r.cpus[k].isEnclave && OpenToHost(r, k)
              && Programmed(r.harts[k], s.table.regions[EPM_RID], NO_PERM)
  {
    LeavesEffect(s, h, call);
    assert CoreHart(s, k) && EnclaveOk(s.enclaves[0]);
    if k == h {
      HostViewIsHostHart(WithState(s, 0, Stopped, 0), h, 0);
    } else {
      SameHart(s, Step(s, h, call).0, k);
    }
  }

  /** A return from the firmware overwrites the configuration of that hart and no more. */
  lemma RelockHart(s: System, h: nat)
    requires CoreInv(s) && 1 <= h < N_HART
    ensures var r := Relock(s, h);
            && CoreInv(r) && r == s.(harts := s.harts[h := Locked(s.harts[h])])
            && (forall k: nat :: 1 <= k < N_HART ==> HartKept(s, r, k))
            && (Live(s.enclaves[0]) ==>
                  EpmIs(r.harts[h], s.table.regions[EPM_RID], OnReturn(s.table.regions[EPM_RID])))
  {
    var r := Relock(s, h);
    assert CoreHart(s, h);
    LockedHart(s.harts[h]);
    SameTables(s, r);
    forall k: nat | 1 <= k < N_HART ensures CoreHart(r, k) && HartKept(s, r, k) {
      assert CoreHart(s, k);
    }
  }

  /** A repair opens the private region if there is one, and takes the OS region away. */
  lemma FixesHart(s: System, h: nat, call: Call)
    requires CoreInv(s) && 1 <= h < N_HART && Fixes(s, h, call)
    ensures var r := Step(s, h, call).0;
            && r == s.(harts := s.harts[h := EnclaveView(Relock(s, h), h, 0)]) && CoreHart(r, h)
            && (Live(s.enclaves[0]) ==>
                  EnclaveHart(r.harts[h], s.table.regions[EPM_RID], s.table.regions[UTM_RID]))
            && (!Live(s.enclaves[0]) ==> Programmed(r.harts[h], OS, NO_PERM))
  {
    RelockHart(s, h);
    RepairHart(Relock(s, h), h);
  }

  lemma RepairHart(s: System, h: nat)
    requires CoreInv(s) && 1 <= h < N_HART
    ensures var r := FixPermissions(s, h).0;
            && r == s.(harts := s.harts[h := EnclaveView(s, h, 0)]) && CoreHart(r, h)
            && (Live(s.enclaves[0]) ==>
                  EnclaveHart(r.harts[h], s.table.regions[EPM_RID], s.table.regions[UTM_RID]))
            && (!Live(s.enclaves[0]) ==> Programmed(r.harts[h], OS, NO_PERM))
  {
    assert CoreHart(s, h) && EnclaveOk(s.enclaves[0]);
    if Live(s.enclaves[0]) {
      EnclaveViewIsEnclaveHart(s, h, 0);
    } else {
      IdleView(s, h);
      OsSetOnHart(s.table, s.harts[h], NO_PERM);
    }
  }

  // ---------- creating ----------

  /** Boot regions and OS region in order, and every private region as it was. */
  ghost predicate Reopened(c: Csrs, d: Csrs)
    requires ValidCsrs(c) && ValidCsrs(d)
  {
    && BootProgrammed(d) && OsOpen(d)
    && forall g: Region, e: Epm :: EpmShaped(g) && EpmIs(c, g, e) ==> EpmIs(d, g, e)
  }

  lemma OsReopens(t: Table, c: Csrs)
    requires BootKept(t) && ValidCsrs(c) && BootProgrammed(c)
    ensures Reopened(c, OsSet(t, c, SU_RWX)) && Reopened(c, OsUnlockLock(t, c))
  {
    OsSetOnHart(t, c, SU_RWX);
    OsSetOnHart(t, c, ALL_RW);
    OsSetOnHart(t, OsSet(t, c, ALL_RW), SU_RWX);
  }

  /** The creating hart ends its measurement with the new region closed. */
  lemma OpenCloses(t: Table, c: Csrs, g: Region)
    requires BootKept(t) && ValidCsrs(c) && BootProgrammed(c)
    requires Defined(t, EPM_RID) && t.regions[EPM_RID] == g && EpmShaped(g)
    ensures BootProgrammed(OpenCloseRegion(t, c, EPM_RID))
    ensures Programmed(OpenCloseRegion(t, c, EPM_RID), g, NO_PERM)
  {
    var c1 := PmpSet(t, c, EPM_RID, ALL_RW);
    SetEpm(c, g, ALL_RW);
    var c2 := OsSet(t, c1, ALL_RW);
    OsSetOnHart(t, c1, ALL_RW);
    var c3 := PmpSet(t, c2, EPM_RID, NO_PERM);
    SetEpm(c2, g, NO_PERM);
    OsSetOnHart(t, c3, SU_RWX);
  }

  lemma CreatorInOrder(s: System, h: nat, env: CreateEnv, r: Reserved, p: Params)
    requires Shaped(s) && 1 <= h < N_HART && BootProgrammed(s.harts[h])
    requires r.Reserved? && r.epm == EPM_RID && LoadedTable(r.table, p)
    ensures BootProgrammed(CreatorHart(s, h, env, r))
    ensures env.platformRet == 0 ==> Programmed(CreatorHart(s, h, env, r), r.table.regions[EPM_RID], NO_PERM)
  {
    OsReopens(r.table, s.harts[h]);
    OpenCloses(r.table, OsUnlockLock(r.table, s.harts[h]), r.table.regions[EPM_RID]);
  }

  /** `create_enclave` with both regions reserved: afterwards, if it succeeded, the new region is closed everywhere. */
  lemma CreateWithHart(s: System, h: nat, a: CreateArgs, env: CreateEnv, k: nat)
    requires CoreInv(s) && 1 <= h < N_HART && 1 <= k < N_HART && Reserve(s.table, a).Reserved?
    ensures var r := CreateWith(s, h, a, env, 0, Reserve(s.table, a)).0;
            && CoreHart(r, k) && r.cpus == s.cpus
            && (Live(r.enclaves[0]) ==> Programmed(r.harts[k], r.table.regions[EPM_RID], NO_PERM))
            && (k != h && OsOpen(s.harts[k]) ==> OsOpen(r.harts[k]))
  {
    var v := Reserve(s.table, a);
    ReservedOnlyWhenIdle(s, a);
    ReserveLoads(s.table, a);
    CreateTables(s, h, a, env, 0, v);
    CreateHarts(s, h, a, env, 0, v);
    assert CoreHart(s, k);
    var g := v.table.regions[EPM_RID];
    if k == h {
      CreatorInOrder(s, h, env, v, ParamsOf(a));
    } else {
      SetEpm(s.harts[k], g, NO_PERM);
      UnsetEpm(SetRegion(s.harts[k], g, NO_PERM), g);
    }
  }

  /** Reopening the OS region of one hart keeps the core invariant and what that hart has of the private region. */
  lemma HartReopened(s: System, h: nat, c: Csrs)
    requires CoreInv(s) && 1 <= h < N_HART && ValidCsrs(c) && Reopened(s.harts[h], c)
    ensures var r := s.(harts := s.harts[h := c]);
            CoreInv(r) && forall k: nat :: 1 <= k < N_HART ==> HartKept(s, r, k)
  {
    var r := s.(harts := s.harts[h := c]);
    SameTables(s, r);
    forall k: nat | 1 <= k < N_HART ensures CoreHart(r, k) && HartKept(s, r, k) {
      assert CoreHart(s, k);
      if k != h { SameHart(s, r, k); }
    }
  }

  lemma CreateEnclaveHart(s: System, h: nat, a: CreateArgs, env: CreateEnv)
    requires CoreInv(s) && 1 <= h < N_HART
    ensures var (r, ret) := CreateEnclave(s, h, a, env);
            && CoreInv(r) && r.cpus == s.cpus
            && (forall k: nat :: 1 <= k < N_HART && k != h ==> (OpenToHost(s, k) ==> OpenToHost(r, k)))
            && (ret == SUCCESS ==> !Live(s.enclaves[0]) && Live(r.enclaves[0]) && AllClosed(r))
  {
    var (r, ret) := CreateEnclave(s, h, a, env);
    CreateOutcomes(s, h, a, env);
    if r != s || ret == SUCCESS {
      var v := Reserve(s.table, a);
      CreateWithKeepsTables(s, h, a, env);
      ReserveLoads(s.table, a);
      CreateTables(s, h, a, env, 0, v);
      forall k: nat | 1 <= k < N_HART
        ensures CoreHart(r, k) && (Live(r.enclaves[0]) ==> Programmed(r.harts[k], r.table.regions[EPM_RID], NO_PERM))
        ensures k != h && OsOpen(s.harts[k]) ==> OsOpen(r.harts[k])
      {
        CreateWithHart(s, h, a, env, k);
      }
    }
  }

  /** The private region is closed on every hart. */
  ghost predicate AllClosed(s: System)
    requires Shaped(s)
  {
    forall k: nat :: 1 <= k < N_HART ==> Programmed(s.harts[k], s.table.regions[EPM_RID], NO_PERM)
  }

  lemma UnlockLockKeeps(s: System, h: nat)
    requires CoreInv(s) && 1 <= h < N_HART
    ensures var r := s.(harts := s.harts[h := OsUnlockLock(s.table, s.harts[h])]);
            CoreInv(r) && forall k: nat :: 1 <= k < N_HART ==> HartKept(s, r, k)
  {
    assert CoreHart(s, h);
    TablesNoneLive(s);
    OsReopens(s.table, s.harts[h]);
    HartReopened(s, h, OsUnlockLock(s.table, s.harts[h]));
  }

  lemma ReopenKeeps(s: System, h: nat)
    requires CoreInv(s) && 1 <= h < N_HART
    ensures var r := s.(harts := s.harts[h := OsSet(s.table, s.harts[h], SU_RWX)]);
            && CoreInv(r) && OpenToHost(r, h) && (forall k: nat :: 1 <= k < N_HART ==> HartKept(s, r, k))
            && (Live(s.enclaves[0]) && AllClosed(s) ==> AllClosed(r))
  {
    assert CoreHart(s, h);
    TablesNoneLive(s);
    OsReopens(s.table, s.harts[h]);
    HartReopened(s, h, OsSet(s.table, s.harts[h], SU_RWX));
  }

  lemma CreatesHarts(s: System, h: nat, a: CreateArgs, env: CreateEnv)
    requires CoreInv(s) && 1 <= h < N_HART && !s.cpus[h].isEnclave
    ensures var (r, ret) := SbiCreate(s, h, a, env);
            && CoreInv(r) && r.cpus == s.cpus
            && (forall k: nat :: 1 <= k < N_HART ==> HartKept(s, r, k))
            && (ret == SUCCESS ==> !Live(s.enclaves[0]) && Live(r.enclaves[0]) && AllClosed(r))
  {
    SbiCreateParts(s, h, a, env);
    UnlockLockKeeps(s, h);
    var s1 := s.(harts := s.harts[h := OsUnlockLock(s.table, s.harts[h])]);
    if !env.copyFails {
      CreateEnclaveHart(s1, h, a, env);
      ReopenKeeps(CreateEnclave(s1, h, a, env).0, h);
      KeptThrough(s, s1, CreateEnclave(s1, h, a, env).0, SbiCreate(s, h, a, env).0, h);
    }
  }

  lemma KeptThrough(s: System, s1: System, s2: System, r: System, h: nat)
    requires Shaped(s) && Shaped(s1) && Shaped(s2) && CoreInv(r) && 1 <= h < N_HART
    requires forall k: nat :: 1 <= k < N_HART ==>
             HartKept(s, s1, k) && HartKept(s2, r, k)
    requires forall k: nat :: 1 <= k < N_HART && k != h ==> (OpenToHost(s1, k) ==> OpenToHost(s2, k))
    requires OpenToHost(r, h)
    ensures forall k: nat :: 1 <= k < N_HART ==> HartKept(s, r, k)
  {
    forall k: nat | 1 <= k < N_HART ensures HartKept(s, r, k) {
      assert HartKept(s, s1, k) && HartKept(s2, r, k) && CoreHart(r, k);
    }
  }

  // ---------- destroying ----------

  lemma DestroysHart(s: System, h: nat, eid: nat, k: nat)
    requires CoreInv(s) && 1 <= h < N_HART && 1 <= k < N_HART && Destroyable(s, eid)
    ensures HartKept(s, DestroyEnclave(s, h, eid).0, k)
  {
    DestroyKeepsTables(s, h, eid);
    assert EnclaveOk(s.enclaves[0]);
    DestroyFields(s, h, eid);
    assert CoreHart(s, k);
    var g := s.table.regions[EPM_RID];
    if k == h {
      var r := DestroyEnclave(s, h, eid).0;
      TablesNoneLive(r);
      SetEpm(s.harts[h], g, ALL_RW);
      var c := SetRegion(s.harts[h], g, ALL_RW);
      SetEpm(c, g, NO_PERM);
      OsSetOnHart(r.table, SetRegion(c, g, NO_PERM), SU_RWX);
    } else {
      UnsetEpm(s.harts[k], g);
    }
  }

  // ---------- every call ----------

  /** A return from the firmware on a stray hart. */
  predicate Shuts(s: System, h: nat, call: Call)
    requires Shaped(s) && h < N_HART
  {
    call.FirmwareReturn? && Stray(s, h)
  }

  /** The interrupt that stops an enclave under the hart that runs it. */
  predicate Strands(s: System, h: nat, call: Call)
    requires Shaped(s) && h < N_HART
  {
    call.Interrupt? && Stray(s, h) && s.enclaves[0].state == Running
  }

  lemma CreatesStep(s: System, h: nat, call: Call)
    requires TablesInv(s) && h < N_HART && Creates(s, h, call)
    ensures Step(s, h, call) == SbiCreate(s, h, call.args, call.env)
  {
  }

  lemma DestroysStep(s: System, h: nat, call: Call)
    requires TablesInv(s) && h < N_HART && Destroys(s, h, call)
    ensures Step(s, h, call) == DestroyEnclave(s, h, call.eid)
  {
  }

  lemma OtherHart(s: System, h: nat, call: Call, k: nat)
    requires CoreInv(s) && 1 <= h < N_HART && 1 <= k < N_HART
    requires !Enters(s, h, call) && !Leaves(s, h, call) && !call.FirmwareReturn?
    requires !Creates(s, h, call) && !Destroys(s, h, call)
    ensures HartKept(s, Step(s, h, call).0, k)
  {
    OtherCalls(s, h, call);
    assert CoreHart(s, k);
    var r := Step(s, h, call).0;
    assert r.harts == s.harts && r.cpus == s.cpus && r.table == s.table && r.enclaves == s.enclaves;
    SameHart(s, r, k);
  }

  /** Every hart keeps what it has, unless it is the one whose permissions are repaired. */
  lemma StepKeepsHart(s: System, h: nat, call: Call, k: nat)
    requires CoreInv(s) && 1 <= h < N_HART && 1 <= k < N_HART
    ensures CoreHart(Step(s, h, call).0, k)
    ensures !(k == h && Fixes(s, h, call)) ==> HartKept(s, Step(s, h, call).0, k)
  {
    if Enters(s, h, call) {
      EntersHart(s, h, call, k);
    } else if Leaves(s, h, call) {
      LeavesHart(s, h, call, k);
    } else if Fixes(s, h, call) {
      FixesHart(s, h, call);
      assert CoreHart(s, k);
      if k != h { SameHart(s, Step(s, h, call).0, k); }
    } else if call.FirmwareReturn? {
      RelockHart(s, h);
    } else if Creates(s, h, call) {
      CreatesStep(s, h, call);
      CreatesHarts(s, h, call.args, call.env);
    } else if Destroys(s, h, call) {
      DestroysStep(s, h, call);
      DestroysHart(s, h, call.eid, k);
    } else {
      OtherHart(s, h, call, k);
    }
  }

  /** Whatever hart 1..4 does, in whatever context, the core invariant survives. */
  lemma StepKeepsCore(s: System, h: nat, call: Call)
    requires CoreInv(s) && 1 <= h < N_HART
    ensures CoreInv(Step(s, h, call).0)
  {
    StepKeepsTables(s, h, call);
    forall k: nat | 1 <= k < N_HART ensures CoreHart(Step(s, h, call).0, k) { StepKeepsHart(s, h, call, k); }
  }

  // ---------- every run ----------

  function NoEnclaves(): seq<Enclave> {
    seq(ENCL_MAX,
        _ => Enclave(Invalid, seq(REGIONS_MAX, _ => EnclaveRegion(0, NoRegion)), 0, Params(0, 0, 0, 0, 0, 0, 0)))
  }

  function NoContexts(): seq<Cpu> {
    seq(N_HART, _ => Cpu(false, 0))
  }

  function NotExecuting(): seq<bool> {
    seq(N_HART, _ => false)
  }

  function BootHarts(before: seq<Csrs>): (r: seq<Csrs>)
    requires AllValid(before)
    ensures AllValid(r) && forall i :: 0 <= i < N_HART ==> r[i] == StartHart(before[i])
  {
    seq(N_HART, i requires 0 <= i < N_HART => StartHart(before[i]))
  }

  /**
   The monitor when every hart has finished `sm_init` and the firmware has returned on it for the first time, which
   starts S mode; the registers held `before` beforehand.
   */
  ghost function BootSystem(before: seq<Csrs>, mem: map<nat, Byte>): (s: System)
    requires AllValid(before)
    ensures Shaped(s)
  {
    System(BootTable(), BootHarts(before), NoEnclaves(), NoContexts(), NotExecuting(), mem)
  }

  lemma BootedInv(before: seq<Csrs>, mem: map<nat, Byte>)
    requires AllValid(before)
    ensures CoreInv(BootSystem(before, mem)) && OneToOne(BootSystem(before, mem))
    ensures forall k: nat :: 1 <= k < N_HART ==> OpenToHost(BootSystem(before, mem), k)
  {
    var s := BootSystem(before, mem);
    assert TablesInv(s) && OneToOne(s) by { BootTableFacts(); }
    forall k: nat | 1 <= k < N_HART ensures CoreHart(s, k) && OpenToHost(s, k) {
      StartHartFacts(before[k]);
    }
  }

  datatype Event = Event(hart: nat, call: Call)

  predicate ValidRun(events: seq<Event>) {
    forall i :: 0 <= i < |events| ==> 1 <= events[i].hart < N_HART
  }

  /** The system after a run, oldest event first. */
  ghost function AfterRun(s: System, events: seq<Event>): (r: System)
    requires CoreInv(s) && ValidRun(events)
    ensures CoreInv(r)
    decreases |events|
  {
    if events == [] then s
    else
      var before := AfterRun(s, events[..|events| - 1]);
      var last := events[|events| - 1];
      StepKeepsCore(before, last.hart, last.call);
      Step(before, last.hart, last.call).0
  }

  /** The states the monitor can be in: any run of harts 1..4 after boot. */
  ghost function Reached(before: seq<Csrs>, mem: map<nat, Byte>, events: seq<Event>): (s: System)
    requires AllValid(before) && ValidRun(events)
    ensures CoreInv(s)
  {
    BootedInv(before, mem);
    AfterRun(BootSystem(before, mem), events)
  }

  /** One more event. */
  lemma LastStep(s: System, events: seq<Event>, e: Event)
    requires CoreInv(s) && ValidRun(events) && 1 <= e.hart < N_HART
    ensures ValidRun(events + [e]) && AfterRun(s, events + [e]) == Step(AfterRun(s, events), e.hart, e.call).0
  {
    assert (events + [e])[..|events|] == events;
  }

  /** A run from boot with its last event. */
  lemma ReachNext(before: seq<Csrs>, mem: map<nat, Byte>, run: seq<Event>, e: Event)
    requires AllValid(before) && ValidRun(run) && 1 <= e.hart < N_HART
    ensures ValidRun(run + [e])
    ensures Reached(before, mem, run + [e]) == Step(Reached(before, mem, run), e.hart, e.call).0
  {
    BootedInv(before, mem);
    LastStep(BootSystem(before, mem), run, e);
  }
}
