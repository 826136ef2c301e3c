/**
 Entries 5 and 6 of a hart over whole runs, and with them exactly what enclave and host may touch.

 The live enclave's private region owns entry 5, or entries 5 and 6. Whatever else stands in them is left over
 from an earlier enclave, or comes from the word that returns from the firmware write, and such an entry never
 grants anything. It can deny: entry 6 decides before the entry of the shared region and the OS region does.
 */
module Leftovers {
  import opened Bits
  import opened PmpHardware
  import opened PmpRegions
  import opened PmpEncoding
  import opened PmpWord
  import opened Boot
  import opened Enclaves
  import opened Lifecycle
  import opened LifecycleSteps
  import opened HartSteps
  import opened Isolation
  import opened TrapRuns
  import opened RunSafety
  import opened Views

  // ---------- entries that grant nothing ----------

  /** An entry that grants nothing, whatever it matches. */
  predicate Inert(c: Csrs, i: nat)
    requires ValidCsrs(c) && i < N_REG
  {
    c.cfg[i] % 8 == NO_PERM
  }

  predicate BothInert(c: Csrs)
    requires ValidCsrs(c)
  {
    Inert(c, 5) && Inert(c, 6)
  }

  predicate SameEntry(c: Csrs, d: Csrs, i: nat)
    requires ValidCsrs(c) && ValidCsrs(d) && i < N_REG
  {
    d.cfg[i] == c.cfg[i] && d.addr[i] == c.addr[i]
  }

  predicate SameBoth(c: Csrs, d: Csrs)
    requires ValidCsrs(c) && ValidCsrs(d)
  {
    SameEntry(c, d, 5) && SameEntry(c, d, 6)
  }

  /** Closing a region leaves its own entries closed and no other entry changed. */
  lemma CloseEntry(c: Csrs, g: Region, i: nat)
    requires ValidCsrs(c) && EpmShaped(g) && i < N_REG
    ensures var d := SetRegion(c, g, NO_PERM);
            if Owns(g, i) then Inert(d, i) else SameEntry(c, d, i)
  {
    CfgByteValue(g.mode, NO_PERM);
    SetRegionEffect(c, g, NO_PERM, i);
  }

  lemma CloseInert(c: Csrs, g: Region)
    requires ValidCsrs(c) && EpmShaped(g) && BothInert(c)
    ensures BothInert(SetRegion(c, g, NO_PERM)) && BothInert(UnsetRegion(c, g))
    ensures BothInert(UnsetRegion(SetRegion(c, g, NO_PERM), g))
  {
    CloseEntry(c, g, 5);
    CloseEntry(c, g, 6);
    UnsetInert(c, g);
    UnsetInert(SetRegion(c, g, NO_PERM), g);
  }

  lemma UnsetInert(c: Csrs, g: Region)
    requires ValidCsrs(c) && BothInert(c)
    ensures BothInert(UnsetRegion(c, g))
  {
    UnsetRegionEffect(c, g, 5);
    UnsetRegionEffect(c, g, 6);
  }

  /** Opening a region and closing it again. */
  lemma ReopenInert(c: Csrs, d: Csrs, g: Region, perm: Byte)
    requires ValidCsrs(c) && ValidCsrs(d) && EpmShaped(g) && BothInert(c) && SameBoth(SetRegion(c, g, perm), d)
    ensures BothInert(SetRegion(d, g, NO_PERM))
  {
    SetRegionEffect(c, g, perm, 5);
    SetRegionEffect(c, g, perm, 6);
    CloseEntry(d, g, 5);
    CloseEntry(d, g, 6);
  }

  /** The OS region uses neither entry. */
  lemma OsKeepsBoth(t: Table, c: Csrs, perm: Byte)
    requires BootKept(t) && ValidCsrs(c)
    ensures SameBoth(c, OsSet(t, c, perm))
  {
    assert t.regions[OS_RID] == OS;
    SetRegionEffect(c, OS, perm, 5);
    SetRegionEffect(c, OS, perm, 6);
  }

  lemma UnlockKeepsBoth(t: Table, c: Csrs)
    requires BootKept(t) && ValidCsrs(c)
    ensures SameBoth(c, OsUnlockLock(t, c))
  {
    OsKeepsBoth(t, c, ALL_RW);
    OsKeepsBoth(t, OsSet(t, c, ALL_RW), SU_RWX);
  }

  // ---------- every call ----------

  /** Does the live enclave's private region own entry `i`? */
  predicate OwnedNow(s: System, i: nat)
    requires Shaped(s)
  {
    Live(s.enclaves[0]) && Owns(s.table.regions[EPM_RID], i)
  }

  /** Entries 5 and 6 of hart `k` are the live enclave's or grant nothing. */
  ghost predicate Tidy(s: System, k: nat)
    requires Shaped(s) && k < N_HART
  {
    (OwnedNow(s, 5) || Inert(s.harts[k], 5)) && (OwnedNow(s, 6) || Inert(s.harts[k], 6))
  }

  /** The registers of a switch, with an enclave live, outside the private region's own. */
  lemma ViewKeeps(s: System, h: nat, i: nat)
    requires TablesInv(s) && h < N_HART && Live(s.enclaves[0]) && 5 <= i <= 6 && !Owns(s.table.regions[EPM_RID], i)
    ensures SameEntry(s.harts[h], EnclaveView(s, h, 0), i) && SameEntry(s.harts[h], HostView(s, h, 0), i)
  {
    var (t, c) := (s.table, s.harts[h]);
    assert EnclaveOk(s.enclaves[0]) && t.regions[OS_RID] == OS;
    var c0 := OsSet(t, c, NO_PERM);
    SetRegionEffect(c, OS, NO_PERM, i);
    SetEachLive(t, c0, s.enclaves[0], SU_RWX);
    BothKeep(t, c0, SU_RWX, i);
    SetEachLive(t, c, s.enclaves[0], NO_PERM);
    BothKeep(t, c, NO_PERM, i);
    SetRegionEffect(PmpSet(t, PmpSet(t, c, EPM_RID, NO_PERM), UTM_RID, NO_PERM), OS, SU_RWX, i);
  }

  lemma BothKeep(t: Table, c: Csrs, perm: Byte, i: nat)
    requires |t.regions| == N_REGION && ValidCsrs(c) && i < N_REG
    requires !Owns(t.regions[EPM_RID], i) && !Owns(t.regions[UTM_RID], i)
    ensures SameEntry(c, PmpSet(t, PmpSet(t, c, EPM_RID, perm), UTM_RID, perm), i)
  {
    SetRegionEffect(c, t.regions[EPM_RID], perm, i);
    SetRegionEffect(PmpSet(t, c, EPM_RID, perm), t.regions[UTM_RID], perm, i);
  }

  /** A hart that is switched or repaired. */
  lemma ViewTidy(s: System, r: System, h: nat)
    requires TablesInv(s) && Shaped(r) && h < N_HART && Tidy(s, h)
    requires r.table == s.table && Live(r.enclaves[0]) == Live(s.enclaves[0])
    requires r.harts[h] == EnclaveView(s, h, 0) || (Live(s.enclaves[0]) && r.harts[h] == HostView(s, h, 0))
    ensures Tidy(r, h)
  {
    if Live(s.enclaves[0]) {
      if !OwnedNow(s, 5) { ViewKeeps(s, h, 5); }
      if !OwnedNow(s, 6) { ViewKeeps(s, h, 6); }
    } else {
      IdleView(s, h);
      OsKeepsBoth(s.table, s.harts[h], NO_PERM);
    }
  }

  lemma SameTidy(s: System, r: System, k: nat)
    requires Shaped(s) && Shaped(r) && k < N_HART && Tidy(s, k) && SameBoth(s.harts[k], r.harts[k])
    requires r.table == s.table && Live(r.enclaves[0]) == Live(s.enclaves[0])
    ensures Tidy(r, k)
  {
  }

  lemma SwitchTidy(s: System, h: nat, call: Call, k: nat)
    requires TablesInv(s) && 1 <= h < N_HART && 1 <= k < N_HART && Tidy(s, k)
    requires Enters(s, h, call) || Leaves(s, h, call)
    ensures Tidy(Step(s, h, call).0, k)
  {
    var r := Step(s, h, call).0;
    if Enters(s, h, call) { EntersHarts(s, h, call); } else { LeavesHarts(s, h, call); }
    if k == h { ViewTidy(s, r, h); } else { SameTidy(s, r, k); }
  }

  /** A return from the firmware closes both entries, and a repair then opens those of the private region at most. */
  lemma ReturnTidy(s: System, h: nat, call: Call, k: nat)
    requires TablesInv(s) && 1 <= h < N_HART && 1 <= k < N_HART && Tidy(s, k) && call.FirmwareReturn?
    ensures Tidy(Step(s, h, call).0, k)
  {
    if k != h {
      ReturnKeepsFlags(s, h, call);
      SameTidy(s, Step(s, h, call).0, k);
    } else {
      RelockTidy(s, h);
      if s.executing[h] { RepairTidy(Relock(s, h), h); }
    }
  }

  lemma RelockTidy(s: System, h: nat)
    requires TablesInv(s) && 1 <= h < N_HART
    ensures TablesInv(Relock(s, h)) && Tidy(Relock(s, h), h)
  {
    SameTables(s, Relock(s, h));
  }

  lemma RepairTidy(s: System, h: nat)
    requires TablesInv(s) && 1 <= h < N_HART && Tidy(s, h)
    ensures Tidy(FixPermissions(s, h).0, h)
  {
    ViewTidy(s, FixPermissions(s, h).0, h);
  }

  /** It also ends what an earlier enclave has left in entry 6. */
  lemma ReturnEndsLeftover(s: System, h: nat, x: nat)
    requires TablesInv(s) && 1 <= h < N_HART && Live(s.enclaves[0])
    ensures var r := Step(s, h, FirmwareReturn).0;
            r.table == s.table && !Leftover(r.harts[h], r.table.regions[EPM_RID], x)
  {
    ReturnKeepsFlags(s, h, FirmwareReturn);
    if s.table.regions[EPM_RID].reg == 5 { ReturnedSix(s, h); }
  }

  lemma ReturnedSix(s: System, h: nat)
    requires TablesInv(s) && 1 <= h < N_HART && Live(s.enclaves[0]) && s.table.regions[EPM_RID].reg == 5
    ensures Step(s, h, FirmwareReturn).0.harts[h].cfg[6] == A_OFF
  {
    SameTables(s, Relock(s, h));
    if s.executing[h] { ViewKeeps(Relock(s, h), h, 6); }
  }

  /** Hart `h` has been switched, and nothing else has happened to registers and tables. */
  ghost predicate SwitchedTo(s: System, r: System, h: nat)
    requires Shaped(s) && h < N_HART
  {
    && Shaped(r) && r.table == s.table && Live(r.enclaves[0]) == Live(s.enclaves[0])
    && (forall k :: 0 <= k < N_HART && k != h ==> r.harts[k] == s.harts[k])
    && (r.harts[h] == EnclaveView(s, h, 0) || (Live(s.enclaves[0]) && r.harts[h] == HostView(s, h, 0)))
  }

  lemma EntersHarts(s: System, h: nat, call: Call)
    requires TablesInv(s) && 1 <= h < N_HART && Enters(s, h, call)
    ensures SwitchedTo(s, Step(s, h, call).0, h)
  {
    EntersEffect(s, h, call);
    SameView(s, WithState(s, 0, Running, 1), h);
  }

  lemma LeavesHarts(s: System, h: nat, call: Call)
    requires TablesInv(s) && 1 <= h < N_HART && Leaves(s, h, call)
    ensures SwitchedTo(s, Step(s, h, call).0, h)
  {
    LeavesEffect(s, h, call);
    SameView(s, WithState(s, 0, Stopped, 0), h);
  }

  /** The registers of a switch do not depend on the enclave's state. */
  lemma SameView(s: System, r: System, h: nat)
    requires Shaped(s) && Shaped(r) && h < N_HART && r.table == s.table && r.harts == s.harts
    requires r.enclaves[0].regions == s.enclaves[0].regions
    ensures EnclaveView(r, h, 0) == EnclaveView(s, h, 0) && HostView(r, h, 0) == HostView(s, h, 0)
  {
  }

  // ---------- creating and destroying ----------

  /** With an enclave live, a create reopens the OS region and does no more. */
  lemma LiveCreateKeeps(s: System, h: nat, a: CreateArgs, env: CreateEnv, k: nat)
    requires TablesInv(s) && 1 <= h < N_HART && 1 <= k < N_HART && Live(s.enclaves[0])
    ensures var r := SbiCreate(s, h, a, env).0;
            r.table == s.table && r.enclaves == s.enclaves && SameBoth(s.harts[k], r.harts[k])
  {
    SbiCreateParts(s, h, a, env);
    LoadedRefuses(s.table, s.enclaves[0].params, a);
    var c := OsUnlockLock(s.table, s.harts[h]);
    UnlockKeepsBoth(s.table, s.harts[h]);
    OsKeepsBoth(s.table, c, SU_RWX);
  }

  /** The creating hart, whose own entries it opens for the measurement and closes again. */
  lemma CreatorInert(s: System, h: nat, env: CreateEnv, v: Reserved, p: Params)
    requires Shaped(s) && 1 <= h < N_HART && v.Reserved? && v.epm == EPM_RID && LoadedTable(v.table, p)
    requires BothInert(s.harts[h])
    ensures BothInert(CreatorHart(s, h, env, v))
  {
    var (t, g) := (v.table, v.table.regions[EPM_RID]);
    UnlockKeepsBoth(t, s.harts[h]);
    var c := OsUnlockLock(t, s.harts[h]);
    var c1 := PmpSet(t, c, EPM_RID, ALL_RW);
    OsKeepsBoth(t, c1, ALL_RW);
    ReopenInert(c, OsSet(t, c1, ALL_RW), g, ALL_RW);
    OsKeepsBoth(t, PmpSet(t, OsSet(t, c1, ALL_RW), EPM_RID, NO_PERM), SU_RWX);
  }

  lemma CreateWithInert(s: System, h: nat, a: CreateArgs, env: CreateEnv, k: nat)
    requires TablesInv(s) && 1 <= h < N_HART && 1 <= k < N_HART && BothInert(s.harts[k])
    requires Reserve(s.table, a).Reserved?
    ensures BothInert(CreateWith(s, h, a, env, 0, Reserve(s.table, a)).0.harts[k])
  {
    var v := Reserve(s.table, a);
    ReservedOnlyWhenIdle(s, a);
    ReserveLoads(s.table, a);
    CreateHarts(s, h, a, env, 0, v);
    if k == h {
      CreatorInert(s, h, env, v, ParamsOf(a));
    } else {
      CloseInert(s.harts[k], v.table.regions[EPM_RID]);
    }
  }

  lemma CreateEnclaveInert(s: System, h: nat, a: CreateArgs, env: CreateEnv, k: nat)
    requires TablesInv(s) && 1 <= h < N_HART && 1 <= k < N_HART && BothInert(s.harts[k])
    ensures BothInert(CreateEnclave(s, h, a, env).0.harts[k])
  {
    CreateOutcomes(s, h, a, env);
    if CreateEnclave(s, h, a, env).0 != s { CreateWithInert(s, h, a, env, k); }
  }

  lemma IdleCreateInert(s: System, h: nat, a: CreateArgs, env: CreateEnv, k: nat)
    requires TablesInv(s) && 1 <= h < N_HART && 1 <= k < N_HART && BothInert(s.harts[k])
    ensures BothInert(SbiCreate(s, h, a, env).0.harts[k])
  {
    SbiCreateParts(s, h, a, env);
    TablesNoneLive(s);
    UnlockKeepsBoth(s.table, s.harts[h]);
    var s1 := s.(harts := s.harts[h := OsUnlockLock(s.table, s.harts[h])]);
    SameTables(s, s1);
    if !env.copyFails {
      CreateEnclaveInert(s1, h, a, env, k);
      var s2 := CreateEnclave(s1, h, a, env).0;
      CreateKeepsBoot(s1, h, a, env);
      if k == h { OsKeepsBoth(s2.table, s2.harts[h], SU_RWX); }
    }
  }

  lemma CreateKeepsBoot(s: System, h: nat, a: CreateArgs, env: CreateEnv)
    requires TablesInv(s) && 1 <= h < N_HART
    ensures BootKept(CreateEnclave(s, h, a, env).0.table)
  {
    CreateOutcomes(s, h, a, env);
    if CreateEnclave(s, h, a, env).0 != s { CreateWithKeepsTables(s, h, a, env); }
    TablesNoneLive(s);
    if CreateEnclave(s, h, a, env).0 != s { TablesNoneLive(CreateEnclave(s, h, a, env).0); }
  }

  lemma CreateTidy(s: System, h: nat, a: CreateArgs, env: CreateEnv, k: nat)
    requires TablesInv(s) && 1 <= h < N_HART && 1 <= k < N_HART && Tidy(s, k)
    ensures Tidy(SbiCreate(s, h, a, env).0, k)
  {
    if Live(s.enclaves[0]) {
      LiveCreateKeeps(s, h, a, env, k);
      SameTidy(s, SbiCreate(s, h, a, env).0, k);
    } else {
      IdleCreateInert(s, h, a, env, k);
    }
  }

  /** After a destroy nothing is live, and every hart's entries grant nothing. */
  lemma DestroyTidy(s: System, h: nat, eid: nat, k: nat)
    requires TablesInv(s) && 1 <= h < N_HART && 1 <= k < N_HART && Tidy(s, k) && Destroyable(s, eid)
    ensures Tidy(DestroyEnclave(s, h, eid).0, k)
  {
    DestroyKeepsTables(s, h, eid);
    assert EnclaveOk(s.enclaves[0]);
    DestroyFields(s, h, eid);
    var (r, g, c) := (DestroyEnclave(s, h, eid).0, s.table.regions[EPM_RID], s.harts[k]);
    TablesNoneLive(r);
    if k == h {
      DestroyerInert(c, r.table, g);
    } else {
      OthersInert(c, g);
    }
  }

  lemma DestroyerInert(c: Csrs, t: Table, g: Region)
    requires ValidCsrs(c) && BootKept(t) && EpmShaped(g) && (Owns(g, 6) || Inert(c, 6))
    ensures BothInert(OsSet(t, SetRegion(SetRegion(c, g, ALL_RW), g, NO_PERM), SU_RWX))
  {
    var c1 := SetRegion(c, g, ALL_RW);
    SetRegionEffect(c, g, ALL_RW, 5);
    SetRegionEffect(c, g, ALL_RW, 6);
    CloseEntry(c1, g, 5);
    CloseEntry(c1, g, 6);
    OsKeepsBoth(t, SetRegion(c1, g, NO_PERM), SU_RWX);
  }

  lemma OthersInert(c: Csrs, g: Region)
    requires ValidCsrs(c) && (Owns(g, 5) || Inert(c, 5)) && (Owns(g, 6) || Inert(c, 6))
    ensures BothInert(UnsetRegion(c, g))
  {
    UnsetRegionEffect(c, g, 5);
    UnsetRegionEffect(c, g, 6);
  }

  /** Whatever a hart does, the entries that no live enclave owns grant nothing. */
  lemma StepKeepsTidy(s: System, h: nat, call: Call, k: nat)
    requires TablesInv(s) && 1 <= h < N_HART && 1 <= k < N_HART && Tidy(s, k)
    ensures Tidy(Step(s, h, call).0, k)
  {
    if Enters(s, h, call) || Leaves(s, h, call) {
      SwitchTidy(s, h, call, k);
    } else if call.FirmwareReturn? {
      ReturnTidy(s, h, call, k);
    } else if Creates(s, h, call) {
      CreatesStep(s, h, call);
      CreateTidy(s, h, call.args, call.env, k);
    } else if Destroys(s, h, call) {
      DestroysStep(s, h, call);
      DestroyTidy(s, h, call.eid, k);
    } else {
      OtherCalls(s, h, call);
      SameTidy(s, Step(s, h, call).0, k);
    }
  }

  /**
   In every run whatever and on every hart, an entry 5 or 6 that does not belong to the live enclave's private
   region grants nothing.
   */
  lemma {:induction false} NothingLeftOpen(before: seq<Csrs>, mem: map<nat, Byte>, run: seq<Event>, n: nat, k: nat)
    requires AllValid(before) && ValidRun(run) && n <= |run| && 1 <= k < N_HART
    ensures Tidy(At(before, mem, run, n), k)
  {
    if n == 0 {
      TidyAtStart(before, mem, run, k);
    } else {
      NothingLeftOpen(before, mem, run, n - 1, k);
      TidyNext(before, mem, run, n, k);
    }
  }

  lemma TidyAtStart(before: seq<Csrs>, mem: map<nat, Byte>, run: seq<Event>, k: nat)
    requires AllValid(before) && ValidRun(run) && 1 <= k < N_HART
    ensures Tidy(At(before, mem, run, 0), k)
  {
    AtStart(before, mem, run);
    StartHartFacts(before[k]);
  }

  lemma TidyNext(before: seq<Csrs>, mem: map<nat, Byte>, run: seq<Event>, n: nat, k: nat)
    requires AllValid(before) && ValidRun(run) && 0 < n <= |run| && 1 <= k < N_HART
    requires Tidy(At(before, mem, run, n - 1), k)
    ensures Tidy(At(before, mem, run, n), k)
  {
    AtLast(before, mem, run, n);
    StepKeepsTidy(At(before, mem, run, n - 1), run[n - 1].hart, run[n - 1].call, k);
  }
}
