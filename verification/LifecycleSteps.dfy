/**
 What each call does to the tables and to each hart's registers. Every call keeps the core
 invariant, so every run from boot does.
 */
module LifecycleSteps {
  import opened Bits
  import opened PmpHardware
  import opened PmpRegions
  import opened PmpEncoding
  import opened Boot
  import opened Enclaves
  import opened Lifecycle

  // ---------- tables ----------

  lemma TablesNoneLive(s: System)
    requires TablesInv(s)
    ensures NoneLive(s) <==> !Live(s.enclaves[0])
    ensures BootKept(s.table)
    ensures !Live(s.enclaves[0]) ==> FreeEid(s.enclaves, 0) == 0
  {
    assert EnclaveOk(s.enclaves[0]);
  }

  /** Only registers, flags of execution or memory differ. */
  lemma SameTables(s: System, r: System)
    requires TablesInv(s) && Shaped(r) && r.table == s.table && r.enclaves == s.enclaves && r.cpus == s.cpus
    ensures TablesInv(r)
  {
  }

  /** Slot 0 stays live, in another state. */
  lemma StateChanged(s: System, r: System, state: Status, h: nat, cpu: Cpu)
    requires TablesInv(s) && Shaped(r) && r.table == s.table && Live(s.enclaves[0]) && 1 <= h < N_HART
    requires state == Stopped || state == Running
    requires r.enclaves == s.enclaves[0 := s.enclaves[0].(state := state, nThread := if state == Running then 1 else 0)]
    requires r.cpus == s.cpus[h := cpu] && cpu.eid == 0
    ensures TablesInv(r)
  {
    assert EnclaveOk(s.enclaves[0]);
    assert EnclaveOk(r.enclaves[0]);
  }

  /** Leaving a running enclave, whoever leaves it. */
  lemma LeaveEffect(s: System, h: nat, eid: nat)
    requires Shaped(s) && h < N_HART && eid < ENCL_MAX && s.enclaves[eid].nThread == 1
    ensures LeaveEnclave(s, h, eid) == SwitchToHost(WithState(s, eid, Stopped, 0), h, eid)
  {
  }

  // ---------- reserving regions ----------

  lemma IdleRegisters(t: Table)
    requires IdleTable(t)
    ensures forall r: nat :: r < BOTTOM_REG ==> (Used(t, r) <==> r < 5)
    ensures forall i: nat :: Bit(t.defBitmap, i) <==> i < N_BOOT
  {
    forall r: nat | r < BOTTOM_REG ensures Used(t, r) <==> r < 5 {
      if r < 5 { assert OwnedBy(t, r, r); }
      forall i: nat | OwnedBy(t, i, r) ensures r < 5 {
        assert t.regions[i] == BOOT_REGIONS[i];
      }
    }
    forall i: nat ensures Bit(t.defBitmap, i) <==> i < N_BOOT {
      if i < N_BOOT { assert Defined(t, i); }
      if i == EPM_RID || i == UTM_RID { assert !Defined(t, i); }
    }
  }

  /** With all eight slots taken, no region can be initialised. */
  lemma FullTableRefuses(t: Table, start: U64, size: U64, pri: Priority, allow: bool)
    requires |t.regions| == N_REGION && forall i: nat :: i < N_REGION ==> Defined(t, i)
    ensures RegionInit(t, start, size, pri, allow).1.Err?
  {
    forall k: nat | k + 1 <= N_REGION ensures !FreeRun(t.defBitmap, k, 1) { assert Defined(t, k); }
  }

  /** A private region reserved in an idle table gets slot 6 and register 5, or 5 and 6. */
  lemma ReserveEpm(t: Table, addr: U64, size: U64)
    requires IdleTable(t) && RegionInit(t, addr, size, PriAny, false).1.Ok?
    ensures var (u, res) := RegionInit(t, addr, size, PriAny, false);
            && res == Ok(EPM_RID) && TableInv(u)
            && (forall i: nat :: Bit(u.defBitmap, i) <==> i < 7)
            && (forall r: nat :: Used(u, r) <==> Used(t, r) || Owns(u.regions[6], r))
            && EpmShaped(u.regions[6]) && u.regions == t.regions[6 := u.regions[6]]
            && u.regions[6].addr == addr && u.regions[6].size == size && size > 0
            && (u.regions[6].mode == A_NAPOT <==> TakesNapot(addr, size))
  {
    IdleRegisters(t);
    InitKeepsInv(t, addr, size, PriAny, false);
    FirstFreeAt(t.defBitmap, N_REGION, 6);
    if TakesNapot(addr, size) {
      forall r: nat | r < 5 ensures Bit(t.regBitmap, r) { assert Used(t, r); }
      assert !Used(t, 5);
      FirstFreeAt(t.regBitmap, N_REG, 5);
      InstallEffect(t, 6, addr, size, A_NAPOT, false, 5);
    } else {
      assert !Used(t, 5) && !Used(t, 6);
      assert FreeRun(t.regBitmap, 5, 2);
      forall k: nat | k < 5 ensures !FreeRun(t.regBitmap, k, 2) { assert Used(t, k); }
      assert FirstFree(t.regBitmap, N_REG, 2, 0) == 5;
      InstallEffect(t, 6, addr, size, A_TOR, false, 5);
    }
  }

  lemma ReserveUtm(t: Table, addr: U64, size: U64)
    requires TableInv(t) && RegionInit(t, addr, size, PriBottom, false).1.Ok?
    requires forall i: nat :: Bit(t.defBitmap, i) <==> i < 7
    ensures var (u, res) := RegionInit(t, addr, size, PriBottom, false);
            && res == Ok(UTM_RID) && TableInv(u)
            && (forall i: nat :: Bit(u.defBitmap, i) <==> i < 8)
            && (forall r: nat :: Used(u, r) <==> Used(t, r) || r == BOTTOM_REG)
            && u.regions == t.regions[7 := Region(addr, size, A_NAPOT, false, BOTTOM_REG)]
  {
    InitKeepsInv(t, addr, size, PriBottom, false);
    FirstFreeAt(t.defBitmap, N_REGION, 7);
    InstallEffect(t, 7, addr, size, A_NAPOT, false, BOTTOM_REG);
  }

  lemma ReserveLoads(t: Table, a: CreateArgs)
    requires IdleTable(t) && Reserve(t, a).Reserved?
    ensures var r := Reserve(t, a);
            && r.epm == EPM_RID && r.utm == UTM_RID
            && LoadedTable(r.table, Params(a.epmAddr, a.epmSize, a.runtime, a.user, a.free, a.utmAddr, a.utmSize))
  {
    ReserveEpm(t, a.epmAddr, a.epmSize);
    var t1 := RegionInit(t, a.epmAddr, a.epmSize, PriAny, false).0;
    ReserveUtm(t1, a.utmAddr, a.utmSize);
    var u := Reserve(t, a).table;
    assert forall i: nat :: i < N_BOOT ==> Defined(t, i) && u.regions[i] == t.regions[i];
  }

  /** While an enclave is live the table is full and no other can reserve its regions. */
  lemma LoadedRefuses(t: Table, p: Params, a: CreateArgs)
    requires LoadedTable(t, p)
    ensures Reserve(t, a).NotReserved?
  {
    forall i: nat | i < N_REGION ensures Defined(t, i) { }
    FullTableRefuses(t, a.epmAddr, a.epmSize, PriAny, false);
  }

  lemma DropBottomIdle(t: Table)
    requires IdleTable(t)
    ensures IdleTable(DropBottom(t))
    ensures forall r: nat :: Used(DropBottom(t), r) <==> Used(t, r) && r != BOTTOM_REG
  {
    var u := DropBottom(t);
    forall r: nat ensures Used(u, r) <==> Used(t, r) && r != BOTTOM_REG {
      forall i: nat | 32 <= i ensures !Bit(t.regBitmap, i) { assert !Used(t, i); }
      UnsetBitEffect(t.regBitmap, BOTTOM_REG);
    }
    forall i: nat, r: nat ensures OwnedBy(u, i, r) <==> OwnedBy(t, i, r) { }
    forall r: nat | r < BOTTOM_REG ensures Used(u, r) <==> exists i: nat :: OwnedBy(u, i, r) {
      if Used(u, r) {
        var i: nat :| OwnedBy(t, i, r);
        assert OwnedBy(u, i, r);
      }
      if i: nat :| OwnedBy(u, i, r) { assert OwnedBy(t, i, r); }
    }
    assert forall i: nat :: Exclusive(u, i) <==> Exclusive(t, i);
    assert Apart(u);
  }

  lemma ReservedOnlyWhenIdle(s: System, a: CreateArgs)
    requires TablesInv(s) && Reserve(s.table, a).Reserved?
    ensures !Live(s.enclaves[0])
  {
    if Live(s.enclaves[0]) { LoadedRefuses(s.table, s.enclaves[0].params, a); }
  }

  // ---------- creating: tables ----------

  /** The tables `CreateWith` produces. */
  lemma CreateTables(s: System, h: nat, a: CreateArgs, env: CreateEnv, eid: nat, r: Reserved)
    requires Shaped(s) && 1 <= h < N_HART && eid < ENCL_MAX
    requires r.Reserved? && |r.table.regions| == N_REGION && r.epm < N_REGION
    ensures var s1 := CreateWith(s, h, a, env, eid, r).0;
            var failed := env.platformRet != 0 || env.hashRet != 0;
            && s1.cpus == s.cpus && s1.executing == Quieted(s.executing, h)
            && s1.enclaves ==
                s.enclaves[eid := NewEnclave(s.enclaves[eid], a, r.epm, r.utm, if failed then Invalid else Fresh)]
            && s1.table == (if failed then DropBottom(s.table) else r.table)
            && s1.mem == Zeroed(s.mem, a.utmAddr, a.utmSize)
  {
  }

  /** The registers of the creating hart after `CreateWith`. */
  function CreatorHart(s: System, h: nat, env: CreateEnv, r: Reserved): (c: Csrs)
    requires Shaped(s) && h < N_HART && r.Reserved? && |r.table.regions| == N_REGION
    ensures ValidCsrs(c)
  {
    var c1 := OsUnlockLock(r.table, s.harts[h]);
    if env.platformRet != 0 then c1 else OpenCloseRegion(r.table, c1, r.epm)
  }

  /** The registers `CreateWith` produces. */
  lemma CreateHarts(s: System, h: nat, a: CreateArgs, env: CreateEnv, eid: nat, r: Reserved)
    requires Shaped(s) && 1 <= h < N_HART && eid < ENCL_MAX
    requires r.Reserved? && |r.table.regions| == N_REGION && r.epm < N_REGION
    ensures var s1 := CreateWith(s, h, a, env, eid, r).0;
            var g := r.table.regions[r.epm];
            var failed := env.platformRet != 0 || env.hashRet != 0;
            && s1.harts[h] == CreatorHart(s, h, env, r)
            && (forall k: nat :: 1 <= k < N_HART && k != h ==>
                  s1.harts[k] == if failed then UnsetRegion(SetRegion(s.harts[k], g, NO_PERM), g)
                                 else SetRegion(s.harts[k], g, NO_PERM))
  {
  }

  function ParamsOf(a: CreateArgs): Params {
    Params(a.epmAddr, a.epmSize, a.runtime, a.user, a.free, a.utmAddr, a.utmSize)
  }

  lemma CreateWithKeepsTables(s: System, h: nat, a: CreateArgs, env: CreateEnv)
    requires TablesInv(s) && 1 <= h < N_HART && Reserve(s.table, a).Reserved?
    ensures TablesInv(CreateWith(s, h, a, env, 0, Reserve(s.table, a)).0)
  {
    var r := Reserve(s.table, a);
    ReservedOnlyWhenIdle(s, a);
    ReserveLoads(s.table, a);
    DropBottomIdle(s.table);
    CreateTables(s, h, a, env, 0, r);
    assert EnclaveOk(s.enclaves[0]);
    var failed := env.platformRet != 0 || env.hashRet != 0;
    NewSlot(s, CreateWith(s, h, a, env, 0, r).0, a, if failed then Invalid else Fresh);
  }

  lemma NewSlot(s: System, r: System, a: CreateArgs, state: Status)
    requires TablesInv(s) && Shaped(r) && !Live(s.enclaves[0]) && r.cpus == s.cpus
    requires state == Invalid || state == Fresh
    requires r.enclaves == s.enclaves[0 := NewEnclave(s.enclaves[0], a, EPM_RID, UTM_RID, state)]
    requires if state == Fresh then LoadedTable(r.table, ParamsOf(a)) else IdleTable(r.table)
    ensures TablesInv(r)
  {
    assert EnclaveOk(s.enclaves[0]);
    assert EnclaveOk(r.enclaves[0]);
  }

  /** How a create can end: nothing happened, or both regions were reserved. */
  lemma CreateOutcomes(s: System, h: nat, a: CreateArgs, env: CreateEnv)
    requires TablesInv(s) && h < N_HART
    ensures var (r, ret) := CreateEnclave(s, h, a, env);
            || (r == s && ret != SUCCESS && !(ArgsValid(a) && Reserve(s.table, a).Reserved?))
            || (!Live(s.enclaves[0]) && Reserve(s.table, a).Reserved?
                && (ret == SUCCESS <==> env.platformRet == 0 && env.hashRet == 0)
                && r == CreateWith(s, h, a, env, 0, Reserve(s.table, a)).0)
  {
    if Reserve(s.table, a).Reserved? {
      ReservedOnlyWhenIdle(s, a);
      TablesNoneLive(s);
    }
  }

  /** Does a create get as far as telling the other harts of its private region? */
  predicate Reserves(s: System, a: CreateArgs, env: CreateEnv)
    requires Shaped(s)
  {
    !env.copyFails && ArgsValid(a) && Reserve(s.table, a).Reserved?
  }

  /** What a create, which may change any hart's registers, makes of everything else. */
  ghost predicate CreateResult(s: System, r: System, ret: nat, h: nat, a: CreateArgs, env: CreateEnv)
    requires Shaped(s) && Shaped(r)
  {
    if !Reserves(s, a, env) then r == s.(harts := r.harts) && ret != SUCCESS
    else
      var failed := env.platformRet != 0 || env.hashRet != 0;
      && !Live(s.enclaves[0]) && (ret == SUCCESS <==> !failed)
      && r.cpus == s.cpus && r.executing == Quieted(s.executing, h)
      && r.enclaves ==
           s.enclaves[0 := NewEnclave(s.enclaves[0], a, EPM_RID, UTM_RID, if failed then Invalid else Fresh)]
      && r.table == (if failed then DropBottom(s.table) else Reserve(s.table, a).table)
      && r.mem == Zeroed(s.mem, a.utmAddr, a.utmSize)
  }

  lemma CreateEnclaveResult(s: System, h: nat, a: CreateArgs, env: CreateEnv)
    requires TablesInv(s) && 1 <= h < N_HART && !env.copyFails
    ensures var (r, ret) := CreateEnclave(s, h, a, env);
            CreateResult(s, r, ret, h, a, env)
  {
    CreateOutcomes(s, h, a, env);
    if Reserves(s, a, env) {
      ReservedOnlyWhenIdle(s, a);
      ReservedResult(s, h, a, env, CreateEnclave(s, h, a, env).0, CreateEnclave(s, h, a, env).1);
    }
  }

  lemma ReservedResult(s: System, h: nat, a: CreateArgs, env: CreateEnv, r: System, ret: nat)
    requires TablesInv(s) && 1 <= h < N_HART && Reserves(s, a, env) && !Live(s.enclaves[0])
    requires ret == SUCCESS <==> env.platformRet == 0 && env.hashRet == 0
    requires r == CreateWith(s, h, a, env, 0, Reserve(s.table, a)).0
    ensures CreateResult(s, r, ret, h, a, env)
  {
    CreateTables(s, h, a, env, 0, Reserve(s.table, a));
    ReserveLoads(s.table, a);
  }

  /** What the wrapper does around `create_enclave`. */
  lemma SbiCreateParts(s: System, h: nat, a: CreateArgs, env: CreateEnv)
    requires Shaped(s) && h < N_HART
    ensures var s1 := s.(harts := s.harts[h := OsUnlockLock(s.table, s.harts[h])]);
            var (s2, ret) := CreateEnclave(s1, h, a, env);
            SbiCreate(s, h, a, env) ==
              if env.copyFails then (s1, ERR_REGION_OVERLAPS)
              else (s2.(harts := s2.harts[h := OsSet(s2.table, s2.harts[h], SU_RWX)]), ret)
  {
  }

  lemma SbiCreateResult(s: System, h: nat, a: CreateArgs, env: CreateEnv)
    requires TablesInv(s) && 1 <= h < N_HART
    ensures var (r, ret) := SbiCreate(s, h, a, env);
            CreateResult(s, r, ret, h, a, env)
  {
    SbiCreateParts(s, h, a, env);
    var s1 := s.(harts := s.harts[h := OsUnlockLock(s.table, s.harts[h])]);
    SameTables(s, s1);
    if !env.copyFails {
      CreateEnclaveResult(s1, h, a, env);
      var (r, ret) := SbiCreate(s, h, a, env);
      HartsDoNotMatter(s, s1, CreateEnclave(s1, h, a, env).0, r, ret, h, a, env);
    }
  }

  lemma HartsDoNotMatter(s: System, s1: System, s2: System, r: System, ret: nat, h: nat, a: CreateArgs,
                         env: CreateEnv)
    requires Shaped(s) && Shaped(s1) && Shaped(s2) && Shaped(r)
    requires s1 == s.(harts := s1.harts) && r == s2.(harts := r.harts) && CreateResult(s1, s2, ret, h, a, env)
    ensures CreateResult(s, r, ret, h, a, env)
  {
  }

  lemma ResultKeepsTables(s: System, r: System, ret: nat, h: nat, a: CreateArgs, env: CreateEnv)
    requires TablesInv(s) && Shaped(r) && CreateResult(s, r, ret, h, a, env)
    ensures TablesInv(r)
  {
    if !Reserves(s, a, env) {
      SameTables(s, r);
    } else {
      ReserveLoads(s.table, a);
      DropBottomIdle(s.table);
      NewSlot(s, r, a, if env.platformRet != 0 || env.hashRet != 0 then Invalid else Fresh);
    }
  }

  lemma CreateKeepsTables(s: System, h: nat, a: CreateArgs, env: CreateEnv)
    requires TablesInv(s) && 1 <= h < N_HART
    ensures TablesInv(SbiCreate(s, h, a, env).0)
  {
    SbiCreateResult(s, h, a, env);
    ResultKeepsTables(s, SbiCreate(s, h, a, env).0, SbiCreate(s, h, a, env).1, h, a, env);
  }

  // ---------- destroying: tables ----------

  lemma {:induction false} ClearTail(s: System, h: nat, regions: seq<EnclaveRegion>, i: nat)
    requires Shaped(s) && h < N_HART && i <= |regions|
    requires forall j :: i <= j < |regions| ==> regions[j].kind == NoRegion || regions[j].kind == Utm
    ensures ClearEach(s, h, regions, i) == s
    decreases |regions| - i
  {
    if i < |regions| { ClearTail(s, h, regions, i + 1); }
  }

  /** The clearing loop of a live enclave clears its private region and nothing else. */
  lemma ClearLive(s: System, h: nat, e: Enclave)
    requires Shaped(s) && h < N_HART && EnclaveOk(e) && Live(e)
    ensures ClearEach(s, h, e.regions, 0) == ClearRegion(s, h, EPM_RID)
    ensures UtmIndex(e.regions, 0) == 1
  {
    var s1 := ClearRegion(s, h, EPM_RID);
    ClearTail(s1, h, e.regions, 1);
    assert UtmIndex(e.regions, 1) == 1;
  }

  lemma FreeBoth(t: Table, p: Params)
    requires LoadedTable(t, p)
    ensures var u := RegionFree(t, EPM_RID);
            TableInv(u) && Defined(u, UTM_RID) && IdleTable(RegionFree(u, UTM_RID))
  {
    FreeKeepsInv(t, EPM_RID);
    FreeEffect(t, EPM_RID);
    var u := RegionFree(t, EPM_RID);
    FreeKeepsInv(u, UTM_RID);
    FreeEffect(u, UTM_RID);
    var v := RegionFree(u, UTM_RID);
    assert forall i: nat :: i < N_BOOT ==> Defined(t, i) && v.regions[i] == t.regions[i];
  }

  /** The fields a destroy of a live enclave produces. */
  lemma DestroyFields(s: System, h: nat, eid: nat)
    requires Shaped(s) && 1 <= h < N_HART && Destroyable(s, eid) && Live(s.enclaves[eid]) && EnclaveOk(s.enclaves[eid])
    requires Defined(s.table, EPM_RID)
    ensures var r := DestroyEnclave(s, h, eid).0;
            var g := s.table.regions[EPM_RID];
            && r.table == RegionFree(RegionFree(s.table, EPM_RID), UTM_RID)
            && r.enclaves == s.enclaves[eid := Emptied(s.enclaves[eid])]
            && r.cpus == s.cpus && r.executing == Quieted(s.executing, h)
            && r.mem == Zeroed(s.mem, g.addr, g.size)
            && (forall k: nat :: 1 <= k < N_HART && k != h ==> r.harts[k] == UnsetRegion(s.harts[k], g))
            && r.harts[h] == OsSet(r.table, SetRegion(SetRegion(s.harts[h], g, ALL_RW), g, NO_PERM), SU_RWX)
  {
    var s1 := ClearRegion(s, h, EPM_RID);
    ClearLive(s, h, s.enclaves[eid]);
    assert s.enclaves[eid].regions[1] == EnclaveRegion(UTM_RID, Utm);
    DestroyAfterClear(s, h, eid, s1);
    ClearFields(s, h);
  }

  lemma DestroyAfterClear(s: System, h: nat, eid: nat, s1: System)
    requires Shaped(s) && Shaped(s1) && h < N_HART && Destroyable(s, eid) && |s.enclaves[eid].regions| > 1
    requires ClearEach(s, h, s.enclaves[eid].regions, 0) == s1
    requires UtmIndex(s.enclaves[eid].regions, 0) == 1 && s.enclaves[eid].regions[1].rid == UTM_RID
    ensures var r := DestroyEnclave(s, h, eid).0;
            && r.table == RegionFree(s1.table, UTM_RID)
            && r.harts == s1.harts[h := OsSet(r.table, s1.harts[h], SU_RWX)]
            && r.enclaves == s.enclaves[eid := Emptied(s.enclaves[eid])]
            && r.cpus == s1.cpus && r.executing == s1.executing && r.mem == s1.mem
  {
  }

  lemma ClearFields(s: System, h: nat)
    requires Shaped(s) && 1 <= h < N_HART && Defined(s.table, EPM_RID)
    ensures var r := ClearRegion(s, h, EPM_RID);
            var g := s.table.regions[EPM_RID];
            && r.table == RegionFree(s.table, EPM_RID) && r.mem == Zeroed(s.mem, g.addr, g.size)
            && r.executing == Quieted(s.executing, h)
            && (forall k: nat :: 1 <= k < N_HART && k != h ==> r.harts[k] == UnsetRegion(s.harts[k], g))
            && r.harts[h] == SetRegion(SetRegion(s.harts[h], g, ALL_RW), g, NO_PERM)
  {
  }

  lemma DestroyKeepsTables(s: System, h: nat, eid: nat)
    requires TablesInv(s) && 1 <= h < N_HART && Destroyable(s, eid)
    ensures eid == 0 && Live(s.enclaves[0])
    ensures TablesInv(DestroyEnclave(s, h, eid).0) && !Live(DestroyEnclave(s, h, eid).0.enclaves[0])
  {
    assert EnclaveOk(s.enclaves[eid]);
    DestroyFields(s, h, eid);
    FreeBoth(s.table, s.enclaves[0].params);
    Destroyed(s, DestroyEnclave(s, h, eid).0);
  }

  lemma Destroyed(s: System, r: System)
    requires TablesInv(s) && Shaped(r) && IdleTable(r.table) && r.cpus == s.cpus
    requires r.enclaves == s.enclaves[0 := Emptied(s.enclaves[0])]
    ensures TablesInv(r)
  {
    assert EnclaveOk(s.enclaves[0]);
    assert EnclaveOk(r.enclaves[0]);
  }

  // ---------- entering and leaving: the cases that change something ----------

  /** Does the call enter the enclave? */
  predicate Enters(s: System, h: nat, call: Call)
    requires Shaped(s) && h < N_HART
  {
    && !s.cpus[h].isEnclave
    && ((call == Run(0) && s.enclaves[0].state == Fresh) || (call == Resume(0) && s.enclaves[0].state == Stopped))
  }

  /** Does the call switch the hart back to the host? */
  predicate Leaves(s: System, h: nat, call: Call)
    requires Shaped(s) && h < N_HART
  {
    && s.enclaves[0].state == Running
    && if call.Interrupt? then s.executing[h] else EnclaveCall(call) && s.cpus[h].isEnclave
  }

  /** Does the call repair the enclave's permissions? */
  predicate Fixes(s: System, h: nat, call: Call)
    requires Shaped(s) && h < N_HART
  {
    call.FirmwareReturn? && s.executing[h]
  }

  /** Does the call get past the gate as a create, or destroy an enclave? */
  predicate Creates(s: System, h: nat, call: Call)
    requires Shaped(s) && h < N_HART
  {
    call.Create? && !s.cpus[h].isEnclave
  }

  predicate Destroys(s: System, h: nat, call: Call)
    requires Shaped(s) && h < N_HART
  {
    call.Destroy? && !s.cpus[h].isEnclave && Destroyable(s, call.eid)
  }

  lemma EntersEffect(s: System, h: nat, call: Call)
    requires TablesInv(s) && 1 <= h < N_HART && Enters(s, h, call)
    ensures Step(s, h, call) == (TrapExit(SwitchToEnclave(WithState(s, 0, Running, 1), h, 0), h, true), SUCCESS)
  {
    assert EnclaveOk(s.enclaves[0]);
  }

  lemma LeavesEffect(s: System, h: nat, call: Call)
    requires TablesInv(s) && 1 <= h < N_HART && Leaves(s, h, call)
    ensures Step(s, h, call).0 == TrapExit(SwitchToHost(WithState(s, 0, Stopped, 0), h, 0), h, false)
    ensures Step(s, h, call).1 != ERR_NOT_RUNNING
  {
    assert EnclaveOk(s.enclaves[0]);
    LeaveEffect(s, h, 0);
  }

  /** A call that neither enters, leaves, creates nor destroys, and is no return, changes one flag at most. */
  lemma OtherCalls(s: System, h: nat, call: Call)
    requires TablesInv(s) && 1 <= h < N_HART
    requires !Enters(s, h, call) && !Leaves(s, h, call) && !call.FirmwareReturn?
    requires !Creates(s, h, call) && !Destroys(s, h, call)
    ensures var r := Step(s, h, call).0;
            r == s.(executing := r.executing)
  {
    forall i | 0 <= i < ENCL_MAX ensures EnclaveOk(s.enclaves[i]) && (i == 0 || s.enclaves[i].state == Invalid) { }
  }

  /** Every call keeps the tables in order. */
  lemma StepKeepsTables(s: System, h: nat, call: Call)
    requires TablesInv(s) && 1 <= h < N_HART
    ensures TablesInv(Step(s, h, call).0)
  {
    var r := Step(s, h, call).0;
    if Enters(s, h, call) {
      EntersEffect(s, h, call);
      StateChanged(s, r, Running, h, Cpu(true, 0));
    } else if Leaves(s, h, call) {
      LeavesEffect(s, h, call);
      StateChanged(s, r, Stopped, h, s.cpus[h].(isEnclave := false));
    } else if Creates(s, h, call) {
      CreateKeepsTables(s, h, call.args, call.env);
    } else if Destroys(s, h, call) {
      DestroyKeepsTables(s, h, call.eid);
    } else {
      if !call.FirmwareReturn? { OtherCalls(s, h, call); }
      SameTables(s, r);
    }
  }
}
