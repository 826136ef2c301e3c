/**
 enclave.c as an object: the enclave table, the region table and every hart's registers are
 updated in place, failures of a create unwind step by step, and each method is tied to the
 function of Enclaves that states the net effect of the call.
 */
module Monitor {
  import opened Bits
  import opened PmpHardware
  import opened PmpRegions
  import opened PmpEncoding
  import opened RegionTableObject
  import opened PmpWord
  import opened Boot
  import opened Enclaves
  import opened LifecycleSteps
  import opened HartSteps

  // ---------- unwinding the region table ----------

  /** What an accepted request adds to the table. */
  lemma InitAdds(t: Table, start: U64, size: U64, pri: Priority, allow: bool)
    requires TableInv(t) && RegionInit(t, start, size, pri, allow).1.Ok?
    ensures var (u, res) := RegionInit(t, start, size, pri, allow);
            && res.rid < N_REGION && |u.regions| == N_REGION && !Defined(t, res.rid)
            && u.regions == t.regions[res.rid := u.regions[res.rid]]
            && (forall i: nat :: Bit(u.defBitmap, i) <==> Bit(t.defBitmap, i) || i == res.rid)
            && (forall r: nat :: Used(u, r) <==> Used(t, r) || Owns(u.regions[res.rid], r))
            && (pri == PriAny ==> forall r: nat :: Owns(u.regions[res.rid], r) ==> !Used(t, r))
            && (pri == PriBottom ==> forall r: nat :: Owns(u.regions[res.rid], r) <==> r == BOTTOM_REG)
  {
    var rid := FirstFree(t.defBitmap, N_REGION, 1, 0);
    var w := RegistersNeeded(start, size);
    var free := FirstFree(t.regBitmap, N_REG, w, 0);
    var mode := if TakesNapot(start, size) then A_NAPOT else A_TOR;
    var reg := match pri case PriAny => free case PriTop => 0 case PriBottom => BOTTOM_REG;
    InstallEffect(t, rid, start, size, mode, allow, reg);
    assert FreeRun(t.defBitmap, rid, 1) && (pri == PriAny ==> FreeRun(t.regBitmap, reg, w));
  }

  lemma SameTables(t: Table, u: Table)
    requires t.regions == u.regions
    requires forall i: nat :: Bit(t.defBitmap, i) <==> Bit(u.defBitmap, i)
    requires forall r: nat :: Used(t, r) <==> Used(u, r)
    ensures t == u
  {
    SameBits(t.defBitmap, u.defBitmap);
    forall r: nat ensures Bit(t.regBitmap, r) <==> Bit(u.regBitmap, r) {
      assert Used(t, r) <==> Used(u, r);
    }
    SameBits(t.regBitmap, u.regBitmap);
  }

  /** Freeing a region that took any register undoes its initialisation completely. */
  lemma InitThenFree(t: Table, start: U64, size: U64, allow: bool)
    requires TableInv(t) && RegionInit(t, start, size, PriAny, allow).1.Ok?
    ensures var (u, res) := RegionInit(t, start, size, PriAny, allow);
            |u.regions| == N_REGION && RegionFree(u, res.rid) == t
  {
    var (u, res) := RegionInit(t, start, size, PriAny, allow);
    InitAdds(t, start, size, PriAny, allow);
    InitKeepsInv(t, start, size, PriAny, allow);
    FreeEffect(u, res.rid);
    SameTables(RegionFree(u, res.rid), t);
  }

  /** Freeing both regions of a create loses nothing but the bottom register's bit. */
  lemma ReserveThenFree(t: Table, a: CreateArgs)
    requires TableInv(t) && Reserve(t, a).Reserved?
    ensures var r := Reserve(t, a);
            RegionFree(RegionFree(r.table, r.utm), r.epm) == DropBottom(t)
  {
    var (t1, epm) := RegionInit(t, a.epmAddr, a.epmSize, PriAny, false);
    InitAdds(t, a.epmAddr, a.epmSize, PriAny, false);
    InitKeepsInv(t, a.epmAddr, a.epmSize, PriAny, false);
    var (t2, utm) := RegionInit(t1, a.utmAddr, a.utmSize, PriBottom, false);
    InitAdds(t1, a.utmAddr, a.utmSize, PriBottom, false);
    InitKeepsInv(t1, a.utmAddr, a.utmSize, PriBottom, false);
    FreeEffect(t2, utm.rid);
    FreeKeepsInv(t2, utm.rid);
    var t3 := RegionFree(t2, utm.rid);
    assert Defined(t3, epm.rid) && t3.regions[epm.rid] == t1.regions[epm.rid];
    FreeEffect(t3, epm.rid);
    DropBottomBits(t);
    SameTables(RegionFree(t3, epm.rid), DropBottom(t));
  }

  lemma ReserveDefinesEpm(t: Table, a: CreateArgs)
    requires TableInv(t) && Reserve(t, a).Reserved?
    ensures Defined(Reserve(t, a).table, Reserve(t, a).epm)
  {
    var (t1, epm) := RegionInit(t, a.epmAddr, a.epmSize, PriAny, false);
    InitAdds(t, a.epmAddr, a.epmSize, PriAny, false);
    InitKeepsOthers(t1, a.utmAddr, a.utmSize, PriBottom, false, epm.rid);
  }

  lemma DropBottomBits(t: Table)
    requires forall r: nat :: Used(t, r) ==> r < N_REG
    ensures forall r: nat :: Used(DropBottom(t), r) <==> Used(t, r) && r != BOTTOM_REG
    ensures DropBottom(t).defBitmap == t.defBitmap && DropBottom(t).regions == t.regions
  {
    forall r: nat | Bit(t.regBitmap, r) ensures r < N_REG { assert Used(t, r); }
    UnsetBitEffect(t.regBitmap, BOTTOM_REG);
  }

  /** The clearing loop of a destroy does not look at the enclave table. */
  lemma {:induction false} ClearEachElsewhere(s: System, u: System, h: nat, regions: seq<EnclaveRegion>, i: nat)
    requires Shaped(s) && Shaped(u) && h < N_HART && i <= |regions|
    requires u == s.(enclaves := u.enclaves)
    ensures ClearEach(u, h, regions, i) == ClearEach(s, h, regions, i).(enclaves := u.enclaves)
    decreases |regions| - i
  {
    if i < |regions| {
      if regions[i].kind == NoRegion || regions[i].kind == Utm {
        ClearEachElsewhere(s, u, h, regions, i + 1);
      } else {
        ClearEachElsewhere(ClearRegion(s, h, regions[i].rid), ClearRegion(u, h, regions[i].rid), h, regions, i + 1);
      }
    }
  }

  lemma QuietedTwice(executing: seq<bool>, h: nat)
    requires |executing| == N_HART
    ensures Quieted(Quieted(executing, h), h) == Quieted(executing, h)
  {
  }

  lemma WrittenTwice<T>(s: seq<T>, i: nat, x: T, y: T)
    requires i < |s|
    ensures s[i := x][i := y] == s[i := y]
  {
  }

  /** Metadata written to an allocated slot, and its state set last. */
  lemma SlotRewritten(enclaves: seq<Enclave>, eid: nat, a: CreateArgs, epm: nat, utm: nat, state: Status)
    requires eid < |enclaves| && |enclaves[eid].regions| == REGIONS_MAX
    ensures var e1 := enclaves[eid := enclaves[eid].(state := Allocated)];
            var e2 := e1[eid := NewEnclave(e1[eid], a, epm, utm, e1[eid].state)];
            e2[eid := e2[eid].(state := state)] == enclaves[eid := NewEnclave(enclaves[eid], a, epm, utm, state)]
  {
  }

  /** The slot of a destroyed enclave; its state was DESTROYING on the way. */
  lemma SlotEmptied(enclaves: seq<Enclave>, eid: nat)
    requires eid < |enclaves|
    ensures var e1 := enclaves[eid := enclaves[eid].(state := Destroying)];
            e1[eid := Emptied(e1[eid])] == enclaves[eid := Emptied(enclaves[eid])]
  {
    assert Emptied(enclaves[eid].(state := Destroying)).regions == Emptied(enclaves[eid]).regions;
  }

  /** The six region initialisations of `sm_init`. */
  method BootRegions(t: RegionTable)
    requires t.Valid() && t.View() == EMPTY
    modifies t
    ensures t.Valid() && t.View() == BootTable()
  {
    EmptyInv();
    for n := 0 to |BOOT_CALLS|
      invariant t.Valid() && t.View() == After(EMPTY, BOOT_CALLS[..n])
    {
      assert BOOT_CALLS[..n + 1][..n] == BOOT_CALLS[..n];
      var call := BOOT_CALLS[n];
      var _ := t.InitRegion(call.start, call.size, call.pri, call.allow);
    }
    assert BOOT_CALLS[..|BOOT_CALLS|] == BOOT_CALLS;
  }

  // ---------- the monitor ----------

  class SecurityMonitor {
    const table: RegionTable
    var harts: seq<Csrs>
    var enclaves: seq<Enclave>
    var cpus: seq<Cpu>
    /** `mon_enclave_execution` */
    var executing: seq<bool>
    var mem: map<nat, Byte>

    ghost function View(): System
      reads this, table
    {
      System(table.View(), harts, enclaves, cpus, executing, mem)
    }

    ghost predicate Valid()
      reads this, table
    {
      table.Valid() && Shaped(View())
    }

    /** `sm_init` on every hart, six regions and then the same register writes, and the first return of the firmware. */
    constructor (before: seq<Csrs>, memory: map<nat, Byte>)
      requires AllValid(before)
      ensures Valid() && fresh(table) && View() == BootSystem(before, memory)
    {
      var t := new RegionTable();
      table := t;
      harts, enclaves, cpus, mem := BootHarts(before), NoEnclaves(), NoContexts(), memory;
      executing := NotExecuting();
      new;
      BootRegions(t);
    }

    /** `pmp_set_keystone` on hart `h` */
    method SetKeystone(h: nat, rid: nat, perm: Byte)
      requires Valid() && h < N_HART
      modifies this`harts
      ensures Valid() && harts == old(harts)[h := PmpSet(table.View(), old(harts)[h], rid, perm)]
    {
      var valid := table.IsRegionValid(rid);
      if valid {
        harts := harts[h := SetRegion(harts[h], table.regions[rid], perm)];
      }
    }

    /** `osm_pmp_set` on hart `h` */
    method OsPmpSet(h: nat, perm: Byte)
      requires Valid() && h < N_HART
      modifies this`harts
      ensures Valid() && harts == old(harts)[h := OsSet(table.View(), old(harts)[h], perm)]
    {
      SetKeystone(h, OS_RID, perm);
    }

    /**
     `pmp_set_global`: the sender skips itself, and hart 0 is not addressed. If a hart's execution flag is up, the
     interrupt goes the enclave's way first and lowers it.
     */
    method SetGlobal(h: nat, rid: nat, perm: Byte)
      requires Valid() && h < N_HART && Defined(table.View(), rid)
      modifies this`harts, this`executing
      ensures Valid() && harts == SetOthers(old(harts), h, table.regions[rid], perm)
      ensures executing == Quieted(old(executing), h)
    {
      for i := 1 to N_HART
        invariant Valid()
        invariant forall j :: 0 <= j < N_HART ==>
                    harts[j] == if 1 <= j < i && j != h then SetRegion(old(harts)[j], table.regions[rid], perm)
                        else old(harts)[j]
        invariant forall j :: 0 <= j < N_HART ==> executing[j] == (old(executing)[j] && !(1 <= j < i && j != h))
      {
        if i != h {
          SbiTrapExit(i, false);
          SetKeystone(i, rid, perm);
        }
      }
    }

    /** `pmp_unset_global` */
    method UnsetGlobal(h: nat, rid: nat)
      requires Valid() && h < N_HART && Defined(table.View(), rid)
      modifies this`harts, this`executing
      ensures Valid() && harts == UnsetOthers(old(harts), h, table.regions[rid])
      ensures executing == Quieted(old(executing), h)
    {
      for i := 1 to N_HART
        invariant Valid()
        invariant forall j :: 0 <= j < N_HART ==>
                    harts[j] == if 1 <= j < i && j != h then UnsetRegion(old(harts)[j], table.regions[rid])
                        else old(harts)[j]
        invariant forall j :: 0 <= j < N_HART ==> executing[j] == (old(executing)[j] && !(1 <= j < i && j != h))
      {
        if i != h {
          SbiTrapExit(i, false);
          harts := harts[i := UnsetRegion(harts[i], table.regions[rid])];
        }
      }
    }

    /** The loops over `enclaves[eid].regions` in the context switches. */
    method SetRegions(h: nat, eid: nat, perm: Byte)
      requires Valid() && h < N_HART && eid < ENCL_MAX
      modifies this`harts
      ensures Valid()
      ensures harts == old(harts)[h := SetEach(table.View(), old(harts)[h], enclaves[eid].regions, perm, 0)]
    {
      var memid := 0;
      while memid < REGIONS_MAX
        invariant Valid() && memid <= REGIONS_MAX
        invariant harts == old(harts)[h := harts[h]]
        invariant SetEach(table.View(), harts[h], enclaves[eid].regions, perm, memid)
                  == SetEach(table.View(), old(harts)[h], enclaves[eid].regions, perm, 0)
      {
        if enclaves[eid].regions[memid].kind != NoRegion {
          SetKeystone(h, enclaves[eid].regions[memid].rid, perm);
        }
        memid := memid + 1;
      }
    }

    /** PMP and context flag of `context_switch_to_enclave` */
    method ContextSwitchToEnclave(h: nat, eid: nat)
      requires Valid() && h < N_HART && eid < ENCL_MAX
      modifies this`harts, this`cpus
      ensures Valid() && View() == SwitchToEnclave(old(View()), h, eid)
    {
      OsPmpSet(h, NO_PERM);
      SetRegions(h, eid, SU_RWX);
      cpus := cpus[h := Cpu(true, eid)];
    }

    /** PMP and context flag of `context_switch_to_host` */
    method ContextSwitchToHost(h: nat, eid: nat)
      requires Valid() && h < N_HART && eid < ENCL_MAX
      modifies this`harts, this`cpus
      ensures Valid() && View() == SwitchToHost(old(View()), h, eid)
    {
      SetRegions(h, eid, NO_PERM);
      OsPmpSet(h, SU_RWX);
      cpus := cpus[h := cpus[h].(isEnclave := false)];
    }

    /** `run_enclave` */
    method Run(h: nat, eid: nat) returns (ret: nat)
      requires Valid() && h < N_HART
      modifies this
      ensures Valid() && (View(), ret) == RunEnclave(old(View()), h, eid)
    {
      var runable := eid < ENCL_MAX && enclaves[eid].state == Fresh;
      if !runable {
        return ERR_NOT_FRESH;
      }
      enclaves := enclaves[eid := enclaves[eid].(state := Running, nThread := enclaves[eid].nThread + 1)];
      ContextSwitchToEnclave(h, eid);
      return SUCCESS;
    }

    /** `resume_enclave` */
    method Resume(h: nat, eid: nat) returns (ret: nat)
      requires Valid() && h < N_HART
      modifies this
      ensures Valid() && (View(), ret) == ResumeEnclave(old(View()), h, eid)
    {
      var resumable := eid < ENCL_MAX
        && (enclaves[eid].state == Running || enclaves[eid].state == Stopped)
        && enclaves[eid].nThread < MAX_ENCL_THREADS;
      if !resumable {
        return ERR_NOT_RESUMABLE;
      }
      enclaves := enclaves[eid := enclaves[eid].(state := Running, nThread := enclaves[eid].nThread + 1)];
      ContextSwitchToEnclave(h, eid);
      return SUCCESS;
    }

    /** The bookkeeping under the lock that `stop_enclave` and `exit_enclave` share. */
    method DropThread(eid: nat)
      requires Valid() && eid < ENCL_MAX
      modifies this`enclaves
      ensures Valid()
      ensures var e := old(enclaves)[eid];
              var n := (e.nThread + 0xffff_ffff) % 0x1_0000_0000;
              enclaves == old(enclaves)[eid := e.(state := if n == 0 then Stopped else e.state, nThread := n)]
    {
      var n := (enclaves[eid].nThread + 0xffff_ffff) % 0x1_0000_0000;
      enclaves := enclaves[eid := enclaves[eid].(nThread := n)];
      if n == 0 {
        WrittenTwice(old(enclaves), eid, enclaves[eid], enclaves[eid].(state := Stopped));
        enclaves := enclaves[eid := enclaves[eid].(state := Stopped)];
      }
    }

    method Leave(h: nat, eid: nat)
      requires Valid() && h < N_HART && eid < ENCL_MAX
      modifies this
      ensures Valid() && View() == LeaveEnclave(old(View()), h, eid)
    {
      DropThread(eid);
      ContextSwitchToHost(h, eid);
    }

    /** `stop_enclave` for the eid the hart remembers */
    method Stop(h: nat, request: nat) returns (ret: nat)
      requires Valid() && h < N_HART && cpus[h].eid < ENCL_MAX
      modifies this
      ensures Valid() && (View(), ret) == StopEnclave(old(View()), h, request)
    {
      var eid := cpus[h].eid;
      if enclaves[eid].state != Running {
        return ERR_NOT_RUNNING;
      }
      Leave(h, eid);
      match request {
        case 0 => return ERR_INTERRUPTED;
        case 1 => return ERR_EDGE_CALL_HOST;
        case 3 => return ERR_EDGE_CALL_HOST;
        case _ => return ERR_UNKNOWN;
      }
    }

    /** `exit_enclave` for the eid the hart remembers */
    method Exit(h: nat) returns (ret: nat)
      requires Valid() && h < N_HART && cpus[h].eid < ENCL_MAX
      modifies this
      ensures Valid() && (View(), ret) == ExitEnclave(old(View()), h)
    {
      var eid := cpus[h].eid;
      if enclaves[eid].state != Running {
        return ERR_NOT_RUNNING;
      }
      Leave(h, eid);
      return SUCCESS;
    }

    /** `encl_alloc_eid`: takes the lowest INVALID slot, or returns ENCL_MAX. */
    method AllocEid() returns (eid: nat)
      requires Valid()
      modifies this`enclaves
      ensures Valid() && eid == FreeEid(old(enclaves), 0)
      ensures eid == ENCL_MAX ==> enclaves == old(enclaves)
      ensures eid < ENCL_MAX ==> enclaves == old(enclaves)[eid := old(enclaves)[eid].(state := Allocated)]
    {
      eid := 0;
      while eid < ENCL_MAX && enclaves[eid].state != Invalid
        invariant eid <= ENCL_MAX && FreeEid(enclaves, eid) == FreeEid(enclaves, 0)
      {
        eid := eid + 1;
      }
      if eid != ENCL_MAX {
        enclaves := enclaves[eid := enclaves[eid].(state := Allocated)];
      }
    }

    /** `encl_free_eid` */
    method FreeEidSlot(eid: nat)
      requires Valid() && eid < ENCL_MAX
      modifies this`enclaves
      ensures Valid() && enclaves == old(enclaves)[eid := old(enclaves)[eid].(state := Invalid)]
    {
      enclaves := enclaves[eid := enclaves[eid].(state := Invalid)];
    }

    /** The part of `create_enclave` between reserving the regions and the platform hook. */
    method Prepare(h: nat, a: CreateArgs, eid: nat, epm: nat, utm: nat)
      requires Valid() && h < N_HART && eid < ENCL_MAX && Defined(table.View(), epm)
      modifies this
      ensures Valid() && cpus == old(cpus) && executing == Quieted(old(executing), h)
      ensures mem == Zeroed(old(mem), a.utmAddr, a.utmSize)
      ensures var told := SetOthers(old(harts), h, table.regions[epm], NO_PERM);
              harts == told[h := OsUnlockLock(table.View(), told[h])]
      ensures enclaves == old(enclaves)[eid := NewEnclave(old(enclaves)[eid], a, epm, utm, old(enclaves)[eid].state)]
    {
      SetGlobal(h, epm, NO_PERM);
      OsPmpSet(h, ALL_RW);
      mem := Zeroed(mem, a.utmAddr, a.utmSize);
      OsPmpSet(h, SU_RWX);
      var e := enclaves[eid];
      e := e.(regions := e.regions[0 := EnclaveRegion(epm, Epm)]);
      e := e.(regions := e.regions[1 := EnclaveRegion(utm, Utm)]);
      e := e.(nThread := 0);
      e := e.(params := Params(a.epmAddr, a.epmSize, a.runtime, a.user, a.free, a.utmAddr, a.utmSize));
      enclaves := enclaves[eid := e];
    }

    /** The `unset_region` label and everything below it. */
    method Unwind(h: nat, eid: nat, epm: nat, utm: nat)
      requires Valid() && h < N_HART && eid < ENCL_MAX && Defined(table.View(), epm)
      modifies this, table
      ensures Valid() && cpus == old(cpus) && executing == Quieted(old(executing), h) && mem == old(mem)
      ensures table.View() == RegionFree(RegionFree(old(table.View()), utm), epm)
      ensures harts == UnsetOthers(old(harts), h, old(table.regions)[epm])
      ensures enclaves == old(enclaves)[eid := old(enclaves)[eid].(state := Invalid)]
    {
      UnsetGlobal(h, epm);
      var _ := table.FreeRegion(utm);
      var _ := table.FreeRegion(epm);
      FreeEidSlot(eid);
    }

    /** The second `pmp_region_init_atomic` call of a create, and the `free_region` label. */
    method ReserveShared(a: CreateArgs, epm: nat, ghost t: Table) returns (r: Reserved)
      requires table.Valid() && RegionFree(table.View(), epm) == t && epm < N_REGION
      modifies table
      ensures table.Valid()
      ensures var (t2, utm) := RegionInit(old(table.View()), a.utmAddr, a.utmSize, PriBottom, false);
              if utm.Err? then r == NotReserved && table.View() == t
              else r == Reserved(t2, epm, utm.rid) && table.View() == t2
    {
      var utm := table.InitRegion(a.utmAddr, a.utmSize, PriBottom, false);
      if utm.Err? {
        var _ := table.FreeRegion(epm);
        return NotReserved;
      }
      return Reserved(table.View(), epm, utm.rid);
    }

    /** Both `pmp_region_init_atomic` calls of a create. */
    method ReserveRegions(a: CreateArgs) returns (r: Reserved)
      requires table.Valid()
      modifies table
      ensures table.Valid() && r == Reserve(old(table.View()), a)
      ensures table.View() == if r.Reserved? then r.table else old(table.View())
      ensures r.Reserved? ==> Defined(r.table, r.epm)
    {
      ghost var t := table.View();
      var epm := table.InitRegion(a.epmAddr, a.epmSize, PriAny, false);
      if epm.Err? {
        return NotReserved;
      }
      InitThenFree(t, a.epmAddr, a.epmSize, false);
      r := ReserveShared(a, epm.rid, t);
      if r.Reserved? { ReserveDefinesEpm(t, a); }
    }

    /** The permission changes around `validate_and_hash_enclave`. */
    method Measure(h: nat, epm: nat)
      requires Valid() && h < N_HART
      modifies this`harts
      ensures Valid() && harts == old(harts)[h := OpenCloseRegion(table.View(), old(harts)[h], epm)]
    {
      SetKeystone(h, epm, ALL_RW);
      OsPmpSet(h, ALL_RW);
      SetKeystone(h, epm, NO_PERM);
      OsPmpSet(h, SU_RWX);
    }

    /** `create_enclave` once both regions are reserved; `s` is the monitor before the call. */
    method CreateReserved(ghost s: System, h: nat, a: CreateArgs, env: CreateEnv, eid: nat, r: Reserved)
      returns (ret: nat)
      requires Valid() && Shaped(s) && TableInv(s.table) && h < N_HART && eid < ENCL_MAX
      requires s.enclaves[eid].state == Invalid
      requires r.Reserved? && r == Reserve(s.table, a) && Defined(r.table, r.epm)
      requires View() == System(r.table, s.harts, s.enclaves[eid := s.enclaves[eid].(state := Allocated)],
                                s.cpus, s.executing, s.mem)
      modifies this, table
      ensures Valid() && (View(), ret) == CreateWith(s, h, a, env, eid, r)
    {
      ReserveThenFree(s.table, a);
      QuietedTwice(s.executing, h);
      Prepare(h, a, eid, r.epm, r.utm);
      ghost var told := SetOthers(s.harts, h, r.table.regions[r.epm], NO_PERM);
      ret := env.platformRet;
      if ret == 0 {
        Measure(h, r.epm);
        ret := env.hashRet;
      }
      WrittenTwice(told, h, OsUnlockLock(r.table, told[h]), harts[h]);
      if ret == 0 {
        enclaves := enclaves[eid := enclaves[eid].(state := Fresh)];
      } else {
        Unwind(h, eid, r.epm, r.utm);
      }
      SlotRewritten(s.enclaves, eid, a, r.epm, r.utm, if ret == 0 then Fresh else Invalid);
    }

    /** `create_enclave`, with the answers of the platform hook and of the hashing in `env` */
    method Create(h: nat, a: CreateArgs, env: CreateEnv) returns (ret: nat)
      requires Valid() && h < N_HART
      modifies this, table
      ensures Valid() && (View(), ret) == CreateEnclave(old(View()), h, a, env)
    {
      if !ArgsValid(a) {
        return ERR_ILLEGAL_ARGUMENT;
      }
      var eid := AllocEid();
      if eid == ENCL_MAX {
        return ERR_NO_FREE_RESOURCE;
      }
      var r := ReserveRegions(a);
      if r.NotReserved? {
        FreeEidSlot(eid);
        assert enclaves == old(enclaves);
        return ERR_PMP_FAILURE;
      }
      ret := CreateReserved(old(View()), h, a, env, eid, r);
    }

    /** One round of the clearing loop of `destroy_enclave` */
    method Clear(h: nat, rid: nat)
      requires Valid() && h < N_HART
      modifies this`harts, this`executing, this`mem, table
      ensures Valid() && View() == ClearRegion(old(View()), h, rid)
    {
      var valid := table.IsRegionValid(rid);
      if !valid {
        return;
      }
      OpenZeroClose(h, rid);
      UnsetGlobal(h, rid);
      var _ := table.FreeRegion(rid);
    }

    /** Hart `h` opens the region to itself, zeroes it and closes it. */
    method OpenZeroClose(h: nat, rid: nat)
      requires Valid() && h < N_HART && Defined(table.View(), rid)
      modifies this`harts, this`mem
      ensures Valid() && mem == Zeroed(old(mem), table.regions[rid].addr, table.regions[rid].size)
      ensures var t := table.View();
              harts == old(harts)[h := PmpSet(t, PmpSet(t, old(harts)[h], rid, ALL_RW), rid, NO_PERM)]
    {
      var base, size := table.regions[rid].addr, table.regions[rid].size;
      SetKeystone(h, rid, ALL_RW);
      mem := Zeroed(mem, base, size);
      SetKeystone(h, rid, NO_PERM);
    }

    /** The clearing loop of `destroy_enclave` */
    method ClearRegions(h: nat, eid: nat)
      requires Valid() && h < N_HART && eid < ENCL_MAX
      modifies this`harts, this`executing, this`mem, table
      ensures Valid() && View() == ClearEach(old(View()), h, enclaves[eid].regions, 0)
    {
      for i := 0 to REGIONS_MAX
        invariant Valid()
        invariant ClearEach(View(), h, enclaves[eid].regions, i) == ClearEach(old(View()), h, enclaves[eid].regions, 0)
      {
        if enclaves[eid].regions[i].kind == NoRegion || enclaves[eid].regions[i].kind == Utm {
          continue;
        }
        Clear(h, enclaves[eid].regions[i].rid);
      }
    }

    /** `get_enclave_region_index` for the shared region: -1 if there is none */
    method SharedIndex(eid: nat) returns (index: int)
      requires Valid() && eid < ENCL_MAX
      ensures var u := UtmIndex(enclaves[eid].regions, 0);
              index == if u < REGIONS_MAX then u else -1
    {
      for i := 0 to REGIONS_MAX
        invariant UtmIndex(enclaves[eid].regions, i) == UtmIndex(enclaves[eid].regions, 0)
      {
        if enclaves[eid].regions[i].kind == Utm {
          return i;
        }
      }
      return -1;
    }

    /** The shared region is freed if there is one. */
    method FreeShared(eid: nat)
      requires Valid() && eid < ENCL_MAX
      modifies table
      ensures Valid()
      ensures var regions := enclaves[eid].regions;
              var u := UtmIndex(regions, 0);
              table.View() == if u < |regions| then RegionFree(old(table.View()), regions[u].rid) else old(table.View())
    {
      var index := SharedIndex(eid);
      if index != -1 {
        var _ := table.FreeRegion(enclaves[eid].regions[index].rid);
      }
    }

    /** The end of `destroy_enclave`: the slot's metadata is reset and the eid released. */
    method EmptySlot(eid: nat)
      requires Valid() && eid < ENCL_MAX
      modifies this`enclaves
      ensures Valid() && enclaves == old(enclaves)[eid := Emptied(old(enclaves)[eid])]
    {
      var e := enclaves[eid].(nThread := 0, params := Params(0, 0, 0, 0, 0, 0, 0));
      for i := 0 to REGIONS_MAX
        invariant e == old(enclaves)[eid].(nThread := 0, params := Params(0, 0, 0, 0, 0, 0, 0), regions := e.regions)
        invariant |e.regions| == REGIONS_MAX
        invariant forall j :: 0 <= j < REGIONS_MAX ==>
                    e.regions[j] == if j < i then old(enclaves)[eid].regions[j].(kind := NoRegion)
                        else old(enclaves)[eid].regions[j]
      {
        e := e.(regions := e.regions[i := e.regions[i].(kind := NoRegion)]);
      }
      enclaves := enclaves[eid := e];
      FreeEidSlot(eid);
      assert e.regions == Emptied(old(enclaves)[eid]).regions;
    }

    /** `destroy_enclave` */
    method Destroy(h: nat, eid: nat) returns (ret: nat)
      requires Valid() && h < N_HART
      modifies this, table
      ensures Valid() && (View(), ret) == DestroyEnclave(old(View()), h, eid)
    {
      var destroyable := eid < ENCL_MAX && enclaves[eid].state != Invalid && enclaves[eid].state != Running;
      if !destroyable {
        return ERR_NOT_DESTROYABLE;
      }
      enclaves := enclaves[eid := enclaves[eid].(state := Destroying)];
      SlotEmptied(old(enclaves), eid);
      ClearEachElsewhere(old(View()), View(), h, enclaves[eid].regions, 0);
      ClearRegions(h, eid);
      FreeShared(eid);
      EmptySlot(eid);
      OsPmpSet(h, SU_RWX);
      return SUCCESS;
    }

    /** `sbi_sm_create_enclave`: `env` also says whether copying the arguments in fails. */
    method SbiCreateEnclave(h: nat, a: CreateArgs, env: CreateEnv) returns (ret: nat)
      requires Valid() && h < N_HART
      modifies this, table
      ensures Valid() && (View(), ret) == SbiCreate(old(View()), h, a, env)
    {
      OsPmpSet(h, ALL_RW);
      OsPmpSet(h, SU_RWX);
      ghost var unlocked := OsUnlockLock(old(table.View()), old(harts)[h]);
      WrittenTwice(old(harts), h, OsSet(old(table.View()), old(harts)[h], ALL_RW), unlocked);
      if env.copyFails {
        return ERR_REGION_OVERLAPS;
      }
      ret := Create(h, a, env);
      OsPmpSet(h, SU_RWX);
    }

    /** `enclave_fix_access_permissions` for the eid the hart remembers */
    method FixAccessPermissions(h: nat)
      requires Valid() && h < N_HART && cpus[h].eid < ENCL_MAX
      modifies this`harts
      ensures Valid() && View() == FixPermissions(old(View()), h).0
    {
      OsPmpSet(h, NO_PERM);
      SetRegions(h, cpus[h].eid, SU_RWX);
    }

    /** `sbi_trap_exit`: the target decides how the hart's next trap is routed */
    method SbiTrapExit(h: nat, enclave: bool)
      requires Valid() && h < N_HART
      modifies this`executing
      ensures Valid() && View() == TrapExit(old(View()), h, enclave)
    {
      executing := executing[h := enclave];
    }

    /** `sbi_sm_run_enclave` */
    method SbiRunEnclave(h: nat, eid: nat) returns (ret: nat)
      requires Valid() && h < N_HART
      modifies this
      ensures Valid() && (View(), ret) == SbiRun(old(View()), h, eid)
    {
      ret := Run(h, eid);
      SbiTrapExit(h, true);
    }

    /** `sbi_sm_resume_enclave` */
    method SbiResumeEnclave(h: nat, eid: nat) returns (ret: nat)
      requires Valid() && h < N_HART
      modifies this
      ensures Valid() && (View(), ret) == SbiResume(old(View()), h, eid)
    {
      ret := Resume(h, eid);
      SbiTrapExit(h, true);
    }

    /** `sbi_sm_exit_enclave` */
    method SbiExitEnclave(h: nat) returns (ret: nat)
      requires Valid() && h < N_HART && cpus[h].eid < ENCL_MAX
      modifies this
      ensures Valid() && (View(), ret) == SbiExit(old(View()), h)
    {
      ret := Exit(h);
      SbiTrapExit(h, false);
    }

    /** `sbi_sm_stop_enclave` */
    method SbiStopEnclave(h: nat, request: nat) returns (ret: nat)
      requires Valid() && h < N_HART && cpus[h].eid < ENCL_MAX
      modifies this
      ensures Valid() && (View(), ret) == SbiStop(old(View()), h, request)
    {
      ret := Stop(h, request);
      SbiTrapExit(h, false);
    }

    /** A timer or software interrupt in `mon_trap_handler_sumode`: the enclave is stopped if the flag is up */
    method HandleInterrupt(h: nat) returns (ret: nat)
      requires Valid() && h < N_HART && cpus[h].eid < ENCL_MAX
      modifies this
      ensures Valid() && (View(), ret) == Step(old(View()), h, Interrupt)
    {
      ret := SUCCESS;
      if executing[h] {
        ret := SbiStopEnclave(h, STOP_TIMER_INTERRUPT);
      }
    }

    /** `_mon_enter_osbi`: pmpcfg0 is overwritten on every return from the firmware */
    method EnterFromFirmware(h: nat)
      requires Valid() && h < N_HART
      modifies this`harts
      ensures Valid() && View() == Relock(old(View()), h)
    {
      harts := harts[h := Locked(harts[h])];
    }

    /** and `mon_trap_return_osbi`: the enclave's permissions are repaired if the flag is up */
    method HandleFirmwareReturn(h: nat)
      requires Valid() && h < N_HART && cpus[h].eid < ENCL_MAX
      modifies this`harts
      ensures Valid() && View() == Step(old(View()), h, FirmwareReturn).0
    {
      EnterFromFirmware(h);
      if executing[h] {
        FixAccessPermissions(h);
      }
    }

    /** `sbi_ecall_keystone_enclave_handler`, and the two traps beside it */
    method Handle(h: nat, call: Call) returns (ret: nat)
      requires Valid() && h < N_HART && cpus[h].eid < ENCL_MAX
      modifies this, table
      ensures Valid() && (View(), ret) == Step(old(View()), h, call)
    {
      if HostCall(call) {
        if cpus[h].isEnclave {
          return ERR_SBI_PROHIBITED;
        }
      } else if EnclaveCall(call) {
        if !cpus[h].isEnclave {
          return ERR_SBI_PROHIBITED;
        }
      }
      match call {
        case Create(a, env) => ret := SbiCreateEnclave(h, a, env);
        case Destroy(eid) => ret := Destroy(h, eid);
        case Run(eid) => ret := SbiRunEnclave(h, eid);
        case Resume(eid) => ret := SbiResumeEnclave(h, eid);
        case Stop(request) => ret := SbiStopEnclave(h, request);
        case Exit => ret := SbiExitEnclave(h);
        case Interrupt => ret := HandleInterrupt(h);
        case FirmwareReturn =>
          HandleFirmwareReturn(h);
          ret := SUCCESS;
      }
    }
  }
}
