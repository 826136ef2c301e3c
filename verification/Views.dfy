/**
 Exactly what enclave and host may touch once a context switch has programmed a hart.

 A private region that is a naturally aligned power of two takes entry 5 alone. Entry 6 then keeps
 what the hart last had in it, and decides before the shared or the OS region does. The monitor
 leaves such an entry behind on the hart that destroys an enclave whose region took both.
 */
module Views {
  import opened Bits
  import opened PmpHardware
  import opened PmpRegions
  import opened PmpEncoding
  import opened Boot
  import opened Enclaves
  import opened Lifecycle
  import opened LifecycleSteps
  import opened HartSteps
  import opened Isolation
  import opened Coverage
  import opened TrapRuns
  import opened CreateDestroy
  import opened Admission

  /** Will entry 6, which private region `g` does not own, match `x` once `g` is programmed? */
  predicate Leftover(c: Csrs, g: Region, x: nat)
    requires ValidCsrs(c)
  {
    g.reg == 5 && EntryMatches(c.cfg[6], PmpAddrVal(g) % ADDR_LIMIT, c.addr[6], x)
  }

  predicate SameSix(c: Csrs, d: Csrs)
    requires ValidCsrs(c) && ValidCsrs(d)
  {
    d.cfg[6] == c.cfg[6] && d.addr[6] == c.addr[6]
  }

  /** Programming a region that does not own entry 6 leaves it alone. */
  lemma SetKeepsSix(c: Csrs, g: Region, perm: Byte)
    requires ValidCsrs(c) && !Owns(g, 6)
    ensures SameSix(c, SetRegion(c, g, perm))
  {
    SetRegionEffect(c, g, perm, 6);
  }

  /** The deciding entry, behind the boot regions, on a hart that has private region `g` programmed. */
  lemma BehindBoot(c: Csrs, t: Table, p: Params, perm: nat, x: nat)
    requires ValidCsrs(c) && BootProgrammed(c) && LoadedTable(t, p) && x < PHYS && !InBootRegion(x)
    requires Programmed(c, t.regions[EPM_RID], perm) && perm < 8
    ensures Perm(c, x) ==
            if PrivateCovers(p, x) then perm
            else if Leftover(c, t.regions[EPM_RID], x) then c.cfg[6] % 8
            else PermFrom(c, x, 7)
    ensures Leftover(c, t.regions[EPM_RID], x) ==> Matches(c, 6, x)
  {
    var g := t.regions[EPM_RID];
    SkipBoot(c, t, x);
    PrivateMatches(c, t, p, perm, x);
    EpmEntry(c, g, perm, x);
    if g.reg == 5 { assert Leftover(c, g, x) <==> Matches(c, 6, x); }
  }

  // ---------- the enclave's view ----------

  lemma EnclaveViewKeepsSix(s: System, h: nat)
    requires TablesInv(s) && h < N_HART && Live(s.enclaves[0]) && s.table.regions[EPM_RID].reg == 5
    ensures SameSix(s.harts[h], EnclaveView(s, h, 0))
  {
    var t := s.table;
    var g := t.regions[EPM_RID];
    assert EnclaveOk(s.enclaves[0]) && t.regions[OS_RID] == OS;
    var c0 := OsSet(t, s.harts[h], NO_PERM);
    SetKeepsSix(s.harts[h], OS, NO_PERM);
    SetEachLive(t, c0, s.enclaves[0], SU_RWX);
    SetKeepsSix(c0, g, SU_RWX);
    SetKeepsSix(SetRegion(c0, g, SU_RWX), t.regions[UTM_RID], SU_RWX);
  }

  /**
   What a hart may touch, outside the boot regions, once the monitor has switched it to the enclave
   or has repaired its permissions: what its private and shared region cover, but for what the leftover
   entry says of addresses that are not private.
   */
  lemma EnclaveViewExact(s: System, h: nat, x: nat)
    requires CoreInv(s) && 1 <= h < N_HART && Live(s.enclaves[0]) && x < PHYS && !InBootRegion(x)
    ensures var p := s.enclaves[0].params;
            && p.dramSize > 0
            && Perm(EnclaveView(s, h, 0), x) ==
                 if PrivateCovers(p, x) then SU_RWX
                 else if Leftover(s.harts[h], s.table.regions[EPM_RID], x) then s.harts[h].cfg[6] % 8
                 else if SharedCovers(p, x) then SU_RWX else NO_PERM
  {
    assert CoreHart(s, h) && EnclaveOk(s.enclaves[0]);
    var (p, c) := (s.enclaves[0].params, EnclaveView(s, h, 0));
    EnclaveViewIsEnclaveHart(s, h, 0);
    BehindBoot(c, s.table, p, SU_RWX, x);
    SharedEntry(c, s.table, p, SU_RWX, x);
    if s.table.regions[EPM_RID].reg == 5 { EnclaveViewKeepsSix(s, h); }
  }

  // ---------- the host's view ----------

  lemma HostViewKeepsSix(s: System, h: nat)
    requires TablesInv(s) && h < N_HART && Live(s.enclaves[0]) && s.table.regions[EPM_RID].reg == 5
    ensures SameSix(s.harts[h], HostView(s, h, 0))
  {
    var t := s.table;
    var g := t.regions[EPM_RID];
    assert EnclaveOk(s.enclaves[0]) && t.regions[OS_RID] == OS;
    var c0 := s.harts[h];
    SetEachLive(t, c0, s.enclaves[0], NO_PERM);
    SetKeepsSix(c0, g, NO_PERM);
    var c1 := SetRegion(c0, g, NO_PERM);
    SetKeepsSix(c1, t.regions[UTM_RID], NO_PERM);
    SetKeepsSix(SetRegion(c1, t.regions[UTM_RID], NO_PERM), OS, SU_RWX);
  }

  /** What a hart may touch, outside the boot regions, once the monitor has switched it back to the host. */
  lemma HostViewExact(s: System, h: nat, x: nat)
    requires CoreInv(s) && 1 <= h < N_HART && Live(s.enclaves[0]) && x < PHYS && !InBootRegion(x)
    ensures s.enclaves[0].params.dramSize > 0
    ensures Perm(HostView(s, h, 0), x) ==
              if PrivateCovers(s.enclaves[0].params, x) then NO_PERM
              else if Leftover(s.harts[h], s.table.regions[EPM_RID], x) then s.harts[h].cfg[6] % 8
              else SU_RWX
  {
    assert CoreHart(s, h) && EnclaveOk(s.enclaves[0]);
    var (p, c) := (s.enclaves[0].params, HostView(s, h, 0));
    HostViewIsHostHart(s, h, 0);
    BehindBoot(c, s.table, p, NO_PERM, x);
    WholeSpaceEntry(c, SU_RWX, x);
    if s.table.regions[EPM_RID].reg == 5 { HostViewKeepsSix(s, h); }
  }

  /** The host has everything but the private memory, outside the boot regions. */
  ghost predicate HostHasTheRest(c: Csrs, p: Params)
    requires ValidCsrs(c)
  {
    forall x: nat :: x < PHYS && !InBootRegion(x) ==> Perm(c, x) == if InEpm(p, x) then NO_PERM else SU_RWX
  }

  /** The leftover entry grants the host everything wherever it decides. */
  ghost predicate HarmlessToHost(c: Csrs, g: Region, p: Params)
    requires ValidCsrs(c)
  {
    forall x: nat :: x < PHYS && !InBootRegion(x) && !InEpm(p, x) && Leftover(c, g, x) ==> c.cfg[6] % 8 == SU_RWX
  }

  /** What `HostViewExact` says of every address if the PMP can express the private memory. */
  ghost predicate HostMay(d: Csrs, c: Csrs, g: Region, p: Params, x: nat)
    requires ValidCsrs(c) && ValidCsrs(d)
  {
    Perm(d, x) == if InEpm(p, x) then NO_PERM else if Leftover(c, g, x) then c.cfg[6] % 8 else SU_RWX
  }

  lemma HarmlessIff(d: Csrs, c: Csrs, g: Region, p: Params)
    requires ValidCsrs(c) && ValidCsrs(d) && forall x: nat :: x < PHYS && !InBootRegion(x) ==> HostMay(d, c, g, p, x)
    ensures HostHasTheRest(d, p) <==> HarmlessToHost(c, g, p)
  {
    if HostHasTheRest(d, p) {
      forall x: nat | x < PHYS && !InBootRegion(x) && !InEpm(p, x) && Leftover(c, g, x) ensures c.cfg[6] % 8 == SU_RWX {
        assert HostMay(d, c, g, p, x);
      }
    }
    if HarmlessToHost(c, g, p) {
      forall x: nat | x < PHYS && !InBootRegion(x) ensures Perm(d, x) == if InEpm(p, x) then NO_PERM else SU_RWX {
        assert HostMay(d, c, g, p, x);
      }
    }
  }

  /** The host's view is as intended exactly when the leftover entry is harmless. */
  lemma HostViewIff(s: System, h: nat)
    requires CoreInv(s) && 1 <= h < N_HART && Visible(s)
    ensures HostHasTheRest(HostView(s, h, 0), s.enclaves[0].params) <==>
            HarmlessToHost(s.harts[h], s.table.regions[EPM_RID], s.enclaves[0].params)
  {
    var (d, p, c, g) := (HostView(s, h, 0), s.enclaves[0].params, s.harts[h], s.table.regions[EPM_RID]);
    forall x: nat | x < PHYS && !InBootRegion(x) ensures HostMay(d, c, g, p, x) {
      HostViewExact(s, h, x);
      PrivateIsCovered(p, x);
    }
    HarmlessIff(d, c, g, p);
  }

  // ---------- a run that leaves such an entry behind ----------

  /** Entry 6 is a closed range that ends at `end`. */
  predicate ClosedBelow(c: Csrs, end: nat)
    requires ValidCsrs(c)
  {
    c.cfg[6] == A_TOR && c.addr[6] == end / 4
  }

  lemma OsKeepsSix(t: Table, c: Csrs, perm: Byte)
    requires BootKept(t) && ValidCsrs(c)
    ensures SameSix(c, OsSet(t, c, perm))
  {
    assert t.regions[OS_RID] == OS;
    SetKeepsSix(c, OS, perm);
  }

  lemma UnlockKeepsSix(t: Table, c: Csrs)
    requires BootKept(t) && ValidCsrs(c)
    ensures SameSix(c, OsUnlockLock(t, c))
  {
    OsKeepsSix(t, c, ALL_RW);
    OsKeepsSix(t, OsSet(t, c, ALL_RW), SU_RWX);
  }

  /** A hart that destroys an enclave whose region took two registers keeps the closed entry. */
  lemma DestroyLeaves(s: System, h: nat)
    requires CoreInv(s) && 1 <= h < N_HART && Destroyable(s, 0) && Live(s.enclaves[0])
    requires s.table.regions[EPM_RID].mode == A_TOR
    requires s.enclaves[0].params.dramBase + s.enclaves[0].params.dramSize < PHYS
    ensures var p := s.enclaves[0].params;
            ClosedBelow(DestroyEnclave(s, h, 0).0.harts[h], p.dramBase + p.dramSize)
  {
    var (g, r) := (s.table.regions[EPM_RID], DestroyEnclave(s, h, 0).0);
    LiveRegion(s);
    var t := TableAfterDestroy(s, h);
    ClosedStays(s.harts[h], r.harts[h], t, g);
  }

  lemma LiveRegion(s: System)
    requires TablesInv(s) && Live(s.enclaves[0])
    ensures var (g, p) := (s.table.regions[EPM_RID], s.enclaves[0].params);
            Accepted(g) && EpmShaped(g) && g.addr == p.dramBase && g.size == p.dramSize
  {
    assert EnclaveOk(s.enclaves[0]);
  }

  /** What a destroy leaves of the destroying hart's registers. */
  lemma TableAfterDestroy(s: System, h: nat) returns (t: Table)
    requires CoreInv(s) && 1 <= h < N_HART && Destroyable(s, 0) && Live(s.enclaves[0])
    ensures BootKept(t)
    ensures var g := s.table.regions[EPM_RID];
            DestroyEnclave(s, h, 0).0.harts[h] ==
              OsSet(t, SetRegion(SetRegion(s.harts[h], g, ALL_RW), g, NO_PERM), SU_RWX)
  {
    assert EnclaveOk(s.enclaves[0]);
    DestroyFields(s, h, 0);
    DestroyKeepsTables(s, h, 0);
    t := DestroyEnclave(s, h, 0).0.table;
    TablesNoneLive(DestroyEnclave(s, h, 0).0);
  }

  /** A closed two-register region stays in entry 6 when the OS region is opened. */
  lemma ClosedStays(c: Csrs, d: Csrs, t: Table, g: Region)
    requires ValidCsrs(c) && BootKept(t) && Accepted(g) && EpmShaped(g) && g.mode == A_TOR && g.addr + g.size < PHYS
    requires d == OsSet(t, SetRegion(SetRegion(c, g, ALL_RW), g, NO_PERM), SU_RWX)
    ensures ClosedBelow(d, g.addr + g.size)
  {
    var c1 := SetRegion(c, g, ALL_RW);
    SetRegionPrograms(c1, g, NO_PERM);
    TorEnd(g);
    OsKeepsSix(t, SetRegion(c1, g, NO_PERM), SU_RWX);
  }

  /** A create by that hart, of a region that takes one register, leaves the entry where it is. */
  lemma CreateKeepsSix(s: System, h: nat, a: CreateArgs, env: CreateEnv)
    requires CoreInv(s) && 1 <= h < N_HART && SbiCreate(s, h, a, env).1 == SUCCESS
    requires a.epmSize > 0 && TakesNapot(a.epmAddr, a.epmSize)
    ensures SameSix(s.harts[h], SbiCreate(s, h, a, env).0.harts[h])
  {
    SbiCreateParts(s, h, a, env);
    TablesNoneLive(s);
    UnlockKeepsSix(s.table, s.harts[h]);
    var s1 := s.(harts := s.harts[h := OsUnlockLock(s.table, s.harts[h])]);
    SameTables(s, s1);
    CreateOutcomes(s1, h, a, env);
    var v := Reserve(s1.table, a);
    ReserveLoads(s1.table, a);
    CreateHarts(s1, h, a, env, 0, v);
    CreateTables(s1, h, a, env, 0, v);
    CreatorKeepsSix(s1, h, env, v, ParamsOf(a));
    OsKeepsSix(v.table, CreatorHart(s1, h, env, v), SU_RWX);
  }

  lemma CreatorKeepsSix(s: System, h: nat, env: CreateEnv, v: Reserved, p: Params)
    requires Shaped(s) && 1 <= h < N_HART && v.Reserved? && v.epm == EPM_RID && LoadedTable(v.table, p)
    requires v.table.regions[EPM_RID].reg == 5
    ensures SameSix(s.harts[h], CreatorHart(s, h, env, v))
  {
    var (t, g) := (v.table, v.table.regions[EPM_RID]);
    UnlockKeepsSix(t, s.harts[h]);
    var c := OsUnlockLock(t, s.harts[h]);
    SetKeepsSix(c, g, ALL_RW);
    var c1 := PmpSet(t, c, EPM_RID, ALL_RW);
    OsKeepsSix(t, c1, ALL_RW);
    var c2 := OsSet(t, c1, ALL_RW);
    SetKeepsSix(c2, g, NO_PERM);
    OsKeepsSix(t, PmpSet(t, c2, EPM_RID, NO_PERM), SU_RWX);
  }

  /** Memory between the encoded address of the new region and the end of the old one is closed to the hart. */
  lemma ClosedBetween(s: System, h: nat, end: nat, x: nat)
    requires CoreInv(s) && 1 <= h < N_HART && Visible(s) && s.table.regions[EPM_RID].reg == 5
    requires ClosedBelow(s.harts[h], end) && end % PGSIZE == 0 && !s.cpus[h].isEnclave
    requires x < PHYS && !InBootRegion(x) && !InEpm(s.enclaves[0].params, x)
    requires PmpAddrVal(s.table.regions[EPM_RID]) % ADDR_LIMIT <= x / 4 && x < end
    ensures Perm(s.harts[h], x) == NO_PERM
  {
    var g := s.table.regions[EPM_RID];
    assert CoreHart(s, h);
    var perm := if Programmed(s.harts[h], g, NO_PERM) then NO_PERM else SU_RWX;
    LeftoverHere(s.harts[h], g, end, x);
    BehindBoot(s.harts[h], s.table, s.enclaves[0].params, perm, x);
    PrivateIsCovered(s.enclaves[0].params, x);
  }

  lemma LeftoverHere(c: Csrs, g: Region, end: nat, x: nat)
    requires ValidCsrs(c) && ClosedBelow(c, end) && end % PGSIZE == 0 && g.reg == 5
    requires PmpAddrVal(g) % ADDR_LIMIT <= x / 4 && x < end
    ensures Leftover(c, g, x) && c.cfg[6] % 8 == NO_PERM
  {
    WordBelow(x, end);
    TorEntry(c.cfg[6], PmpAddrVal(g) % ADDR_LIMIT, c.addr[6], x);
  }

  /** The value programmed for an aligned block lies below its end. */
  lemma EncodedBelow(g: Region, x: nat)
    requires Accepted(g) && g.mode == A_NAPOT && !g.allowOverlap && g.addr + g.size <= x
    ensures PmpAddrVal(g) % ADDR_LIMIT <= x / 4
  {
    assert !WholeSpace(g) ==> exists k: nat :: AlignedPow2(g, k);
    if !WholeSpace(g) {
      var k: nat :| AlignedPow2(g, k);
      NapotValue(g, k);
      var e := Pow2(k - 3);
      assert g.size == 8 * e by { assert Pow2(k) == 2 * Pow2(k - 1) && Pow2(k - 1) == 4 * e; }
      assert g.addr / 4 + e - 1 <= x / 4;
    }
  }

  /** The two enclaves of the run: the first takes two registers, the second one, below the first's end. */
  ghost predicate TwoThenOne(a: CreateArgs, b: CreateArgs) {
    && Admissible(a) && !TakesNapot(a.epmAddr, a.epmSize) && a.epmAddr + a.epmSize < PHYS
    && Admissible(b) && TakesNapot(b.epmAddr, b.epmSize) && b.epmAddr < PHYS
  }

  /** No enclave is left, and the hart in host context has the closed entry. */
  predicate AfterFirst(s: System, h: nat, end: nat)
    requires Shaped(s) && h < N_HART
  {
    !Live(s.enclaves[0]) && !s.cpus[h].isEnclave && ClosedBelow(s.harts[h], end)
  }

  lemma SecondCreate(s: System, h: nat, b: CreateArgs, env: CreateEnv, end: nat, x: nat)
    requires CoreInv(s) && 1 <= h < N_HART && AfterFirst(s, h, end) && end % PGSIZE == 0 && end <= PHYS
    requires Admissible(b) && TakesNapot(b.epmAddr, b.epmSize) && b.epmAddr < PHYS && Undisturbed(env)
    requires b.epmAddr + b.epmSize <= x < end && !InBootRegion(x)
    ensures var r := Step(s, h, Create(b, env)).0;
            r.enclaves[0].state == Fresh && r.enclaves[0].params == ParamsOf(b) && Perm(r.harts[h], x) == NO_PERM
  {
    TablesNoneLive(s);
    CreateSucceedsIff(s, h, b, env);
    CreatedState(s, h, b, env);
    StepKeepsCore(s, h, Create(b, env));
    CreateKeepsSix(s, h, b, env);
    ReserveLoads(s.table, b);
    var r := Step(s, h, Create(b, env)).0;
    assert Accepted(r.table.regions[EPM_RID]);
    EncodedBelow(r.table.regions[EPM_RID], x);
    ClosedBetween(r, h, end, x);
  }

  lemma TakesTwo(t: Table, p: Params)
    requires LoadedTable(t, p) && !TakesNapot(p.dramBase, p.dramSize)
    ensures t.regions[EPM_RID].mode == A_TOR
  {
  }

  lemma FirstDestroyed(s: System, h: nat, a: CreateArgs)
    requires CoreInv(s) && 1 <= h < N_HART && s.enclaves[0].state == Fresh && !s.cpus[h].isEnclave
    requires s.enclaves[0].params == ParamsOf(a) && Admissible(a)
    requires !TakesNapot(a.epmAddr, a.epmSize) && a.epmAddr + a.epmSize < PHYS
    ensures AfterFirst(DestroyEnclave(s, h, 0).0, h, a.epmAddr + a.epmSize)
  {
    TakesTwo(s.table, s.enclaves[0].params);
    DestroyKeepsTables(s, h, 0);
    DestroyLeaves(s, h);
    DestroyFlags(s, h, 0);
  }

  /**
   From every boot: a hart that creates and destroys an enclave whose region took two registers, and
   creates one whose region takes one, is afterwards denied memory that belongs to nobody, between
   the ends of the two regions.
   */
  lemma LeftoverReached(before: seq<Csrs>, mem: map<nat, Byte>, h: nat, a: CreateArgs, b: CreateArgs, env: CreateEnv,
                        x: nat)
    returns (run: seq<Event>)
    requires AllValid(before) && 1 <= h < N_HART && TwoThenOne(a, b) && Undisturbed(env)
    requires b.epmAddr + b.epmSize <= x < a.epmAddr + a.epmSize && !InBootRegion(x)
    ensures ValidRun(run) && |run| == 3
    ensures run[0] == Event(h, Create(a, env)) && run[1] == Event(h, Destroy(0)) && run[2] == Event(h, Create(b, env))
    ensures var s := Reached(before, mem, run);
            s.enclaves[0].params == ParamsOf(b) && !InEpm(ParamsOf(b), x) && Perm(s.harts[h], x) == NO_PERM
  {
    PageSum(a.epmAddr, a.epmSize);
    var destroyed := ReachGone(before, mem, h, a, env);
    run := ReachSecond(before, mem, destroyed, h, b, env, a.epmAddr + a.epmSize, x);
  }

  lemma ReachGone(before: seq<Csrs>, mem: map<nat, Byte>, h: nat, a: CreateArgs, env: CreateEnv)
    returns (run: seq<Event>)
    requires AllValid(before) && 1 <= h < N_HART && Undisturbed(env)
    requires Admissible(a) && !TakesNapot(a.epmAddr, a.epmSize) && a.epmAddr + a.epmSize < PHYS
    ensures ValidRun(run) && |run| == 2 && run[0] == Event(h, Create(a, env)) && run[1] == Event(h, Destroy(0))
    ensures AfterFirst(Reached(before, mem, run), h, a.epmAddr + a.epmSize)
  {
    var created := ReachCreated(before, mem, h, a, env);
    assert Stands(Reached(before, mem, created), h, Fresh, false, false);
    run := ReachDestroyed(before, mem, created, h, a);
  }

  lemma PageSum(addr: nat, size: nat)
    requires addr % PGSIZE == 0 && size % PGSIZE == 0
    ensures (addr + size) % PGSIZE == 0
  {
  }

  lemma ReachDestroyed(before: seq<Csrs>, mem: map<nat, Byte>, created: seq<Event>, h: nat, a: CreateArgs)
    returns (run: seq<Event>)
    requires AllValid(before) && ValidRun(created) && 1 <= h < N_HART && Admissible(a)
    requires Stands(Reached(before, mem, created), h, Fresh, false, false)
    requires Reached(before, mem, created).enclaves[0].params == ParamsOf(a)
    requires !TakesNapot(a.epmAddr, a.epmSize) && a.epmAddr + a.epmSize < PHYS
    ensures run == created + [Event(h, Destroy(0))] && ValidRun(run)
    ensures AfterFirst(Reached(before, mem, run), h, a.epmAddr + a.epmSize)
  {
    run := created + [Event(h, Destroy(0))];
    ReachNext(before, mem, created, Event(h, Destroy(0)));
    FirstDestroyed(Reached(before, mem, created), h, a);
    DestroysStep(Reached(before, mem, created), h, Destroy(0));
  }

  lemma ReachSecond(before: seq<Csrs>, mem: map<nat, Byte>, destroyed: seq<Event>, h: nat,
                    b: CreateArgs, env: CreateEnv, end: nat, x: nat)
    returns (run: seq<Event>)
    requires AllValid(before) && ValidRun(destroyed) && 1 <= h < N_HART && Undisturbed(env)
    requires AfterFirst(Reached(before, mem, destroyed), h, end) && end % PGSIZE == 0 && end <= PHYS
    requires Admissible(b) && TakesNapot(b.epmAddr, b.epmSize) && b.epmAddr < PHYS
    requires b.epmAddr + b.epmSize <= x < end && !InBootRegion(x)
    ensures |run| == |destroyed| + 1 && run[..|destroyed|] == destroyed && run[|destroyed|] == Event(h, Create(b, env))
    ensures ValidRun(run)
    ensures var s := Reached(before, mem, run);
            s.enclaves[0].params == ParamsOf(b) && Perm(s.harts[h], x) == NO_PERM
  {
    run := destroyed + [Event(h, Create(b, env))];
    ReachNext(before, mem, destroyed, Event(h, Create(b, env)));
    SecondCreate(Reached(before, mem, destroyed), h, b, env, end, x);
  }

  // ---------- and the second enclave runs ----------

  /** The second enclave is created, and the closed entry is in the way of its shared memory at `x`. */
  ghost predicate Obstructed(s: System, h: nat, b: CreateArgs, x: nat) {
    && CoreInv(s) && h < N_HART && s.enclaves[0].state == Fresh && s.enclaves[0].params == ParamsOf(b)
    && !s.cpus[h].isEnclave && Leftover(s.harts[h], s.table.regions[EPM_RID], x) && s.harts[h].cfg[6] % 8 == NO_PERM
  }

  /** After the second create, entry 6 of that hart is closed and matches up to the first region's end. */
  lemma SecondLeaves(s: System, h: nat, b: CreateArgs, env: CreateEnv, end: nat, x: nat)
    requires CoreInv(s) && 1 <= h < N_HART && AfterFirst(s, h, end) && end % PGSIZE == 0
    requires Admissible(b) && TakesNapot(b.epmAddr, b.epmSize) && Undisturbed(env)
    requires b.epmAddr + b.epmSize <= x < end
    ensures Obstructed(Step(s, h, Create(b, env)).0, h, b, x)
  {
    TablesNoneLive(s);
    CreateSucceedsIff(s, h, b, env);
    CreatedState(s, h, b, env);
    StepKeepsCore(s, h, Create(b, env));
    CreateKeepsSix(s, h, b, env);
    ReserveLoads(s.table, b);
    var r := Step(s, h, Create(b, env)).0;
    EncodedBelow(r.table.regions[EPM_RID], x);
    LeftoverHere(r.harts[h], r.table.regions[EPM_RID], end, x);
  }

  /** A hart that enters with the closed entry in the way is denied that shared memory. */
  lemma EnteredDenied(s: System, h: nat, b: CreateArgs, x: nat)
    requires 1 <= h && Obstructed(s, h, b, x) && b.epmAddr < PHYS && b.epmSize > 0
    requires x < PHYS && !InBootRegion(x) && InUtm(ParamsOf(b), x)
    ensures var r := Step(s, h, Run(0)).0;
            r.cpus[h].isEnclave && r.enclaves[0].params == ParamsOf(b) && Perm(r.harts[h], x) == NO_PERM
  {
    var p := ParamsOf(b);
    EntersEffect(s, h, Run(0));
    SharedNotPrivate(s.table, p, x);
    PrivateIsCovered(p, x);
    EnclaveViewExact(s, h, x);
  }

  /** Hart `h` runs the second enclave and is denied `x`. */
  ghost predicate Refused(s: System, h: nat, b: CreateArgs, x: nat) {
    && Shaped(s) && h < N_HART && s.cpus[h].isEnclave && s.enclaves[0].params == ParamsOf(b)
    && Perm(s.harts[h], x) == NO_PERM
  }

  /**
   From every boot: if the second enclave of such a run is entered on that hart, it is denied its own shared memory
   between the ends of the two private regions.
   */
  lemma SharedDeniedReached(before: seq<Csrs>, mem: map<nat, Byte>, h: nat, a: CreateArgs, b: CreateArgs,
                            env: CreateEnv, x: nat)
    returns (run: seq<Event>)
    requires AllValid(before) && 1 <= h < N_HART && TwoThenOne(a, b) && Undisturbed(env)
    requires b.epmAddr + b.epmSize <= x < a.epmAddr + a.epmSize && !InBootRegion(x) && InUtm(ParamsOf(b), x)
    ensures ValidRun(run) && |run| == 4
    ensures run[0] == Event(h, Create(a, env)) && run[1] == Event(h, Destroy(0)) && run[2] == Event(h, Create(b, env))
    ensures run[3] == Event(h, Run(0))
    ensures Refused(Reached(before, mem, run), h, b, x)
  {
    PageSum(a.epmAddr, a.epmSize);
    var gone := ReachGone(before, mem, h, a, env);
    run := ReachBoth(before, mem, gone, h, b, env, a.epmAddr + a.epmSize, x);
  }

  lemma ReachBoth(before: seq<Csrs>, mem: map<nat, Byte>, gone: seq<Event>, h: nat, b: CreateArgs,
                  env: CreateEnv, end: nat, x: nat)
    returns (run: seq<Event>)
    requires AllValid(before) && ValidRun(gone) && 1 <= h < N_HART && Undisturbed(env) && |gone| == 2
    requires AfterFirst(Reached(before, mem, gone), h, end) && end % PGSIZE == 0 && end <= PHYS
    requires Admissible(b) && TakesNapot(b.epmAddr, b.epmSize) && b.epmAddr < PHYS
    requires b.epmAddr + b.epmSize <= x < end && !InBootRegion(x) && InUtm(ParamsOf(b), x)
    ensures |run| == 4 && run[0] == gone[0] && run[1] == gone[1] && ValidRun(run)
    ensures run[2] == Event(h, Create(b, env)) && run[3] == Event(h, Run(0))
    ensures Refused(Reached(before, mem, run), h, b, x)
  {
    var created := ReachSecondLeaves(before, mem, gone, h, b, env, end, x);
    run := ReachDenied(before, mem, created, h, b, x);
    Prefixes(gone, created, run);
  }

  lemma Prefixes(gone: seq<Event>, created: seq<Event>, run: seq<Event>)
    requires |run| == 4 && |created| == 3 && |gone| == 2 && run[..3] == created && created[..2] == gone
    ensures run[0] == gone[0] && run[1] == gone[1] && run[2] == created[2]
  {
  }

  lemma ReachDenied(before: seq<Csrs>, mem: map<nat, Byte>, created: seq<Event>, h: nat, b: CreateArgs, x: nat)
    returns (run: seq<Event>)
    requires AllValid(before) && ValidRun(created) && 1 <= h < N_HART
    requires Obstructed(Reached(before, mem, created), h, b, x)
    requires b.epmAddr < PHYS && b.epmSize > 0 && x < PHYS && !InBootRegion(x) && InUtm(ParamsOf(b), x)
    ensures |run| == |created| + 1 && run[..|created|] == created && run[|created|] == Event(h, Run(0)) && ValidRun(run)
    ensures Refused(Reached(before, mem, run), h, b, x)
  {
    run := created + [Event(h, Run(0))];
    ReachNext(before, mem, created, Event(h, Run(0)));
    EnteredDenied(Reached(before, mem, created), h, b, x);
  }

  lemma ReachSecondLeaves(before: seq<Csrs>, mem: map<nat, Byte>, gone: seq<Event>, h: nat, b: CreateArgs,
                          env: CreateEnv, end: nat, x: nat)
    returns (run: seq<Event>)
    requires AllValid(before) && ValidRun(gone) && 1 <= h < N_HART && Undisturbed(env)
    requires AfterFirst(Reached(before, mem, gone), h, end) && end % PGSIZE == 0
    requires Admissible(b) && TakesNapot(b.epmAddr, b.epmSize) && b.epmAddr + b.epmSize <= x < end
    ensures |run| == |gone| + 1 && run[..|gone|] == gone && run[|gone|] == Event(h, Create(b, env)) && ValidRun(run)
    ensures Obstructed(Reached(before, mem, run), h, b, x)
  {
    run := gone + [Event(h, Create(b, env))];
    ReachNext(before, mem, gone, Event(h, Create(b, env)));
    SecondLeaves(Reached(before, mem, gone), h, b, env, end, x);
  }

  /** Three pages and a page far below them are such a pair. */
  lemma SomeTwoThenOne(a: CreateArgs, b: CreateArgs)
    requires a == CreateArgs(0x9001_0000, 0x3000, 0x9000_4000, 0x1000, 0x9001_1000, 0x9001_2000, 0x9001_3000)
    requires b == CreateArgs(0x9000_0000, 0x1000, 0x9000_4000, 0x1000, 0x9000_0000, 0x9000_0000, 0x9000_0000)
    ensures TwoThenOne(a, b) && b.epmAddr + b.epmSize <= 0x9000_8000 < a.epmAddr + a.epmSize
  {
    PlaceableAbove(a.epmAddr, a.epmSize);
    PlaceableAbove(a.utmAddr, a.utmSize);
    PageAligned(a.utmAddr, a.utmSize);
    ThreePages(a.epmAddr, a.epmSize);
    PlaceableAbove(b.epmAddr, b.epmSize);
    PageAligned(b.epmAddr, b.epmSize);
    SharedNapot(b.epmAddr, b.epmSize);
    Pow2Values();
  }

  /** With the second enclave's shared page between the two, it is such a pair with such an address. */
  lemma SomeShared(a: CreateArgs, b: CreateArgs)
    requires a == CreateArgs(0x9001_0000, 0x3000, 0x9000_4000, 0x1000, 0x9001_1000, 0x9001_2000, 0x9001_3000)
    requires b == CreateArgs(0x9000_0000, 0x1000, 0x9000_8000, 0x1000, 0x9000_0000, 0x9000_0000, 0x9000_0000)
    ensures TwoThenOne(a, b) && InUtm(ParamsOf(b), 0x9000_8000)
    ensures b.epmAddr + b.epmSize <= 0x9000_8000 < a.epmAddr + a.epmSize
  {
    SomeTwoThenOne(a, b.(utmAddr := 0x9000_4000));
    PlaceableAbove(b.utmAddr, b.utmSize);
    PageAligned(b.utmAddr, b.utmSize);
  }
}
