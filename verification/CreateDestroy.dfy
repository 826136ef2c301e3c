/**
 Conservation: a create that fails gives back what it took, a create followed by a destroy
 gives back everything and leaves the private memory zeroed, and between calls the region table
 holds the boot regions plus two per live enclave.
 */
module CreateDestroy {
  import opened Bits
  import opened PmpHardware
  import opened PmpRegions
  import opened PmpEncoding
  import opened Boot
  import opened Enclaves
  import opened Lifecycle
  import opened LifecycleSteps
  import opened HartSteps

  /** Same regions, same slot bitmap, same registers in use below the bottom one. */
  ghost predicate SameTable(t: Table, u: Table) {
    && u.regions == t.regions && u.defBitmap == t.defBitmap
    && forall r: nat :: r < BOTTOM_REG ==> (Used(u, r) <==> Used(t, r))
  }

  ghost predicate SameStates(s: System, r: System)
    requires Shaped(s) && Shaped(r)
  {
    && r.cpus == s.cpus
    && forall i :: 0 <= i < ENCL_MAX ==>
        r.enclaves[i].state == s.enclaves[i].state && r.enclaves[i].nThread == s.enclaves[i].nThread
  }

  // ---------- memory ----------

  datatype Range = Range(base: nat, size: nat)

  predicate InSome(ranges: seq<Range>, x: nat) {
    exists i :: 0 <= i < |ranges| && ranges[i].base <= x < ranges[i].base + ranges[i].size
  }

  /** The same memory, with every byte of the ranges zero and every other byte as it was. */
  ghost predicate WipedOnly(was: map<nat, Byte>, now: map<nat, Byte>, ranges: seq<Range>) {
    && now.Keys == was.Keys
    && forall x :: x in was ==> now[x] == if InSome(ranges, x) then 0 else was[x]
  }

  lemma OneRange(mem: map<nat, Byte>, base: nat, size: nat)
    ensures WipedOnly(mem, Zeroed(mem, base, size), [Range(base, size)])
  {
    var ranges := [Range(base, size)];
    forall x: nat ensures InSome(ranges, x) <==> base <= x < base + size {
      assert ranges[0] == Range(base, size);
    }
  }

  lemma TwoRanges(mem: map<nat, Byte>, b1: nat, n1: nat, b2: nat, n2: nat)
    ensures WipedOnly(mem, Zeroed(Zeroed(mem, b1, n1), b2, n2), [Range(b1, n1), Range(b2, n2)])
  {
    var ranges := [Range(b1, n1), Range(b2, n2)];
    forall x: nat ensures InSome(ranges, x) <==> b1 <= x < b1 + n1 || b2 <= x < b2 + n2 {
      assert ranges[0] == Range(b1, n1) && ranges[1] == Range(b2, n2);
    }
  }

  /** A create that fails, at whatever point, leaves the table and all enclave states as they were. */
  lemma FailedCreateRestores(s: System, h: nat, a: CreateArgs, env: CreateEnv)
    requires TablesInv(s) && 1 <= h < N_HART && !s.cpus[h].isEnclave
    ensures var (r, ret) := Step(s, h, Create(a, env));
            ret != SUCCESS ==>
              && SameTable(s.table, r.table) && SameStates(s, r)
              && r.executing == (if Reserves(s, a, env) then Quieted(s.executing, h) else s.executing)
              && (r.mem == s.mem || WipedOnly(s.mem, r.mem, [Range(a.utmAddr, a.utmSize)]))
  {
    SbiCreateRestores(s, h, a, env);
    OneRange(s.mem, a.utmAddr, a.utmSize);
  }

  lemma SbiCreateRestores(s: System, h: nat, a: CreateArgs, env: CreateEnv)
    requires TablesInv(s) && 1 <= h < N_HART
    ensures var (r, ret) := SbiCreate(s, h, a, env);
            ret != SUCCESS ==>
              && SameTable(s.table, r.table) && SameStates(s, r)
              && r.executing == (if Reserves(s, a, env) then Quieted(s.executing, h) else s.executing)
              && (r.mem == s.mem || r.mem == Zeroed(s.mem, a.utmAddr, a.utmSize))
  {
    SbiCreateResult(s, h, a, env);
    var (r, ret) := SbiCreate(s, h, a, env);
    if ret != SUCCESS { ResultRestores(s, r, ret, h, a, env); }
  }

  lemma ResultRestores(s: System, r: System, ret: nat, h: nat, a: CreateArgs, env: CreateEnv)
    requires TablesInv(s) && Shaped(r) && CreateResult(s, r, ret, h, a, env) && ret != SUCCESS
    ensures SameTable(s.table, r.table) && SameStates(s, r)
    ensures r.executing == if Reserves(s, a, env) then Quieted(s.executing, h) else s.executing
    ensures r.mem == s.mem || r.mem == Zeroed(s.mem, a.utmAddr, a.utmSize)
  {
    if !Live(s.enclaves[0]) { DropBottomIdle(s.table); }
    assert EnclaveOk(s.enclaves[0]);
  }

  // ---------- create, then destroy ----------

  lemma SameBitmap(a: nat, b: nat)
    requires forall i: nat :: Bit(a, i) <==> Bit(b, i)
    ensures a == b
  {
    SameBits(a, b);
  }

  /** Freeing both regions of a create gives the idle table back. */
  lemma ReserveFree(t: Table, a: CreateArgs)
    requires IdleTable(t) && Reserve(t, a).Reserved?
    ensures SameTable(t, RegionFree(RegionFree(Reserve(t, a).table, EPM_RID), UTM_RID))
  {
    ReserveEpm(t, a.epmAddr, a.epmSize);
    var t1 := RegionInit(t, a.epmAddr, a.epmSize, PriAny, false).0;
    ReserveUtm(t1, a.utmAddr, a.utmSize);
    var t2 := Reserve(t, a).table;
    FreedAgain(t, t1, t2);
  }

  lemma FreedAgain(t: Table, t1: Table, t2: Table)
    requires IdleTable(t) && TableInv(t2) && |t1.regions| == N_REGION
    requires EpmShaped(t1.regions[6]) && t1.regions == t.regions[6 := t1.regions[6]]
    requires t2.regions[7].mode == A_NAPOT && t2.regions[7].reg == BOTTOM_REG
    requires t2.regions == t1.regions[7 := t2.regions[7]]
    requires forall i: nat :: Bit(t2.defBitmap, i) <==> i < 8
    requires forall r: nat :: Used(t1, r) <==> Used(t, r) || Owns(t1.regions[6], r)
    requires forall r: nat :: Used(t2, r) <==> Used(t1, r) || r == BOTTOM_REG
    ensures SameTable(t, RegionFree(RegionFree(t2, EPM_RID), UTM_RID))
  {
    IdleRegisters(t);
    FreeEffect(t2, EPM_RID);
    FreeKeepsInv(t2, EPM_RID);
    var t3 := RegionFree(t2, EPM_RID);
    FreeEffect(t3, UTM_RID);
    var t4 := RegionFree(t3, UTM_RID);
    SameBitmap(t4.defBitmap, t.defBitmap);
    assert t.regions[6] == NO_REGION && t.regions[7] == NO_REGION;
    assert t4.regions == t.regions;
    assert t1.regions[6] == t2.regions[6];
  }

  /**
   A successful create zeroes the shared memory and records the arguments. Followed by a destroy of the
   new enclave, by whatever hart in host context, it restores the table and all states, zeroes the
   private memory too, and touches no other memory.
   */
  lemma CreateThenDestroy(s: System, h: nat, k: nat, a: CreateArgs, env: CreateEnv)
    requires TablesInv(s) && 1 <= h < N_HART && 1 <= k < N_HART && !s.cpus[h].isEnclave
    requires Step(s, h, Create(a, env)).1 == SUCCESS
    ensures var s1 := Step(s, h, Create(a, env)).0;
            && s1.enclaves[0].state == Fresh && TablesInv(s1)
            && WipedOnly(s.mem, s1.mem, [Range(a.utmAddr, a.utmSize)])
            && var (s2, ret) := Step(s1, k, Destroy(0));
               if s.cpus[k].isEnclave then s2 == s1 && ret == ERR_SBI_PROHIBITED
               else
                 && ret == SUCCESS && SameTable(s.table, s2.table) && SameStates(s, s2)
                 && s2.executing == Quieted(Quieted(s.executing, h), k)
                 && WipedOnly(s.mem, s2.mem, [Range(a.utmAddr, a.utmSize), Range(a.epmAddr, a.epmSize)])
  {
    CreatedState(s, h, a, env);
    StepKeepsTables(s, h, Create(a, env));
    DestroyAfterCreate(s, Step(s, h, Create(a, env)).0, h, k, a);
  }

  lemma DestroyAfterCreate(s: System, s1: System, h: nat, k: nat, a: CreateArgs)
    requires TablesInv(s) && TablesInv(s1) && 1 <= k < N_HART && IdleTable(s.table) && Reserve(s.table, a).Reserved?
    requires s.enclaves[0].state == Invalid && s1.enclaves[0].state == Fresh
    requires s1.table == Reserve(s.table, a).table && s1.cpus == s.cpus && s1.executing == Quieted(s.executing, h)
    requires s1.mem == Zeroed(s.mem, a.utmAddr, a.utmSize)
    requires forall i :: 0 < i < ENCL_MAX ==> s1.enclaves[i] == s.enclaves[i]
    ensures var (s2, ret) := Step(s1, k, Destroy(0));
            if s.cpus[k].isEnclave then s2 == s1 && ret == ERR_SBI_PROHIBITED
            else
              && ret == SUCCESS && SameTable(s.table, s2.table) && SameStates(s, s2)
              && s2.executing == Quieted(Quieted(s.executing, h), k)
              && WipedOnly(s.mem, s2.mem, [Range(a.utmAddr, a.utmSize), Range(a.epmAddr, a.epmSize)])
  {
    if !s.cpus[k].isEnclave {
      DestroyUndoes(s, s1, h, k, a);
      DestroyAnswer(s1, k, 0);
    }
  }

  /** A destroyed slot keeps nothing of its enclave. */
  ghost predicate SlotReset(e: Enclave) {
    && e.state == Invalid && e.nThread == 0 && e.params == Params(0, 0, 0, 0, 0, 0, 0)
    && forall i :: 0 <= i < |e.regions| ==> e.regions[i].kind == NoRegion
  }

  /**
   Whatever has happened to the enclave since, a destroy that succeeds zeroes its private memory, byte by
   byte, touches no other memory, and resets its slot.
   */
  lemma DestroyWipes(s: System, h: nat)
    requires TablesInv(s) && 1 <= h < N_HART && Live(s.enclaves[0]) && Step(s, h, Destroy(0)).1 == SUCCESS
    ensures var r := Step(s, h, Destroy(0)).0;
            var p := s.enclaves[0].params;
            SlotReset(r.enclaves[0]) && WipedOnly(s.mem, r.mem, [Range(p.dramBase, p.dramSize)])
  {
    DestroyNeeds(s, h, 0);
    DestroyResets(s, h);
  }

  lemma DestroyNeeds(s: System, h: nat, eid: nat)
    requires Shaped(s) && h < N_HART && s.cpus[h].eid < ENCL_MAX && Step(s, h, Destroy(eid)).1 == SUCCESS
    ensures Destroyable(s, eid) && Step(s, h, Destroy(eid)).0 == DestroyEnclave(s, h, eid).0
  {
  }

  lemma DestroyResets(s: System, h: nat)
    requires TablesInv(s) && 1 <= h < N_HART && Live(s.enclaves[0]) && Destroyable(s, 0)
    ensures var r := DestroyEnclave(s, h, 0).0;
            var p := s.enclaves[0].params;
            SlotReset(r.enclaves[0]) && WipedOnly(s.mem, r.mem, [Range(p.dramBase, p.dramSize)])
  {
    assert EnclaveOk(s.enclaves[0]);
    DestroyFields(s, h, 0);
    OneRange(s.mem, s.enclaves[0].params.dramBase, s.enclaves[0].params.dramSize);
  }

  /** No other call and no trap touches memory. */
  lemma MemoryKept(s: System, h: nat, call: Call)
    requires TablesInv(s) && 1 <= h < N_HART && !call.Create? && !call.Destroy?
    ensures Step(s, h, call).0.mem == s.mem
  {
  }

  lemma DestroyUndoes(s: System, s1: System, h: nat, k: nat, a: CreateArgs)
    requires TablesInv(s) && TablesInv(s1) && 1 <= k < N_HART && IdleTable(s.table) && Reserve(s.table, a).Reserved?
    requires s.enclaves[0].state == Invalid && s1.enclaves[0].state == Fresh
    requires s1.table == Reserve(s.table, a).table && s1.cpus == s.cpus && s1.executing == Quieted(s.executing, h)
    requires s1.mem == Zeroed(s.mem, a.utmAddr, a.utmSize)
    requires forall i :: 0 < i < ENCL_MAX ==> s1.enclaves[i] == s.enclaves[i]
    ensures Destroyable(s1, 0)
    ensures var s2 := DestroyEnclave(s1, k, 0).0;
            && SameTable(s.table, s2.table) && SameStates(s, s2) && s2.executing == Quieted(Quieted(s.executing, h), k)
            && WipedOnly(s.mem, s2.mem, [Range(a.utmAddr, a.utmSize), Range(a.epmAddr, a.epmSize)])
  {
    TwoRanges(s.mem, a.utmAddr, a.utmSize, a.epmAddr, a.epmSize);
    ReserveFree(s.table, a);
    ReserveLoads(s.table, a);
    assert EnclaveOk(s.enclaves[0]) && EnclaveOk(s1.enclaves[0]);
    DestroyFields(s1, k, 0);
    StatesBack(s, s1, DestroyEnclave(s1, k, 0).0, 0);
  }

  lemma StatesBack(s: System, s1: System, s2: System, eid: nat)
    requires Shaped(s) && Shaped(s1) && Shaped(s2) && eid < ENCL_MAX
    requires s.enclaves[eid].state == Invalid && s.enclaves[eid].nThread == 0
    requires forall i :: 0 <= i < ENCL_MAX && i != eid ==> s1.enclaves[i] == s.enclaves[i]
    requires s2.enclaves == s1.enclaves[eid := Emptied(s1.enclaves[eid])]
    requires s2.cpus == s.cpus
    ensures SameStates(s, s2)
  {
  }

  lemma DestroyAnswer(s: System, k: nat, eid: nat)
    requires Shaped(s) && k < N_HART && !s.cpus[k].isEnclave && s.cpus[k].eid < ENCL_MAX && Destroyable(s, eid)
    ensures Step(s, k, Destroy(eid)) == DestroyEnclave(s, k, eid) && DestroyEnclave(s, k, eid).1 == SUCCESS
  {
  }

  /** What a successful create leaves behind. */
  lemma CreatedState(s: System, h: nat, a: CreateArgs, env: CreateEnv)
    requires TablesInv(s) && 1 <= h < N_HART && !s.cpus[h].isEnclave
    requires Step(s, h, Create(a, env)).1 == SUCCESS
    ensures var s1 := Step(s, h, Create(a, env)).0;
            && IdleTable(s.table) && s.enclaves[0].state == Invalid && Reserve(s.table, a).Reserved?
            && s1.table == Reserve(s.table, a).table && s1.cpus == s.cpus && s1.executing == Quieted(s.executing, h)
            && s1.enclaves[0].state == Fresh && s1.enclaves[0].params == ParamsOf(a)
            && s1.mem == Zeroed(s.mem, a.utmAddr, a.utmSize)
            && WipedOnly(s.mem, s1.mem, [Range(a.utmAddr, a.utmSize)])
            && (forall i :: 0 < i < ENCL_MAX ==> s1.enclaves[i] == s.enclaves[i])
  {
    SbiCreateResult(s, h, a, env);
    assert EnclaveOk(s.enclaves[0]);
    OneRange(s.mem, a.utmAddr, a.utmSize);
  }

  /** While an enclave is live no create succeeds: the region table has no room for a second one. */
  lemma OneEnclaveAtATime(s: System, h: nat, a: CreateArgs, env: CreateEnv, e: nat)
    requires TablesInv(s) && 1 <= h < N_HART && e < ENCL_MAX && Live(s.enclaves[e])
    ensures Step(s, h, Create(a, env)).1 != SUCCESS
  {
    if !s.cpus[h].isEnclave { LoadedRefuses(s.table, s.enclaves[0].params, a); }
  }

  // ---------- between calls ----------

  /** A region is defined exactly when it is a boot region or belongs to a live enclave; none is shared. */
  lemma RegionsAccounted(s: System)
    requires TablesInv(s)
    ensures forall i: nat :: Defined(s.table, i) <==>
              i < N_BOOT || exists e :: 0 <= e < ENCL_MAX && HoldsRegion(s.enclaves[e], i)
    ensures forall e, f, i: nat ::
              (0 <= e < ENCL_MAX && 0 <= f < ENCL_MAX && HoldsRegion(s.enclaves[e], i) && HoldsRegion(s.enclaves[f], i))
              ==> e == f && i >= N_BOOT
    ensures forall e :: 0 <= e < ENCL_MAX && Live(s.enclaves[e]) ==>
              s.enclaves[e].regions[0].rid != s.enclaves[e].regions[1].rid
  {
    TablesNoneLive(s);
    assert EnclaveOk(s.enclaves[0]);
    forall i: nat
      ensures Defined(s.table, i) <==>
              i < N_BOOT || exists e :: 0 <= e < ENCL_MAX && HoldsRegion(s.enclaves[e], i)
    {
      if Live(s.enclaves[0]) {
        assert HoldsRegion(s.enclaves[0], EPM_RID) && HoldsRegion(s.enclaves[0], UTM_RID);
      }
    }
  }

  /** A live enclave's two regions. */
  predicate HoldsRegion(e: Enclave, i: nat) {
    Live(e) && |e.regions| == REGIONS_MAX && (e.regions[0].rid == i || e.regions[1].rid == i)
  }
}
