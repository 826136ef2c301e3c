/**
 Which creates succeed: the exact condition on the arguments, in any state between calls, and with
 it runs from boot that bring an enclave into each of its states.
 */
module Admission {
  import opened Bits
  import opened PmpHardware
  import opened PmpRegions
  import opened PmpEncoding
  import opened PmpWord
  import opened Boot
  import opened Enclaves
  import opened Lifecycle
  import opened LifecycleSteps
  import opened HartSteps
  import opened Isolation
  import opened TrapRuns
  import opened RunSafety
  import opened CreateDestroy

  /** [addr, addr+size) consists of whole pages and meets none of the exclusive boot regions. */
  predicate Placeable(addr: U64, size: U64) {
    && size > 0 && addr + size < WORD && addr % PGSIZE == 0 && size % PGSIZE == 0
    && ClearOfBoot(addr, addr + size)
  }

  predicate ClearOfBoot(addr: nat, end: nat) {
    forall i: nat :: i < 5 ==> BOOT_REGIONS[i].addr + BOOT_REGIONS[i].size <= addr || end <= BOOT_REGIONS[i].addr
  }

  /** The whole address space is not clear of the device region. */
  lemma WholeSpaceMeets(addr: U64, size: U64)
    requires size == WORD - 1 && addr + size < WORD
    ensures !ClearOfBoot(addr, addr + size)
  {
    assert BOOT_REGIONS[4] == DEVICE;
  }

  /** Two placeable ranges apart from each other, the shared one a naturally aligned power of two. */
  ghost predicate Admissible(a: CreateArgs) {
    && ArgsValid(a) && Placeable(a.epmAddr, a.epmSize) && Placeable(a.utmAddr, a.utmSize)
    && (a.epmAddr + a.epmSize <= a.utmAddr || a.utmAddr + a.utmSize <= a.epmAddr)
    && AlignedPower(a.utmAddr, a.utmSize)
  }

  ghost predicate AlignedPower(addr: nat, size: nat) { exists k: nat :: size == Pow2(k) && Low(addr, k) == 0 }

  /** Nothing outside the model fails. */
  predicate Undisturbed(env: CreateEnv) { !env.copyFails && env.platformRet == 0 && env.hashRet == 0 }

  /** What the first checks of `pmp_region_init` mean. */
  lemma Granularity(addr: U64, size: U64)
    ensures And(addr, PGSIZE - 1) == addr % PGSIZE && And(size, PGSIZE - 1) == size % PGSIZE
  {
    PageOffset(addr);
    PageOffset(size);
  }

  /** The checks of `pmp_region_init`, and then a free slot and free registers. */
  lemma InitOkIff(t: Table, addr: U64, size: U64, pri: Priority)
    requires |t.regions| == N_REGION && pri != PriTop
    ensures RegionInit(t, addr, size, pri, false).1.Ok? <==>
            && size > 0 && !DetectsOverlap(t, addr, size) && (size == WORD - 1 || size % PGSIZE == 0)
            && addr % PGSIZE == 0 && FirstFree(t.defBitmap, N_REGION, 1, 0) >= 0
            && if pri == PriBottom then TakesNapot(addr, size)
               else FirstFree(t.regBitmap, N_REG, if TakesNapot(addr, size) then 1 else 2, 0) >= 0
  {
    Granularity(addr, size);
  }

  /** The exclusive regions of an idle table are the five boot regions. */
  lemma IdleHits(t: Table, addr: nat, end: nat)
    requires IdleTable(t)
    ensures HitsSome(t, addr, end) <==> !ClearOfBoot(addr, end)
  {
    forall i: nat | i < N_REGION
      ensures HitsRegion(t, i, addr, end) <==>
              i < 5 && BOOT_REGIONS[i].addr < end && BOOT_REGIONS[i].addr + BOOT_REGIONS[i].size > addr
    {
      if i < N_BOOT { assert Defined(t, i) && t.regions[i] == BOOT_REGIONS[i]; }
    }
  }

  /** In an idle table there is always a slot and a register for a private region. */
  lemma EpmFits(t: Table, addr: U64, size: U64)
    requires IdleTable(t)
    ensures RegionInit(t, addr, size, PriAny, false).1.Ok? <==> Placeable(addr, size)
  {
    InitOkIff(t, addr, size, PriAny);
    IdleHits(t, addr, addr + size);
    if size > 0 && addr + size < WORD && size == WORD - 1 { WholeSpaceMeets(addr, size); }
    IdleRoom(t);
  }

  lemma IdleRoom(t: Table)
    requires IdleTable(t)
    ensures FirstFree(t.defBitmap, N_REGION, 1, 0) >= 0
    ensures FirstFree(t.regBitmap, N_REG, 1, 0) >= 0 && FirstFree(t.regBitmap, N_REG, 2, 0) >= 0
  {
    IdleRegisters(t);
    FirstFreeAt(t.defBitmap, N_REGION, 6);
    assert !Used(t, 5) && !Used(t, 6);
    assert FreeRun(t.regBitmap, 5, 1) && FreeRun(t.regBitmap, 5, 2);
  }

  /** With the private region in slot 6, the shared one must also keep clear of that. */
  lemma UtmFits(t: Table, u: Table, addr: U64, size: U64)
    requires IdleTable(t) && |u.regions| == N_REGION && u.regions == t.regions[6 := u.regions[6]]
    requires !u.regions[6].allowOverlap && u.regions[6].addr + u.regions[6].size < WORD
    requires forall i: nat :: Bit(u.defBitmap, i) <==> i < 7
    ensures RegionInit(u, addr, size, PriBottom, false).1.Ok? <==>
            && Placeable(addr, size) && TakesNapot(addr, size)
            && (u.regions[6].addr + u.regions[6].size <= addr || addr + size <= u.regions[6].addr)
  {
    InitOkIff(u, addr, size, PriBottom);
    IdleHits(t, addr, addr + size);
    FirstFreeAt(u.defBitmap, N_REGION, 7);
    LoadedHits(t, u, addr, addr + size);
    if size == WORD - 1 && addr + size < WORD { WholeSpaceMeets(addr, size); }
  }

  lemma LoadedHits(t: Table, u: Table, addr: nat, end: nat)
    requires IdleTable(t) && |u.regions| == N_REGION && u.regions == t.regions[6 := u.regions[6]]
    requires !u.regions[6].allowOverlap && u.regions[6].addr + u.regions[6].size < WORD
    requires forall i: nat :: Bit(u.defBitmap, i) <==> i < 7
    ensures HitsSome(u, addr, end) <==>
            HitsSome(t, addr, end) || (u.regions[6].addr < end && u.regions[6].addr + u.regions[6].size > addr)
  {
    IdleRegisters(t);
    forall i: nat | i < N_REGION && i != 6 ensures HitsRegion(u, i, addr, end) <==> HitsRegion(t, i, addr, end) { }
    assert !HitsRegion(t, 6, addr, end);
    assert HitsRegion(u, 6, addr, end) <==> u.regions[6].addr < end && u.regions[6].addr + u.regions[6].size > addr;
  }

  /** The encoding of the whole address space is no option for a placeable range. */
  lemma SharedNapot(addr: U64, size: U64)
    requires Placeable(addr, size)
    ensures TakesNapot(addr, size) <==> AlignedPower(addr, size)
  {
    TakesNapotMeaning(addr, size);
    assert size != WORD - 1 by { assert (WORD - 1) % PGSIZE != 0; }
    if AlignedPower(addr, size) {
      var k: nat :| size == Pow2(k) && Low(addr, k) == 0;
      AndLowMask(addr, k);
      assert IsPow2(size);
      PowerOfTwoTest(size);
    }
  }

  lemma ReserveIff(t: Table, a: CreateArgs)
    requires IdleTable(t) && ArgsValid(a)
    ensures Reserve(t, a).Reserved? <==> Admissible(a)
  {
    EpmFits(t, a.epmAddr, a.epmSize);
    var (u, res) := RegionInit(t, a.epmAddr, a.epmSize, PriAny, false);
    if res.Ok? {
      ReserveEpm(t, a.epmAddr, a.epmSize);
      UtmFits(t, u, a.utmAddr, a.utmSize);
      assert Reserve(t, a).Reserved? <==> RegionInit(u, a.utmAddr, a.utmSize, PriBottom, false).1.Ok?;
      if Placeable(a.utmAddr, a.utmSize) { SharedNapot(a.utmAddr, a.utmSize); }
    }
  }

  /**
   In every state between calls a host's create succeeds exactly when no enclave is live, nothing
   outside fails, and the two ranges are admissible: tables, registers and ids are never short.
   */
  lemma CreateSucceedsIff(s: System, h: nat, a: CreateArgs, env: CreateEnv)
    requires TablesInv(s) && 1 <= h < N_HART && !s.cpus[h].isEnclave
    ensures Step(s, h, Create(a, env)).1 == SUCCESS <==> NoneLive(s) && Undisturbed(env) && Admissible(a)
  {
    TablesNoneLive(s);
    if NoneLive(s) && ArgsValid(a) { ReserveIff(s.table, a); }
    if NoneLive(s) && Undisturbed(env) && Admissible(a) {
      CreateAccepted(s, h, a, env);
    } else {
      SbiCreateResult(s, h, a, env);
      SuccessNeeds(s, SbiCreate(s, h, a, env).0, SbiCreate(s, h, a, env).1, h, a, env);
    }
  }

  lemma SuccessNeeds(s: System, r: System, ret: nat, h: nat, a: CreateArgs, env: CreateEnv)
    requires Shaped(s) && Shaped(r) && CreateResult(s, r, ret, h, a, env)
    ensures ret == SUCCESS ==>
              !Live(s.enclaves[0]) && Undisturbed(env) && ArgsValid(a) && Reserve(s.table, a).Reserved?
  {
  }

  lemma CreateAccepted(s: System, h: nat, a: CreateArgs, env: CreateEnv)
    requires TablesInv(s) && 1 <= h < N_HART && FreeEid(s.enclaves, 0) == 0
    requires ArgsValid(a) && Reserve(s.table, a).Reserved? && Undisturbed(env)
    ensures SbiCreate(s, h, a, env).1 == SUCCESS
  {
    SbiCreateParts(s, h, a, env);
  }

  // ---------- every state of an enclave is reached ----------

  /** Three pages and a shared page. */
  const SMALL: CreateArgs := CreateArgs(0x9000_0000, 0x3000, 0x9000_4000, 0x1000, 0x9000_1000, 0x9000_2000, 0x9000_3000)

  /** Admissible arguments exist, also such whose private range takes two registers. */
  lemma SomeAdmissible(a: CreateArgs)
    requires a == SMALL
    ensures Admissible(a) && !TakesNapot(a.epmAddr, a.epmSize)
  {
    ThreePages(a.epmAddr, a.epmSize);
    PlaceableAbove(a.epmAddr, a.epmSize);
    PlaceableAbove(a.utmAddr, a.utmSize);
    PageAligned(a.utmAddr, a.utmSize);
  }

  /** Whole pages above the boot regions. */
  lemma PlaceableAbove(addr: U64, size: U64)
    requires 0x9000_0000 <= addr && addr % PGSIZE == 0 && 0 < size && size % PGSIZE == 0 && addr + size < WORD
    ensures Placeable(addr, size)
  {
  }

  lemma PageAligned(addr: U64, size: U64)
    requires addr % PGSIZE == 0 && size == PGSIZE
    ensures AlignedPower(addr, size)
  {
    PageOffset(addr);
    Pow2Values();
    assert size == Pow2(12) && Low(addr, 12) == 0;
  }

  /** The enclave in slot 0 has the given state, hart `h` is inside or not, and its traps go this way. */
  predicate Stands(s: System, h: nat, state: Status, inside: bool, executing: bool) {
    && Shaped(s) && h < N_HART && s.enclaves[0].state == state
    && s.cpus[h].isEnclave == inside && s.executing[h] == executing
  }

  lemma CreateFirst(s: System, h: nat, a: CreateArgs, env: CreateEnv)
    requires TablesInv(s) && 1 <= h < N_HART && Stands(s, h, Invalid, false, false)
    requires Admissible(a) && Undisturbed(env)
    ensures var r := Step(s, h, Create(a, env)).0;
            Stands(r, h, Fresh, false, false) && r.cpus == s.cpus && r.executing == Quieted(s.executing, h)
            && r.enclaves[0].params == ParamsOf(a)
  {
    TablesNoneLive(s);
    CreateSucceedsIff(s, h, a, env);
    CreatedState(s, h, a, env);
  }

  lemma RunFresh(s: System, h: nat)
    requires TablesInv(s) && 1 <= h < N_HART && Stands(s, h, Fresh, false, false)
    ensures var r := Step(s, h, Run(0)).0;
            Stands(r, h, Running, true, true)
  {
    EntersEffect(s, h, Run(0));
  }

  lemma InterruptRunning(s: System, h: nat)
    requires TablesInv(s) && 1 <= h < N_HART && Stands(s, h, Running, true, true)
    ensures Stands(Step(s, h, Interrupt).0, h, Stopped, false, false)
  {
    LeavesEffect(s, h, Interrupt);
  }

  /** A run or resume of a slot without an enclave is refused, and yet sets the execution flag. */
  lemma RunNothing(s: System, h: nat, eid: nat)
    requires TablesInv(s) && 1 <= h < N_HART && !s.cpus[h].isEnclave && eid != 0
    ensures Step(s, h, Run(eid)) == (TrapExit(s, h, true), ERR_NOT_FRESH)
  {
    if eid < ENCL_MAX { assert EnclaveOk(s.enclaves[eid]); }
  }

  // ---------- runs ----------

  /** From boot, any hart 1..4 can create with admissible arguments. */
  lemma ReachCreated(before: seq<Csrs>, mem: map<nat, Byte>, h: nat, a: CreateArgs, env: CreateEnv)
    returns (run: seq<Event>)
    requires AllValid(before) && 1 <= h < N_HART && Admissible(a) && Undisturbed(env)
    ensures run == [] + [Event(h, Create(a, env))] && ValidRun(run)
    ensures var s := Reached(before, mem, run);
            && s.enclaves[0].params == ParamsOf(a)
            && forall k: nat :: 1 <= k < N_HART ==> Stands(s, k, Fresh, false, false)
  {
    run := [] + [Event(h, Create(a, env))];
    ReachNext(before, mem, [], Event(h, Create(a, env)));
    BootedInv(before, mem);
    CreateFirst(BootSystem(before, mem), h, a, env);
  }

  lemma ReachRunning(before: seq<Csrs>, mem: map<nat, Byte>, created: seq<Event>, h: nat)
    returns (run: seq<Event>)
    requires AllValid(before) && ValidRun(created) && 1 <= h < N_HART
    requires Stands(Reached(before, mem, created), h, Fresh, false, false)
    ensures run == created + [Event(h, Run(0))] && ValidRun(run)
    ensures Stands(Reached(before, mem, run), h, Running, true, true)
    ensures forall k: nat :: k < N_HART && k != h ==>
              && Reached(before, mem, run).cpus[k] == Reached(before, mem, created).cpus[k]
              && Reached(before, mem, run).executing[k] == Reached(before, mem, created).executing[k]
  {
    run := created + [Event(h, Run(0))];
    ReachNext(before, mem, created, Event(h, Run(0)));
    var s := Reached(before, mem, created);
    RunFresh(s, h);
    EntersEffect(s, h, Run(0));
  }

  lemma ReachStopped(before: seq<Csrs>, mem: map<nat, Byte>, running: seq<Event>, h: nat)
    returns (run: seq<Event>)
    requires AllValid(before) && ValidRun(running) && 1 <= h < N_HART
    requires Stands(Reached(before, mem, running), h, Running, true, true)
    ensures run == running + [Event(h, Interrupt)] && ValidRun(run)
    ensures Stands(Reached(before, mem, run), h, Stopped, false, false)
  {
    run := running + [Event(h, Interrupt)];
    ReachNext(before, mem, running, Event(h, Interrupt));
    InterruptRunning(Reached(before, mem, running), h);
  }

  /**
   From every boot, every hart that creates with admissible arguments, runs, and is interrupted
   takes its enclave through FRESH, RUNNING on that hart, and STOPPED.
   */
  lemma EveryStateReached(before: seq<Csrs>, mem: map<nat, Byte>, h: nat, a: CreateArgs, env: CreateEnv)
    returns (created: seq<Event>, running: seq<Event>, stopped: seq<Event>)
    requires AllValid(before) && 1 <= h < N_HART && Admissible(a) && Undisturbed(env)
    ensures created == [] + [Event(h, Create(a, env))]
    ensures running == created + [Event(h, Run(0))] && stopped == running + [Event(h, Interrupt)]
    ensures ValidRun(created) && Stands(Reached(before, mem, created), h, Fresh, false, false)
    ensures ValidRun(running) && Stands(Reached(before, mem, running), h, Running, true, true)
    ensures ValidRun(stopped) && Stands(Reached(before, mem, stopped), h, Stopped, false, false)
  {
    created := ReachCreated(before, mem, h, a, env);
    running := ReachRunning(before, mem, created, h);
    stopped := ReachStopped(before, mem, running, h);
  }

  // ---------- runs on which a promise fails ----------

  /** A run of an empty slot changes nothing but the hart's execution flag. */
  lemma ReachRefused(before: seq<Csrs>, mem: map<nat, Byte>, run: seq<Event>, h: nat) returns (refused: seq<Event>)
    requires AllValid(before) && ValidRun(run) && 1 <= h < N_HART && !Reached(before, mem, run).cpus[h].isEnclave
    ensures refused == run + [Event(h, Run(5))] && ValidRun(refused)
    ensures Reached(before, mem, refused) == TrapExit(Reached(before, mem, run), h, true)
  {
    refused := run + [Event(h, Run(5))];
    ReachNext(before, mem, run, Event(h, Run(5)));
    RunNothing(Reached(before, mem, run), h, 5);
  }

  /**
   From every boot: after a create, a run of an empty slot on any hart, which is refused, and a
   return from the firmware on that hart, the hart in host context may read, write and execute all
   of the private memory.
   */
  lemma RefusedRunExposes(before: seq<Csrs>, mem: map<nat, Byte>, h: nat, a: CreateArgs, env: CreateEnv, x: nat)
    returns (run: seq<Event>)
    requires AllValid(before) && 1 <= h < N_HART && Admissible(a) && Undisturbed(env)
    requires a.epmSize > 0 && Expressible(ParamsOf(a)) && x < PHYS && InEpm(ParamsOf(a), x)
    ensures run == [] + [Event(h, Create(a, env))] + [Event(h, Run(5))] + [Event(h, FirmwareReturn)] && ValidRun(run)
    ensures var s := Reached(before, mem, run);
            && Stands(s, h, Fresh, false, true) && s.enclaves[0].params == ParamsOf(a)
            && Perm(s.harts[h], x) == SU_RWX && h !in Entered(before, mem, run, |run|)
  {
    var created := ReachCreated(before, mem, h, a, env);
    assert Stands(Reached(before, mem, created), h, Fresh, false, false);
    var refused := ReachRefused(before, mem, created, h);
    run := refused + [Event(h, FirmwareReturn)];
    ReachNext(before, mem, refused, Event(h, FirmwareReturn));
    ExposedBy(Reached(before, mem, refused), h, x);
    FreshAtEnd(before, mem, run);
  }

  /** Nobody has entered an enclave that is FRESH after a run. */
  lemma FreshAtEnd(before: seq<Csrs>, mem: map<nat, Byte>, run: seq<Event>)
    requires AllValid(before) && ValidRun(run) && Reached(before, mem, run).enclaves[0].state == Fresh
    ensures Entered(before, mem, run, |run|) == {}
  {
    assert run[..|run|] == run;
    EnteredIsInside(before, mem, run, |run|);
  }

  lemma ExposedBy(s: System, h: nat, x: nat)
    requires CoreInv(s) && 1 <= h < N_HART && s.executing[h] && Visible(s)
    requires x < PHYS && InEpm(s.enclaves[0].params, x)
    ensures var r := Step(s, h, FirmwareReturn).0;
            && r.enclaves == s.enclaves && r.cpus == s.cpus && r.executing == s.executing
            && Perm(r.harts[h], x) == SU_RWX
  {
    FixesHart(s, h, FirmwareReturn);
    PermInEpm(Step(s, h, FirmwareReturn).0.harts[h], s.table, s.enclaves[0].params, SU_RWX, x);
  }

  /**
   From every boot: while hart `k` runs its enclave, a refused run and an interrupt on another hart
   leave the enclave STOPPED with hart `k` inside, whose exit is then answered NOT_RUNNING. The return from
   the firmware is the one that ends the interrupt by which the other hart was told of the create.
   */
  lemma RefusedRunStrands(before: seq<Csrs>, mem: map<nat, Byte>, h: nat, k: nat, a: CreateArgs, env: CreateEnv)
    returns (run: seq<Event>)
    requires AllValid(before) && 1 <= h < N_HART && 1 <= k < N_HART && h != k && Admissible(a) && Undisturbed(env)
    ensures |run| == 5 && run[0] == Event(k, Create(a, env)) && run[1] == Event(h, FirmwareReturn)
    ensures run[2] == Event(k, Run(0)) && run[3] == Event(h, Run(5)) && run[4] == Event(h, Interrupt)
    ensures ValidRun(run) && Stands(Reached(before, mem, run), k, Stopped, true, true)
    ensures Stands(Reached(before, mem, run), h, Stopped, false, false)
    ensures Step(Reached(before, mem, run), k, Exit).1 == ERR_NOT_RUNNING
  {
    var running := ReachOnlyRunning(before, mem, h, k, a, env);
    var refused := ReachRefused(before, mem, running, h);
    run := ReachStranded(before, mem, refused, h, k);
  }

  /** A return from the firmware changes no flag and no state. */
  lemma ReachReturned(before: seq<Csrs>, mem: map<nat, Byte>, run: seq<Event>, h: nat) returns (next: seq<Event>)
    requires AllValid(before) && ValidRun(run) && 1 <= h < N_HART
    ensures next == run + [Event(h, FirmwareReturn)] && ValidRun(next)
    ensures var s := Reached(before, mem, run);
            Reached(before, mem, next) == s.(harts := Reached(before, mem, next).harts)
  {
    next := run + [Event(h, FirmwareReturn)];
    ReachNext(before, mem, run, Event(h, FirmwareReturn));
    ReturnKeepsFlags(Reached(before, mem, run), h, FirmwareReturn);
  }

  /** Hart `k` runs its enclave, of which hart `h` has been told. */
  lemma ReachOnlyRunning(before: seq<Csrs>, mem: map<nat, Byte>, h: nat, k: nat, a: CreateArgs, env: CreateEnv)
    returns (running: seq<Event>)
    requires AllValid(before) && 1 <= h < N_HART && 1 <= k < N_HART && h != k && Admissible(a) && Undisturbed(env)
    ensures running == [] + [Event(k, Create(a, env))] + [Event(h, FirmwareReturn)] + [Event(k, Run(0))]
    ensures ValidRun(running)
    ensures Stands(Reached(before, mem, running), k, Running, true, true)
    ensures Stands(Reached(before, mem, running), h, Running, false, false)
  {
    var created := ReachCreated(before, mem, k, a, env);
    assert Stands(Reached(before, mem, created), k, Fresh, false, false);
    assert Stands(Reached(before, mem, created), h, Fresh, false, false);
    var told := ReachReturned(before, mem, created, h);
    running := ReachRunning(before, mem, told, k);
  }

  lemma ReachStranded(before: seq<Csrs>, mem: map<nat, Byte>, refused: seq<Event>, h: nat, k: nat)
    returns (run: seq<Event>)
    requires AllValid(before) && ValidRun(refused) && 1 <= h < N_HART && 1 <= k < N_HART && h != k
    requires Stands(Reached(before, mem, refused), h, Running, false, true)
    requires Stands(Reached(before, mem, refused), k, Running, true, true)
    ensures run == refused + [Event(h, Interrupt)] && ValidRun(run)
    ensures Stands(Reached(before, mem, run), k, Stopped, true, true)
    ensures Stands(Reached(before, mem, run), h, Stopped, false, false)
    ensures Step(Reached(before, mem, run), k, Exit).1 == ERR_NOT_RUNNING
  {
    run := refused + [Event(h, Interrupt)];
    ReachNext(before, mem, refused, Event(h, Interrupt));
    StrandedBy(Reached(before, mem, refused), h, k);
    LeavingFailsIff(Reached(before, mem, run), k, Exit);
  }

  lemma StrandedBy(s: System, h: nat, k: nat)
    requires CoreInv(s) && 1 <= h < N_HART && 1 <= k < N_HART && h != k
    requires Strands(s, h, Interrupt) && s.cpus[k].isEnclave && s.executing[k]
    ensures Stands(Step(s, h, Interrupt).0, k, Stopped, true, true)
    ensures Stands(Step(s, h, Interrupt).0, h, Stopped, false, false)
  {
    LeavesEffect(s, h, Interrupt);
  }

  // ---------- a return from the firmware, and a region of two registers ----------

  /** The return switches the region off, and the OS region gives the hart all but its first bytes. */
  lemma OffExposes(s: System, k: nat, x: nat)
    requires CoreInv(s) && 1 <= k < N_HART && Live(s.enclaves[0]) && !OneRegister(s.enclaves[0].params)
    requires !s.executing[k] && OsOpen(s.harts[k])
    requires x < PHYS && InEpm(s.enclaves[0].params, x) && s.enclaves[0].params.dramBase + 8 <= x
    ensures var r := Step(s, k, FirmwareReturn).0;
            r == s.(harts := r.harts) && Perm(r.harts[k], x) == SU_RWX
  {
    ReturnKeepsFlags(s, k, FirmwareReturn);
    RegistersOf(s);
    assert CoreHart(s, k);
    LockedHart(s.harts[k]);
    OffGrants(Locked(s.harts[k]), s.table, s.enclaves[0].params, x);
  }

  lemma OffGrants(c: Csrs, t: Table, p: Params, x: nat)
    requires ValidCsrs(c) && BootProgrammed(c) && LoadedTable(t, p) && SwitchedOff(c, t.regions[EPM_RID]) && OsOpen(c)
    requires x < PHYS && InEpm(p, x) && p.dramBase + 8 <= x
    ensures Perm(c, x) == SU_RWX
  {
    EpmOutsideBoot(t, p, x);
    OffEntry(c, t, p, x);
    WholeSpaceEntry(c, SU_RWX, x);
    ModOfSmaller(p.dramBase, PHYS);
  }

  /**
   From every boot: after a create with any private range that is no aligned power of two, and a return from
   the firmware on any hart, that hart, which is in host context and has entered nothing, may read, write and execute
   all of the private memory but its first eight bytes.
   */
  lemma ReturnExposes(before: seq<Csrs>, mem: map<nat, Byte>, h: nat, k: nat, a: CreateArgs, env: CreateEnv, x: nat)
    returns (run: seq<Event>)
    requires AllValid(before) && 1 <= h < N_HART && 1 <= k < N_HART && Admissible(a) && Undisturbed(env)
    requires !TakesNapot(a.epmAddr, a.epmSize) && x < PHYS && InEpm(ParamsOf(a), x) && a.epmAddr + 8 <= x
    ensures run == [] + [Event(h, Create(a, env))] + [Event(k, FirmwareReturn)] && ValidRun(run)
    ensures var s := Reached(before, mem, run);
            && Stands(s, k, Fresh, false, false) && s.enclaves[0].params == ParamsOf(a)
            && Perm(s.harts[k], x) == SU_RWX && k !in Entered(before, mem, run, |run|)
  {
    var created := ReachCreated(before, mem, h, a, env);
    assert Stands(Reached(before, mem, created), k, Fresh, false, false);
    CreatedRegisters(before, mem, created, h, k, a, env);
    run := created + [Event(k, FirmwareReturn)];
    ReachNext(before, mem, created, Event(k, FirmwareReturn));
    OffExposes(Reached(before, mem, created), k, x);
    FreshAtEnd(before, mem, run);
  }

  /** After the first create every hart has the private region closed and the OS region open. */
  lemma CreatedRegisters(before: seq<Csrs>, mem: map<nat, Byte>, run: seq<Event>, h: nat, k: nat, a: CreateArgs,
                         env: CreateEnv)
    requires AllValid(before) && 1 <= h < N_HART && 1 <= k < N_HART && Admissible(a) && Undisturbed(env)
    requires run == [] + [Event(h, Create(a, env))] && ValidRun(run)
    ensures var s := Reached(before, mem, run);
            Programmed(s.harts[k], s.table.regions[EPM_RID], NO_PERM) && OsOpen(s.harts[k])
  {
    ReachNext(before, mem, [], Event(h, Create(a, env)));
    BootedInv(before, mem);
    FirstCreateHart(BootSystem(before, mem), h, k, a, env);
  }

  lemma FirstCreateHart(s: System, h: nat, k: nat, a: CreateArgs, env: CreateEnv)
    requires CoreInv(s) && 1 <= h < N_HART && 1 <= k < N_HART && Stands(s, h, Invalid, false, false)
    requires Admissible(a) && Undisturbed(env) && OpenToHost(s, k) && !s.cpus[k].isEnclave
    ensures var r := Step(s, h, Create(a, env)).0;
            Programmed(r.harts[k], r.table.regions[EPM_RID], NO_PERM) && OsOpen(r.harts[k])
  {
    TablesNoneLive(s);
    CreateSucceedsIff(s, h, a, env);
    CreatesHarts(s, h, a, env);
    assert HartKept(s, Step(s, h, Create(a, env)).0, k);
  }

  /** Three pages of which only the first is in physical memory, at its very end, and a shared page. */
  const BEYOND: CreateArgs := CreateArgs(0xff_ffff_ffff_f000, 0x3000, 0x9000_4000, 0x1000,
                                         0x100_0000_0000_0000, 0x100_0000_0000_1000, 0x100_0000_0000_2000)

  /** There are admissible arguments whose private range starts in physical memory and cannot be expressed. */
  lemma SomeInexpressible(a: CreateArgs)
    requires a == BEYOND
    ensures Admissible(a) && a.epmAddr < PHYS && !Expressible(ParamsOf(a))
  {
    PlaceableAbove(a.epmAddr, a.epmSize);
    PlaceableAbove(a.utmAddr, a.utmSize);
    PageAligned(a.utmAddr, a.utmSize);
    ThreePages(a.epmAddr, a.epmSize);
    Pow2Values();
  }

  lemma ThreePages(addr: U64, size: U64)
    requires size == 0x3000
    ensures !TakesNapot(addr, size)
  {
    NoPower(size);
    PowerOfTwoTest(size);
  }

  /** From every boot, a create with such arguments leaves the last physical address open to every hart. */
  lemma LastAddressReached(before: seq<Csrs>, mem: map<nat, Byte>, h: nat, k: nat, a: CreateArgs, env: CreateEnv)
    returns (run: seq<Event>)
    requires AllValid(before) && 1 <= h < N_HART && 1 <= k < N_HART && Undisturbed(env)
    requires Admissible(a) && a.epmAddr < PHYS && !Expressible(ParamsOf(a))
    ensures run == [] + [Event(h, Create(a, env))] && ValidRun(run)
    ensures var s := Reached(before, mem, run);
            && Stands(s, k, Fresh, false, false) && InEpm(s.enclaves[0].params, PHYS - 1)
            && Perm(s.harts[k], PHYS - 1) == SU_RWX
  {
    run := ReachCreated(before, mem, h, a, env);
    assert Stands(Reached(before, mem, run), k, Fresh, false, false);
    CreatedRegisters(before, mem, run, h, k, a, env);
    LastAddressOpen(Reached(before, mem, run), k);
  }
}
