/**
 The monitor seen from outside: what it answers to every call in every state between calls, what becomes of
 the enclave's state, and what a destroy or a failed create leaves in the registers of other harts.
 */
module Answers {
  import opened Bits
  import opened PmpHardware
  import opened PmpRegions
  import opened PmpEncoding
  import opened Boot
  import opened Enclaves
  import opened Lifecycle
  import opened LifecycleSteps
  import opened HartSteps
  import opened Isolation
  import opened TrapRuns
  import opened CreateDestroy
  import opened Admission

  // ---------- answers ----------

  /** Ranges that are not empty and end inside the address space; runtime, application and free memory in order. */
  predicate InOrder(a: CreateArgs) {
    && a.epmSize > 0 && a.epmAddr + a.epmSize < WORD && a.utmSize > 0 && a.utmAddr + a.utmSize < WORD
    && a.epmAddr <= a.runtime <= a.user <= a.free <= a.epmAddr + a.epmSize && a.user < a.epmAddr + a.epmSize
  }

  /** The checks of `is_create_args_valid`, whose sums wrap, accept no sum that does. */
  lemma ArgsValidIff(a: CreateArgs)
    ensures ArgsValid(a) <==> InOrder(a)
  {
    WrapsBelow(a.epmAddr, a.epmSize);
    WrapsBelow(a.utmAddr, a.utmSize);
  }

  lemma WrapsBelow(addr: U64, size: U64)
    ensures (addr + size) % WORD == if addr + size < WORD then addr + size else addr + size - WORD
  {
  }

  /** What is answered to a host's create, given the state of the enclave in slot 0. */
  ghost function CreateCode(state: Status, a: CreateArgs, env: CreateEnv): nat {
    if env.copyFails then ERR_REGION_OVERLAPS
    else if !InOrder(a) then ERR_ILLEGAL_ARGUMENT
    else if state != Invalid || !Admissible(a) then ERR_PMP_FAILURE
    else if env.platformRet != 0 then env.platformRet
    else env.hashRet
  }

  /** What is answered to a call: it depends on the hart's context and the state of the enclave in slot 0 alone. */
  ghost function Code(inside: bool, state: Status, call: Call): nat
    requires !call.Interrupt? && !call.FirmwareReturn?
  {
    if inside then
      match call
      case Stop(request) =>
        if state != Running then ERR_NOT_RUNNING
        else if request == 0 then ERR_INTERRUPTED
        else if request == 1 || request == 3 then ERR_EDGE_CALL_HOST
        else ERR_UNKNOWN
      case Exit => if state != Running then ERR_NOT_RUNNING else SUCCESS
      case _ => ERR_SBI_PROHIBITED
    else
      match call
      case Create(a, env) => CreateCode(state, a, env)
      case Destroy(eid) => if eid == 0 && (state == Fresh || state == Stopped) then SUCCESS else ERR_NOT_DESTROYABLE
      case Run(eid) => if eid == 0 && state == Fresh then SUCCESS else ERR_NOT_FRESH
      case Resume(eid) => if eid == 0 && state == Stopped then SUCCESS else ERR_NOT_RESUMABLE
      case _ => ERR_SBI_PROHIBITED
  }

  lemma CreateAnswered(s: System, h: nat, a: CreateArgs, env: CreateEnv)
    requires TablesInv(s) && 1 <= h < N_HART
    ensures SbiCreate(s, h, a, env).1 == CreateCode(s.enclaves[0].state, a, env)
  {
    SbiCreateParts(s, h, a, env);
    var s1 := s.(harts := s.harts[h := OsUnlockLock(s.table, s.harts[h])]);
    SameTables(s, s1);
    EnclaveAnswered(s1, h, a, env);
  }

  lemma EnclaveAnswered(s: System, h: nat, a: CreateArgs, env: CreateEnv)
    requires TablesInv(s) && 1 <= h < N_HART
    ensures !env.copyFails ==> CreateEnclave(s, h, a, env).1 == CreateCode(s.enclaves[0].state, a, env)
  {
    ArgsValidIff(a);
    TablesNoneLive(s);
    assert EnclaveOk(s.enclaves[0]);
    if Live(s.enclaves[0]) {
      assert EnclaveOk(s.enclaves[1]) && !Live(s.enclaves[1]);
      LoadedRefuses(s.table, s.enclaves[0].params, a);
    } else if ArgsValid(a) {
      ReserveIff(s.table, a);
    }
  }

  /** In every state between calls, by whatever hart and in whatever context: the answer to every call. */
  lemma AnswersExactly(s: System, h: nat, call: Call)
    requires TablesInv(s) && 1 <= h < N_HART && !call.Interrupt? && !call.FirmwareReturn?
    ensures Step(s, h, call).1 == Code(s.cpus[h].isEnclave, s.enclaves[0].state, call)
  {
    forall i | 0 <= i < ENCL_MAX ensures EnclaveOk(s.enclaves[i]) && (i == 0 || s.enclaves[i].state == Invalid) { }
    if call.Create? && !s.cpus[h].isEnclave { CreateAnswered(s, h, call.args, call.env); }
  }

  // ---------- the enclave's states ----------

  /** The state of the enclave in slot 0 after a call answered with `ret`, or after a trap. */
  function StateAfter(state: Status, inside: bool, executing: bool, call: Call, ret: nat): Status {
    match call
    case Create(_, _) => if ret == SUCCESS then Fresh else state
    case Destroy(_) => if ret == SUCCESS then Invalid else state
    case Run(_) => if ret == SUCCESS then Running else state
    case Resume(_) => if ret == SUCCESS then Running else state
    case Stop(_) => if inside && state == Running then Stopped else state
    case Exit => if inside && state == Running then Stopped else state
    case Interrupt => if executing && state == Running then Stopped else state
    case FirmwareReturn => state
  }

  ghost predicate StatesFollow(s: System, r: System, ret: nat, h: nat, call: Call)
    requires Shaped(s) && Shaped(r) && h < N_HART
  {
    && r.enclaves[0].state == StateAfter(s.enclaves[0].state, s.cpus[h].isEnclave, s.executing[h], call, ret)
    && forall i :: 0 < i < ENCL_MAX ==> r.enclaves[i].state == Invalid
  }

  lemma OthersInvalid(s: System)
    requires TablesInv(s)
    ensures forall i :: 0 < i < ENCL_MAX ==> s.enclaves[i].state == Invalid
  {
    forall i | 0 < i < ENCL_MAX ensures s.enclaves[i].state == Invalid { assert EnclaveOk(s.enclaves[i]); }
  }

  lemma SwitchStates(s: System, h: nat, call: Call)
    requires TablesInv(s) && 1 <= h < N_HART && (Enters(s, h, call) || Leaves(s, h, call))
    ensures StatesFollow(s, Step(s, h, call).0, Step(s, h, call).1, h, call)
  {
    OthersInvalid(s);
    if Enters(s, h, call) { EntersEffect(s, h, call); } else { LeavesEffect(s, h, call); }
  }

  lemma CreateStates(s: System, h: nat, a: CreateArgs, env: CreateEnv)
    requires TablesInv(s) && 1 <= h < N_HART
    ensures StatesFollow(s, SbiCreate(s, h, a, env).0, SbiCreate(s, h, a, env).1, h, Create(a, env))
  {
    OthersInvalid(s);
    SbiCreateResult(s, h, a, env);
    assert EnclaveOk(s.enclaves[0]);
    ResultStates(s, SbiCreate(s, h, a, env).0, SbiCreate(s, h, a, env).1, h, a, env);
  }

  lemma ResultStates(s: System, r: System, ret: nat, h: nat, a: CreateArgs, env: CreateEnv)
    requires Shaped(s) && Shaped(r) && h < N_HART && CreateResult(s, r, ret, h, a, env) && EnclaveOk(s.enclaves[0])
    requires forall i :: 0 < i < ENCL_MAX ==> s.enclaves[i].state == Invalid
    ensures StatesFollow(s, r, ret, h, Create(a, env))
  {
  }

  lemma DestroyStates(s: System, h: nat, eid: nat)
    requires TablesInv(s) && 1 <= h < N_HART && Destroyable(s, eid)
    ensures DestroyEnclave(s, h, eid).1 == SUCCESS
    ensures StatesFollow(s, DestroyEnclave(s, h, eid).0, SUCCESS, h, Destroy(eid))
  {
    OthersInvalid(s);
    DestroyKeepsTables(s, h, eid);
    assert EnclaveOk(s.enclaves[0]);
    DestroyFields(s, h, eid);
  }

  lemma OtherStates(s: System, h: nat, call: Call)
    requires TablesInv(s) && 1 <= h < N_HART && !Enters(s, h, call) && !Leaves(s, h, call)
    requires !Creates(s, h, call) && !Destroys(s, h, call)
    ensures StatesFollow(s, Step(s, h, call).0, Step(s, h, call).1, h, call)
  {
    OthersInvalid(s);
    if call.FirmwareReturn? {
      ReturnKeepsFlags(s, h, call);
    } else {
      OtherCalls(s, h, call);
      NothingEntered(s, h, call);
    }
  }

  /** In every state between calls: what each call and trap makes of the enclaves' states. Slots 1..15 stay unused. */
  lemma StatesExactly(s: System, h: nat, call: Call)
    requires TablesInv(s) && 1 <= h < N_HART
    ensures StatesFollow(s, Step(s, h, call).0, Step(s, h, call).1, h, call)
  {
    if Enters(s, h, call) || Leaves(s, h, call) {
      SwitchStates(s, h, call);
    } else if Creates(s, h, call) {
      CreatesStep(s, h, call);
      CreateStates(s, h, call.args, call.env);
    } else if Destroys(s, h, call) {
      DestroysStep(s, h, call);
      DestroyStates(s, h, call.eid);
    } else {
      OtherStates(s, h, call);
    }
  }

  lemma NothingEntered(s: System, h: nat, call: Call)
    requires TablesInv(s) && 1 <= h < N_HART && !Enters(s, h, call) && !Creates(s, h, call) && !Destroys(s, h, call)
    ensures call.Create? || call.Destroy? || call.Run? || call.Resume? ==> Step(s, h, call).1 != SUCCESS
  {
    forall i | 0 <= i < ENCL_MAX ensures EnclaveOk(s.enclaves[i]) && (i == 0 || s.enclaves[i].state == Invalid) { }
  }

  // ---------- calls that are refused ----------

  /** What a refused call leaves of the flag that routes the hart's traps. */
  function RefusedExecuting(was: bool, call: Call, ret: nat): bool {
    if (call.Run? || call.Resume?) && ret != ERR_SBI_PROHIBITED then true
    else if (call.Stop? || call.Exit?) && ret != ERR_SBI_PROHIBITED then false
    else was
  }

  /**
   A call that is refused, by the gate or for the enclave's state, changes nothing but that flag, which a run or
   resume raises and a stop or exit lowers as if they had succeeded.
   */
  lemma RefusedKeepsAll(s: System, h: nat, call: Call)
    requires TablesInv(s) && 1 <= h < N_HART && (call.Destroy? || call.Run? || call.Resume? || call.Stop? || call.Exit?)
    requires Step(s, h, call).1 in
               {ERR_SBI_PROHIBITED, ERR_NOT_DESTROYABLE, ERR_NOT_FRESH, ERR_NOT_RESUMABLE, ERR_NOT_RUNNING}
    ensures var (r, ret) := Step(s, h, call);
            r == s.(executing := s.executing[h := RefusedExecuting(s.executing[h], call, ret)])
  {
    AnswersExactly(s, h, call);
    RefusedSwitchesNot(s, h, call);
    OtherFlags(s, h, call);
    assert s.executing[h := s.executing[h]] == s.executing;
  }

  lemma RefusedSwitchesNot(s: System, h: nat, call: Call)
    requires TablesInv(s) && 1 <= h < N_HART && (call.Destroy? || call.Run? || call.Resume? || call.Stop? || call.Exit?)
    requires Code(s.cpus[h].isEnclave, s.enclaves[0].state, call) in
               {ERR_SBI_PROHIBITED, ERR_NOT_DESTROYABLE, ERR_NOT_FRESH, ERR_NOT_RESUMABLE, ERR_NOT_RUNNING}
    ensures !Enters(s, h, call) && !Leaves(s, h, call) && !Destroys(s, h, call)
  {
    OthersInvalid(s);
    assert EnclaveOk(s.enclaves[0]);
  }

  /** A create that fails zeroes the shared range exactly if it got as far as reserving both regions. */
  lemma FailedCreateMemory(s: System, h: nat, a: CreateArgs, env: CreateEnv)
    requires TablesInv(s) && 1 <= h < N_HART && !s.cpus[h].isEnclave && Step(s, h, Create(a, env)).1 != SUCCESS
    ensures var r := Step(s, h, Create(a, env)).0;
            if !env.copyFails && s.enclaves[0].state == Invalid && Admissible(a)
            then WipedOnly(s.mem, r.mem, [Range(a.utmAddr, a.utmSize)]) else r.mem == s.mem
  {
    SbiCreateParts(s, h, a, env);
    var s1 := s.(harts := s.harts[h := OsUnlockLock(s.table, s.harts[h])]);
    SameTables(s, s1);
    OneRange(s.mem, a.utmAddr, a.utmSize);
    if !env.copyFails { EnclaveMemory(s1, h, a, env); }
  }

  lemma EnclaveMemory(s: System, h: nat, a: CreateArgs, env: CreateEnv)
    requires TablesInv(s) && 1 <= h < N_HART
    ensures CreateEnclave(s, h, a, env).0.mem ==
              if s.enclaves[0].state == Invalid && Admissible(a) then Zeroed(s.mem, a.utmAddr, a.utmSize) else s.mem
  {
    assert EnclaveOk(s.enclaves[0]);
    if Live(s.enclaves[0]) {
      LoadedRefuses(s.table, s.enclaves[0].params, a);
    } else if ArgsValid(a) {
      TablesNoneLive(s);
      ReserveIff(s.table, a);
      if Admissible(a) { CreateTables(s, h, a, env, 0, Reserve(s.table, a)); }
    }
  }

  // ---------- the registers of other harts ----------

  /** Every register of the private region `g` is off on hart `k`. */
  predicate Cleared(c: Csrs, g: Region)
    requires ValidCsrs(c)
  {
    forall i: nat :: i < N_REG && Owns(g, i) ==> c.cfg[i] == 0 && c.addr[i] == 0
  }

  lemma UnsetClears(c: Csrs, g: Region)
    requires ValidCsrs(c)
    ensures Cleared(UnsetRegion(c, g), g)
  {
    forall i: nat | i < N_REG && Owns(g, i) ensures UnsetRegion(c, g).cfg[i] == 0 && UnsetRegion(c, g).addr[i] == 0 {
      UnsetRegionEffect(c, g, i);
    }
  }

  /** After a destroy, the private region's registers are off on every other hart, and an open OS region stays open. */
  lemma DestroyClears(s: System, h: nat, k: nat)
    requires CoreInv(s) && 1 <= h < N_HART && 1 <= k < N_HART && k != h && Live(s.enclaves[0])
    requires Step(s, h, Destroy(0)).1 == SUCCESS
    ensures var r := Step(s, h, Destroy(0)).0;
            Cleared(r.harts[k], s.table.regions[EPM_RID]) && (OsOpen(s.harts[k]) ==> OsOpen(r.harts[k]))
  {
    DestroyNeeds(s, h, 0);
    assert EnclaveOk(s.enclaves[0]);
    DestroyFields(s, h, 0);
    UnsetClears(s.harts[k], s.table.regions[EPM_RID]);
    UnsetEpm(s.harts[k], s.table.regions[EPM_RID]);
  }

  /** After a create that failed once the regions were reserved, so they are. */
  lemma FailedCreateClears(s: System, h: nat, k: nat, a: CreateArgs, env: CreateEnv)
    requires CoreInv(s) && 1 <= h < N_HART && 1 <= k < N_HART && k != h && !s.cpus[h].isEnclave
    requires !env.copyFails && ArgsValid(a) && Reserve(s.table, a).Reserved?
    requires Step(s, h, Create(a, env)).1 != SUCCESS
    ensures var r := Step(s, h, Create(a, env)).0;
            && Cleared(r.harts[k], Reserve(s.table, a).table.regions[EPM_RID])
            && (OsOpen(s.harts[k]) ==> OsOpen(r.harts[k]))
  {
    var v := Reserve(s.table, a);
    FailedCreateHart(s, h, k, a, env);
    ReservedOnlyWhenIdle(s, a);
    TablesNoneLive(s);
    ReserveLoads(s.table, a);
    SetThenUnset(s.harts[k], v.table.regions[EPM_RID]);
  }

  lemma FailedCreateHart(s: System, h: nat, k: nat, a: CreateArgs, env: CreateEnv)
    requires TablesInv(s) && 1 <= h < N_HART && 1 <= k < N_HART && k != h
    requires !env.copyFails && ArgsValid(a) && Reserve(s.table, a).Reserved? && SbiCreate(s, h, a, env).1 != SUCCESS
    ensures var g := Reserve(s.table, a).table.regions[Reserve(s.table, a).epm];
            SbiCreate(s, h, a, env).0.harts[k] == UnsetRegion(SetRegion(s.harts[k], g, NO_PERM), g)
  {
    SbiCreateParts(s, h, a, env);
    var s1 := s.(harts := s.harts[h := OsUnlockLock(s.table, s.harts[h])]);
    SameTables(s, s1);
    ReservedOnlyWhenIdle(s1, a);
    TablesNoneLive(s1);
    CreateHarts(s1, h, a, env, 0, Reserve(s.table, a));
  }

  lemma SetThenUnset(c: Csrs, g: Region)
    requires ValidCsrs(c) && EpmShaped(g)
    ensures var d := UnsetRegion(SetRegion(c, g, NO_PERM), g);
            Cleared(d, g) && (OsOpen(c) ==> OsOpen(d))
  {
    UnsetClears(SetRegion(c, g, NO_PERM), g);
    SetEpm(c, g, NO_PERM);
    UnsetEpm(SetRegion(c, g, NO_PERM), g);
  }

  // ---------- hart 0 ----------

  lemma CreateSkipsZero(s: System, h: nat, a: CreateArgs, env: CreateEnv, eid: nat, v: Reserved)
    requires Shaped(s) && 1 <= h < N_HART && eid < ENCL_MAX
    requires v.Reserved? && |v.table.regions| == N_REGION && v.epm < N_REGION
    ensures CreateWith(s, h, a, env, eid, v).0.harts[0] == s.harts[0]
  {
  }

  lemma SbiCreateSkipsZero(s: System, h: nat, a: CreateArgs, env: CreateEnv)
    requires Shaped(s) && 1 <= h < N_HART
    ensures SbiCreate(s, h, a, env).0.harts[0] == s.harts[0]
  {
    SbiCreateParts(s, h, a, env);
    var s1 := s.(harts := s.harts[h := OsUnlockLock(s.table, s.harts[h])]);
    var (eid, v) := (FreeEid(s1.enclaves, 0), Reserve(s1.table, a));
    if ArgsValid(a) && eid < ENCL_MAX && v.Reserved? { CreateSkipsZero(s1, h, a, env, eid, v); }
  }

  lemma {:induction false} ClearSkipsZero(s: System, h: nat, regions: seq<EnclaveRegion>, i: nat)
    requires Shaped(s) && 1 <= h < N_HART && i <= |regions|
    ensures ClearEach(s, h, regions, i).harts[0] == s.harts[0]
    decreases |regions| - i
  {
    if i < |regions| {
      if regions[i].kind == NoRegion || regions[i].kind == Utm {
        ClearSkipsZero(s, h, regions, i + 1);
      } else {
        RegionSkipsZero(s, h, regions[i].rid);
        ClearSkipsZero(ClearRegion(s, h, regions[i].rid), h, regions, i + 1);
      }
    }
  }

  lemma RegionSkipsZero(s: System, h: nat, rid: nat)
    requires Shaped(s) && 1 <= h < N_HART
    ensures ClearRegion(s, h, rid).harts[0] == s.harts[0]
  {
  }

  /** The registers of hart 0, which is not used, are left alone by whatever the others do. */
  lemma HartZeroKept(s: System, h: nat, call: Call)
    requires TablesInv(s) && 1 <= h < N_HART
    ensures Step(s, h, call).0.harts[0] == s.harts[0]
  {
    if Creates(s, h, call) {
      CreatesStep(s, h, call);
      SbiCreateSkipsZero(s, h, call.args, call.env);
    } else if Destroys(s, h, call) {
      DestroysStep(s, h, call);
      ClearSkipsZero(s, h, s.enclaves[call.eid].regions, 0);
    } else if Enters(s, h, call) {
      EntersEffect(s, h, call);
    } else if Leaves(s, h, call) {
      LeavesEffect(s, h, call);
    } else if !call.FirmwareReturn? {
      OtherCalls(s, h, call);
    } else {
      ReturnKeepsFlags(s, h, call);
    }
  }
}
