/**
 The enclave life cycle: what each SBI call does to the region table, to every hart's PMP
 registers, to the enclave table and to the per-hart context flags.

 A whole call is one step. `CreateEnclave` states the net effect of `create_enclave`: a
 failure leaves the table as it was, without saying how the rollback got there.
 */
module Enclaves {
  import opened Bits
  import opened PmpHardware
  import opened PmpRegions
  import opened PmpEncoding
  import opened PmpWord
  import opened Boot

  const ENCL_MAX: nat := 16
  const REGIONS_MAX: nat := 8
  const MAX_ENCL_THREADS: nat := 1
  /** Harts 1..4 run the system; hart 0 exists but is not used. */
  const N_HART: nat := 5

  const SUCCESS: nat := 0
  const ERR_UNKNOWN: nat := 100000
  const ERR_INTERRUPTED: nat := 100002
  const ERR_PMP_FAILURE: nat := 100003
  const ERR_NOT_DESTROYABLE: nat := 100005
  const ERR_REGION_OVERLAPS: nat := 100006
  const ERR_ILLEGAL_ARGUMENT: nat := 100008
  const ERR_NOT_RUNNING: nat := 100009
  const ERR_NOT_RESUMABLE: nat := 100010
  const ERR_EDGE_CALL_HOST: nat := 100011
  const ERR_NO_FREE_RESOURCE: nat := 100013
  const ERR_SBI_PROHIBITED: nat := 100014
  const ERR_NOT_FRESH: nat := 100016

  const STOP_TIMER_INTERRUPT: nat := 0
  const STOP_EDGE_CALL_HOST: nat := 1
  const STOP_EDGE_CALL_HOST_ACCEPT: nat := 3

  datatype Status = Invalid | Destroying | Allocated | Fresh | Stopped | Running

  datatype Kind = NoRegion | Epm | Utm | Other

  datatype EnclaveRegion = EnclaveRegion(rid: nat, kind: Kind)

  datatype Params = Params(dramBase: U64, dramSize: U64, runtimeBase: U64, userBase: U64,
                           freeBase: U64, untrustedBase: U64, untrustedSize: U64)

  datatype Enclave = Enclave(state: Status, regions: seq<EnclaveRegion>, nThread: nat, params: Params)

  datatype Cpu = Cpu(isEnclave: bool, eid: nat)

  /**
   The monitor's global state and the registers of every hart. `cpus` and `executing` both say
   whether a hart runs an enclave: calls are admitted by the former, traps are routed by the latter.
   */
  datatype System = System(table: Table, harts: seq<Csrs>, enclaves: seq<Enclave>, cpus: seq<Cpu>,
                           executing: seq<bool>, mem: map<nat, Byte>)

  datatype CreateArgs = CreateArgs(epmAddr: U64, epmSize: U64, utmAddr: U64, utmSize: U64,
                                   runtime: U64, user: U64, free: U64)

  /** What code outside the model answers during a create: 0 is success. */
  datatype CreateEnv = CreateEnv(copyFails: bool, platformRet: nat, hashRet: nat)

  predicate AllValid(harts: seq<Csrs>) {
    |harts| == N_HART && forall i :: 0 <= i < N_HART ==> ValidCsrs(harts[i])
  }

  /** The arrays have their C sizes. */
  predicate Shaped(s: System) {
    && |s.table.regions| == N_REGION
    && AllValid(s.harts)
    && |s.enclaves| == ENCL_MAX && (forall i :: 0 <= i < ENCL_MAX ==> |s.enclaves[i].regions| == REGIONS_MAX)
    && |s.cpus| == N_HART && |s.executing| == N_HART
  }

  // ---------- PMP helpers ----------

  /** `pmp_set_keystone(rid, perm)` on one hart: an undefined region id changes nothing. */
  function PmpSet(t: Table, c: Csrs, rid: nat, perm: Byte): (r: Csrs)
    requires |t.regions| == N_REGION && ValidCsrs(c)
    ensures ValidCsrs(r)
  {
    if Defined(t, rid) then SetRegion(c, t.regions[rid], perm) else c
  }

  /** `osm_pmp_set(perm)` */
  function OsSet(t: Table, c: Csrs, perm: Byte): (r: Csrs)
    requires |t.regions| == N_REGION && ValidCsrs(c)
    ensures ValidCsrs(r)
  {
    PmpSet(t, c, OS_RID, perm)
  }

  /** `pmp_set_global`: every hart 1..4 except the sender. */
  function SetOthers(harts: seq<Csrs>, h: nat, g: Region, perm: Byte): (r: seq<Csrs>)
    requires AllValid(harts)
    ensures AllValid(r)
    ensures forall i :: 0 <= i < N_HART ==> r[i] == if i == 0 || i == h then harts[i] else SetRegion(harts[i], g, perm)
  {
    seq(N_HART, i requires 0 <= i < N_HART => if i == 0 || i == h then harts[i] else SetRegion(harts[i], g, perm))
  }

  /** `pmp_unset_global` */
  function UnsetOthers(harts: seq<Csrs>, h: nat, g: Region): (r: seq<Csrs>)
    requires AllValid(harts)
    ensures AllValid(r)
    ensures forall i :: 0 <= i < N_HART ==> r[i] == if i == 0 || i == h then harts[i] else UnsetRegion(harts[i], g)
  {
    seq(N_HART, i requires 0 <= i < N_HART => if i == 0 || i == h then harts[i] else UnsetRegion(harts[i], g))
  }

  /**
   What a broadcast does to the execution flags. A hart looks at its mailbox only when the flag is down; if it is up,
   the interrupt goes the enclave's way first, and that lowers it. The sender waits for that.
   */
  function Quieted(executing: seq<bool>, h: nat): (r: seq<bool>)
    requires |executing| == N_HART
    ensures |r| == N_HART && forall i :: 0 <= i < N_HART ==> r[i] == (executing[i] && (i == 0 || i == h))
  {
    seq(N_HART, i requires 0 <= i < N_HART => executing[i] && (i == 0 || i == h))
  }

  /** The loops over an enclave's regions that set them all to `perm`, from `memid` on. */
  function SetEach(t: Table, c: Csrs, regions: seq<EnclaveRegion>, perm: Byte, memid: nat): (r: Csrs)
    requires |t.regions| == N_REGION && ValidCsrs(c) && memid <= |regions|
    ensures ValidCsrs(r)
    decreases |regions| - memid
  {
    if memid == |regions| then c
    else
      var c1 := if regions[memid].kind != NoRegion then PmpSet(t, c, regions[memid].rid, perm) else c;
      SetEach(t, c1, regions, perm, memid + 1)
  }

  /** `sbi_memset(base, 0, size)` */
  function Zeroed(mem: map<nat, Byte>, base: nat, size: nat): map<nat, Byte> {
    map x | x in mem :: if base <= x < base + size then 0 else mem[x]
  }

  // ---------- switching context ----------

  /** The registers `context_switch_to_enclave` and `enclave_fix_access_permissions` program. */
  function EnclaveView(s: System, h: nat, eid: nat): (c: Csrs)
    requires Shaped(s) && h < N_HART && eid < ENCL_MAX
    ensures ValidCsrs(c)
  {
    SetEach(s.table, OsSet(s.table, s.harts[h], NO_PERM), s.enclaves[eid].regions, SU_RWX, 0)
  }

  /** The registers `context_switch_to_host` programs. */
  function HostView(s: System, h: nat, eid: nat): (c: Csrs)
    requires Shaped(s) && h < N_HART && eid < ENCL_MAX
    ensures ValidCsrs(c)
  {
    OsSet(s.table, SetEach(s.table, s.harts[h], s.enclaves[eid].regions, NO_PERM, 0), SU_RWX)
  }

  /** PMP and context flag of `context_switch_to_enclave`. */
  function SwitchToEnclave(s: System, h: nat, eid: nat): (r: System)
    requires Shaped(s) && h < N_HART && eid < ENCL_MAX
    ensures Shaped(r)
  {
    s.(harts := s.harts[h := EnclaveView(s, h, eid)], cpus := s.cpus[h := Cpu(true, eid)])
  }

  /** PMP and context flag of `context_switch_to_host`. */
  function SwitchToHost(s: System, h: nat, eid: nat): (r: System)
    requires Shaped(s) && h < N_HART && eid < ENCL_MAX
    ensures Shaped(r)
  {
    s.(harts := s.harts[h := HostView(s, h, eid)], cpus := s.cpus[h := s.cpus[h].(isEnclave := false)])
  }

  // ---------- create ----------

  /** `is_create_args_valid`; the sums wrap at 64 bits. */
  predicate ArgsValid(a: CreateArgs) {
    && a.epmSize > 0
    && a.epmAddr < (a.epmAddr + a.epmSize) % WORD
    && a.utmAddr < (a.utmAddr + a.utmSize) % WORD
    && a.epmAddr <= a.runtime < (a.epmAddr + a.epmSize) % WORD
    && a.epmAddr <= a.user < (a.epmAddr + a.epmSize) % WORD
    && a.epmAddr <= a.free <= (a.epmAddr + a.epmSize) % WORD
    && a.runtime <= a.user <= a.free
  }

  /** The lowest INVALID eid from `i` on, or ENCL_MAX. */
  function FreeEid(enclaves: seq<Enclave>, i: nat): (eid: nat)
    requires |enclaves| == ENCL_MAX && i <= ENCL_MAX
    ensures i <= eid <= ENCL_MAX
    ensures eid < ENCL_MAX ==> enclaves[eid].state == Invalid
    ensures forall j :: i <= j < eid ==> enclaves[j].state != Invalid
    decreases ENCL_MAX - i
  {
    if i == ENCL_MAX || enclaves[i].state == Invalid then i else FreeEid(enclaves, i + 1)
  }

  /** The table without its bottom register's bit. */
  function DropBottom(t: Table): Table {
    t.(regBitmap := UnsetBit(t.regBitmap, BOTTOM_REG))
  }

  /** The two regions of a create: both ids and the table that holds them, or nothing. */
  datatype Reserved = Reserved(table: Table, epm: nat, utm: nat) | NotReserved

  function Reserve(t: Table, a: CreateArgs): (r: Reserved)
    requires |t.regions| == N_REGION
    ensures r.Reserved? ==> |r.table.regions| == N_REGION && r.epm < N_REGION && r.utm < N_REGION
  {
    var (t1, epm) := RegionInit(t, a.epmAddr, a.epmSize, PriAny, false);
    if epm.Err? then NotReserved
    else
      var (t2, utm) := RegionInit(t1, a.utmAddr, a.utmSize, PriBottom, false);
      if utm.Err? then NotReserved else Reserved(t2, epm.rid, utm.rid)
  }

  /** The enclave's metadata once its regions are known. */
  function NewEnclave(e: Enclave, a: CreateArgs, epm: nat, utm: nat, state: Status): Enclave
    requires |e.regions| == REGIONS_MAX
  {
    Enclave(state,
            e.regions[0 := EnclaveRegion(epm, Epm)][1 := EnclaveRegion(utm, Utm)],
            0,
            Params(a.epmAddr, a.epmSize, a.runtime, a.user, a.free, a.utmAddr, a.utmSize))
  }

  /** The creating hart unlocks and relocks the OS entry around its own accesses. */
  function OsUnlockLock(t: Table, c: Csrs): (r: Csrs)
    requires |t.regions| == N_REGION && ValidCsrs(c)
    ensures ValidCsrs(r)
  {
    OsSet(t, OsSet(t, c, ALL_RW), SU_RWX)
  }

  /** The creating hart opens the new region to hash it and closes it again. */
  function OpenCloseRegion(t: Table, c: Csrs, rid: nat): (r: Csrs)
    requires |t.regions| == N_REGION && ValidCsrs(c)
    ensures ValidCsrs(r)
  {
    OsSet(t, PmpSet(t, OsSet(t, PmpSet(t, c, rid, ALL_RW), ALL_RW), rid, NO_PERM), SU_RWX)
  }

  /** Net effect of `create_enclave` once both regions are reserved. */
  function CreateWith(s: System, h: nat, a: CreateArgs, env: CreateEnv, eid: nat, r: Reserved): (res: (System, nat))
    requires Shaped(s) && h < N_HART && eid < ENCL_MAX
    requires r.Reserved? && |r.table.regions| == N_REGION && r.epm < N_REGION
    ensures Shaped(res.0)
  {
    var g := r.table.regions[r.epm];
    var told := SetOthers(s.harts, h, g, NO_PERM);
    var c1 := OsUnlockLock(r.table, told[h]);
    var c2 := OpenCloseRegion(r.table, c1, r.epm);
    var mem := Zeroed(s.mem, a.utmAddr, a.utmSize);
    var failed := s.enclaves[eid := NewEnclave(s.enclaves[eid], a, r.epm, r.utm, Invalid)];
    var quiet := Quieted(s.executing, h);
    if env.platformRet != 0 then
      (System(DropBottom(s.table), UnsetOthers(told[h := c1], h, g), failed, s.cpus, quiet, mem), env.platformRet)
    else if env.hashRet != 0 then
      (System(DropBottom(s.table), UnsetOthers(told[h := c2], h, g), failed, s.cpus, quiet, mem), env.hashRet)
    else
      var created := s.enclaves[eid := NewEnclave(s.enclaves[eid], a, r.epm, r.utm, Fresh)];
      (System(r.table, told[h := c2], created, s.cpus, quiet, mem), SUCCESS)
  }

  /** Net effect of `create_enclave`. */
  function CreateEnclave(s: System, h: nat, a: CreateArgs, env: CreateEnv): (res: (System, nat))
    requires Shaped(s) && h < N_HART
    ensures Shaped(res.0)
  {
    if !ArgsValid(a) then (s, ERR_ILLEGAL_ARGUMENT)
    else
      var eid := FreeEid(s.enclaves, 0);
      if eid == ENCL_MAX then (s, ERR_NO_FREE_RESOURCE)
      else
        var r := Reserve(s.table, a);
        if r.NotReserved? then (s, ERR_PMP_FAILURE) else CreateWith(s, h, a, env, eid, r)
  }

  /** `sbi_sm_create_enclave` */
  function SbiCreate(s: System, h: nat, a: CreateArgs, env: CreateEnv): (res: (System, nat))
    requires Shaped(s) && h < N_HART
    ensures Shaped(res.0)
  {
    var s1 := s.(harts := s.harts[h := OsUnlockLock(s.table, s.harts[h])]);
    if env.copyFails then (s1, ERR_REGION_OVERLAPS)
    else
      var (s2, ret) := CreateEnclave(s1, h, a, env);
      (s2.(harts := s2.harts[h := OsSet(s2.table, s2.harts[h], SU_RWX)]), ret)
  }

  // ---------- destroy ----------

  /** One round of the clearing loop of `destroy_enclave`. */
  function ClearRegion(s: System, h: nat, rid: nat): (r: System)
    requires Shaped(s) && h < N_HART
    ensures Shaped(r) && r.enclaves == s.enclaves && r.cpus == s.cpus
  {
    var c := PmpSet(s.table, PmpSet(s.table, s.harts[h], rid, ALL_RW), rid, NO_PERM);
    if !Defined(s.table, rid) then s
    else
      var g := s.table.regions[rid];
      s.(table := RegionFree(s.table, rid),
         harts := UnsetOthers(s.harts[h := c], h, g),
         executing := Quieted(s.executing, h),
         mem := Zeroed(s.mem, g.addr, g.size))
  }

  /** The clearing loop, from region `i` on: everything but unused and shared regions. */
  function ClearEach(s: System, h: nat, regions: seq<EnclaveRegion>, i: nat): (r: System)
    requires Shaped(s) && h < N_HART && i <= |regions|
    ensures Shaped(r) && r.enclaves == s.enclaves && r.cpus == s.cpus
    decreases |regions| - i
  {
    if i == |regions| then s
    else if regions[i].kind == NoRegion || regions[i].kind == Utm then ClearEach(s, h, regions, i + 1)
    else ClearEach(ClearRegion(s, h, regions[i].rid), h, regions, i + 1)
  }

  /** `get_enclave_region_index(eid, REGION_UTM)`, or |regions|. */
  function UtmIndex(regions: seq<EnclaveRegion>, i: nat): (r: nat)
    requires i <= |regions|
    ensures i <= r <= |regions|
    ensures r < |regions| ==> regions[r].kind == Utm
    ensures forall j :: i <= j < r ==> regions[j].kind != Utm
    decreases |regions| - i
  {
    if i == |regions| || regions[i].kind == Utm then i else UtmIndex(regions, i + 1)
  }

  /** An enclave slot after `destroy_enclave`. */
  function Emptied(e: Enclave): Enclave {
    Enclave(Invalid,
            seq(|e.regions|, i requires 0 <= i < |e.regions| => e.regions[i].(kind := NoRegion)),
            0, Params(0, 0, 0, 0, 0, 0, 0))
  }

  predicate Destroyable(s: System, eid: nat)
    requires Shaped(s)
  {
    eid < ENCL_MAX && s.enclaves[eid].state != Invalid && s.enclaves[eid].state != Running
  }

  /** `destroy_enclave` */
  function DestroyEnclave(s: System, h: nat, eid: nat): (res: (System, nat))
    requires Shaped(s) && h < N_HART
    ensures Shaped(res.0)
  {
    if !Destroyable(s, eid) then (s, ERR_NOT_DESTROYABLE)
    else
      var regions := s.enclaves[eid].regions;
      var s1 := ClearEach(s, h, regions, 0);
      var u := UtmIndex(regions, 0);
      var t := if u < |regions| then RegionFree(s1.table, regions[u].rid) else s1.table;
      (System(t,
              s1.harts[h := OsSet(t, s1.harts[h], SU_RWX)],
              s.enclaves[eid := Emptied(s.enclaves[eid])],
              s1.cpus, s1.executing, s1.mem),
       SUCCESS)
  }

  // ---------- run, resume, stop, exit ----------

  /** The enclave table with the state and thread count of one slot changed. */
  function WithState(s: System, eid: nat, st: Status, threads: nat): (r: System)
    requires Shaped(s) && eid < ENCL_MAX
    ensures Shaped(r)
  {
    s.(enclaves := s.enclaves[eid := s.enclaves[eid].(state := st, nThread := threads)])
  }

  /** `run_enclave` */
  function RunEnclave(s: System, h: nat, eid: nat): (res: (System, nat))
    requires Shaped(s) && h < N_HART
    ensures Shaped(res.0)
  {
    if eid < ENCL_MAX && s.enclaves[eid].state == Fresh
    then (SwitchToEnclave(WithState(s, eid, Running, s.enclaves[eid].nThread + 1), h, eid), SUCCESS)
    else (s, ERR_NOT_FRESH)
  }

  /** `resume_enclave` */
  function ResumeEnclave(s: System, h: nat, eid: nat): (res: (System, nat))
    requires Shaped(s) && h < N_HART
    ensures Shaped(res.0)
  {
    if && eid < ENCL_MAX
       && (s.enclaves[eid].state == Running || s.enclaves[eid].state == Stopped)
       && s.enclaves[eid].nThread < MAX_ENCL_THREADS
    then (SwitchToEnclave(WithState(s, eid, Running, s.enclaves[eid].nThread + 1), h, eid), SUCCESS)
    else (s, ERR_NOT_RESUMABLE)
  }

  /** The bookkeeping `stop_enclave` and `exit_enclave` share; the count is unsigned and wraps. */
  function LeaveEnclave(s: System, h: nat, eid: nat): (r: System)
    requires Shaped(s) && h < N_HART && eid < ENCL_MAX
    ensures Shaped(r)
  {
    var n := (s.enclaves[eid].nThread + 0xffff_ffff) % 0x1_0000_0000;
    SwitchToHost(WithState(s, eid, if n == 0 then Stopped else s.enclaves[eid].state, n), h, eid)
  }

  /** `exit_enclave` for the eid the hart remembers. */
  function ExitEnclave(s: System, h: nat): (res: (System, nat))
    requires Shaped(s) && h < N_HART && s.cpus[h].eid < ENCL_MAX
    ensures Shaped(res.0)
  {
    var eid := s.cpus[h].eid;
    if s.enclaves[eid].state != Running then (s, ERR_NOT_RUNNING)
    else (LeaveEnclave(s, h, eid), SUCCESS)
  }

  /** `stop_enclave` for the eid the hart remembers. */
  function StopEnclave(s: System, h: nat, request: nat): (res: (System, nat))
    requires Shaped(s) && h < N_HART && s.cpus[h].eid < ENCL_MAX
    ensures Shaped(res.0)
  {
    var eid := s.cpus[h].eid;
    if s.enclaves[eid].state != Running then (s, ERR_NOT_RUNNING)
    else (LeaveEnclave(s, h, eid),
          if request == STOP_TIMER_INTERRUPT then ERR_INTERRUPTED
          else if request == STOP_EDGE_CALL_HOST || request == STOP_EDGE_CALL_HOST_ACCEPT then ERR_EDGE_CALL_HOST
          else ERR_UNKNOWN)
  }

  /** `enclave_fix_access_permissions` on return from the firmware to a running enclave. */
  function FixPermissions(s: System, h: nat): (res: (System, nat))
    requires Shaped(s) && h < N_HART && s.cpus[h].eid < ENCL_MAX
    ensures Shaped(res.0)
  {
    (s.(harts := s.harts[h := EnclaveView(s, h, s.cpus[h].eid)]), SUCCESS)
  }

  /** What `_mon_enter_osbi` does, on every return from the firmware, before anything else. */
  function Relock(s: System, h: nat): (r: System)
    requires Shaped(s) && h < N_HART
    ensures Shaped(r)
  {
    s.(harts := s.harts[h := Locked(s.harts[h])])
  }

  // ---------- the trap exits ----------

  /** `sbi_trap_exit`: where the hart goes decides how its next trap is routed. */
  function TrapExit(s: System, h: nat, enclave: bool): (r: System)
    requires Shaped(s) && h < N_HART
    ensures Shaped(r)
  {
    s.(executing := s.executing[h := enclave])
  }

  /** `sbi_sm_run_enclave`: a refused run leaves through the enclave's exit as well. */
  function SbiRun(s: System, h: nat, eid: nat): (res: (System, nat))
    requires Shaped(s) && h < N_HART
    ensures Shaped(res.0)
  {
    var (r, ret) := RunEnclave(s, h, eid);
    (TrapExit(r, h, true), ret)
  }

  /** `sbi_sm_resume_enclave` */
  function SbiResume(s: System, h: nat, eid: nat): (res: (System, nat))
    requires Shaped(s) && h < N_HART
    ensures Shaped(res.0)
  {
    var (r, ret) := ResumeEnclave(s, h, eid);
    (TrapExit(r, h, true), ret)
  }

  /** `sbi_sm_exit_enclave` */
  function SbiExit(s: System, h: nat): (res: (System, nat))
    requires Shaped(s) && h < N_HART && s.cpus[h].eid < ENCL_MAX
    ensures Shaped(res.0)
  {
    var (r, ret) := ExitEnclave(s, h);
    (TrapExit(r, h, false), ret)
  }

  /** `sbi_sm_stop_enclave` */
  function SbiStop(s: System, h: nat, request: nat): (res: (System, nat))
    requires Shaped(s) && h < N_HART && s.cpus[h].eid < ENCL_MAX
    ensures Shaped(res.0)
  {
    var (r, ret) := StopEnclave(s, h, request);
    (TrapExit(r, h, false), ret)
  }

  // ---------- the call gate ----------

  datatype Call =
    | Create(args: CreateArgs, env: CreateEnv)
    | Destroy(eid: nat)
    | Run(eid: nat)
    | Resume(eid: nat)
    | Stop(request: nat)
    | Exit
    | Interrupt
    | FirmwareReturn

  /** Calls the host makes, and calls an enclave makes. */
  predicate HostCall(call: Call) { call.Create? || call.Destroy? || call.Run? || call.Resume? }

  predicate EnclaveCall(call: Call) { call.Stop? || call.Exit? }

  /** Does the gate of `sbi_ecall_keystone_enclave_handler` refuse the call in this context? */
  predicate Prohibited(isEnclave: bool, call: Call) {
    if isEnclave then HostCall(call) else EnclaveCall(call)
  }

  /**
   What hart `h` does: a call, which the gate admits by the context flag, or one of two traps, which
   are routed by the execution flag. A timer or software interrupt takes the enclave's path if that flag is
   up, and changes nothing here otherwise. The return from the firmware overwrites pmpcfg0, and repairs the
   enclave's permissions if the flag is up.
   */
  function Step(s: System, h: nat, call: Call): (res: (System, nat))
    requires Shaped(s) && h < N_HART && s.cpus[h].eid < ENCL_MAX
    ensures Shaped(res.0)
  {
    if Prohibited(s.cpus[h].isEnclave, call) then (s, ERR_SBI_PROHIBITED)
    else match call
      case Create(a, env) => SbiCreate(s, h, a, env)
      case Destroy(eid) => DestroyEnclave(s, h, eid)
      case Run(eid) => SbiRun(s, h, eid)
      case Resume(eid) => SbiResume(s, h, eid)
      case Stop(request) => SbiStop(s, h, request)
      case Exit => SbiExit(s, h)
      case Interrupt => if s.executing[h] then SbiStop(s, h, STOP_TIMER_INTERRUPT) else (s, SUCCESS)
      case FirmwareReturn => if s.executing[h] then FixPermissions(Relock(s, h), h) else (Relock(s, h), SUCCESS)
  }
}
