/**
 The invariants of the life cycle. Every run keeps `CoreInv`: the region table holds the boot
 regions and, for the one live enclave there may be, its two regions; and every hart has the boot
 regions programmed, and the private region closed, open or off. What a hart outside the enclave may
 touch, and whether context flags and RUNNING enclaves agree, are properties of their own, because
 not every run keeps them.
 */
module Lifecycle {
  import opened Bits
  import opened PmpHardware
  import opened PmpRegions
  import opened PmpEncoding
  import opened PmpWord
  import opened Boot
  import opened Enclaves

  const EPM_RID: nat := 6
  const UTM_RID: nat := 7

  predicate Live(e: Enclave) { e.state == Fresh || e.state == Stopped || e.state == Running }

  // ---------- the region table ----------

  ghost predicate BootKept(t: Table) {
    TableInv(t) && forall i: nat :: i < N_BOOT ==> Defined(t, i) && t.regions[i] == BOOT_REGIONS[i]
  }

  /** Only the boot regions. */
  ghost predicate IdleTable(t: Table) {
    BootKept(t) && !Defined(t, EPM_RID) && !Defined(t, UTM_RID)
  }

  /** A private region sits in register 5, or in registers 5 and 6. */
  predicate EpmShaped(g: Region) {
    !g.allowOverlap && ((g.mode == A_NAPOT && g.reg == 5) || (g.mode == A_TOR && g.reg == 6))
  }

  predicate UtmShaped(g: Region) {
    !g.allowOverlap && g.mode == A_NAPOT && g.reg == BOTTOM_REG
  }

  /** The boot regions and the two regions of an enclave with parameters `p`. */
  ghost predicate LoadedTable(t: Table, p: Params) {
    && BootKept(t) && Defined(t, EPM_RID) && Defined(t, UTM_RID) && p.dramSize > 0
    && EpmShaped(t.regions[EPM_RID]) && UtmShaped(t.regions[UTM_RID])
    && t.regions[EPM_RID].addr == p.dramBase && t.regions[EPM_RID].size == p.dramSize
    && (t.regions[EPM_RID].mode == A_NAPOT <==> TakesNapot(p.dramBase, p.dramSize))
    && t.regions[UTM_RID].addr == p.untrustedBase && t.regions[UTM_RID].size == p.untrustedSize
  }

  // ---------- one hart's registers ----------

  ghost predicate OsOpen(c: Csrs)
    requires ValidCsrs(c)
  {
    Programmed(c, OS, SU_RWX)
  }

  ghost predicate EnclaveHart(c: Csrs, epm: Region, utm: Region) {
    ValidCsrs(c) && BootProgrammed(c) && Programmed(c, epm, SU_RWX) && Programmed(c, utm, SU_RWX)
  }

  // ---------- the whole system ----------

  /** What an unused slot still records of regions it once had is that they were regions 6 and 7. */
  ghost predicate EnclaveOk(e: Enclave) {
    && |e.regions| == REGIONS_MAX
    && (e.state == Invalid || Live(e))
    && e.nThread == (if e.state == Running then 1 else 0)
    && (forall i :: 0 <= i < 2 && e.regions[i].kind != NoRegion ==> e.regions[i].rid == EPM_RID + i)
    && (forall i :: 2 <= i < REGIONS_MAX ==> e.regions[i].kind == NoRegion)
    && (Live(e) ==> e.regions[0] == EnclaveRegion(EPM_RID, Epm) && e.regions[1] == EnclaveRegion(UTM_RID, Utm))
  }

  /** Only the enclave in slot 0 is ever live, and the region table says whether it is. */
  ghost predicate EnclavesInv(s: System)
    requires Shaped(s)
  {
    && (forall i :: 0 <= i < ENCL_MAX ==> EnclaveOk(s.enclaves[i]))
    && (forall i :: 0 < i < ENCL_MAX ==> !Live(s.enclaves[i]))
    && (if Live(s.enclaves[0]) then LoadedTable(s.table, s.enclaves[0].params) else IdleTable(s.table))
  }

  predicate NoneLive(s: System)
    requires Shaped(s)
  {
    forall i :: 0 <= i < ENCL_MAX ==> !Live(s.enclaves[i])
  }

  /** Tables, and the eids the harts remember. */
  ghost predicate TablesInv(s: System) {
    && Shaped(s) && EnclavesInv(s)
    && !s.cpus[0].isEnclave && forall h :: 0 <= h < N_HART ==> s.cpus[h].eid == 0
  }

  /**
   What has become of the private region on a hart: closed, open as an enclave has it, or off. A return from the
   firmware switches off a region that takes two registers.
   */
  datatype Epm = Closed | Open | Off

  /** Register 6 is off, and register 5, with the region's first address, matches eight bytes that it denies. */
  predicate SwitchedOff(c: Csrs, g: Region)
    requires ValidCsrs(c)
  {
    g.mode == A_TOR && c.cfg[5] == A_NAPOT && c.cfg[6] == A_OFF && c.addr[5] == g.addr / 4 % ADDR_LIMIT
  }

  ghost predicate EpmIs(c: Csrs, g: Region, e: Epm)
    requires ValidCsrs(c)
  {
    match e
    case Closed => Programmed(c, g, NO_PERM)
    case Open => Programmed(c, g, SU_RWX)
    case Off => SwitchedOff(c, g)
  }

  ghost predicate EpmSet(c: Csrs, g: Region)
    requires ValidCsrs(c)
  {
    EpmIs(c, g, Closed) || EpmIs(c, g, Open) || EpmIs(c, g, Off)
  }

  ghost predicate CoreHart(s: System, h: nat)
    requires Shaped(s) && h < N_HART
  {
    BootProgrammed(s.harts[h]) && (Live(s.enclaves[0]) ==> EpmSet(s.harts[h], s.table.regions[EPM_RID]))
  }

  ghost predicate CoreInv(s: System) {
    TablesInv(s) && forall h: nat :: 1 <= h < N_HART ==> CoreHart(s, h)
  }

  /** A hart in host context has the OS region open. */
  ghost predicate OpenToHost(s: System, h: nat)
    requires Shaped(s) && h < N_HART
  {
    !s.cpus[h].isEnclave ==> OsOpen(s.harts[h])
  }

  /** A hart in enclave context has private and shared region open, and its traps go the enclave's way. */
  ghost predicate OpenToEnclave(s: System, h: nat)
    requires Shaped(s) && h < N_HART
  {
    s.cpus[h].isEnclave ==>
      s.executing[h] && EnclaveHart(s.harts[h], s.table.regions[EPM_RID], s.table.regions[UTM_RID])
  }

  /** Is hart `h` running enclave `e`? */
  predicate Inside(s: System, h: nat, e: nat)
    requires Shaped(s)
  {
    h < N_HART && s.cpus[h].isEnclave && s.cpus[h].eid == e
  }

  /** Harts in enclave context and running enclaves correspond one to one. */
  ghost predicate OneToOne(s: System)
    requires Shaped(s)
  {
    && (forall h :: 0 <= h < N_HART && s.cpus[h].isEnclave ==>
          s.cpus[h].eid < ENCL_MAX && s.enclaves[s.cpus[h].eid].state == Running)
    && (forall h: nat, k: nat, e: nat :: Inside(s, h, e) && Inside(s, k, e) ==> h == k)
    && (forall e: nat :: e < ENCL_MAX && s.enclaves[e].state == Running ==> exists h: nat :: Inside(s, h, e))
  }

  /** A hart in host context whose traps are routed as if it ran an enclave. */
  predicate Stray(s: System, h: nat)
    requires Shaped(s) && h < N_HART
  {
    s.executing[h] && !s.cpus[h].isEnclave
  }

  // ---------- lemmas about one hart ----------

  lemma OsSeparate(g: Region)
    requires EpmShaped(g)
    ensures SeparateRegisters(g, OS) && SeparateRegisters(OS, g)
    ensures forall i: nat :: i < 5 ==> SeparateRegisters(g, BOOT_REGIONS[i])
  {
  }

  lemma BottomSeparate(u: Region)
    requires u.mode == A_NAPOT && u.reg == BOTTOM_REG
    ensures forall i: nat :: i < 5 ==> SeparateRegisters(u, BOOT_REGIONS[i])
    ensures forall g: Region :: EpmShaped(g) ==> SeparateRegisters(u, g) && SeparateRegisters(g, u)
  {
  }

  lemma SetKeepsBoot(c: Csrs, g: Region, perm: Byte)
    requires ValidCsrs(c) && BootProgrammed(c) && forall i: nat :: i < 5 ==> SeparateRegisters(g, BOOT_REGIONS[i])
    ensures BootProgrammed(SetRegion(c, g, perm))
  {
    forall i: nat | i < 5 ensures Programmed(SetRegion(c, g, perm), BOOT_REGIONS[i], START_PERMS[i]) {
      SetKeepsProgrammed(c, g, perm, BOOT_REGIONS[i], START_PERMS[i]);
    }
  }

  lemma UnsetKeepsBoot(c: Csrs, g: Region)
    requires ValidCsrs(c) && BootProgrammed(c) && forall i: nat :: i < 5 ==> SeparateRegisters(g, BOOT_REGIONS[i])
    ensures BootProgrammed(UnsetRegion(c, g))
  {
    forall i: nat | i < 5 ensures Programmed(UnsetRegion(c, g), BOOT_REGIONS[i], START_PERMS[i]) {
      UnsetKeepsProgrammed(c, g, BOOT_REGIONS[i], START_PERMS[i]);
    }
  }

  /** The second hart's registers have the boot regions and an open OS region if the first's have. */
  ghost predicate Carried(c: Csrs, d: Csrs)
    requires ValidCsrs(c) && ValidCsrs(d)
  {
    (BootProgrammed(c) ==> BootProgrammed(d)) && (OsOpen(c) ==> OsOpen(d))
  }

  /** Programming a private region touches neither the boot regions nor the OS region. */
  lemma SetEpm(c: Csrs, g: Region, perm: Byte)
    requires ValidCsrs(c) && EpmShaped(g) && perm < 8
    ensures Carried(c, SetRegion(c, g, perm)) && Programmed(SetRegion(c, g, perm), g, perm)
  {
    OsSeparate(g);
    if BootProgrammed(c) { SetKeepsBoot(c, g, perm); }
    SetRegionPrograms(c, g, perm);
    if Programmed(c, OS, SU_RWX) { SetKeepsProgrammed(c, g, perm, OS, SU_RWX); }
  }

  lemma UnsetEpm(c: Csrs, g: Region)
    requires ValidCsrs(c) && EpmShaped(g)
    ensures Carried(c, UnsetRegion(c, g))
  {
    OsSeparate(g);
    if BootProgrammed(c) { UnsetKeepsBoot(c, g); }
    if Programmed(c, OS, SU_RWX) { UnsetKeepsProgrammed(c, g, OS, SU_RWX); }
  }

  /** `osm_pmp_set` touches neither the boot regions nor a private region. */
  lemma OsSetOnHart(t: Table, c: Csrs, perm: Byte)
    requires BootKept(t) && ValidCsrs(c) && BootProgrammed(c) && perm < 8
    ensures BootProgrammed(OsSet(t, c, perm)) && Programmed(OsSet(t, c, perm), OS, perm)
    ensures forall g: Region, p: nat :: EpmShaped(g) && Programmed(c, g, p) ==> Programmed(OsSet(t, c, perm), g, p)
    ensures forall g: Region :: EpmShaped(g) && SwitchedOff(c, g) ==> SwitchedOff(OsSet(t, c, perm), g)
  {
    assert t.regions[OS_RID] == OS;
    BottomSeparate(OS);
    SetKeepsBoot(c, OS, perm);
    SetRegionPrograms(c, OS, perm);
    forall g: Region, p: nat | EpmShaped(g) && Programmed(c, g, p) ensures Programmed(OsSet(t, c, perm), g, p) {
      SetKeepsProgrammed(c, OS, perm, g, p);
    }
    SetRegionEffect(c, OS, perm, 5);
    SetRegionEffect(c, OS, perm, 6);
  }

  /** The private region after a return from the firmware, if nothing is repaired then. */
  function OnReturn(g: Region): Epm {
    if g.mode == A_NAPOT then Closed else Off
  }

  /**
   What a return from the firmware does to a hart, before any repair: boot regions as ever, the OS region open if its
   address is in place, a private region of one register closed and one of two registers off.
   */
  lemma LockedHart(c: Csrs)
    requires ValidCsrs(c) && BootProgrammed(c)
    ensures BootProgrammed(Locked(c)) && (OsOpen(c) ==> OsOpen(Locked(c)))
    ensures forall g: Region :: EpmShaped(g) && EpmSet(c, g) ==> EpmIs(Locked(c), g, OnReturn(g))
  {
    forall i: nat | i < 5 ensures c.addr[i] == PmpAddrVal(BOOT_REGIONS[i]) % ADDR_LIMIT {
      assert Programmed(c, BOOT_REGIONS[i], START_PERMS[i]);
    }
    LockedBoot(c);
    LockedOs(c);
  }

  // ---------- the loops over an enclave's regions ----------

  lemma {:induction false} SetEachTail(t: Table, c: Csrs, regions: seq<EnclaveRegion>, perm: Byte, i: nat)
    requires |t.regions| == N_REGION && ValidCsrs(c) && i <= |regions|
    requires forall j :: i <= j < |regions| ==> regions[j].kind == NoRegion
    ensures SetEach(t, c, regions, perm, i) == c
    decreases |regions| - i
  {
    if i < |regions| { SetEachTail(t, c, regions, perm, i + 1); }
  }

  /** For a live enclave the loop programs the private region, then the shared one. */
  lemma SetEachLive(t: Table, c: Csrs, e: Enclave, perm: Byte)
    requires |t.regions| == N_REGION && ValidCsrs(c) && EnclaveOk(e) && Live(e)
    ensures SetEach(t, c, e.regions, perm, 0) == PmpSet(t, PmpSet(t, c, EPM_RID, perm), UTM_RID, perm)
  {
    var c1 := PmpSet(t, c, EPM_RID, perm);
    var c2 := PmpSet(t, c1, UTM_RID, perm);
    SetEachTail(t, c2, e.regions, perm, 2);
    assert SetEach(t, c1, e.regions, perm, 1) == SetEach(t, c2, e.regions, perm, 2);
  }

  /** Entering an enclave: private and shared region open, although the latter takes the OS's register. */
  lemma EnclaveViewIsEnclaveHart(s: System, h: nat, eid: nat)
    requires Shaped(s) && h < N_HART && eid < ENCL_MAX && EnclaveOk(s.enclaves[eid]) && Live(s.enclaves[eid])
    requires LoadedTable(s.table, s.enclaves[eid].params) && BootProgrammed(s.harts[h])
    ensures EnclaveHart(EnclaveView(s, h, eid), s.table.regions[EPM_RID], s.table.regions[UTM_RID])
  {
    var t := s.table;
    var (epm, utm) := (t.regions[EPM_RID], t.regions[UTM_RID]);
    var c0 := OsSet(t, s.harts[h], NO_PERM);
    OsSetOnHart(t, s.harts[h], NO_PERM);
    SetEachLive(t, c0, s.enclaves[eid], SU_RWX);
    var c1 := SetRegion(c0, epm, SU_RWX);
    OsSeparate(epm);
    SetKeepsBoot(c0, epm, SU_RWX);
    SetRegionPrograms(c0, epm, SU_RWX);
    BottomSeparate(utm);
    SetKeepsBoot(c1, utm, SU_RWX);
    SetRegionPrograms(c1, utm, SU_RWX);
    SetKeepsProgrammed(c1, utm, SU_RWX, epm, SU_RWX);
  }

  /** Leaving an enclave: private region closed, OS region back in the shared register. */
  lemma HostViewIsHostHart(s: System, h: nat, eid: nat)
    requires Shaped(s) && h < N_HART && eid < ENCL_MAX && EnclaveOk(s.enclaves[eid]) && Live(s.enclaves[eid])
    requires LoadedTable(s.table, s.enclaves[eid].params) && BootProgrammed(s.harts[h])
    ensures BootProgrammed(HostView(s, h, eid)) && Programmed(HostView(s, h, eid), OS, SU_RWX)
    ensures Programmed(HostView(s, h, eid), s.table.regions[EPM_RID], NO_PERM)
  {
    var t := s.table;
    var (epm, utm) := (t.regions[EPM_RID], t.regions[UTM_RID]);
    var c0 := s.harts[h];
    SetEachLive(t, c0, s.enclaves[eid], NO_PERM);
    var c1 := SetRegion(c0, epm, NO_PERM);
    OsSeparate(epm);
    SetKeepsBoot(c0, epm, NO_PERM);
    SetRegionPrograms(c0, epm, NO_PERM);
    var c2 := SetRegion(c1, utm, NO_PERM);
    BottomSeparate(utm);
    SetKeepsBoot(c1, utm, NO_PERM);
    SetKeepsProgrammed(c1, utm, NO_PERM, epm, NO_PERM);
    OsSetOnHart(t, c2, SU_RWX);
  }

  /** With no enclave live, the registers `enclave_fix_access_permissions` programs lack the OS region. */
  lemma IdleView(s: System, h: nat)
    requires TablesInv(s) && h < N_HART && !Live(s.enclaves[0])
    ensures EnclaveView(s, h, 0) == OsSet(s.table, s.harts[h], NO_PERM)
  {
    var c := OsSet(s.table, s.harts[h], NO_PERM);
    var regions := s.enclaves[0].regions;
    assert EnclaveOk(s.enclaves[0]);
    SetEachTail(s.table, c, regions, SU_RWX, 2);
    assert SetEach(s.table, c, regions, SU_RWX, 1) == SetEach(s.table, c, regions, SU_RWX, 2);
  }
}
