/**
 The boot sequence: the six regions sm_init reserves, the PMP registers it leaves on every hart, and those
 under which S mode starts, when the firmware has returned for the first time.
 */
module Boot {
  import opened Bits
  import opened PmpHardware
  import opened PmpRegions
  import opened PmpEncoding
  import opened PmpWord

  const N_BOOT: nat := 6
  const OS_RID: nat := 5

  const TM_CODE: Region := Region(0x8000_0000, 0x4_0000, A_NAPOT, false, 0)
  const TM_DATA: Region := Region(0x8010_0000, 0x4_0000, A_NAPOT, false, 1)
  const SMM_CODE: Region := Region(0x8004_0000, 0x4_0000, A_NAPOT, false, 2)
  const SMM_DATA: Region := Region(0x800c_0000, 0x4_0000, A_NAPOT, false, 3)
  const DEVICE: Region := Region(0, 0x8000_0000, A_NAPOT, false, 4)
  const OS: Region := Region(0, WORD - 1, A_NAPOT, true, 7)

  const BOOT_REGIONS: seq<Region> := [TM_CODE, TM_DATA, SMM_CODE, SMM_DATA, DEVICE, OS]

  /** The calls `sm_init` makes, in order. */
  const BOOT_CALLS: seq<TableOp> := [
    Init(0x8000_0000, 0x4_0000, PriTop, false),
    Init(0x8010_0000, 0x4_0000, PriAny, false),
    Init(0x8004_0000, 0x4_0000, PriAny, false),
    Init(0x800c_0000, 0x4_0000, PriAny, false),
    Init(0, 0x8000_0000, PriAny, false),
    Init(0, WORD - 1, PriBottom, true)]

  /** The first `n` boot regions are in place, in slots and registers as expected, and nothing else is. */
  ghost predicate BootedTo(t: Table, n: nat)
    requires n <= N_BOOT
  {
    && TableInv(t)
    && (forall i: nat :: Bit(t.defBitmap, i) <==> i < n)
    && (forall i: nat :: i < n ==> t.regions[i] == BOOT_REGIONS[i])
    && (forall r: nat :: Used(t, r) <==> (r < n && r < 5) || (n == N_BOOT && r == BOTTOM_REG))
  }

  lemma BootStep(t: Table, n: nat, g: Region, pri: Priority, k: nat)
    requires n < 5 && BootedTo(t, n) && g == BOOT_REGIONS[n] && pri == (if n == 0 then PriTop else PriAny)
    requires 12 <= k && g.size == Pow2(k) && Low(g.addr, k) == 0
    ensures BootedTo(Apply(t, Init(g.addr, g.size, pri, false)), n + 1)
  {
    NoBootOverlap(t, n, g.addr, g.addr + g.size);
    BootInstall(t, n, g, pri, k);
    ApplyKeepsInv(t, Init(g.addr, g.size, pri, false));
  }

  lemma BootInstall(t: Table, n: nat, g: Region, pri: Priority, k: nat)
    requires n < 5 && BootedTo(t, n) && pri == (if n == 0 then PriTop else PriAny)
    requires g.mode == A_NAPOT && !g.allowOverlap && g.reg == n
    requires 12 <= k && g.size == Pow2(k) && Low(g.addr, k) == 0 && !DetectsOverlap(t, g.addr, g.size)
    ensures var u := Apply(t, Init(g.addr, g.size, pri, false));
            && u.regions == t.regions[n := g]
            && (forall i: nat :: Bit(u.defBitmap, i) <==> i < n + 1)
            && (forall r: nat :: Used(u, r) <==> r < n + 1)
  {
    assert !Used(t, n);
    forall r: nat | r < n ensures Bit(t.regBitmap, r) { assert Used(t, r); }
    FirstFreeAt(t.defBitmap, N_REGION, n);
    FirstFreeAt(t.regBitmap, N_REG, n);
    NapotRequest(t, g.addr, g.size, pri, false, k, n, n);
    InstallEffect(t, n, g.addr, g.size, A_NAPOT, false, n);
  }

  lemma NoBootOverlap(t: Table, n: nat, addr: nat, end: nat)
    requires n < 5 && BootedTo(t, n) && addr == BOOT_REGIONS[n].addr && end == addr + BOOT_REGIONS[n].size
    ensures !HitsSome(t, addr, end)
  {
  }

  /** With bits `0..n` set and bit `n` clear, the search for one clear bit stops at `n`. */
  lemma FirstFreeAt(bitmap: nat, max: nat, n: nat)
    requires n < max && !Bit(bitmap, n) && forall j: nat :: j < n ==> Bit(bitmap, j)
    ensures FirstFree(bitmap, max, 1, 0) == n
  {
    var r := FirstFree(bitmap, max, 1, 0);
    assert FreeRun(bitmap, n, 1);
    assert 0 <= r ==> !Bit(bitmap, r);
  }

  /** The last boot call: the whole address space, at the bottom, overlap allowed. */
  lemma BootOs(t: Table)
    requires BootedTo(t, 5)
    ensures BootedTo(Apply(t, Init(0, WORD - 1, PriBottom, true)), 6)
  {
    ApplyKeepsInv(t, Init(0, WORD - 1, PriBottom, true));
    FirstFreeAt(t.defBitmap, N_REGION, 5);
    LowOfZero(12);
    assert And(0, PGSIZE - 1) == 0;
    InstallEffect(t, 5, 0, WORD - 1, A_NAPOT, true, BOTTOM_REG);
  }

  /** The region table when `sm_init` has made its six calls. */
  ghost function BootTable(): (t: Table)
    ensures TableInv(t)
  {
    EmptyInv();
    After(EMPTY, BOOT_CALLS)
  }

  lemma BootPowers()
    ensures Pow2(18) == 0x4_0000 && Pow2(31) == 0x8000_0000
    ensures Low(0x8000_0000, 18) == 0 && Low(0x8010_0000, 18) == 0
    ensures Low(0x8004_0000, 18) == 0 && Low(0x800c_0000, 18) == 0 && Low(0, 31) == 0
  {
    Pow2Values();
    assert Pow2(18) == 4 * Pow2(16);
    LowOfMultiple(0x2000, 18);
    LowOfMultiple(0x2001, 18);
    LowOfMultiple(0x2003, 18);
    LowOfMultiple(0x2004, 18);
    LowOfZero(31);
  }

  lemma {:induction false} LowOfMultiple(m: nat, k: nat)
    ensures Low(Pow2(k) * m, k) == 0
  {
    if k > 0 {
      assert Pow2(k) * m == 2 * (Pow2(k - 1) * m);
      LowOfMultiple(m, k - 1);
    }
  }

  lemma BootStepAt(t: Table, n: nat)
    requires n < 5 && BootedTo(t, n)
    ensures BootedTo(Apply(t, BOOT_CALLS[n]), n + 1)
  {
    BootPowers();
    BootStep(t, n, BOOT_REGIONS[n], if n == 0 then PriTop else PriAny, if n == 4 then 31 else 18);
  }

  lemma {:induction false} BootPrefix(n: nat)
    requires n <= 5 && TableInv(EMPTY)
    ensures BootedTo(After(EMPTY, BOOT_CALLS[..n]), n)
  {
    if n == 0 {
      assert BOOT_CALLS[..0] == [];
      forall i: nat ensures !Bit(0, i) { BitOfZero(i); }
    } else {
      BootPrefix(n - 1);
      BootStepAt(After(EMPTY, BOOT_CALLS[..n - 1]), n - 1);
      assert BOOT_CALLS[..n][..n - 1] == BOOT_CALLS[..n - 1];
    }
  }

  /** After the boot calls: six regions in slots 0..5, registers 0..4 and the bottom one used. */
  lemma BootTableFacts()
    ensures BootedTo(BootTable(), N_BOOT)
  {
    EmptyInv();
    BootPrefix(5);
    BootOs(After(EMPTY, BOOT_CALLS[..5]));
  }

  // ---------- the registers of each hart ----------

  /** The `pmp_set_keystone` calls of `sm_init`; region 0 stands in for the unused sp1 id. */
  const BOOT_SETS: seq<(Region, Byte)> := [
    (TM_CODE, 5), (TM_DATA, 3), (SMM_CODE, 0), (SMM_DATA, 0), (TM_CODE, 0), (OS, 3),
    (DEVICE, 3), (TM_CODE, 5), (TM_DATA, 3), (SMM_CODE, 0), (SMM_DATA, 0), (DEVICE, 3), (OS, 3)]

  /** The permission each boot region ends up with. */
  const BOOT_PERMS: seq<Byte> := [5, 3, 0, 0, 3, 3]

  function SetAll(c: Csrs, sets: seq<(Region, Byte)>): (r: Csrs)
    requires ValidCsrs(c)
    ensures ValidCsrs(r)
  {
    if sets == [] then c
    else SetRegion(SetAll(c, sets[..|sets| - 1]), sets[|sets| - 1].0, sets[|sets| - 1].1)
  }

  /** What a hart's PMP holds when `sm_init` returns on it. */
  function BootHart(c: Csrs): (r: Csrs)
    requires ValidCsrs(c)
    ensures ValidCsrs(r)
  {
    SetAll(InitialCsrs(c), BOOT_SETS)
  }

  /** Regions 0..4, in registers 0..4, hold the permissions of `sm_init`. */
  predicate InitProgrammed(c: Csrs)
    requires ValidCsrs(c)
  {
    forall i: nat :: i < 5 ==> Programmed(c, BOOT_REGIONS[i], BOOT_PERMS[i])
  }

  /** A region keeps the permission of the last call that programmed its registers. */
  lemma {:induction false} LastSetWins(c: Csrs, sets: seq<(Region, Byte)>, n: nat)
    requires ValidCsrs(c) && n < |sets|
    requires (sets[n].0.mode == A_TOR || sets[n].0.mode == A_NAPOT) && sets[n].1 < 8
    requires forall m :: n < m < |sets| ==> SeparateRegisters(sets[m].0, sets[n].0)
    ensures Programmed(SetAll(c, sets), sets[n].0, sets[n].1)
    decreases |sets|
  {
    var last := |sets| - 1;
    var before := SetAll(c, sets[..last]);
    if n == last {
      SetRegionPrograms(before, sets[n].0, sets[n].1);
    } else {
      LastSetWins(c, sets[..last], n);
      SetKeepsProgrammed(before, sets[last].0, sets[last].1, sets[n].0, sets[n].1);
    }
  }

  lemma BootSetAt(c: Csrs, n: nat)
    requires ValidCsrs(c) && 7 <= n < |BOOT_SETS|
    ensures Programmed(BootHart(c), BOOT_SETS[n].0, BOOT_SETS[n].1)
  {
    LastSetWins(InitialCsrs(c), BOOT_SETS, n);
  }

  /** Whatever the registers held before, each boot region is programmed as intended. */
  lemma BootHartFacts(c: Csrs)
    requires ValidCsrs(c)
    ensures InitProgrammed(BootHart(c)) && Programmed(BootHart(c), OS, 3)
  {
    BootSetAt(c, 7);
    BootSetAt(c, 8);
    BootSetAt(c, 9);
    BootSetAt(c, 10);
    BootSetAt(c, 11);
    BootSetAt(c, 12);
  }

  /** A register that no call programs keeps what it holds. */
  lemma {:induction false} SetAllKeeps(c: Csrs, sets: seq<(Region, Byte)>, i: nat)
    requires ValidCsrs(c) && i < N_REG && forall n :: 0 <= n < |sets| ==> !Owns(sets[n].0, i)
    ensures SetAll(c, sets).cfg[i] == c.cfg[i] && SetAll(c, sets).addr[i] == c.addr[i]
  {
    if sets != [] {
      var last := |sets| - 1;
      SetAllKeeps(c, sets[..last], i);
      SetRegionEffect(SetAll(c, sets[..last]), sets[last].0, sets[last].1, i);
    }
  }

  /** Entries 5 and 6 keep the byte they had before boot, with address 0. */
  lemma BootLeaves(c: Csrs, i: nat)
    requires ValidCsrs(c) && (i == 5 || i == 6)
    ensures BootHart(c).cfg[i] == c.cfg[i] && BootHart(c).addr[i] == 0
  {
    SetAllKeeps(InitialCsrs(c), BOOT_SETS, i);
  }

  // ---------- and when S mode starts ----------

  /** The permissions of regions 0..4 in the word that every return from the firmware writes. */
  const START_PERMS: seq<Byte> := [5, 3, 0, 0, 7]

  /** Regions 0..4, in registers 0..4, hold those permissions. */
  predicate BootProgrammed(c: Csrs)
    requires ValidCsrs(c)
  {
    forall i: nat :: i < 5 ==> Programmed(c, BOOT_REGIONS[i], START_PERMS[i])
  }

  /** Registers 0..4 hold the addresses of regions 0..4. */
  predicate BootAddressed(c: Csrs)
    requires ValidCsrs(c)
  {
    forall i: nat :: i < 5 ==> c.addr[i] == PmpAddrVal(BOOT_REGIONS[i]) % ADDR_LIMIT
  }

  /** A return from the firmware gives the boot regions these permissions, whatever they had. */
  lemma LockedBoot(c: Csrs)
    requires ValidCsrs(c) && BootAddressed(c)
    ensures BootProgrammed(Locked(c))
  {
  }

  /** The OS region is open after a return exactly if its address is in the bottom register. */
  lemma LockedOs(c: Csrs)
    requires ValidCsrs(c)
    ensures Programmed(Locked(c), OS, SU_RWX) <==> c.addr[7] == PmpAddrVal(OS) % ADDR_LIMIT
  {
  }

  /** A hart when S mode starts on it: `sm_init` has run, and the firmware has returned. */
  function StartHart(c: Csrs): (r: Csrs)
    requires ValidCsrs(c)
    ensures ValidCsrs(r)
  {
    Locked(BootHart(c))
  }

  lemma StartHartFacts(c: Csrs)
    requires ValidCsrs(c)
    ensures BootProgrammed(StartHart(c)) && Programmed(StartHart(c), OS, SU_RWX)
    ensures StartHart(c).cfg[5] == A_NAPOT && StartHart(c).addr[5] == 0 && StartHart(c).cfg[6] == A_OFF
  {
    BootHartFacts(c);
    BootLeaves(c, 5);
    forall i: nat | i < 5 ensures BootHart(c).addr[i] == PmpAddrVal(BOOT_REGIONS[i]) % ADDR_LIMIT {
      assert Programmed(BootHart(c), BOOT_REGIONS[i], BOOT_PERMS[i]);
    }
    LockedBoot(BootHart(c));
    LockedOs(BootHart(c));
  }

  // ---------- who may hold the bottom register ----------

  /** The boot regions are in place and nothing else is; the bottom register's bit is `bottomUsed`. */
  ghost predicate BootedWithBottom(t: Table, bottomUsed: bool) {
    && TableInv(t)
    && (forall i: nat :: Bit(t.defBitmap, i) <==> i < N_BOOT)
    && (forall i: nat :: i < N_BOOT ==> t.regions[i] == BOOT_REGIONS[i])
    && (forall r: nat :: Used(t, r) <==> r < 5 || (bottomUsed && r == BOTTOM_REG))
  }

  lemma BottomTaken(t: Table, addr: U64, size: U64, k: nat)
    requires BootedWithBottom(t, true)
    requires 12 <= k && size == Pow2(k) && Low(addr, k) == 0 && !DetectsOverlap(t, addr, size)
    ensures var u := Apply(t, Init(addr, size, PriBottom, false));
            && TableInv(u)
            && u.regions == t.regions[6 := Region(addr, size, A_NAPOT, false, BOTTOM_REG)]
            && (forall i: nat :: Bit(u.defBitmap, i) <==> i < 7)
            && (forall r: nat :: Used(u, r) <==> r < 5 || r == BOTTOM_REG)
  {
    ApplyKeepsInv(t, Init(addr, size, PriBottom, false));
    FirstFreeAt(t.defBitmap, N_REGION, 6);
    NapotRequest(t, addr, size, PriBottom, false, k, 6, BOTTOM_REG);
    InstallEffect(t, 6, addr, size, A_NAPOT, false, BOTTOM_REG);
  }

  /** Freeing a bottom-priority region clears the bottom register's bit though the OS still uses it. */
  lemma BottomFreed(u: Table)
    requires TableInv(u) && u.regions[6].mode == A_NAPOT && u.regions[6].reg == BOTTOM_REG
    requires forall i: nat :: i < N_BOOT ==> u.regions[i] == BOOT_REGIONS[i]
    requires forall i: nat :: Bit(u.defBitmap, i) <==> i < 7
    requires forall r: nat :: Used(u, r) <==> r < 5 || r == BOTTOM_REG
    ensures BootedWithBottom(Apply(u, Free(6)), false)
  {
    FreeEffect(u, 6);
    ApplyKeepsInv(u, Free(6));
  }

  /** From there a TOR region takes registers 5 and 6. */
  lemma TorTakesFiveSix(t: Table, addr: U64, size: U64)
    requires BootedWithBottom(t, false)
    requires 0 < size && addr % PGSIZE == 0 && size % PGSIZE == 0
    requires !TakesNapot(addr, size) && !DetectsOverlap(t, addr, size)
    ensures var u := Apply(t, Init(addr, size, PriAny, false));
            && TableInv(u)
            && u.regions == t.regions[6 := Region(addr, size, A_TOR, false, 6)]
            && (forall i: nat :: Bit(u.defBitmap, i) <==> i < 7)
            && (forall r: nat :: Used(u, r) <==> r < 7)
  {
    ApplyKeepsInv(t, Init(addr, size, PriAny, false));
    PageMask(addr);
    PageMask(size);
    FirstFreeAt(t.defBitmap, N_REGION, 6);
    assert !Used(t, 5) && !Used(t, 6);
    assert FreeRun(t.regBitmap, 5, 2);
    forall k: nat | k < 5 ensures !FreeRun(t.regBitmap, k, 2) { assert Used(t, k); }
    assert FirstFree(t.regBitmap, N_REG, 2, 0) == 5;
    InstallEffect(t, 6, addr, size, A_TOR, false, 5);
  }

  /** And the next one-register region lands on the bottom register. */
  lemma NapotTakesSeven(t: Table, addr: U64, size: U64, k: nat)
    requires TableInv(t)
    requires (forall i: nat :: Bit(t.defBitmap, i) <==> i < 7) && (forall r: nat :: Used(t, r) <==> r < 7)
    requires 12 <= k && size == Pow2(k) && Low(addr, k) == 0 && !DetectsOverlap(t, addr, size)
    ensures var u := Apply(t, Init(addr, size, PriAny, false));
            && u.regions == t.regions[7 := Region(addr, size, A_NAPOT, false, BOTTOM_REG)]
            && (forall i: nat :: Bit(u.defBitmap, i) <==> i < 8)
  {
    FirstFreeAt(t.defBitmap, N_REGION, 7);
    forall r: nat | r < 7 ensures Bit(t.regBitmap, r) { assert Used(t, r); }
    assert !Used(t, 7);
    FirstFreeAt(t.regBitmap, N_REG, 7);
    NapotRequest(t, addr, size, PriAny, false, k, 7, BOTTOM_REG);
    InstallEffect(t, 7, addr, size, A_NAPOT, false, BOTTOM_REG);
  }

  /** Initialising and freeing a bottom region, then two regions that ask for any register. */
  function FourOps(utm: Region, tor: Region, next: Region): seq<TableOp> {
    [Init(utm.addr, utm.size, PriBottom, false), Free(6),
     Init(tor.addr, tor.size, PriAny, false), Init(next.addr, next.size, PriAny, false)]
  }

  /** After those calls the last region and the OS region are both defined, in the bottom register. */
  ghost predicate SharesBottom(t: Table, utm: Region, tor: Region, next: Region)
    requires TableInv(t)
  {
    var u := After(t, FourOps(utm, tor, next));
    && Defined(u, 7) && u.regions[7].addr == next.addr && u.regions[7].reg == BOTTOM_REG
    && Defined(u, OS_RID) && u.regions[OS_RID].reg == BOTTOM_REG
  }

  /**
   The allocator by itself does not reserve the bottom register for bottom-priority regions:
   after boot, initialise and free any such region, take a TOR region, and the next
   one-register region that asked for any register shares register 7 with the OS.
   */
  lemma BottomSharedWithAny(t: Table, utm: Region, tor: Region, next: Region, k: nat, j: nat)
    requires BootedWithBottom(t, true)
    requires 12 <= k && utm.size == Pow2(k) && Low(utm.addr, k) == 0 && !DetectsOverlap(t, utm.addr, utm.size)
    requires 12 <= j && next.size == Pow2(j) && Low(next.addr, j) == 0 && !DetectsOverlap(t, next.addr, next.size)
    requires 0 < tor.size && tor.addr % PGSIZE == 0 && tor.size % PGSIZE == 0
    requires !TakesNapot(tor.addr, tor.size) && !DetectsOverlap(t, tor.addr, tor.size)
    requires tor.addr + tor.size <= next.addr
    ensures SharesBottom(t, utm, tor, next)
  {
    var a, b := Init(utm.addr, utm.size, PriBottom, false), Free(6);
    var c, d := Init(tor.addr, tor.size, PriAny, false), Init(next.addr, next.size, PriAny, false);
    BottomTaken(t, utm.addr, utm.size, k);
    BottomFreed(Apply(t, a));
    var t2 := Apply(Apply(t, a), b);
    AnyAfterBottomFreed(t, t2, tor, next, j);
    FourCalls(t, a, b, c, d);
  }

  lemma AnyAfterBottomFreed(t: Table, t2: Table, tor: Region, next: Region, j: nat)
    requires BootedWithBottom(t, true) && BootedWithBottom(t2, false)
    requires 12 <= j && next.size == Pow2(j) && Low(next.addr, j) == 0 && !DetectsOverlap(t, next.addr, next.size)
    requires 0 < tor.size && tor.addr % PGSIZE == 0 && tor.size % PGSIZE == 0
    requires !TakesNapot(tor.addr, tor.size) && !DetectsOverlap(t, tor.addr, tor.size)
    requires tor.addr + tor.size <= next.addr
    ensures TableInv(Apply(t2, Init(tor.addr, tor.size, PriAny, false)))
    ensures var t3 := Apply(t2, Init(tor.addr, tor.size, PriAny, false));
            var u := Apply(t3, Init(next.addr, next.size, PriAny, false));
            && |u.regions| == N_REGION && u.regions[5] == OS
            && u.regions[7] == Region(next.addr, next.size, A_NAPOT, false, BOTTOM_REG)
            && (forall i: nat :: Bit(u.defBitmap, i) <==> i < 8)
  {
    TorAfterBottomFreed(t, t2, tor);
    NextOnBottom(t, Apply(t2, Init(tor.addr, tor.size, PriAny, false)), tor, next, j);
  }

  lemma TorAfterBottomFreed(t: Table, t2: Table, tor: Region)
    requires BootedWithBottom(t, true) && BootedWithBottom(t2, false)
    requires 0 < tor.size && tor.addr % PGSIZE == 0 && tor.size % PGSIZE == 0
    requires !TakesNapot(tor.addr, tor.size) && !DetectsOverlap(t, tor.addr, tor.size)
    ensures var u := Apply(t2, Init(tor.addr, tor.size, PriAny, false));
            && TableInv(u) && (forall i: nat :: i < N_BOOT ==> u.regions[i] == BOOT_REGIONS[i])
            && u.regions[6].addr == tor.addr && u.regions[6].size == tor.size
            && (forall i: nat :: Bit(u.defBitmap, i) <==> i < 7) && (forall r: nat :: Used(u, r) <==> r < 7)
  {
    SameOverlap(t, t2, tor.addr, tor.addr + tor.size);
    TorTakesFiveSix(t2, tor.addr, tor.size);
  }

  lemma NextOnBottom(t: Table, t3: Table, tor: Region, next: Region, j: nat)
    requires BootedWithBottom(t, true) && TableInv(t3)
    requires forall i: nat :: i < N_BOOT ==> t3.regions[i] == BOOT_REGIONS[i]
    requires t3.regions[6].addr == tor.addr && t3.regions[6].size == tor.size
    requires (forall i: nat :: Bit(t3.defBitmap, i) <==> i < 7) && (forall r: nat :: Used(t3, r) <==> r < 7)
    requires 12 <= j && next.size == Pow2(j) && Low(next.addr, j) == 0 && !DetectsOverlap(t, next.addr, next.size)
    requires tor.addr + tor.size <= next.addr
    ensures var u := Apply(t3, Init(next.addr, next.size, PriAny, false));
            && |u.regions| == N_REGION && u.regions[5] == OS
            && u.regions[7] == Region(next.addr, next.size, A_NAPOT, false, BOTTOM_REG)
            && (forall i: nat :: Bit(u.defBitmap, i) <==> i < 8)
  {
    NextApart(t, t3, tor, next);
    NapotTakesSeven(t3, next.addr, next.size, j);
  }

  lemma SameOverlap(t: Table, u: Table, addr: nat, end: nat)
    requires |t.regions| == N_REGION == |u.regions|
    requires forall i: nat :: Bit(t.defBitmap, i) <==> Bit(u.defBitmap, i)
    requires forall i: nat :: i < N_REGION && Defined(t, i) ==> u.regions[i] == t.regions[i]
    ensures HitsSome(t, addr, end) <==> HitsSome(u, addr, end)
  {
    forall i: nat | i < N_REGION ensures HitsRegion(t, i, addr, end) <==> HitsRegion(u, i, addr, end) { }
  }

  lemma NextApart(t: Table, u: Table, tor: Region, next: Region)
    requires |t.regions| == N_REGION == |u.regions|
    requires forall i: nat :: Bit(t.defBitmap, i) <==> i < 6
    requires forall i: nat :: Bit(u.defBitmap, i) <==> i < 7
    requires forall i: nat :: i < 6 ==> u.regions[i] == t.regions[i]
    requires u.regions[6].addr == tor.addr && u.regions[6].size == tor.size
    requires tor.addr + tor.size <= next.addr && !DetectsOverlap(t, next.addr, next.size)
    ensures !DetectsOverlap(u, next.addr, next.size)
  {
    var end := next.addr + next.size;
    forall i: nat | i < N_REGION ensures !HitsRegion(u, i, next.addr, end) {
      assert !HitsRegion(t, i, next.addr, end);
    }
  }

  lemma FourCalls(t: Table, a: TableOp, b: TableOp, c: TableOp, d: TableOp)
    requires TableInv(t) && TableInv(Apply(t, a)) && TableInv(Apply(Apply(t, a), b))
    requires TableInv(Apply(Apply(Apply(t, a), b), c))
    ensures After(t, [a, b, c, d]) == Apply(Apply(Apply(Apply(t, a), b), c), d)
  {
    assert [a, b, c, d][..3] == [a, b, c] && [a, b, c][..2] == [a, b] && [a, b][..1] == [a] && [a][..0] == [];
    assert After(t, [a]) == Apply(t, a);
    assert After(t, [a, b]) == Apply(Apply(t, a), b);
    assert After(t, [a, b, c]) == Apply(Apply(Apply(t, a), b), c);
  }

  /** A page above the boot regions, three pages behind it, and another page behind those. */
  predicate Example(utm: Region, tor: Region, next: Region) {
    && utm.addr == 0x9000_0000 && utm.size == 0x1000
    && tor.addr == 0x9000_2000 && tor.size == 0x3000
    && next.addr == 0x9000_8000 && next.size == 0x1000
  }

  /** From the very table `sm_init` leaves, such regions put one that asked for any register onto the OS's. */
  lemma BootSharesBottom(utm: Region, tor: Region, next: Region)
    requires Example(utm, tor, next)
    ensures SharesBottom(BootTable(), utm, tor, next)
  {
    var t := BootTable();
    BootTableFacts();
    ExampleFits(t, utm, tor, next);
    BottomSharedWithAny(t, utm, tor, next, 12, 12);
  }

  /** What `BottomSharedWithAny` asks of three regions. */
  lemma ExampleFits(t: Table, utm: Region, tor: Region, next: Region)
    requires BootedTo(t, N_BOOT) && Example(utm, tor, next)
    ensures !DetectsOverlap(t, utm.addr, utm.size) && utm.size == Pow2(12) && Low(utm.addr, 12) == 0
    ensures !DetectsOverlap(t, next.addr, next.size) && next.size == Pow2(12) && Low(next.addr, 12) == 0
    ensures !DetectsOverlap(t, tor.addr, tor.size) && !TakesNapot(tor.addr, tor.size)
  {
    AboveBoot(t, utm.addr, utm.size);
    AboveBoot(t, tor.addr, tor.size);
    AboveBoot(t, next.addr, next.size);
    PageOffset(utm.addr);
    PageOffset(next.addr);
    Pow2Values();
    NoPower(tor.size);
    PowerOfTwoTest(tor.size);
  }

  lemma AboveBoot(t: Table, addr: U64, size: U64)
    requires BootedTo(t, N_BOOT) && 0x9000_0000 <= addr && addr + size < WORD
    ensures !DetectsOverlap(t, addr, size)
  {
    var end := addr + size;
    forall i: nat | i < N_REGION ensures !HitsRegion(t, i, addr, end) { }
  }

  /** Three pages lie strictly between two neighbouring powers of two. */
  lemma NoPower(x: nat)
    requires x == 0x3000
    ensures !IsPow2(x)
  {
    Pow2Values();
    assert Pow2(13) == 2 * Pow2(12) && Pow2(14) == 2 * Pow2(13);
    forall k: nat ensures x != Pow2(k) {
      if k < 13 { Pow2Increasing(k, 13); }
      if 14 < k { Pow2Increasing(14, k); }
    }
  }
}
