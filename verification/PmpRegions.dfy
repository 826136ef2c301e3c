/**
 The PMP region table: which memory ranges the monitor has reserved, in which PMP
 registers they live, and how a range is encoded into pmpaddr/pmpcfg values.
 */
module PmpRegions {
  import opened Bits
  import opened PmpHardware

  /** PMP_MAX_N_REGION */
  const N_REGION: nat := 8
  const PGSIZE: nat := 0x1000
  /** The register every bottom-priority region shares. */
  const BOTTOM_REG: nat := 7

  const ERR_SIZE_INVALID: nat := 100020
  const ERR_NOT_PAGE_GRANULARITY: nat := 100021
  const ERR_MAX_REACHED: nat := 100023
  const ERR_REGION_INVALID: nat := 100024
  const ERR_OVERLAP: nat := 100025
  const ERR_IMPOSSIBLE_TOR: nat := 100026

  datatype Priority = PriAny | PriTop | PriBottom

  type RegIdx = r: nat | r < N_REG

  datatype Region = Region(addr: U64, size: U64, mode: Byte, allowOverlap: bool, reg: RegIdx)

  /** A slot after `region_clear_all`. */
  const NO_REGION: Region := Region(0, 0, A_OFF, false, 0)

  datatype Table = Table(regions: seq<Region>, regBitmap: nat, defBitmap: nat)

  datatype InitResult = Ok(rid: nat) | Err(code: nat)

  predicate Defined(t: Table, i: nat)
    requires |t.regions| == N_REGION
  {
    i < N_REGION && Bit(t.defBitmap, i)
  }

  predicate Used(t: Table, r: nat) { Bit(t.regBitmap, r) }

  /** A TOR region above register 0 keeps its start address in the register below its own. */
  predicate NeedsTwoEntries(g: Region) { g.mode == A_TOR && g.reg > 0 }

  predicate Owns(g: Region, r: nat) {
    r == g.reg || (NeedsTwoEntries(g) && r + 1 == g.reg)
  }

  // ---------- searching the bitmaps ----------

  /** Are bits `i .. i+w` all clear? */
  predicate FreeRun(bitmap: nat, i: nat, w: nat) {
    forall j: nat :: i <= j < i + w ==> !Bit(bitmap, j)
  }

  /** The lowest `i' >= i` at which `w` clear bits fit below `max`, or -1. */
  function FirstFree(bitmap: nat, max: nat, w: nat, i: nat): (r: int)
    ensures -1 <= r
    ensures 0 <= r ==> i <= r && r + w <= max && FreeRun(bitmap, r, w)
    ensures 0 <= r ==> forall k: nat :: i <= k < r ==> !FreeRun(bitmap, k, w)
    ensures r == -1 ==> forall k: nat :: i <= k && k + w <= max ==> !FreeRun(bitmap, k, w)
    decreases max - i
  {
    if i + w > max || max <= i then
      if i == max && w == 0 then i else -1
    else if FreeRun(bitmap, i, w) then i
    else FirstFree(bitmap, max, w, i + 1)
  }

  // ---------- region initialisation ----------

  /** `detect_region_overlap`: an end that wraps counts as an overlap. */
  predicate DetectsOverlap(t: Table, addr: U64, size: U64)
    requires |t.regions| == N_REGION
  {
    addr + size >= WORD || HitsSome(t, addr, addr + size)
  }

  predicate HitsSome(t: Table, addr: nat, end: nat)
    requires |t.regions| == N_REGION
  {
    exists i :: 0 <= i < N_REGION && HitsRegion(t, i, addr, end)
  }

  predicate HitsRegion(t: Table, i: nat, addr: nat, end: nat)
    requires |t.regions| == N_REGION && i < N_REGION
  {
    && Defined(t, i) && !t.regions[i].allowOverlap
    && t.regions[i].addr < end
    && (t.regions[i].addr + t.regions[i].size) % WORD > addr
  }

  /** Does [start, start+size) take the naturally aligned power-of-two encoding? */
  predicate TakesNapot(start: U64, size: U64)
    requires size > 0
  {
    (size == WORD - 1 && start == 0) || (And(size, size - 1) == 0 && And(start, size - 1) == 0)
  }

  /** `region_init` plus the three SET_BITs, `reg` being the first register taken. */
  function Install(t: Table, rid: nat, start: U64, size: U64, mode: Byte, allow: bool, reg: nat): Table
    requires |t.regions| == N_REGION && rid < N_REGION
    requires reg < N_REG && (mode == A_TOR && reg > 0 ==> reg + 1 < N_REG)
  {
    var two := mode == A_TOR && reg > 0;
    var g := Region(start, size, mode, allow, if two then reg + 1 else reg);
    var used := SetBit(t.regBitmap, reg);
    Table(t.regions[rid := g],
          if two then SetBit(used, reg + 1) else used,
          SetBit(t.defBitmap, rid))
  }

  function NapotInit(t: Table, start: U64, size: U64, pri: Priority, allow: bool): (Table, InitResult)
    requires |t.regions| == N_REGION
  {
    var rid := FirstFree(t.defBitmap, N_REGION, 1, 0);
    if rid < 0 then (t, Err(ERR_MAX_REACHED))
    else match pri
      case PriAny =>
        var reg := FirstFree(t.regBitmap, N_REG, 1, 0);
        if reg < 0 then (t, Err(ERR_MAX_REACHED))
        else (Install(t, rid, start, size, A_NAPOT, allow, reg), Ok(rid))
      case PriTop =>
        if Used(t, 0) then (t, Err(ERR_MAX_REACHED))
        else (Install(t, rid, start, size, A_NAPOT, allow, 0), Ok(rid))
      case PriBottom =>
        (Install(t, rid, start, size, A_NAPOT, allow, BOTTOM_REG), Ok(rid))
  }

  function TorInit(t: Table, start: U64, size: U64, pri: Priority, allow: bool): (Table, InitResult)
    requires |t.regions| == N_REGION && pri != PriBottom
  {
    var rid := FirstFree(t.defBitmap, N_REGION, 1, 0);
    if rid < 0 then (t, Err(ERR_MAX_REACHED))
    else match pri
      case PriAny =>
        var reg := FirstFree(t.regBitmap, N_REG, 2, 0);
        if reg < 0 then (t, Err(ERR_MAX_REACHED))
        else (Install(t, rid, start, size, A_TOR, allow, reg), Ok(rid))
      case PriTop =>
        if Used(t, 0) then (t, Err(ERR_MAX_REACHED))
        else (Install(t, rid, start, size, A_TOR, allow, 0), Ok(rid))
  }

  /** `pmp_region_init` */
  function RegionInit(t: Table, start: U64, size: U64, pri: Priority, allow: bool): (Table, InitResult)
    requires |t.regions| == N_REGION
  {
    if size == 0 then (t, Err(ERR_SIZE_INVALID))
    else if !allow && DetectsOverlap(t, start, size) then (t, Err(ERR_OVERLAP))
    else if size != WORD - 1 && And(size, PGSIZE - 1) != 0 then (t, Err(ERR_NOT_PAGE_GRANULARITY))
    else if And(start, PGSIZE - 1) != 0 then (t, Err(ERR_NOT_PAGE_GRANULARITY))
    else if TakesNapot(start, size) then NapotInit(t, start, size, pri, allow)
    else if pri != PriAny && (pri != PriTop || start != 0) then (t, Err(ERR_IMPOSSIBLE_TOR))
    else TorInit(t, start, size, pri, allow)
  }

  /** `pmp_region_free_atomic` on a table whose region `rid` may or may not be defined. */
  function RegionFree(t: Table, rid: nat): Table
    requires |t.regions| == N_REGION
  {
    if !Defined(t, rid) then t
    else
      var g := t.regions[rid];
      Table(t.regions[rid := NO_REGION], Release(t.regBitmap, g), UnsetBit(t.defBitmap, rid))
  }

  /** The register bitmap without the one or two registers of `g`. */
  function Release(bitmap: nat, g: Region): nat {
    var freed := UnsetBit(bitmap, g.reg);
    if NeedsTwoEntries(g) then UnsetBit(freed, g.reg - 1) else freed
  }

  // ---------- what a region looks like once accepted ----------

  predicate WholeSpace(g: Region) { g.addr == 0 && g.size == WORD - 1 }

  /** [addr, addr+size) is a naturally aligned block of 2^k bytes. */
  predicate AlignedPow2(g: Region, k: nat) {
    12 <= k && g.size == Pow2(k) && Low(g.addr, k) == 0
  }

  ghost predicate Accepted(g: Region) {
    && 0 < g.size
    && g.addr % PGSIZE == 0
    && (g.size % PGSIZE == 0 || g.size == WORD - 1)
    && (!g.allowOverlap ==> g.addr + g.size < WORD)
    && (g.mode == A_NAPOT || g.mode == A_TOR)
    && (g.mode == A_NAPOT ==> WholeSpace(g) || exists k: nat :: AlignedPow2(g, k))
  }

  predicate Disjoint(g: Region, h: Region) {
    g.addr + g.size <= h.addr || h.addr + h.size <= g.addr
  }

  ghost predicate OwnedBy(t: Table, i: nat, r: nat)
    requires |t.regions| == N_REGION
  {
    Defined(t, i) && Owns(t.regions[i], r)
  }

  /**
   What every sequence of initialisations and frees keeps.

   The bottom register is excepted from the used-iff-owned clauses: several regions may
   share it, and freeing one of them clears its bit.
   */
  ghost predicate TableInv(t: Table) {
    Slots(t) && RegistersOwned(t) && Apart(t)
  }

  /** Bits only where there are slots and registers; free slots zeroed; live ones well formed. */
  ghost predicate Slots(t: Table) {
    && |t.regions| == N_REGION
    && (forall i: nat :: Bit(t.defBitmap, i) ==> i < N_REGION)
    && (forall r: nat :: Used(t, r) ==> r < N_REG)
    && (forall i: nat :: i < N_REGION && !Defined(t, i) ==> t.regions[i] == NO_REGION)
    && (forall i: nat :: i < N_REGION && Defined(t, i) ==> Accepted(t.regions[i]))
  }

  /** Below the bottom register: used exactly when owned, and owned by one region. */
  ghost predicate RegistersOwned(t: Table)
    requires |t.regions| == N_REGION
  {
    && (forall r: nat :: r < BOTTOM_REG ==> (Used(t, r) <==> exists i: nat :: OwnedBy(t, i, r)))
    && (forall i: nat, j: nat, r: nat :: r < BOTTOM_REG && OwnedBy(t, i, r) && OwnedBy(t, j, r) ==> i == j)
  }

  /** Regions that do not allow overlap share no address. */
  ghost predicate Apart(t: Table)
    requires |t.regions| == N_REGION
  {
    forall i: nat, j: nat :: i < j < N_REGION && Exclusive(t, i) && Exclusive(t, j)
      ==> Disjoint(t.regions[i], t.regions[j])
  }

  predicate Exclusive(t: Table, i: nat)
    requires |t.regions| == N_REGION
  {
    Defined(t, i) && !t.regions[i].allowOverlap
  }

  const EMPTY: Table := Table([NO_REGION, NO_REGION, NO_REGION, NO_REGION,
                               NO_REGION, NO_REGION, NO_REGION, NO_REGION], 0, 0)

  lemma EmptyInv()
    ensures TableInv(EMPTY)
  {
    forall i: nat ensures !Bit(0, i) { BitOfZero(i); }
  }

  lemma PageMask(x: nat)
    ensures And(x, PGSIZE - 1) == x % PGSIZE
  {
    PageOffset(x);
  }

  /** The bit tests in front of NAPOT mean power-of-two size and natural alignment. */
  lemma TakesNapotMeaning(start: U64, size: U64)
    requires size > 0
    ensures TakesNapot(start, size)
       <==> (size == WORD - 1 && start == 0) || exists k: nat :: size == Pow2(k) && Low(start, k) == 0
  {
    PowerOfTwoTest(size);
    if IsPow2(size) {
      var k: nat :| size == Pow2(k);
      AndLowMask(start, k);
      forall j: nat | size == Pow2(j) ensures j == k {
        if j < k { Pow2Increasing(j, k); }
        if k < j { Pow2Increasing(k, j); }
      }
    }
  }

  lemma SmallPower(k: nat)
    ensures k < 12 ==> 0 < Pow2(k) < PGSIZE
  {
    Pow2Values();
    if k < 12 { Pow2Increasing(k, 12); }
  }

  lemma InstallKeepsInv(t: Table, rid: nat, start: U64, size: U64, mode: Byte, allow: bool, reg: nat)
    requires TableInv(t) && rid < N_REGION && !Defined(t, rid)
    requires reg < N_REG && (mode == A_TOR && reg > 0 ==> reg + 1 < N_REG && !Used(t, reg + 1))
    requires reg < BOTTOM_REG ==> !Used(t, reg)
    requires Accepted(Region(start, size, mode, allow, reg))
    requires !allow ==> !DetectsOverlap(t, start, size)
    ensures TableInv(Install(t, rid, start, size, mode, allow, reg))
  {
    var u := Install(t, rid, start, size, mode, allow, reg);
    InstallEffect(t, rid, start, size, mode, allow, reg);
    InstallSlots(t, u, rid);
    InstallOwners(t, u, rid);
    InstallApart(t, u, rid);
  }

  /** The bits an installation sets. */
  lemma InstallEffect(t: Table, rid: nat, start: U64, size: U64, mode: Byte, allow: bool, reg: nat)
    requires |t.regions| == N_REGION && rid < N_REGION
    requires reg < N_REG && (mode == A_TOR && reg > 0 ==> reg + 1 < N_REG)
    ensures var u := Install(t, rid, start, size, mode, allow, reg);
            && (forall i: nat :: Bit(u.defBitmap, i) <==> Bit(t.defBitmap, i) || i == rid)
            && (forall r: nat :: Used(u, r) <==> Used(t, r) || Owns(u.regions[rid], r))
  {
    SetBitEffect(t.defBitmap, rid);
    SetBitEffect(t.regBitmap, reg);
    SetBitEffect(SetBit(t.regBitmap, reg), reg + 1);
  }

  lemma InstallSlots(t: Table, u: Table, rid: nat)
    requires Slots(t) && |u.regions| == N_REGION && rid < N_REGION && Accepted(u.regions[rid])
    requires forall i: nat :: Bit(u.defBitmap, i) <==> Bit(t.defBitmap, i) || i == rid
    requires forall i: nat :: i < N_REGION && i != rid ==> u.regions[i] == t.regions[i]
    requires forall r: nat :: Used(u, r) <==> Used(t, r) || Owns(u.regions[rid], r)
    ensures Slots(u)
  {
  }

  lemma InstallApart(t: Table, u: Table, rid: nat)
    requires Slots(t) && Apart(t) && |u.regions| == N_REGION && rid < N_REGION
    requires forall i: nat :: Bit(u.defBitmap, i) <==> Bit(t.defBitmap, i) || i == rid
    requires forall i: nat :: i < N_REGION && i != rid ==> u.regions[i] == t.regions[i]
    requires !u.regions[rid].allowOverlap ==> !DetectsOverlap(t, u.regions[rid].addr, u.regions[rid].size)
    ensures Apart(u)
  {
    forall i: nat, j: nat | i < j < N_REGION && Exclusive(u, i) && Exclusive(u, j)
      ensures Disjoint(u.regions[i], u.regions[j])
    {
      if i == rid {
        ApartFromNew(t, j, u.regions[rid]);
      } else if j == rid {
        ApartFromNew(t, i, u.regions[rid]);
      } else {
        assert Exclusive(t, i) && Exclusive(t, j);
      }
    }
  }

  lemma ApartFromNew(t: Table, k: nat, g: Region)
    requires Slots(t) && k < N_REGION && Exclusive(t, k)
    requires !DetectsOverlap(t, g.addr, g.size)
    ensures Disjoint(t.regions[k], g)
  {
    assert Accepted(t.regions[k]);
    assert !HitsRegion(t, k, g.addr, g.addr + g.size);
  }

  lemma InstallOwners(t: Table, u: Table, rid: nat)
    requires |t.regions| == N_REGION == |u.regions| && rid < N_REGION
    requires RegistersOwned(t) && !Defined(t, rid) && Defined(u, rid)
    requires forall i: nat :: i != rid ==> (Defined(u, i) <==> Defined(t, i))
    requires forall i: nat :: i < N_REGION && i != rid ==> u.regions[i] == t.regions[i]
    requires forall r: nat :: Used(u, r) <==> Used(t, r) || Owns(u.regions[rid], r)
    requires forall r: nat :: r < BOTTOM_REG && Owns(u.regions[rid], r) ==> !Used(t, r)
    ensures RegistersOwned(u)
  {
    forall i: nat, r: nat
      ensures OwnedBy(u, i, r) <==> if i == rid then Owns(u.regions[rid], r) else OwnedBy(t, i, r)
    { }
    forall r: nat | r < BOTTOM_REG
      ensures Used(u, r) <==> exists i: nat :: OwnedBy(u, i, r)
    {
      if Owns(u.regions[rid], r) {
        assert OwnedBy(u, rid, r);
      } else if Used(u, r) {
        var i: nat :| OwnedBy(t, i, r);
        assert OwnedBy(u, i, r);
      } else {
        forall i: nat ensures !OwnedBy(u, i, r) {
          assert OwnedBy(t, i, r) ==> Used(t, r);
        }
      }
    }
  }

  lemma NapotInitKeepsInv(t: Table, start: U64, size: U64, pri: Priority, allow: bool)
    requires TableInv(t) && size > 0 && TakesNapot(start, size)
    requires start % PGSIZE == 0 && (size == WORD - 1 || size % PGSIZE == 0)
    requires !allow ==> !DetectsOverlap(t, start, size)
    ensures TableInv(NapotInit(t, start, size, pri, allow).0)
  {
    if NapotInit(t, start, size, pri, allow).1.Ok? {
      var rid := FirstFree(t.defBitmap, N_REGION, 1, 0);
      assert !Defined(t, rid);
      var reg := match pri
        case PriAny => FirstFree(t.regBitmap, N_REG, 1, 0)
        case PriTop => 0
        case PriBottom => BOTTOM_REG;
      assert reg < BOTTOM_REG ==> !Used(t, reg);
      NapotAccepted(start, size, allow, reg);
      InstallKeepsInv(t, rid, start, size, A_NAPOT, allow, reg);
    }
  }

  lemma NapotAccepted(start: U64, size: U64, allow: bool, reg: nat)
    requires size > 0 && TakesNapot(start, size) && reg < N_REG
    requires start % PGSIZE == 0 && (size == WORD - 1 || size % PGSIZE == 0)
    requires !allow ==> start + size < WORD
    ensures Accepted(Region(start, size, A_NAPOT, allow, reg))
  {
    if !(size == WORD - 1 && start == 0) {
      var k := NapotExponent(start, size);
      assert AlignedPow2(Region(start, size, A_NAPOT, allow, reg), k);
    }
  }

  /** The exponent of an aligned power of two that is page granular. */
  lemma NapotExponent(start: U64, size: U64) returns (k: nat)
    requires size > 0 && TakesNapot(start, size) && !(size == WORD - 1 && start == 0)
    requires size == WORD - 1 || size % PGSIZE == 0
    ensures 12 <= k && size == Pow2(k) && Low(start, k) == 0
  {
    TakesNapotMeaning(start, size);
    k :| size == Pow2(k) && Low(start, k) == 0;
    OddPower(k);
    SmallPower(k);
  }

  lemma OddPower(k: nat)
    ensures Pow2(k) % 2 == 1 ==> k == 0
  {
  }

  lemma TorInitKeepsInv(t: Table, start: U64, size: U64, pri: Priority, allow: bool)
    requires TableInv(t) && size > 0 && pri != PriBottom
    requires start % PGSIZE == 0 && (size == WORD - 1 || size % PGSIZE == 0)
    requires !allow ==> !DetectsOverlap(t, start, size)
    ensures TableInv(TorInit(t, start, size, pri, allow).0)
  {
    if TorInit(t, start, size, pri, allow).1.Ok? {
      var rid := FirstFree(t.defBitmap, N_REGION, 1, 0);
      assert !Defined(t, rid);
      var reg := if pri == PriAny then FirstFree(t.regBitmap, N_REG, 2, 0) else 0;
      assert !Used(t, reg);
      assert reg > 0 ==> !Used(t, reg + 1);
      InstallKeepsInv(t, rid, start, size, A_TOR, allow, reg);
    }
  }

  /** A power-of-two request that overlaps nothing is installed in the first free slot. */
  lemma NapotRequest(t: Table, start: U64, size: U64, pri: Priority, allow: bool, k: nat, rid: nat, reg: nat)
    requires |t.regions| == N_REGION
    requires 12 <= k && size == Pow2(k) && Low(start, k) == 0
    requires !allow ==> !DetectsOverlap(t, start, size)
    requires FirstFree(t.defBitmap, N_REGION, 1, 0) == rid
    requires match pri
             case PriAny => FirstFree(t.regBitmap, N_REG, 1, 0) == reg
             case PriTop => reg == 0 && !Used(t, 0)
             case PriBottom => reg == BOTTOM_REG
    ensures RegionInit(t, start, size, pri, allow) == (Install(t, rid, start, size, A_NAPOT, allow, reg), Ok(rid))
  {
    PageMask(size);
    PageMask(start);
    TakesNapotMeaning(start, size);
    PowerPages(k);
    AlignedDown(start, k, 12);
    PageOffset(start);
  }

  /** Powers of two from a page up are page-granular. */
  lemma {:induction false} PowerPages(k: nat)
    requires 12 <= k
    ensures Pow2(k) % PGSIZE == 0
  {
    if k == 12 {
      Pow2Values();
    } else {
      PowerPages(k - 1);
      TwicePages(Pow2(k - 1));
    }
  }

  lemma TwicePages(x: nat)
    requires x % PGSIZE == 0
    ensures 2 * x % PGSIZE == 0
  {
    var q := x / PGSIZE;
    assert 2 * x == PGSIZE * (2 * q);
  }

  /** An initialisation leaves every defined region as it was. */
  lemma InitKeepsOthers(t: Table, start: U64, size: U64, pri: Priority, allow: bool, i: nat)
    requires |t.regions| == N_REGION && Defined(t, i)
    ensures var u := RegionInit(t, start, size, pri, allow).0;
            |u.regions| == N_REGION && Defined(u, i) && u.regions[i] == t.regions[i]
  {
    var rid := FirstFree(t.defBitmap, N_REGION, 1, 0);
    if rid >= 0 { InstallKeepsOthers(t, rid, i); }
  }

  lemma InstallKeepsOthers(t: Table, rid: nat, i: nat)
    requires |t.regions| == N_REGION && Defined(t, i) && rid < N_REGION && !Defined(t, rid)
    ensures forall start: U64, size: U64, mode: Byte, allow: bool, reg: nat ::
              reg < N_REG && (mode == A_TOR && reg > 0 ==> reg + 1 < N_REG) ==>
              var u := Install(t, rid, start, size, mode, allow, reg);
              Defined(u, i) && u.regions[i] == t.regions[i]
  {
    SetBitEffect(t.defBitmap, rid);
  }

  /** Registers a request needs: one for NAPOT, two in a row for TOR. */
  function RegistersNeeded(start: U64, size: U64): nat
    requires size > 0
  {
    if TakesNapot(start, size) then 1 else 2
  }

  /**
   A region that asks for any register gets the bottom one exactly when nothing that is
   free below it is large enough.
   */
  lemma AnyTakesBottomIff(t: Table, start: U64, size: U64, allow: bool)
    requires TableInv(t) && RegionInit(t, start, size, PriAny, allow).1.Ok?
    ensures var (u, res) := RegionInit(t, start, size, PriAny, allow);
            Owns(u.regions[res.rid], BOTTOM_REG)
            <==> forall k: nat :: k + RegistersNeeded(start, size) <= BOTTOM_REG
                   ==> !FreeRun(t.regBitmap, k, RegistersNeeded(start, size))
  {
    var w := RegistersNeeded(start, size);
    var reg := FirstFree(t.regBitmap, N_REG, w, 0);
    assert FreeRun(t.regBitmap, reg, w);
  }

  /** Initialising a region keeps the table's invariant, whatever the arguments. */
  lemma InitKeepsInv(t: Table, start: U64, size: U64, pri: Priority, allow: bool)
    requires TableInv(t)
    ensures TableInv(RegionInit(t, start, size, pri, allow).0)
  {
    PageMask(size);
    PageMask(start);
    if RegionInit(t, start, size, pri, allow).1.Ok? {
      if TakesNapot(start, size) {
        NapotInitKeepsInv(t, start, size, pri, allow);
      } else {
        TorInitKeepsInv(t, start, size, pri, allow);
      }
    }
  }

  /** Freeing a region keeps the table's invariant and clears its slot. */
  lemma FreeKeepsInv(t: Table, rid: nat)
    requires TableInv(t)
    ensures TableInv(RegionFree(t, rid))
    ensures rid < N_REGION ==> RegionFree(t, rid).regions[rid] == NO_REGION && !Defined(RegionFree(t, rid), rid)
  {
    if Defined(t, rid) {
      var g := t.regions[rid];
      var u := RegionFree(t, rid);
      FreeEffect(t, rid);
      assert forall i: nat :: Exclusive(u, i) ==> Exclusive(t, i);
      assert forall r: nat :: Used(u, r) ==> Used(t, r);
      forall i: nat, r: nat ensures OwnedBy(u, i, r) <==> i != rid && OwnedBy(t, i, r) { }
      forall r: nat | r < BOTTOM_REG
        ensures Used(u, r) <==> exists i: nat :: OwnedBy(u, i, r)
      {
        if Used(u, r) {
          var i: nat :| OwnedBy(t, i, r);
          assert OwnedBy(u, i, r);
        }
        if i: nat :| OwnedBy(u, i, r) {
          assert OwnedBy(t, i, r);
          assert Owns(g, r) ==> OwnedBy(t, rid, r);
        }
      }
    }
  }

  /** The bits a free clears. */
  lemma FreeEffect(t: Table, rid: nat)
    requires TableInv(t) && Defined(t, rid)
    ensures var u := RegionFree(t, rid);
            && (forall r: nat :: Used(u, r) <==> Used(t, r) && !Owns(t.regions[rid], r))
            && (forall i: nat :: Bit(u.defBitmap, i) <==> Bit(t.defBitmap, i) && i != rid)
  {
    assert Accepted(t.regions[rid]);
    assert forall r: nat :: Bit(t.regBitmap, r) ==> Used(t, r);
    ReleaseEffect(t.regBitmap, t.regions[rid]);
    UnsetBitEffect(t.defBitmap, rid);
  }

  lemma ReleaseEffect(bitmap: nat, g: Region)
    requires forall r: nat :: Bit(bitmap, r) ==> r < N_REG
    ensures forall r: nat :: Bit(Release(bitmap, g), r) <==> Bit(bitmap, r) && !Owns(g, r)
  {
    UnsetBitEffect(bitmap, g.reg);
    if NeedsTwoEntries(g) { UnsetBitEffect(UnsetBit(bitmap, g.reg), g.reg - 1); }
  }

  // ---------- every sequence of calls ----------

  datatype TableOp =
    | Init(start: U64, size: U64, pri: Priority, allow: bool)
    | Free(rid: nat)

  ghost function Apply(t: Table, op: TableOp): Table
    requires TableInv(t)
  {
    match op
    case Init(start, size, pri, allow) => RegionInit(t, start, size, pri, allow).0
    case Free(rid) => RegionFree(t, rid)
  }

  lemma ApplyKeepsInv(t: Table, op: TableOp)
    requires TableInv(t)
    ensures TableInv(Apply(t, op))
  {
    match op
    case Init(start, size, pri, allow) => InitKeepsInv(t, start, size, pri, allow);
    case Free(rid) => FreeKeepsInv(t, rid);
  }

  /** The table after a sequence of calls, oldest first. */
  ghost function After(t: Table, ops: seq<TableOp>): (r: Table)
    requires TableInv(t)
    ensures TableInv(r)
    decreases |ops|
  {
    if ops == [] then t
    else
      var before := After(t, ops[..|ops| - 1]);
      ApplyKeepsInv(before, ops[|ops| - 1]);
      Apply(before, ops[|ops| - 1])
  }
}
