/**
 What a hart may touch: which PMP entry decides, and what isolation means in one state.

 The hardware question is always the same: which R/W/X bits does the lowest-numbered matching
 PMP entry of a hart grant to an S/U-mode access at a physical address?
 */
module Isolation {
  import opened Bits
  import opened PmpHardware
  import opened PmpRegions
  import opened PmpEncoding
  import opened Boot
  import opened Enclaves
  import opened Lifecycle
  import opened LifecycleSteps
  import opened HartSteps

  /** Is `x` in the private memory of an enclave with parameters `p`? */
  predicate InEpm(p: Params, x: nat) { p.dramBase <= x < p.dramBase + p.dramSize }

  predicate InUtm(p: Params, x: nat) { p.untrustedBase <= x < p.untrustedBase + p.untrustedSize }

  predicate InBootRegion(x: nat) {
    exists i :: 0 <= i < 5 && InRegion(BOOT_REGIONS[i], x)
  }

  /**
   Can the PMP express the private region? A caller can tell from the create arguments: any
   naturally aligned power of two can, any other range must end below the physical limit.
   */
  predicate Expressible(p: Params)
    requires p.dramSize > 0
  {
    TakesNapot(p.dramBase, p.dramSize) || p.dramBase + p.dramSize < PHYS
  }

  /** Does the private range take one register? It does if it is a naturally aligned power of two. */
  predicate OneRegister(p: Params) { p.dramSize > 0 && TakesNapot(p.dramBase, p.dramSize) }

  // ---------- which entry decides ----------

  /** Entries 0..4 match exactly the boot regions. */
  lemma BootEntry(c: Csrs, t: Table, i: nat, x: nat)
    requires ValidCsrs(c) && BootProgrammed(c) && BootKept(t) && i < 5 && x < PHYS
    ensures Matches(c, i, x) <==> InRegion(BOOT_REGIONS[i], x)
  {
    var g := BOOT_REGIONS[i];
    assert Defined(t, i) && Accepted(t.regions[i]);
    ProgrammedDecodes(c, g, START_PERMS[i]);
  }

  lemma SkipBoot(c: Csrs, t: Table, x: nat)
    requires ValidCsrs(c) && BootProgrammed(c) && BootKept(t) && x < PHYS && !InBootRegion(x)
    ensures Perm(c, x) == PermFrom(c, x, 5)
  {
    forall i: nat | i < 5 ensures !Matches(c, i, x) { BootEntry(c, t, i, x); }
    PermSkips(c, x, 0, 5);
  }

  /** A private region shares no address with the boot regions. */
  lemma EpmOutsideBoot(t: Table, p: Params, x: nat)
    requires LoadedTable(t, p) && InEpm(p, x)
    ensures !InBootRegion(x)
  {
    assert Exclusive(t, EPM_RID);
    forall i: nat | i < 5 ensures !InRegion(BOOT_REGIONS[i], x) {
      assert Exclusive(t, i);
      assert Disjoint(t.regions[i], t.regions[EPM_RID]);
    }
  }

  lemma EpmEncodable(t: Table, p: Params)
    requires LoadedTable(t, p)
    ensures Accepted(t.regions[EPM_RID]) && Encodable(t.regions[EPM_RID]) == Expressible(p)
  {
  }

  /** The entry of the private region decides for the addresses it matches. */
  lemma EpmEntry(c: Csrs, g: Region, perm: nat, x: nat)
    requires ValidCsrs(c) && EpmShaped(g) && Programmed(c, g, perm) && perm < 8
    ensures Matches(c, g.reg, x) ==> PermFrom(c, x, 5) == perm
    ensures g.reg == 6 && !Matches(c, 6, x) ==> PermFrom(c, x, 5) == PermFrom(c, x, 7)
    ensures g.reg == 5 && !Matches(c, 5, x) ==> PermFrom(c, x, 5) == PermFrom(c, x, 6)
  {
    if g.reg == 6 {
      assert !Matches(c, 5, x);
      assert PermFrom(c, x, 5) == PermFrom(c, x, 6);
    }
  }

  /** On its own addresses the private region's entry decides. */
  lemma PermInEpm(c: Csrs, t: Table, p: Params, perm: nat, x: nat)
    requires ValidCsrs(c) && BootProgrammed(c) && LoadedTable(t, p)
    requires Programmed(c, t.regions[EPM_RID], perm) && perm < 8
    requires Expressible(p) && InEpm(p, x) && x < PHYS
    ensures Perm(c, x) == perm
  {
    var g := t.regions[EPM_RID];
    EpmOutsideBoot(t, p, x);
    SkipBoot(c, t, x);
    EpmEncodable(t, p);
    ProgrammedDecodes(c, g, perm);
    EpmEntry(c, g, perm, x);
  }

  // ---------- isolation in one state ----------

  /** May hart `h` touch nothing of the private memory of the live enclave? */
  ghost predicate Denied(s: System, h: nat)
    requires CoreInv(s) && h < N_HART
  {
    forall x: nat :: x < PHYS && InEpm(s.enclaves[0].params, x) ==> Perm(s.harts[h], x) == NO_PERM
  }

  /** There is a live enclave, and private memory of it that the PMP can express. */
  ghost predicate Visible(s: System)
    requires CoreInv(s)
  {
    && Live(s.enclaves[0]) && s.enclaves[0].params.dramBase < PHYS
    && s.enclaves[0].params.dramSize > 0 && Expressible(s.enclaves[0].params)
  }

  /** A hart is denied private memory that the PMP can express exactly if the region is not open on it. */
  lemma DeniedIffNotOpen(s: System, h: nat, open: bool)
    requires CoreInv(s) && 1 <= h < N_HART && Visible(s)
    requires Programmed(s.harts[h], s.table.regions[EPM_RID], if open then SU_RWX else NO_PERM)
    ensures Denied(s, h) <==> !open
  {
    var p := s.enclaves[0].params;
    var perm := if open then SU_RWX else NO_PERM;
    assert CoreHart(s, h);
    forall x: nat | x < PHYS && InEpm(p, x) ensures Perm(s.harts[h], x) == perm {
      PermInEpm(s.harts[h], s.table, p, perm, x);
    }
    assert InEpm(p, p.dramBase);
  }

  /** The bottom entry grants nothing at private addresses that entry 6 misses. */
  ghost predicate Hidden(c: Csrs, p: Params)
    requires ValidCsrs(c)
  {
    forall x: nat :: x < PHYS && InEpm(p, x) && !Matches(c, 6, x) ==> PermFrom(c, x, 7) == NO_PERM
  }

  /**
   Exactly when closing the private region on a hart denies it the private memory: when that is not in
   physical memory at all, or can be expressed by the PMP, or the bottom entry happens to grant nothing
   where the region's own entry misses.
   */
  lemma DeniedIff(s: System, h: nat)
    requires CoreInv(s) && 1 <= h < N_HART && Live(s.enclaves[0])
    requires Programmed(s.harts[h], s.table.regions[EPM_RID], NO_PERM)
    ensures s.enclaves[0].params.dramSize > 0
    ensures var p := s.enclaves[0].params;
            Denied(s, h) <==> p.dramBase >= PHYS || Expressible(p) || Hidden(s.harts[h], p)
  {
    var p := s.enclaves[0].params;
    if Expressible(p) && p.dramBase < PHYS {
      DeniedIffNotOpen(s, h, false);
    } else if p.dramBase < PHYS {
      MissedByEntry(s, h);
    }
  }

  lemma MissedByEntry(s: System, h: nat)
    requires CoreInv(s) && 1 <= h < N_HART && Live(s.enclaves[0]) && s.enclaves[0].params.dramSize > 0
    requires Programmed(s.harts[h], s.table.regions[EPM_RID], NO_PERM) && !Expressible(s.enclaves[0].params)
    ensures Denied(s, h) <==> Hidden(s.harts[h], s.enclaves[0].params)
  {
    var (p, c, g) := (s.enclaves[0].params, s.harts[h], s.table.regions[EPM_RID]);
    assert CoreHart(s, h);
    forall x: nat | x < PHYS && InEpm(p, x)
      ensures Perm(c, x) == if Matches(c, 6, x) then NO_PERM else PermFrom(c, x, 7)
    {
      EpmOutsideBoot(s.table, p, x);
      SkipBoot(c, s.table, x);
      EpmEntry(c, g, NO_PERM, x);
    }
  }

  /** With the OS region open, the last physical address of private memory that cannot be expressed is open. */
  lemma LastAddressOpen(s: System, h: nat)
    requires CoreInv(s) && 1 <= h < N_HART && Live(s.enclaves[0]) && s.enclaves[0].params.dramSize > 0
    requires Programmed(s.harts[h], s.table.regions[EPM_RID], NO_PERM) && OsOpen(s.harts[h])
    requires s.enclaves[0].params.dramBase < PHYS && !Expressible(s.enclaves[0].params)
    ensures InEpm(s.enclaves[0].params, PHYS - 1) && Perm(s.harts[h], PHYS - 1) == SU_RWX
  {
    var p := s.enclaves[0].params;
    var c := s.harts[h];
    var g := s.table.regions[EPM_RID];
    assert CoreHart(s, h);
    EpmEncodable(s.table, p);
    TorMisses(c, g, NO_PERM, PHYS - 1);
    EpmOutsideBoot(s.table, p, PHYS - 1);
    SkipBoot(c, s.table, PHYS - 1);
    EpmEntry(c, g, NO_PERM, PHYS - 1);
    WholeSpaceEntry(c, SU_RWX, PHYS - 1);
  }

  /** On a hart that has the OS region open, closing the private region isolates exactly what can be expressed. */
  lemma IsolationIff(s: System, h: nat)
    requires CoreInv(s) && 1 <= h < N_HART && Live(s.enclaves[0])
    requires Programmed(s.harts[h], s.table.regions[EPM_RID], NO_PERM) && OsOpen(s.harts[h])
    ensures s.enclaves[0].params.dramSize > 0
    ensures Denied(s, h) <==> s.enclaves[0].params.dramBase >= PHYS || Expressible(s.enclaves[0].params)
  {
    var p := s.enclaves[0].params;
    DeniedIff(s, h);
    if p.dramBase < PHYS && !Expressible(p) { LastAddressOpen(s, h); }
  }

  // ---------- a private region that is off ----------

  /** The eight bytes that register 5 still denies of a region of two registers that is off. */
  predicate FirstBytes(p: Params, x: nat) { p.dramBase % PHYS <= x < p.dramBase % PHYS + 8 }

  /** On a hart on which the private region is off, all but those bytes is up to the bottom entry. */
  lemma OffEntry(c: Csrs, t: Table, p: Params, x: nat)
    requires ValidCsrs(c) && BootProgrammed(c) && LoadedTable(t, p) && SwitchedOff(c, t.regions[EPM_RID])
    requires x < PHYS && !InBootRegion(x)
    ensures Perm(c, x) == if FirstBytes(p, x) then NO_PERM else PermFrom(c, x, 7)
  {
    var (g, b) := (t.regions[EPM_RID], p.dramBase % PHYS);
    assert Accepted(g);
    SkipBoot(c, t, x);
    QuarterFolds(p.dramBase);
    NapotEntry(c.cfg[5], c.addr[4], c.addr[5], x);
    EightBytes(b, p.dramBase, x);
    assert !Matches(c, 6, x);
    assert PermFrom(c, x, 5) == if Matches(c, 5, x) then NO_PERM else PermFrom(c, x, 6);
  }

  lemma EightBytes(b: nat, addr: nat, x: nat)
    requires addr % PGSIZE == 0 && b == addr % PHYS
    ensures NapotMatch(b / 4, x / 4) <==> b <= x < b + 8
  {
    var c := b / 8;
    EightAligned(addr, b);
    LowThree(c, b, 3);
    PowersUpTo3();
    NapotBlock(b, 3, x);
  }

  lemma PowersUpTo3()
    ensures Pow2(3) == 8 && Pow2(0) == 1
  {
  }

  lemma EightAligned(addr: nat, b: nat)
    requires addr % PGSIZE == 0 && b == addr % PHYS
    ensures b == 8 * (b / 8)
  {
    var (q, d) := (addr / PGSIZE, addr / PHYS);
    assert addr == 0x1000 * q && addr == 0x100_0000_0000_0000 * d + b;
    Eighth(b, 512 * (q - 0x1000_0000_0000 * d));
  }

  lemma Eighth(b: nat, c: int)
    requires b == 8 * c
    ensures b == 8 * (b / 8)
  {
  }

  lemma LowThree(c: nat, b: nat, k: nat)
    requires k == 3 && b == 8 * c
    ensures Low(b, k) == 0
  {
    assert b / 2 == 4 * c && b / 2 / 2 == 2 * c;
    assert Low(b / 2 / 2, k - 2) == 0;
    assert Low(b / 2, k - 1) == 0;
  }

  /** The bottom entry grants something of the private memory behind those bytes. */
  ghost predicate BottomOpens(c: Csrs, p: Params)
    requires ValidCsrs(c)
  {
    exists x: nat :: x < PHYS && InEpm(p, x) && !FirstBytes(p, x) && PermFrom(c, x, 7) != NO_PERM
  }

  /** Exactly when a private region that is off is denied nevertheless. */
  lemma DeniedOffIff(s: System, h: nat)
    requires CoreInv(s) && 1 <= h < N_HART && Live(s.enclaves[0])
    requires SwitchedOff(s.harts[h], s.table.regions[EPM_RID])
    ensures Denied(s, h) <==> !BottomOpens(s.harts[h], s.enclaves[0].params)
  {
    var (p, c) := (s.enclaves[0].params, s.harts[h]);
    assert CoreHart(s, h);
    forall x: nat | x < PHYS && InEpm(p, x)
      ensures Perm(c, x) == if FirstBytes(p, x) then NO_PERM else PermFrom(c, x, 7)
    {
      EpmOutsideBoot(s.table, p, x);
      OffEntry(c, s.table, p, x);
    }
  }

  /** With the OS region open it never is, unless it is not in physical memory at all. */
  lemma OsOpensOff(c: Csrs, t: Table, p: Params)
    requires ValidCsrs(c) && LoadedTable(t, p) && OsOpen(c)
    ensures BottomOpens(c, p) <==> p.dramBase < PHYS
  {
    if p.dramBase < PHYS {
      var x := p.dramBase + 8;
      assert Accepted(t.regions[EPM_RID]);
      PageRoom(p.dramBase, p.dramSize);
      WholeSpaceEntry(c, SU_RWX, x);
      assert InEpm(p, x) && !FirstBytes(p, x);
    }
  }

  lemma PageRoom(addr: nat, size: nat)
    requires addr % PGSIZE == 0 && (size % PGSIZE == 0 || size == WORD - 1) && 0 < size && addr < PHYS
    ensures 8 < size && addr + 8 < PHYS && addr % PHYS == addr
  {
  }

  // ---------- the bottom entry ----------

  lemma BottomEntry(c: Csrs, u: Region, perm: nat, x: nat)
    requires ValidCsrs(c) && Accepted(u) && u.mode == A_NAPOT && u.reg == BOTTOM_REG && u.addr < PHYS
    requires Programmed(c, u, perm) && perm < 8 && x < PHYS
    ensures PermFrom(c, x, 7) == if InRegion(u, x) then perm else NO_PERM
  {
    ProgrammedDecodes(c, u, perm);
    assert Matches(c, 7, x) <==> InRegion(u, x);
    assert PermFrom(c, x, 8) == NO_PERM;
  }

  lemma WholeSpaceEntry(c: Csrs, perm: nat, x: nat)
    requires ValidCsrs(c) && Programmed(c, OS, perm) && perm < 8 && x < PHYS
    ensures PermFrom(c, x, 7) == perm
  {
    assert Accepted(OS) by { assert OS.mode == A_NAPOT; }
    BottomEntry(c, OS, perm, x);
  }
}
