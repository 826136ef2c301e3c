/**
 From a region to the PMP registers and back: programming a region and decoding the
 registers by the architecture's rules gives the region's own range and permission.
 */
module PmpEncoding {
  import opened Bits
  import opened PmpHardware
  import opened PmpRegions

  /** `region_pmpaddr_val` */
  function PmpAddrVal(g: Region): nat {
    if WholeSpace(g) then WORD - 1
    else if g.mode == A_NAPOT then Or(g.addr, (g.size / 2 + WORD - 1) % WORD) / 4
    else if g.mode == A_TOR then ((g.addr + g.size) % WORD) / 4
    else 0
  }

  /** The configuration byte `region_pmpcfg_val` shifts into place. */
  function CfgByte(mode: Byte, perm: Byte): Byte {
    CfgByteFits(mode, perm);
    Or(mode, And(perm, 0x87))
  }

  lemma CfgByteFits(mode: Byte, perm: Byte)
    ensures Or(mode, And(perm, 0x87)) < 0x100
  {
    assert Pow2(8) == 0x100;
    forall i: nat | 8 <= i ensures !Bit(Or(mode, And(perm, 0x87)), i) {
      BitOfOr(mode, And(perm, 0x87), i);
      BitOfAnd(perm, 0x87, i);
      BitAboveWidth(mode, 8, i);
      BitAboveWidth(perm, 8, i);
    }
    BitsBound(Or(mode, And(perm, 0x87)), 8);
  }

  /** For the permissions the monitor uses, the byte is the mode plus the R/W/X bits. */
  lemma CfgByteValue(mode: Byte, perm: Byte)
    requires (mode == A_TOR || mode == A_NAPOT) && perm < 8
    ensures CfgByte(mode, perm) == mode + perm
  {
    assert And(perm / 8, 0x10) == 0;
    assert And(perm / 4, 0x21) == perm / 4;
    assert And(perm / 2, 0x43) == perm / 2;
    assert And(perm, 0x87) == perm;
    assert Low(mode, 3) == 0 by {
      assert Low(mode / 2, 2) == 0 by { assert Low(mode / 4, 1) == 0; }
    }
    assert Pow2(3) == 8;
    OrLow(mode, perm, 3);
  }

  /** `pmp_set_keystone` on a defined region. */
  function SetRegion(c: Csrs, g: Region, perm: Byte): (r: Csrs)
    requires ValidCsrs(c)
    ensures ValidCsrs(r)
  {
    var c1 := SetEntry(c, g.reg, PmpAddrVal(g), CfgByte(g.mode, perm));
    if NeedsTwoEntries(g) then SetEntry(c1, g.reg - 1, g.addr / 4, 0) else c1
  }

  /** `pmp_unset` on a defined region. */
  function UnsetRegion(c: Csrs, g: Region): (r: Csrs)
    requires ValidCsrs(c)
    ensures ValidCsrs(r)
  {
    var c1 := UnsetEntry(c, g.reg);
    if NeedsTwoEntries(g) then UnsetEntry(c1, g.reg - 1) else c1
  }

  /** Every pmpcfg byte and pmpaddr outside the region's own registers is untouched. */
  lemma SetRegionEffect(c: Csrs, g: Region, perm: Byte, k: nat)
    requires ValidCsrs(c) && k < N_REG
    ensures var r := SetRegion(c, g, perm);
            && (!Owns(g, k) ==> r.cfg[k] == c.cfg[k] && r.addr[k] == c.addr[k])
            && (k == g.reg ==> r.cfg[k] == CfgByte(g.mode, perm) && r.addr[k] == PmpAddrVal(g) % ADDR_LIMIT)
            && (Owns(g, k) && k != g.reg ==> r.cfg[k] == 0 && r.addr[k] == g.addr / 4 % ADDR_LIMIT)
  {
  }

  lemma UnsetRegionEffect(c: Csrs, g: Region, k: nat)
    requires ValidCsrs(c) && k < N_REG
    ensures var r := UnsetRegion(c, g);
            && (!Owns(g, k) ==> r.cfg[k] == c.cfg[k] && r.addr[k] == c.addr[k])
            && (Owns(g, k) ==> r.cfg[k] == 0 && r.addr[k] == 0)
  {
  }

  // ---------- the hardware's view of a programmed region ----------

  predicate InRegion(g: Region, x: nat) { g.addr <= x < g.addr + g.size }

  /** Entry `g.reg` of `c` matches exactly the physical addresses of `g`. */
  ghost predicate DecodesExactly(c: Csrs, g: Region)
    requires ValidCsrs(c)
  {
    forall x: nat :: x < PHYS ==> (Matches(c, g.reg, x) <==> InRegion(g, x))
  }

  /** Can the 54-bit pmpaddr registers express this region? */
  predicate Encodable(g: Region) {
    g.mode == A_NAPOT || (g.addr + g.size < PHYS && (g.reg > 0 || g.addr == 0))
  }

  lemma {:induction false} TrailingOnesOf(base: nat, k: nat)
    requires Low(base, k + 1) == 0
    ensures TrailingOnes(base + Pow2(k) - 1) == k
  {
    if k > 0 {
      assert (base + Pow2(k) - 1) / 2 == base / 2 + Pow2(k - 1) - 1;
      TrailingOnesOf(base / 2, k - 1);
    }
  }

  /** The word with `k - 3` ones below an aligned base selects the block of 2^k bytes. */
  lemma NapotBlock(addr: nat, k: nat, x: nat)
    requires 3 <= k && Low(addr, k) == 0
    ensures NapotMatch(addr / 4 + Pow2(k - 3) - 1, x / 4) <==> addr <= x < addr + Pow2(k)
  {
    var base := addr / 4;
    assert Low(addr, k) == addr % 2 + 2 * ((addr / 2) % 2 + 2 * Low(addr / 2 / 2, k - 2));
    assert addr / 2 / 2 == base;
    TrailingOnesOf(base, k - 3);
    AlignedBlock(base, base + Pow2(k - 3) - 1, k - 2);
    AlignedBlock(base, x / 4, k - 2);
    assert Pow2(k - 2) == 2 * Pow2(k - 3) && Pow2(k) == 4 * Pow2(k - 2);
  }

  /** All-ones in pmpaddr selects the whole physical address space. */
  lemma NapotEverything(x: nat)
    requires x < PHYS
    ensures NapotMatch(ADDR_LIMIT - 1, x / 4)
  {
    LowOfZero(57);
    Pow2Values();
    NapotBlock(0, 57, x);
    assert Pow2(57) == 2 * Pow2(56);
  }

  lemma {:induction false} Pow2From54(j: nat)
    ensures Pow2(54 + j) == ADDR_LIMIT * Pow2(j)
  {
    if j == 0 {
      Pow2Values();
    } else {
      Pow2From54(j - 1);
    }
  }

  /** The value programmed for an aligned power-of-two block. */
  lemma NapotValue(g: Region, k: nat)
    requires g.mode == A_NAPOT && AlignedPow2(g, k) && !WholeSpace(g)
    ensures PmpAddrVal(g) == g.addr / 4 + Pow2(k - 3) - 1
  {
    var h := Pow2(k - 3);
    assert g.size == 8 * h by { assert Pow2(k) == 2 * Pow2(k - 1) && Pow2(k - 1) == 4 * h; }
    HalfMinusOne(g.size, h);
    OrLow(g.addr, 4 * h - 1, k);
    AlignedDown(g.addr, k, 2);
    QuarterOfSum(g.addr, h);
  }

  lemma HalfMinusOne(size: U64, h: nat)
    requires size == 8 * h && 0 < h
    ensures (size / 2 + WORD - 1) % WORD == 4 * h - 1
  {
  }

  lemma QuarterOfSum(addr: nat, h: nat)
    requires Low(addr, 2) == 0 && 0 < h
    ensures (addr + (4 * h - 1)) / 4 == addr / 4 + h - 1
  {
    assert addr % 4 == 0;
  }

  lemma NapotDecodes(g: Region, b: Byte, prev: nat, x: nat)
    requires g.mode == A_NAPOT && (WholeSpace(g) || exists k: nat :: AlignedPow2(g, k))
    requires g.addr < PHYS && x < PHYS && A_NAPOT <= b < A_NAPOT + 8
    ensures EntryMatches(b, prev, PmpAddrVal(g) % ADDR_LIMIT, x) <==> InRegion(g, x)
  {
    NapotEntry(b, prev, PmpAddrVal(g) % ADDR_LIMIT, x);
    if WholeSpace(g) {
      assert (WORD - 1) % ADDR_LIMIT == ADDR_LIMIT - 1;
      NapotEverything(x);
    } else {
      var k: nat :| AlignedPow2(g, k);
      NapotValue(g, k);
      if k <= 56 { SmallBlockValue(g.addr, k, x); } else { LargeBlockValue(g.addr, k, x); }
    }
  }

  lemma SmallBlockValue(addr: nat, k: nat, x: nat)
    requires 12 <= k <= 56 && Low(addr, k) == 0 && addr < PHYS
    ensures NapotMatch((addr / 4 + Pow2(k - 3) - 1) % ADDR_LIMIT, x / 4) <==> addr <= x < addr + Pow2(k)
  {
    var v := addr / 4 + Pow2(k - 3) - 1;
    assert v < ADDR_LIMIT by {
      Pow2Values();
      AlignedBelow(addr, k, 56);
      assert Pow2(k) == 2 * Pow2(k - 1) && Pow2(k - 1) == 4 * Pow2(k - 3);
    }
    ModOfSmaller(v, ADDR_LIMIT);
    NapotBlock(addr, k, x);
  }

  lemma LargeBlockValue(addr: nat, k: nat, x: nat)
    requires 57 <= k && Low(addr, k) == 0 && addr < PHYS && x < PHYS
    ensures NapotMatch((addr / 4 + Pow2(k - 3) - 1) % ADDR_LIMIT, x / 4) && addr <= x < addr + Pow2(k)
  {
    assert PHYS < Pow2(k) by {
      Pow2Values();
      Pow2Increasing(56, k);
    }
    AlignedSmall(addr, k);
    Pow2From54(k - 57);
    AllOnes(Pow2(k - 57));
    NapotEverything(x);
  }

  lemma ModOfSmaller(v: nat, m: nat)
    requires v < m
    ensures v % m == v
  {
  }

  /** One less than a positive multiple of the pmpaddr range is all ones. */
  lemma AllOnes(j: nat)
    requires 0 < j
    ensures (ADDR_LIMIT * j - 1) % ADDR_LIMIT == ADDR_LIMIT - 1
  {
  }

  lemma TorDecodes(g: Region, b: Byte, prev: nat, x: nat)
    requires g.mode == A_TOR && g.addr % PGSIZE == 0 && g.size % PGSIZE == 0
    requires g.addr + g.size < PHYS && A_TOR <= b < A_TOR + 8
    requires prev == g.addr / 4
    ensures EntryMatches(b, prev, PmpAddrVal(g) % ADDR_LIMIT, x) <==> InRegion(g, x)
  {
    TorEnd(g);
    TorEntry(b, prev, (g.addr + g.size) / 4, x);
    PagesAdd(g.addr, g.size);
    WordBelow(x, g.addr);
    WordBelow(x, g.addr + g.size);
  }

  lemma PagesAdd(addr: nat, size: nat)
    requires addr % PGSIZE == 0 && size % PGSIZE == 0
    ensures (addr + size) % PGSIZE == 0
  {
  }

  /** The value programmed for a TOR region below the physical limit. */
  lemma TorEnd(g: Region)
    requires g.mode == A_TOR && g.addr + g.size < PHYS
    ensures PmpAddrVal(g) % ADDR_LIMIT == (g.addr + g.size) / 4
    ensures g.addr / 4 % ADDR_LIMIT == g.addr / 4
  {
    var end := g.addr + g.size;
    ModOfSmaller(end, WORD);
    ModOfSmaller(end / 4, ADDR_LIMIT);
    ModOfSmaller(g.addr / 4, ADDR_LIMIT);
  }

  lemma WordBelow(x: nat, e: nat)
    requires e % PGSIZE == 0
    ensures x / 4 < e / 4 <==> x < e
  {
    assert e % 4 == 0;
  }

  /** Dividing by four and keeping 54 bits is keeping 56 bits and dividing by four. */
  lemma QuarterFolds(y: nat)
    ensures y / 4 % ADDR_LIMIT == y % PHYS / 4
  {
    var (q, r) := (y / PHYS, y % PHYS);
    assert y == 4 * (ADDR_LIMIT * q) + r;
    assert y / 4 == ADDR_LIMIT * q + r / 4;
    ModOf(q, r / 4);
  }

  lemma ModOf(q: nat, r: nat)
    requires r < ADDR_LIMIT
    ensures (ADDR_LIMIT * q + r) % ADDR_LIMIT == r
  {
  }

  /** `c` holds region `g` with permission `perm` in the registers `g` owns. */
  predicate Programmed(c: Csrs, g: Region, perm: nat)
    requires ValidCsrs(c)
  {
    && c.cfg[g.reg] == g.mode + perm
    && c.addr[g.reg] == PmpAddrVal(g) % ADDR_LIMIT
    && (NeedsTwoEntries(g) ==> c.cfg[g.reg - 1] == 0 && c.addr[g.reg - 1] == g.addr / 4 % ADDR_LIMIT)
  }

  lemma SetRegionPrograms(c: Csrs, g: Region, perm: Byte)
    requires ValidCsrs(c) && (g.mode == A_TOR || g.mode == A_NAPOT) && perm < 8
    ensures Programmed(SetRegion(c, g, perm), g, perm)
  {
    CfgByteValue(g.mode, perm);
    SetRegionEffect(c, g, perm, g.reg);
    if NeedsTwoEntries(g) { SetRegionEffect(c, g, perm, g.reg - 1); }
  }

  /** Two regions that have no register in common. */
  ghost predicate SeparateRegisters(g: Region, h: Region) {
    forall r: nat :: Owns(g, r) ==> !Owns(h, r)
  }

  lemma SetKeepsProgrammed(c: Csrs, g: Region, perm: Byte, h: Region, p: nat)
    requires ValidCsrs(c) && SeparateRegisters(g, h)
    requires Programmed(c, h, p)
    ensures Programmed(SetRegion(c, g, perm), h, p)
  {
    SetRegionEffect(c, g, perm, h.reg);
    assert Owns(h, h.reg);
    if NeedsTwoEntries(h) {
      SetRegionEffect(c, g, perm, h.reg - 1);
      assert Owns(h, h.reg - 1);
    }
  }

  lemma UnsetKeepsProgrammed(c: Csrs, g: Region, h: Region, p: nat)
    requires ValidCsrs(c) && SeparateRegisters(g, h)
    requires Programmed(c, h, p)
    ensures Programmed(UnsetRegion(c, g), h, p)
  {
    UnsetRegionEffect(c, g, h.reg);
    assert Owns(h, h.reg);
    if NeedsTwoEntries(h) {
      UnsetRegionEffect(c, g, h.reg - 1);
      assert Owns(h, h.reg - 1);
    }
  }

  /** A programmed, encodable region is matched by its entry on exactly its own addresses. */
  lemma ProgrammedDecodes(c: Csrs, g: Region, perm: nat)
    requires ValidCsrs(c) && Accepted(g) && Programmed(c, g, perm) && perm < 8
    requires g.addr < PHYS && Encodable(g)
    ensures DecodesExactly(c, g)
  {
    forall x: nat | x < PHYS ensures Matches(c, g.reg, x) <==> InRegion(g, x) {
      var prev := if g.reg == 0 then 0 else c.addr[g.reg - 1];
      if g.mode == A_NAPOT {
        NapotDecodes(g, A_NAPOT + perm, prev, x);
      } else {
        TorEnd(g);
        TorDecodes(g, A_TOR + perm, prev, x);
      }
    }
  }

  /**
   Exactly when programming and decoding round-trips, for an accepted region that starts
   in physical memory: always for NAPOT; for TOR when the end fits pmpaddr and there is a
   register for the start (or the start is zero).
   */
  lemma EncodingExactIff(c: Csrs, g: Region, perm: Byte)
    requires ValidCsrs(c) && Accepted(g) && !g.allowOverlap && g.addr < PHYS && perm < 8
    ensures DecodesExactly(SetRegion(c, g, perm), g) <==> Encodable(g)
    ensures SetRegion(c, g, perm).cfg[g.reg] % 8 == perm
  {
    SetRegionPrograms(c, g, perm);
    ProgrammedExactIff(SetRegion(c, g, perm), g, perm);
  }

  lemma ProgrammedExactIff(c: Csrs, g: Region, perm: nat)
    requires ValidCsrs(c) && Accepted(g) && !g.allowOverlap && g.addr < PHYS
    requires Programmed(c, g, perm) && perm < 8
    ensures DecodesExactly(c, g) <==> Encodable(g)
    ensures c.cfg[g.reg] % 8 == perm
  {
    if Encodable(g) {
      ProgrammedDecodes(c, g, perm);
    } else {
      NotEncodable(c, g, perm);
    }
    assert g.mode % 8 == 0;
  }

  lemma NotEncodable(c: Csrs, g: Region, perm: nat)
    requires ValidCsrs(c) && Accepted(g) && !g.allowOverlap && g.addr < PHYS
    requires Programmed(c, g, perm) && perm < 8 && !Encodable(g)
    ensures !DecodesExactly(c, g)
  {
    var x := if g.addr + g.size >= PHYS then PHYS - 1 else 0;
    TorMisses(c, g, perm, x);
  }

  /** A TOR region that cannot be encoded is decoded wrongly at its last or at the first address. */
  lemma TorMisses(c: Csrs, g: Region, perm: nat, x: nat)
    requires ValidCsrs(c) && g.mode == A_TOR && Programmed(c, g, perm) && perm < 8
    requires g.addr % PGSIZE == 0 && 0 < g.size && (g.size % PGSIZE == 0 || g.size == WORD - 1)
    requires g.addr < PHYS && g.addr + g.size < WORD && !Encodable(g)
    requires x == if g.addr + g.size >= PHYS then PHYS - 1 else 0
    ensures Matches(c, g.reg, x) != InRegion(g, x)
  {
    var prev := if g.reg == 0 then 0 else c.addr[g.reg - 1];
    TorEntry(A_TOR + perm, prev, c.addr[g.reg], x);
    if g.addr + g.size >= PHYS {
      assert x / 4 == ADDR_LIMIT - 1;
      assert !EntryMatches(A_TOR + perm, prev, c.addr[g.reg], x);
    } else {
      TorEnd(g);
      assert EntryMatches(A_TOR + perm, prev, c.addr[g.reg], x);
    }
  }
}
