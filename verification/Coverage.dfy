/**
 What the registers of an enclave's two regions cover, for every address an enclave can be created with.

 A pmpaddr register holds 54 bits, so a range at or above the physical limit is decoded as if its address had been
 taken modulo the limit.
 */
module Coverage {
  import opened Bits
  import opened PmpHardware
  import opened PmpRegions
  import opened PmpEncoding
  import opened Boot
  import opened Enclaves
  import opened Lifecycle
  import opened Isolation

  /** The block at `addr`, brought below the physical limit. */
  predicate BlockCovers(addr: nat, size: nat, x: nat) { addr % PHYS <= x < addr % PHYS + size }

  /** The range from `addr`, its two ends brought below the physical limit one by one. */
  predicate RangeCovers(addr: nat, size: nat, x: nat) { addr % PHYS <= x < (addr + size) % PHYS }

  predicate PrivateCovers(p: Params, x: nat)
    requires p.dramSize > 0
  {
    if TakesNapot(p.dramBase, p.dramSize) then BlockCovers(p.dramBase, p.dramSize, x)
    else RangeCovers(p.dramBase, p.dramSize, x)
  }

  predicate SharedCovers(p: Params, x: nat) { BlockCovers(p.untrustedBase, p.untrustedSize, x) }

  /** Only the address modulo the limit matters to the value programmed for a block. */
  lemma BlockFolds(addr: nat, e: nat)
    requires 0 < e
    ensures (addr / 4 + e - 1) % ADDR_LIMIT == (addr % PHYS / 4 + e - 1) % ADDR_LIMIT
  {
    var (q, r) := (addr / PHYS, addr % PHYS);
    assert addr == 4 * (ADDR_LIMIT * q) + r;
    assert addr / 4 + e - 1 == ADDR_LIMIT * q + (r / 4 + e - 1);
    AddMultiple(q, r / 4 + e - 1);
  }

  lemma AddMultiple(q: nat, v: nat)
    ensures (ADDR_LIMIT * q + v) % ADDR_LIMIT == v % ADDR_LIMIT
  {
    var (d, m) := (v / ADDR_LIMIT, v % ADDR_LIMIT);
    assert ADDR_LIMIT * q + v == ADDR_LIMIT * (q + d) + m;
    ModOf(q + d, m);
  }

  /** A block of 2^k bytes that starts aligned still does when its address is taken modulo the limit. */
  lemma {:induction false} LowFolds(addr: nat, k: nat, n: nat)
    requires Low(addr, k) == 0
    ensures Low(addr % Pow2(n), k) == 0
    decreases k
  {
    if k > 0 && n > 0 {
      HalfMod(addr, n);
      LowFolds(addr / 2, k - 1, n - 1);
    } else if n == 0 {
      LowOfZero(k);
    }
  }

  lemma HalfMod(y: nat, n: nat)
    requires 0 < n
    ensures y % Pow2(n) % 2 == y % 2 && y % Pow2(n) / 2 == y / 2 % Pow2(n - 1)
  {
    var m := Pow2(n - 1);
    assert Pow2(n) == 2 * m;
    var (d, r) := (y / 2 / m, y / 2 % m);
    assert y / 2 == m * d + r;
    assert y == Pow2(n) * d + (2 * r + y % 2) by { assert m * d * 2 == 2 * m * d; }
    UniqueMod(y, Pow2(n), d, 2 * r + y % 2);
  }

  lemma UniqueMod(y: nat, m: nat, d: nat, r: nat)
    requires r < m && y == m * d + r
    ensures y % m == r
  {
    var (e, s) := (y / m, y % m);
    assert y == m * e + s;
    SameQuotient(m, d, r, e, s);
  }

  lemma SameQuotient(m: nat, d: nat, r: nat, e: nat, s: nat)
    requires r < m && s < m && m * d + r == m * e + s
    ensures r == s
  {
    if d < e {
      Gap(m, d, e);
    } else if e < d {
      Gap(m, e, d);
    }
  }

  lemma {:induction false} Gap(m: nat, d: nat, e: nat)
    requires d < e
    ensures m * d + m <= m * e
    decreases e
  {
    assert m * e == m * (e - 1) + m;
    if d < e - 1 { Gap(m, d, e - 1); }
  }

  lemma NapotCovers(g: Region, b: Byte, prev: nat, x: nat)
    requires g.mode == A_NAPOT && !WholeSpace(g) && (exists k: nat :: AlignedPow2(g, k))
    requires x < PHYS && A_NAPOT <= b < A_NAPOT + 8
    ensures EntryMatches(b, prev, PmpAddrVal(g) % ADDR_LIMIT, x) <==> BlockCovers(g.addr, g.size, x)
  {
    var k: nat :| AlignedPow2(g, k);
    NapotEntry(b, prev, PmpAddrVal(g) % ADDR_LIMIT, x);
    NapotValue(g, k);
    BlockFolds(g.addr, Pow2(k - 3));
    Pow2Values();
    LowFolds(g.addr, k, 56);
    if k <= 56 { SmallBlockValue(g.addr % PHYS, k, x); } else { LargeBlockValue(g.addr % PHYS, k, x); }
  }

  lemma TorCovers(g: Region, b: Byte, x: nat)
    requires g.mode == A_TOR && g.addr % PGSIZE == 0 && g.size % PGSIZE == 0 && g.addr + g.size < WORD
    requires A_TOR <= b < A_TOR + 8
    ensures EntryMatches(b, g.addr / 4 % ADDR_LIMIT, PmpAddrVal(g) % ADDR_LIMIT, x) <==>
            RangeCovers(g.addr, g.size, x)
  {
    TorValue(g);
    TorRange(b, g.addr, g.size, x);
  }

  lemma TorValue(g: Region)
    requires g.mode == A_TOR && g.size % PGSIZE == 0 && g.addr + g.size < WORD
    ensures PmpAddrVal(g) == (g.addr + g.size) / 4
  {
    assert (WORD - 1) % PGSIZE != 0;
    ModOfSmaller(g.addr + g.size, WORD);
  }

  lemma TorRange(b: Byte, addr: nat, size: nat, x: nat)
    requires addr % PGSIZE == 0 && size % PGSIZE == 0 && A_TOR <= b < A_TOR + 8
    ensures EntryMatches(b, addr / 4 % ADDR_LIMIT, (addr + size) / 4 % ADDR_LIMIT, x) <==> RangeCovers(addr, size, x)
  {
    TorEntry(b, addr / 4 % ADDR_LIMIT, (addr + size) / 4 % ADDR_LIMIT, x);
    PagesAdd(addr, size);
    WordFolds(addr, x);
    WordFolds(addr + size, x);
  }

  /** Comparing words with a page boundary, kept to 54 bits, is comparing addresses with the boundary modulo 2^56. */
  lemma WordFolds(e: nat, x: nat)
    requires e % PGSIZE == 0
    ensures x / 4 < e / 4 % ADDR_LIMIT <==> x < e % PHYS
  {
    QuarterFolds(e);
    PageFolds(e);
    WordBelow(x, e % PHYS);
  }

  lemma PageFolds(y: nat)
    requires y % PGSIZE == 0
    ensures y % PHYS % PGSIZE == 0
  {
  }

  /** The two regions of an enclave are not the whole space, which overlaps the boot regions. */
  lemma RegionsAreBlocks(t: Table, p: Params)
    requires LoadedTable(t, p)
    ensures Accepted(t.regions[EPM_RID]) && !WholeSpace(t.regions[EPM_RID])
    ensures Accepted(t.regions[UTM_RID]) && !WholeSpace(t.regions[UTM_RID])
  {
    assert Exclusive(t, EPM_RID) && Exclusive(t, UTM_RID) && Exclusive(t, 4);
    assert Disjoint(t.regions[4], t.regions[EPM_RID]) && Disjoint(t.regions[4], t.regions[UTM_RID]);
  }

  /** The entry of the private region matches exactly what the region covers. */
  lemma PrivateMatches(c: Csrs, t: Table, p: Params, perm: nat, x: nat)
    requires ValidCsrs(c) && LoadedTable(t, p) && Programmed(c, t.regions[EPM_RID], perm) && perm < 8 && x < PHYS
    ensures Matches(c, t.regions[EPM_RID].reg, x) <==> PrivateCovers(p, x)
  {
    var g := t.regions[EPM_RID];
    RegionsAreBlocks(t, p);
    if g.mode == A_NAPOT { BlockMatches(c, g, perm, x); } else { RangeMatches(c, g, perm, x); }
  }

  lemma BlockMatches(c: Csrs, g: Region, perm: nat, x: nat)
    requires ValidCsrs(c) && Programmed(c, g, perm) && perm < 8 && x < PHYS
    requires Accepted(g) && !WholeSpace(g) && g.mode == A_NAPOT && 0 < g.reg
    ensures Matches(c, g.reg, x) <==> BlockCovers(g.addr, g.size, x)
  {
    NapotCovers(g, A_NAPOT + perm, c.addr[g.reg - 1], x);
  }

  lemma RangeMatches(c: Csrs, g: Region, perm: nat, x: nat)
    requires ValidCsrs(c) && Programmed(c, g, perm) && perm < 8
    requires Accepted(g) && !WholeSpace(g) && EpmShaped(g) && g.mode == A_TOR
    ensures Matches(c, g.reg, x) <==> RangeCovers(g.addr, g.size, x)
  {
    TorCovers(g, A_TOR + perm, x);
  }

  /** What the entry of the shared region says. */
  lemma SharedEntry(c: Csrs, t: Table, p: Params, perm: nat, x: nat)
    requires ValidCsrs(c) && LoadedTable(t, p) && Programmed(c, t.regions[UTM_RID], perm) && perm < 8 && x < PHYS
    ensures PermFrom(c, x, 7) == if SharedCovers(p, x) then perm else NO_PERM
  {
    var u := t.regions[UTM_RID];
    RegionsAreBlocks(t, p);
    BlockMatches(c, u, perm, x);
    assert PermFrom(c, x, 8) == NO_PERM;
  }

  // ---------- in terms of the enclave's own memory ----------

  lemma Small(y: nat)
    requires y < PHYS
    ensures y % PHYS == y
  {
  }

  /** Private memory that the PMP can express is covered, and below the limit nothing else is. */
  lemma PrivateIsCovered(p: Params, x: nat)
    requires p.dramSize > 0 && p.dramBase < PHYS && x < PHYS
    ensures PrivateCovers(p, x) ==> InEpm(p, x)
    ensures Expressible(p) ==> (PrivateCovers(p, x) <==> InEpm(p, x))
  {
    Small(p.dramBase);
    var end := p.dramBase + p.dramSize;
    if end < PHYS { Small(end); } else { assert end % PHYS <= end; }
  }

  lemma SharedIsCovered(p: Params, x: nat)
    requires p.untrustedBase < PHYS
    ensures SharedCovers(p, x) <==> InUtm(p, x)
  {
    Small(p.untrustedBase);
  }

  lemma SharedNotPrivate(t: Table, p: Params, x: nat)
    requires LoadedTable(t, p) && InUtm(p, x)
    ensures !InEpm(p, x)
  {
    assert Exclusive(t, EPM_RID) && Exclusive(t, UTM_RID);
    assert Disjoint(t.regions[EPM_RID], t.regions[UTM_RID]);
  }

  lemma UtmOutsideBoot(t: Table, p: Params, x: nat)
    requires LoadedTable(t, p) && InUtm(p, x)
    ensures !InBootRegion(x)
  {
    assert Exclusive(t, UTM_RID);
    forall i: nat | i < 5 ensures !InRegion(BOOT_REGIONS[i], x) {
      assert Exclusive(t, i);
      assert Disjoint(t.regions[i], t.regions[UTM_RID]);
    }
  }
}
