/**
 Blocks so wide that the 54-bit pmpaddr registers encode them like the whole address space, and what
 that means for the bottom entry, which the OS region and shared regions use in turn.
 */
module WideBlocks {
  import opened Bits
  import opened PmpHardware
  import opened PmpRegions
  import opened PmpEncoding
  import opened Boot
  import opened Lifecycle

  /** From this size on a block is encoded like the whole address space. */
  const WIDE: nat := 0x200_0000_0000_0000

  /** A number ends in at least `j` ones exactly if its low `j` bits are all ones. */
  lemma {:induction false} OnesIff(v: nat, j: nat)
    ensures TrailingOnes(v) >= j <==> Low(v, j) == Pow2(j) - 1
  {
    if j > 0 { OnesIff(v / 2, j - 1); }
  }

  lemma LowIsMod(v: nat, k: nat)
    requires k == 54
    ensures Low(v, k) == v % ADDR_LIMIT
  {
    Pow2Values();
    HighLow(v, k);
    LowBound(v, k);
    RemainderIs(v, Shr(v, k), Low(v, k));
  }

  lemma RemainderIs(v: nat, q: nat, r: nat)
    requires v == ADDR_LIMIT * q + r && r < ADDR_LIMIT
    ensures v % ADDR_LIMIT == r
  {
    var d := v / ADDR_LIMIT;
    assert ADDR_LIMIT * (q - d) == v % ADDR_LIMIT - r;
  }

  /** The encoded address of an aligned block of 2^k bytes ends in exactly k - 3 ones. */
  lemma BlockOnes(addr: nat, k: nat)
    requires 3 <= k && Low(addr, k) == 0
    ensures TrailingOnes(addr / 4 + Pow2(k - 3) - 1) == k - 3
  {
    assert Low(addr, k) == addr % 2 + 2 * ((addr / 2) % 2 + 2 * Low(addr / 2 / 2, k - 2));
    assert addr / 2 / 2 == addr / 4;
    TrailingOnesOf(addr / 4, k - 3);
  }

  lemma WideSize(k: nat)
    ensures Pow2(k) >= WIDE <==> 57 <= k
  {
    Pow2Values();
    assert Pow2(57) == WIDE by { assert Pow2(57) == 2 * Pow2(56); }
    if k < 57 { Pow2Increasing(k, 57); }
    if 57 < k { Pow2Increasing(57, k); }
  }

  /** A block's encoded address is all ones exactly if the block is wide. */
  lemma AllOnesIff(g: Region)
    requires Accepted(g) && g.mode == A_NAPOT && !WholeSpace(g)
    ensures PmpAddrVal(g) % ADDR_LIMIT == ADDR_LIMIT - 1 <==> g.size >= WIDE
  {
    var k: nat :| AlignedPow2(g, k);
    NapotValue(g, k);
    BlockOnes(g.addr, k);
    WideSize(k);
    EndsInOnes(PmpAddrVal(g), 54);
  }

  lemma EndsInOnes(v: nat, j: nat)
    requires j == 54
    ensures v % ADDR_LIMIT == ADDR_LIMIT - 1 <==> TrailingOnes(v) >= j
  {
    Pow2Values();
    OnesIff(v, j);
    LowIsMod(v, j);
  }

  lemma OsIsAllOnes()
    ensures PmpAddrVal(OS) % ADDR_LIMIT == ADDR_LIMIT - 1
  {
    assert WholeSpace(OS);
  }

  /** With a shared region open in the bottom entry, the OS region is open exactly if the shared region is wide. */
  lemma OsOpenIffWide(c: Csrs, u: Region)
    requires ValidCsrs(c) && Accepted(u) && u.mode == A_NAPOT && u.reg == BOTTOM_REG && !WholeSpace(u)
    requires Programmed(c, u, SU_RWX)
    ensures OsOpen(c) <==> u.size >= WIDE
  {
    AllOnesIff(u);
    OsIsAllOnes();
  }
}
