/**
 The PMP registers of one hart and what they mean to the hardware.

 Writing replaces one configuration byte and one address, which is what the PMP_SET and
 PMP_UNSET macros achieve on the packed pmpcfg0 word (module PmpWord). Reading follows section
 3.7.1 of the RISC-V Privileged Architecture: the lowest-numbered entry that matches an address
 decides, and an S/U-mode access that no entry matches is refused.
 */
module PmpHardware {
  import opened Bits

  /** PMP_N_REG: the number of PMP entries in use, all configured by pmpcfg0. */
  const N_REG: nat := 8

  /** One past the largest physical address; pmpaddr holds bits 55..2 of an address. */
  const PHYS: nat := 0x100_0000_0000_0000
  const ADDR_LIMIT: nat := 0x40_0000_0000_0000

  // Permission bits of a configuration byte, and its address-matching modes.
  const NO_PERM: nat := 0
  const ALL_RW: nat := 0x03
  const SU_RWX: nat := 0x07
  const A_OFF: nat := 0x00
  const A_TOR: nat := 0x08
  const A_NA4: nat := 0x10
  const A_NAPOT: nat := 0x18

  type Byte = b: nat | b < 0x100

  /** The eight bytes of pmpcfg0, lowest first, and pmpaddr0..7 of one hart. */
  datatype Csrs = Csrs(cfg: seq<Byte>, addr: seq<nat>)

  predicate ValidCsrs(c: Csrs) {
    |c.cfg| == N_REG && |c.addr| == N_REG && forall i :: 0 <= i < N_REG ==> c.addr[i] < ADDR_LIMIT
  }

  // ---------- writing one entry ----------

  /** PMP_SET(n, g, addr, pmpc): pmpaddr keeps 54 bits of what is written. */
  function SetEntry(c: Csrs, n: nat, addr: nat, b: Byte): (r: Csrs)
    requires ValidCsrs(c) && n < N_REG
    ensures ValidCsrs(r)
  {
    Csrs(c.cfg[n := b], c.addr[n := addr % ADDR_LIMIT])
  }

  /** PMP_UNSET(n, g) */
  function UnsetEntry(c: Csrs, n: nat): (r: Csrs)
    requires ValidCsrs(c) && n < N_REG
    ensures ValidCsrs(r)
  {
    Csrs(c.cfg[n := 0], c.addr[n := 0])
  }

  // ---------- reading: address matching and priority ----------

  /** Number of consecutive one bits at the low end of `a`. */
  function TrailingOnes(a: nat): nat {
    if a % 2 == 1 then 1 + TrailingOnes(a / 2) else 0
  }

  /** pmpaddr = y..y 0 1..1 with k ones selects the 2^(k+1) words that share the y bits. */
  predicate NapotMatch(a: nat, word: nat) {
    var k := TrailingOnes(a) + 1;
    Shr(a, k) == Shr(word, k)
  }

  /** Does an entry with byte `b` and address `a`, after an entry with address `prev`, match `x`? */
  predicate EntryMatches(b: Byte, prev: nat, a: nat, x: nat) {
    var mode := (b / 8) % 4 * 8;
    if mode == A_OFF then false
    else if mode == A_TOR then prev <= x / 4 < a
    else if mode == A_NA4 then x / 4 == a
    else NapotMatch(a, x / 4)
  }

  lemma TorEntry(b: Byte, prev: nat, a: nat, x: nat)
    requires A_TOR <= b < A_TOR + 8
    ensures EntryMatches(b, prev, a, x) <==> prev <= x / 4 < a
  {
  }

  lemma NapotEntry(b: Byte, prev: nat, a: nat, x: nat)
    requires A_NAPOT <= b < A_NAPOT + 8
    ensures EntryMatches(b, prev, a, x) <==> NapotMatch(a, x / 4)
  {
  }

  /** Does entry `i` match physical address `x`? */
  predicate Matches(c: Csrs, i: nat, x: nat)
    requires ValidCsrs(c) && i < N_REG
  {
    EntryMatches(c.cfg[i], if i == 0 then 0 else c.addr[i - 1], c.addr[i], x)
  }

  /** R/W/X bits granted to S/U-mode at `x` by the lowest-numbered matching entry from `i` on. */
  function PermFrom(c: Csrs, x: nat, i: nat): nat
    requires ValidCsrs(c) && i <= N_REG
    decreases N_REG - i
  {
    if i == N_REG then NO_PERM
    else if Matches(c, i, x) then c.cfg[i] % 8
    else PermFrom(c, x, i + 1)
  }

  function Perm(c: Csrs, x: nat): nat
    requires ValidCsrs(c)
  {
    PermFrom(c, x, 0)
  }

  /** Entries below the first match do not matter. */
  lemma {:induction false} PermSkips(c: Csrs, x: nat, i: nat, j: nat)
    requires ValidCsrs(c) && i <= j <= N_REG
    requires forall n :: i <= n < j ==> !Matches(c, n, x)
    ensures PermFrom(c, x, i) == PermFrom(c, x, j)
    decreases j - i
  {
    if i < j { PermSkips(c, x, i + 1, j); }
  }
}
