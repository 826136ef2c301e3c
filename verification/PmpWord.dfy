/**
 The packed pmpcfg0 word. PMP_SET and PMP_UNSET read the whole word, replace one byte with
 shifts and masks, and write it back; here that is shown to be an update of one byte.
 */
module PmpWord {
  import opened Bits
  import opened PmpHardware

  // ---------- one byte of pmpcfg0 ----------

  /** `b << 8*n` */
  function InLane(b: Byte, n: nat): nat
    requires n < N_REG
  {
    Shl(b, 8 * n)
  }

  lemma InLaneFits(b: Byte, n: nat)
    requires n < N_REG
    ensures InLane(b, n) < Pow2(64)
  {
    assert Pow2(8) == 0x100;
    ShlBound(b, 8, 8 * n);
    Pow2Increasing(8 + 8 * n, 64);
  }

  /** pmp<n>cfg: byte `n` of pmpcfg0. */
  function Lane(w: nat, n: nat): Byte
    requires n < N_REG
  {
    assert Pow2(8) == 0x100;
    LowBound(Shr(w, 8 * n), 8);
    Low(Shr(w, 8 * n), 8)
  }

  lemma BitOfLane(w: nat, n: nat, i: nat)
    requires n < N_REG
    ensures Bit(Lane(w, n), i) == (i < 8 && Bit(w, 8 * n + i))
  {
    BitOfLow(Shr(w, 8 * n), 8, i);
    BitOfShr(w, 8 * n, i);
  }

  /** `oldcfg & ~(0xff << 8*n)` */
  function WithoutLane(w: U64, n: nat): nat
    requires n < N_REG
  {
    InLaneFits(0xff, n);
    And(w, Not(InLane(0xff, n), 64))
  }

  lemma BitOfWithoutLane(w: U64, n: nat, i: nat)
    requires n < N_REG
    ensures Bit(WithoutLane(w, n), i) == (Bit(w, i) && !(8 * n <= i < 8 * n + 8))
  {
    InLaneFits(0xff, n);
    Pow2Values();
    BitOfAnd(w, Not(InLane(0xff, n), 64), i);
    BitOfNot(InLane(0xff, n), 64, i);
    BitOfShl(0xff, 8 * n, i);
    if 8 * n <= i {
      BitOfNot(0, 8, i - 8 * n);
      BitOfZero(i - 8 * n);
      assert Not(0, 8) == 0xff;
    }
    if 64 <= i { BitAboveWidth(w, 64, i); }
  }

  lemma WithoutLaneFits(w: U64, n: nat)
    requires n < N_REG
    ensures WithoutLane(w, n) < WORD
  {
    Pow2Values();
    forall i: nat | 64 <= i ensures !Bit(WithoutLane(w, n), i) {
      BitOfWithoutLane(w, n, i);
      BitAboveWidth(w, 64, i);
    }
    BitsBound(WithoutLane(w, n), 64);
  }

  /** `pmpc | (oldcfg & ~(0xff << 8*n))` where pmpc is the byte `b` in lane `n`. */
  function MergeLane(w: U64, b: Byte, n: nat): U64
    requires n < N_REG
  {
    MergeLaneFits(w, b, n);
    Or(InLane(b, n), WithoutLane(w, n))
  }

  lemma MergeLaneFits(w: U64, b: Byte, n: nat)
    requires n < N_REG
    ensures Or(InLane(b, n), WithoutLane(w, n)) < WORD
  {
    Pow2Values();
    WithoutLaneFits(w, n);
    InLaneFits(b, n);
    forall i: nat | 64 <= i ensures !Bit(Or(InLane(b, n), WithoutLane(w, n)), i) {
      BitOfOr(InLane(b, n), WithoutLane(w, n), i);
      BitAboveWidth(InLane(b, n), 64, i);
      BitAboveWidth(WithoutLane(w, n), 64, i);
    }
    BitsBound(Or(InLane(b, n), WithoutLane(w, n)), 64);
  }

  lemma BitOfMerge(w: U64, b: Byte, n: nat, j: nat)
    requires n < N_REG
    ensures Bit(MergeLane(w, b, n), j) == if 8 * n <= j < 8 * n + 8 then Bit(b, j - 8 * n) else Bit(w, j)
  {
    BitOfOr(InLane(b, n), WithoutLane(w, n), j);
    BitOfShl(b, 8 * n, j);
    BitOfWithoutLane(w, n, j);
    if 8 * n + 8 <= j {
      assert Pow2(8) == 0x100;
      BitAboveWidth(b, 8, j - 8 * n);
    }
  }

  lemma LaneOfMergeBit(w: U64, b: Byte, n: nat, k: nat, i: nat)
    requires n < N_REG && k < N_REG
    ensures Bit(Lane(MergeLane(w, b, n), k), i) == Bit(if k == n then b else Lane(w, k), i)
  {
    BitOfLane(MergeLane(w, b, n), k, i);
    BitOfLane(w, k, i);
    if i < 8 {
      BitOfMerge(w, b, n, 8 * k + i);
    } else {
      assert Pow2(8) == 0x100;
      BitAboveWidth(b, 8, i);
    }
  }

  /** The read-modify-write of pmpcfg0 replaces byte `n` and no other. */
  lemma LaneOfMerge(w: U64, b: Byte, n: nat, k: nat)
    requires n < N_REG && k < N_REG
    ensures Lane(MergeLane(w, b, n), k) == if k == n then b else Lane(w, k)
  {
    var want: nat := if k == n then b else Lane(w, k);
    forall i: nat ensures Bit(Lane(MergeLane(w, b, n), k), i) == Bit(want, i) {
      LaneOfMergeBit(w, b, n, k, i);
    }
    SameBits(Lane(MergeLane(w, b, n), k), want);
  }

  /** Clearing byte `n` is merging a zero byte into it. */
  lemma WithoutLaneIsMerge(w: U64, n: nat)
    requires n < N_REG
    ensures WithoutLane(w, n) == MergeLane(w, 0, n)
  {
    ShlOfZero(8 * n);
  }

  /** The bytes of pmpcfg0. */
  function Unpack(w: U64): (bytes: seq<Byte>)
    ensures |bytes| == N_REG
  {
    seq(N_REG, n requires 0 <= n < N_REG => Lane(w, n))
  }

  /** Replacing a byte of the word replaces it in the list of bytes. */
  lemma UnpackMerge(w: U64, b: Byte, n: nat)
    requires n < N_REG
    ensures Unpack(MergeLane(w, b, n)) == Unpack(w)[n := b]
  {
    forall k: nat | k < N_REG ensures Unpack(MergeLane(w, b, n))[k] == Unpack(w)[n := b][k] {
      LaneOfMerge(w, b, n, k);
    }
  }

  lemma UnpackWithout(w: U64, n: nat)
    requires n < N_REG
    ensures WithoutLane(w, n) < WORD
    ensures Unpack(WithoutLane(w, n)) == Unpack(w)[n := 0]
  {
    WithoutLaneFits(w, n);
    WithoutLaneIsMerge(w, n);
    UnpackMerge(w, 0, n);
  }

  /** The PMP CSRs of a hart as the macros see them. */
  class HartPmp {
    var pmpcfg0: U64
    var pmpaddr: seq<nat>

    ghost predicate Valid()
      reads this
    {
      |pmpaddr| == N_REG && forall i :: 0 <= i < N_REG ==> pmpaddr[i] < ADDR_LIMIT
    }

    /** The registers entry by entry. */
    ghost function View(): (c: Csrs)
      requires Valid()
      reads this
      ensures ValidCsrs(c)
    {
      Csrs(Unpack(pmpcfg0), pmpaddr)
    }

    constructor ()
      ensures Valid() && pmpcfg0 == 0 && View().addr == [0, 0, 0, 0, 0, 0, 0, 0]
    {
      pmpcfg0, pmpaddr := 0, [0, 0, 0, 0, 0, 0, 0, 0];
    }

    /** PMP_SET(n, g, addr, pmpc), for pmpc the byte `b` shifted into place. */
    method PmpSet(n: nat, addr: nat, b: Byte)
      requires Valid() && n < N_REG
      modifies this
      ensures Valid() && View() == SetEntry(old(View()), n, addr, b)
    {
      var oldcfg := pmpcfg0;
      UnpackMerge(oldcfg, b, n);
      var pmpc: U64 := MergeLane(oldcfg, b, n);
      pmpaddr := pmpaddr[n := addr % ADDR_LIMIT];
      pmpcfg0 := pmpc;
    }

    /** PMP_UNSET(n, g) */
    method PmpUnset(n: nat)
      requires Valid() && n < N_REG
      modifies this
      ensures Valid() && View() == UnsetEntry(old(View()), n)
    {
      UnpackWithout(pmpcfg0, n);
      var pmpc: U64 := WithoutLane(pmpcfg0, n);
      pmpaddr := pmpaddr[n := 0];
      pmpcfg0 := pmpc;
    }

    /** What `_mon_enter_osbi` does to pmpcfg0 on every return from the firmware, whatever it holds. */
    method EnterFromFirmware()
      requires Valid()
      modifies this
      ensures Valid() && View() == Locked(old(View()))
    {
      LockedBytes();
      pmpcfg0 := LOCK_OSBI;
    }

    /**
     `pmp_init`. PMP_SET or-s the old word into the variable it is given, and the loop hands it
     the same variable each time, so the bytes read in the first round come back in the others.
     */
    method PmpInit()
      requires Valid()
      modifies this
      ensures Valid() && View() == InitialCsrs(old(View()))
    {
      var pmpcfg: nat := 0;
      ghost var w := pmpcfg0;
      UnpackWithout(w, 0);
      for n := 0 to N_REG
        invariant Valid()
        invariant forall i :: 0 <= i < N_REG ==> pmpaddr[i] == if i < n then 0 else old(pmpaddr)[i]
        invariant n == 0 ==> pmpcfg0 == w && pmpcfg == 0
        invariant n > 0 ==> pmpcfg == pmpcfg0 == WithoutLane(w, 0)
      {
        if n > 0 { WithoutLaneIsWithin(pmpcfg, n); }
        pmpcfg := Or(pmpcfg, WithoutLane(pmpcfg0, n));
        pmpaddr := pmpaddr[n := 0];
        pmpcfg0 := pmpcfg;
      }
      assert pmpaddr == ZERO_ADDRS;
    }
  }

  // ---------- the word every return from the firmware writes ----------

  /** LOCK_OSBI of monitor.S */
  const LOCK_OSBI: U64 := 0x1F00_181F_1818_1B1D

  /** Its bytes, lowest first. */
  const LOCKED: seq<Byte> := [0x1D, 0x1B, 0x18, 0x18, 0x1F, 0x18, 0x00, 0x1F]

  /** The registers with that word in pmpcfg0; pmpaddr is untouched. */
  function Locked(c: Csrs): (r: Csrs)
    requires ValidCsrs(c)
    ensures ValidCsrs(r)
  {
    c.(cfg := LOCKED)
  }

  /** Shifting by a byte more is dividing by 256 first. */
  lemma ShrByte(w: nat, m: nat)
    ensures Shr(w, m + 8) == Shr(w / 0x100, m)
  {
    assert Shr(w, m + 8) == Shr(w / 2 / 2, m + 6);
    assert Shr(w / 4, m + 6) == Shr(w / 4 / 2 / 2, m + 4);
    assert Shr(w / 16, m + 4) == Shr(w / 16 / 2 / 2, m + 2);
    assert Shr(w / 64, m + 2) == Shr(w / 64 / 2 / 2, m);
  }

  lemma LowByte(w: nat, k: nat)
    requires k == 8
    ensures Low(w, k) == w % 0x100
  {
    var (q, r) := (Shr(w, k), Low(w, k));
    assert Pow2(k) == 0x100 by { assert Pow2(8) == 0x100; }
    HighLow(w, k);
    LowBound(w, k);
    RemainderByte(w, q, r);
  }

  lemma RemainderByte(w: nat, q: nat, r: nat)
    requires w == 0x100 * q + r && r < 0x100
    ensures w % 0x100 == r
  {
  }

  /** The lowest byte, and the others as the lower ones of the word without it. */
  lemma LaneSteps(w: nat, n: nat)
    requires n < N_REG
    ensures Lane(w, n) == if n == 0 then w % 0x100 else Lane(w / 0x100, n - 1)
  {
    if n == 0 { LowByte(w, 8); } else { ShrByte(w, 8 * (n - 1)); }
  }

  lemma LockedBytes()
    ensures Unpack(LOCK_OSBI) == LOCKED
  {
    LaneAt(0x1F00_181F_1818_1B1D, 0x1F_0018_1F18_181B, 0x1D);
    LaneAt(0x1F_0018_1F18_181B, 0x1F00_181F_1818, 0x1B);
    LaneAt(0x1F00_181F_1818, 0x1F_0018_1F18, 0x18);
    LaneAt(0x1F_0018_1F18, 0x1F00_181F, 0x18);
    LaneAt(0x1F00_181F, 0x1F_0018, 0x1F);
    LaneAt(0x1F_0018, 0x1F00, 0x18);
    LaneAt(0x1F00, 0x1F, 0x00);
    LaneAt(0x1F, 0, 0x1F);
  }

  /** Byte by byte. */
  lemma LaneAt(w: nat, rest: nat, b: Byte)
    requires w == 0x100 * rest + b
    ensures Lane(w, 0) == b && forall n: nat :: 0 < n < N_REG ==> Lane(w, n) == Lane(rest, n - 1)
  {
    LaneSteps(w, 0);
    forall n: nat | 0 < n < N_REG ensures Lane(w, n) == Lane(rest, n - 1) { LaneSteps(w, n); }
  }

  const ZERO_ADDRS: seq<nat> := [0, 0, 0, 0, 0, 0, 0, 0]

  /** What `pmp_init` leaves: zero addresses, and only entry 0 switched off. */
  function InitialCsrs(c: Csrs): (r: Csrs)
    requires ValidCsrs(c)
    ensures ValidCsrs(r)
  {
    Csrs(c.cfg[0 := 0], ZERO_ADDRS)
  }

  lemma WithoutLaneIsWithin(w: U64, n: nat)
    requires n < N_REG
    ensures Or(w, WithoutLane(w, n)) == w
  {
    forall i: nat ensures Bit(Or(w, WithoutLane(w, n)), i) == Bit(w, i) {
      BitOfOr(w, WithoutLane(w, n), i);
      BitOfWithoutLane(w, n, i);
    }
    SameBits(Or(w, WithoutLane(w, n)), w);
  }
}
