/**
 Unsigned machine words as natural numbers.

 C's bitwise operators and shifts are defined bit by bit, so that the tricks the source
 plays with them (power-of-two tests, alignment masks, bitmaps) are stated literally and
 their arithmetic meaning is proved.
 */
module Bits {

  /** One past the largest 64-bit value (`uintptr_t`, `uint64_t`, `unsigned long`). */
  const WORD: nat := 0x1_0000_0000_0000_0000

  type U64 = x: nat | x < WORD

  function Pow2(n: nat): (p: nat)
    ensures 1 <= p
  {
    if n == 0 then 1 else 2 * Pow2(n - 1)
  }

  /** Bit `i` of `x`. */
  predicate Bit(x: nat, i: nat) {
    if i == 0 then x % 2 == 1 else Bit(x / 2, i - 1)
  }

  /** `x & y` */
  function And(x: nat, y: nat): nat {
    if x == 0 || y == 0 then 0
    else (if x % 2 == 1 && y % 2 == 1 then 1 else 0) + 2 * And(x / 2, y / 2)
  }

  /** `x | y` */
  function Or(x: nat, y: nat): nat {
    if x == 0 then y
    else if y == 0 then x
    else (if x % 2 == 1 || y % 2 == 1 then 1 else 0) + 2 * Or(x / 2, y / 2)
  }

  /** `~x` on a word of `width` bits. */
  function Not(x: nat, width: nat): nat
    requires x < Pow2(width)
  {
    Pow2(width) - 1 - x
  }

  /** `x >> m` */
  function Shr(x: nat, m: nat): nat {
    if m == 0 then x else Shr(x / 2, m - 1)
  }

  /** `x << m`, without a width. */
  function Shl(x: nat, m: nat): nat {
    if m == 0 then x else 2 * Shl(x, m - 1)
  }

  /** The low `k` bits of `x`. */
  function Low(x: nat, k: nat): nat {
    if k == 0 then 0 else x % 2 + 2 * Low(x / 2, k - 1)
  }

  // ---------- single bits ----------

  lemma {:induction false} BitOfZero(i: nat)
    ensures !Bit(0, i)
  {
    if i > 0 { BitOfZero(i - 1); }
  }

  lemma {:induction false} BitOfAnd(x: nat, y: nat, i: nat)
    ensures Bit(And(x, y), i) == (Bit(x, i) && Bit(y, i))
  {
    if x == 0 || y == 0 {
      BitOfZero(i);
    } else if i > 0 {
      BitOfAnd(x / 2, y / 2, i - 1);
    }
  }

  lemma {:induction false} BitOfOr(x: nat, y: nat, i: nat)
    ensures Bit(Or(x, y), i) == (Bit(x, i) || Bit(y, i))
  {
    if x == 0 || y == 0 {
      BitOfZero(i);
    } else if i > 0 {
      BitOfOr(x / 2, y / 2, i - 1);
    }
  }

  lemma {:induction false} BitOfPow2(n: nat, i: nat)
    ensures Bit(Pow2(n), i) == (i == n)
  {
    if n == 0 {
      if i > 0 { BitOfZero(i - 1); }
    } else if i > 0 {
      BitOfPow2(n - 1, i - 1);
    }
  }

  /** A word of `width` bits has no bit at or above `width`. */
  lemma {:induction false} BitAboveWidth(x: nat, width: nat, i: nat)
    requires x < Pow2(width) && width <= i
    ensures !Bit(x, i)
  {
    if width == 0 {
      BitOfZero(i);
    } else {
      BitAboveWidth(x / 2, width - 1, i - 1);
    }
  }

  lemma {:induction false} BitOfNot(x: nat, width: nat, i: nat)
    requires x < Pow2(width)
    ensures Bit(Not(x, width), i) == (i < width && !Bit(x, i))
  {
    if width <= i {
      BitAboveWidth(Not(x, width), width, i);
    } else if i > 0 {
      assert Not(x, width) / 2 == Not(x / 2, width - 1);
      BitOfNot(x / 2, width - 1, i - 1);
    }
  }

  lemma {:induction false} BitOfShr(x: nat, m: nat, i: nat)
    ensures Bit(Shr(x, m), i) == Bit(x, m + i)
  {
    if m > 0 { BitOfShr(x / 2, m - 1, i); }
  }

  lemma {:induction false} BitOfShl(x: nat, m: nat, i: nat)
    ensures Bit(Shl(x, m), i) == (m <= i && Bit(x, i - m))
  {
    if m > 0 && i > 0 { BitOfShl(x, m - 1, i - 1); }
  }

  lemma {:induction false} BitOfLow(x: nat, k: nat, i: nat)
    ensures Bit(Low(x, k), i) == (i < k && Bit(x, i))
  {
    if k == 0 {
      BitOfZero(i);
    } else if i > 0 {
      BitOfLow(x / 2, k - 1, i - 1);
    }
  }

  /** Two words with the same bits are the same word. */
  lemma {:induction false} SameBits(x: nat, y: nat)
    requires forall i: nat :: Bit(x, i) == Bit(y, i)
    ensures x == y
    decreases x + y
  {
    assert Bit(x, 0) == Bit(y, 0);
    if x != 0 || y != 0 {
      forall i: nat ensures Bit(x / 2, i) == Bit(y / 2, i) {
        assert Bit(x, i + 1) == Bit(y, i + 1);
      }
      SameBits(x / 2, y / 2);
    }
  }

  /** A word whose bits all lie below `width` fits in `width` bits. */
  lemma {:induction false} BitsBound(x: nat, width: nat)
    requires forall i: nat :: width <= i ==> !Bit(x, i)
    ensures x < Pow2(width)
  {
    if width == 0 {
      forall i: nat ensures Bit(x, i) == Bit(0, i) { BitOfZero(i); }
      SameBits(x, 0);
    } else {
      forall i: nat | width - 1 <= i ensures !Bit(x / 2, i) {
        assert !Bit(x, i + 1);
      }
      BitsBound(x / 2, width - 1);
    }
  }

  /** `(b & (1 << n)) != 0` tests bit `n`. */
  lemma {:induction false} TestBit(b: nat, n: nat)
    ensures (And(b, Pow2(n)) != 0) == Bit(b, n)
  {
    if b == 0 {
      BitOfZero(n);
    } else if n > 0 {
      TestBit(b / 2, n - 1);
    } else {
      assert b / 2 == 0 || Pow2(0) / 2 == 0;
    }
  }

  // ---------- powers of two, masks and alignment ----------

  lemma {:induction false} Pow2Increasing(a: nat, b: nat)
    requires a <= b
    ensures Pow2(a) <= Pow2(b)
    ensures a < b ==> Pow2(a) < Pow2(b)
  {
    if a < b { Pow2Increasing(a, b - 1); }
  }

  lemma Pow2Step8(a: nat)
    ensures Pow2(a + 8) == 0x100 * Pow2(a)
  {
    assert Pow2(a + 4) == 16 * Pow2(a) by {
      assert Pow2(a + 2) == 4 * Pow2(a);
      assert Pow2(a + 4) == 4 * Pow2(a + 2);
    }
    assert Pow2(a + 6) == 4 * Pow2(a + 4);
    assert Pow2(a + 8) == 4 * Pow2(a + 6);
  }

  /** The powers of two the monitor's constants use. */
  lemma Pow2Values()
    ensures Pow2(3) == 8 && Pow2(8) == 0x100 && Pow2(12) == 0x1000 && Pow2(16) == 0x1_0000
    ensures Pow2(31) == 0x8000_0000 && Pow2(32) == 0x1_0000_0000
    ensures Pow2(53) == 0x20_0000_0000_0000 && Pow2(54) == 0x40_0000_0000_0000
    ensures Pow2(56) == 0x100_0000_0000_0000
    ensures Pow2(64) == WORD
  {
    assert Pow2(4) == 16;
    Pow2Step8(0);
    Pow2Step8(4);
    Pow2Step8(8);
    Pow2Step8(16);
    Pow2Step8(24);
    Pow2Step8(32);
    Pow2Step8(40);
    Pow2Step8(48);
    Pow2Step8(56);
    assert Pow2(50) == 4 * Pow2(48);
    assert Pow2(52) == 4 * Pow2(50);
    assert Pow2(54) == 4 * Pow2(52);
  }

  lemma {:induction false} LowBound(x: nat, k: nat)
    ensures Low(x, k) < Pow2(k)
  {
    if k > 0 { LowBound(x / 2, k - 1); }
  }

  /** `x & (2^k - 1)` is the low `k` bits. */
  lemma {:induction false} AndLowMask(x: nat, k: nat)
    ensures And(x, Pow2(k) - 1) == Low(x, k)
  {
    if k > 0 {
      assert (Pow2(k) - 1) / 2 == Pow2(k - 1) - 1;
      AndLowMask(x / 2, k - 1);
      if x == 0 { LowOfZero(k); }
    }
  }

  lemma {:induction false} LowOfZero(k: nat)
    ensures Low(0, k) == 0
  {
    if k > 0 { LowOfZero(k - 1); }
  }

  lemma TwiceProduct(a: nat, b: nat)
    ensures (2 * a) * b == 2 * (a * b)
  {
  }

  /** A word is its high part shifted left plus its low part. */
  lemma {:induction false} HighLow(x: nat, k: nat)
    ensures x == Pow2(k) * Shr(x, k) + Low(x, k)
  {
    if k > 0 {
      HighLow(x / 2, k - 1);
      TwiceProduct(Pow2(k - 1), Shr(x / 2, k - 1));
    }
  }

  /** The low twelve bits are the offset in a page. */
  lemma PageOffset(x: nat)
    ensures Low(x, 12) == x % 0x1000 && Shr(x, 12) == x / 0x1000
    ensures And(x, 0xfff) == x % 0x1000
  {
    PageSplit(x, 12);
  }

  lemma PageSplit(x: nat, k: nat)
    requires k == 12
    ensures Low(x, k) == x % 0x1000 && Shr(x, k) == x / 0x1000
    ensures And(x, 0xfff) == x % 0x1000
  {
    Pow2Values();
    HighLow(x, k);
    LowBound(x, k);
    AndLowMask(x, k);
  }

  /** The addresses that share all but their low `k` bits with an aligned base are its block. */
  lemma {:induction false} AlignedBlock(base: nat, x: nat, k: nat)
    requires Low(base, k) == 0
    ensures Shr(x, k) == Shr(base, k) <==> base <= x < base + Pow2(k)
  {
    if k > 0 { AlignedBlock(base / 2, x / 2, k - 1); }
  }

  /** A larger alignment is also a smaller one. */
  lemma {:induction false} AlignedDown(x: nat, k: nat, j: nat)
    requires Low(x, k) == 0 && j <= k
    ensures Low(x, j) == 0
  {
    if j > 0 { AlignedDown(x / 2, k - 1, j - 1); }
  }

  /** An aligned block that starts below an aligned boundary also ends there or below. */
  lemma {:induction false} AlignedBelow(base: nat, k: nat, top: nat)
    requires Low(base, k) == 0 && k <= top && base < Pow2(top)
    ensures base + Pow2(k) <= Pow2(top)
  {
    if k > 0 { AlignedBelow(base / 2, k - 1, top - 1); }
  }

  /** Only zero is aligned to more than its own size. */
  lemma {:induction false} AlignedSmall(base: nat, k: nat)
    requires Low(base, k) == 0 && base < Pow2(k)
    ensures base == 0
  {
    if k > 0 { AlignedSmall(base / 2, k - 1); }
  }

  /** Or-ing a value below `2^k` into a multiple of `2^k` is addition. */
  lemma {:induction false} OrLow(a: nat, m: nat, k: nat)
    requires Low(a, k) == 0 && m < Pow2(k)
    ensures Or(a, m) == a + m
  {
    if a != 0 && m != 0 { OrLow(a / 2, m / 2, k - 1); }
  }

  ghost predicate IsPow2(x: nat) { exists k: nat :: x == Pow2(k) }

  /** The `!(x & (x - 1))` test accepts exactly the powers of two. */
  lemma {:induction false} PowerOfTwoTest(x: nat)
    requires x > 0
    ensures And(x, x - 1) == 0 <==> IsPow2(x)
  {
    if x == 1 {
      assert x == Pow2(0);
    } else if x % 2 == 1 {
      assert (x - 1) / 2 == x / 2;
      AndSelf(x / 2);
      forall k: nat ensures x != Pow2(k) { }
    } else {
      PowerOfTwoTest(x / 2);
      assert (x - 1) / 2 == x / 2 - 1;
      if IsPow2(x / 2) {
        var k: nat :| x / 2 == Pow2(k);
        assert x == Pow2(k + 1);
      }
      if IsPow2(x) {
        var k: nat :| x == Pow2(k);
        assert x / 2 == Pow2(k - 1);
      }
    }
  }

  lemma {:induction false} AndSelf(x: nat)
    ensures And(x, x) == x
  {
    if x > 0 { AndSelf(x / 2); }
  }

  lemma {:induction false} ShlOfZero(m: nat)
    ensures Shl(0, m) == 0
  {
    if m > 0 { ShlOfZero(m - 1); }
  }

  lemma {:induction false} ShlBound(x: nat, width: nat, m: nat)
    requires x < Pow2(width)
    ensures Shl(x, m) < Pow2(width + m)
  {
    if m > 0 { ShlBound(x, width, m - 1); }
  }

  // ---------- bitmaps held in a 32-bit word ----------

  /** `SET_BIT(bitmap, n)` */
  function SetBit(b: nat, n: nat): nat { Or(b, Pow2(n)) }

  /** `UNSET_BIT(bitmap, n)` on a 32-bit word */
  function UnsetBit(b: nat, n: nat): nat
    requires n < 32
  {
    Pow2Increasing(n, 32);
    And(b, Not(Pow2(n), 32))
  }

  lemma SetBitEffect(b: nat, n: nat)
    ensures forall i: nat :: Bit(SetBit(b, n), i) == (Bit(b, i) || i == n)
  {
    forall i: nat ensures Bit(SetBit(b, n), i) == (Bit(b, i) || i == n) {
      BitOfOr(b, Pow2(n), i);
      BitOfPow2(n, i);
    }
  }

  lemma UnsetBitEffect(b: nat, n: nat)
    requires n < 32 && forall i: nat :: 32 <= i ==> !Bit(b, i)
    ensures forall i: nat :: Bit(UnsetBit(b, n), i) == (Bit(b, i) && i != n)
  {
    Pow2Increasing(n, 32);
    forall i: nat ensures Bit(UnsetBit(b, n), i) == (Bit(b, i) && i != n) {
      BitOfAnd(b, Not(Pow2(n), 32), i);
      BitOfNot(Pow2(n), 32, i);
      BitOfPow2(n, i);
    }
  }
}
