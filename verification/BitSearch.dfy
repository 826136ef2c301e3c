/**
 sbi_bitops: finding the first, next and last set or clear bit of a bitmap, a word at a time.
 */
module BitSearch {
  import opened Bits

  const LONG: nat := 64
  const ONES: U64 := WORD - 1

  // ---------- words ----------

  /** `x << k` on a word. */
  function ShlWord(x: U64, k: nat): (r: U64) {
    LowWord(Shl(x, k));
    Low(Shl(x, k), LONG)
  }

  lemma LowWord(x: nat)
    ensures Low(x, LONG) < WORD
  {
    Pow2Values();
    LowBound(x, LONG);
  }

  lemma BitOfShlWord(x: U64, k: nat, i: nat)
    ensures Bit(ShlWord(x, k), i) == (k <= i < LONG && Bit(x, i - k))
  {
    BitOfLow(Shl(x, k), LONG, i);
    BitOfShl(x, k, i);
  }

  /** `x >> k`, `~x` and `x & y` stay words. */
  function ShrWord(x: U64, k: nat): (r: U64) {
    ShrFits(x, k);
    Shr(x, k)
  }

  lemma {:induction false} ShrFits(x: nat, k: nat)
    ensures Shr(x, k) <= x
  {
    if k > 0 { ShrFits(x / 2, k - 1); }
  }

  lemma {:induction false} AndFits(x: nat, y: nat)
    ensures And(x, y) <= x
  {
    if x != 0 && y != 0 { AndFits(x / 2, y / 2); }
  }

  function AndWord(x: U64, y: U64): (r: U64) {
    AndFits(x, y);
    And(x, y)
  }

  function OrWord(x: U64, y: U64): (r: U64) {
    OrFits(x, y);
    Or(x, y)
  }

  lemma OrFits(x: U64, y: U64)
    ensures Or(x, y) < WORD
  {
    Pow2Values();
    forall i: nat | LONG <= i ensures !Bit(Or(x, y), i) {
      BitOfOr(x, y, i);
      BitAboveWidth(x, LONG, i);
      BitAboveWidth(y, LONG, i);
    }
    BitsBound(Or(x, y), LONG);
  }

  function NotWord(x: U64): (r: U64) { ONES - x }

  lemma BitOfNotWord(x: U64, i: nat)
    ensures Bit(NotWord(x), i) == (i < LONG && !Bit(x, i))
  {
    Pow2Values();
    BitOfNot(x, LONG, i);
  }

  lemma BitOfOnes(i: nat)
    ensures Bit(ONES, i) == (i < LONG)
  {
    BitOfNotWord(0, i);
    BitOfZero(i);
  }

  /** `~0UL << k` and `~0UL >> (64 - k)` */
  lemma Masks(k: nat, i: nat)
    requires k <= LONG
    ensures Bit(ShlWord(ONES, k), i) == (k <= i < LONG)
    ensures Bit(ShrWord(ONES, LONG - k), i) == (i < k)
  {
    BitOfShlWord(ONES, k, i);
    BitOfShr(ONES, LONG - k, i);
    if k <= i { BitOfOnes(i - k); }
    BitOfOnes(LONG - k + i);
  }

  lemma NonZero(x: nat, i: nat)
    requires Bit(x, i)
    ensures x != 0
  {
    if x == 0 { BitOfZero(i); }
  }

  lemma IsZero(x: nat)
    requires forall i: nat :: !Bit(x, i)
    ensures x == 0
  {
    forall i: nat ensures Bit(x, i) == Bit(0, i) { BitOfZero(i); }
    SameBits(x, 0);
  }

  /** `size & ~(BITS_PER_LONG - 1)` is not zero as long as a whole word is left. */
  lemma WordsLeft(size: U64)
    ensures AndWord(size, NotWord(LONG - 1)) != 0 <==> size >= LONG
  {
    assert Pow2(6) == LONG;
    var x := AndWord(size, NotWord(LONG - 1));
    forall i: nat ensures Bit(x, i) == (6 <= i < LONG && Bit(size, i)) {
      BitOfAnd(size, NotWord(LONG - 1), i);
      BitOfNotWord(LONG - 1, i);
      BitOfNot(0, 6, i);
      BitOfZero(i);
    }
    if size >= LONG {
      if forall i: nat :: 6 <= i ==> !Bit(size, i) { BitsBound(size, 6); }
      var i: nat :| 6 <= i && Bit(size, i);
      if LONG <= i { Pow2Values(); BitAboveWidth(size, LONG, i); }
      NonZero(x, i);
    } else {
      forall i: nat ensures !Bit(x, i) { if 6 <= i { BitAboveWidth(size, 6, i); } }
      IsZero(x);
    }
  }

  // ---------- the lowest and the highest bit of a word ----------

  ghost predicate Lowest(x: nat, n: nat) { Bit(x, n) && forall i: nat :: i < n ==> !Bit(x, i) }

  ghost predicate Highest(x: nat, n: nat) { Bit(x, n) && forall i: nat :: n < i ==> !Bit(x, i) }

  /** The lowest set bit of `x` is one of the low `width` bits of `word`, which is `x` shifted right by `num`. */
  ghost predicate Narrowed(x: U64, word: U64, num: nat, width: nat) {
    && word == Shr(x, num)
    && (forall i: nat :: i < num ==> !Bit(x, i))
    && (exists i: nat :: i < width && Bit(word, i))
  }

  /** A mask of the low half finds nothing: the bit is in the high half. */
  lemma LowHalf(x: U64, word: U64, num: nat, half: nat)
    requires Narrowed(x, word, num, 2 * half)
    ensures And(word, Pow2(half) - 1) != 0 ==> Narrowed(x, word, num, half)
    ensures And(word, Pow2(half) - 1) == 0 ==> Narrowed(x, ShrWord(word, half), num + half, half)
  {
    var low := And(word, Pow2(half) - 1);
    forall i: nat ensures Bit(low, i) == (i < half && Bit(word, i)) {
      AndLowMask(word, half);
      BitOfLow(word, half, i);
    }
    if low != 0 {
      if forall i: nat :: !Bit(low, i) { IsZero(low); }
      var i: nat :| Bit(low, i);
      assert i < half && Bit(word, i);
    } else {
      LowHalfEmpty(x, word, num, half);
    }
  }

  lemma LowHalfEmpty(x: U64, word: U64, num: nat, half: nat)
    requires Narrowed(x, word, num, 2 * half) && And(word, Pow2(half) - 1) == 0
    ensures Narrowed(x, ShrWord(word, half), num + half, half)
  {
    forall i: nat | i < half ensures !Bit(word, i) {
      AndLowMask(word, half);
      BitOfLow(word, half, i);
      BitOfZero(i);
    }
    var i: nat :| i < 2 * half && Bit(word, i);
    BitOfShr(word, half, i - half);
    ShrTwice(x, num, half);
    forall j: nat | j < num + half ensures !Bit(x, j) {
      if num <= j { BitOfShr(x, num, j - num); }
    }
  }

  lemma {:induction false} ShrTwice(x: nat, a: nat, b: nat)
    ensures Shr(Shr(x, a), b) == Shr(x, a + b)
  {
    if a > 0 { ShrTwice(x / 2, a - 1, b); }
  }

  /** One of the tests of `__ffs`; `mask` is the low half. */
  method SkipLow(ghost x: U64, word: U64, num: nat, half: nat, mask: nat) returns (word': U64, num': nat)
    requires Narrowed(x, word, num, 2 * half) && mask == Pow2(half) - 1
    ensures Narrowed(x, word', num', half)
  {
    LowHalf(x, word, num, half);
    if And(word, mask) == 0 {
      return ShrWord(word, half), num + half;
    }
    return word, num;
  }

  /** `__ffs` */
  method Ffs(x: U64) returns (num: nat)
    requires x != 0
    ensures num < LONG && Lowest(x, num)
  {
    FfsStart(x);
    Pow2Values();
    SmallPowers();
    var word;
    word, num := SkipLow(x, x, 0, 32, 0xffff_ffff);
    word, num := SkipLow(x, word, num, 16, 0xffff);
    word, num := SkipLow(x, word, num, 8, 0xff);
    word, num := SkipLow(x, word, num, 4, 0xf);
    word, num := SkipLow(x, word, num, 2, 0x3);
    word, num := SkipLow(x, word, num, 1, 0x1);
    FfsEnd(x, word, num);
  }

  lemma SmallPowers()
    ensures Pow2(4) == 16 && Pow2(2) == 4 && Pow2(1) == 2
  {
  }

  lemma FfsEnd(x: U64, word: U64, num: nat)
    requires Narrowed(x, word, num, 1)
    ensures num < LONG && Lowest(x, num)
  {
    BitOfShr(x, num, 0);
    Pow2Values();
    if LONG <= num { BitAboveWidth(x, LONG, num); }
  }

  lemma FfsStart(x: U64)
    requires x != 0
    ensures Narrowed(x, x, 0, LONG)
  {
    if forall i: nat :: !Bit(x, i) { IsZero(x); }
    var i: nat :| Bit(x, i);
    Pow2Values();
    if LONG <= i { BitAboveWidth(x, LONG, i); }
  }

  /** The highest set bit of `x` is one of the top `width` bits of `word`, which is `x` shifted left by `63 - num`. */
  ghost predicate Raised(x: U64, word: U64, num: int, width: nat) {
    && num < LONG
    && (forall i: nat :: i < LONG ==> Bit(word, i) == (LONG - 1 - num <= i && Bit(x, i - (LONG - 1 - num))))
    && (forall i: nat :: num < i ==> !Bit(x, i))
    && (exists i: nat :: LONG - width <= i < LONG && Bit(word, i))
  }

  lemma HighHalf(x: U64, word: U64, num: int, half: nat)
    requires Raised(x, word, num, 2 * half) && 2 * half <= LONG
    ensures And(word, ShlWord(ONES, LONG - half)) != 0 ==> Raised(x, word, num, half)
    ensures And(word, ShlWord(ONES, LONG - half)) == 0 ==> Raised(x, ShlWord(word, half), num - half, half)
  {
    var high := And(word, ShlWord(ONES, LONG - half));
    forall i: nat ensures Bit(high, i) == (LONG - half <= i < LONG && Bit(word, i)) {
      BitOfAnd(word, ShlWord(ONES, LONG - half), i);
      Masks(LONG - half, i);
    }
    if high != 0 {
      if forall i: nat :: !Bit(high, i) { IsZero(high); }
      var i: nat :| Bit(high, i);
      assert LONG - half <= i < LONG && Bit(word, i);
    } else {
      forall i: nat | LONG - half <= i < LONG ensures !Bit(word, i) { BitOfZero(i); }
      HighHalfEmpty(x, word, num, half);
    }
  }

  lemma HighHalfEmpty(x: U64, word: U64, num: int, half: nat)
    requires Raised(x, word, num, 2 * half) && 2 * half <= LONG
    requires forall i: nat :: LONG - half <= i < LONG ==> !Bit(word, i)
    ensures Raised(x, ShlWord(word, half), num - half, half)
  {
    var next := ShlWord(word, half);
    forall i: nat ensures Bit(next, i) == (half <= i < LONG && Bit(word, i - half)) { BitOfShlWord(word, half, i); }
    var i: nat :| LONG - 2 * half <= i < LONG && Bit(word, i);
    assert Bit(next, i + half);
    forall j: nat | num - half < j ensures !Bit(x, j) {
      if j <= num { assert Bit(word, j + (LONG - 1 - num)) == Bit(x, j); }
    }
  }

  /** One of the tests of `__fls`. */
  method SkipHigh(ghost x: U64, word: U64, num: int, half: nat) returns (word': U64, num': int)
    requires Raised(x, word, num, 2 * half) && 2 * half <= LONG
    ensures Raised(x, word', num', half)
  {
    HighHalf(x, word, num, half);
    if And(word, ShlWord(ONES, LONG - half)) == 0 {
      return ShlWord(word, half), num - half;
    }
    return word, num;
  }

  /** `__fls` */
  method Fls(x: U64) returns (num: int)
    requires x != 0
    ensures 0 <= num < LONG && Highest(x, num)
  {
    FlsStart(x);
    var word;
    word, num := SkipHigh(x, x, LONG - 1, 32);
    word, num := SkipHigh(x, word, num, 16);
    word, num := SkipHigh(x, word, num, 8);
    word, num := SkipHigh(x, word, num, 4);
    word, num := SkipHigh(x, word, num, 2);
    word, num := SkipHigh(x, word, num, 1);
    FlsEnd(x, word, num);
  }

  lemma FlsEnd(x: U64, word: U64, num: int)
    requires Raised(x, word, num, 1)
    ensures 0 <= num < LONG && Highest(x, num)
  {
    assert Bit(word, LONG - 1);
  }

  lemma FlsStart(x: U64)
    requires x != 0
    ensures Raised(x, x, LONG - 1, LONG)
  {
    FfsStart(x);
    Pow2Values();
    forall i: nat | LONG <= i ensures !Bit(x, i) { BitAboveWidth(x, LONG, i); }
  }

  // ---------- bitmaps ----------

  predicate Holds(bm: seq<U64>, size: nat) { size <= LONG * |bm| }

  /** Bit `k` of the bitmap is `v`. */
  predicate Hit(bm: seq<U64>, k: nat, v: bool)
    requires k < LONG * |bm|
  {
    Bit(bm[k / LONG], k % LONG) == v
  }

  /** `r` is the first bit from `from` on that is `v`, or `size` if there is none below it. */
  ghost predicate FirstFrom(bm: seq<U64>, size: nat, from: nat, v: bool, r: nat)
    requires Holds(bm, size)
  {
    && r <= size && (r < size ==> from <= r && Hit(bm, r, v))
    && (forall k: nat :: from <= k < r ==> !Hit(bm, k, v))
  }

  /** No bit from `from` up to `to` is `v`. */
  ghost predicate NoneIn(bm: seq<U64>, from: nat, to: nat, v: bool)
    requires Holds(bm, to)
  {
    forall k: nat :: from <= k < to ==> !Hit(bm, k, v)
  }

  /** The set bits of `x` are the bits `lo .. hi` of word `w` that are `v`. */
  ghost predicate Shows(bm: seq<U64>, w: nat, lo: nat, hi: nat, v: bool, x: U64)
    requires w < |bm| && hi <= LONG
  {
    forall i: nat :: Bit(x, i) <==> lo <= i < hi && Bit(bm[w], i) == v
  }

  lemma InWord(bm: seq<U64>, w: nat, k: nat, v: bool)
    requires w < |bm| && LONG * w <= k < LONG * w + LONG
    ensures Hit(bm, k, v) == (Bit(bm[w], k - LONG * w) == v)
  {
    assert k / LONG == w && k % LONG == k - LONG * w;
  }

  lemma NoneShown(bm: seq<U64>, w: nat, lo: nat, hi: nat, v: bool)
    requires w < |bm| && hi <= LONG && Shows(bm, w, lo, hi, v, 0)
    ensures NoneIn(bm, LONG * w + lo, LONG * w + hi, v)
  {
    forall k: nat | LONG * w + lo <= k < LONG * w + hi ensures !Hit(bm, k, v) {
      InWord(bm, w, k, v);
      BitOfZero(k - LONG * w);
    }
  }

  lemma OneShown(bm: seq<U64>, w: nat, lo: nat, hi: nat, v: bool, x: U64, n: nat)
    requires w < |bm| && hi <= LONG && Shows(bm, w, lo, hi, v, x) && Lowest(x, n)
    ensures lo <= n < hi && Hit(bm, LONG * w + n, v) && NoneIn(bm, LONG * w + lo, LONG * w + n, v)
  {
    InWord(bm, w, LONG * w + n, v);
    forall k: nat | LONG * w + lo <= k < LONG * w + n ensures !Hit(bm, k, v) {
      InWord(bm, w, k, v);
      assert !Bit(x, k - LONG * w);
    }
  }

  /** The whole word, as it is or complemented. */
  lemma ShowsWord(bm: seq<U64>, w: nat)
    requires w < |bm|
    ensures Shows(bm, w, 0, LONG, true, bm[w]) && Shows(bm, w, 0, LONG, false, NotWord(bm[w]))
  {
    Pow2Values();
    forall i: nat ensures Bit(bm[w], i) ==> i < LONG { if LONG <= i { BitAboveWidth(bm[w], LONG, i); } }
    forall i: nat ensures Bit(NotWord(bm[w]), i) == (i < LONG && !Bit(bm[w], i)) { BitOfNotWord(bm[w], i); }
  }

  /** Cutting off the bits below `lo`, and the bits from `hi` on. */
  lemma ShowsFrom(bm: seq<U64>, w: nat, lo: nat, hi: nat, v: bool, x: U64, k: nat)
    requires w < |bm| && hi <= LONG && Shows(bm, w, lo, hi, v, x) && lo <= k <= LONG
    ensures Shows(bm, w, k, hi, v, AndWord(x, ShlWord(ONES, k)))
  {
    forall i: nat ensures Bit(AndWord(x, ShlWord(ONES, k)), i) == (Bit(x, i) && k <= i < LONG) {
      BitOfAnd(x, ShlWord(ONES, k), i);
      Masks(k, i);
    }
  }

  lemma ShowsBelow(bm: seq<U64>, w: nat, lo: nat, hi: nat, v: bool, x: U64, k: nat)
    requires w < |bm| && hi <= LONG && Shows(bm, w, lo, hi, v, x) && k <= hi
    ensures Shows(bm, w, lo, k, v, AndWord(x, ShrWord(ONES, LONG - k)))
  {
    forall i: nat ensures Bit(AndWord(x, ShrWord(ONES, LONG - k)), i) == (Bit(x, i) && i < k) {
      BitOfAnd(x, ShrWord(ONES, LONG - k), i);
      Masks(k, i);
    }
  }

  /** Or-ing ones into a word cuts the same bits off its complement. */
  lemma NotOr(x: U64, m: U64)
    ensures NotWord(OrWord(x, m)) == AndWord(NotWord(x), NotWord(m))
  {
    forall i: nat ensures Bit(NotWord(OrWord(x, m)), i) == Bit(AndWord(NotWord(x), NotWord(m)), i) {
      BitOfNotWord(OrWord(x, m), i);
      BitOfOr(x, m, i);
      BitOfAnd(NotWord(x), NotWord(m), i);
      BitOfNotWord(x, i);
      BitOfNotWord(m, i);
    }
    SameBits(NotWord(OrWord(x, m)), AndWord(NotWord(x), NotWord(m)));
  }

  /** The two masks are each other's complement. */
  lemma NotMask(k: nat)
    requires k <= LONG
    ensures NotWord(ShlWord(ONES, k)) == ShrWord(ONES, LONG - k) && NotWord(ShrWord(ONES, LONG - k)) == ShlWord(ONES, k)
  {
    var (a, b) := (ShlWord(ONES, k), ShrWord(ONES, LONG - k));
    forall i: nat ensures Bit(NotWord(a), i) == Bit(b, i) {
      BitOfNotWord(a, i);
      Masks(k, i);
    }
    SameBits(NotWord(a), b);
  }

  lemma NoneJoined(bm: seq<U64>, a: nat, b: nat, c: nat, v: bool)
    requires Holds(bm, c) && b <= c && NoneIn(bm, a, b, v) && NoneIn(bm, b, c, v)
    ensures NoneIn(bm, a, c, v)
  {
  }

  /** The end of a search in word `w`: its bits `lo .. hi` that are `v` are the set bits of `x`. */
  method Settle(ghost bm: seq<U64>, ghost size: nat, ghost from: nat, ghost v: bool, ghost w: nat, ghost lo: nat,
                result: nat, hi: nat, x: U64) returns (r: nat)
    requires Holds(bm, size) && result == LONG * w && w < |bm| && hi <= LONG && result + hi <= size
    requires result + hi == size || x != 0
    requires Shows(bm, w, lo, hi, v, x) && lo <= hi && from <= result + lo && NoneIn(bm, from, result + lo, v)
    ensures FirstFrom(bm, size, from, v, r)
  {
    if x == 0 {
      NoneShown(bm, w, lo, hi, v);
      NoneJoined(bm, from, result + lo, result + hi, v);
      return result + hi;
    }
    var n := Ffs(x);
    OneShown(bm, w, lo, hi, v, x, n);
    NoneJoined(bm, from, result + lo, result + n, v);
    return result + n;
  }

  /** A whole word without a hit. */
  lemma WordPassed(bm: seq<U64>, from: nat, w: nat, lo: nat, v: bool)
    requires w < |bm| && lo <= LONG && NoneIn(bm, from, LONG * w + lo, v) && Shows(bm, w, lo, LONG, v, 0)
    ensures NoneIn(bm, from, LONG * w + LONG, v)
  {
    NoneShown(bm, w, lo, LONG, v);
    NoneJoined(bm, from, LONG * w + lo, LONG * w + LONG, v);
  }

  /** The word loop and the tail that `find_first_bit` and `find_next_bit` share, from word `p` on. */
  method WordsFrom(bm: seq<U64>, whole: U64, ghost from: nat, p0: nat, size0: U64) returns (r: nat)
    requires Holds(bm, whole) && LONG * p0 + size0 == whole && from <= LONG * p0 && NoneIn(bm, from, LONG * p0, true)
    ensures FirstFrom(bm, whole, from, true, r)
  {
    var p, result, size: U64 := p0, LONG * p0, size0;
    WordsLeft(size);
    while AndWord(size, NotWord(LONG - 1)) != 0
      invariant result == LONG * p && result + size == whole && p0 <= p
      invariant NoneIn(bm, from, result, true)
      invariant AndWord(size, NotWord(LONG - 1)) != 0 <==> size >= LONG
      decreases size
    {
      var tmp := bm[p];
      ShowsWord(bm, p);
      if tmp != 0 {
        r := Settle(bm, whole, from, true, p, 0, result, LONG, tmp);
        return;
      }
      WordPassed(bm, from, p, 0, true);
      p, result, size := p + 1, result + LONG, size - LONG;
      WordsLeft(size);
    }
    if size == 0 {
      return result;
    }
    ShowsWord(bm, p);
    ShowsBelow(bm, p, 0, LONG, true, bm[p], size);
    var tmp := AndWord(bm[p], ShrWord(ONES, LONG - size));
    r := Settle(bm, whole, from, true, p, 0, result, size, tmp);
  }

  /** `find_first_bit` */
  method FindFirstBit(bm: seq<U64>, size: U64) returns (r: nat)
    requires Holds(bm, size)
    ensures FirstFrom(bm, size, 0, true, r)
  {
    r := WordsFrom(bm, size, 0, 0, size);
  }

  /** `find_next_bit` */
  method FindNextBit(bm: seq<U64>, size: U64, offset: U64) returns (r: nat)
    requires Holds(bm, size)
    ensures if offset >= size then r == size else FirstFrom(bm, size, offset, true, r)
  {
    if offset >= size {
      return size;
    }
    var p, off := offset / LONG, offset % LONG;
    var result := offset - off;
    var left := size - result;
    if off == 0 {
      r := WordsFrom(bm, size, offset, p, left);
      return;
    }
    var tmp := AndWord(bm[p], ShlWord(ONES, off));
    ShowsWord(bm, p);
    ShowsFrom(bm, p, 0, LONG, true, bm[p], off);
    if left < LONG {
      ShowsBelow(bm, p, off, LONG, true, tmp, left);
      r := Settle(bm, size, offset, true, p, off, result, left, AndWord(tmp, ShrWord(ONES, LONG - left)));
      return;
    }
    if tmp != 0 {
      r := Settle(bm, size, offset, true, p, off, result, LONG, tmp);
      return;
    }
    WordPassed(bm, offset, p, off, true);
    r := WordsFrom(bm, size, offset, p + 1, left - LONG);
  }

  /** The word loop and the tail that the searches for a clear bit share. */
  method ZerosFrom(bm: seq<U64>, whole: U64, ghost from: nat, p0: nat, size0: U64) returns (r: nat)
    requires Holds(bm, whole) && LONG * p0 + size0 == whole && from <= LONG * p0 && NoneIn(bm, from, LONG * p0, false)
    ensures FirstFrom(bm, whole, from, false, r)
  {
    var p, result, size: U64 := p0, LONG * p0, size0;
    WordsLeft(size);
    while AndWord(size, NotWord(LONG - 1)) != 0
      invariant result == LONG * p && result + size == whole && p0 <= p
      invariant NoneIn(bm, from, result, false)
      invariant AndWord(size, NotWord(LONG - 1)) != 0 <==> size >= LONG
      decreases size
    {
      var tmp := bm[p];
      ShowsWord(bm, p);
      if NotWord(tmp) != 0 {
        r := Settle(bm, whole, from, false, p, 0, result, LONG, NotWord(tmp));
        return;
      }
      WordPassed(bm, from, p, 0, false);
      p, result, size := p + 1, result + LONG, size - LONG;
      WordsLeft(size);
    }
    if size == 0 {
      return result;
    }
    ShowsWord(bm, p);
    ShowsBelow(bm, p, 0, LONG, false, NotWord(bm[p]), size);
    NotOr(bm[p], ShlWord(ONES, size));
    NotMask(size);
    var tmp := OrWord(bm[p], ShlWord(ONES, size));
    r := Settle(bm, whole, from, false, p, 0, result, size, NotWord(tmp));
  }

  /** `find_first_zero_bit` */
  method FindFirstZeroBit(bm: seq<U64>, size: U64) returns (r: nat)
    requires Holds(bm, size)
    ensures FirstFrom(bm, size, 0, false, r)
  {
    r := ZerosFrom(bm, size, 0, 0, size);
  }

  /** `find_next_zero_bit` */
  method FindNextZeroBit(bm: seq<U64>, size: U64, offset: U64) returns (r: nat)
    requires Holds(bm, size)
    ensures if offset >= size then r == size else FirstFrom(bm, size, offset, false, r)
  {
    if offset >= size {
      return size;
    }
    var p, off := offset / LONG, offset % LONG;
    var result := offset - off;
    var left := size - result;
    if off == 0 {
      r := ZerosFrom(bm, size, offset, p, left);
      return;
    }
    var tmp := OrWord(bm[p], ShrWord(ONES, LONG - off));
    ShowsWord(bm, p);
    NotOr(bm[p], ShrWord(ONES, LONG - off));
    NotMask(off);
    ShowsFrom(bm, p, 0, LONG, false, NotWord(bm[p]), off);
    if left < LONG {
      ShowsBelow(bm, p, off, LONG, false, NotWord(tmp), left);
      NotOr(tmp, ShlWord(ONES, left));
      NotMask(left);
      r := Settle(bm, size, offset, false, p, off, result, left, NotWord(OrWord(tmp, ShlWord(ONES, left))));
      return;
    }
    if NotWord(tmp) != 0 {
      r := Settle(bm, size, offset, false, p, off, result, LONG, NotWord(tmp));
      return;
    }
    WordPassed(bm, offset, p, off, false);
    r := ZerosFrom(bm, size, offset, p + 1, left - LONG);
  }

  // ---------- the last bit ----------

  /** `r` is the last set bit below `size`, or `size` if there is none. */
  ghost predicate LastBelow(bm: seq<U64>, size: nat, r: nat)
    requires Holds(bm, size)
  {
    && r <= size && (r < size ==> Hit(bm, r, true) && NoneIn(bm, r + 1, size, true))
    && (r == size ==> NoneIn(bm, 0, size, true))
  }

  lemma HighestShown(bm: seq<U64>, w: nat, hi: nat, x: U64, n: nat)
    requires w < |bm| && hi <= LONG && Shows(bm, w, 0, hi, true, x) && Highest(x, n)
    ensures n < hi && Hit(bm, LONG * w + n, true) && NoneIn(bm, LONG * w + n + 1, LONG * w + hi, true)
  {
    InWord(bm, w, LONG * w + n, true);
    forall k: nat | LONG * w + n + 1 <= k < LONG * w + hi ensures !Hit(bm, k, true) {
      InWord(bm, w, k, true);
      assert !Bit(x, k - LONG * w);
    }
  }

  /** `find_last_bit` */
  method FindLastBit(bm: seq<U64>, size: U64) returns (r: nat)
    requires Holds(bm, size)
    ensures LastBelow(bm, size, r)
  {
    var words: nat := size / LONG;
    var part := size % LONG;
    if part != 0 {
      var tmp := AndWord(bm[words], ShrWord(ONES, LONG - part));
      ShowsWord(bm, words);
      ShowsBelow(bm, words, 0, LONG, true, bm[words], part);
      if tmp != 0 {
        var n := Fls(tmp);
        HighestShown(bm, words, part, tmp, n);
        return words * LONG + n;
      }
      NoneShown(bm, words, 0, part, true);
    }
    while words > 0
      invariant LONG * words <= size && NoneIn(bm, LONG * words, size, true)
    {
      words := words - 1;
      ShowsWord(bm, words);
      if bm[words] != 0 {
        var n := Fls(bm[words]);
        HighestShown(bm, words, LONG, bm[words], n);
        NoneJoined(bm, LONG * words + n + 1, LONG * words + LONG, size, true);
        return words * LONG + n;
      }
      NoneShown(bm, words, 0, LONG, true);
      NoneJoined(bm, LONG * words, LONG * words + LONG, size, true);
    }
    return size;
  }

  // ---------- for_each_set_bit ----------

  ghost predicate Increasing(s: seq<nat>) { forall i, j :: 0 <= i < j < |s| ==> s[i] < s[j] }

  /** `for_each_set_bit`, with a body that notes the bit: every set bit below `size`, once, in order. */
  method ForEachSetBit(bm: seq<U64>, size: U64) returns (visited: seq<nat>)
    requires Holds(bm, size)
    ensures Increasing(visited)
    ensures forall k: nat :: k in visited <==> k < size && Hit(bm, k, true)
  {
    visited := [];
    var bit := FindFirstBit(bm, size);
    while bit < size
      invariant bit <= size && (bit < size ==> Hit(bm, bit, true))
      invariant Increasing(visited) && forall i :: 0 <= i < |visited| ==> visited[i] < bit
      invariant forall k: nat :: k in visited <==> k < bit && Hit(bm, k, true)
      decreases size - bit
    {
      visited := visited + [bit];
      var at := bit;
      bit := FindNextBit(bm, size, bit + 1);
      assert forall k: nat :: k < bit && Hit(bm, k, true) ==> k <= at;
    }
  }
}
