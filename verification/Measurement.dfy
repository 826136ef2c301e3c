/**
 attest.c: what the measurement of an enclave absorbs. The hash itself is foreign code; here it is
 the sequence of bytes fed to it.
 */
module Measurement {
  import opened Bits
  import opened PmpHardware
  import opened PmpRegions
  import opened Boot
  import opened Enclaves
  import opened Lifecycle
  import opened LifecycleSteps

  /** Physical memory. */
  type Memory = nat -> Byte

  // ---------- the sizes ----------

  /** `n` bytes of `x`, lowest first. */
  function LittleEndian(x: nat, n: nat): (r: seq<Byte>)
    ensures |r| == n
  {
    if n == 0 then [] else [x % 0x100] + LittleEndian(x / 0x100, n - 1)
  }

  lemma {:induction false} LittleEndianInjective(x: nat, y: nat, n: nat)
    requires LittleEndian(x, n) == LittleEndian(y, n) && x < Pow2(8 * n) && y < Pow2(8 * n)
    ensures x == y
  {
    if n > 0 {
      var (a, b) := (LittleEndian(x, n), LittleEndian(y, n));
      assert a[0] == b[0] && a[1..] == LittleEndian(x / 0x100, n - 1) && b[1..] == LittleEndian(y / 0x100, n - 1);
      Pow2Step8(8 * (n - 1));
      LittleEndianInjective(x / 0x100, y / 0x100, n - 1);
    }
  }

  /** A 64-bit size as it lies in memory. */
  function WordBytes(x: U64): (r: seq<Byte>)
    ensures |r| == 8
  {
    LittleEndian(x, 8)
  }

  lemma WordBytesInjective(x: U64, y: U64)
    requires WordBytes(x) == WordBytes(y)
    ensures x == y
  {
    Pow2Values();
    BytesInjective(x, y, 8);
  }

  lemma BytesInjective(x: U64, y: U64, n: nat)
    requires n == 8 && LittleEndian(x, n) == LittleEndian(y, n) && Pow2(64) == WORD
    ensures x == y
  {
    LittleEndianInjective(x, y, n);
  }

  // ---------- the pages ----------

  /** `n` bytes of memory from `start` on. */
  function Bytes(mem: Memory, start: nat, n: nat): (r: seq<Byte>)
    ensures |r| == n && forall i :: 0 <= i < n ==> r[i] == mem(start + i)
  {
    seq(n, i requires 0 <= i => mem(start + i))
  }

  /** Pages are absorbed until the section's end is reached, so a section is rounded up. */
  function RoundUp(n: nat): (r: nat)
    ensures n <= r < n + PGSIZE && r % PGSIZE == 0
  {
    (n + PGSIZE - 1) / PGSIZE * PGSIZE
  }

  lemma RoundUpUnique(n: nat, r: nat)
    requires n <= r < n + PGSIZE && r % PGSIZE == 0
    ensures r == RoundUp(n)
  {
  }

  function Section(mem: Memory, start: nat, end: nat): (r: seq<Byte>)
    requires start <= end
    ensures |r| == RoundUp(end - start)
  {
    Bytes(mem, start, RoundUp(end - start))
  }

  /** What the measurement of an enclave with parameters `p` absorbs. */
  function Transcript(mem: Memory, p: Params): seq<Byte>
    requires Ordered(p)
  {
    Sizes(p) + (Section(mem, p.dramBase, p.runtimeBase) +
        (Section(mem, p.runtimeBase, p.userBase) + Section(mem, p.userBase, p.freeBase)))
  }

  function Sizes(p: Params): (r: seq<Byte>)
    requires Ordered(p)
    ensures |r| == 24
  {
    WordBytes(p.runtimeBase - p.dramBase) + (WordBytes(p.userBase - p.runtimeBase) + WordBytes(p.freeBase - p.userBase))
  }

  predicate Ordered(p: Params) { p.dramBase <= p.runtimeBase <= p.userBase <= p.freeBase }

  /** Stepping past the last page of the enclave does not leave the address space. */
  predicate NoWrap(p: Params) { Ordered(p) && p.freeBase + PGSIZE <= WORD }

  /** One of the three page loops; the addition wraps at 64 bits. */
  method ExtendPages(mem: Memory, ctx: seq<Byte>, start: U64, end: U64) returns (r: seq<Byte>)
    requires start <= end && end + PGSIZE <= WORD
    ensures r == ctx + Section(mem, start, end)
  {
    r := ctx;
    var page := start;
    assert ctx == ctx + Bytes(mem, start, 0);
    while page < end
      invariant start <= page < end + PGSIZE && (page - start) % PGSIZE == 0
      invariant r == ctx + Bytes(mem, start, page - start)
      decreases end + PGSIZE - page
    {
      r := r + Bytes(mem, page, PGSIZE);
      assert Bytes(mem, start, page - start) + Bytes(mem, page, PGSIZE) == Bytes(mem, start, page - start + PGSIZE);
      page := (page + PGSIZE) % WORD;
    }
    RoundUpUnique(end - start, page - start);
  }

  /** `validate_and_hash_epm` */
  method HashEpm(mem: Memory, p: Params) returns (ctx: seq<Byte>)
    requires NoWrap(p)
    ensures ctx == Transcript(mem, p)
  {
    var (loader, runtime, eapp, free) := (p.dramBase, p.runtimeBase, p.userBase, p.freeBase);
    ctx := Sizes(p);
    ctx := ExtendPages(mem, ctx, loader, runtime);
    ctx := ExtendPages(mem, ctx, runtime, eapp);
    ctx := ExtendPages(mem, ctx, eapp, free);
  }

  /** The whole address space overlaps the device region. */
  lemma EverythingOverlaps(t: Table, addr: U64)
    requires BootKept(t)
    ensures DetectsOverlap(t, addr, WORD - 1)
  {
    assert t.regions[4] == DEVICE;
    if addr == 0 { assert HitsRegion(t, 4, addr, addr + (WORD - 1)); }
  }

  /** What the allocator has checked of a private region. */
  lemma ReservedPages(t: Table, a: CreateArgs)
    requires BootKept(t) && Reserve(t, a).Reserved?
    ensures a.epmAddr % PGSIZE == 0 && a.epmSize % PGSIZE == 0 && a.epmAddr + a.epmSize < WORD
  {
    EverythingOverlaps(t, a.epmAddr);
    PageMask(a.epmSize);
    PageMask(a.epmAddr);
    InitChecks(t, a.epmAddr, a.epmSize);
  }

  lemma InitChecks(t: Table, start: U64, size: U64)
    requires |t.regions| == N_REGION && RegionInit(t, start, size, PriAny, false).1.Ok?
    ensures !DetectsOverlap(t, start, size) && And(start, PGSIZE - 1) == 0
    ensures size == WORD - 1 || And(size, PGSIZE - 1) == 0
  {
  }

  /**
   Every create that gets as far as the measurement, in every reachable state, is one whose three
   page loops end without wrapping around.
   */
  lemma AcceptedCreateNoWrap(s: System, a: CreateArgs)
    requires TablesInv(s) && ArgsValid(a) && Reserve(s.table, a).Reserved?
    ensures NoWrap(ParamsOf(a))
  {
    TablesNoneLive(s);
    ReservedPages(s.table, a);
    PagesNoWrap(a);
  }

  lemma PagesNoWrap(a: CreateArgs)
    requires ArgsValid(a) && a.epmAddr % PGSIZE == 0 && a.epmSize % PGSIZE == 0 && a.epmAddr + a.epmSize < WORD
    ensures NoWrap(ParamsOf(a))
  {
    PageEnd(a.epmAddr, a.epmSize);
    assert (a.epmAddr + a.epmSize) % WORD == a.epmAddr + a.epmSize;
  }

  lemma PageEnd(addr: U64, size: U64)
    requires addr % PGSIZE == 0 && size % PGSIZE == 0 && addr + size < WORD
    ensures addr + size + PGSIZE <= WORD
  {
    assert WORD % PGSIZE == 0;
  }

  // ---------- which byte stands where ----------

  /** Byte `k` of a word. */
  function ByteOf(x: nat, k: nat): nat { Shr(x, 8 * k) % 0x100 }

  lemma ShrNibble(x: nat, m: nat)
    ensures Shr(x, 4 + m) == Shr(x / 0x10, m)
  {
    assert Shr(x, 4 + m) == Shr(x / 2 / 2, 2 + m);
    assert Shr(x / 2 / 2, 2 + m) == Shr(x / 2 / 2 / 2 / 2, m);
  }

  lemma ShrByte(x: nat, m: nat)
    ensures Shr(x, 8 + m) == Shr(x / 0x100, m)
  {
    ShrNibble(x, 4 + m);
    ShrNibble(x / 0x10, m);
  }

  lemma {:induction false} LittleEndianAt(x: nat, n: nat, k: nat)
    requires k < n
    ensures LittleEndian(x, n)[k] == ByteOf(x, k)
  {
    if k > 0 {
      LittleEndianAt(x / 0x100, n - 1, k - 1);
      ShrByte(x, 8 * (k - 1));
    }
  }

  /** The three sizes, little-endian, in the order loader, runtime, application. */
  lemma SizesAt(p: Params, k: nat)
    requires Ordered(p) && k < 8
    ensures Sizes(p)[k] == ByteOf(p.runtimeBase - p.dramBase, k)
    ensures Sizes(p)[8 + k] == ByteOf(p.userBase - p.runtimeBase, k)
    ensures Sizes(p)[16 + k] == ByteOf(p.freeBase - p.userBase, k)
  {
    var (a, b, c) := (p.runtimeBase - p.dramBase, p.userBase - p.runtimeBase, p.freeBase - p.userBase);
    WordsAt(WordBytes(a), WordBytes(b), WordBytes(c), k);
    LittleEndianAt(a, 8, k);
    LittleEndianAt(b, 8, k);
    LittleEndianAt(c, 8, k);
  }

  lemma WordsAt(a: seq<Byte>, b: seq<Byte>, c: seq<Byte>, k: nat)
    requires |a| == 8 && |b| == 8 && |c| == 8 && k < 8
    ensures var t := a + (b + c);
            t[k] == a[k] && t[8 + k] == b[k] && t[16 + k] == c[k]
  {
  }

  /** Bytes `from .. from + n` of the transcript `t` are those at `start` in memory. */
  ghost predicate Copied(t: seq<Byte>, from: nat, mem: Memory, start: nat, n: nat) {
    from + n <= |t| && forall i: nat :: from <= i < from + n ==> t[i] == mem(start + (i - from))
  }

  lemma BytesCopied(mem: Memory, start: nat, s: seq<Byte>, before: seq<Byte>, behind: seq<Byte>)
    requires s == Bytes(mem, start, |s|)
    ensures Copied(before + (s + behind), |before|, mem, start, |s|)
  {
    var t := before + (s + behind);
    forall i: nat | |before| <= i < |before| + |s| ensures t[i] == mem(start + (i - |before|)) {
      assert t[i] == s[i - |before|];
    }
  }

  lemma ThreeCopied(mem: Memory, sizes: seq<Byte>, a: seq<Byte>, b: seq<Byte>, c: seq<Byte>, p: nat, q: nat, r: nat)
    requires a == Bytes(mem, p, |a|) && b == Bytes(mem, q, |b|) && c == Bytes(mem, r, |c|)
    ensures var t := sizes + (a + (b + c));
            && Copied(t, |sizes|, mem, p, |a|) && Copied(t, |sizes| + |a|, mem, q, |b|)
            && Copied(t, |sizes| + |a| + |b|, mem, r, |c|)
  {
    Regrouped(sizes, a, b, c);
    BytesCopied(mem, p, a, sizes, b + c);
    BytesCopied(mem, q, b, sizes + a, c);
    BytesCopied(mem, r, c, sizes + a + b, []);
  }

  lemma Regrouped(s: seq<Byte>, a: seq<Byte>, b: seq<Byte>, c: seq<Byte>)
    ensures s + (a + (b + c)) == (s + a) + (b + c) == (s + a + b) + (c + [])
  {
  }

  /** Bytes `from .. from + 8` of the transcript `t` are the word `x`, lowest byte first. */
  ghost predicate WordAt(t: seq<Byte>, from: nat, x: nat) {
    from + 8 <= |t| && forall i: nat :: from <= i < from + 8 ==> t[i] == ByteOf(x, i - from)
  }

  lemma SizesCopied(p: Params, behind: seq<Byte>)
    requires Ordered(p)
    ensures var t := Sizes(p) + behind;
            && WordAt(t, 0, p.runtimeBase - p.dramBase) && WordAt(t, 8, p.userBase - p.runtimeBase)
            && WordAt(t, 16, p.freeBase - p.userBase)
  {
    forall i: nat | i < 24
      ensures Sizes(p)[i] == if i < 8 then ByteOf(p.runtimeBase - p.dramBase, i)
                             else if i < 16 then ByteOf(p.userBase - p.runtimeBase, i - 8)
                             else ByteOf(p.freeBase - p.userBase, i - 16)
    {
      SizesAt(p, i % 8);
    }
  }

  /** The measurement begins with the three sizes. */
  lemma TranscriptSizes(mem: Memory, p: Params)
    requires Ordered(p)
    ensures var t := Transcript(mem, p);
            && WordAt(t, 0, p.runtimeBase - p.dramBase) && WordAt(t, 8, p.userBase - p.runtimeBase)
            && WordAt(t, 16, p.freeBase - p.userBase)
  {
    SizesCopied(p, Transcript(mem, p)[24..]);
    assert Transcript(mem, p) == Sizes(p) + Transcript(mem, p)[24..];
  }

  /**
   Behind the sizes the measurement absorbs the pages that hold loader, runtime and application, one section behind
   the other, each rounded up to whole pages, and nothing else.
   */
  lemma TranscriptSections(mem: Memory, p: Params, loader: nat, runtime: nat, eapp: nat)
    requires Ordered(p) && loader == RoundUp(p.runtimeBase - p.dramBase)
    requires runtime == RoundUp(p.userBase - p.runtimeBase) && eapp == RoundUp(p.freeBase - p.userBase)
    ensures var t := Transcript(mem, p);
            && |t| == 24 + loader + runtime + eapp
            && Copied(t, 24, mem, p.dramBase, loader)
            && Copied(t, 24 + loader, mem, p.runtimeBase, runtime)
            && Copied(t, 24 + loader + runtime, mem, p.userBase, eapp)
  {
    SectionIs(mem, p.dramBase, p.runtimeBase, loader);
    SectionIs(mem, p.runtimeBase, p.userBase, runtime);
    SectionIs(mem, p.userBase, p.freeBase, eapp);
    SectionsLaid(mem, Transcript(mem, p), Sizes(p), p.dramBase, loader, p.runtimeBase, runtime, p.userBase, eapp);
  }

  lemma SectionIs(mem: Memory, start: nat, end: nat, n: nat)
    requires start <= end && n == RoundUp(end - start)
    ensures Section(mem, start, end) == Bytes(mem, start, n)
  {
  }

  lemma SectionsLaid(mem: Memory, t: seq<Byte>, sizes: seq<Byte>, p: nat, l: nat, q: nat, m: nat, r: nat, n: nat)
    requires |sizes| == 24 && t == sizes + (Bytes(mem, p, l) + (Bytes(mem, q, m) + Bytes(mem, r, n)))
    ensures |t| == 24 + l + m + n
    ensures Copied(t, 24, mem, p, l) && Copied(t, 24 + l, mem, q, m) && Copied(t, 24 + l + m, mem, r, n)
  {
    ThreeCopied(mem, sizes, Bytes(mem, p, l), Bytes(mem, q, m), Bytes(mem, r, n), p, q, r);
  }

  // ---------- injectivity ----------

  lemma SameHead<T>(a: seq<T>, b: seq<T>, x: seq<T>, y: seq<T>)
    requires a + x == b + y && |a| == |b|
    ensures a == b && x == y
  {
    assert a == (a + x)[..|a|] && b == (b + y)[..|b|];
    assert x == (a + x)[|a|..] && y == (b + y)[|b|..];
  }

  /** Two sections hold the same bytes. */
  ghost predicate SameBytes(mem: Memory, start: nat, mem': Memory, start': nat, n: nat) {
    forall i: nat :: i < n ==> SameByte(mem, start, mem', start', i)
  }

  predicate SameByte(mem: Memory, start: nat, mem': Memory, start': nat, i: nat) { mem(start + i) == mem'(start' + i) }

  lemma SectionInjective(mem: Memory, start: nat, end: nat, mem': Memory, start': nat, end': nat)
    requires start <= end && start' <= end' && end - start == end' - start'
    requires Section(mem, start, end) == Section(mem', start', end')
    ensures SameBytes(mem, start, mem', start', end - start)
  {
    var (a, b) := (Section(mem, start, end), Section(mem', start', end'));
    forall i: nat | i < end - start ensures SameByte(mem, start, mem', start', i) {
      assert a[i] == mem(start + i) && b[i] == mem'(start' + i);
    }
  }

  lemma SizesInjective(p: Params, q: Params)
    requires Ordered(p) && Ordered(q) && Sizes(p) == Sizes(q)
    ensures p.runtimeBase - p.dramBase == q.runtimeBase - q.dramBase
    ensures p.userBase - p.runtimeBase == q.userBase - q.runtimeBase
    ensures p.freeBase - p.userBase == q.freeBase - q.userBase
  {
    var (p1, p2, p3) := (p.runtimeBase - p.dramBase, p.userBase - p.runtimeBase, p.freeBase - p.userBase);
    var (q1, q2, q3) := (q.runtimeBase - q.dramBase, q.userBase - q.runtimeBase, q.freeBase - q.userBase);
    WordsInjective(p1, p2, p3, q1, q2, q3);
  }

  lemma WordsInjective(p1: U64, p2: U64, p3: U64, q1: U64, q2: U64, q3: U64)
    requires WordBytes(p1) + (WordBytes(p2) + WordBytes(p3)) == WordBytes(q1) + (WordBytes(q2) + WordBytes(q3))
    ensures p1 == q1 && p2 == q2 && p3 == q3
  {
    FirstWord(p1, q1, WordBytes(p2) + WordBytes(p3), WordBytes(q2) + WordBytes(q3));
    FirstWord(p2, q2, WordBytes(p3), WordBytes(q3));
    WordBytesInjective(p3, q3);
  }

  lemma FirstWord(p: U64, q: U64, a: seq<Byte>, b: seq<Byte>)
    requires WordBytes(p) + a == WordBytes(q) + b
    ensures p == q && a == b
  {
    SameHead(WordBytes(p), WordBytes(q), a, b);
    WordBytesInjective(p, q);
  }

  /** Equal transcripts come from enclaves with equal section sizes and equal loader, runtime and application. */
  lemma TranscriptInjective(mem: Memory, p: Params, mem': Memory, q: Params)
    requires Ordered(p) && Ordered(q) && Transcript(mem, p) == Transcript(mem', q)
    ensures p.runtimeBase - p.dramBase == q.runtimeBase - q.dramBase
    ensures p.userBase - p.runtimeBase == q.userBase - q.runtimeBase
    ensures p.freeBase - p.userBase == q.freeBase - q.userBase
    ensures SameBytes(mem, p.dramBase, mem', q.dramBase, p.freeBase - p.dramBase)
  {
    var (a1, a2, a3) := (Section(mem, p.dramBase, p.runtimeBase), Section(mem, p.runtimeBase, p.userBase),
        Section(mem, p.userBase, p.freeBase));
    var (b1, b2, b3) := (Section(mem', q.dramBase, q.runtimeBase), Section(mem', q.runtimeBase, q.userBase),
        Section(mem', q.userBase, q.freeBase));
    SameHead(Sizes(p), Sizes(q), a1 + (a2 + a3), b1 + (b2 + b3));
    SizesInjective(p, q);
    SameHead(a1, b1, a2 + a3, b2 + b3);
    SameHead(a2, b2, a3, b3);
    SectionInjective(mem, p.dramBase, p.runtimeBase, mem', q.dramBase, q.runtimeBase);
    SectionInjective(mem, p.runtimeBase, p.userBase, mem', q.runtimeBase, q.userBase);
    SectionInjective(mem, p.userBase, p.freeBase, mem', q.userBase, q.freeBase);
    Together(mem, mem', p, q);
  }

  lemma Together(mem: Memory, mem': Memory, p: Params, q: Params)
    requires Ordered(p) && Ordered(q)
    requires p.runtimeBase - p.dramBase == q.runtimeBase - q.dramBase
    requires p.userBase - p.runtimeBase == q.userBase - q.runtimeBase
    requires SameBytes(mem, p.dramBase, mem', q.dramBase, p.runtimeBase - p.dramBase)
    requires SameBytes(mem, p.runtimeBase, mem', q.runtimeBase, p.userBase - p.runtimeBase)
    requires SameBytes(mem, p.userBase, mem', q.userBase, p.freeBase - p.userBase)
    ensures SameBytes(mem, p.dramBase, mem', q.dramBase, p.freeBase - p.dramBase)
  {
    var (d1, d2) := (p.runtimeBase - p.dramBase, p.userBase - p.dramBase);
    forall i: nat | i < p.freeBase - p.dramBase ensures SameByte(mem, p.dramBase, mem', q.dramBase, i) {
      if d1 <= i < d2 {
        assert SameByte(mem, p.runtimeBase, mem', q.runtimeBase, i - d1);
      } else if d2 <= i {
        assert SameByte(mem, p.userBase, mem', q.userBase, i - d2);
      }
    }
  }
}
