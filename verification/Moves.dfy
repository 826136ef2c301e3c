/**
 Moving bytes between overlapping ranges: the byte loops of sbi_memmove and the chunks of
 memmove_wd, against a copy that reads everything before it writes anything.
 */
module Moves {
  type Byte = b: nat | b < 0x100

  /** Byte `i` of `was` after bytes `lo .. hi` of the range at `from` have gone to the range at `to`. */
  function At(was: seq<Byte>, to: nat, from: nat, lo: nat, hi: nat, i: nat): Byte
    requires i < |was| && from + hi <= |was|
  {
    if to + lo <= i < to + hi then was[from + (i - to)] else was[i]
  }

  /** `now` is `was` after bytes `lo .. hi` have been moved at once. */
  ghost predicate Moved(now: seq<Byte>, was: seq<Byte>, to: nat, from: nat, lo: nat, hi: nat)
    requires from + hi <= |was|
  {
    |now| == |was| && forall i: nat :: i < |was| ==> now[i] == At(was, to, from, lo, hi, i)
  }

  /** A move of a whole range: it holds what the other one held, and everything before and behind it stays. */
  lemma MovedRange(now: seq<Byte>, was: seq<Byte>, to: nat, from: nat, n: nat)
    requires from + n <= |was| && to + n <= |was| && Moved(now, was, to, from, 0, n)
    ensures now[..to] == was[..to] && now[to..to + n] == was[from..from + n] && now[to + n..] == was[to + n..]
  {
    var (a, b) := (now[to..to + n], was[from..from + n]);
    forall i | 0 <= i < n ensures a[i] == b[i] { assert now[to + i] == At(was, to, from, 0, n, to + i); }
  }

  /** `sbi_memmove`: as if all `count` bytes were read before any is written, and nothing else changes. */
  method SbiMemmove(mem: array<Byte>, dest: nat, src: nat, count: nat)
    requires dest + count <= mem.Length && src + count <= mem.Length
    modifies mem
    ensures Moved(mem[..], old(mem[..]), dest, src, 0, count)
  {
    if src == dest {
      return;
    }
    ghost var was := mem[..];
    var left: nat := count;
    if dest < src {
      var temp1, temp2 := dest, src;
      while left > 0
        invariant left <= count && temp1 == dest + (count - left) && temp2 == src + (count - left)
        invariant Moved(mem[..], was, dest, src, 0, count - left)
      {
        mem[temp1] := mem[temp2];
        temp1, temp2, left := temp1 + 1, temp2 + 1, left - 1;
      }
    } else {
      var temp1, temp2 := dest + count - 1, src + count - 1;
      while left > 0
        invariant left <= count && temp1 == dest + left - 1 && temp2 == src + left - 1
        invariant Moved(mem[..], was, dest, src, left, count)
      {
        mem[temp1] := mem[temp2];
        temp1, temp2, left := temp1 - 1, temp2 - 1, left - 1;
      }
    }
  }

  /** The next chunk of a forward move reads nothing that was written. */
  lemma FrontChunk(now: seq<Byte>, next: seq<Byte>, was: seq<Byte>, to: nat, from: nat, k: nat, tail: nat)
    requires to < from && from + (k + tail) <= |was| && Moved(now, was, to, from, 0, k)
    requires from + k + tail <= |now| && Moved(next, now, to + k, from + k, 0, tail)
    ensures Moved(next, was, to, from, 0, k + tail)
  {
    forall i: nat | i < |was| ensures next[i] == At(was, to, from, 0, k + tail, i) {
      assert next[i] == At(now, to + k, from + k, 0, tail, i);
      if to + k <= i < to + k + tail { assert now[from + (i - to)] == At(was, to, from, 0, k, from + (i - to)); }
    }
  }

  lemma BackChunk(now: seq<Byte>, next: seq<Byte>, was: seq<Byte>, to: nat, from: nat, n: nat, left: nat, tail: nat)
    requires from < to && to + n <= |was| && tail <= left <= n && Moved(now, was, to, from, left, n)
    requires from + left <= |now| && Moved(next, now, to + (left - tail), from + (left - tail), 0, tail)
    ensures Moved(next, was, to, from, left - tail, n)
  {
    forall i: nat | i < |was| ensures next[i] == At(was, to, from, left - tail, n, i) {
      assert next[i] == At(now, to + (left - tail), from + (left - tail), 0, tail, i);
      if to + (left - tail) <= i < to + left {
        assert now[from + (i - to)] == At(was, to, from, left, n, from + (i - to));
      }
    }
  }

  /** All but `left` bytes of a move have been moved, from the side it starts at. */
  ghost predicate DoneBut(now: seq<Byte>, was: seq<Byte>, to: nat, from: nat, n: nat, left: nat)
    requires from + n <= |was| && left <= n
  {
    if to < from then Moved(now, was, to, from, 0, n - left) else Moved(now, was, to, from, left, n)
  }

  lemma NextChunk(now: seq<Byte>, next: seq<Byte>, was: seq<Byte>, to0: nat, from0: nat, n: nat, left: nat, tail: nat,
                  to: nat, from: nat)
    requires to0 != from0 && tail <= left <= n && to0 + n <= |was| && from0 + n <= |was| == |now|
    requires to == to0 + (if to0 < from0 then n - left else left - tail) && to - from == to0 - from0
    requires DoneBut(now, was, to0, from0, n, left) && Moved(next, now, to, from, 0, tail)
    ensures DoneBut(next, was, to0, from0, n, left - tail)
  {
    if to0 < from0 {
      FrontChunk(now, next, was, to0, from0, n - left, tail);
    } else {
      BackChunk(now, next, was, to0, from0, n, left, tail);
    }
  }

  /** One chunk of a move of `n` bytes from `from0` to `to0`. */
  method MoveChunk(mem: array<Byte>, to: nat, from: nat, tail: nat, ghost was: seq<Byte>, ghost to0: nat,
                   ghost from0: nat, ghost n: nat, ghost left: nat)
    requires to0 != from0 && tail <= left <= n && to0 + n <= mem.Length && from0 + n <= mem.Length == |was|
    requires to == to0 + (if to0 < from0 then n - left else left - tail) && to - from == to0 - from0
    requires DoneBut(mem[..], was, to0, from0, n, left)
    modifies mem
    ensures DoneBut(mem[..], was, to0, from0, n, left - tail)
  {
    ghost var now := mem[..];
    SbiMemmove(mem, to, from, tail);
    NextChunk(now, mem[..], was, to0, from0, n, left, tail, to, from);
  }

  /** `memmove_wd`; `watchdog` is the build configuration, and a chunk is moved by `memmove`. */
  method MemmoveWd(mem: array<Byte>, to0: nat, from0: nat, len0: nat, chunksz: nat, watchdog: bool)
    requires to0 + len0 <= mem.Length && from0 + len0 <= mem.Length && chunksz > 0
    modifies mem
    ensures Moved(mem[..], old(mem[..]), to0, from0, 0, len0)
  {
    if to0 == from0 {
      return;
    }
    if !watchdog {
      SbiMemmove(mem, to0, from0, len0);
      return;
    }
    ghost var was := mem[..];
    var to: nat, from: nat, len: nat := to0, from0, len0;
    if to > from {
      from := from + len;
      to := to + len;
    }
    while len > 0
      invariant len <= len0
      invariant to0 < from0 ==> to == to0 + (len0 - len) && from == from0 + (len0 - len)
      invariant to0 > from0 ==> to == to0 + len && from == from0 + len
      invariant DoneBut(mem[..], was, to0, from0, len0, len)
    {
      var tail := if len > chunksz then chunksz else len;
      if to > from {
        to := to - tail;
        from := from - tail;
      }
      MoveChunk(mem, to, from, tail, was, to0, from0, len0, len);
      if to < from {
        to := to + tail;
        from := from + tail;
      }
      len := len - tail;
    }
  }
}
