/**
 `fdt_find_regions`: the byte ranges of the selected tags, found in one pass over the stream.
 */
module FdtRegions {
  import opened FdtStream

  /** An entry of the caller's array. */
  datatype FdtRegion = FdtRegion(offset: nat, size: nat)

  /** Bytes `start .. end` of the structure block. */
  datatype Run = Run(start: nat, end: nat)

  ghost predicate Sized(toks: seq<Token>) {
    forall i :: 0 <= i < |toks| ==> toks[i].bytes != []
  }

  /** Where the `n`-th tag starts. */
  function Offset(toks: seq<Token>, n: nat): nat
    requires n <= |toks|
  {
    if n == 0 then 0 else Offset(toks, n - 1) + |toks[n - 1].bytes|
  }

  /** Included tags are kept, and so is an END_NODE directly behind one. */
  predicate Kept(toks: seq<Token>, included: seq<bool>, i: nat)
    requires i < |included| <= |toks|
  {
    included[i] || (toks[i].EndNode? && i > 0 && included[i - 1])
  }

  /** The maximal runs of kept tags among the first `n`. */
  function Runs(toks: seq<Token>, included: seq<bool>, n: nat): (r: seq<Run>)
    requires n <= |included| <= |toks|
    ensures n > 0 && Kept(toks, included, n - 1) ==> r != []
  {
    if n == 0 then []
    else
      var before := Runs(toks, included, n - 1);
      if !Kept(toks, included, n - 1) then before
      else if n > 1 && Kept(toks, included, n - 2) then
        before[|before| - 1 := before[|before| - 1].(end := Offset(toks, n))]
      else before + [Run(Offset(toks, n - 1), Offset(toks, n))]
  }

  // ---------- what the runs are ----------

  ghost predicate Apart(rs: seq<Run>) {
    && (forall k :: 0 <= k < |rs| ==> rs[k].start < rs[k].end)
    && (forall k :: 0 < k < |rs| ==> rs[k - 1].end < rs[k].start)
  }

  ghost predicate Covers(rs: seq<Run>, x: nat) {
    exists k :: 0 <= k < |rs| && rs[k].start <= x < rs[k].end
  }

  ghost predicate KeptByte(toks: seq<Token>, included: seq<bool>, n: nat, x: nat)
    requires n <= |included| <= |toks|
  {
    exists i :: 0 <= i < n && Kept(toks, included, i) && InToken(toks, i, x)
  }

  predicate InToken(toks: seq<Token>, i: nat, x: nat)
    requires i < |toks|
  {
    Offset(toks, i) <= x < Offset(toks, i + 1)
  }

  /** The last run ends at the last kept tag. */
  ghost predicate EndsRight(toks: seq<Token>, included: seq<bool>, n: nat)
    requires n <= |included| <= |toks|
  {
    var rs := Runs(toks, included, n);
    rs != [] ==>
      if Kept(toks, included, n - 1) then rs[|rs| - 1].end == Offset(toks, n) else rs[|rs| - 1].end < Offset(toks, n)
  }

  /** Ascending, disjoint and not even touching. */
  lemma {:induction false} RunsApart(toks: seq<Token>, included: seq<bool>, n: nat)
    requires Sized(toks) && n <= |included| <= |toks|
    ensures Apart(Runs(toks, included, n)) && (n == 0 ==> Runs(toks, included, n) == [])
    ensures n > 0 ==> EndsRight(toks, included, n)
  {
    if n > 0 { RunsApart(toks, included, n - 1); }
  }

  /** The runs cover exactly the bytes of kept tags. */
  lemma {:induction false} RunsCover(toks: seq<Token>, included: seq<bool>, n: nat, x: nat)
    requires Sized(toks) && n <= |included| <= |toks|
    ensures Covers(Runs(toks, included, n), x) <==> KeptByte(toks, included, n, x)
  {
    if n > 0 {
      var before, rs := Runs(toks, included, n - 1), Runs(toks, included, n);
      RunsApart(toks, included, n - 1);
      RunsCover(toks, included, n - 1, x);
      KeptByteStep(toks, included, n, x);
      if !Kept(toks, included, n - 1) {
      } else if n > 1 && Kept(toks, included, n - 2) {
        CoversExtended(before, Offset(toks, n - 1), Offset(toks, n), x);
      } else {
        CoversAppended(before, Run(Offset(toks, n - 1), Offset(toks, n)), x);
      }
    }
  }

  lemma KeptByteStep(toks: seq<Token>, included: seq<bool>, n: nat, x: nat)
    requires 0 < n <= |included| <= |toks|
    ensures KeptByte(toks, included, n, x) <==>
            KeptByte(toks, included, n - 1, x) || (Kept(toks, included, n - 1) && InToken(toks, n - 1, x))
  {
    if KeptByte(toks, included, n, x) {
      var i :| 0 <= i < n && Kept(toks, included, i) && InToken(toks, i, x);
      assert i < n - 1 ==> KeptByte(toks, included, n - 1, x);
    }
    if KeptByte(toks, included, n - 1, x) {
      var i :| 0 <= i < n - 1 && Kept(toks, included, i) && InToken(toks, i, x);
      assert i < n;
    }
  }

  lemma CoversExtended(rs: seq<Run>, from: nat, to: nat, x: nat)
    requires rs != [] && rs[|rs| - 1].end == from <= to && rs[|rs| - 1].start <= from
    ensures Covers(rs[|rs| - 1 := rs[|rs| - 1].(end := to)], x) <==> Covers(rs, x) || from <= x < to
  {
    var m := |rs| - 1;
    var r := rs[m := rs[m].(end := to)];
    if Covers(r, x) {
      var k :| 0 <= k < |r| && r[k].start <= x < r[k].end;
      assert k < m ==> rs[k].start <= x < rs[k].end;
      assert x < from ==> rs[k].start <= x < rs[k].end;
    }
    if Covers(rs, x) {
      var k :| 0 <= k < |rs| && rs[k].start <= x < rs[k].end;
      assert r[k].start <= x < r[k].end;
    }
    assert from <= x < to ==> r[m].start <= x < r[m].end;
  }

  lemma CoversAppended(rs: seq<Run>, run: Run, x: nat)
    ensures Covers(rs + [run], x) <==> Covers(rs, x) || run.start <= x < run.end
  {
    var r := rs + [run];
    if Covers(r, x) {
      var k :| 0 <= k < |r| && r[k].start <= x < r[k].end;
      assert k < |rs| ==> rs[k].start <= x < rs[k].end;
    }
    if Covers(rs, x) {
      var k :| 0 <= k < |rs| && rs[k].start <= x < rs[k].end;
      assert r[k].start <= x < r[k].end;
    }
    assert r[|rs|] == run;
  }

  /** What the runs say about the first `n` tags depends on nothing behind them. */
  lemma {:induction false} RunsPrefix(toks: seq<Token>, a: seq<bool>, b: seq<bool>, n: nat)
    requires n <= |a| <= |toks| && n <= |b| <= |toks| && a[..n] == b[..n]
    ensures Runs(toks, a, n) == Runs(toks, b, n)
  {
    if n > 0 {
      forall i | 0 <= i < n ensures a[i] == b[i] { assert a[i] == a[..n][i] && b[i] == b[..n][i]; }
      assert a[..n - 1] == b[..n - 1];
      RunsPrefix(toks, a, b, n - 1);
    }
  }

  // ---------- the scan ----------

  /** The stack array and the other variables hold `nav`. */
  ghost predicate Holds(nav: Nav, want: nat, stack: seq<nat>, depth: int, path: string, expectEnd: bool) {
    && |stack| == MAX_DEPTH && -1 <= depth < MAX_DEPTH
    && nav == Nav(want, stack[..depth + 1], path, expectEnd)
  }

  /** What one round of the loop does to the navigation variables. */
  datatype Round = Stopped(code: nat)
                 | Advanced(included: bool, stopAtTag: bool, want: nat, depth: int, path: string, expectEnd: bool)

  /** The `switch` over the tag. `stopAtTag` says that `stop_at` is the tag's own offset. */
  method Navigate(cfg: Config, tok: Token, want: nat, stack: array<nat>, depth: int, path: string, expectEnd: bool,
                  ghost nav: Nav)
    returns (r: Round)
    requires Holds(nav, want, stack[..], depth, path, expectEnd)
    modifies stack
    ensures match Step(cfg, nav, tok)
            case Fail(code) => r == Stopped(code)
            case Move(next, inc) =>
              && r.Advanced? && r.included == inc && (!inc ==> r.stopAtTag == !tok.EndNode?)
              && Holds(next, r.want, stack[..], r.depth, r.path, r.expectEnd)
  {
    if expectEnd && !tok.End? {
      return Stopped(ERR_BADLAYOUT);
    }
    match tok {
      case Prop(name, _) =>
        if name.Missing? {
          return Stopped(ERR_BADSTRUCTURE);
        }
        return Advanced(want >= 2 && name.s !in cfg.exc, true, want, depth, path, expectEnd);
      case Nop(_) =>
        return Advanced(want >= 2, true, want, depth, path, expectEnd);
      case BeginNode(name, _) =>
        var d := depth + 1;
        if d == MAX_DEPTH {
          return Stopped(ERR_BADSTRUCTURE);
        }
        if d == 0 && name != "" {
          return Stopped(ERR_BADLAYOUT);
        }
        if |path| + 2 + |name| >= cfg.pathLen {
          return Stopped(ERR_NOSPACE);
        }
        var buffer := path;
        if |path| != 1 {
          buffer := buffer + "/";
        }
        buffer := buffer + name;
        stack[d] := want;
        assert stack[..d + 1] == nav.stack + [want];
        var stopAtTag := want == 1;
        var w := want;
        if buffer in cfg.inc {
          w := 2;
        } else if want > 0 {
          w := want - 1;
        } else {
          stopAtTag := true;
        }
        return Advanced(w > 0, stopAtTag, w, d, buffer, false);
      case EndNode(_) =>
        if depth < 0 {
          return Stopped(ERR_BADSTRUCTURE);
        }
        assert stack[..depth + 1][..depth] == stack[..depth];
        return Advanced(want > 0, false, stack[depth], depth - 1, Pop(path), depth == 0);
      case End(_) =>
        return Advanced(true, false, want, depth, path, expectEnd);
    }
  }

  /** An array entry for a run, `base` being the offset of the structure block. */
  function Entry(run: Run, base: nat): FdtRegion
    requires run.start <= run.end
  {
    FdtRegion(base + run.start, run.end - run.start)
  }

  /** The runs already written to the array; the last one may still be open. */
  function Closed(rs: seq<Run>, open: bool): seq<Run>
    requires open ==> rs != []
  {
    if open then rs[..|rs| - 1] else rs
  }

  /** `start`, `count` and the array hold the runs `rs`, the last of which may be open. */
  ghost predicate Recorded(rs: seq<Run>, open: bool, start: int, count: nat, region: seq<FdtRegion>, base: nat) {
    && Apart(rs) && (open ==> rs != [])
    && count == |Closed(rs, open)| <= |region|
    && (forall k :: 0 <= k < count ==> region[k] == Entry(rs[k], base))
    && (open ==> start == rs[|rs| - 1].start)
  }

  /** The last tag so far was included. */
  predicate Open(flags: seq<bool>) { flags != [] && flags[|flags| - 1] }

  /** Where the loop stands: all runs recorded, or too many already. */
  ghost predicate LoopInv(rs: seq<Run>, open: bool, start: int, count: nat, region: seq<FdtRegion>, base: nat,
                          max: int) {
    && (start == -1 <==> !open) && -1 <= start
    && (if count <= max then Recorded(rs, open, start, count, region, base) else |rs| > max)
  }

  ghost predicate EndsAt(rs: seq<Run>, x: nat) { rs != [] && rs[|rs| - 1].end == x }

  /** The runs `next` after one more tag, which occupies `from .. to`, from the runs `rs` before. */
  ghost predicate Grows(rs: seq<Run>, next: seq<Run>, open: bool, flag: bool, endNode: bool, from: nat, to: nat) {
    && Apart(rs) && Apart(next) && from < to
    && (open ==> EndsAt(rs, from)) && (flag ==> EndsAt(next, to))
    && next == if (flag && EndsAt(rs, from)) || (!flag && open && endNode)
               then rs[|rs| - 1 := Run(rs[|rs| - 1].start, to)]
               else if flag then rs + [Run(from, to)]
               else rs
  }

  lemma RunsStep(toks: seq<Token>, flags: seq<bool>, flag: bool)
    requires Sized(toks) && |flags| < |toks|
    ensures var n := |flags|;
            Grows(Runs(toks, flags, n), Runs(toks, flags + [flag], |flags + [flag]|), Open(flags), flag,
                toks[n].EndNode?, Offset(toks, n), Offset(toks, n + 1))
  {
    var n := |flags|;
    assert (flags + [flag])[..n] == flags[..n];
    RunsPrefix(toks, flags, flags + [flag], n);
    RunsGrow(toks, flags + [flag], n);
  }

  lemma RunsGrow(toks: seq<Token>, included: seq<bool>, n: nat)
    requires Sized(toks) && n < |included| <= |toks|
    ensures Grows(Runs(toks, included, n), Runs(toks, included, n + 1), n > 0 && included[n - 1], included[n],
                  toks[n].EndNode?, Offset(toks, n), Offset(toks, n + 1))
  {
    RunsApart(toks, included, n);
    RunsApart(toks, included, n + 1);
    RunsNext(toks, included, n);
    GrowsBy(Runs(toks, included, n), Runs(toks, included, n + 1), n > 0 && included[n - 1], included[n],
            toks[n].EndNode?, n > 0 && Kept(toks, included, n - 1), Offset(toks, n), Offset(toks, n + 1));
  }

  lemma RunsNext(toks: seq<Token>, included: seq<bool>, n: nat)
    requires Sized(toks) && n < |included| <= |toks|
    ensures Extends(Runs(toks, included, n), Runs(toks, included, n + 1), Kept(toks, included, n),
                    n > 0 && Kept(toks, included, n - 1), Offset(toks, n), Offset(toks, n + 1))
  {
  }

  /** A kept tag makes the last run longer if the tag before it was kept, and starts a new one otherwise. */
  predicate Extends(rs: seq<Run>, next: seq<Run>, kept: bool, wasKept: bool, from: nat, to: nat) {
    && (wasKept ==> rs != [])
    && next == if !kept then rs
               else if wasKept then rs[|rs| - 1 := Run(rs[|rs| - 1].start, to)]
               else rs + [Run(from, to)]
  }

  lemma GrowsBy(rs: seq<Run>, next: seq<Run>, open: bool, flag: bool, endNode: bool, wasKept: bool, from: nat, to: nat)
    requires Apart(rs) && Apart(next) && from < to && (open ==> wasKept)
    requires Extends(rs, next, flag || (endNode && open), wasKept, from, to)
    requires rs != [] ==> if wasKept then rs[|rs| - 1].end == from else rs[|rs| - 1].end < from
    ensures Grows(rs, next, open, flag, endNode, from, to)
  {
  }

  /** A tag is included and no run is open: the run that ends here is taken back, or a new one starts. */
  lemma Opened(rs: seq<Run>, next: seq<Run>, endNode: bool, from: nat, to: nat, count: nat, region: seq<FdtRegion>,
               max: int, base: nat, start': int, count': nat)
    requires Grows(rs, next, false, true, endNode, from, to) && count <= max <= |region|
    requires LoopInv(rs, false, -1, count, region, base, max)
    requires if count > 0 && from == region[count - 1].offset + region[count - 1].size - base
             then count' == count - 1 && start' == region[count - 1].offset - base
             else count' == count && start' == from
    ensures LoopInv(next, true, start', count', region, base, max)
  {
    assert count == |rs|;
    assert count > 0 ==> region[count - 1] == Entry(rs[count - 1], base);
  }

  /** A tag is not included while a run is open: the run is written if there is room. */
  lemma ClosedRun(rs: seq<Run>, next: seq<Run>, endNode: bool, from: nat, to: nat, start: int, count: nat,
                  region: seq<FdtRegion>, region': seq<FdtRegion>, max: int, base: nat, stopAt: nat)
    requires Grows(rs, next, true, false, endNode, from, to) && count <= max <= |region|
    requires LoopInv(rs, true, start, count, region, base, max)
    requires stopAt == (if endNode then to else from) && 0 <= start <= stopAt
    requires region' == if count < max then region[count := FdtRegion(base + start, stopAt - start)] else region
    ensures LoopInv(next, false, -1, count + 1, region', base, max)
  {
    assert |next| == |rs| == count + 1 && next[count] == Run(start, stopAt);
    assert forall k :: 0 <= k < count ==> next[k] == rs[k];
  }

  /** A tag that neither opens nor closes a run. */
  lemma Unmoved(rs: seq<Run>, next: seq<Run>, flag: bool, endNode: bool, from: nat, to: nat, start: int, count: nat,
                region: seq<FdtRegion>, max: int, base: nat)
    requires Grows(rs, next, flag, flag, endNode, from, to) && count <= max <= |region|
    requires LoopInv(rs, flag, start, count, region, base, max)
    ensures LoopInv(next, flag, start, count, region, base, max)
  {
    if flag { assert |next| == |rs| && forall k :: 0 <= k < count ==> next[k] == rs[k]; }
  }

  /** The end of a round: a run is opened, possibly by taking the previous one back, or closed. */
  method Collect(ghost rs: seq<Run>, ghost next: seq<Run>, ghost open: bool, ghost endNode: bool, ghost to: nat,
                 flag: bool, offset: nat, stopAt: nat, start: int, count: nat,
                 region: array<FdtRegion>, max: int, base: nat) returns (start': int, count': nat)
    requires Grows(rs, next, open, flag, endNode, offset, to) && max <= region.Length
    requires LoopInv(rs, open, start, count, region[..], base, max) && start <= offset
    requires !flag ==> stopAt == if endNode then to else offset
    modifies region
    ensures LoopInv(next, flag, start', count', region[..], base, max) && start' <= to
  {
    start', count' := start, count;
    if flag && start == -1 {
      if count > 0 && count <= max && offset == region[count - 1].offset + region[count - 1].size - base {
        count' := count - 1;
        start' := region[count - 1].offset - base;
      } else {
        start' := offset;
      }
    }
    if !flag && start != -1 {
      if count < max {
        region[count] := FdtRegion(base + start, stopAt - start);
      }
      count' := count + 1;
      start' := -1;
    }
    if count <= max {
      if flag && !open {
        Opened(rs, next, endNode, offset, to, count, old(region[..]), max, base, start', count');
      } else if flag || !open {
        Unmoved(rs, next, flag, endNode, offset, to, start, count, region[..], max, base);
      } else {
        ClosedRun(rs, next, endNode, offset, to, start, count, old(region[..]), region[..], max, base, stopAt);
      }
    }
  }

  /** The array holds the runs; the string table is added to the last one if asked for. */
  ghost predicate Reports(region: seq<FdtRegion>, rs: seq<Run>, base: nat, extra: nat) {
    && 0 < |rs| <= |region| && Apart(rs)
    && (forall k :: 0 <= k < |rs| - 1 ==> region[k] == Entry(rs[k], base))
    && region[|rs| - 1] == Entry(rs[|rs| - 1], base).(size := rs[|rs| - 1].end - rs[|rs| - 1].start + extra)
  }

  /** What `fdt_find_regions` must return and leave in the array, given what the scan says. */
  ghost predicate Answers(all: Outcome, toks: seq<Token>, structSize: nat, region: seq<FdtRegion>, max: int,
                          base: nat, extra: nat, ret: int) {
    match all
    case Error(code) => ret == 0 - code
    case Flags(inc) =>
      && |inc| <= |toks|
      && if Offset(toks, |inc|) != structSize then ret == 0 - ERR_BADLAYOUT
         else AnswersRuns(Runs(toks, inc, |inc|), region, max, base, extra, ret)
  }

  /** The number of runs is returned, and if they fit the array holds them. */
  ghost predicate AnswersRuns(rs: seq<Run>, region: seq<FdtRegion>, max: int, base: nat, extra: nat, ret: int) {
    && ret > 0 && (ret <= max <==> |rs| <= max)
    && (ret <= max ==> ret == |rs| && Reports(region, rs, base, extra))
  }

  /** The region for the END tag, which is always included, and the string table. */
  method Finish(ghost rs: seq<Run>, end: nat, start: int, count: nat, region: array<FdtRegion>,
                max: int, base: nat, extra: nat) returns (ret: int)
    requires max <= region.Length && start <= end && EndsAt(rs, end)
    requires LoopInv(rs, true, start, count, region[..], base, max)
    modifies region
    ensures AnswersRuns(rs, region[..], max, base, extra, ret)
  {
    if count < max {
      region[count] := FdtRegion(base + start, end - start + extra);
    }
    return count + 1;
  }

  /** After `flags` the scan of all tags is the scan of the rest from `nav`. */
  ghost predicate Scanned(cfg: Config, all: Outcome, flags: seq<bool>, nav: Nav, toks: seq<Token>) {
    |flags| <= |toks| && all == Prepend(flags, Scan(cfg, nav, toks[|flags|..]))
  }

  lemma ScanNext(cfg: Config, all: Outcome, flags: seq<bool>, nav: Nav, toks: seq<Token>)
    requires Scanned(cfg, all, flags, nav, toks)
    ensures |flags| == |toks| ==> all == Error(ERR_BADLAYOUT)
    ensures |flags| < |toks| ==>
              var tok := toks[|flags|];
              match Step(cfg, nav, tok)
              case Fail(code) => all == Error(code)
              case Move(next, inc) =>
                if tok.End? then all == Flags(flags + [inc]) else Scanned(cfg, all, flags + [inc], next, toks)
  {
    var n := |flags|;
    if n < |toks| {
      assert toks[n..][0] == toks[n] && toks[n..][1..] == toks[n + 1..];
      match Step(cfg, nav, toks[n])
      case Fail(_) =>
      case Move(next, inc) =>
        if !toks[n].End? { PrependTwice(flags, [inc], Scan(cfg, next, toks[n + 1..])); }
    }
  }

  lemma ScanStart(cfg: Config, toks: seq<Token>)
    ensures Scanned(cfg, Scan(cfg, ROOT, toks), [], ROOT, toks)
  {
    assert toks[0..] == toks;
    var r := Scan(cfg, ROOT, toks);
    assert r.Flags? ==> [] + r.included == r.included;
  }

  /** The runs among the tags in `flags` are recorded, and the loop has come to offset `offset`. */
  ghost predicate Collected(toks: seq<Token>, flags: seq<bool>, offset: nat, start: int, count: nat,
                            region: seq<FdtRegion>, base: nat, max: int) {
    && |flags| <= |toks| && offset == Offset(toks, |flags|) && start <= offset
    && LoopInv(Runs(toks, flags, |flags|), Open(flags), start, count, region, base, max)
  }

  /** What follows the loop: the size check and the last region. */
  method AfterLoop(toks: seq<Token>, ghost flags: seq<bool>, structSize: nat, offset: nat, start: int, count: nat,
                   region: array<FdtRegion>, max: int, base: nat, extra: nat) returns (ret: int)
    requires Collected(toks, flags, offset, start, count, region[..], base, max) && max <= region.Length
    requires Open(flags) && EndsAt(Runs(toks, flags, |flags|), offset)
    modifies region
    ensures Answers(Flags(flags), toks, structSize, region[..], max, base, extra, ret)
  {
    if offset != structSize {
      return 0 - ERR_BADLAYOUT;
    }
    ret := Finish(Runs(toks, flags, |flags|), offset, start, count, region, max, base, extra);
  }

  /** The navigation part of a round, for the tag behind `flags`. */
  method NavigateTag(cfg: Config, ghost all: Outcome, ghost flags: seq<bool>, toks: seq<Token>, n: nat, want: nat,
                     stack: array<nat>, depth: int, path: string, expectEnd: bool, ghost nav: Nav)
    returns (r: Round, ghost next: Nav)
    requires n == |flags| < |toks| && Scanned(cfg, all, flags, nav, toks)
    requires Holds(nav, want, stack[..], depth, path, expectEnd)
    modifies stack
    ensures r.Stopped? ==> all == Error(r.code)
    ensures r.Advanced? ==>
              && (!r.included ==> r.stopAtTag == !toks[n].EndNode?)
              && Holds(next, r.want, stack[..], r.depth, r.path, r.expectEnd)
              && if toks[n].End? then r.included && all == Flags(flags + [r.included])
                 else Scanned(cfg, all, flags + [r.included], next, toks)
  {
    ScanNext(cfg, all, flags, nav, toks);
    r := Navigate(cfg, toks[n], want, stack, depth, path, expectEnd, nav);
    next := if r.Stopped? then nav else Step(cfg, nav, toks[n]).nav;
  }

  /** The region part of a round, for the tag behind `flags`. */
  method CollectTag(toks: seq<Token>, ghost flags: seq<bool>, n: nat, flag: bool, stopAtTag: bool, offset: nat,
                    start: int, count: nat, region: array<FdtRegion>, max: int, base: nat)
    returns (start': int, count': nat)
    requires Sized(toks) && n == |flags| < |toks| && max <= region.Length
    requires Collected(toks, flags, offset, start, count, region[..], base, max)
    requires !flag ==> stopAtTag == !toks[n].EndNode?
    modifies region
    ensures Collected(toks, flags + [flag], offset + |toks[n].bytes|, start', count', region[..], base, max)
    ensures flag ==> EndsAt(Runs(toks, flags + [flag], |flags + [flag]|), offset + |toks[n].bytes|)
  {
    var nextOffset := offset + |toks[n].bytes|;
    RunsStep(toks, flags, flag);
    start', count' := Collect(Runs(toks, flags, n), Runs(toks, flags + [flag], |flags + [flag]|), Open(flags),
                              toks[n].EndNode?, nextOffset,
                              flag, offset, if stopAtTag then offset else nextOffset, start, count, region, max, base);
  }

  /** One round of the loop, for the tag behind `flags`. */
  method OneTag(cfg: Config, ghost all: Outcome, ghost flags: seq<bool>, toks: seq<Token>, n: nat, want: nat,
                stack: array<nat>, depth: int, path: string, expectEnd: bool, ghost nav: Nav,
                offset: nat, start: int, count: nat, region: array<FdtRegion>, max: int, base: nat)
    returns (r: Round, ghost next: Nav, start': int, count': nat)
    requires Sized(toks) && n == |flags| < |toks| && max <= region.Length && Scanned(cfg, all, flags, nav, toks)
    requires Holds(nav, want, stack[..], depth, path, expectEnd)
    requires Collected(toks, flags, offset, start, count, region[..], base, max)
    modifies stack, region
    ensures r.Stopped? ==> all == Error(r.code)
    ensures r.Advanced? ==>
              && Collected(toks, flags + [r.included], offset + |toks[n].bytes|, start', count', region[..], base, max)
              && Holds(next, r.want, stack[..], r.depth, r.path, r.expectEnd)
              && if toks[n].End? then AtEnd(all, toks, flags, r.included, offset + |toks[n].bytes|)
                 else Scanned(cfg, all, flags + [r.included], next, toks)
  {
    r, next := NavigateTag(cfg, all, flags, toks, n, want, stack, depth, path, expectEnd, nav);
    start', count' := start, count;
    if r.Advanced? {
      start', count' := CollectTag(toks, flags, n, r.included, r.stopAtTag, offset, start, count, region, max, base);
    }
  }

  /** The END tag is included, and the last run ends with it. */
  ghost predicate AtEnd(all: Outcome, toks: seq<Token>, flags: seq<bool>, included: bool, offset: nat)
    requires |flags| < |toks|
  {
    included && all == Flags(flags + [true]) && EndsAt(Runs(toks, flags + [true], |flags| + 1), offset)
  }

  /**
   `fdt_find_regions` over the tags `fdt_next_tag` yields. A malformed tag reads as an END tag whose
   end is not the end of the block, so running out of tags is a bad layout.
   */
  method FindRegions(cfg: Config, toks: seq<Token>, structSize: nat, region: array<FdtRegion>, max: int, base: nat,
                     stringsSize: nat, addStringTab: bool) returns (ret: int)
    requires Sized(toks) && max <= region.Length
    modifies region
    ensures Answers(Scan(cfg, ROOT, toks), toks, structSize, region[..], max, base,
                    if addStringTab then stringsSize else 0, ret)
  {
    var extra := if addStringTab then stringsSize else 0;
    var stack := new nat[MAX_DEPTH](_ => 0);
    var want, depth, path, expectEnd := 0, -1, "", false;
    var count: nat, start, offset: nat, n: nat := 0, -1, 0, 0;
    ghost var nav, flags := ROOT, [];
    ghost var all := Scan(cfg, ROOT, toks);
    ScanStart(cfg, toks);
    while n < |toks|
      invariant n == |flags| <= |toks| && fresh(stack)
      invariant Holds(nav, want, stack[..], depth, path, expectEnd)
      invariant Scanned(cfg, all, flags, nav, toks)
      invariant Collected(toks, flags, offset, start, count, region[..], base, max)
    {
      var r;
      r, nav, start, count := OneTag(cfg, all, flags, toks, n, want, stack, depth, path, expectEnd, nav,
                                     offset, start, count, region, max, base);
      if r.Stopped? {
        return 0 - r.code;
      }
      offset, flags := offset + |toks[n].bytes|, flags + [r.included];
      if toks[n].End? {
        ret := AfterLoop(toks, flags, structSize, offset, start, count, region, max, base, extra);
        return;
      }
      want, depth, path, expectEnd := r.want, r.depth, r.path, r.expectEnd;
      n := n + 1;
    }
    ScanNext(cfg, all, flags, nav, toks);
    return 0 - ERR_BADLAYOUT;
  }

  // ---------- on a device tree ----------

  /** The structure block up to the `n`-th tag. */
  function Block(toks: seq<Token>, n: nat): Bytes
    requires n <= |toks|
  {
    if n == 0 then [] else Block(toks, n - 1) + toks[n - 1].bytes
  }

  lemma {:induction false} OffsetIsLength(toks: seq<Token>, n: nat)
    requires n <= |toks|
    ensures Offset(toks, n) == |Block(toks, n)|
  {
    if n > 0 { OffsetIsLength(toks, n - 1); }
  }

  /** Byte `x` of the structure block belongs to an included tag, or to an END_NODE directly behind one. */
  ghost predicate SelectedByte(toks: seq<Token>, included: seq<bool>, x: nat)
    requires |included| == |toks|
  {
    exists i :: 0 <= i < |toks| && |Block(toks, i)| <= x < |Block(toks, i + 1)|
                && (included[i] || (toks[i].EndNode? && i > 0 && included[i - 1]))
  }

  lemma SelectedIsKept(toks: seq<Token>, included: seq<bool>, x: nat)
    requires |included| == |toks|
    ensures SelectedByte(toks, included, x) <==> KeptByte(toks, included, |toks|, x)
  {
    forall i | 0 <= i < |toks| ensures InToken(toks, i, x) <==> |Block(toks, i)| <= x < |Block(toks, i + 1)| {
      OffsetIsLength(toks, i);
      OffsetIsLength(toks, i + 1);
    }
    if KeptByte(toks, included, |toks|, x) {
      var i :| 0 <= i < |toks| && Kept(toks, included, i) && InToken(toks, i, x);
      assert |Block(toks, i)| <= x < |Block(toks, i + 1)|;
    }
    if SelectedByte(toks, included, x) {
      var i :| 0 <= i < |toks| && |Block(toks, i)| <= x < |Block(toks, i + 1)|
               && (included[i] || (toks[i].EndNode? && i > 0 && included[i - 1]));
      assert Kept(toks, included, i) && InToken(toks, i, x);
    }
  }

  /**
   For a well-formed tree the scan succeeds exactly if names and depth fit, and then the runs it
   reports are ascending, apart, and cover exactly the bytes of the selected tags.
   */
  lemma DocSelection(cfg: Config, doc: Doc)
    requires WellNamed(doc.body) && Sized(DocTokens(doc))
    ensures var (toks, code) := (DocTokens(doc), DocRefusal(cfg, doc));
            var r := Scan(cfg, ROOT, toks);
            if code != 0 then r == Error(code)
            else
              && r == Flags(DocIncluded(cfg, doc))
              && var rs := Runs(toks, r.included, |toks|);
                 && Apart(rs) && EndsAt(rs, |Block(toks, |toks|)|)
                 && forall x: nat :: Covers(rs, x) <==> SelectedByte(toks, DocIncluded(cfg, doc), x)
  {
    ScanDoc(cfg, doc);
    if DocRefusal(cfg, doc) == 0 {
      var (toks, inc) := (DocTokens(doc), DocIncluded(cfg, doc));
      RunsApart(toks, inc, |toks|);
      OffsetIsLength(toks, |toks|);
      assert Kept(toks, inc, |toks| - 1);
      forall x: nat ensures Covers(Runs(toks, inc, |toks|), x) <==> SelectedByte(toks, inc, x) {
        RunsCover(toks, inc, |toks|, x);
        SelectedIsKept(toks, inc, x);
      }
    }
  }

  /** Byte `y` of the blob is in one of the first `n` regions of the caller's array. */
  ghost predicate Reported(region: seq<FdtRegion>, n: nat, y: nat)
    requires n <= |region|
  {
    exists k :: 0 <= k < n && region[k].offset <= y < region[k].offset + region[k].size
  }

  /** Ascending, not empty, and with a gap between any two. */
  ghost predicate Separate(region: seq<FdtRegion>, n: nat)
    requires n <= |region|
  {
    && (forall k :: 0 <= k < n ==> region[k].size > 0)
    && (forall k :: 0 < k < n ==> region[k - 1].offset + region[k - 1].size < region[k].offset)
  }

  /** The array's regions are the runs moved to `base`, and the string table behind the last. */
  lemma ReportedIsCovered(region: seq<FdtRegion>, rs: seq<Run>, base: nat, extra: nat, y: nat)
    requires Reports(region, rs, base, extra)
    ensures Reported(region, |rs|, y) <==>
            (base <= y && Covers(rs, y - base)) || 0 <= y - base - rs[|rs| - 1].end < extra
  {
    var m := |rs| - 1;
    assert rs[m].start < rs[m].end;
    if Reported(region, |rs|, y) {
      var k :| 0 <= k < |rs| && region[k].offset <= y < region[k].offset + region[k].size;
      assert y - base < rs[k].end ==> rs[k].start <= y - base < rs[k].end;
    }
    if base <= y && Covers(rs, y - base) {
      var k :| 0 <= k < |rs| && rs[k].start <= y - base < rs[k].end;
      assert region[k].offset <= y < region[k].offset + region[k].size;
    }
    assert 0 <= y - base - rs[m].end < extra ==> region[m].offset <= y < region[m].offset + region[m].size;
  }

  lemma ReportsApart(region: seq<FdtRegion>, rs: seq<Run>, base: nat, extra: nat)
    requires Reports(region, rs, base, extra)
    ensures Separate(region, |rs|)
  {
    forall k | 0 < k < |rs| ensures region[k - 1].offset + region[k - 1].size < region[k].offset {
      assert region[k - 1] == Entry(rs[k - 1], base) && region[k].offset == base + rs[k].start;
      assert rs[k - 1].end < rs[k].start;
    }
  }

  /** Byte `y` of the blob is a selected byte of the structure block, or in the string table if that is asked for. */
  ghost predicate Asked(toks: seq<Token>, included: seq<bool>, base: nat, extra: nat, y: nat)
    requires |included| == |toks|
  {
    (base <= y && SelectedByte(toks, included, y - base)) || 0 <= y - base - |Block(toks, |toks|)| < extra
  }

  /**
   What `fdt_find_regions` answers for a well-formed tree, whose structure block is at `base` and is followed by
   the string table. An error in the tree or a block of another size is reported. Otherwise, if the answer is at
   most `max`, it is the number of regions in the array, and they are separate and hold exactly the bytes
   asked for.
   */
  lemma DocRegions(cfg: Config, doc: Doc, structSize: nat, region: seq<FdtRegion>, max: int, base: nat, extra: nat,
                   ret: int)
    requires WellNamed(doc.body) && Sized(DocTokens(doc))
    requires Answers(Scan(cfg, ROOT, DocTokens(doc)), DocTokens(doc), structSize, region, max, base, extra, ret)
    ensures var (toks, code) := (DocTokens(doc), DocRefusal(cfg, doc));
            if code != 0 then ret + code == 0
            else if structSize != |Block(toks, |toks|)| then ret == 0 - ERR_BADLAYOUT
            else
              && ret > 0 && (ret <= max <==> |Runs(toks, DocIncluded(cfg, doc), |toks|)| <= max)
              && (ret <= max ==>
                    && ret <= |region| && Separate(region, ret)
                    && forall y: nat ::
                         Reported(region, ret, y) <==> Asked(toks, DocIncluded(cfg, doc), base, extra, y))
  {
    DocSelection(cfg, doc);
    var (toks, inc) := (DocTokens(doc), DocIncluded(cfg, doc));
    OffsetIsLength(toks, |toks|);
    if DocRefusal(cfg, doc) == 0 && structSize == |Block(toks, |toks|)| && ret <= max {
      var rs := Runs(toks, inc, |toks|);
      ReportsApart(region, rs, base, extra);
      forall y: nat ensures Reported(region, ret, y) <==> Asked(toks, inc, base, extra, y) {
        ReportedIsCovered(region, rs, base, extra, y);
      }
    }
  }
}
