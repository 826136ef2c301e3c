/**
 `cmdline_set_arg` and `cmdline_get_arg` of bootflow.c: changing, deleting, adding and finding an
 argument of a kernel command line.
 */
module CmdlineEdit {
  import opened CmdlineText

  const E2BIG: nat := 7
  const EBADF: nat := 9
  const EINVAL: nat := 22
  const ENOENT: nat := 2

  /** NULL, BOOTFLOWCL_EMPTY or a string. */
  datatype NewVal = Delete | Empty | Value(v: string)

  function Quoted(v: string): string { if ' ' in v then "\"" + v + "\"" else v }

  function Piece(name: string, nv: NewVal): string
    requires !nv.Delete?
  {
    if nv.Empty? then name else name + "=" + Quoted(nv.v)
  }

  /** `!strncmp(from, set_arg, arg_end - from)`: the name is a prefix of the argument looked for. */
  predicate Matches(t: string, arg: string) { Name(t) <= arg }

  /** What becomes of one argument. */
  function EditOne(t: string, arg: string, nv: NewVal): seq<string> {
    if !Matches(t, arg) then [t] else if nv.Delete? then [] else [Piece(Name(t), nv)]
  }

  function Edited(args: seq<string>, arg: string, nv: NewVal): seq<string> {
    if args == [] then [] else EditOne(args[0], arg, nv) + Edited(args[1..], arg, nv)
  }

  ghost predicate AnyMatch(args: seq<string>, arg: string) {
    exists k :: 0 <= k < |args| && Matches(args[k], arg)
  }

  datatype Outcome = Fails(code: nat) | Writes(text: string)

  /** What becomes of a line when `out` has been written and `p` is still to come. */
  ghost function Final(out: string, found: bool, p: Parsed, arg: string, nv: NewVal, max: int): Outcome {
    var text := Join(out, Edited(p.args, arg, nv));
    if |text| >= max then Fails(E2BIG)
    else if !p.closed then Fails(EINVAL)
    else if found || AnyMatch(p.args, arg) then Writes(Trim(text))
    else Added(text, arg, nv, max)
  }

  /** No argument matched: it is added, unless it was to be deleted. */
  function Added(text: string, arg: string, nv: NewVal, max: int): Outcome {
    if nv.Delete? then Fails(ENOENT)
    else if |Append(text, Piece(arg, nv))| >= max then Fails(E2BIG)
    else Writes(Trim(Append(text, Piece(arg, nv))))
  }

  /** `cmdline_set_arg` with a buffer of `max` chars. */
  ghost function SetOutcome(line: string, arg: string, nv: NewVal, max: int): Outcome {
    if nv.Value? && '"' in nv.v then Fails(EBADF)
    else if line == "" then Added("", arg, nv, max)
    else Final("", false, Tokens(line), arg, nv, max)
  }

  // ---------- the loops ----------

  /** The inner loop: where the argument at `from` ends, and where its name does. */
  method ScanArg(line: string, from: nat) returns (valEnd: int, argEnd: nat, hasVal: bool)
    requires from < |line| && line[from] != ' '
    ensures TokenEnd(line[from..], 0) < 0 ==> valEnd == -1
    ensures TokenEnd(line[from..], 0) >= 0 ==>
              && valEnd == from + TokenEnd(line[from..], 0) && from < valEnd <= |line|
              && var t := line[from..valEnd];
                 argEnd == from + NameLen(t) && (hasVal <==> NameLen(t) < |t|)
  {
    ghost var s := line[from..];
    var p, inQuote := from, false;
    argEnd, hasVal := 0, false;
    assert s[..0] == "";
    while true
      invariant from <= p <= |line|
      invariant inQuote == InQuote(s[..p - from])
      invariant TokenEnd(s, 0) == TokenEnd(s, p - from)
      invariant hasVal == (LastEq(s, p - from) >= 0) && (hasVal ==> argEnd == from + LastEq(s, p - from))
      decreases |line| - p
    {
      if p < |line| { assert s[..p - from + 1][..p - from] == s[..p - from] && s[p - from] == line[p]; }
      if inQuote {
        if p == |line| {
          return -1, 0, false;
        }
        if line[p] == '"' {
          inQuote := false;
        }
        p := p + 1;
        continue;
      }
      if p == |line| || line[p] == ' ' {
        valEnd := p;
        if !hasVal {
          argEnd := p;
        }
        Ended(line, from, p);
        return;
      }
      if line[p] == '=' {
        argEnd := p;
        hasVal := true;
      } else if line[p] == '"' {
        inQuote := true;
      }
      p := p + 1;
    }
  }

  lemma Ended(line: string, from: nat, p: nat)
    requires from < |line| && line[from] != ' ' && from <= p <= |line| && p - from == TokenEnd(line[from..], 0)
    ensures from < p
    ensures var t := line[from..p];
            var e := LastEq(line[from..], p - from);
            NameLen(t) == (if e < 0 then |t| else e) && (NameLen(t) < |t| <==> e >= 0)
  {
    var s := line[from..];
    assert line[from..p] == s[..p - from];
    LastEqPrefix(s, p - from, p - from);
    TokenIsPiece(s, p - from);
  }

  /** `memcpy` into the buffer */
  method Put(buf: array<char>, to: nat, s: string)
    requires to + |s| <= buf.Length
    modifies buf
    ensures buf[..to + |s|] == old(buf[..to]) + s && buf[to + |s|..] == old(buf[to + |s|..])
  {
    forall i | 0 <= i < |s| {
      buf[to + i] := s[i];
    }
    assert buf[..to] == old(buf[..to]);
    assert buf[to..to + |s|] == s;
    assert buf[..to + |s|] == buf[..to] + buf[to..to + |s|];
  }

  /** The part of the buffer a call may not touch. */
  ghost predicate SameFrom(a: seq<char>, b: seq<char>, max: int) {
    |a| == |b| && forall i :: max <= i < |a| && 0 <= i ==> a[i] == b[i]
  }

  /** `copy_in` */
  method CopyIn(buf: array<char>, max: int, to: nat, name: string, nv: NewVal) returns (ret: int)
    requires !nv.Delete? && to <= max <= buf.Length
    modifies buf
    ensures SameFrom(buf[..], old(buf[..]), max)
    ensures if to + |Piece(name, nv)| >= max then ret == 0 - E2BIG
            else ret == |Piece(name, nv)| && buf[..to + ret] == old(buf[..to]) + Piece(name, nv)
  {
    if to + |name| >= max {
      return 0 - E2BIG;
    }
    Put(buf, to, name);
    var n := to + |name|;
    if nv.Value? {
      var needQuote := ' ' in nv.v;
      if n + 1 + (if needQuote then 2 else 0) + |nv.v| >= max {
        return 0 - E2BIG;
      }
      Put(buf, n, if needQuote then "=\"" + nv.v + "\"" else "=" + nv.v);
      n := n + |nv.v| + if needQuote then 3 else 1;
      assert buf[..n] == old(buf[..to]) + Piece(name, nv);
    }
    return n - to;
  }

  // ---------- one argument after the other ----------

  /** What has been written once argument `t` has been dealt with. */
  function After(out: string, t: string, arg: string, nv: NewVal): string {
    if Matches(t, arg) then (if nv.Delete? then out else Append(out, Piece(Name(t), nv))) else Append(out, t)
  }

  lemma EditedStep(out: string, t: string, rest: seq<string>, arg: string, nv: NewVal)
    ensures Join(out, Edited([t] + rest, arg, nv)) == Join(After(out, t, arg, nv), Edited(rest, arg, nv))
  {
    assert ([t] + rest)[1..] == rest;
    var (one, more) := (EditOne(t, arg, nv), Edited(rest, arg, nv));
    if one == [] {
      assert one + more == more;
    } else {
      assert (one + more)[1..] == more;
    }
  }

  lemma MatchStep(t: string, rest: seq<string>, arg: string)
    ensures AnyMatch([t] + rest, arg) == (Matches(t, arg) || AnyMatch(rest, arg))
  {
    var args := [t] + rest;
    if k :| 0 <= k < |args| && Matches(args[k], arg) {
      if k > 0 { assert rest[k - 1] == args[k]; }
    }
    if k :| 0 <= k < |rest| && Matches(rest[k], arg) { assert args[k + 1] == rest[k]; }
    if Matches(t, arg) { assert args[0] == t; }
  }

  /** Dealing with the next argument does not change what will become of the line. */
  lemma FinalStep(out: string, found: bool, t: string, rest: Parsed, arg: string, nv: NewVal, max: int)
    ensures var p := Parsed([t] + rest.args, rest.closed);
            var next := After(out, t, arg, nv);
            && Final(out, found, p, arg, nv, max) == Final(next, found || Matches(t, arg), rest, arg, nv, max)
            && (|next| >= max ==> Final(out, found, p, arg, nv, max) == Fails(E2BIG))
  {
    EditedStep(out, t, rest.args, arg, nv);
    MatchStep(t, rest.args, arg);
  }

  /** The text does not end in a space. */
  predicate NoTrail(out: string) { out == "" || out[|out| - 1] != ' ' }

  lemma PieceLast(t: string)
    requires IsPiece(t)
    ensures NoTrail(t)
  {
  }

  /** What the arguments from `from` on are. */
  lemma NextArg(line: string, from: nat, valEnd: nat)
    requires from < |line| && line[from] != ' ' && from < valEnd <= |line| && valEnd == from + TokenEnd(line[from..], 0)
    ensures var t := line[from..valEnd];
            var rest := Tokens(line[valEnd..]);
            IsPiece(t) && t != "" && Tokens(line[from..]) == Parsed([t] + rest.args, rest.closed)
  {
    var s := line[from..];
    assert s[..valEnd - from] == line[from..valEnd] && s[valEnd - from..] == line[valEnd..];
    TokenIsPiece(s, valEnd - from);
  }

  /** `while (*from == ' ') from++` */
  method SkipSpaces(line: string, from: nat) returns (r: nat)
    requires from <= |line|
    ensures from <= r <= |line| && (r == |line| || line[r] != ' ') && forall k :: from <= k < r ==> line[k] == ' '
    ensures Tokens(line[r..]) == Tokens(line[from..])
  {
    r := from;
    while r < |line| && line[r] == ' '
      invariant from <= r <= |line| && Tokens(line[r..]) == Tokens(line[from..])
      invariant forall k :: from <= k < r ==> line[k] == ' '
    {
      assert line[r..][1..] == line[r + 1..];
      r := r + 1;
    }
  }

  /** One argument: written again, rewritten or left out. */
  method EditArg(buf: array<char>, max: int, to: nat, t: string, argEnd: nat, arg: string, nv: NewVal)
    returns (ret: int)
    requires to < max <= buf.Length && argEnd == NameLen(t) && t != ""
    modifies buf
    ensures SameFrom(buf[..], old(buf[..]), max)
    ensures var next := After(old(buf[..to]), t, arg, nv);
            if |next| >= max then ret == 0 - E2BIG
            else 0 <= ret == |next| && buf[..ret] == next
  {
    var n := to;
    if to != 0 {
      buf[to] := ' ';
      n := to + 1;
    }
    ghost var sofar := buf[..n];
    assert sofar == old(buf[..to]) + if to != 0 then " " else "";
    if t[..argEnd] <= arg {
      if nv.Delete? {
        if n != 0 {
          n := n - 1;
        }
        assert buf[..n] == old(buf[..to]);
        return n;
      }
      var len := CopyIn(buf, max, n, t[..argEnd], nv);
      if len < 0 {
        return len;
      }
      assert sofar + Piece(Name(t), nv) == Append(old(buf[..to]), Piece(Name(t), nv));
      return n + len;
    }
    if n + |t| >= max {
      return 0 - E2BIG;
    }
    Put(buf, n, t);
    assert sofar + t == Append(old(buf[..to]), t);
    return n + |t|;
  }

  /** The buffer holds what the outcome says, or the code reports it. */
  ghost predicate Delivers(o: Outcome, buf: seq<char>, max: int, ret: int) {
    match o
    case Fails(code) => ret == 0 - code
    case Writes(text) => ret == |text| + 1 <= max <= |buf| && buf[..|text|] == text && buf[|text|] == '\0'
  }

  lemma Appended(sofar: string, out: string, piece: string)
    requires sofar == out + if out != "" then " " else ""
    ensures sofar + piece == Append(out, piece)
  {
  }

  /** The argument is added behind what has been written. */
  method AddArg(buf: array<char>, max: int, to: nat, arg: string, nv: NewVal) returns (ret: int)
    requires to < max <= buf.Length && !nv.Delete? && NoTrail(buf[..to])
    modifies buf
    ensures SameFrom(buf[..], old(buf[..]), max)
    ensures var full := Append(old(buf[..to]), Piece(arg, nv));
            if |full| >= max then ret == 0 - E2BIG else 0 <= ret == |full| && buf[..ret] == full
  {
    var n := to;
    if n != 0 && buf[n - 1] != ' ' {
      buf[n] := ' ';
      n := n + 1;
    }
    ghost var sofar := buf[..n];
    assert sofar == old(buf[..to]) + if to != 0 then " " else "";
    Appended(sofar, old(buf[..to]), Piece(arg, nv));
    var len := CopyIn(buf, max, n, arg, nv);
    return if len < 0 then len else n + len;
  }

  /** After the loop: the argument is added if none matched, a trailing space goes, a NUL comes. */
  method Finish(buf: array<char>, max: int, to: nat, found: bool, arg: string, nv: NewVal) returns (ret: int)
    requires max <= buf.Length && to <= buf.Length && (to < max || (to == 0 && !found))
    requires !found ==> NoTrail(buf[..to])
    modifies buf
    ensures SameFrom(buf[..], old(buf[..]), max)
    ensures var out := old(buf[..to]);
            Delivers(if found then Writes(Trim(out)) else Added(out, arg, nv, max), buf[..], max, ret)
  {
    var n: int := to;
    if !found {
      if nv.Delete? {
        return 0 - ENOENT;
      }
      if n >= max {
        return 0 - E2BIG;
      }
      n := AddArg(buf, max, n, arg, nv);
      if n < 0 {
        return n;
      }
    }
    ret := Close(buf, max, n);
  }

  method Close(buf: array<char>, max: int, to: nat) returns (ret: int)
    requires to < max <= buf.Length
    modifies buf
    ensures SameFrom(buf[..], old(buf[..]), max)
    ensures Delivers(Writes(Trim(old(buf[..to]))), buf[..], max, ret)
  {
    var n := to;
    if n > 0 && buf[n - 1] == ' ' {
      n := n - 1;
    }
    buf[n] := '\0';
    assert buf[..n] == Trim(old(buf[..to]));
    return n + 1;
  }

  /** `out` has been written, and the rest of the line decides what becomes of the whole. */
  ghost predicate Pending(whole: Outcome, line: string, from: nat, out: string, found: bool, arg: string, nv: NewVal,
                          max: int) {
    && from <= |line| && (!found ==> NoTrail(out))
    && whole == Final(out, found, Tokens(line[from..]), arg, nv, max)
  }

  lemma PendingUnclosed(whole: Outcome, line: string, from: nat, out: string, found: bool, arg: string, nv: NewVal,
                        max: int)
    requires Pending(whole, line, from, out, found, arg, nv, max) && |out| < max
    requires from < |line| && line[from] != ' ' && TokenEnd(line[from..], 0) < 0
    ensures whole == Fails(EINVAL)
  {
  }

  lemma PendingDone(whole: Outcome, line: string, out: string, found: bool, arg: string, nv: NewVal, max: int)
    requires Pending(whole, line, |line|, out, found, arg, nv, max) && |out| < max
    ensures whole == if found then Writes(Trim(out)) else Added(out, arg, nv, max)
  {
    assert line[|line|..] == "";
  }

  lemma PendingFull(whole: Outcome, line: string, from: nat, out: string, found: bool, arg: string, nv: NewVal,
                    max: int)
    requires Pending(whole, line, from, out, found, arg, nv, max) && |out| >= max
    ensures whole == Fails(E2BIG)
  {
  }

  lemma PendingNext(whole: Outcome, line: string, from: nat, valEnd: nat, from': nat, out: string, found: bool,
                    arg: string, nv: NewVal, max: int)
    requires Pending(whole, line, from, out, found, arg, nv, max)
    requires from < |line| && line[from] != ' ' && from < valEnd <= |line| && valEnd == from + TokenEnd(line[from..], 0)
    requires from' == valEnd || (from' == valEnd + 1 <= |line| && line[valEnd] == ' ')
    ensures var t := line[from..valEnd];
            var next := After(out, t, arg, nv);
            Pending(whole, line, from', next, found || Matches(t, arg), arg, nv, max)
                && (|next| >= max ==> whole == Fails(E2BIG))
  {
    var t := line[from..valEnd];
    NextArg(line, from, valEnd);
    FinalStep(out, found, t, Tokens(line[valEnd..]), arg, nv, max);
    PieceLast(t);
    SkipOne(line, valEnd, from');
  }

  lemma SkipOne(line: string, valEnd: nat, from': nat)
    requires valEnd <= |line| && (from' == valEnd || (from' == valEnd + 1 <= |line| && line[valEnd] == ' '))
    ensures Tokens(line[from'..]) == Tokens(line[valEnd..])
  {
    if from' == valEnd + 1 { assert line[valEnd..][1..] == line[valEnd + 1..]; }
  }

  /** The loop's work on the argument at `from`. */
  method Round(buf: array<char>, max: int, line: string, from: nat, to: nat, arg: string, nv: NewVal, found: bool,
               ghost whole: Outcome)
    returns (ret: int, from': nat, found': bool)
    requires from < |line| && line[from] != ' ' && to < max <= buf.Length
    requires Pending(whole, line, from, buf[..to], found, arg, nv, max)
    modifies buf
    ensures SameFrom(buf[..], old(buf[..]), max)
    ensures ret < 0 ==> whole == Fails(0 - ret)
    ensures ret >= 0 ==> ret < max && from < from' && Pending(whole, line, from', buf[..ret], found', arg, nv, max)
  {
    var valEnd, argEnd, hasVal := ScanArg(line, from);
    if valEnd < 0 {
      PendingUnclosed(whole, line, from, buf[..to], found, arg, nv, max);
      return 0 - EINVAL, from, found;
    }
    var t := line[from..valEnd];
    var hit := t[..argEnd - from] <= arg;
    from', found' := valEnd, found || hit;
    if hit && nv.Delete? && valEnd < |line| {
      from' := valEnd + 1;
    }
    PendingNext(whole, line, from, valEnd, from', buf[..to], found, arg, nv, max);
    ret := EditArg(buf, max, to, t, argEnd - from, arg, nv);
  }

  /** `cmdline_set_arg` with a buffer */
  method SetArg(buf: array<char>, max: int, line: string, arg: string, nv: NewVal) returns (ret: int)
    requires max <= buf.Length
    modifies buf
    ensures SameFrom(buf[..], old(buf[..]), max)
    ensures Delivers(SetOutcome(line, arg, nv, max), buf[..], max, ret)
  {
    if nv.Value? && '"' in nv.v {
      return 0 - EBADF;
    }
    if line == "" {
      ret := Finish(buf, max, 0, false, arg, nv);
      return;
    }
    var from, to: nat, found := 0, 0, false;
    ghost var whole := SetOutcome(line, arg, nv, max);
    assert line[0..] == line && buf[..0] == "";
    while from < |line|
      invariant to <= buf.Length && (to < max || (to == 0 && from == 0))
      invariant SameFrom(buf[..], old(buf[..]), max)
      invariant Pending(whole, line, from, buf[..to], found, arg, nv, max)
    {
      if to >= max {
        PendingFull(whole, line, from, buf[..to], found, arg, nv, max);
        return 0 - E2BIG;
      }
      from := SkipSpaces(line, from);
      if from == |line| {
        break;
      }
      var len;
      len, from, found := Round(buf, max, line, from, to, arg, nv, found, whole);
      if len < 0 {
        return len;
      }
      to := len;
    }
    PendingDone(whole, line, buf[..to], found, arg, nv, max);
    ret := Finish(buf, max, to, found, arg, nv);
  }
}
