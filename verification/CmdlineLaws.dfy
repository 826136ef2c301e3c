/** What editing a command line means for its arguments, and which value is found in the edited line. */
module CmdlineLaws {
  import opened CmdlineText
  import opened CmdlineEdit

  // ---------- finding an argument ----------

  datatype Lookup = Unclosed | Absent | Found(pos: nat, len: int)

  /** Where the value of an argument starts, and its length; a closing quote counts as two. */
  function ValueStart(t: string): nat
    requires t != ""
  {
    (if NameLen(t) < |t| then NameLen(t) + 1 else |t|) + (if t[|t| - 1] == '"' then 1 else 0)
  }

  function ValueLen(t: string): int
    requires t != ""
  {
    |t| - (if NameLen(t) < |t| then NameLen(t) + 1 else |t|) - (if t[|t| - 1] == '"' then 2 else 0)
  }

  /** `cmdline_get_arg` on the text `s`, which starts at offset `off` of the line. */
  function Find(s: string, off: nat, arg: string): Lookup
    decreases |s|
  {
    if s == "" then Absent
    else if s[0] == ' ' then Find(s[1..], off + 1, arg)
    else
      var e := TokenEnd(s, 0);
      if e < 0 then Unclosed
      else if e == 0 then Absent
      else if Matches(s[..e], arg) then Found(off + ValueStart(s[..e]), ValueLen(s[..e]))
      else Find(s[e..], off + e, arg)
  }

  lemma {:induction false} FindSkips(line: string, from: nat, r: nat, arg: string)
    requires from <= r <= |line| && forall k :: from <= k < r ==> line[k] == ' '
    ensures Find(line[from..], from, arg) == Find(line[r..], r, arg)
    decreases r - from
  {
    if from < r {
      assert line[from..][1..] == line[from + 1..];
      FindSkips(line, from + 1, r, arg);
    }
  }

  /** The lookup at an argument of the line. */
  lemma FindStep(line: string, from: nat, arg: string)
    requires from < |line| && line[from] != ' '
    ensures var e := TokenEnd(line[from..], 0);
            var r := Find(line[from..], from, arg);
            if e < 0 then r == Unclosed
            else
              && e > 0 && from + e <= |line|
              && var t := line[from..from + e];
                 r == if Matches(t, arg) then Found(from + ValueStart(t), ValueLen(t))
                     else Find(line[from + e..], from + e, arg)
  {
    var s := line[from..];
    var e := TokenEnd(s, 0);
    if e >= 0 {
      TokenIsPiece(s, e);
      assert s[..e] == line[from..from + e] && s[e..] == line[from + e..];
    }
  }

  ghost predicate Answers(r: Lookup, ret: int, pos: nat) {
    match r
    case Unclosed => ret == 0 - EINVAL
    case Absent => ret == 0 - ENOENT
    case Found(p, len) => ret == len && pos == p
  }

  /** The rest of the line from `from` on decides the lookup. */
  ghost predicate Looking(whole: Lookup, line: string, from: nat, arg: string) {
    from <= |line| && whole == Find(line[from..], from, arg)
  }

  /** Name and value of the argument that was scanned, by its place in the line. */
  lemma ScannedValue(line: string, from: nat, valEnd: nat, argEnd: nat, hasVal: bool)
    requires from < valEnd <= |line|
    requires var t := line[from..valEnd];
             argEnd == from + NameLen(t) && (hasVal <==> NameLen(t) < |t|)
    ensures var (t, val) := (line[from..valEnd], if hasVal then argEnd + 1 else valEnd);
            var hasQuote := if line[valEnd - 1] == '"' then 1 else 0;
            && line[from..argEnd] == Name(t)
            && from + ValueStart(t) == val + hasQuote && ValueLen(t) == valEnd - val - 2 * hasQuote
  {
  }

  /** What an argument that was scanned decides. */
  lemma LookedAt(line: string, from: nat, arg: string, whole: Lookup, valEnd: nat, argEnd: nat, hasVal: bool)
    requires from < |line| && line[from] != ' ' && Looking(whole, line, from, arg)
    requires TokenEnd(line[from..], 0) >= 0 && valEnd == from + TokenEnd(line[from..], 0) && from < valEnd <= |line|
    requires var t := line[from..valEnd];
             argEnd == from + NameLen(t) && (hasVal <==> NameLen(t) < |t|)
    ensures var val := if hasVal then argEnd + 1 else valEnd;
            var hasQuote := if line[valEnd - 1] == '"' then 1 else 0;
            if line[from..argEnd] <= arg then whole == Found(val + hasQuote, valEnd - val - 2 * hasQuote)
            else Looking(whole, line, valEnd, arg)
  {
    FindStep(line, from, arg);
    ScannedValue(line, from, valEnd, argEnd, hasVal);
  }

  /** The loop's work on the argument at `from`: `more` if it is not the one. */
  method LookAt(line: string, from: nat, arg: string, ghost whole: Lookup) returns (more: bool, ret: int, pos: nat)
    requires from < |line| && line[from] != ' ' && Looking(whole, line, from, arg)
    ensures !more ==> Answers(whole, ret, pos)
    ensures more ==> from < pos && Looking(whole, line, pos, arg)
  {
    var valEnd, argEnd, hasVal := ScanArg(line, from);
    if valEnd < 0 {
      FindStep(line, from, arg);
      return false, 0 - EINVAL, 0;
    }
    LookedAt(line, from, arg, whole, valEnd, argEnd, hasVal);
    if line[from..argEnd] <= arg {
      var val := if hasVal then argEnd + 1 else valEnd;
      var hasQuote := if line[valEnd - 1] == '"' then 1 else 0;
      return false, valEnd - val - 2 * hasQuote, val + hasQuote;
    }
    return true, 0, valEnd;
  }

  /** `cmdline_get_arg`: the length of the value or an error code, and its position. */
  method GetArg(line: string, arg: string) returns (ret: int, pos: nat)
    ensures Answers(Find(line, 0, arg), ret, pos)
  {
    var from := 0;
    ghost var whole := Find(line, 0, arg);
    assert line[0..] == line;
    while from < |line|
      invariant Looking(whole, line, from, arg)
    {
      var start := SkipSpaces(line, from);
      FindSkips(line, from, start, arg);
      from := start;
      if from == |line| {
        break;
      }
      var more;
      more, ret, pos := LookAt(line, from, arg, whole);
      if !more {
        return;
      }
      from := pos;
    }
    assert line[|line|..] == "";
    return 0 - ENOENT, 0;
  }

  // ---------- the arguments after an edit ----------

  lemma PieceConcat(a: string, b: string)
    requires IsPiece(a) && IsPiece(b)
    ensures IsPiece(a + b)
  {
    InQuoteConcat(a, b);
    forall i | 0 <= i < |a + b| && (a + b)[i] == ' ' ensures InQuote((a + b)[..i]) {
      if i < |a| {
        assert (a + b)[..i] == a[..i];
      } else {
        assert (a + b)[..i] == a + b[..i - |a|];
        InQuoteConcat(a, b[..i - |a|]);
      }
    }
  }

  /** No space and no quote. */
  predicate Plain(s: string) { ' ' !in s && '"' !in s }

  lemma PlainIsPiece(s: string)
    requires Plain(s)
    ensures IsPiece(s)
  {
    NoQuotes(s);
  }

  lemma OneQuote()
    ensures InQuote("\"")
  {
    assert "\""[..0] == "";
  }

  /** Everything between two quotes is in quotes. */
  lemma InsideQuotes(v: string, i: nat)
    requires '"' !in v && 0 < i <= |v| + 1
    ensures InQuote(("\"" + v + "\"")[..i])
  {
    assert ("\"" + v + "\"")[..i] == "\"" + v[..i - 1];
    OneQuote();
    NoQuotes(v[..i - 1]);
    InQuoteConcat("\"", v[..i - 1]);
  }

  lemma QuotedIsPiece(v: string)
    requires '"' !in v
    ensures IsPiece(Quoted(v))
  {
    if ' ' in v {
      var q := "\"" + v + "\"";
      InsideQuotes(v, |v| + 1);
      assert q[..|q| - 1] == q[..|v| + 1];
      forall i | 0 <= i < |q| && q[i] == ' ' ensures InQuote(q[..i]) { InsideQuotes(v, i); }
    } else {
      PlainIsPiece(v);
    }
  }

  lemma NameIsPiece(t: string)
    requires IsPiece(t)
    ensures IsPiece(Name(t))
  {
    var n := NameLen(t);
    if n == |t| { assert t[..n] == t; }
    forall i | 0 <= i < n && t[i] == ' ' ensures InQuote(t[..n][..i]) { assert t[..n][..i] == t[..i]; }
  }

  predicate Settable(nv: NewVal) { nv.Value? ==> '"' !in nv.v }

  lemma NewPieceIsPiece(name: string, nv: NewVal)
    requires IsPiece(name) && !nv.Delete? && Settable(nv)
    ensures IsPiece(Piece(name, nv))
  {
    if nv.Value? {
      QuotedIsPiece(nv.v);
      PlainIsPiece("=");
      PieceConcat(name, "=");
      PieceConcat(name + "=", Quoted(nv.v));
    }
  }

  lemma {:induction false} EditedArePieces(args: seq<string>, arg: string, nv: NewVal)
    requires Settable(nv) && forall k :: 0 <= k < |args| ==> IsPiece(args[k])
    ensures forall k :: 0 <= k < |Edited(args, arg, nv)| ==> IsPiece(Edited(args, arg, nv)[k])
  {
    if args != [] {
      EditedArePieces(args[1..], arg, nv);
      if Matches(args[0], arg) && !nv.Delete? {
        NameIsPiece(args[0]);
        NewPieceIsPiece(Name(args[0]), nv);
      }
    }
  }

  /** The arguments a line is made of after an edit. */
  ghost function NewArgs(line: string, arg: string, nv: NewVal): seq<string> {
    var args := Tokens(line).args;
    Edited(args, arg, nv) + if AnyMatch(args, arg) || nv.Delete? then [] else [Piece(arg, nv)]
  }

  lemma {:induction false} JoinMore(out: string, a: seq<string>, p: string)
    ensures Join(out, a + [p]) == Append(Join(out, a), p)
    decreases |a|
  {
    if a == [] {
      assert [] + [p] == [p] && [p][1..] == [];
      assert Join(Append(out, p), []) == Append(out, p);
    } else {
      assert (a + [p])[0] == a[0] && (a + [p])[1..] == a[1..] + [p];
      JoinMore(Append(out, a[0]), a[1..], p);
    }
  }

  /** A successful edit writes the new arguments with single spaces between them, all within the buffer. */
  lemma WrittenText(line: string, arg: string, nv: NewVal, max: int)
    requires SetOutcome(line, arg, nv, max).Writes?
    ensures Settable(nv) && SetOutcome(line, arg, nv, max).text == Trim(Join("", NewArgs(line, arg, nv)))
    ensures |Join("", NewArgs(line, arg, nv))| < max
    ensures nv.Delete? ==> AnyMatch(Tokens(line).args, arg)
  {
    var p := Tokens(line);
    var kept := Edited(p.args, arg, nv);
    if AnyMatch(p.args, arg) || nv.Delete? {
      assert kept + [] == kept;
    } else {
      JoinMore("", kept, Piece(arg, nv));
    }
  }

  /** An argument can be read back on its own: only an added one may fail to. */
  ghost predicate Addable(line: string, arg: string, nv: NewVal) {
    AnyMatch(Tokens(line).args, arg) || nv.Delete? || IsPiece(arg)
  }

  lemma NewArgsArePieces(line: string, arg: string, nv: NewVal)
    requires Settable(nv) && Addable(line, arg, nv)
    ensures forall k :: 0 <= k < |NewArgs(line, arg, nv)| ==> IsPiece(NewArgs(line, arg, nv)[k])
  {
    TokensArePieces(line);
    EditedArePieces(Tokens(line).args, arg, nv);
    if !nv.Delete? && IsPiece(arg) { NewPieceIsPiece(arg, nv); }
  }

  /** Nothing that is put behind a bad name makes it good. */
  lemma BadName(arg: string, nv: NewVal)
    requires !IsPiece(arg) && !nv.Delete? && Settable(nv)
    ensures !IsPiece(Piece(arg, nv))
  {
    if nv.Value? {
      var t := Piece(arg, nv);
      if InQuote(arg) {
        QuotedIsPiece(nv.v);
        PlainIsPiece("=");
        InQuoteConcat(arg, "=");
        InQuoteConcat(arg + "=", Quoted(nv.v));
      } else {
        var i :| 0 <= i < |arg| && arg[i] == ' ' && !InQuote(arg[..i]);
        assert t[i] == ' ' && t[..i] == arg[..i];
      }
    }
  }

  /**
   The arguments of the written line: those of the old one, each matching one rewritten or left
   out and every other one unchanged in its place, and the new one behind them if none matched.
   An argument that was rewritten to nothing disappears. That is so exactly when an added name
   has its quotes closed and its spaces quoted.
   */
  lemma SetMeansEditedIff(line: string, arg: string, nv: NewVal, max: int)
    requires SetOutcome(line, arg, nv, max).Writes?
    ensures Tokens(SetOutcome(line, arg, nv, max).text) == Parsed(NonEmpty(NewArgs(line, arg, nv)), true)
            <==> Addable(line, arg, nv)
  {
    WrittenText(line, arg, nv, max);
    var text := SetOutcome(line, arg, nv, max).text;
    if Addable(line, arg, nv) {
      SetMeansEdited(line, arg, nv, max);
    } else {
      BadName(arg, nv);
      var p := Piece(arg, nv);
      NonEmptyMore(Edited(Tokens(line).args, arg, nv), p);
      TokensArePieces(text);
      var all := NonEmpty(NewArgs(line, arg, nv));
      assert all[|all| - 1] == p;
    }
  }

  lemma SetMeansEdited(line: string, arg: string, nv: NewVal, max: int)
    requires SetOutcome(line, arg, nv, max).Writes? && Addable(line, arg, nv)
    ensures Tokens(SetOutcome(line, arg, nv, max).text) == Parsed(NonEmpty(NewArgs(line, arg, nv)), true)
  {
    WrittenText(line, arg, nv, max);
    NewArgsArePieces(line, arg, nv);
    var pieces := NewArgs(line, arg, nv);
    JoinTokens("", pieces);
    assert [] + NonEmpty(pieces) == NonEmpty(pieces);
    TrimTokens(Join("", pieces));
  }

  // ---------- setting, then getting ----------

  /** The first argument whose name matches, or |args|. */
  function First(args: seq<string>, arg: string): (k: nat)
    ensures k <= |args| && (k < |args| ==> Matches(args[k], arg)) && forall j :: 0 <= j < k ==> !Matches(args[j], arg)
  {
    if args == [] then 0 else if Matches(args[0], arg) then 0 else 1 + First(args[1..], arg)
  }

  /** A lookup that answers with argument `k` of `args`, at its place in the whole line. */
  ghost predicate Picks(full: string, r: Lookup, args: seq<string>, k: nat)
    requires k <= |args|
  {
    if k == |args| then !r.Found?
    else args[k] != "" && r.Found? && r.len == ValueLen(args[k]) && At(full, r.pos, args[k])
  }

  /** The lookup answers with the first matching argument. */
  lemma {:induction false} FindIsFirst(full: string, s: string, off: nat, arg: string)
    requires off <= |full| && full[off..] == s
    ensures Picks(full, Find(s, off, arg), Tokens(s).args, First(Tokens(s).args, arg))
    decreases |s|
  {
    if s == "" || (s[0] != ' ' && TokenEnd(s, 0) < 0) {
    } else if s[0] == ' ' {
      FindIsFirst(full, s[1..], off + 1, arg);
    } else {
      var e := TokenEnd(s, 0);
      TokenIsPiece(s, e);
      FindIsFirst(full, s[e..], off + e, arg);
      FindToken(full, s, off, e, arg);
    }
  }

  lemma FindCons(s: string, off: nat, e: nat, arg: string)
    requires s != "" && s[0] != ' ' && e == TokenEnd(s, 0) && e > 0
    ensures Find(s, off, arg) == if Matches(s[..e], arg) then Found(off + ValueStart(s[..e]), ValueLen(s[..e]))
            else Find(s[e..], off + e, arg)
  {
  }

  lemma StandsThere(full: string, s: string, off: nat, e: nat)
    requires off <= |full| && full[off..] == s && e <= |s|
    ensures StandsAt(full, off, s[..e])
  {
    assert full[off..off + e] == full[off..][..e];
  }

  lemma FindToken(full: string, s: string, off: nat, e: nat, arg: string)
    requires off <= |full| && full[off..] == s && s != "" && s[0] != ' ' && e == TokenEnd(s, 0) && e > 0
    requires Picks(full, Find(s[e..], off + e, arg), Tokens(s[e..]).args, First(Tokens(s[e..]).args, arg))
    ensures Picks(full, Find(s, off, arg), Tokens(s).args, First(Tokens(s).args, arg))
  {
    var t, rest := s[..e], Tokens(s[e..]).args;
    TokensCons(s, e);
    FirstCons(t, rest, arg);
    FindCons(s, off, e, arg);
    StandsThere(full, s, off, e);
    if Matches(t, arg) {
      PicksHere(full, off, t, rest);
    } else {
      PicksCons(full, Find(s[e..], off + e, arg), t, rest, First(rest, arg));
    }
  }

  lemma PicksHere(full: string, off: nat, t: string, rest: seq<string>)
    requires StandsAt(full, off, t) && t != ""
    ensures Picks(full, Found(off + ValueStart(t), ValueLen(t)), [t] + rest, 0)
  {
    assert At(full, off + ValueStart(t), t);
  }

  lemma FirstCons(t: string, rest: seq<string>, arg: string)
    ensures First([t] + rest, arg) == if Matches(t, arg) then 0 else 1 + First(rest, arg)
  {
    assert ([t] + rest)[1..] == rest;
  }

  lemma PicksCons(full: string, r: Lookup, t: string, rest: seq<string>, k: nat)
    requires k <= |rest| && Picks(full, r, rest, k)
    ensures Picks(full, r, [t] + rest, k + 1)
  {
  }

  /** Argument `t` stands in the line so that its value is at `pos`. */
  ghost predicate At(full: string, pos: nat, t: string)
    requires t != ""
  {
    exists start: nat :: StandsAt(full, start, t) && pos == start + ValueStart(t)
  }

  predicate StandsAt(full: string, start: nat, t: string) { start + |t| <= |full| && full[start..start + |t|] == t }

  /** The lookup in `out` yields exactly `v`. */
  ghost predicate Gets(out: string, arg: string, v: string) {
    var r := Find(out, 0, arg);
    r.Found? && Reads(out, r.pos, r.len, v)
  }

  predicate Reads(out: string, pos: nat, len: int, v: string) {
    0 <= len && pos + len <= |out| && out[pos..pos + len] == v
  }

  predicate Readable(v: string) { '=' !in v || ' ' in v }

  lemma NameLenIs(t: string, n: nat)
    requires n < |t| && EqAt(t, n) && forall k: nat :: n < k < |t| ==> !EqAt(t, k)
    ensures NameLen(t) == n
  {
  }

  /** A readable value ends the name where it should. */
  lemma ReadableName(name: string, v: string)
    requires IsPiece(name) && '"' !in v && Readable(v)
    ensures NameLen(Piece(name, Value(v))) == |name|
  {
    var t := Piece(name, Value(v));
    assert t[..|name|] == name;
    forall k: nat | |name| < k < |t| ensures !EqAt(t, k) {
      var i := k - |name| - 1;
      assert t[k] == Quoted(v)[i];
      if ' ' in v && 0 < i <= |v| {
        assert t[..k] == name + "=" + Quoted(v)[..i];
        InsideQuotes(v, i);
        PlainIsPiece("=");
        PieceConcat(name, "=");
        InQuoteConcat(name + "=", Quoted(v)[..i]);
      }
    }
    NameLenIs(t, |name|);
  }

  /** An unreadable value is cut at its own last '='. */
  lemma UnreadableName(name: string, v: string)
    requires IsPiece(name) && '"' !in v && !Readable(v)
    ensures |name| < NameLen(Piece(name, Value(v))) < |Piece(name, Value(v))|
  {
    var t := Piece(name, Value(v));
    var i :| 0 <= i < |v| && v[i] == '=';
    EqBehind(t, name, v, i);
    assert EqAt(t, |name| + 1 + i);
  }

  /** An '=' in a value without quotes counts. */
  lemma EqBehind(t: string, name: string, v: string, i: nat)
    requires t == name + ['='] + v && IsPiece(name) && '"' !in v && i < |v| && v[i] == '='
    ensures EqAt(t, |name| + 1 + i)
  {
    var w := ['='] + v[..i];
    assert t[..|name| + 1 + i] == name + w;
    assert '"' !in w;
    NoQuotes(w);
    InQuoteConcat(name, w);
  }

  lemma PieceEnds(name: string, v: string)
    requires '"' !in v
    ensures var t := Piece(name, Value(v));
            t != "" && (t[|t| - 1] == '"' <==> ' ' in v)
  {
  }

  lemma Slice(s: string, start: nat, n: nat, i: nat, m: nat)
    requires start + n <= |s| && i + m <= n
    ensures s[start..start + n][i..i + m] == s[start + i..start + i + m]
  {
    var (a, b) := (s[start..start + n][i..i + m], s[start + i..start + i + m]);
    forall j | 0 <= j < m ensures a[j] == b[j] { assert a[j] == s[start..start + n][i + j]; }
  }

  lemma ReadsWithin(full: string, start: nat, t: string, pos: nat, len: int, v: string)
    requires StandsAt(full, start, t) && Reads(t, pos, len, v)
    ensures Reads(full, start + pos, len, v)
  {
    Slice(full, start, |t|, pos, |v|);
  }

  lemma ReadableValue(t: string, name: string, v: string)
    requires t == Piece(name, Value(v)) && t != "" && IsPiece(name) && '"' !in v && Readable(v)
    ensures Reads(t, ValueStart(t), ValueLen(t), v)
  {
    PieceEnds(name, v);
    ReadableName(name, v);
    var q := |name| + 1 + if ' ' in v then 1 else 0;
    assert ValueStart(t) == q;
    forall i | 0 <= i < |v| ensures t[q..q + |v|][i] == v[i] { assert t[q + i] == v[i]; }
  }

  lemma ReadsLength(out: string, pos: nat, len: int, v: string)
    ensures Reads(out, pos, len, v) ==> len == |v|
  {
  }

  lemma UnreadableValue(t: string, name: string, v: string)
    requires t == Piece(name, Value(v)) && t != "" && IsPiece(name) && '"' !in v && !Readable(v)
    ensures ValueLen(t) < |v|
  {
    PieceEnds(name, v);
    UnreadableName(name, v);
  }

  /** Rewritten with `v`, from a name that matches. */
  ghost predicate Rewritten(t: string, arg: string, v: string) {
    exists name: string :: t == Piece(name, Value(v)) && IsPiece(name) && name <= arg
  }

  ghost predicate Kind(t: string, arg: string, v: string) { !Matches(t, arg) || Rewritten(t, arg, v) }

  /** Every argument either does not match or was rewritten, and, if `some`, one was. */
  ghost predicate Kinds(args: seq<string>, arg: string, v: string, some: bool) {
    && (forall k :: 0 <= k < |args| ==> Kind(args[k], arg, v))
    && (some ==> exists k :: 0 <= k < |args| && Rewritten(args[k], arg, v))
  }

  lemma KindsCons(t: string, rest: seq<string>, arg: string, v: string, hit: bool, some: bool)
    requires Kind(t, arg, v) && (hit ==> Rewritten(t, arg, v)) && Kinds(rest, arg, v, some)
    ensures Kinds([t] + rest, arg, v, hit || some)
  {
    var args := [t] + rest;
    assert forall k :: 0 < k < |args| ==> args[k] == rest[k - 1];
    if hit {
      assert Rewritten(args[0], arg, v);
    } else if some {
      var k :| 0 <= k < |rest| && Rewritten(rest[k], arg, v);
      assert Rewritten(args[k + 1], arg, v);
    }
  }

  lemma EditKind(t: string, arg: string, v: string)
    requires IsPiece(t) && t != ""
    ensures var one := EditOne(t, arg, Value(v));
            && |one| == 1 && one[0] != "" && Kind(one[0], arg, v)
            && (Matches(t, arg) ==> Rewritten(one[0], arg, v))
  {
    if Matches(t, arg) {
      NameIsPiece(t);
      var p := Piece(Name(t), Value(v));
      assert Rewritten(p, arg, v);
      assert EditOne(t, arg, Value(v)) == [p];
    }
  }

  lemma {:induction false} EditedKinds(args: seq<string>, arg: string, v: string)
    requires forall k :: 0 <= k < |args| ==> IsPiece(args[k]) && args[k] != ""
    ensures Kinds(NonEmpty(Edited(args, arg, Value(v))), arg, v, AnyMatch(args, arg))
  {
    if args != [] {
      var one := EditOne(args[0], arg, Value(v));
      var rest := Edited(args[1..], arg, Value(v));
      EditedKinds(args[1..], arg, v);
      EditKind(args[0], arg, v);
      MatchStep(args[0], args[1..], arg);
      assert args == [args[0]] + args[1..];
      assert (one + rest)[0] == one[0] && (one + rest)[1..] == rest;
      KindsCons(one[0], NonEmpty(rest), arg, v, Matches(args[0], arg), AnyMatch(args[1..], arg));
    }
  }

  lemma {:induction false} NonEmptyMore(a: seq<string>, p: string)
    requires p != ""
    ensures NonEmpty(a + [p]) == NonEmpty(a) + [p]
    decreases |a|
  {
    if a == [] {
      assert [] + [p] == [p] && [p][1..] == [];
      assert [p] + [] == [p];
    } else {
      assert (a + [p])[0] == a[0] && (a + [p])[1..] == a[1..] + [p];
      NonEmptyMore(a[1..], p);
      Assoc(One(a[0]), NonEmpty(a[1..]), [p]);
    }
  }

  lemma NewKinds(line: string, arg: string, v: string)
    requires Addable(line, arg, Value(v)) && '"' !in v
    ensures Kinds(NonEmpty(NewArgs(line, arg, Value(v))), arg, v, true)
  {
    var args := Tokens(line).args;
    var kept := Edited(args, arg, Value(v));
    TokensArePieces(line);
    EditedKinds(args, arg, v);
    if AnyMatch(args, arg) {
      assert kept + [] == kept;
    } else {
      var p := Piece(arg, Value(v));
      assert Rewritten(p, arg, v);
      NonEmptyMore(kept, p);
      KindsMore(NonEmpty(kept), p, arg, v);
    }
  }

  lemma KindsMore(args: seq<string>, p: string, arg: string, v: string)
    requires Kinds(args, arg, v, false) && Rewritten(p, arg, v)
    ensures Kinds(args + [p], arg, v, true)
  {
    var all := args + [p];
    forall k | 0 <= k < |all| ensures Kind(all[k], arg, v) { if k < |args| { assert all[k] == args[k]; } }
    assert all[|args|] == p;
  }

  /** With a readable value every rewritten argument is found by its name. */
  lemma RewrittenMatches(t: string, arg: string, v: string)
    requires Rewritten(t, arg, v) && '"' !in v && Readable(v)
    ensures Matches(t, arg)
  {
    var name: string :| t == Piece(name, Value(v)) && IsPiece(name) && name <= arg;
    ReadableName(name, v);
    assert Name(t) == name;
  }

  lemma GetsIff(out: string, arg: string, v: string)
    requires '"' !in v && Kinds(Tokens(out).args, arg, v, true)
    ensures Gets(out, arg, v) <==> Readable(v)
  {
    assert out[0..] == out;
    FindIsFirst(out, out, 0, arg);
    PicksIff(out, Find(out, 0, arg), Tokens(out).args, First(Tokens(out).args, arg), arg, v);
  }

  /** A rewritten argument says `v` exactly when `v` is readable. */
  lemma RewrittenSays(t: string, arg: string, v: string)
    requires '"' !in v && t != "" && Rewritten(t, arg, v)
    ensures if Readable(v) then Reads(t, ValueStart(t), ValueLen(t), v) else ValueLen(t) < |v|
  {
    var name: string :| t == Piece(name, Value(v)) && IsPiece(name) && name <= arg;
    if Readable(v) { ReadableValue(t, name, v); } else { UnreadableValue(t, name, v); }
  }

  /** The same at its place in the line. */
  lemma RewrittenValue(out: string, pos: nat, t: string, arg: string, v: string)
    requires '"' !in v && t != "" && Rewritten(t, arg, v) && At(out, pos, t)
    ensures Reads(out, pos, ValueLen(t), v) <==> Readable(v)
  {
    var start: nat :| StandsAt(out, start, t) && pos == start + ValueStart(t);
    RewrittenThere(out, start, t, arg, v);
  }

  lemma RewrittenThere(out: string, start: nat, t: string, arg: string, v: string)
    requires '"' !in v && t != "" && Rewritten(t, arg, v) && StandsAt(out, start, t)
    ensures Reads(out, start + ValueStart(t), ValueLen(t), v) <==> Readable(v)
  {
    RewrittenSays(t, arg, v);
    ReadsThere(out, start, t, v);
  }

  /** What an argument says it also says at its place in the line. */
  lemma ReadsThere(out: string, start: nat, t: string, v: string)
    requires t != "" && StandsAt(out, start, t)
    requires if Readable(v) then Reads(t, ValueStart(t), ValueLen(t), v) else ValueLen(t) < |v|
    ensures Reads(out, start + ValueStart(t), ValueLen(t), v) <==> Readable(v)
  {
    var (pos, len) := (ValueStart(t), ValueLen(t));
    if Readable(v) { ReadsWithin(out, start, t, pos, len, v); } else { ReadsLength(out, start + pos, len, v); }
  }

  lemma PicksIff(out: string, r: Lookup, args: seq<string>, k: nat, arg: string, v: string)
    requires '"' !in v && Kinds(args, arg, v, true) && k == First(args, arg) && Picks(out, r, args, k)
    ensures (r.Found? && Reads(out, r.pos, r.len, v)) <==> Readable(v)
  {
    if k < |args| {
      assert Kind(args[k], arg, v);
      RewrittenValue(out, r.pos, args[k], arg, v);
    } else if Readable(v) {
      NoneFound(args, arg, v);
      assert false;
    }
  }

  /** With a readable value the lookup cannot miss. */
  lemma NoneFound(args: seq<string>, arg: string, v: string)
    requires '"' !in v && Readable(v) && Kinds(args, arg, v, true)
    ensures First(args, arg) < |args|
  {
    var j :| 0 <= j < |args| && Rewritten(args[j], arg, v);
    RewrittenMatches(args[j], arg, v);
  }

  // ---------- an example on the failing side ----------

  /** Setting `a b` to `x` in an empty line writes two arguments where one was meant. */
  lemma SpacedNameSplits()
    ensures var r := SetOutcome("", "a b", Value("x"), 6);
            && r == Writes("a b=x") && Tokens(r.text) == Parsed(["a", "b=x"], true)
            && !Addable("", "a b", Value("x")) && NewArgs("", "a b", Value("x")) == ["a b=x"]
  {
    assert Piece("a b", Value("x")) == "a b=x";
    TwoArguments();
    PlainIsPiece("a");
    assert !IsPiece("a b") by { assert "a b"[1] == ' ' && "a b"[..1] == "a"; }
    assert [] + ["a b=x"] == ["a b=x"];
  }

  lemma TwoArguments()
    ensures Tokens("a b=x") == Parsed(["a", "b=x"], true)
  {
    PlainIsPiece("a");
    PlainIsPiece("b=x");
    TokensConcat("a", "b=x");
    TokensOfPiece("a");
    TokensOfPiece("b=x");
    assert "a" + " " + "b=x" == "a b=x";
    assert ["a"] + ["b=x"] == ["a", "b=x"];
  }
}
