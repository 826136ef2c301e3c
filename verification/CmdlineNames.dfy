/**
 When the value that was set in a command line is the value that is found again, also for names that
 do not read as one argument: those with an open quote, an unquoted space, or a space in front.
 */
module CmdlineNames {
  import opened CmdlineText
  import opened CmdlineEdit
  import opened CmdlineLaws

  // ---------- adding an argument behind the old ones ----------

  /** An edit that matches nothing changes nothing. */
  lemma {:induction false} NothingEdited(args: seq<string>, arg: string, nv: NewVal)
    requires !AnyMatch(args, arg)
    ensures Edited(args, arg, nv) == args
  {
    if args != [] {
      MatchStep(args[0], args[1..], arg);
      assert args == [args[0]] + args[1..];
      NothingEdited(args[1..], arg, nv);
    }
  }

  lemma {:induction false} AllNonEmpty(pieces: seq<string>)
    requires forall k :: 0 <= k < |pieces| ==> pieces[k] != ""
    ensures NonEmpty(pieces) == pieces
  {
    if pieces != [] {
      AllNonEmpty(pieces[1..]);
      assert pieces == [pieces[0]] + pieces[1..];
    }
  }

  lemma PieceKeepsEnd(arg: string, v: string)
    ensures var p := Piece(arg, Value(v));
            p != "" && p[|p| - 1] != ' '
  {
  }

  /** The old arguments, none of which matches, and the new one behind them. */
  lemma AddedBehind(line: string, arg: string, v: string, max: int)
    requires SetOutcome(line, arg, Value(v), max).Writes? && !AnyMatch(Tokens(line).args, arg)
    ensures Gets(SetOutcome(line, arg, Value(v), max).text, arg, v) <==> Gets(Piece(arg, Value(v)), arg, v)
  {
    var args, p := Tokens(line).args, Piece(arg, Value(v));
    WrittenText(line, arg, Value(v), max);
    NothingEdited(args, arg, Value(v));
    JoinMore("", args, p);
    PieceKeepsEnd(arg, v);
    var out := Append(Join("", args), p);
    assert out[|out| - 1] == p[|p| - 1];
    assert SetOutcome(line, arg, Value(v), max).text == out;
    TokensArePieces(line);
    AllNonEmpty(args);
    JoinTokens("", args);
    assert [] + args == args;
    if Join("", args) != "" { GetsBehind(Join("", args), p, arg, v); }
  }

  lemma GetsBehind(a: string, b: string, arg: string, v: string)
    requires !InQuote(a) && !AnyMatch(Tokens(a).args, arg)
    ensures Gets(a + " " + b, arg, v) <==> Gets(b, arg, v)
  {
    FindBehind(a, b, arg);
    ReadsBehind(a + " ", b, Find(b, 0, arg), Find(a + " " + b, 0, arg), v);
  }

  lemma FindBehind(a: string, b: string, arg: string)
    requires !InQuote(a) && !AnyMatch(Tokens(a).args, arg)
    ensures Find(a + " " + b, 0, arg) == Shifted(Find(b, 0, arg), |a + " "|)
  {
    FindConcat(a + " " + b, a, b, 0, arg);
    FindShift(b, |a| + 1, 0, arg);
  }

  lemma ReadsBehind(a: string, b: string, r: Lookup, q: Lookup, v: string)
    requires q == Shifted(r, |a|)
    ensures q.Found? && Reads(a + b, q.pos, q.len, v) <==> r.Found? && Reads(b, r.pos, r.len, v)
  {
    if r.Found? && 0 <= r.len && r.pos + r.len <= |b| {
      assert (a + b)[|a| + r.pos..|a| + r.pos + r.len] == b[r.pos..r.pos + r.len];
    }
  }

  /** A lookup passes over text in which nothing matches. */
  lemma {:induction false} FindConcat(s: string, a: string, b: string, off: nat, arg: string)
    requires s == a + [' '] + b && !InQuote(a) && !AnyMatch(Tokens(a).args, arg)
    ensures Find(s, off, arg) == Find(b, off + |a| + 1, arg)
    decreases |a|
  {
    if a == "" {
      assert s[1..] == b;
      FindBlank(s, off, arg);
    } else if a[0] == ' ' {
      BlankAhead(a, arg);
      DropFront(s, a, b, 1);
      FindConcat(s[1..], a[1..], b, off + 1, arg);
      FindBlank(s, off, arg);
    } else {
      var e := NoMatchAhead(a, arg);
      DropFront(s, a, b, e);
      FindConcat(s[e..], a[e..], b, off + e, arg);
      FindPast(s, a, b, off, e, arg);
    }
  }

  lemma DropFront(s: string, a: string, b: string, k: nat)
    requires s == a + [' '] + b && k <= |a|
    ensures s[k..] == a[k..] + [' '] + b
  {
  }

  lemma BlankAhead(a: string, arg: string)
    requires !InQuote(a) && !AnyMatch(Tokens(a).args, arg) && a != "" && a[0] == ' '
    ensures !InQuote(a[1..]) && !AnyMatch(Tokens(a[1..]).args, arg)
  {
    assert a[..1] == " ";
    SpaceQuotes();
    BalancedSuffix(a, 1);
  }

  lemma FindBlank(s: string, off: nat, arg: string)
    requires s != "" && s[0] == ' '
    ensures Find(s, off, arg) == Find(s[1..], off + 1, arg)
  {
  }

  /** The first word does not match, and nothing behind it does. */
  lemma NoMatchAhead(a: string, arg: string)
    returns (e: nat)
    requires !InQuote(a) && !AnyMatch(Tokens(a).args, arg) && a != "" && a[0] != ' '
    ensures e == TokenEnd(a, 0) && 0 < e <= |a| && !Matches(a[..e], arg)
    ensures !InQuote(a[e..]) && !AnyMatch(Tokens(a[e..]).args, arg)
  {
    SameEnd(a, "");
    e := TokenEnd(a, 0);
    TokenIsPiece(a, e);
    BalancedSuffix(a, e);
    TokensCons(a, e);
    MatchStep(a[..e], Tokens(a[e..]).args, arg);
  }

  lemma FindPast(s: string, a: string, b: string, off: nat, e: nat, arg: string)
    requires s == a + [' '] + b && !InQuote(a) && a != "" && a[0] != ' '
    requires e == TokenEnd(a, 0) && 0 < e <= |a| && !Matches(a[..e], arg)
    ensures Find(s, off, arg) == Find(s[e..], off + e, arg)
  {
    assert s == a + " " + b;
    SameEnd(a, b);
    assert s[..e] == a[..e];
    FindCons(s, off, e, arg);
  }

  function Shifted(r: Lookup, n: nat): Lookup {
    if r.Found? then Found(r.pos + n, r.len) else r
  }

  lemma {:induction false} FindShift(s: string, n: nat, off: nat, arg: string)
    ensures Find(s, off + n, arg) == Shifted(Find(s, off, arg), n)
    decreases |s|
  {
    if s != "" && s[0] == ' ' {
      FindShift(s[1..], n, off + 1, arg);
    } else if s != "" {
      var e := TokenEnd(s, 0);
      if e > 0 { FindShift(s[e..], n, off + e, arg); }
    }
  }

  /** A lookup that passes over `a` finds in `u` what it finds in `b`. */
  lemma GetsShifted(u: string, a: string, b: string, arg: string, v: string)
    requires u == a + b && Find(u, 0, arg) == Find(b, |a|, arg)
    ensures Gets(u, arg, v) <==> Gets(b, arg, v)
  {
    FindShift(b, |a|, 0, arg);
    ReadsBehind(a, b, Find(b, 0, arg), Find(u, 0, arg), v);
  }

  // ---------- names that do not read as one argument ----------

  /** `s`, in which a quote is open, with `="` and a value behind it: the value that its last '=' names. */
  predicate OpenSays(s: string, arg: string, v: string) {
    var p := LastEq(s, |s|);
    && 0 <= p && p + 2 <= |s| && s[..p] <= arg
    && v != "" && v[0] == ' ' && v == s[p + 2..] + "="
  }

  /**
   Does the text `s`, with '=' and the value `v` behind it, say `v` under the name `arg`? The first word
   that matches decides. A last word that is closed belongs to the '=', and an open one to the quote.
   */
  predicate Says(s: string, arg: string, v: string)
    decreases |s|
  {
    if s == "" then Readable(v)
    else if s[0] == ' ' then Says(s[1..], arg, v)
    else
      var e := TokenEnd(s, 0);
      if e < 0 then OpenSays(s, arg, v)
      else if e == |s| then false
      else if Matches(s[..e], arg) then Reads(s, ValueStart(s[..e]), ValueLen(s[..e]), v)
      else Says(s[e..], arg, v)
  }

  /** The name itself, if it does not read as one argument, or something behind a space it begins with. */
  ghost predicate Remains(s: string, arg: string) {
    arg != "" && (arg[0] == ' ' || (s == arg && !IsPiece(arg)))
  }

  /** A word that does not fit into the name does not match it. */
  lemma TooLong(t: string, s: string, arg: string)
    requires Remains(s, arg) && s != "" && s[0] != ' ' && s <= t && NameLen(t) >= |s| && (NameLen(t) > |s| || s != arg)
    ensures !Matches(t, arg)
  {
    assert Name(t)[0] == s[0];
  }

  /** A text that is one argument and does not match has no value. */
  lemma NothingIn(t: string, arg: string, v: string)
    requires IsPiece(t) && t != "" && !Matches(t, arg)
    ensures !Gets(t, arg, v)
  {
    assert t[..0] == "" && t[..|t|] == t;
    assert Stops(t, |t|);
    forall k: nat | k < |t| ensures !Stops(t, k) { }
    FindCons(t, 0, |t|, arg);
  }

  /** Nothing but '=' and the value is left. */
  lemma EmptySays(arg: string, v: string)
    requires arg != "" && arg[0] == ' ' && '"' !in v
    ensures Gets("=" + Quoted(v), arg, v) <==> Readable(v)
  {
    var t := Piece("", Value(v));
    assert t == "=" + Quoted(v);
    NewPieceIsPiece("", Value(v));
    if Readable(v) {
      ReadableName("", v);
      assert t[..0] == "" && t[..|t|] == t;
      assert Stops(t, |t|);
      forall k: nat | k < |t| ensures !Stops(t, k) { }
      FindCons(t, 0, |t|, arg);
      ReadableValue(t, "", v);
    } else {
      UnreadableName("", v);
      assert Name(t)[0] == '=';
      NothingIn(t, arg, v);
    }
  }

  /** The last word of the name belongs to the '='. */
  lemma LastWordSays(s: string, arg: string, v: string)
    requires arg != "" && arg[0] == ' ' && IsPiece(s) && s != "" && '"' !in v
    ensures !Gets(s + "=" + Quoted(v), arg, v)
  {
    var t := Piece(s, Value(v));
    NewPieceIsPiece(s, Value(v));
    assert s[0] != ' ' by { assert s[..0] == ""; }
    if Readable(v) { ReadableName(s, v); } else { UnreadableName(s, v); }
    TooLong(t, s, arg);
    NothingIn(t, arg, v);
  }

  /** An earlier word ends where it did. */
  lemma WordStays(s: string, e: nat, more: string)
    requires s != "" && s[0] != ' ' && TokenEnd(s, 0) == e && 0 < e < |s|
    ensures TokenEnd(s + more, 0) == e && (s + more)[..e] == s[..e]
  {
    var p := s + more;
    forall k: nat | k <= e ensures Stops(p, k) == Stops(s, k) { assert p[..k] == s[..k]; }
  }

  lemma WordSays(s: string, e: nat, more: string, arg: string, v: string)
    requires s != "" && s[0] != ' ' && TokenEnd(s, 0) == e && 0 < e < |s| && Matches(s[..e], arg)
    ensures Gets(s + more, arg, v) <==> Reads(s, ValueStart(s[..e]), ValueLen(s[..e]), v)
  {
    var (p, t) := (s + more, s[..e]);
    WordStays(s, e, more);
    FindCons(p, 0, e, arg);
    WithinWord(t);
    if 0 <= ValueLen(t) {
      assert p[ValueStart(t)..ValueStart(t) + ValueLen(t)] == s[ValueStart(t)..ValueStart(t) + ValueLen(t)];
    }
  }

  lemma WithinWord(t: string)
    requires t != ""
    ensures ValueLen(t) >= 0 ==> ValueStart(t) + ValueLen(t) <= |t|
  {
  }

  // ---------- an open quote ----------

  /** Behind an open quote nothing ends before the next one. */
  lemma StaysOpen(s: string, more: string, k: nat)
    requires InQuote(s) && '"' !in more && k <= |more|
    ensures InQuote(s + more[..k])
  {
    NoQuotes(more[..k]);
    InQuoteConcat(s, more[..k]);
  }

  /** A value without a space leaves the quote open. */
  lemma NeverCloses(s: string, more: string, arg: string, v: string)
    requires s != "" && s[0] != ' ' && TokenEnd(s, 0) < 0 && '"' !in more
    ensures !Gets(s + more, arg, v)
  {
    var p := s + more;
    assert s[..|s|] == s;
    assert !Stops(s, |s|);
    forall k: nat | k <= |p| ensures !Stops(p, k) {
      if k < |s| {
        assert p[..k] == s[..k] && !Stops(s, k);
      } else {
        StaysOpen(s, more, k - |s|);
        assert p[..k] == s + more[..k - |s|];
      }
    }
  }

  /** `u` is some words without quotes, and a quote. */
  predicate Trailing(u: string, w: string) { u == w + ['"'] && '"' !in w }

  /** Words without quotes have no spaces in them, so none says a value with a space. */
  lemma {:induction false} WordsSayNoSpace(u: string, w: string, arg: string, v: string)
    requires Trailing(u, w) && ' ' in v
    ensures !Gets(u, arg, v)
    decreases |w|
  {
    if w != "" && w[0] == ' ' {
      WordsSayNoSpace(u[1..], w[1..], arg, v);
      FindBlank(u, 0, arg);
      GetsShifted(u, [' '], u[1..], arg, v);
    } else {
      var e := TokenEnd(u, 0);
      if 0 <= e {
        WordEnds(u, w, e);
        assert u[e..] == w[e..] + ['"'];
        WordsSayNoSpace(u[e..], w[e..], arg, v);
        OneWord(u, w, e, arg, v);
      }
    }
  }

  lemma WordEnds(u: string, w: string, e: nat)
    requires Trailing(u, w) && u[0] != ' ' && TokenEnd(u, 0) == e
    ensures 0 < e <= |w|
  {
    NoQuotes(w);
    assert u[..|w|] == w && u[..|u|] == u;
    assert u[..|u| - 1] == w;
    assert !Stops(u, |u|);
  }

  lemma OneWord(u: string, w: string, e: nat, arg: string, v: string)
    requires Trailing(u, w) && ' ' in v && u[0] != ' ' && TokenEnd(u, 0) == e && 0 < e <= |w|
    requires !Gets(u[e..], arg, v)
    ensures !Gets(u, arg, v)
  {
    var t := u[..e];
    assert t == w[..e];
    FindCons(u, 0, e, arg);
    if Matches(t, arg) {
      WithinWord(t);
      NoSpaceRead(u, e, ValueStart(t), ValueLen(t), v);
    } else {
      GetsShifted(u, t, u[e..], arg, v);
    }
  }

  lemma NoSpaceInWord(u: string, e: nat, i: nat)
    requires TokenEnd(u, 0) == e && '"' !in u[..e] && i < e
    ensures u[i] != ' '
  {
    assert forall k :: 0 <= k < i ==> u[..i][k] == u[..e][k];
    NoQuotes(u[..i]);
    assert !Stops(u, i);
  }

  /** What is read inside a word without quotes has no space. */
  lemma NoSpaceRead(u: string, e: nat, pos: nat, len: int, v: string)
    requires TokenEnd(u, 0) == e && '"' !in u[..e] && ' ' in v && (0 <= len ==> pos + len <= e)
    ensures !Reads(u, pos, len, v)
  {
    if Reads(u, pos, len, v) {
      var i :| 0 <= i < |v| && v[i] == ' ';
      assert u[pos..pos + len][i] == u[pos + i];
      NoSpaceInWord(u, e, pos + i);
    }
  }

  /** `u` is the text `s`, in which a quote is open, then `="`, then `w`. */
  predicate Closes(u: string, s: string, w: string) {
    && InQuote(s) && |u| == |s| + 2 + |w| && u[..|s|] == s && u[|s|] == '=' && u[|s| + 1] == '"'
    && u[|s| + 2..] == w
  }

  lemma QuoteStep(u: string, k: nat)
    requires k < |u|
    ensures InQuote(u[..k + 1]) == (InQuote(u[..k]) != (u[k] == '"'))
  {
    assert u[..k + 1][..k] == u[..k];
  }

  /** Behind the `="` no quote is open, until the next one. */
  lemma {:induction false} ClosedBehind(u: string, s: string, w: string, k: nat)
    requires Closes(u, s, w) && k <= |w| && '"' !in w[..k]
    ensures !InQuote(u[..|s| + 2 + k])
    decreases k
  {
    if k == 0 {
      QuoteStep(u, |s|);
      QuoteStep(u, |s| + 1);
    } else {
      assert w[..k][..k - 1] == w[..k - 1] && w[..k][k - 1] == w[k - 1];
      assert u[|s| + 2 + k - 1] == w[k - 1];
      ClosedBehind(u, s, w, k - 1);
      QuoteStep(u, |s| + 2 + k - 1);
    }
  }

  /** The first word of an open name and a quoted value ends at the value's first space. */
  lemma OpenWord(u: string, s: string, w: string, i: nat)
    requires s != "" && s[0] != ' ' && TokenEnd(s, 0) < 0 && Closes(u, s, w)
    requires i < |w| && w[i] == ' ' && ' ' !in w[..i] && '"' !in w[..i]
    ensures TokenEnd(u, 0) == |s| + 2 + i
  {
    ClosedBehind(u, s, w, i);
    var e := |s| + 2 + i;
    assert u[e] == w[i];
    forall k: nat | k < e ensures !Stops(u, k) { NoStopBefore(u, s, w, i, k); }
    EndsAt(u, e);
  }

  lemma EndsAt(u: string, e: nat)
    requires e <= |u| && Stops(u, e) && forall k: nat :: k < e ==> !Stops(u, k)
    ensures TokenEnd(u, 0) == e
  {
  }

  lemma NoStopBefore(u: string, s: string, w: string, i: nat, k: nat)
    requires TokenEnd(s, 0) < 0 && Closes(u, s, w) && i < |w| && ' ' !in w[..i] && k < |s| + 2 + i
    ensures !Stops(u, k)
  {
    if k < |s| {
      assert u[..k] == s[..k] && u[k] == s[k] && !Stops(s, k);
    } else if k > |s| + 1 {
      var j := k - |s| - 2;
      assert u[k] == w[j] && w[j] == w[..i][j];
    }
  }

  /** The name of that word: up to the last '=' of `s`, unless the value has one before its first space. */
  lemma OpenNameLen(t: string, s: string, w: string)
    requires Closes(t, s, w) && '"' !in w
    ensures var p := LastEq(s, |s|);
            && ('=' !in w && 0 <= p ==> NameLen(t) == p && p + 2 <= |s|)
            && ('=' in w || p < 0 ==> NameLen(t) > |s|)
  {
    var p := LastEq(s, |s|);
    forall k: nat | k < |s| ensures EqAt(t, k) == EqAt(s, k) { assert t[..k] == s[..k] && t[k] == s[k]; }
    if '=' in w {
      var k :| 0 <= k < |w| && w[k] == '=';
      assert forall c :: c in w[..k] ==> c in w;
      ClosedBehind(t, s, w, k);
      assert EqAt(t, |s| + 2 + k);
    } else {
      forall k: nat | |s| <= k < |t| ensures !EqAt(t, k) {
        if k > |s| + 1 { assert t[k] == w[k - |s| - 2]; }
      }
      if 0 <= p {
        NameLenIs(t, p);
        BehindEq(s, p);
      }
    }
  }

  /** A quote that is open at the end was opened behind the last '='. */
  lemma BehindEq(s: string, p: nat)
    requires InQuote(s) && p < |s| && EqAt(s, p)
    ensures p + 2 <= |s|
  {
    if p + 1 == |s| { QuoteStep(s, p); }
  }

  /** What the word `t` says, if it is the one that is found in `u`. */
  lemma OpenWordSays(u: string, t: string, s: string, w: string, arg: string, v: string)
    requires t <= u && Closes(t, s, w) && '"' !in v && w < v && v[|w|] == ' ' && ' ' !in w
    requires '=' !in w && 0 <= LastEq(s, |s|) && s[..LastEq(s, |s|)] <= arg
    ensures Reads(u, ValueStart(t), ValueLen(t), v) <==> OpenSays(s, arg, v)
  {
    OpenNameLen(t, s, w);
    if w != "" {
      assert t[|t| - 1] == w[|w| - 1] && v[0] == w[0];
      QuoteReadToo(u, LastEq(s, |s|) + 1, ValueLen(t), |s| + 1, v);
    } else {
      EndsInQuote(u, t, s, arg, v, LastEq(s, |s|));
    }
  }

  /** The word ends in the quote that opens the value: all that is left of it is what `s` has behind its '='. */
  lemma EndsInQuote(u: string, t: string, s: string, arg: string, v: string, p: nat)
    requires t <= u && Closes(t, s, "") && p == LastEq(s, |s|) && p + 2 <= |s| && NameLen(t) == p
    requires v != "" && v[0] == ' ' && s[..p] <= arg
    ensures Reads(u, ValueStart(t), ValueLen(t), v) <==> OpenSays(s, arg, v)
  {
    assert t[|t| - 1] == '"';
    assert ValueStart(t) == p + 2 && ValueLen(t) == |s| - p - 1;
    assert u[p + 2..|s| + 1] == s[p + 2..] + "=";
  }

  lemma QuoteIn(u: string, pos: nat, len: nat, i: nat)
    requires pos <= i < pos + len <= |u| && u[i] == '"'
    ensures '"' in u[pos..pos + len]
  {
    assert u[pos..pos + len][i - pos] == '"';
  }

  lemma QuoteReadToo(u: string, pos: nat, len: int, i: nat, v: string)
    requires i < |u| && u[i] == '"' && pos <= i < pos + len && '"' !in v
    ensures !Reads(u, pos, len, v)
  {
    if Reads(u, pos, len, v) { QuoteIn(u, pos, len, i); }
  }

  /** A name whose quote is open: only its own last '=' can name the value. */
  lemma OpenNameIff(u: string, s: string, arg: string, v: string)
    requires s != "" && s[0] != ' ' && TokenEnd(s, 0) < 0 && '"' !in v && Remains(s, arg)
    requires u == s + "=" + Quoted(v)
    ensures Gets(u, arg, v) <==> OpenSays(s, arg, v)
  {
    if ' ' !in v {
      OpenPlain(u, s, arg, v);
    } else {
      QuotedCloses(u, s, v);
      OpenQuotedIff(u, s, v + ['"'], arg, v, FirstSpace(v));
    }
  }

  lemma OpenPlain(u: string, s: string, arg: string, v: string)
    requires s != "" && s[0] != ' ' && TokenEnd(s, 0) < 0 && '"' !in v && ' ' !in v && u == s + "=" + v
    ensures !Gets(u, arg, v) && !OpenSays(s, arg, v)
  {
    assert u == s + ("=" + v);
    NeverCloses(s, "=" + v, arg, v);
  }

  lemma QuotedCloses(u: string, s: string, v: string)
    requires u == s + "=" + Quoted(v) && ' ' in v && TokenEnd(s, 0) < 0
    ensures Closes(u, s, v + ['"'])
  {
    assert s[..|s|] == s && !Stops(s, |s|);
    assert u[|s| + 2..] == v + ['"'];
  }

  lemma OpenQuotedIff(u: string, s: string, w: string, arg: string, v: string, i: nat)
    requires s != "" && s[0] != ' ' && TokenEnd(s, 0) < 0 && '"' !in v && Remains(s, arg) && Closes(u, s, w)
    requires w == v + ['"'] && i < |v| && v[i] == ' ' && ' ' !in v[..i]
    ensures Gets(u, arg, v) <==> OpenSays(s, arg, v)
  {
    assert w[..i] == v[..i];
    OpenWord(u, s, w, i);
    var (e, p) := (|s| + 2 + i, LastEq(s, |s|));
    var t := u[..e];
    assert t[|s| + 2..] == v[..i] && t[..|s|] == s;
    OpenNameLen(t, s, v[..i]);
    FindCons(u, 0, e, arg);
    if '=' !in v[..i] && 0 <= p && s[..p] <= arg {
      assert Name(t) == s[..p];
      OpenWordSays(u, t, s, v[..i], arg, v);
    } else {
      OpenElsewhere(t, s, arg, v, i);
      assert u[e..] == v[i..] + ['"'];
      WordsSayNoSpace(u[e..], v[i..], arg, v);
      GetsShifted(u, t, u[e..], arg, v);
    }
  }

  lemma OpenElsewhere(t: string, s: string, arg: string, v: string, i: nat)
    requires i < |v| && '"' !in v && ' ' !in v[..i]
    requires Closes(t, s, v[..i]) && Remains(s, arg) && s != "" && s[0] != ' '
    requires '=' in v[..i] || LastEq(s, |s|) < 0 || !(s[..LastEq(s, |s|)] <= arg)
    ensures !Matches(t, arg) && !OpenSays(s, arg, v)
  {
    OpenNameLen(t, s, v[..i]);
    if i > 0 { assert v[0] == v[..i][0]; }
    if NameLen(t) > |s| {
      TooLong(t, s, arg);
    } else {
      assert Name(t) == s[..LastEq(s, |s|)];
    }
  }

  function FirstSpace(v: string): (i: nat)
    requires ' ' in v
    ensures i < |v| && v[i] == ' ' && ' ' !in v[..i]
  {
    if v[0] == ' ' then 0
    else
      var i := 1 + FirstSpace(v[1..]);
      assert v[..i] == [v[0]] + v[1..][..i - 1];
      i
  }

  // ---------- every name ----------

  /** Name and value on their own, from any word of the name on. */
  lemma {:induction false} GetsIffSays(s: string, arg: string, v: string)
    requires Remains(s, arg) && '"' !in v
    ensures Gets(s + "=" + Quoted(v), arg, v) <==> Says(s, arg, v)
    decreases |s|
  {
    if s == "" {
      assert s + "=" + Quoted(v) == "=" + Quoted(v);
      EmptySays(arg, v);
    } else if s[0] == ' ' {
      GetsIffSays(s[1..], arg, v);
      PastBlank(s[1..] + "=" + Quoted(v), arg, v);
      assert s + "=" + Quoted(v) == [' '] + (s[1..] + "=" + Quoted(v));
    } else {
      var e := TokenEnd(s, 0);
      if e < 0 {
        OpenNameIff(s + "=" + Quoted(v), s, arg, v);
      } else if e == |s| {
        TokenIsPiece(s, e);
        assert s[..e] == s;
        LastWordSays(s, arg, v);
      } else if Matches(s[..e], arg) {
        WordSays(s, e, "=" + Quoted(v), arg, v);
        assert s + "=" + Quoted(v) == s + ("=" + Quoted(v));
      } else {
        LaterWord(s, e, arg);
        GetsIffSays(s[e..], arg, v);
        PastWord(s, e, "=" + Quoted(v), arg, v);
        assert s + "=" + Quoted(v) == s + ("=" + Quoted(v));
        assert s[e..] + "=" + Quoted(v) == s[e..] + ("=" + Quoted(v));
      }
    }
  }

  /** Only a name with a space in front can have a word that does not match. */
  lemma LaterWord(s: string, e: nat, arg: string)
    requires e <= |s| && Remains(s, arg) && !Matches(s[..e], arg)
    ensures arg[0] == ' '
  {
    assert s[..e][..NameLen(s[..e])] == s[..NameLen(s[..e])];
  }

  lemma PastBlank(u: string, arg: string, v: string)
    ensures Gets([' '] + u, arg, v) <==> Gets(u, arg, v)
  {
    assert ([' '] + u)[1..] == u;
    FindBlank([' '] + u, 0, arg);
    GetsShifted([' '] + u, [' '], u, arg, v);
  }

  lemma PastWord(s: string, e: nat, more: string, arg: string, v: string)
    requires s != "" && s[0] != ' ' && TokenEnd(s, 0) == e && 0 < e < |s| && !Matches(s[..e], arg)
    ensures Gets(s + more, arg, v) <==> Gets(s[e..] + more, arg, v)
  {
    WordStays(s, e, more);
    FindCons(s + more, 0, e, arg);
    CutAt(s, e, more);
    GetsShifted(s + more, s[..e], s[e..] + more, arg, v);
  }

  lemma CutAt(s: string, e: nat, more: string)
    requires e <= |s|
    ensures (s + more)[e..] == s[e..] + more && s + more == s[..e] + (s[e..] + more)
  {
  }

  /**
   A value that was set is the value that is found, exactly when it contains no '=' or contains a
   space: otherwise its own last '=' is taken for the end of the name. If a name was added that has an
   open quote or an unquoted space, the line does not matter: it depends on the words of the name.
   */
  lemma SetThenGetIff(line: string, arg: string, v: string, max: int)
    requires SetOutcome(line, arg, Value(v), max).Writes?
    ensures Gets(SetOutcome(line, arg, Value(v), max).text, arg, v) <==>
            if Addable(line, arg, Value(v)) then Readable(v) else Says(arg, arg, v)
  {
    var out := SetOutcome(line, arg, Value(v), max).text;
    WrittenText(line, arg, Value(v), max);
    if Addable(line, arg, Value(v)) {
      SetMeansEdited(line, arg, Value(v), max);
      NewKinds(line, arg, v);
      GetsIff(out, arg, v);
    } else {
      AddedBehind(line, arg, v, max);
      GetsIffSays(arg, arg, v);
    }
  }

  /** The first word of a name: up to its first unquoted space. */
  ghost predicate FirstWord(arg: string, i: nat) {
    0 < i < |arg| && arg[0] != ' ' && TokenEnd(arg, 0) == i
  }

  /**
   A name with an unquoted space behind its first word is found by that word, so the value found is
   what the word says itself: nothing, if it has no '='.
   */
  lemma SpacedNameIff(arg: string, v: string, i: nat)
    requires FirstWord(arg, i)
    ensures !IsPiece(arg)
    ensures Says(arg, arg, v) <==> Reads(arg, ValueStart(arg[..i]), ValueLen(arg[..i]), v)
    ensures '=' !in arg[..i] && '"' !in arg[..i] ==> (Says(arg, arg, v) <==> v == "")
  {
    var t := arg[..i];
    assert Stops(arg, i);
    assert t[..NameLen(t)] == arg[..NameLen(t)];
    if '=' !in t && '"' !in t { assert NameLen(t) == |t|; }
  }

  /** A name that is one argument behind spaces is never found, whatever it is set to. */
  lemma {:induction false} LeadingSpaceLost(spaces: string, name: string, v: string)
    requires spaces != "" && (forall i :: 0 <= i < |spaces| ==> spaces[i] == ' ') && IsPiece(name) && name != ""
    ensures !IsPiece(spaces + name) && !Says(spaces + name, spaces + name, v)
  {
    var arg := spaces + name;
    assert arg[0] == ' ' && arg[..0] == "";
    SaysBehind(spaces, name, arg, v);
    TokensOfPiece(name);
    assert name[0] != ' ' by { assert name[..0] == ""; }
    assert Stops(name, |name|) by { assert name[..|name|] == name; }
  }

  lemma {:induction false} SaysBehind(spaces: string, s: string, arg: string, v: string)
    requires forall i :: 0 <= i < |spaces| ==> spaces[i] == ' '
    ensures Says(spaces + s, arg, v) == Says(s, arg, v)
    decreases |spaces|
  {
    if spaces == "" {
      assert spaces + s == s;
    } else {
      assert (spaces + s)[1..] == spaces[1..] + s;
      SaysBehind(spaces[1..], s, arg, v);
    }
  }

  // ---------- an example on the failing side ----------

  /** Setting `a` to `b=c` in an empty line is not found again under `a`. */
  lemma EqualsInValueLost()
    ensures var r := SetOutcome("", "a", Value("b=c"), 6);
            r == Writes("a=b=c") && Addable("", "a", Value("b=c")) && !Gets(r.text, "a", "b=c")
  {
    assert Piece("a", Value("b=c")) == "a=b=c";
    PlainIsPiece("a");
    assert "b=c"[1] == '=';
    SetThenGetIff("", "a", "b=c", 6);
  }
}
