/**
 The text of a kernel command line: arguments separated by spaces, where double quotes protect
 spaces and '='.
 */
module CmdlineText {

  /** Is a position with `s` before it inside quotes? */
  predicate InQuote(s: string) {
    s != "" && (InQuote(s[..|s| - 1]) != (s[|s| - 1] == '"'))
  }

  lemma {:induction false} InQuoteConcat(a: string, b: string)
    ensures InQuote(a + b) == (InQuote(a) != InQuote(b))
    decreases |b|
  {
    if b == "" {
      assert a + b == a;
    } else {
      assert (a + b)[..|a + b| - 1] == a + b[..|b| - 1];
      InQuoteConcat(a, b[..|b| - 1]);
    }
  }

  lemma {:induction false} NoQuotes(s: string)
    requires '"' !in s
    ensures !InQuote(s)
  {
    if s != "" { NoQuotes(s[..|s| - 1]); }
  }

  /** An argument ends at `i`: at the end of the text or at a space, outside quotes. */
  predicate Stops(s: string, i: nat)
    requires i <= |s|
  {
    !InQuote(s[..i]) && (i == |s| || s[i] == ' ')
  }

  /** Where the argument at the start of `s` ends, from `i` on, or -1 if a quote is never closed. */
  function TokenEnd(s: string, i: nat): (e: int)
    requires i <= |s|
    ensures -1 <= e <= |s|
    ensures 0 <= e ==> i <= e && Stops(s, e)
    ensures forall k: nat :: i <= k < (if e < 0 then |s| + 1 else e) ==> !Stops(s, k)
    decreases |s| - i
  {
    if Stops(s, i) then i else if i == |s| then -1 else TokenEnd(s, i + 1)
  }

  /** An '=' outside quotes. */
  predicate EqAt(t: string, i: nat)
    requires i < |t|
  {
    t[i] == '=' && !InQuote(t[..i])
  }

  /** The position of the last '=' outside quotes below `n`, or -1. */
  function LastEq(t: string, n: nat): (e: int)
    requires n <= |t|
    ensures -1 <= e < n
    ensures 0 <= e ==> EqAt(t, e)
    ensures forall k: nat :: e < k < n ==> !EqAt(t, k)
  {
    if n == 0 then -1 else if EqAt(t, n - 1) then n - 1 else LastEq(t, n - 1)
  }

  lemma {:induction false} LastEqPrefix(s: string, e: nat, n: nat)
    requires n <= e <= |s|
    ensures LastEq(s[..e], n) == LastEq(s, n)
  {
    if n > 0 {
      LastEqPrefix(s, e, n - 1);
      assert s[..e][..n - 1] == s[..n - 1];
    }
  }

  /** The length of an argument's name: up to the last '=' outside quotes, or all of it. */
  function NameLen(t: string): (n: nat)
    ensures n <= |t|
  {
    var e := LastEq(t, |t|);
    if e < 0 then |t| else e
  }

  function Name(t: string): string { t[..NameLen(t)] }

  /** The arguments of a line up to an unclosed quote; `closed` says that there is none. */
  datatype Parsed = Parsed(args: seq<string>, closed: bool)

  function Tokens(s: string): Parsed
    decreases |s|
  {
    if s == "" then Parsed([], true)
    else if s[0] == ' ' then Tokens(s[1..])
    else
      var e := TokenEnd(s, 0);
      if e < 0 then Parsed([], false)
      else
        var rest := Tokens(s[e..]);
        Parsed([s[..e]] + rest.args, rest.closed)
  }

  /** Spaces only inside quotes, and every quote closed. */
  ghost predicate IsPiece(t: string) {
    !InQuote(t) && forall i :: 0 <= i < |t| && t[i] == ' ' ==> InQuote(t[..i])
  }

  lemma {:induction false} TokensArePieces(s: string)
    ensures forall k :: 0 <= k < |Tokens(s).args| ==> IsPiece(Tokens(s).args[k]) && Tokens(s).args[k] != ""
    decreases |s|
  {
    if s != "" && s[0] == ' ' {
      TokensArePieces(s[1..]);
    } else if s != "" {
      var e := TokenEnd(s, 0);
      if e >= 0 {
        TokensArePieces(s[e..]);
        TokenIsPiece(s, e);
      }
    }
  }

  lemma TokenIsPiece(s: string, e: nat)
    requires s != "" && s[0] != ' ' && e == TokenEnd(s, 0)
    ensures e > 0 && IsPiece(s[..e])
  {
    var t := s[..e];
    forall i | 0 <= i < |t| && t[i] == ' ' ensures InQuote(t[..i]) {
      assert t[..i] == s[..i];
      assert !Stops(s, i);
    }
  }

  // ---------- gluing arguments together ----------

  /** An argument put behind what is there already. */
  function Append(out: string, piece: string): string {
    if out == "" then piece else out + " " + piece
  }

  function Join(out: string, pieces: seq<string>): (r: string)
    ensures |out| <= |r|
    decreases |pieces|
  {
    if pieces == [] then out else Join(Append(out, pieces[0]), pieces[1..])
  }

  function One(piece: string): seq<string> { if piece == "" then [] else [piece] }

  function NonEmpty(pieces: seq<string>): seq<string> {
    if pieces == [] then [] else One(pieces[0]) + NonEmpty(pieces[1..])
  }

  /** One trailing space is dropped. */
  function Trim(s: string): string {
    if s != "" && s[|s| - 1] == ' ' then s[..|s| - 1] else s
  }

  /** An argument ends in the same place whatever follows it behind a space. */
  lemma SameEnd(a: string, b: string)
    requires a != "" && a[0] != ' ' && !InQuote(a)
    ensures TokenEnd(a, 0) >= 0 && TokenEnd(a + " " + b, 0) == TokenEnd(a, 0)
  {
    var s := a + " " + b;
    assert a[..|a|] == a;
    assert Stops(a, |a|);
    forall k: nat | k <= |a| ensures Stops(s, k) == Stops(a, k) { assert s[..k] == a[..k]; }
    var e := TokenEnd(a, 0);
    assert Stops(s, e);
    var f := TokenEnd(s, 0);
    assert f <= e;
  }

  lemma SpaceQuotes()
    ensures !InQuote(" ")
  {
    assert " "[..0] == "";
  }

  lemma BalancedSuffix(a: string, e: nat)
    requires !InQuote(a) && e <= |a| && !InQuote(a[..e])
    ensures !InQuote(a[e..])
  {
    assert a[..e] + a[e..] == a;
    InQuoteConcat(a[..e], a[e..]);
  }

  /** The text behind the first argument `t` of a line. */
  lemma TokensCons(s: string, e: nat)
    requires s != "" && s[0] != ' ' && TokenEnd(s, 0) == e && e > 0
    ensures Tokens(s) == Parsed([s[..e]] + Tokens(s[e..]).args, Tokens(s[e..]).closed)
  {
  }

  lemma Assoc<T>(a: seq<T>, b: seq<T>, c: seq<T>)
    ensures (a + b) + c == a + (b + c)
  {
  }

  /** The arguments of two texts with a space between them. */
  lemma {:induction false} TokensConcat(a: string, b: string)
    requires !InQuote(a)
    ensures Tokens(a).closed
    ensures Tokens(a + " " + b) == Parsed(Tokens(a).args + Tokens(b).args, Tokens(b).closed)
    decreases |a|
  {
    var s := a + " " + b;
    if a == "" {
      assert s[1..] == b;
      assert [] + Tokens(b).args == Tokens(b).args;
    } else if a[0] == ' ' {
      assert a[..1] == " ";
      SpaceQuotes();
      BalancedSuffix(a, 1);
      TokensConcat(a[1..], b);
      assert s[1..] == a[1..] + " " + b;
    } else {
      SameEnd(a, "");
      var e := TokenEnd(a, 0);
      TokenIsPiece(a, e);
      BalancedSuffix(a, e);
      TokensConcat(a[e..], b);
      TokensPast(a, b, e);
    }
  }

  lemma TokensPast(a: string, b: string, e: nat)
    requires a != "" && a[0] != ' ' && !InQuote(a) && e == TokenEnd(a, 0) && e > 0 && Tokens(a[e..]).closed
    requires Tokens(a[e..] + " " + b) == Parsed(Tokens(a[e..]).args + Tokens(b).args, Tokens(b).closed)
    ensures Tokens(a).closed
    ensures Tokens(a + " " + b) == Parsed(Tokens(a).args + Tokens(b).args, Tokens(b).closed)
  {
    var s := a + " " + b;
    SameEnd(a, b);
    TokensCons(a, e);
    TokensCons(s, e);
    assert s[e..] == a[e..] + " " + b && s[..e] == a[..e];
    Assoc([a[..e]], Tokens(a[e..]).args, Tokens(b).args);
  }

  /** A piece read on its own is one argument, or none if it is empty. */
  lemma TokensOfPiece(p: string)
    requires IsPiece(p)
    ensures Tokens(p) == Parsed(One(p), true)
  {
    if p != "" {
      assert p[0] != ' ' by { assert p[..0] == ""; }
      assert p[..|p|] == p;
      assert Stops(p, |p|);
      forall k: nat | k < |p| ensures !Stops(p, k) { }
      assert TokenEnd(p, 0) == |p|;
      assert p[|p|..] == "";
    }
  }

  lemma AppendTokens(out: string, p: string)
    requires !InQuote(out) && IsPiece(p)
    ensures !InQuote(Append(out, p))
    ensures Tokens(out).closed && Tokens(Append(out, p)) == Parsed(Tokens(out).args + One(p), true)
  {
    TokensOfPiece(p);
    TokensConcat(out, p);
    InQuoteConcat(out + " ", p);
    InQuoteConcat(out, " ");
    SpaceQuotes();
    if out == "" { assert [] + One(p) == One(p); }
  }

  /** Reading back what was glued together. */
  lemma {:induction false} JoinTokens(out: string, pieces: seq<string>)
    requires !InQuote(out) && forall k :: 0 <= k < |pieces| ==> IsPiece(pieces[k])
    ensures !InQuote(Join(out, pieces)) && Tokens(out).closed
    ensures Tokens(Join(out, pieces)) == Parsed(Tokens(out).args + NonEmpty(pieces), true)
    decreases |pieces|
  {
    if pieces == [] {
      TokensConcat(out, "");
      assert Tokens(out).args + [] == Tokens(out).args;
    } else {
      var next := Append(out, pieces[0]);
      AppendTokens(out, pieces[0]);
      JoinTokens(next, pieces[1..]);
      Assoc(Tokens(out).args, One(pieces[0]), NonEmpty(pieces[1..]));
      assert Join(out, pieces) == Join(next, pieces[1..]);
    }
  }

  lemma TrimTokens(s: string)
    requires !InQuote(s)
    ensures Tokens(Trim(s)) == Tokens(s)
  {
    if s != "" && s[|s| - 1] == ' ' {
      var t := s[..|s| - 1];
      assert s == t + " " + "";
      assert !InQuote(t);
      TokensConcat(t, "");
      assert Tokens(t).args + [] == Tokens(t).args;
    }
  }
}
