/**
 `cmdline_set_arg` to the letter: which answer it gives when, which argument comes out as what, and that the
 values of other arguments stay as they were.
 */
module CmdlineExact {
  import opened CmdlineText
  import opened CmdlineEdit
  import opened CmdlineLaws
  import opened CmdlineNames

  // ---------- the answer ----------

  /** `text` without one space at its end. */
  predicate WithoutSpace(full: string, text: string) {
    if full != "" && full[|full| - 1] == ' ' then full == text + " " else full == text
  }

  /** The new arguments, of which `args` are the old ones. */
  ghost function Renewed(args: seq<string>, arg: string, nv: NewVal): seq<string> {
    Edited(args, arg, nv) + if AnyMatch(args, arg) || nv.Delete? then [] else [Piece(arg, nv)]
  }

  lemma RenewedText(args: seq<string>, arg: string, nv: NewVal)
    ensures Join("", Renewed(args, arg, nv)) ==
              if AnyMatch(args, arg) || nv.Delete? then Join("", Edited(args, arg, nv))
              else Append(Join("", Edited(args, arg, nv)), Piece(arg, nv))
  {
    var edited := Edited(args, arg, nv);
    if AnyMatch(args, arg) || nv.Delete? {
      assert edited + [] == edited;
    } else {
      JoinMore("", edited, Piece(arg, nv));
    }
  }

  lemma Trimmed(full: string)
    ensures WithoutSpace(full, Trim(full))
  {
  }

  function Total(pieces: seq<string>): nat {
    if pieces == [] then 0 else |pieces[0]| + Total(pieces[1..])
  }

  /** The length of a line of arguments: their own, and one space before each but the first that is not empty. */
  function Length(pieces: seq<string>): nat {
    if pieces == [] then 0
    else if pieces[0] == "" then Length(pieces[1..])
    else Total(pieces) + |pieces| - 1
  }

  lemma {:induction false} JoinLength(out: string, pieces: seq<string>)
    requires out != ""
    ensures |Join(out, pieces)| == |out| + Total(pieces) + |pieces|
    decreases |pieces|
  {
    if pieces != [] { JoinLength(Append(out, pieces[0]), pieces[1..]); }
  }

  lemma {:induction false} LineLength(pieces: seq<string>)
    ensures |Join("", pieces)| == Length(pieces)
  {
    if pieces != [] {
      assert Append("", pieces[0]) == pieces[0];
      if pieces[0] == "" { LineLength(pieces[1..]); } else { JoinLength(pieces[0], pieces[1..]); }
    }
  }

  /**
   Which answer a call gives: a quote in the value first, then a buffer that cannot hold the old arguments, an
   open quote in the line, nothing to delete, and a buffer that cannot hold the new argument, told from the lengths
   of the arguments alone. Otherwise the new
   arguments are written with single spaces between them, without a space at the end.
   */
  lemma OutcomeExactly(line: string, arg: string, nv: NewVal, max: int)
    ensures var (o, p) := (SetOutcome(line, arg, nv, max), Tokens(line));
            if nv.Value? && '"' in nv.v then o == Fails(9)
            else if line != "" && Length(Edited(p.args, arg, nv)) >= max then o == Fails(7)
            else if !p.closed then o == Fails(22)
            else if nv.Delete? && !AnyMatch(p.args, arg) then o == Fails(2)
            else if Length(NewArgs(line, arg, nv)) >= max then o == Fails(7)
            else o.Writes? && WithoutSpace(Join("", NewArgs(line, arg, nv)), o.text)
  {
    var p := Tokens(line);
    RenewedText(p.args, arg, nv);
    LineLength(Edited(p.args, arg, nv));
    LineLength(Renewed(p.args, arg, nv));
    Trimmed(Join("", Renewed(p.args, arg, nv)));
    assert NewArgs(line, arg, nv) == Renewed(p.args, arg, nv);
    if line == "" { assert p.args == [] && Join("", Edited(p.args, arg, nv)) == ""; }
  }

  // ---------- argument by argument ----------

  /** An argument whose name, up to its last unquoted '=', is what `arg` begins with. */
  predicate Named(t: string, arg: string) { t[..NameLen(t)] <= arg }

  /** A new value, in double quotes if there is a space in it. */
  function Assigned(name: string, nv: NewVal): string
    requires !nv.Delete?
  {
    match nv
    case Empty => name
    case Value(v) => name + (if ' ' in v then "=\"" + v + "\"" else "=" + v)
  }

  lemma AssignedIsPiece(name: string, nv: NewVal)
    requires !nv.Delete?
    ensures Piece(name, nv) == Assigned(name, nv)
  {
    if nv.Value? {
      assert name + "=" + ("\"" + nv.v + "\"") == name + ("=\"" + nv.v + "\"");
      assert name + "=" + nv.v == name + ("=" + nv.v);
    }
  }

  /** Setting: every argument that is named keeps its name and gets the new value, and every other one stays so. */
  lemma {:induction false} SetEach(args: seq<string>, arg: string, nv: NewVal)
    requires !nv.Delete?
    ensures |Edited(args, arg, nv)| == |args|
    ensures forall k :: 0 <= k < |args| ==>
              Edited(args, arg, nv)[k] ==
                if Named(args[k], arg) then Assigned(args[k][..NameLen(args[k])], nv) else args[k]
  {
    if args != [] {
      SetEach(args[1..], arg, nv);
      AssignedIsPiece(Name(args[0]), nv);
      assert EditOne(args[0], arg, nv) ==
             [if Named(args[0], arg) then Assigned(args[0][..NameLen(args[0])], nv) else args[0]];
    }
  }

  /** The positions, in ascending order, of what a deletion leaves. */
  ghost predicate Leaves(args: seq<string>, arg: string, left: seq<string>, at: seq<nat>) {
    && |at| == |left|
    && (forall j :: 0 <= j < |at| ==> at[j] < |args| && left[j] == args[at[j]] && !Named(args[at[j]], arg))
    && (forall i, j :: 0 <= i < j < |at| ==> at[i] < at[j])
    && (forall k: nat :: k < |args| && !Named(args[k], arg) ==> k in at)
  }

  function Later(at: seq<nat>): (r: seq<nat>)
    ensures |r| == |at| && forall j :: 0 <= j < |at| ==> r[j] == at[j] + 1
  {
    seq(|at|, j requires 0 <= j < |at| => at[j] + 1)
  }

  /** Deleting: exactly the arguments that are not named are left, each as it was and in the same order. */
  lemma {:induction false} DeleteEach(args: seq<string>, arg: string) returns (at: seq<nat>)
    ensures Leaves(args, arg, Edited(args, arg, Delete), at)
  {
    at := [];
    if args != [] {
      var rest := DeleteEach(args[1..], arg);
      at := if Named(args[0], arg) then Later(rest) else [0] + Later(rest);
      LeavesMore(args, arg, Edited(args[1..], arg, Delete), rest, at);
    }
  }

  /** The same for the arguments behind the first. */
  ghost predicate LeavesBehind(args: seq<string>, arg: string, left: seq<string>, later: seq<nat>) {
    && |later| == |left|
    && (forall j :: 0 <= j < |later| ==>
          0 < later[j] < |args| && left[j] == args[later[j]] && !Named(args[later[j]], arg))
    && (forall i, j :: 0 <= i < j < |later| ==> later[i] < later[j])
    && (forall k: nat :: 0 < k < |args| && !Named(args[k], arg) ==> k in later)
  }

  lemma LeavesMore(args: seq<string>, arg: string, left: seq<string>, rest: seq<nat>, at: seq<nat>)
    requires args != [] && Leaves(args[1..], arg, left, rest)
    requires at == if Named(args[0], arg) then Later(rest) else [0] + Later(rest)
    ensures Leaves(args, arg, EditOne(args[0], arg, Delete) + left, at)
  {
    LaterLeaves(args, arg, left, rest, Later(rest));
    WithFirst(args, arg, left, Later(rest), at);
  }

  lemma WithFirst(args: seq<string>, arg: string, left: seq<string>, later: seq<nat>, at: seq<nat>)
    requires args != [] && LeavesBehind(args, arg, left, later)
    requires at == if Named(args[0], arg) then later else [0] + later
    ensures Leaves(args, arg, EditOne(args[0], arg, Delete) + left, at)
  {
    if Named(args[0], arg) {
      assert EditOne(args[0], arg, Delete) + left == left;
      FirstGone(args, arg, left, later);
    } else {
      FirstLeft(args, arg, left, later);
    }
  }

  lemma LaterLeaves(args: seq<string>, arg: string, left: seq<string>, rest: seq<nat>, later: seq<nat>)
    requires args != [] && later == Later(rest) && Leaves(args[1..], arg, left, rest)
    ensures LeavesBehind(args, arg, left, later)
  {
    LaterIn(args, arg, rest, later);
    LaterAt(args, arg, left, rest, later);
  }

  lemma LaterAt(args: seq<string>, arg: string, left: seq<string>, rest: seq<nat>, later: seq<nat>)
    requires args != [] && later == Later(rest) && Leaves(args[1..], arg, left, rest)
    ensures |later| == |left|
    ensures forall j :: 0 <= j < |later| ==>
              0 < later[j] < |args| && left[j] == args[later[j]] && !Named(args[later[j]], arg)
    ensures forall i, j :: 0 <= i < j < |later| ==> later[i] < later[j]
  {
    forall j | 0 <= j < |later|
      ensures 0 < later[j] < |args| && left[j] == args[later[j]] && !Named(args[later[j]], arg)
    {
      assert args[1..][rest[j]] == args[later[j]];
    }
  }

  lemma LaterIn(args: seq<string>, arg: string, rest: seq<nat>, later: seq<nat>)
    requires args != [] && later == Later(rest)
    requires forall k: nat :: k < |args[1..]| && !Named(args[1..][k], arg) ==> k in rest
    ensures forall k: nat :: 0 < k < |args| && !Named(args[k], arg) ==> k in later
  {
    forall k: nat | 0 < k < |args| && !Named(args[k], arg) ensures k in later {
      assert args[1..][k - 1] == args[k];
      var j :| 0 <= j < |rest| && rest[j] == k - 1;
      assert later[j] == k;
    }
  }

  lemma FirstGone(args: seq<string>, arg: string, left: seq<string>, later: seq<nat>)
    requires args != [] && Named(args[0], arg) && LeavesBehind(args, arg, left, later)
    ensures Leaves(args, arg, left, later)
  {
  }

  lemma FirstLeft(args: seq<string>, arg: string, left: seq<string>, later: seq<nat>)
    requires args != [] && !Named(args[0], arg) && LeavesBehind(args, arg, left, later)
    ensures Leaves(args, arg, [args[0]] + left, [0] + later)
  {
    var (all, at) := ([args[0]] + left, [0] + later);
    forall j | 0 <= j < |at| ensures at[j] < |args| && all[j] == args[at[j]] && !Named(args[at[j]], arg) {
      if j > 0 { assert at[j] == later[j - 1] && all[j] == left[j - 1]; }
    }
    forall i, j | 0 <= i < j < |at| ensures at[i] < at[j] {
      assert at[j] == later[j - 1];
      if i > 0 { assert at[i] == later[i - 1]; }
    }
    assert at[0] == 0;
  }

  // ---------- the values of other arguments ----------

  /** The argument a lookup of `b` answers with. */
  function Picked(args: seq<string>, b: string): seq<string> {
    if First(args, b) < |args| then [args[First(args, b)]] else []
  }

  /** A lookup yields what the first matching argument says, wherever that stands. */
  lemma GetsPicked(line: string, b: string, v: string)
    ensures var t := Picked(Tokens(line).args, b);
            Gets(line, b, v) <==> t != [] && t[0] != "" && Reads(t[0], ValueStart(t[0]), ValueLen(t[0]), v)
  {
    var args := Tokens(line).args;
    var (k, r) := (First(args, b), Find(line, 0, b));
    assert line[0..] == line;
    FindIsFirst(line, line, 0, b);
    if k < |args| {
      var start: nat :| StandsAt(line, start, args[k]) && r.pos == start + ValueStart(args[k]);
      SameReading(line, start, args[k], v);
    }
  }

  lemma SameReading(line: string, start: nat, t: string, v: string)
    requires t != "" && StandsAt(line, start, t)
    ensures Reads(line, start + ValueStart(t), ValueLen(t), v) <==> Reads(t, ValueStart(t), ValueLen(t), v)
  {
    WithinWord(t);
    if ValueLen(t) >= 0 { Slice(line, start, |t|, ValueStart(t), ValueLen(t)); }
  }

  /** No argument that `arg` names is one that `b` names, before the edit or after it. */
  ghost predicate Unrelated(args: seq<string>, arg: string, nv: NewVal, b: string) {
    forall k :: 0 <= k < |args| ==> Apart(args[k], arg, nv, b)
  }

  predicate Apart(t: string, arg: string, nv: NewVal, b: string) {
    t != "" && (Matches(t, arg) ==> !Matches(t, b) && (!nv.Delete? ==> !Matches(Piece(Name(t), nv), b)))
  }

  lemma PickedCons(t: string, rest: seq<string>, b: string)
    ensures Picked([t] + rest, b) == if Matches(t, b) then [t] else Picked(rest, b)
  {
    FirstCons(t, rest, b);
  }

  lemma {:induction false} EditKeepsPicked(args: seq<string>, arg: string, nv: NewVal, b: string)
    requires Unrelated(args, arg, nv, b)
    ensures Picked(NonEmpty(Edited(args, arg, nv)), b) == Picked(args, b)
  {
    if args != [] {
      var (t, rest) := (args[0], args[1..]);
      assert Apart(t, arg, nv, b);
      EditKeepsPicked(rest, arg, nv, b);
      assert args == [t] + rest;
      PickedCons(t, rest, b);
      OneKeepsPicked(t, Edited(rest, arg, nv), arg, nv, b);
    }
  }

  lemma OneKeepsPicked(t: string, rest: seq<string>, arg: string, nv: NewVal, b: string)
    requires Apart(t, arg, nv, b)
    ensures Picked(NonEmpty(EditOne(t, arg, nv) + rest), b) ==
            if Matches(t, b) then [t] else Picked(NonEmpty(rest), b)
  {
    var one := EditOne(t, arg, nv);
    if one == [] {
      assert one + rest == rest;
    } else {
      assert (one + rest)[0] == one[0] && (one + rest)[1..] == rest;
      assert one[0] != "";
      PickedCons(one[0], NonEmpty(rest), b);
    }
  }

  lemma {:induction false} PickedMore(args: seq<string>, p: string, b: string)
    requires !Matches(p, b)
    ensures Picked(args + [p], b) == Picked(args, b)
  {
    if args == [] {
      assert args + [p] == [p] + [];
      PickedCons(p, [], b);
    } else {
      assert args + [p] == [args[0]] + (args[1..] + [p]);
      PickedCons(args[0], args[1..] + [p], b);
      PickedMore(args[1..], p, b);
      assert args == [args[0]] + args[1..];
      PickedCons(args[0], args[1..], b);
    }
  }

  /** What is added is not named by `b` either. */
  ghost predicate AddsApart(line: string, arg: string, nv: NewVal, b: string) {
    AnyMatch(Tokens(line).args, arg) || nv.Delete? || !Matches(Piece(arg, nv), b)
  }

  lemma NewArgsKeepPicked(line: string, arg: string, nv: NewVal, b: string)
    requires Unrelated(Tokens(line).args, arg, nv, b) && AddsApart(line, arg, nv, b)
    ensures Picked(NonEmpty(NewArgs(line, arg, nv)), b) == Picked(Tokens(line).args, b)
  {
    var args := Tokens(line).args;
    var edited := Edited(args, arg, nv);
    EditKeepsPicked(args, arg, nv, b);
    if AnyMatch(args, arg) || nv.Delete? {
      assert edited + [] == edited;
    } else {
      assert Piece(arg, nv) != "";
      NonEmptyMore(edited, Piece(arg, nv));
      PickedMore(NonEmpty(edited), Piece(arg, nv), b);
    }
  }

  /**
   Setting or deleting an argument leaves the value of every other one as it was: what is found under a name that
   is unrelated to the arguments the edit touches is found in the new line exactly if it was in the old one.
   */
  lemma OthersKeepValues(line: string, arg: string, nv: NewVal, max: int, b: string, v: string)
    requires SetOutcome(line, arg, nv, max).Writes? && Addable(line, arg, nv)
    requires Unrelated(Tokens(line).args, arg, nv, b) && AddsApart(line, arg, nv, b)
    ensures Gets(SetOutcome(line, arg, nv, max).text, b, v) <==> Gets(line, b, v)
  {
    SetMeansEdited(line, arg, nv, max);
    NewArgsKeepPicked(line, arg, nv, b);
    GetsPicked(line, b, v);
    GetsPicked(SetOutcome(line, arg, nv, max).text, b, v);
  }

  lemma {:induction false} NoneNamed(args: seq<string>, arg: string)
    ensures forall t :: t in Edited(args, arg, Delete) ==> !Matches(t, arg)
  {
    if args != [] { NoneNamed(args[1..], arg); }
  }

  /** A deleted argument is not found again. */
  lemma DeletedIsGone(line: string, arg: string, max: int)
    requires SetOutcome(line, arg, Delete, max).Writes?
    ensures !Find(SetOutcome(line, arg, Delete, max).text, 0, arg).Found?
  {
    var out := SetOutcome(line, arg, Delete, max).text;
    var edited := Edited(Tokens(line).args, arg, Delete);
    SetMeansEdited(line, arg, Delete, max);
    assert edited + [] == edited;
    NonEmptyIn(edited);
    NoneNamed(Tokens(line).args, arg);
    assert out[0..] == out;
    FindIsFirst(out, out, 0, arg);
    assert forall k :: 0 <= k < |Tokens(out).args| ==> Tokens(out).args[k] in edited;
  }

  lemma {:induction false} NonEmptyIn(pieces: seq<string>)
    ensures forall t :: t in NonEmpty(pieces) ==> t in pieces
  {
    if pieces != [] { NonEmptyIn(pieces[1..]); }
  }
}
