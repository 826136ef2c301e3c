/**
 Progress of the mailboxes: what brings a sender and a receiver on whatever other harts do in between, and
 two senders that wait for each other for ever.
 */
module IpiProgress {
  import opened IpiMailbox

  /** How many events of a run are steps of hart `h`. */
  function Steps(run: seq<Event>, h: nat): nat {
    if run == [] then 0
    else Steps(run[..|run| - 1], h) + if run[|run| - 1].hart == h then 1 else 0
  }

  lemma {:induction false} AfterMore(run: seq<Event>, more: seq<Event>)
    requires ValidRun(run + more) && more != []
    ensures var (front, e) := (more[..|more| - 1], more[|more| - 1]);
            ValidRun(run + front) && e.hart < N_BOX && After(run + more) == Step(After(run + front), e)
  {
    Front(run, more);
  }

  lemma {:induction false} CleanMore(run: seq<Event>, more: seq<Event>)
    requires ValidRun(run + more) && Clean(run + more) && more != []
    ensures var (front, e) := (more[..|more| - 1], more[|more| - 1]);
            ValidRun(run + front) && Clean(run + front) && e.hart < N_BOX && !Misreads(After(run + front), e)
  {
    Front(run, more);
  }

  lemma Front(run: seq<Event>, more: seq<Event>)
    requires more != []
    ensures var all := run + more;
            all != [] && all[..|all| - 1] == run + more[..|more| - 1] && all[|all| - 1] == more[|more| - 1]
  {
  }

  // ---------- sending ----------

  /** What a call of `mon_send_sync_ipi` sends: a kind of 0 sets the region's permissions, any other unsets it. */
  lemma {:induction false} SendRecords(run: seq<Event>, b: nat, q: Request)
    requires ValidRun(run) && b < N_BOX && After(run).pcs[b] == Idle
    ensures var r := Step(After(run), Event(b, Send(q)));
            && r.pcs[b] == WritePerm(q)
            && r.boxes[b].sent == After(run).boxes[b].sent
                                  + [if q.kind == 0 then Set(q.region, q.perm) else Unset(q.region)]
  {
  }

  /** The steps a sender has to take until it waits. */
  function ToWait(pc: Pc): nat {
    match pc
    case WritePerm(_) => 7
    case WriteRegion(_) => 6
    case WriteKind(_) => 5
    case Post(_, i) => if i < 5 then 5 - i else 0
    case _ => 0
  }

  predicate Prepares(pc: Pc, q: Request, k: nat) {
    if k == 0 then pc == Wait(q, 1)
    else (pc == WritePerm(q) || pc == WriteRegion(q) || pc == WriteKind(q) || (pc.Post? && pc.q == q))
         && ToWait(pc) == k
  }

  lemma PreparesStep(s: State, e: Event, b: nat, q: Request, k: nat)
    requires Ranged(s) && e.hart < N_BOX && b < N_BOX && Prepares(s.pcs[b], q, k) && (e.hart == b ==> k > 0)
    ensures Prepares(Step(s, e).pcs[b], q, if e.hart == b then k - 1 else k)
  {
  }

  lemma {:induction false} PreparesAfter(run: seq<Event>, more: seq<Event>, b: nat, q: Request)
    requires ValidRun(run) && ValidRun(run + more) && b < N_BOX && After(run).pcs[b] == WritePerm(q)
    requires Steps(more, b) <= 7
    ensures Prepares(After(run + more).pcs[b], q, 7 - Steps(more, b))
    decreases |more|
  {
    if more == [] {
      assert run + more == run;
    } else {
      AfterMore(run, more);
      var front := more[..|more| - 1];
      PreparesAfter(run, front, b, q);
      PreparesStep(After(run + front), more[|more| - 1], b, q, 7 - Steps(front, b));
    }
  }

  /**
   A sender waits after exactly seven steps of its own, whatever others do in between, and then the request is
   in its mailbox with a flag raised for every other hart 1..4.
   */
  lemma {:induction false} SenderWaits(run: seq<Event>, more: seq<Event>, b: nat, q: Request)
    requires ValidRun(run) && ValidRun(run + more) && Clean(run + more) && b < N_BOX
    requires After(run).pcs[b] == WritePerm(q) && Steps(more, b) == 7
    ensures var s := After(run + more);
            && s.pcs[b] == Wait(q, 1) && s.boxes[b].data == q
            && forall h :: 1 <= h < N_BOX && h != b ==> s.boxes[b].slots[h].valid
  {
    PreparesAfter(run, more, b, q);
    CleanInv(run + more);
    forall h | 1 <= h < N_BOX && h != b ensures After(run + more).boxes[b].slots[h].valid {
      assert PairAt(After(run + more), b, h);
    }
  }

  /** All of the sender's flags that it waits for are up. */
  predicate AllReady(box: Box)
    requires |box.slots| == N_BOX
  {
    forall h :: 1 <= h < N_BOX ==> box.slots[h].ready
  }

  /** The sender has `k` steps to go until it returns. */
  predicate Returns(s: State, b: nat, k: nat)
    requires Ranged(s) && b < N_BOX
  {
    match s.pcs[b]
    case Wait(_, i) => AllReady(s.boxes[b]) && k == 16 - i
    case ClearPerm => k == 11
    case ClearRegion => k == 10
    case ClearKind => k == 9
    case ClearValid(i) => k == 10 - 2 * i
    case ClearReady(i) => k == 9 - 2 * i
    case Idle => k == 0
    case _ => false
  }

  lemma ReturnsStep(s: State, e: Event, b: nat, k: nat)
    requires Ranged(s) && e.hart < N_BOX && b < N_BOX && Returns(s, b, k) && (e.hart == b ==> k > 0)
    ensures Returns(Step(s, e), b, if e.hart == b then k - 1 else k)
  {
  }

  lemma {:induction false} ReturnsAfter(run: seq<Event>, more: seq<Event>, b: nat, k: nat)
    requires ValidRun(run) && ValidRun(run + more) && b < N_BOX && Returns(After(run), b, k) && Steps(more, b) <= k
    ensures Returns(After(run + more), b, k - Steps(more, b))
    decreases |more|
  {
    if more == [] {
      assert run + more == run;
    } else {
      AfterMore(run, more);
      var front := more[..|more| - 1];
      ReturnsAfter(run, front, b, k);
      ReturnsStep(After(run + front), more[|more| - 1], b, k - Steps(front, b));
    }
  }

  /** Once every flag it waits for is up, a sender returns after fifteen steps of its own at most. */
  lemma {:induction false} SenderReturns(run: seq<Event>, more: seq<Event>, b: nat)
    requires ValidRun(run) && ValidRun(run + more) && b < N_BOX
    requires After(run).pcs[b].Wait? && AllReady(After(run).boxes[b])
    ensures var own := 16 - After(run).pcs[b].i;
            && 12 <= own <= 15
            && (Steps(more, b) < own ==> After(run + more).pcs[b] != Idle)
            && (Steps(more, b) == own ==> After(run + more).pcs[b] == Idle)
  {
    var own := 16 - After(run).pcs[b].i;
    if Steps(more, b) <= own { ReturnsAfter(run, more, b, own); }
  }

  // ---------- receiving ----------

  /** The steps a receiver has to take at most until it is done with mailbox `b`. */
  function Until(pc: Pc, b: nat): int
    requires Receiving(pc)
  {
    6 * (b - pc.i) + match pc
                     case Check(_) => 6
                     case CheckReady(_) => 5
                     case LoadKind(_) => 4
                     case LoadRegion(_, _) => 3
                     case LoadPerm(_, _) => 2
                     case Ack(_) => 1
  }

  /** Hart `h` is on its way to mailbox `b`, or at it, and has not acknowledged the request that is there for it. */
  ghost predicate OnItsWay(s: State, b: nat, h: nat)
    requires b < N_BOX && h < N_BOX
  {
    && Ranged(s) && Pending(s.pcs[b], h) && s.boxes[b].slots[h].valid && !s.boxes[b].slots[h].ready
    && Receiving(s.pcs[h]) && s.pcs[h].i <= b
  }

  ghost predicate Acknowledged(s: State, b: nat, h: nat)
    requires b < N_BOX && h < N_BOX
  {
    Ranged(s) && s.boxes[b].slots[h].ready && s.boxes[b].slots[h].applied == s.boxes[b].sent
  }

  lemma OwnStep(s: State, e: Event, b: nat, h: nat)
    requires Inv(s) && b < N_BOX && 1 <= h < N_BOX && h != b && e.hart == h && OnItsWay(s, b, h)
    ensures var r := Step(s, e);
            || (r.boxes[b].slots[h].ready && r.boxes[b].slots[h].applied == r.boxes[b].sent)
            || (OnItsWay(r, b, h) && Until(r.pcs[h], b) < Until(s.pcs[h], b))
  {
    assert PairAt(s, b, h);
  }

  lemma OtherStep(s: State, e: Event, b: nat, h: nat)
    requires Inv(s) && b < N_BOX && 1 <= h < N_BOX && h != b && e.hart < N_BOX && e.hart != h && OnItsWay(s, b, h)
    ensures OnItsWay(Step(s, e), b, h) && Step(s, e).pcs[h] == s.pcs[h]
  {
    assert PairAt(s, b, h);
  }

  /** At some moment of `more` hart `h` has acknowledged the request of hart `b`. */
  ghost predicate AcknowledgedWithin(run: seq<Event>, more: seq<Event>, b: nat, h: nat)
    requires ValidRun(run + more) && b < N_BOX && h < N_BOX
  {
    exists j :: 0 <= j <= |more| && ValidRun(run + more[..j]) && Acknowledged(After(run + more[..j]), b, h)
  }

  lemma {:induction false} WithinFront(run: seq<Event>, more: seq<Event>, b: nat, h: nat)
    requires ValidRun(run + more) && b < N_BOX && h < N_BOX && more != []
    requires ValidRun(run + more[..|more| - 1]) && AcknowledgedWithin(run, more[..|more| - 1], b, h)
    ensures AcknowledgedWithin(run, more, b, h)
  {
    var front := more[..|more| - 1];
    var j :| 0 <= j <= |front| && ValidRun(run + front[..j]) && Acknowledged(After(run + front[..j]), b, h);
    assert front[..j] == more[..j];
  }

  lemma {:induction false} ReceiverGoesOn(run: seq<Event>, more: seq<Event>, b: nat, h: nat)
    requires ValidRun(run) && ValidRun(run + more) && Clean(run + more) && b < N_BOX && 1 <= h < N_BOX && h != b
    requires OnItsWay(After(run), b, h)
    ensures AcknowledgedWithin(run, more, b, h)
         || (OnItsWay(After(run + more), b, h)
             && Steps(more, h) + Until(After(run + more).pcs[h], b) <= Until(After(run).pcs[h], b))
    decreases |more|
  {
    if more == [] {
      assert run + more == run;
    } else {
      CleanMore(run, more);
      var front := more[..|more| - 1];
      ReceiverGoesOn(run, front, b, h);
      if AcknowledgedWithin(run, front, b, h) {
        WithinFront(run, more, b, h);
      } else {
        CleanInv(run + front);
        StepOn(run, more, b, h);
      }
    }
  }

  lemma {:induction false} StepOn(run: seq<Event>, more: seq<Event>, b: nat, h: nat)
    requires ValidRun(run + more) && more != [] && b < N_BOX && 1 <= h < N_BOX && h != b
    requires ValidRun(run + more[..|more| - 1])
    requires var s := After(run + more[..|more| - 1]); Inv(s) && OnItsWay(s, b, h)
    ensures var (s, r) := (After(run + more[..|more| - 1]), After(run + more));
            || AcknowledgedWithin(run, more, b, h)
            || (OnItsWay(r, b, h)
                && Until(r.pcs[h], b) <= Until(s.pcs[h], b) - (if more[|more| - 1].hart == h then 1 else 0))
  {
    AfterMore(run, more);
    var (s, e) := (After(run + more[..|more| - 1]), more[|more| - 1]);
    if e.hart == h {
      OwnStep(s, e, b, h);
      assert more[..|more|] == more;
    } else {
      OtherStep(s, e, b, h);
    }
  }

  /**
   A hart that begins `mon_ipi_check` while a request of hart `b` waits for it has applied and acknowledged it
   within 6 (b + 1) further steps of its own, whatever others do in between.
   */
  lemma {:induction false} ReceiverAcknowledges(run: seq<Event>, more: seq<Event>, b: nat, h: nat)
    requires ValidRun(run) && ValidRun(run + more) && Clean(run + more) && b < N_BOX && 1 <= h < N_BOX && h != b
    requires var s := After(run);
             s.pcs[h] == Check(0) && Pending(s.pcs[b], h) && !s.boxes[b].slots[h].ready
    requires Steps(more, h) >= 6 * (b + 1)
    ensures AcknowledgedWithin(run, more, b, h)
  {
    CleanPrefix(run, more);
    CleanInv(run);
    WaitsForHim(After(run), b, h);
    ReceiverGoesOn(run, more, b, h);
  }

  lemma WaitsForHim(s: State, b: nat, h: nat)
    requires Inv(s) && b < N_BOX && 1 <= h < N_BOX && h != b
    requires s.pcs[h] == Check(0) && Pending(s.pcs[b], h) && !s.boxes[b].slots[h].ready
    ensures OnItsWay(s, b, h) && Until(s.pcs[h], b) == 6 * (b + 1)
  {
    assert PairAt(s, b, h);
  }

  lemma {:induction false} CleanPrefix(run: seq<Event>, more: seq<Event>)
    requires ValidRun(run) && ValidRun(run + more) && Clean(run + more)
    ensures Clean(run)
    decreases |more|
  {
    if more == [] {
      assert run + more == run;
    } else {
      CleanMore(run, more);
      CleanPrefix(run, more[..|more| - 1]);
    }
  }

  // ---------- two senders ----------

  /** Both harts wait, each for the other. */
  ghost predicate Deadlocked(s: State, b: nat, c: nat) {
    && Ranged(s) && 1 <= b < N_BOX && 1 <= c < N_BOX && b != c && s.pcs[b].Wait? && s.pcs[c].Wait?
    && !s.boxes[b].slots[c].ready && !s.boxes[c].slots[b].ready
  }

  lemma DeadlockStep(s: State, e: Event, b: nat, c: nat)
    requires Inv(s) && e.hart < N_BOX && Deadlocked(s, b, c)
    ensures Deadlocked(Step(s, e), b, c)
  {
    assert PairAt(s, b, c) && PairAt(s, c, b);
  }

  /** Two harts that wait for each other do so for ever. */
  lemma {:induction false} DeadlockStays(run: seq<Event>, more: seq<Event>, b: nat, c: nat)
    requires ValidRun(run) && ValidRun(run + more) && Clean(run + more) && Deadlocked(After(run), b, c)
    ensures Deadlocked(After(run + more), b, c)
    decreases |more|
  {
    if more == [] {
      assert run + more == run;
    } else {
      AfterMore(run, more);
      CleanMore(run, more);
      var front := more[..|more| - 1];
      DeadlockStays(run, front, b, c);
      CleanInv(run + front);
      DeadlockStep(After(run + front), more[|more| - 1], b, c);
    }
  }

  /** Nobody receives, and harts `b` and `c` have not acknowledged each other's requests. */
  ghost predicate Unanswered(s: State, b: nat, c: nat)
    requires b < N_BOX && c < N_BOX
  {
    && Ranged(s) && (forall h :: 0 <= h < N_BOX ==> !Receiving(s.pcs[h]))
    && !s.boxes[b].slots[c].ready && !s.boxes[c].slots[b].ready
  }

  lemma UnansweredStep(s: State, e: Event, b: nat, c: nat)
    requires b < N_BOX && c < N_BOX && b != c && Unanswered(s, b, c) && e.hart < N_BOX && e.act != Receive
    ensures Unanswered(Step(s, e), b, c) && !Misreads(s, e)
  {
  }

  lemma {:induction false} NobodyReceives(run: seq<Event>, b: nat, c: nat)
    requires ValidRun(run) && b < N_BOX && c < N_BOX && b != c && forall i :: 0 <= i < |run| ==> run[i].act != Receive
    ensures Clean(run) && Unanswered(After(run), b, c)
    decreases |run|
  {
    if run != [] {
      NobodyReceives(run[..|run| - 1], b, c);
      UnansweredStep(After(run[..|run| - 1]), run[|run| - 1], b, c);
    }
  }

  /** Seven steps of one hart. */
  function Seven(h: nat): (r: seq<Event>)
    ensures |r| == 7 && forall i :: 0 <= i < 7 ==> r[i] == Event(h, Stay)
  {
    seq(7, _ => Event(h, Stay))
  }

  lemma {:induction false} StepsOf(run: seq<Event>, h: nat, k: nat)
    requires forall i :: 0 <= i < |run| ==> run[i].hart == h
    ensures Steps(run, k) == if k == h then |run| else 0
  {
    if run != [] { StepsOf(run[..|run| - 1], h, k); }
  }

  /** A whole call up to its wait loop. */
  function Call(h: nat, q: Request): (r: seq<Event>)
    ensures |r| == 8 && r[0] == Event(h, Send(q)) && forall i :: 1 <= i < 8 ==> r[i] == Event(h, Stay)
  {
    [Event(h, Send(q))] + Seven(h)
  }

  lemma {:induction false} CallWaits(run: seq<Event>, b: nat, q: Request)
    requires ValidRun(run) && b < N_BOX && After(run).pcs[b] == Idle
    requires forall i :: 0 <= i < |run| ==> run[i].act != Receive
    ensures ValidRun(run + Call(b, q)) && After(run + Call(b, q)).pcs[b] == Wait(q, 1)
    ensures forall h :: 0 <= h < N_BOX && h != b ==> After(run + Call(b, q)).pcs[h] == After(run).pcs[h]
  {
    var start := run + [Event(b, Send(q))];
    assert start[..|run|] == run;
    assert run + Call(b, q) == start + Seven(b);
    StepsOf(Seven(b), b, b);
    PreparesAfter(start, Seven(b), b, q);
    forall h | 0 <= h < N_BOX && h != b ensures After(start + Seven(b)).pcs[h] == After(start).pcs[h] {
      StaysPut(start, Seven(b), h);
    }
  }

  lemma {:induction false} StaysPut(run: seq<Event>, more: seq<Event>, h: nat)
    requires ValidRun(run) && ValidRun(run + more) && h < N_BOX && forall i :: 0 <= i < |more| ==> more[i].hart != h
    ensures After(run + more).pcs[h] == After(run).pcs[h]
    decreases |more|
  {
    if more == [] {
      assert run + more == run;
    } else {
      AfterMore(run, more);
      StaysPut(run, more[..|more| - 1], h);
    }
  }

  /** Any two harts that send one after the other, before either looks at its mailbox, wait for each other. */
  lemma {:induction false} DeadlockReached(b: nat, c: nat, p: Request, q: Request) returns (run: seq<Event>)
    requires 1 <= b < N_BOX && 1 <= c < N_BOX && b != c
    ensures run == Call(b, p) + Call(c, q) && ValidRun(run) && Clean(run) && Deadlocked(After(run), b, c)
  {
    run := Call(b, p) + Call(c, q);
    var none: seq<Event> := [];
    assert none + Call(b, p) == Call(b, p);
    CallWaits([], b, p);
    CallWaits(Call(b, p), c, q);
    NobodyReceives(run, b, c);
  }
}
