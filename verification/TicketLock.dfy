/**
 The ticket lock of riscv_locks.c, one memory access at a time, for any number of threads.

 `arrived` lists the threads in the order they took tickets, `granted` in the order they got
 the lock, `place` each thread's latest index in `arrived`, and `head` counts the releases. They
 record history; no step looks at them.
 */
module TicketLock {
  const TICKETS: nat := 0x1_0000

  /** The lock word: owner in the low half, next in the high half. */
  function Word(owner: nat, next: nat): nat { owner + TICKETS * next }

  /** The increment of a 16-bit half. */
  function Inc(x: nat): nat { if x + 1 == TICKETS then 0 else x + 1 }

  /** The ticket number of the k-th ticket ever taken. */
  function Ticket(k: nat): (r: nat)
    ensures r < TICKETS
  {
    if k == 0 then 0 else Inc(Ticket(k - 1))
  }

  lemma {:induction false} TicketValue(k: nat)
    ensures Ticket(k) == k % TICKETS
  {
    if k > 0 { TicketValue(k - 1); }
  }

  datatype Pc =
    | Idle
    | Compare(ticket: nat, seen: nat)
    | Reload(ticket: nat)
    | Holding
    | Releasing(loaded: nat)
    | TryLoad
    | TryStore(owner: nat, next: nat)

  datatype State = State(owner: nat, next: nat, pcs: seq<Pc>, reserved: set<nat>,
                         arrived: seq<nat>, granted: seq<nat>, place: seq<nat>, head: nat)

  /** What an idle thread or a holder does next; `fail` lets a store-conditional fail spuriously. */
  datatype Act = Lock | TryLock | Go(fail: bool)

  datatype Event = Event(thread: nat, act: Act)

  function At(s: State, t: nat, pc: Pc): State
    requires t < |s.pcs|
  {
    s.(pcs := s.pcs[t := pc])
  }

  /** A write to the lock word takes away every reservation. */
  function TakeTicket(s: State, t: nat): State
    requires t < |s.place|
  {
    s.(next := Inc(s.next), reserved := {}, arrived := s.arrived + [t], place := s.place[t := |s.arrived|])
  }

  function Granted(s: State, t: nat): State
    requires t < |s.pcs|
  {
    At(s, t, Holding).(granted := s.granted + [t])
  }

  function Step(s: State, e: Event): (r: State)
    requires e.thread < |s.pcs| == |s.place|
    ensures |r.pcs| == |s.pcs| == |r.place|
  {
    var t := e.thread;
    match s.pcs[t]
    case Idle =>
      (match e.act
       case Lock => At(TakeTicket(s, t), t, Compare(s.next, s.owner))
       case TryLock => At(s, t, TryLoad)
       case Go(_) => s)
    case Compare(ticket, seen) => if ticket == seen then Granted(s, t) else At(s, t, Reload(ticket))
    case Reload(ticket) => At(s, t, Compare(ticket, s.owner))
    case Holding => At(s, t, Releasing(s.owner))
    case Releasing(loaded) =>
      At(s.(owner := Inc(loaded), reserved := {}, head := s.head + 1), t, Idle)
    case TryLoad =>
      var l0 := Word(s.owner, s.next);
      if s.owner != s.next then (if l0 == 0 then Granted(s, t) else At(s, t, Idle))
      else At(s.(reserved := s.reserved + {t}), t, TryStore(s.owner, s.next))
    case TryStore(owner, next) =>
      if t in s.reserved && !(e.act == Go(true))
      then Granted(TakeTicket(s.(owner := owner, next := next), t), t)
      else At(s.(reserved := s.reserved - {t}), t, TryLoad)
  }

  /** `amoadd` of 1 << 16 increments the next half and leaves the owner half alone. */
  lemma AmoaddAddsTicket(owner: nat, next: nat)
    requires owner < TICKETS && next < TICKETS
    ensures (Word(owner, next) + TICKETS) % (TICKETS * TICKETS) == Word(owner, Inc(next))
  {
    if next == TICKETS - 1 {
      assert Word(owner, next) + TICKETS == owner + TICKETS * TICKETS;
    }
  }

  function Start(n: nat): State {
    State(0, 0, seq(n, _ => Idle), {}, [], [], seq(n, _ => 0), 0)
  }

  predicate ValidRun(n: nat, run: seq<Event>) {
    forall i :: 0 <= i < |run| ==> run[i].thread < n
  }

  /** The state of `n` threads and the lock after a run, oldest event first. */
  function After(n: nat, run: seq<Event>): (s: State)
    requires ValidRun(n, run)
    ensures |s.pcs| == n == |s.place|
    decreases |run|
  {
    if run == [] then Start(n) else Step(After(n, run[..|run| - 1]), run[|run| - 1])
  }

  // ---------- the invariant ----------

  predicate InLine(pc: Pc) { pc.Compare? || pc.Reload? || pc.Holding? || pc.Releasing? }

  predicate Holds(pc: Pc) { pc.Holding? || pc.Releasing? }

  /** A thread in line has a place in it, and its ticket is that place's number. */
  predicate Queued(s: State, t: nat)
    requires t < |s.pcs| == |s.place|
  {
    var k := s.place[t];
    InLine(s.pcs[t]) ==>
      && s.head <= k < |s.arrived| && s.arrived[k] == t
      && match s.pcs[t]
         case Compare(ticket, seen) => ticket == Ticket(k) && (seen == ticket ==> k == s.head)
         case Reload(ticket) => ticket == Ticket(k)
         case Holding => k == s.head
         case Releasing(loaded) => k == s.head && loaded == s.owner
         case _ => true
  }

  /** The k-th place is taken by the thread that thinks so. */
  predicate Taken(s: State, k: nat)
    requires s.head <= k < |s.arrived| && |s.pcs| == |s.place|
  {
    var t := s.arrived[k];
    t < |s.pcs| && s.place[t] == k && InLine(s.pcs[t])
  }

  /** A reservation is for the word as it stands; only an unlocked word is stored to. */
  predicate TryOk(s: State, t: nat)
    requires t < |s.pcs|
  {
    && (t in s.reserved ==> s.pcs[t] == TryStore(s.owner, s.next))
    && (s.pcs[t].TryStore? ==> s.pcs[t].owner == s.pcs[t].next)
  }

  ghost predicate Inv(s: State) {
    && |s.pcs| == |s.place| && s.head <= |s.arrived|
    && s.owner == Ticket(s.head) && s.next == Ticket(|s.arrived|)
    && (forall t :: 0 <= t < |s.pcs| ==> Queued(s, t) && TryOk(s, t))
    && (forall k :: s.head <= k < |s.arrived| ==> Taken(s, k))
    && s.granted == s.arrived[..GrantCount(s)]
  }

  /** Everyone released so far, and the holder if there is one. */
  function GrantCount(s: State): (c: nat)
    requires s.head <= |s.arrived|
    ensures c <= |s.arrived|
  {
    if s.head < |s.arrived| && s.arrived[s.head] < |s.pcs| && Holds(s.pcs[s.arrived[s.head]]) then s.head + 1
        else s.head
  }

  // ---------- at most n threads are in line ----------

  function Below(n: nat): (r: set<nat>)
    ensures |r| == n && forall t: nat :: t in r <==> t < n
  {
    if n == 0 then {} else Below(n - 1) + {n - 1}
  }

  /** Distinct thread numbers below `n` are at most `n`. */
  lemma {:induction false} DistinctBelow(q: seq<nat>, n: nat)
    requires forall k :: 0 <= k < |q| ==> q[k] < n
    requires forall j, k :: 0 <= j < k < |q| ==> q[j] != q[k]
    ensures |q| <= n
  {
    var members := set k | 0 <= k < |q| :: q[k];
    SetOfDistinct(q);
    Subset(members, Below(n));
  }

  lemma {:induction false} SetOfDistinct(q: seq<nat>)
    requires forall j, k :: 0 <= j < k < |q| ==> q[j] != q[k]
    ensures |set k | 0 <= k < |q| :: q[k]| == |q|
  {
    if q != [] {
      var front := q[..|q| - 1];
      SetOfDistinct(front);
      assert (set k | 0 <= k < |q| :: q[k]) == (set k | 0 <= k < |front| :: front[k]) + {q[|q| - 1]};
    }
  }

  lemma {:induction false} Subset(a: set<nat>, b: set<nat>)
    requires a <= b
    ensures |a| <= |b|
  {
    if a != {} {
      var x :| x in a;
      Subset(a - {x}, b - {x});
    }
  }

  lemma LineFits(s: State)
    requires Inv(s)
    ensures |s.arrived| - s.head <= |s.pcs|
  {
    var line := s.arrived[s.head..];
    forall k | 0 <= k < |line| ensures line[k] < |s.pcs| && s.place[line[k]] == s.head + k {
      assert Taken(s, s.head + k);
    }
    DistinctBelow(line, |s.pcs|);
  }

  /** A thread that is not in line leaves room for itself. */
  lemma RoomForOne(s: State, t: nat)
    requires Inv(s) && t < |s.pcs| && !InLine(s.pcs[t])
    ensures |s.arrived| - s.head < |s.pcs|
  {
    var line := s.arrived[s.head..];
    forall k | 0 <= k < |line| ensures line[k] < |s.pcs| && s.place[line[k]] == s.head + k && line[k] != t {
      assert Taken(s, s.head + k);
    }
    DistinctBelow(line + [t], |s.pcs|);
  }

  // ---------- every step keeps it ----------

  lemma SameTicket(a: nat, b: nat)
    requires a <= b < a + TICKETS && Ticket(a) == Ticket(b)
    ensures a == b
  {
    TicketValue(a);
    TicketValue(b);
  }

  /** Taking a ticket, by `spin_lock` or by a successful `spin_trylock`. */
  lemma TakeKeepsInv(s: State, t: nat, r: State)
    requires Inv(s) && |s.pcs| <= TICKETS && t < |s.pcs| && !InLine(s.pcs[t])
    requires (r.pcs == s.pcs[t := Compare(s.next, s.owner)] && r.granted == s.granted)
          || (r.pcs == s.pcs[t := Holding] && r.granted == s.granted + [t] && s.owner == s.next)
    requires r.owner == s.owner && r.next == Inc(s.next) && r.reserved == {}
    requires r.arrived == s.arrived + [t] && r.place == s.place[t := |s.arrived|] && r.head == s.head
    ensures Inv(r)
  {
    RoomForOne(s, t);
    var n := |s.arrived|;
    if s.owner == s.next { SameTicket(s.head, n); }
    forall u | 0 <= u < |r.pcs| ensures Queued(r, u) && TryOk(r, u) { assert Queued(s, u) && TryOk(s, u); }
    forall k | r.head <= k < |r.arrived| ensures Taken(r, k) { if k < n { assert Taken(s, k); } }
    assert s.head < n ==> Taken(s, s.head);
    assert r.granted == r.arrived[..GrantCount(r)];
  }

  /** A thread in line moves without taking or giving back its ticket. */
  lemma MoveKeepsInv(s: State, t: nat, r: State)
    requires Inv(s) && |s.pcs| <= TICKETS && t < |s.pcs|
    requires match s.pcs[t]
             case Compare(ticket, seen) =>
               if ticket == seen then r == s.(pcs := s.pcs[t := Holding], granted := s.granted + [t])
               else r == s.(pcs := s.pcs[t := Reload(ticket)])
             case Reload(ticket) => r == s.(pcs := s.pcs[t := Compare(ticket, s.owner)])
             case Holding => r == s.(pcs := s.pcs[t := Releasing(s.owner)])
             case _ => false
    ensures Inv(r)
  {
    LineFits(s);
    assert Queued(s, t);
    if s.pcs[t].Reload? && s.pcs[t].ticket == s.owner { SameTicket(s.head, s.place[t]); }
    forall u | 0 <= u < |r.pcs| ensures Queued(r, u) && TryOk(r, u) { assert Queued(s, u) && TryOk(s, u); }
    forall k | r.head <= k < |r.arrived| ensures Taken(r, k) { assert Taken(s, k); }
    assert r.granted == r.arrived[..GrantCount(r)];
  }

  lemma ReleaseKeepsInv(s: State, t: nat, r: State)
    requires Inv(s) && t < |s.pcs| && s.pcs[t].Releasing?
    requires r == s.(pcs := s.pcs[t := Idle], owner := Inc(s.pcs[t].loaded), reserved := {}, head := s.head + 1)
    ensures Inv(r)
  {
    assert Queued(s, t);
    forall k | r.head <= k < |r.arrived| ensures Taken(r, k) && !Holds(r.pcs[r.arrived[k]]) {
      assert Taken(s, k);
      assert Queued(s, s.arrived[k]);
    }
    forall u | 0 <= u < |r.pcs| ensures Queued(r, u) && TryOk(r, u) { assert Queued(s, u) && TryOk(s, u); }
    assert GrantCount(s) == r.head == GrantCount(r);
  }

  /** Steps outside the line: starting or failing a `spin_trylock`. */
  lemma AsideKeepsInv(s: State, t: nat, pc: Pc, r: State)
    requires Inv(s) && t < |s.pcs| && !InLine(s.pcs[t]) && !InLine(pc)
    requires pc.TryStore? ==> pc.owner == pc.next
    requires r == s.(pcs := s.pcs[t := pc], reserved := r.reserved)
    requires r.reserved == if pc == TryStore(s.owner, s.next) then s.reserved + {t} else s.reserved - {t}
    ensures Inv(r)
  {
    forall u | 0 <= u < |r.pcs| ensures Queued(r, u) && TryOk(r, u) { assert Queued(s, u) && TryOk(s, u); }
    forall k | r.head <= k < |r.arrived| ensures Taken(r, k) { assert Taken(s, k); }
    assert GrantCount(s) == GrantCount(r);
  }

  lemma StepKeepsInv(s: State, e: Event)
    requires Inv(s) && |s.pcs| <= TICKETS && e.thread < |s.pcs|
    ensures Inv(Step(s, e))
  {
    var t, r := e.thread, Step(s, e);
    assert TryOk(s, t);
    match s.pcs[t]
    case Idle =>
      if e.act == Lock { TakeKeepsInv(s, t, r); } else if e.act == TryLock {
        assert t !in s.reserved;
        assert s.reserved - {t} == s.reserved;
        AsideKeepsInv(s, t, TryLoad, r);
      }
    case Compare(_, _) => MoveKeepsInv(s, t, r);
    case Reload(_) => MoveKeepsInv(s, t, r);
    case Holding => MoveKeepsInv(s, t, r);
    case Releasing(_) => ReleaseKeepsInv(s, t, r);
    case TryLoad =>
      assert t !in s.reserved;
      assert s.reserved - {t} == s.reserved;
      AsideKeepsInv(s, t, if s.owner != s.next then Idle else TryStore(s.owner, s.next), r);
    case TryStore(owner, next) =>
      if t in s.reserved && !(e.act == Go(true)) { TakeKeepsInv(s, t, r); } else { AsideKeepsInv(s, t, TryLoad, r); }
  }

  lemma {:induction false} Reached(n: nat, run: seq<Event>)
    requires n <= TICKETS && ValidRun(n, run)
    ensures Inv(After(n, run))
    decreases |run|
  {
    if run != [] {
      Reached(n, run[..|run| - 1]);
      StepKeepsInv(After(n, run[..|run| - 1]), run[|run| - 1]);
    }
  }

  // ---------- the promises ----------

  /** At most one thread holds the lock, in every run of up to 2^16 threads. */
  lemma MutualExclusion(n: nat, run: seq<Event>, t: nat, u: nat)
    requires n <= TICKETS && ValidRun(n, run) && t < n && u < n
    requires Holds(After(n, run).pcs[t]) && Holds(After(n, run).pcs[u])
    ensures t == u
  {
    Reached(n, run);
    var s := After(n, run);
    assert Queued(s, t) && Queued(s, u);
  }

  /** The lock is granted in the order in which tickets were taken, across counter wraparound. */
  lemma GrantedInOrder(n: nat, run: seq<Event>)
    requires n <= TICKETS && ValidRun(n, run)
    ensures After(n, run).granted <= After(n, run).arrived
  {
    Reached(n, run);
  }

  /** The thread in place `k` spins on the ticket `k - head` after the owner's. */
  predicate InPlace(s: State, k: nat)
    requires s.head <= k < |s.arrived|
  {
    && s.arrived[k] < |s.pcs|
    && var pc := s.pcs[s.arrived[k]];
       InLine(pc) && (pc.Compare? || pc.Reload? ==> pc.ticket == (s.owner + (k - s.head)) % TICKETS)
  }

  /**
   The outstanding tickets are owner .. next - 1 modulo 2^16: the k-th thread in line spins on
   ticket owner + k, no thread is in line twice, and the counters differ by the length of the line.
   */
  lemma OutstandingTickets(n: nat, run: seq<Event>)
    requires n < TICKETS && ValidRun(n, run)
    ensures InOrder(After(n, run))
  {
    Reached(n, run);
    LineInOrder(After(n, run));
  }

  ghost predicate InOrder(s: State) {
    && s.head <= |s.arrived|
    && |s.arrived| - s.head == (s.next - s.owner) % TICKETS
    && (forall j, k :: s.head <= j < k < |s.arrived| ==> s.arrived[j] != s.arrived[k])
    && (forall k :: s.head <= k < |s.arrived| ==> InPlace(s, k))
    && (forall t :: 0 <= t < |s.pcs| && InLine(s.pcs[t]) ==> t in s.arrived[s.head..])
  }

  lemma LineInOrder(s: State)
    requires Inv(s) && |s.pcs| < TICKETS
    ensures InOrder(s)
  {
    LineInPlace(s);
    LineDistinct(s);
  }

  lemma LineInPlace(s: State)
    requires Inv(s) && |s.pcs| < TICKETS
    ensures |s.arrived| - s.head == (s.next - s.owner) % TICKETS
    ensures forall k :: s.head <= k < |s.arrived| ==> InPlace(s, k)
  {
    LineFits(s);
    LineLength(s.head, |s.arrived|);
    forall k | s.head <= k < |s.arrived| ensures InPlace(s, k) {
      assert Taken(s, k) && Queued(s, s.arrived[k]);
      LineLength(s.head, k);
    }
  }

  lemma LineDistinct(s: State)
    requires Inv(s)
    ensures forall j, k :: s.head <= j < k < |s.arrived| ==> s.arrived[j] != s.arrived[k]
    ensures forall t :: 0 <= t < |s.pcs| && InLine(s.pcs[t]) ==> t in s.arrived[s.head..]
  {
    forall j, k | s.head <= j < k < |s.arrived| ensures s.arrived[j] != s.arrived[k] {
      assert Taken(s, j) && Taken(s, k);
    }
    forall t | 0 <= t < |s.pcs| && InLine(s.pcs[t]) ensures t in s.arrived[s.head..] {
      assert Queued(s, t);
      assert s.arrived[s.head..][s.place[t] - s.head] == t;
    }
  }

  lemma LineLength(a: nat, b: nat)
    requires a <= b < a + TICKETS
    ensures (Ticket(a) + (b - a)) % TICKETS == Ticket(b) && (Ticket(b) - Ticket(a)) % TICKETS == b - a
  {
    TicketDistance(a, b);
    SmallMod(Ticket(a) + (b - a), Ticket(b));
    SmallMod(Ticket(b) - Ticket(a), b - a);
  }

  lemma {:induction false} TicketDistance(a: nat, b: nat)
    requires a <= b < a + TICKETS
    ensures Ticket(b) == Ticket(a) + (b - a) || Ticket(b) == Ticket(a) + (b - a) - TICKETS
    decreases b
  {
    if a < b { TicketDistance(a, b - 1); }
  }

  lemma SmallMod(x: int, y: nat)
    requires y < TICKETS && (x == y || x == y + TICKETS || x == y - TICKETS)
    ensures x % TICKETS == y
  {
  }

  // ---------- progress ----------

  /** How many events of a run are steps of thread `t`. */
  function Steps(run: seq<Event>, t: nat): nat {
    if run == [] then 0
    else Steps(run[..|run| - 1], t) + if run[|run| - 1].thread == t then 1 else 0
  }

  /** The steps a thread at the head of the line still has to take until it has released the lock. */
  function Left(pc: Pc): nat {
    match pc
    case Compare(ticket, seen) => if ticket == seen then 3 else 5
    case Reload(_) => 4
    case Holding => 2
    case Releasing(_) => 1
    case _ => 0
  }

  /** Thread `u` is at the head of the line and has `k` steps to go. */
  predicate Heads(s: State, u: nat, k: nat) {
    && s.head < |s.arrived| && s.arrived[s.head] == u < |s.pcs|
    && InLine(s.pcs[u]) && Left(s.pcs[u]) == k
  }

  /** Only its own steps bring the thread at the head on, each of them does, and the last one gives its place up. */
  lemma HeadMoves(s: State, e: Event, u: nat, k: nat)
    requires Inv(s) && |s.pcs| <= TICKETS && e.thread < |s.pcs| && Heads(s, u, k)
    ensures var r := Step(s, e);
            if e.thread != u then Heads(r, u, k) && r.head == s.head
            else if k > 1 then Heads(r, u, k - 1) && r.head == s.head
            else r.head == s.head + 1
  {
    var t := e.thread;
    assert Taken(s, s.head) && Queued(s, u) && Queued(s, t) && TryOk(s, t);
  }

  lemma {:induction false} AfterMore(n: nat, run: seq<Event>, more: seq<Event>)
    requires ValidRun(n, run + more) && more != []
    ensures var (front, e) := (more[..|more| - 1], more[|more| - 1]);
            ValidRun(n, run + front) && e.thread < n && After(n, run + more) == Step(After(n, run + front), e)
  {
    Front(run, more);
  }

  lemma Front(run: seq<Event>, more: seq<Event>)
    requires more != []
    ensures var all := run + more;
            all != [] && all[..|all| - 1] == run + more[..|more| - 1] && all[|all| - 1] == more[|more| - 1]
  {
  }

  /** Whatever the others do: the thread at the head is where its own steps have brought it. */
  lemma {:induction false} HeadAfter(n: nat, run: seq<Event>, more: seq<Event>, u: nat, k: nat)
    requires n <= TICKETS && ValidRun(n, run) && ValidRun(n, run + more) && Heads(After(n, run), u, k)
    ensures var (s, r) := (After(n, run), After(n, run + more));
            if Steps(more, u) < k then Heads(r, u, k - Steps(more, u)) && r.head == s.head else r.head > s.head
    decreases |more|
  {
    if more == [] {
      assert run + more == run;
    } else {
      AfterMore(n, run, more);
      var front := more[..|more| - 1];
      HeadAfter(n, run, front, u, k);
      Reached(n, run + front);
      StepKeepsHead(After(n, run + front), more[|more| - 1]);
      if Steps(front, u) < k { HeadMoves(After(n, run + front), more[|more| - 1], u, k - Steps(front, u)); }
    }
  }

  lemma StepKeepsHead(s: State, e: Event)
    requires e.thread < |s.pcs| == |s.place|
    ensures Step(s, e).head >= s.head
  {
  }

  /**
   In every run, a thread whose turn it is and that does not hold the lock gets it with its first, second or
   third own step, whatever other threads do in between: the first if it has seen its turn, the second if it
   is about to look again, and the third if it saw another's turn.
   */
  lemma {:induction false} HeadIsGranted(n: nat, run: seq<Event>, more: seq<Event>, t: nat)
    requires n <= TICKETS && ValidRun(n, run) && ValidRun(n, run + more) && t < n
    requires var s := After(n, run); InLine(s.pcs[t]) && s.place[t] == s.head && !Holds(s.pcs[t])
    ensures var pc := After(n, run).pcs[t];
            var own := if pc.Reload? then 2 else if pc.ticket == pc.seen then 1 else 3;
            && (Steps(more, t) < own ==> !Holds(After(n, run + more).pcs[t]))
            && (Steps(more, t) == own ==> After(n, run + more).pcs[t] == Holding)
  {
    Reached(n, run);
    var s := After(n, run);
    assert Queued(s, t);
    HeadAfter(n, run, more, t, Left(s.pcs[t]));
  }

  /** A run in which `k` times over every thread takes five steps. */
  ghost predicate Rounds(n: nat, more: seq<Event>, k: nat)
    decreases k
  {
    k == 0 || exists i :: 0 <= i <= |more| && Busy(n, more[..i]) && Rounds(n, more[i..], k - 1)
  }

  ghost predicate Busy(n: nat, round: seq<Event>) {
    forall t :: 0 <= t < n ==> Steps(round, t) >= 5
  }

  lemma {:induction false} HeadNeverFalls(n: nat, run: seq<Event>, more: seq<Event>)
    requires ValidRun(n, run) && ValidRun(n, run + more)
    ensures After(n, run + more).head >= After(n, run).head
    decreases |more|
  {
    if more == [] {
      assert run + more == run;
    } else {
      AfterMore(n, run, more);
      HeadNeverFalls(n, run, more[..|more| - 1]);
      StepKeepsHead(After(n, run + more[..|more| - 1]), more[|more| - 1]);
    }
  }

  /** A round ends with a release, if anybody is in line. */
  lemma {:induction false} RoundReleases(n: nat, run: seq<Event>, round: seq<Event>)
    requires n <= TICKETS && ValidRun(n, run) && ValidRun(n, run + round) && Busy(n, round)
    requires After(n, run).head < |After(n, run).arrived|
    ensures After(n, run + round).head > After(n, run).head
  {
    Reached(n, run);
    var s := After(n, run);
    var u := s.arrived[s.head];
    assert Taken(s, s.head) && Queued(s, u);
    HeadAfter(n, run, round, u, Left(s.pcs[u]));
  }

  lemma {:induction false} ArrivedKept(n: nat, run: seq<Event>, more: seq<Event>)
    requires ValidRun(n, run) && ValidRun(n, run + more)
    ensures After(n, run).arrived <= After(n, run + more).arrived
    decreases |more|
  {
    if more == [] {
      assert run + more == run;
    } else {
      AfterMore(n, run, more);
      ArrivedKept(n, run, more[..|more| - 1]);
    }
  }

  lemma ValidFront(n: nat, run: seq<Event>, more: seq<Event>, i: nat)
    requires ValidRun(n, run + more) && i <= |more|
    ensures ValidRun(n, run + more[..i]) && run + more == (run + more[..i]) + more[i..]
  {
    forall j | 0 <= j < |run + more[..i]| ensures (run + more[..i])[j].thread < n {
      assert (run + more[..i])[j] == (run + more)[j];
    }
  }

  lemma FirstRound(n: nat, more: seq<Event>, k: nat) returns (i: nat)
    requires Rounds(n, more, k) && k > 0
    ensures i <= |more| && Busy(n, more[..i]) && Rounds(n, more[i..], k - 1)
  {
    i :| 0 <= i <= |more| && Busy(n, more[..i]) && Rounds(n, more[i..], k - 1);
  }

  lemma {:induction false} AfterRound(n: nat, run: seq<Event>, more: seq<Event>, i: nat, place: nat)
    requires n <= TICKETS && ValidRun(n, run) && ValidRun(n, run + more) && i <= |more| && Busy(n, more[..i])
    requires After(n, run).head <= place < |After(n, run).arrived|
    ensures ValidRun(n, run + more[..i]) && run + more == (run + more[..i]) + more[i..]
    ensures var r := After(n, run + more[..i]);
            After(n, run).head < r.head && place < |r.arrived|
  {
    ValidFront(n, run, more, i);
    RoundReleases(n, run, more[..i]);
    ArrivedKept(n, run, more[..i]);
  }

  lemma {:induction false} RoundsRelease(n: nat, run: seq<Event>, more: seq<Event>, place: nat, k: nat)
    requires n <= TICKETS && ValidRun(n, run) && ValidRun(n, run + more) && Rounds(n, more, k)
    requires place < |After(n, run).arrived| && place < After(n, run).head + k
    ensures After(n, run + more).head > place
    decreases k
  {
    if After(n, run).head > place {
      HeadNeverFalls(n, run, more);
    } else {
      var i := FirstRound(n, more, k);
      AfterRound(n, run, more, i, place);
      RoundsRelease(n, run + more[..i], more[i..], place, k - 1);
    }
  }

  /**
   Nobody starves: in every run, a thread with `k` others before it in the line has been granted the lock
   for its ticket, and has released it, once every thread has taken five steps `k + 1` times over.
   */
  lemma {:induction false} NobodyStarves(n: nat, run: seq<Event>, more: seq<Event>, t: nat)
    requires n <= TICKETS && ValidRun(n, run) && ValidRun(n, run + more) && t < n && InLine(After(n, run).pcs[t])
    requires After(n, run).head <= After(n, run).place[t]
    requires Rounds(n, more, After(n, run).place[t] - After(n, run).head + 1)
    ensures var (k, r) := (After(n, run).place[t], After(n, run + more));
            k < r.head <= |r.granted| && r.granted[k] == t
  {
    Reached(n, run);
    Reached(n, run + more);
    var s := After(n, run);
    assert Queued(s, t);
    RoundsRelease(n, run, more, s.place[t], s.place[t] - s.head + 1);
    ArrivedKept(n, run, more);
  }

  /** With a thread outside the line, the two halves of the word are equal exactly if nobody is in line. */
  lemma FreeIff(s: State, t: nat)
    requires Inv(s) && |s.pcs| <= TICKETS && t < |s.pcs| && s.pcs[t] == Idle
    ensures s.owner == s.next <==> s.head == |s.arrived|
    ensures s.head == |s.arrived| <==> forall u :: 0 <= u < |s.pcs| ==> !InLine(s.pcs[u])
  {
    RoomForOne(s, t);
    if s.owner == s.next { SameTicket(s.head, |s.arrived|); }
    if s.head == |s.arrived| {
      forall u | 0 <= u < |s.pcs| ensures !InLine(s.pcs[u]) { assert Queued(s, u); }
    } else {
      assert Taken(s, s.head);
    }
  }

  /** The steps of an undisturbed `spin_trylock`. */
  lemma TrySteps(s: State, t: nat, last: Event)
    requires t < |s.pcs| == |s.place| && s.pcs[t] == Idle && last == Event(t, Go(false))
    ensures var r := Step(Step(Step(s, Event(t, TryLock)), last), last);
            if s.owner == s.next then r.pcs == s.pcs[t := Holding] && r.owner == s.owner && r.next == Inc(s.next)
            else Word(s.owner, s.next) != 0 ==> r == s
  {
    assert s.pcs[t := TryLoad][t := Idle] == s.pcs;
  }

  /**
   `spin_trylock`, undisturbed and without a spurious failure: it ends with the lock exactly if nobody is in
   line, and otherwise leaves everything as it was.
   */
  lemma {:induction false} TryLockIff(n: nat, run: seq<Event>, t: nat, last: Event)
    requires n <= TICKETS && ValidRun(n, run) && t < n && After(n, run).pcs[t] == Idle && last == Event(t, Go(false))
    ensures var s := After(n, run);
            var r := Step(Step(Step(s, Event(t, TryLock)), last), last);
            if forall u :: 0 <= u < n ==> !InLine(s.pcs[u])
            then r.pcs == s.pcs[t := Holding] && r.owner == s.owner && r.next == Ticket(s.head + 1)
            else r == s
  {
    Reached(n, run);
    FreeIff(After(n, run), t);
    TrySteps(After(n, run), t, last);
  }

  // ---------- one thread more ----------

  /** The first `m` threads have called `spin_lock` and none has looked at its ticket. */
  function Crowd(m: nat): (run: seq<Event>)
    ensures |run| == m && forall i :: 0 <= i < m ==> run[i] == Event(i, Lock)
  {
    seq(m, i requires 0 <= i => Event(i, Lock))
  }

  lemma {:induction false} AfterCrowd(n: nat, m: nat)
    requires m <= n
    ensures var s := After(n, Crowd(m));
            && s.owner == 0 && s.next == Ticket(m)
            && forall t :: 0 <= t < n ==> s.pcs[t] == if t < m then Compare(Ticket(t), 0) else Idle
  {
    if m > 0 {
      AfterCrowd(n, m - 1);
      assert Crowd(m)[..m - 1] == Crowd(m - 1);
    }
  }

  lemma {:induction false} AfterTwo(n: nat, run: seq<Event>, a: Event, b: Event)
    requires ValidRun(n, run) && a.thread < n && b.thread < n
    ensures ValidRun(n, run + [a, b]) && After(n, run + [a, b]) == Step(Step(After(n, run), a), b)
  {
    var longer := run + [a, b];
    assert longer[..|longer| - 1] == run + [a];
    assert (run + [a])[..|run|] == run;
  }

  lemma TicketWraps(k: nat)
    requires k == TICKETS
    ensures Ticket(k) == 0
  {
    TicketValue(k);
  }

  /** With 2^16 + 1 threads in line the first and the last have the same ticket. */
  lemma TwoHolders(n: nat, last: nat) returns (run: seq<Event>)
    requires last == TICKETS < n
    ensures ValidRun(n, run) && After(n, run).pcs[0] == Holding && After(n, run).pcs[last] == Holding
  {
    TicketWraps(last);
    run := SameTicketHolds(n, last);
  }

  lemma {:induction false} SameTicketHolds(n: nat, last: nat) returns (run: seq<Event>)
    requires 0 < last < n && Ticket(last) == 0
    ensures ValidRun(n, run) && After(n, run).pcs[0] == Holding && After(n, run).pcs[last] == Holding
  {
    var crowd := Crowd(last + 1);
    AfterCrowd(n, last + 1);
    var a, b := Event(0, Go(false)), Event(last, Go(false));
    BothGranted(After(n, crowd), last, a, b);
    AfterTwo(n, crowd, a, b);
    run := crowd + [a, b];
  }

  lemma BothGranted(s: State, last: nat, a: Event, b: Event)
    requires 0 < last < |s.pcs| == |s.place| && a.thread == 0 && b.thread == last
    requires s.pcs[0] == Compare(0, 0) && s.pcs[last] == Compare(0, 0)
    ensures Step(Step(s, a), b).pcs[0] == Holding && Step(Step(s, a), b).pcs[last] == Holding
  {
  }

  /** Mutual exclusion holds in every run exactly when there are at most 2^16 threads. */
  lemma ExclusiveIffFewThreads(n: nat)
    ensures n <= TICKETS <==>
            forall run: seq<Event>, t: nat, u: nat ::
              ValidRun(n, run) && t < n && u < n && Holds(After(n, run).pcs[t]) && Holds(After(n, run).pcs[u]) ==>
                  t == u
  {
    if n <= TICKETS {
      forall run: seq<Event>, t: nat, u: nat |
        ValidRun(n, run) && t < n && u < n && Holds(After(n, run).pcs[t]) && Holds(After(n, run).pcs[u])
        ensures t == u
      {
        MutualExclusion(n, run, t, u);
      }
    } else {
      var run := TwoHolders(n, TICKETS);
      assert Holds(After(n, run).pcs[0]) && Holds(After(n, run).pcs[TICKETS]);
    }
  }
}
