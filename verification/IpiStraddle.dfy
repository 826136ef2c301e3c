/**
 A run of the mailboxes in which a receiver's two flag loads straddle the clearing of a request
 it has already taken, so that the exception in IpiMailbox is not an empty one.
 */
module IpiStraddle {
  import opened IpiMailbox

  /** Where the harts are, and which flags of hart 1's mailbox are up; the other mailboxes are unused. */
  ghost predicate Scene(s: State, pcs: seq<Pc>, data: Request, valid: set<nat>, ready: set<nat>) {
    && Ranged(s) && s.pcs == pcs && s.boxes[1].data == data
    && (forall h :: 0 <= h < N_BOX ==>
        (s.boxes[1].slots[h].valid <==> h in valid) && (s.boxes[1].slots[h].ready <==> h in ready))
    && (forall b, h :: 0 <= b < N_BOX && b != 1 && 0 <= h < N_BOX ==> !s.boxes[b].slots[h].valid)
  }

  /** Some run ends in `s`. */
  ghost predicate Reachable(s: State) {
    exists run: seq<Event> :: ValidRun(run) && After(run) == s
  }

  lemma ReachStep(s: State, e: Event)
    requires Reachable(s) && Ranged(s) && e.hart < N_BOX
    ensures Reachable(Step(s, e)) && Ranged(Step(s, e))
  {
    var run: seq<Event> :| ValidRun(run) && After(run) == s;
    var longer := run + [e];
    assert longer[..|run|] == run;
    assert After(longer) == Step(s, e);
  }

  lemma {:induction false} ReachAlone(s: State, h: nat, n: nat)
    requires Reachable(s) && Ranged(s) && h < N_BOX
    ensures Reachable(Alone(s, h, n)) && Ranged(Alone(s, h, n))
    decreases n
  {
    if n > 0 {
      var r := AloneOnce(s, h, n);
      ReachAlone(r, h, n - 1);
    }
  }

  /** The first of `n` steps of one hart alone. */
  lemma AloneOnce(s: State, h: nat, n: nat) returns (r: State)
    requires Reachable(s) && Ranged(s) && h < N_BOX && n > 0
    ensures Reachable(r) && Ranged(r) && Alone(s, h, n) == Alone(r, h, n - 1)
  {
    r := Step(s, Event(h, Stay));
    ReachStep(s, Event(h, Stay));
  }

  /** What one step of sending hart 1 does to its place, the update and the flags. */
  function SendView(pc: Pc, data: Request, valid: set<nat>, ready: set<nat>): (Pc, Request, set<nat>, set<nat>) {
    match pc
    case WritePerm(q) => (WriteRegion(q), data.(perm := q.perm), valid, ready)
    case WriteRegion(q) => (WriteKind(q), data.(region := q.region), valid, ready)
    case WriteKind(q) => (Post(q, 1), data.(kind := q.kind), valid, ready)
    case Post(q, i) =>
      (if i == 4 then Wait(q, 1) else Post(q, i + 1), data,
       if i == 1 then valid else valid + {i}, if i == 1 then ready + {1} else ready)
    case Wait(q, i) =>
      (if i !in ready then Wait(q, 1) else if i == 4 then ClearPerm else Wait(q, i + 1), data, valid, ready)
    case ClearPerm => (ClearRegion, data.(perm := 0), valid, ready)
    case ClearRegion => (ClearKind, data.(region := 0), valid, ready)
    case ClearKind => (ClearValid(1), data.(kind := 0), valid, ready)
    case ClearValid(i) => (ClearReady(i), data, valid - {i}, ready)
    case ClearReady(i) => (if i == 4 then Idle else ClearValid(i + 1), data, valid, ready - {i})
    case _ => (pc, data, valid, ready)
  }

  lemma SendScene(s: State, pcs: seq<Pc>, data: Request, valid: set<nat>, ready: set<nat>)
    requires Scene(s, pcs, data, valid, ready) && (Sending(pcs[1]) || pcs[1].Idle?)
    ensures var v := SendView(pcs[1], data, valid, ready);
            Scene(Step(s, Event(1, Stay)), pcs[1 := v.0], v.1, v.2, v.3)
  {
  }

  /** What one step of receiving hart `h` does. */
  function ReceiveView(pc: Pc, data: Request, valid: set<nat>, ready: set<nat>, h: nat): (Pc, set<nat>) {
    match pc
    case Check(i) => (if i == 1 && h in valid then CheckReady(1) else NextBox(i), ready)
    case CheckReady(i) => (if h in ready then NextBox(i) else LoadKind(i), ready)
    case LoadKind(i) => (LoadRegion(i, data.kind), ready)
    case LoadRegion(i, kind) => (if kind == 0 then LoadPerm(i, data.region) else Ack(i), ready)
    case LoadPerm(i, region) => (Ack(i), ready)
    case Ack(i) => (NextBox(i), ready + {h})
    case _ => (pc, ready)
  }

  predicate OnBoxOne(pc: Pc) { pc.Idle? || (Receiving(pc) && (pc.Check? || pc.i == 1)) }

  lemma ReceiveScene(s: State, pcs: seq<Pc>, data: Request, valid: set<nat>, ready: set<nat>, h: nat)
    requires Scene(s, pcs, data, valid, ready) && 2 <= h < N_BOX && OnBoxOne(pcs[h])
    ensures var v := ReceiveView(pcs[h], data, valid, ready, h);
            Scene(Step(s, Event(h, Stay)), pcs[h := v.0], data, valid, v.1)
  {
  }

  function SendMany(pc: Pc, data: Request, valid: set<nat>, ready: set<nat>, n: nat): (Pc, Request, set<nat>, set<nat>)
    decreases n
  {
    if n == 0 then (pc, data, valid, ready)
    else
      var v := SendView(pc, data, valid, ready);
      SendMany(v.0, v.1, v.2, v.3, n - 1)
  }

  lemma {:induction false} SendsMany(s: State, pcs: seq<Pc>, data: Request, valid: set<nat>, ready: set<nat>, n: nat)
    requires Scene(s, pcs, data, valid, ready) && (Sending(pcs[1]) || pcs[1].Idle?)
    ensures var v := SendMany(pcs[1], data, valid, ready, n);
            Scene(Alone(s, 1, n), pcs[1 := v.0], v.1, v.2, v.3)
    decreases n
  {
    if n == 0 {
      assert pcs[1 := pcs[1]] == pcs;
    } else {
      SendScene(s, pcs, data, valid, ready);
      var v := SendView(pcs[1], data, valid, ready);
      SendsMany(Step(s, Event(1, Stay)), pcs[1 := v.0], v.1, v.2, v.3, n - 1);
      var w := SendMany(v.0, v.1, v.2, v.3, n - 1);
      assert pcs[1 := v.0][1 := w.0] == pcs[1 := w.0];
    }
  }

  function ReceiveMany(pc: Pc, data: Request, valid: set<nat>, ready: set<nat>, h: nat, n: nat): (Pc, set<nat>)
    decreases n
  {
    if n == 0 then (pc, ready)
    else
      var v := ReceiveView(pc, data, valid, ready, h);
      ReceiveMany(v.0, data, valid, v.1, h, n - 1)
  }

  lemma {:induction false} ReceivesMany(s: State, pcs: seq<Pc>, data: Request, valid: set<nat>, ready: set<nat>,
                                        h: nat, n: nat)
    requires Scene(s, pcs, data, valid, ready) && 2 <= h < N_BOX && OnBoxOne(pcs[h])
    ensures var v := ReceiveMany(pcs[h], data, valid, ready, h, n);
            Scene(Alone(s, h, n), pcs[h := v.0], data, valid, v.1)
    decreases n
  {
    if n == 0 {
      assert pcs[h := pcs[h]] == pcs;
    } else {
      ReceiveScene(s, pcs, data, valid, ready, h);
      var v := ReceiveView(pcs[h], data, valid, ready, h);
      ReceivesMany(Step(s, Event(h, Stay)), pcs[h := v.0], data, valid, v.1, h, n - 1);
      var w := ReceiveMany(v.0, data, valid, v.1, h, n - 1);
      assert pcs[h := v.0][h := w.0] == pcs[h := w.0];
    }
  }

  const Q: Request := Request(1, 6, 0)
  const NONE: Request := Request(0, 0, 0)

  lemma SendsPost()
    ensures SendMany(WritePerm(Q), NONE, {}, {}, 7) == (Wait(Q, 1), Q, {2, 3, 4}, {1})
  {
    var e: set<nat> := {};
    assert SendMany(WritePerm(Q), NONE, e, e, 7) == SendMany(Post(Q, 1), Q, e, e, 4);
    assert e + {1} == {1} && e + {2} == {2} && {2} + {3} == {2, 3} && {2, 3} + {4} == {2, 3, 4};
    assert SendMany(Post(Q, 1), Q, e, e, 4) == SendMany(Post(Q, 2), Q, e, {1}, 3);
    assert SendMany(Post(Q, 1), Q, e, e, 4) == SendMany(Post(Q, 3), Q, {2}, {1}, 2);
    assert SendMany(Post(Q, 3), Q, {2}, {1}, 2) == SendMany(Wait(Q, 1), Q, {2, 3, 4}, {1}, 0);
  }

  lemma SendsClear()
    ensures SendMany(Wait(Q, 1), Q, {2, 3, 4}, {1, 2, 3, 4}, 7) == (ClearValid(1), NONE, {2, 3, 4}, {1, 2, 3, 4})
  {
    var v, r: set<nat> := {2, 3, 4}, {1, 2, 3, 4};
    assert SendMany(Wait(Q, 1), Q, v, r, 7) == SendMany(Wait(Q, 3), Q, v, r, 5);
    assert SendMany(Wait(Q, 3), Q, v, r, 5) == SendMany(ClearPerm, Q, v, r, 3);
  }

  lemma SendsStraddle()
    ensures SendMany(ClearValid(1), NONE, {2, 3, 4}, {1, 2, 3, 4}, 4) == (ClearValid(3), NONE, {3, 4}, {3, 4})
  {
    assert {2, 3, 4} - {1} == {2, 3, 4} && {1, 2, 3, 4} - {1} == {2, 3, 4} && {2, 3, 4} - {2} == {3, 4};
    assert SendMany(ClearValid(1), NONE, {2, 3, 4}, {1, 2, 3, 4}, 4) ==
        SendMany(ClearValid(2), NONE, {2, 3, 4}, {2, 3, 4}, 2);
  }

  /** One whole `mon_ipi_check` of hart `h` that takes the update. */
  lemma ReceivesOnce(valid: set<nat>, ready: set<nat>, h: nat)
    requires h in valid && h !in ready
    ensures ReceiveMany(Check(0), Q, valid, ready, h, 10) == (Idle, ready + {h})
  {
    assert ReceiveMany(Check(0), Q, valid, ready, h, 10) == ReceiveMany(LoadKind(1), Q, valid, ready, h, 7);
    assert ReceiveMany(LoadKind(1), Q, valid, ready, h, 7) == ReceiveMany(Ack(1), Q, valid, ready, h, 4);
    assert ReceiveMany(Ack(1), Q, valid, ready, h, 4) == ReceiveMany(Check(4), Q, valid, ready + {h}, h, 1);
  }

  /** Hart 1 enters the call and raises all flags. */
  lemma Posts() returns (s: State)
    ensures Reachable(s) && Scene(s, [Idle, Wait(Q, 1), Idle, Idle, Idle], Q, {2, 3, 4}, {1})
  {
    var pcs := [Idle, WritePerm(Q), Idle, Idle, Idle];
    var first := Begins(pcs);
    s := Posted(first, pcs, 7);
    assert pcs[1 := Wait(Q, 1)] == [Idle, Wait(Q, 1), Idle, Idle, Idle];
  }

  /** Seven steps later it waits, with a request in every other mailbox slot. */
  lemma Posted(first: State, pcs: seq<Pc>, n: nat) returns (s: State)
    requires n == 7 && Reachable(first) && Scene(first, pcs, NONE, {}, {}) && pcs[1] == WritePerm(Q)
    ensures Reachable(s) && Scene(s, pcs[1 := Wait(Q, 1)], Q, {2, 3, 4}, {1})
  {
    s := Alone(first, 1, n);
    ReachAlone(first, 1, n);
    SendsPost();
    SendsMany(first, pcs, NONE, {}, {}, n);
  }

  /** Hart 1 begins to send, with every mailbox empty. */
  lemma Begins(pcs: seq<Pc>) returns (s: State)
    requires pcs == [Idle, WritePerm(Q), Idle, Idle, Idle]
    ensures Reachable(s) && Scene(s, pcs, NONE, {}, {})
  {
    assert After([]) == Start();
    ReachStep(Start(), Event(1, Send(Q)));
    s := Step(Start(), Event(1, Send(Q)));
    assert s.pcs == pcs;
  }

  /** Hart `h` starts `mon_ipi_check` and takes `n` steps. */
  lemma Checks(s: State, pcs: seq<Pc>, data: Request, valid: set<nat>, ready: set<nat>, h: nat, n: nat)
    returns (r: State)
    requires Reachable(s) && Scene(s, pcs, data, valid, ready) && 2 <= h < N_BOX && pcs[h].Idle?
    ensures Reachable(r)
    ensures var v := ReceiveMany(Check(0), data, valid, ready, h, n);
            Scene(r, pcs[h := v.0], data, valid, v.1)
  {
    ReachStep(s, Event(h, Receive));
    r := Step(s, Event(h, Receive));
    ReceivesMany(r, pcs[h := Check(0)], data, valid, ready, h, n);
    ReachAlone(r, h, n);
    r := Alone(r, h, n);
    var v := ReceiveMany(Check(0), data, valid, ready, h, n);
    assert pcs[h := Check(0)][h := v.0] == pcs[h := v.0];
  }

  /** Harts 2, 3 and 4 run `mon_ipi_check` once each and take the update. */
  lemma TakenByAll() returns (s: State)
    ensures Reachable(s) && Scene(s, [Idle, Wait(Q, 1), Idle, Idle, Idle], Q, {2, 3, 4}, {1, 2, 3, 4})
  {
    s := Posts();
    var pcs := [Idle, Wait(Q, 1), Idle, Idle, Idle];
    assert pcs[2 := Idle] == pcs[3 := Idle] == pcs[4 := Idle] == pcs;
    ReceivesOnce({2, 3, 4}, {1}, 2);
    s := Checks(s, pcs, Q, {2, 3, 4}, {1}, 2, 10);
    ReceivesOnce({2, 3, 4}, {1} + {2}, 3);
    s := Checks(s, pcs, Q, {2, 3, 4}, {1} + {2}, 3, 10);
    ReceivesOnce({2, 3, 4}, {1} + {2} + {3}, 4);
    s := Checks(s, pcs, Q, {2, 3, 4}, {1} + {2} + {3}, 4, 10);
    assert {1} + {2} + {3} + {4} == {1, 2, 3, 4};
  }

  /** Hart 1 leaves the wait loop and clears the update. */
  lemma Leaves() returns (s: State)
    ensures Reachable(s) && Scene(s, [Idle, ClearValid(1), Idle, Idle, Idle], NONE, {2, 3, 4}, {1, 2, 3, 4})
  {
    s := TakenByAll();
    SendsClear();
    var pcs := [Idle, Wait(Q, 1), Idle, Idle, Idle];
    assert pcs[1 := ClearValid(1)] == [Idle, ClearValid(1), Idle, Idle, Idle];
    SendsMany(s, pcs, Q, {2, 3, 4}, {1, 2, 3, 4}, 7);
    ReachAlone(s, 1, 7);
    s := Alone(s, 1, 7);
  }

  /** Hart 2 checks again and sees its valid flag. */
  lemma ChecksAgain() returns (s: State)
    ensures Reachable(s)
    ensures Scene(s, [Idle, ClearValid(1), CheckReady(1), Idle, Idle], NONE, {2, 3, 4}, {1, 2, 3, 4})
  {
    s := Leaves();
    var pcs := [Idle, ClearValid(1), Idle, Idle, Idle];
    assert pcs[2 := CheckReady(1)] == [Idle, ClearValid(1), CheckReady(1), Idle, Idle];
    SeesValid();
    s := Checks(s, pcs, NONE, {2, 3, 4}, {1, 2, 3, 4}, 2, 2);
  }

  lemma SeesValid()
    ensures ReceiveMany(Check(0), NONE, {2, 3, 4}, {1, 2, 3, 4}, 2, 2) == (CheckReady(1), {1, 2, 3, 4})
  {
    assert ReceiveMany(Check(0), NONE, {2, 3, 4}, {1, 2, 3, 4}, 2, 2) ==
        ReceiveMany(Check(1), NONE, {2, 3, 4}, {1, 2, 3, 4}, 2, 1);
  }

  /** Hart 1 clears hart 2's two flags between hart 2's two loads. */
  lemma Straddles() returns (s: State)
    ensures Reachable(s) && Ranged(s) && Misreads(s, Event(2, Stay))
  {
    s := ChecksAgain();
    SendsStraddle();
    SendsMany(s, [Idle, ClearValid(1), CheckReady(1), Idle, Idle], NONE, {2, 3, 4}, {1, 2, 3, 4}, 4);
    ReachAlone(s, 1, 4);
    s := Alone(s, 1, 4);
  }

  /** The first misread of a run comes after a run without any. */
  lemma {:induction false} FirstMisread(run: seq<Event>) returns (before: seq<Event>, first: Event)
    requires ValidRun(run) && !Clean(run)
    ensures ValidRun(before) && Clean(before) && first.hart < N_BOX && Misreads(After(before), first)
    decreases |run|
  {
    var shorter := run[..|run| - 1];
    if Clean(shorter) {
      before, first := shorter, run[|run| - 1];
    } else {
      before, first := FirstMisread(shorter);
    }
  }

  /** Some run without a misread can go on to one. */
  lemma MisreadReachable() returns (run: seq<Event>, e: Event)
    ensures ValidRun(run) && Clean(run) && e.hart < N_BOX && Misreads(After(run), e)
  {
    var s := Straddles();
    run :| ValidRun(run) && After(run) == s;
    e := Event(2, Stay);
    if !Clean(run) { run, e := FirstMisread(run); }
  }

  /** Delivery does fail: some run lets a receiver apply an update that nobody posted to it. */
  lemma OverappliesReachable()
    ensures exists s: State, b: nat, h: nat ::
              && Reachable(s) && Ranged(s) && b < N_BOX && h < N_BOX
              && |s.boxes[b].slots[h].applied| > |s.boxes[b].slots[h].posted|
  {
    var run, e := MisreadReachable();
    MisreadOverapplies(run, e);
    var s := After(run);
    var b := s.pcs[e.hart].i;
    ReachStep(s, e);
    ReachAlone(Step(s, e), e.hart, 3);
    var r := Alone(Step(s, e), e.hart, 3);
    assert |r.boxes[b].slots[e.hart].applied| > |r.boxes[b].slots[e.hart].posted|;
  }
}
