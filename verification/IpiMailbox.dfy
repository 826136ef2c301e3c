/**
 The mailboxes of ipi.c as interleaved steps, one load or store at a time.

 Every hart owns one mailbox. Sending writes the update, raises a valid flag for each other
 hart 1..4, waits for their ready flags and clears everything. Receiving walks over all
 mailboxes. `sent`, `posted` and `applied` record history; no step looks at them.
 */
module IpiMailbox {
  const N_BOX: nat := 5

  /** The arguments of `mon_send_sync_ipi`. */
  datatype Request = Request(perm: nat, region: nat, kind: nat)

  /** What a receiver does with them: `pmp_set_keystone` or `pmp_unset`. */
  datatype Update = Set(region: nat, perm: nat) | Unset(region: nat)

  function Meaning(q: Request): Update {
    if q.kind == 0 then Set(q.region, q.perm) else Unset(q.region)
  }

  /**
   One receiver's flags in one mailbox. `posted` grows when the valid flag is raised,
   `applied` when the receiver acts on the mailbox.
   */
  datatype Slot = Slot(valid: bool, ready: bool, posted: seq<Update>, applied: seq<Update>)

  /** `sent` grows when `mon_send_sync_ipi` is entered. */
  datatype Box = Box(data: Request, slots: seq<Slot>, sent: seq<Update>)

  datatype Pc =
    | Idle
    | WritePerm(q: Request) | WriteRegion(q: Request) | WriteKind(q: Request)
    | Post(q: Request, i: nat)
    | Wait(q: Request, i: nat)
    | ClearPerm | ClearRegion | ClearKind
    | ClearValid(i: nat) | ClearReady(i: nat)
    | Check(i: nat) | CheckReady(i: nat)
    | LoadKind(i: nat) | LoadRegion(i: nat, kind: nat) | LoadPerm(i: nat, region: nat)
    | Ack(i: nat)

  datatype State = State(boxes: seq<Box>, pcs: seq<Pc>)

  /** What an idle hart does next; a busy hart takes its next step whatever the event says. */
  datatype Act = Send(q: Request) | Receive | Stay

  datatype Event = Event(hart: nat, act: Act)

  predicate Shaped(s: State) {
    && |s.boxes| == N_BOX && |s.pcs| == N_BOX
    && forall b :: 0 <= b < N_BOX ==> |s.boxes[b].slots| == N_BOX
  }

  predicate InRange(pc: Pc) {
    match pc
    case Post(_, i) => 1 <= i < N_BOX
    case Wait(_, i) => 1 <= i < N_BOX
    case ClearValid(i) => 1 <= i < N_BOX
    case ClearReady(i) => 1 <= i < N_BOX
    case Check(i) => i < N_BOX
    case CheckReady(i) => i < N_BOX
    case LoadKind(i) => i < N_BOX
    case LoadRegion(i, _) => i < N_BOX
    case LoadPerm(i, _) => i < N_BOX
    case Ack(i) => i < N_BOX
    case _ => true
  }

  // ---------- the steps ----------

  function Slotted(b: Box, i: nat, sl: Slot): (r: Box)
    requires |b.slots| == N_BOX && i < N_BOX
    ensures |r.slots| == N_BOX
  {
    b.(slots := b.slots[i := sl])
  }

  /** The next step of `mon_send_sync_ipi` on hart `h`, on its own mailbox. */
  function SendStep(b: Box, pc: Pc, h: nat): (r: (Box, Pc))
    requires |b.slots| == N_BOX && InRange(pc)
    ensures |r.0.slots| == N_BOX && InRange(r.1)
  {
    match pc
    case WritePerm(q) => (b.(data := b.data.(perm := q.perm)), WriteRegion(q))
    case WriteRegion(q) => (b.(data := b.data.(region := q.region)), WriteKind(q))
    case WriteKind(q) => (b.(data := b.data.(kind := q.kind)), Post(q, 1))
    case Post(q, i) =>
      var sl := b.slots[i];
      (Slotted(b, i, if i == h then sl.(ready := true) else sl.(valid := true, posted := sl.posted + [Meaning(q)])),
       if i == 4 then Wait(q, 1) else Post(q, i + 1))
    case Wait(q, i) => (b, if !b.slots[i].ready then Wait(q, 1) else if i == 4 then ClearPerm else Wait(q, i + 1))
    case ClearPerm => (b.(data := b.data.(perm := 0)), ClearRegion)
    case ClearRegion => (b.(data := b.data.(region := 0)), ClearKind)
    case ClearKind => (b.(data := b.data.(kind := 0)), ClearValid(1))
    case ClearValid(i) => (Slotted(b, i, b.slots[i].(valid := false)), ClearReady(i))
    case ClearReady(i) => (Slotted(b, i, b.slots[i].(ready := false)), if i == 4 then Idle else ClearValid(i + 1))
    case _ => (b, pc)
  }

  predicate Sending(pc: Pc) {
    || pc.WritePerm? || pc.WriteRegion? || pc.WriteKind? || pc.Post? || pc.Wait?
    || pc.ClearPerm? || pc.ClearRegion? || pc.ClearKind? || pc.ClearValid? || pc.ClearReady?
  }

  predicate Receiving(pc: Pc) {
    pc.Check? || pc.CheckReady? || pc.LoadKind? || pc.LoadRegion? || pc.LoadPerm? || pc.Ack?
  }

  function NextBox(i: nat): Pc { if i == 4 then Idle else Check(i + 1) }

  function Applied(sl: Slot, u: Update): Slot { sl.(applied := sl.applied + [u]) }

  /** The next step of `mon_ipi_check` on hart `h`, on the mailbox `pc.i`. */
  function ReceiveStep(b: Box, pc: Pc, h: nat): (r: (Box, Pc))
    requires |b.slots| == N_BOX && Receiving(pc) && InRange(pc) && h < N_BOX
    ensures |r.0.slots| == N_BOX && InRange(r.1)
  {
    var sl := b.slots[h];
    match pc
    case Check(i) => (b, if sl.valid then CheckReady(i) else NextBox(i))
    case CheckReady(i) => (b, if sl.ready then NextBox(i) else LoadKind(i))
    case LoadKind(i) => (b, LoadRegion(i, b.data.kind))
    case LoadRegion(i, kind) =>
      if kind == 0 then (b, LoadPerm(i, b.data.region))
      else (Slotted(b, h, Applied(sl, Unset(b.data.region))), Ack(i))
    case LoadPerm(i, region) => (Slotted(b, h, Applied(sl, Set(region, b.data.perm))), Ack(i))
    case Ack(i) => (Slotted(b, h, sl.(ready := true)), NextBox(i))
  }

  function Step(s: State, e: Event): (r: State)
    requires Shaped(s) && e.hart < N_BOX && InRange(s.pcs[e.hart])
    ensures Shaped(r)
  {
    var h, pc := e.hart, s.pcs[e.hart];
    if pc.Idle? then
      match e.act
      case Send(q) => State(s.boxes[h := s.boxes[h].(sent := s.boxes[h].sent + [Meaning(q)])], s.pcs[h := WritePerm(q)])
      case Receive => s.(pcs := s.pcs[h := Check(0)])
      case Stay => s
    else if Sending(pc) then
      var (b, next) := SendStep(s.boxes[h], pc, h);
      State(s.boxes[h := b], s.pcs[h := next])
    else
      var (b, next) := ReceiveStep(s.boxes[pc.i], pc, h);
      State(s.boxes[pc.i := b], s.pcs[h := next])
  }

  // ---------- the invariant ----------

  /** Hart `pc` is between its guard and its acknowledgement of mailbox `b`. */
  predicate InBody(pc: Pc, b: nat) {
    (pc.LoadKind? || pc.LoadRegion? || pc.LoadPerm? || pc.Ack?) && pc.i == b
  }

  /** The sender has raised receiver `h`'s valid flag and is not past the wait loop. */
  predicate Pending(pc: Pc, h: nat) { (pc.Post? && h < pc.i) || pc.Wait? }

  /** The sender has left the wait loop and not yet cleared receiver `h`'s valid flag. */
  predicate Collected(pc: Pc, h: nat) {
    || pc.ClearPerm? || pc.ClearRegion? || pc.ClearKind?
    || (pc.ClearValid? && pc.i <= h) || (pc.ClearReady? && pc.i < h)
  }

  /** The sender has entered the call and not yet raised receiver `h`'s valid flag. */
  predicate Preparing(pc: Pc, h: nat) {
    pc.WritePerm? || pc.WriteRegion? || pc.WriteKind? || (pc.Post? && pc.i <= h)
  }

  /** How far the receiver is with the request its flag announces. */
  predicate Progress(data: Request, sl: Slot, pc: Pc, b: nat) {
    if pc.Ack? && pc.i == b then !sl.ready && sl.applied == sl.posted
    else if sl.ready then sl.applied == sl.posted && !InBody(pc, b)
    else
      && sl.posted == sl.applied + [Meaning(data)]
      && (pc.LoadRegion? && pc.i == b ==> pc.kind == data.kind)
      && (pc.LoadPerm? && pc.i == b ==> pc.region == data.region && data.kind == 0)
  }

  /** Mailbox `b` and receiver `h`, given where both harts are. */
  predicate PairInv(box: Box, sl: Slot, sender: Pc, receiver: Pc, b: nat, h: nat) {
    if h == 0 || h == b then !sl.valid && sl.posted == sl.applied == [] && !InBody(receiver, b)
    else if Pending(sender, h) then
      && sl.valid && box.data == sender.q && sl.posted == box.sent
      && Progress(box.data, sl, receiver, b)
      && (sender.Wait? && h < sender.i ==> sl.ready)
    else
      && !InBody(receiver, b)
      && sl.applied == sl.posted
      && sl.valid == Collected(sender, h)
      && sl.ready == (Collected(sender, h) || sender == ClearReady(h))
      && if Preparing(sender, h) then box.sent == sl.posted + [Meaning(sender.q)] else box.sent == sl.posted
  }

  /** While the request is posted the mailbox holds it field by field. */
  predicate Written(data: Request, pc: Pc) {
    match pc
    case WriteRegion(q) => data.perm == q.perm
    case WriteKind(q) => data.perm == q.perm && data.region == q.region
    case Post(q, _) => data == q
    case Wait(q, _) => data == q
    case _ => true
  }

  ghost predicate Inv(s: State) {
    && Shaped(s)
    && (forall h :: 0 <= h < N_BOX ==> InRange(s.pcs[h]) && Written(s.boxes[h].data, s.pcs[h]))
    && (forall b, h :: 0 <= b < N_BOX && 0 <= h < N_BOX ==> PairAt(s, b, h))
  }

  /** The one thing a run must avoid: loading a ready flag of 0 after the valid flag was taken back. */
  predicate Misreads(s: State, e: Event)
    requires Shaped(s) && e.hart < N_BOX && InRange(s.pcs[e.hart])
  {
    var pc := s.pcs[e.hart];
    pc.CheckReady? && !s.boxes[pc.i].slots[e.hart].valid && !s.boxes[pc.i].slots[e.hart].ready
  }

  predicate Writing(pc: Pc) { pc.WritePerm? || pc.WriteRegion? || pc.WriteKind? || pc.Post? }

  lemma WritingKeeps(box: Box, pc: Pc, receiver: Pc, b: nat, h: nat)
    requires |box.slots| == N_BOX && b < N_BOX && h < N_BOX && Writing(pc) && InRange(pc) && Written(box.data, pc)
    requires h != b && PairInv(box, box.slots[h], pc, receiver, b, h)
    ensures var (box', pc') := SendStep(box, pc, b);
            PairInv(box', box'.slots[h], pc', receiver, b, h)
  {
  }

  lemma ClearingKeeps(box: Box, pc: Pc, receiver: Pc, b: nat, h: nat)
    requires |box.slots| == N_BOX && b < N_BOX && h < N_BOX && Sending(pc) && !Writing(pc) && InRange(pc)
    requires h != b && PairInv(box, box.slots[h], pc, receiver, b, h)
    ensures var (box', pc') := SendStep(box, pc, b);
            PairInv(box', box'.slots[h], pc', receiver, b, h)
  {
  }

  /** The sender's own slot, seen from itself. */
  lemma SenderKeepsOwn(box: Box, pc: Pc, b: nat)
    requires |box.slots| == N_BOX && b < N_BOX && Sending(pc) && InRange(pc) && Written(box.data, pc)
    requires PairInv(box, box.slots[b], pc, pc, b, b)
    ensures var (box', pc') := SendStep(box, pc, b);
            PairInv(box', box'.slots[b], pc', pc', b, b) && Written(box'.data, pc')
  {
  }

  lemma ReceiverKeeps(box: Box, sender: Pc, pc: Pc, b: nat, h: nat)
    requires |box.slots| == N_BOX && b < N_BOX && h < N_BOX && Receiving(pc) && InRange(pc) && pc.i == b
    requires PairInv(box, box.slots[h], sender, pc, b, h) && (h == b ==> sender == pc)
    requires !(pc.CheckReady? && !box.slots[h].valid && !box.slots[h].ready)
    ensures var (box', pc') := ReceiveStep(box, pc, h);
            PairInv(box', box'.slots[h], if h == b then pc' else sender, pc', b, h)
            && box'.data == box.data && box'.sent == box.sent
            && forall k :: 0 <= k < N_BOX && k != h ==> box'.slots[k] == box.slots[k]
  {
  }

  /** A receiver that moves outside mailbox `b` does not matter to it. */
  lemma ReceiverElsewhere(box: Box, sl: Slot, sender: Pc, pc: Pc, pc': Pc, b: nat, h: nat)
    requires PairInv(box, sl, sender, pc, b, h) && !InBody(pc, b) && !InBody(pc', b)
    ensures PairInv(box, sl, sender, pc', b, h)
  {
  }

  /** A hart that is not sending may move without its own mailbox changing. */
  lemma OwnerElsewhere(box: Box, sl: Slot, pc: Pc, pc': Pc, receiver: Pc, b: nat, h: nat)
    requires PairInv(box, sl, pc, receiver, b, h) && !Sending(pc) && !Sending(pc')
    ensures PairInv(box, sl, pc', receiver, b, h)
  {
  }

  ghost predicate PairAt(s: State, b: nat, h: nat)
    requires Shaped(s) && b < N_BOX && h < N_BOX
  {
    PairInv(s.boxes[b], s.boxes[b].slots[h], s.pcs[b], s.pcs[h], b, h)
  }

  lemma SendPair(s: State, r: State, k: nat, b: nat, h: nat)
    requires Shaped(s) && Shaped(r) && k < N_BOX && b < N_BOX && h < N_BOX && PairAt(s, b, h)
    requires Sending(s.pcs[k]) && InRange(s.pcs[k]) && Written(s.boxes[k].data, s.pcs[k])
    requires (r.boxes[k], r.pcs[k]) == SendStep(s.boxes[k], s.pcs[k], k)
    requires b != k ==> r.boxes[b] == s.boxes[b] && r.pcs[b] == s.pcs[b]
    requires h != k ==> r.pcs[h] == s.pcs[h]
    ensures PairAt(r, b, h)
  {
    var pc := s.pcs[k];
    if b == k && h == k {
      SenderKeepsOwn(s.boxes[k], pc, k);
    } else if b == k && Writing(pc) {
      WritingKeeps(s.boxes[k], pc, s.pcs[h], k, h);
    } else if b == k {
      ClearingKeeps(s.boxes[k], pc, s.pcs[h], k, h);
    } else if h == k {
      ReceiverElsewhere(s.boxes[b], s.boxes[b].slots[k], s.pcs[b], pc, r.pcs[k], b, k);
    }
  }

  lemma ReceivePair(s: State, r: State, k: nat, b: nat, h: nat)
    requires Shaped(s) && Shaped(r) && k < N_BOX && b < N_BOX && h < N_BOX && PairAt(s, b, h)
    requires Receiving(s.pcs[k]) && InRange(s.pcs[k]) && !Misreads(s, Event(k, Stay))
    requires var i := s.pcs[k].i;
             (r.boxes[i], r.pcs[k]) == ReceiveStep(s.boxes[i], s.pcs[k], k) && PairAt(s, i, k)
    requires b != s.pcs[k].i ==> r.boxes[b] == s.boxes[b]
    requires forall j :: 0 <= j < N_BOX && j != k ==> r.pcs[j] == s.pcs[j]
    ensures PairAt(r, b, h)
  {
    var pc := s.pcs[k];
    var i := pc.i;
    ReceiverKeeps(s.boxes[i], s.pcs[i], pc, i, k);
    if h == k && b != i {
      ReceiverElsewhere(s.boxes[b], s.boxes[b].slots[k], s.pcs[b], pc, r.pcs[k], b, k);
    }
    if b == k && (h != k || b != i) {
      OwnerElsewhere(r.boxes[k], r.boxes[k].slots[h], pc, r.pcs[k], r.pcs[h], k, h);
    }
  }

  lemma IdlePair(s: State, e: Event, b: nat, h: nat)
    requires Shaped(s) && e.hart < N_BOX && s.pcs[e.hart].Idle? && b < N_BOX && h < N_BOX && PairAt(s, b, h)
    ensures PairAt(Step(s, e), b, h)
  {
  }

  lemma WrittenAfter(s: State, e: Event, h: nat)
    requires Shaped(s) && e.hart < N_BOX && h < N_BOX
    requires forall j :: 0 <= j < N_BOX ==> InRange(s.pcs[j])
    requires Written(s.boxes[h].data, s.pcs[h]) && Written(s.boxes[e.hart].data, s.pcs[e.hart])
    ensures var r := Step(s, e);
            InRange(r.pcs[h]) && Written(r.boxes[h].data, r.pcs[h])
  {
  }

  lemma PairAfter(s: State, e: Event, b: nat, h: nat)
    requires Shaped(s) && e.hart < N_BOX && b < N_BOX && h < N_BOX && PairAt(s, b, h)
    requires var pc := s.pcs[e.hart];
             InRange(pc) && Written(s.boxes[e.hart].data, pc) && !Misreads(s, e)
                 && (Receiving(pc) ==> PairAt(s, pc.i, e.hart))
    ensures PairAt(Step(s, e), b, h)
  {
    var r := Step(s, e);
    if s.pcs[e.hart].Idle? {
      IdlePair(s, e, b, h);
    } else if Sending(s.pcs[e.hart]) {
      SendPair(s, r, e.hart, b, h);
    } else {
      ReceivePair(s, r, e.hart, b, h);
    }
  }

  /** Every step of every hart that does not misread keeps the invariant. */
  lemma StepKeepsInv(s: State, e: Event)
    requires Inv(s) && e.hart < N_BOX && !Misreads(s, e)
    ensures Inv(Step(s, e))
  {
    forall h | 0 <= h < N_BOX
      ensures InRange(Step(s, e).pcs[h]) && Written(Step(s, e).boxes[h].data, Step(s, e).pcs[h])
    {
      WrittenAfter(s, e, h);
    }
    forall b, h | 0 <= b < N_BOX && 0 <= h < N_BOX ensures PairAt(Step(s, e), b, h) {
      PairAfter(s, e, b, h);
    }
  }

  // ---------- runs ----------

  function Start(): State {
    State(seq(N_BOX, _ => Box(Request(0, 0, 0), seq(N_BOX, _ => Slot(false, false, [], [])), [])),
        seq(N_BOX, _ => Idle))
  }

  ghost predicate Ranged(s: State) {
    Shaped(s) && forall h :: 0 <= h < N_BOX ==> InRange(s.pcs[h])
  }

  predicate ValidRun(run: seq<Event>) {
    forall i :: 0 <= i < |run| ==> run[i].hart < N_BOX
  }

  /** The state after a run, oldest event first. */
  ghost function After(run: seq<Event>): (s: State)
    requires ValidRun(run)
    ensures Ranged(s)
    decreases |run|
  {
    if run == [] then Start() else Step(After(run[..|run| - 1]), run[|run| - 1])
  }

  /** No event of the run misreads. */
  ghost predicate Clean(run: seq<Event>)
    requires ValidRun(run)
    decreases |run|
  {
    run == [] || (Clean(run[..|run| - 1]) && !Misreads(After(run[..|run| - 1]), run[|run| - 1]))
  }

  lemma {:induction false} CleanInv(run: seq<Event>)
    requires ValidRun(run) && Clean(run)
    ensures Inv(After(run))
    decreases |run|
  {
    if run == [] {
      StartInv();
    } else {
      CleanInv(run[..|run| - 1]);
      StepKeepsInv(After(run[..|run| - 1]), run[|run| - 1]);
    }
  }

  lemma StartInv()
    ensures Inv(Start())
  {
    forall b, h | 0 <= b < N_BOX && 0 <= h < N_BOX ensures PairAt(Start(), b, h) { }
  }

  /** Hart `b` has left the wait loop of its latest `mon_send_sync_ipi`. */
  predicate LeftWaitLoop(pc: Pc) {
    pc.ClearPerm? || pc.ClearRegion? || pc.ClearKind? || pc.ClearValid? || pc.ClearReady?
  }

  /**
   When a sender has left its wait loop, each other hart 1..4 has applied exactly the updates
   sent so far: each of them once, in order, the last one included.
   */
  lemma DeliveredOnReturn(run: seq<Event>, b: nat, h: nat)
    requires ValidRun(run) && Clean(run) && b < N_BOX && 1 <= h < N_BOX && h != b
    requires LeftWaitLoop(After(run).pcs[b]) || After(run).pcs[b].Idle?
    ensures var box := After(run).boxes[b];
            box.slots[h].applied == box.sent
  {
    CleanInv(run);
    assert PairAt(After(run), b, h);
  }

  /**
   At every moment what a receiver has applied is what was sent to it, without the latest
   request at most: nothing cleared, nothing stale and nothing twice.
   */
  lemma NeverStale(run: seq<Event>, b: nat, h: nat)
    requires ValidRun(run) && Clean(run) && b < N_BOX && 1 <= h < N_BOX && h != b
    ensures var box := After(run).boxes[b];
            var sl := box.slots[h];
            && sl.applied <= sl.posted <= box.sent
            && |box.sent| <= |sl.applied| + 1
  {
    CleanInv(run);
    assert PairAt(After(run), b, h);
  }

  /**
   A receiver that has seen the valid flag and now loads a ready flag of 0 goes on to act. It
   has an unapplied request in front of it exactly when the valid flag is still up.
   */
  lemma ActsOnRequestIff(run: seq<Event>, b: nat, h: nat)
    requires ValidRun(run) && Clean(run) && b < N_BOX && h < N_BOX
    requires After(run).pcs[h] == CheckReady(b) && !After(run).boxes[b].slots[h].ready
    ensures var box := After(run).boxes[b];
            var sl := box.slots[h];
            sl.posted == sl.applied + [Meaning(box.data)] <==> sl.valid
  {
    CleanInv(run);
    assert PairAt(After(run), b, h);
  }

  /** Every hart loads a ready flag directly after the valid flag, with nothing in between. */
  ghost predicate Adjacent(run: seq<Event>)
    requires ValidRun(run)
    decreases |run|
  {
    run == [] ||
    var n := |run| - 1;
    && Adjacent(run[..n])
    && (After(run[..n]).pcs[run[n].hart].CheckReady? ==> 0 < n && run[n - 1].hart == run[n].hart)
  }

  /** Receivers that load both flags at once never misread: the valid flag falls before the ready flag. */
  lemma {:induction false} AdjacentLoadsAreClean(run: seq<Event>)
    requires ValidRun(run) && Adjacent(run)
    ensures Clean(run)
    decreases |run|
  {
    if run != [] {
      var n := |run| - 1;
      AdjacentLoadsAreClean(run[..n]);
      if After(run[..n]).pcs[run[n].hart].CheckReady? {
        assert run[..n][..n - 1] == run[..n - 1];
        JustLoadedValid(After(run[..n - 1]), run[n - 1]);
      }
    }
  }

  lemma JustLoadedValid(s: State, e: Event)
    requires Ranged(s) && e.hart < N_BOX && Step(s, e).pcs[e.hart].CheckReady?
    ensures var r := Step(s, e);
            r.boxes[r.pcs[e.hart].i].slots[e.hart].valid
  {
  }

  // ---------- what goes wrong when a run misreads ----------

  /** `n` further steps of hart `h` alone. */
  function Alone(s: State, h: nat, n: nat): (r: State)
    requires Shaped(s) && h < N_BOX && InRange(s.pcs[h])
    ensures Shaped(r) && InRange(r.pcs[h])
    decreases n
  {
    if n == 0 then s else Alone(Step(s, Event(h, Stay)), h, n - 1)
  }

  /** After any misread the receiver, left to itself, applies an update nobody posted to it. */
  lemma MisreadOverapplies(run: seq<Event>, e: Event)
    requires ValidRun(run) && Clean(run) && e.hart < N_BOX && Misreads(After(run), e)
    ensures var s := After(run);
            var sl := Alone(Step(s, e), e.hart, 3).boxes[s.pcs[e.hart].i].slots[e.hart];
            |sl.applied| == |sl.posted| + 1
  {
    CleanInv(run);
    assert PairAt(After(run), After(run).pcs[e.hart].i, e.hart);
    EntersBody(After(run), e);
  }

  lemma EntersBody(s: State, e: Event)
    requires Shaped(s) && e.hart < N_BOX && InRange(s.pcs[e.hart]) && Misreads(s, e)
    requires var sl := s.boxes[s.pcs[e.hart].i].slots[e.hart];
             sl.applied == sl.posted
    ensures var sl := Alone(Step(s, e), e.hart, 3).boxes[s.pcs[e.hart].i].slots[e.hart];
            |sl.applied| == |sl.posted| + 1
  {
    var h := e.hart;
    var s1 := Step(s, e);
    var s2 := Step(s1, Event(h, Stay));
    var s3 := Step(s2, Event(h, Stay));
    assert Alone(s1, h, 3) == Alone(s3, h, 1) == Step(s3, Event(h, Stay));
  }
}
