/**
 Android A/B slots: which slot a boot chooses, and what repeated boots without a success do.
 */
module AbSlots {
  const MAX_SLOTS: nat := 4
  const EINVAL: nat := 22

  datatype Slot = Slot(priority: nat, tries: nat, successful: nat, corrupted: bool)

  datatype Control = Control(slots: seq<Slot>, nbSlot: nat)

  predicate Valid(c: Control) { |c.slots| == MAX_SLOTS }

  /** `ab_compare_slots` */
  function Compare(a: Slot, b: Slot): int {
    if a.priority != b.priority then b.priority - a.priority
    else if a.successful != b.successful then b.successful - a.successful
    else b.tries - a.tries
  }

  /** The order the comparison stands for: priority, then success, then tries, higher first. */
  predicate Better(a: Slot, b: Slot) {
    || a.priority > b.priority
    || (a.priority == b.priority && a.successful > b.successful)
    || (a.priority == b.priority && a.successful == b.successful && a.tries > b.tries)
  }

  predicate Bootable(s: Slot) { !s.corrupted && s.tries > 0 }

  function Count(c: Control): (n: nat)
    requires Valid(c)
    ensures n <= MAX_SLOTS
  {
    if c.nbSlot > MAX_SLOTS then MAX_SLOTS else c.nbSlot
  }

  /** `k` is the first of the best bootable slots among the first `n`, or -1 if none is bootable. */
  predicate Chosen(slots: seq<Slot>, n: nat, k: int)
    requires n <= |slots|
  {
    if k < 0 then k == -1 && forall j :: 0 <= j < n ==> !Bootable(slots[j])
    else
      && k < n && Bootable(slots[k])
      && (forall j :: 0 <= j < n && Bootable(slots[j]) ==> !Better(slots[j], slots[k]))
      && (forall j :: 0 <= j < k && Bootable(slots[j]) ==> Better(slots[k], slots[j]))
  }

  lemma ChosenUnique(slots: seq<Slot>, n: nat, k: int, m: int)
    requires n <= |slots| && Chosen(slots, n, k) && Chosen(slots, n, m)
    ensures k == m
  {
  }

  /** The slot loop of `ab_select_slot` */
  method ChooseSlot(slots: seq<Slot>, n: nat) returns (slot: int)
    requires n <= |slots|
    ensures Chosen(slots, n, slot)
  {
    slot := -1;
    for i := 0 to n
      invariant -1 <= slot < i && Chosen(slots, i, slot)
    {
      if slots[i].corrupted || slots[i].tries == 0 {
        continue;
      }
      if slot < 0 || Compare(slots[i], slots[slot]) < 0 {
        slot := i;
      }
    }
  }

  /** The choice as a function, for reasoning about many boots. */
  function Choice(slots: seq<Slot>, n: nat): (k: int)
    requires n <= |slots|
    ensures Chosen(slots, n, k)
  {
    if n == 0 then -1
    else
      var k := Choice(slots, n - 1);
      if Bootable(slots[n - 1]) && (k < 0 || Better(slots[n - 1], slots[k])) then n - 1 else k
  }

  /** What a boot stores and returns. */
  function Boot(c: Control, decTries: bool): (r: (Control, int))
    requires Valid(c)
    ensures Valid(r.0)
  {
    var n := Count(c);
    var k := Choice(c.slots, n);
    if k < 0 then (c.(nbSlot := n), 0 - EINVAL)
    else if c.slots[k].successful == 0 && decTries then
      (Control(c.slots[k := c.slots[k].(tries := c.slots[k].tries - 1)], n), k)
    else (c.(nbSlot := n), k)
  }

  /** The control block in memory. */
  class AbControl {
    var slots: seq<Slot>
    var nbSlot: nat

    ghost predicate Ready()
      reads this
    {
      |slots| == MAX_SLOTS
    }

    ghost function View(): Control
      reads this
    {
      Control(slots, nbSlot)
    }

    constructor (s: seq<Slot>, n: nat)
      requires |s| == MAX_SLOTS
      ensures Ready() && View() == Control(s, n)
    {
      slots, nbSlot := s, n;
    }

    /** `ab_select_slot` once the metadata has been found valid */
    method SelectSlot(decTries: bool) returns (ret: int)
      requires Ready()
      modifies this
      ensures Ready() && (View(), ret) == Boot(old(View()), decTries)
    {
      if nbSlot > |slots| {
        nbSlot := |slots|;
      }
      var slot := ChooseSlot(slots, nbSlot);
      ChosenUnique(slots, nbSlot, slot, Choice(slots, nbSlot));
      if slot >= 0 && slots[slot].successful == 0 {
        if decTries {
          slots := slots[slot := slots[slot].(tries := slots[slot].tries - 1)];
        }
      }
      if slot < 0 {
        return 0 - EINVAL;
      }
      return slot;
    }
  }

  /** A slot that can be tried, and at least as good as `b` in the order priority, success, tries. */
  predicate AtLeast(a: Slot, b: Slot) {
    || a.priority > b.priority
    || (a.priority == b.priority &&
        (a.successful > b.successful || (a.successful == b.successful && a.tries >= b.tries)))
  }

  /**
   A boot looks at no more than four slots. It returns the first of the best ones that are not corrupted and have
   tries left, or an error if there is none. It takes one try from that slot if it has never been successful
   and attempts are counted, and changes nothing else.
   */
  lemma BootExactly(c: Control, decTries: bool)
    requires Valid(c)
    ensures var (r, k) := Boot(c, decTries);
            var n := if c.nbSlot > 4 then 4 else c.nbSlot;
            && r.nbSlot == n && |r.slots| == |c.slots|
            && (if exists j :: 0 <= j < n && !c.slots[j].corrupted && c.slots[j].tries > 0
                then
                  && 0 <= k < n && !c.slots[k].corrupted && c.slots[k].tries > 0
                  && (forall j :: 0 <= j < n && !c.slots[j].corrupted && c.slots[j].tries > 0 ==>
                        AtLeast(c.slots[k], c.slots[j]) && (j < k ==> !AtLeast(c.slots[j], c.slots[k])))
                  && r.slots[k] == c.slots[k].(tries := r.slots[k].tries)
                  && r.slots[k].tries == c.slots[k].tries - (if decTries && c.slots[k].successful == 0 then 1 else 0)
                  && (forall j :: 0 <= j < MAX_SLOTS && j != k ==> r.slots[j] == c.slots[j])
                else k == 0 - EINVAL && r.slots == c.slots)
  {
    var n := Count(c);
    var k := Choice(c.slots, n);
    if k < 0 { assert forall j :: 0 <= j < n ==> !Bootable(c.slots[j]); }
    forall j | 0 <= j < n && Bootable(c.slots[j]) ensures 0 <= k && AtLeast(c.slots[k], c.slots[j]) {
      assert !(k < 0);
    }
  }

  /** Without counting attempts a boot chooses the same slot and leaves every slot as it is. */
  lemma BootUncounted(c: Control)
    requires Valid(c)
    ensures Boot(c, false).1 == Boot(c, true).1 && Boot(c, false).0.slots == c.slots
  {
    BootExactly(c, false);
    BootExactly(c, true);
  }

  // ---------- repeated boots ----------

  /** The control block before the `k`-th boot, each boot counting its attempt. */
  function Before(c: Control, k: nat): (r: Control)
    requires Valid(c)
    ensures Valid(r)
  {
    if k == 0 then c else Boot(Before(c, k - 1), true).0
  }

  function Picked(c: Control, k: nat): int
    requires Valid(c)
  {
    Boot(Before(c, k), true).1
  }

  /** The attempts the first `n` slots have left together. */
  function Attempts(slots: seq<Slot>, n: nat): nat
    requires n <= |slots|
  {
    if n == 0 then 0 else Attempts(slots, n - 1) + if slots[n - 1].corrupted then 0 else slots[n - 1].tries
  }

  predicate NoneSuccessful(slots: seq<Slot>) { forall i :: 0 <= i < |slots| ==> slots[i].successful == 0 }

  lemma {:induction false} NoAttempts(slots: seq<Slot>, n: nat)
    requires n <= |slots|
    ensures Attempts(slots, n) == 0 <==> forall j :: 0 <= j < n ==> !Bootable(slots[j])
  {
    if n > 0 { NoAttempts(slots, n - 1); }
  }

  lemma {:induction false} OneAttempt(slots: seq<Slot>, n: nat, k: nat)
    requires n <= |slots| && k < |slots| && Bootable(slots[k])
    ensures var used := slots[k := slots[k].(tries := slots[k].tries - 1)];
            Attempts(used, n) == Attempts(slots, n) - if k < n then 1 else 0
  {
    if n > 0 { OneAttempt(slots, n - 1, k); }
  }

  /** Each boot uses up one attempt, until there are none. */
  lemma BootUsesOne(c: Control)
    requires Valid(c) && NoneSuccessful(c.slots)
    ensures var (r, ret) := Boot(c, true);
            && Count(r) == Count(c) && NoneSuccessful(r.slots)
            && (Attempts(c.slots, Count(c)) == 0 ==> ret == 0 - EINVAL && r.slots == c.slots)
            && (Attempts(c.slots, Count(c)) > 0 ==>
                0 <= ret < Count(c) && Attempts(r.slots, Count(c)) == Attempts(c.slots, Count(c)) - 1)
  {
    var n := Count(c);
    NoAttempts(c.slots, n);
    var k := Choice(c.slots, n);
    if k >= 0 { OneAttempt(c.slots, n, k); }
  }

  lemma {:induction false} AttemptsLeft(c: Control, k: nat)
    requires Valid(c) && NoneSuccessful(c.slots)
    ensures var b := Before(c, k);
            var total := Attempts(c.slots, Count(c));
            && Count(b) == Count(c) && NoneSuccessful(b.slots)
            && Attempts(b.slots, Count(c)) == if k <= total then total - k else 0
  {
    if k > 0 {
      AttemptsLeft(c, k - 1);
      BootUsesOne(Before(c, k - 1));
    }
  }

  /** With no slot ever successful, exactly as many boots find a slot as there were attempts. */
  lemma BootsExactly(c: Control, k: nat)
    requires Valid(c) && NoneSuccessful(c.slots)
    ensures Picked(c, k) >= 0 <==> k < Attempts(c.slots, Count(c))
    ensures Picked(c, k) < 0 ==> Picked(c, k) == 0 - EINVAL
  {
    AttemptsLeft(c, k);
    BootUsesOne(Before(c, k));
  }

  /** A boot takes the best slot that is bootable at that moment. */
  lemma PicksBest(c: Control, k: nat)
    requires Valid(c) && Picked(c, k) >= 0
    ensures Chosen(Before(c, k).slots, Count(Before(c, k)), Picked(c, k))
  {
  }

  /** Later boots change nothing about a slot but take tries away. */
  ghost predicate OnlyFewerTries(a: Slot, b: Slot) { b == a.(tries := b.tries) && b.tries <= a.tries }

  lemma {:induction false} TriesOnlyFall(c: Control, k: nat, m: nat, i: nat)
    requires Valid(c) && k <= m && i < MAX_SLOTS
    ensures OnlyFewerTries(Before(c, k).slots[i], Before(c, m).slots[i])
    ensures k > 0 ==> Count(Before(c, m)) == Count(Before(c, k)) == Before(c, k).nbSlot
    ensures Count(Before(c, m)) == Count(Before(c, k))
    decreases m
  {
    if k < m { TriesOnlyFall(c, k, m - 1, i); }
  }

  /** Over all boots the priority of what is tried never rises: nothing lower while something higher is bootable. */
  lemma PriorityNeverRises(c: Control, k: nat, m: nat)
    requires Valid(c) && k <= m && Picked(c, k) >= 0 && Picked(c, m) >= 0
    ensures 0 <= Picked(c, k) < MAX_SLOTS && 0 <= Picked(c, m) < MAX_SLOTS
    ensures c.slots[Picked(c, k)].priority >= c.slots[Picked(c, m)].priority
  {
    var (s, t) := (Picked(c, k), Picked(c, m));
    PicksBest(c, k);
    PicksBest(c, m);
    TriesOnlyFall(c, k, m, t);
    TriesOnlyFall(c, 0, k, s);
    TriesOnlyFall(c, 0, m, t);
    TriesOnlyFall(c, 0, k, t);
  }

  /** A slot that has booted successfully and is the best is chosen by every boot from then on. */
  lemma {:induction false} SuccessStays(c: Control, k: nat)
    requires Valid(c) && Picked(c, 0) >= 0 && c.slots[Picked(c, 0)].successful > 0
    ensures Picked(c, k) == Picked(c, 0) && Before(c, k).slots == c.slots && Count(Before(c, k)) == Count(c)
  {
    if k > 0 { SuccessStays(c, k - 1); }
  }

  // ---------- taking turns ----------

  /** The slots in use are alike and have all `t` tries, but for the first `j` of them, which have one less. */
  predicate Alike(c: Control, n: nat, t: nat, j: nat, priority: nat) {
    && |c.slots| == MAX_SLOTS && 0 < n <= MAX_SLOTS && c.nbSlot == n && (j > 0 ==> t > 0)
    && forall i :: 0 <= i < n ==> c.slots[i] == Slot(priority, if i < j then t - 1 else t, 0, false)
  }

  lemma TurnTaken(c: Control, n: nat, t: nat, j: nat, priority: nat)
    requires Alike(c, n, t, j, priority) && j < n && t > 0
    ensures var (r, k) := Boot(c, true);
            k == j && (if j + 1 < n then Alike(r, n, t, j + 1, priority) else Alike(r, n, t - 1, 0, priority))
  {
    BootExactly(c, true);
    assert c.slots[j].tries > 0;
    var k := Boot(c, true).1;
    assert AtLeast(c.slots[k], c.slots[j]) && AtLeast(c.slots[j], c.slots[k]);
  }

  lemma NextTurn(c: Control, n: nat, t: nat, j: nat, priority: nat, k: nat)
    requires Valid(c) && Alike(Before(c, k), n, t, j, priority) && j < n && t > 0
    ensures Picked(c, k) == j
    ensures if j + 1 < n then Alike(Before(c, k + 1), n, t, j + 1, priority)
            else Alike(Before(c, k + 1), n, t - 1, 0, priority)
  {
    TurnTaken(Before(c, k), n, t, j, priority);
  }

  /** The boot before the `q * n + j`-th. */
  lemma PreviousTurn(n: nat, q: nat, j: nat, k: nat)
    requires j < n && k == q * n + j && k > 0
    ensures if j > 0 then k - 1 == q * n + (j - 1) else q > 0 && k - 1 == (q - 1) * n + (n - 1)
  {
    if j == 0 { assert q * n == (q - 1) * n + n; }
  }

  /**
   Slots of equal priority, none of which has been successful, take turns: with `t` tries each, boot number
   `q * n + j` goes to slot `j`.
   */
  lemma {:induction false} TakeTurns(c: Control, n: nat, t: nat, priority: nat, q: nat, j: nat, k: nat)
    requires Alike(c, n, t, 0, priority) && j < n && q < t && k == q * n + j
    ensures Alike(Before(c, k), n, t - q, j, priority) && Picked(c, k) == j
    decreases k
  {
    if k > 0 {
      PreviousTurn(n, q, j, k);
      var (q', j') := if j > 0 then (q, j - 1) else (q - 1, n - 1);
      TakeTurns(c, n, t, priority, q', j', k - 1);
      NextTurn(c, n, t - q', j', priority, k - 1);
    } else {
      assert q == 0 && j == 0;
    }
    NextTurn(c, n, t - q, j, priority, k);
  }
}
