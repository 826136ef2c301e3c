/**
 thread.c and the SBI wrappers of sm-sbi.c: exchanging the registers of a hart with the ones
 saved for an enclave thread.

 A context is what S-mode can see of itself: x0..x31 as the trap entry lays them out, the pc in
 mepc, mstatus, and the S-mode CSRs. Slot 0 of the layout has no register behind it; the swap
 keeps a flag there.
 */
module Threads {
  import opened Bits

  const N_X: nat := 32
  const ZERO: nat := 0
  const A0: nat := 10
  const A1: nat := 11
  const A7: nat := 17

  datatype SmodeCsrs = SmodeCsrs(sstatus: U64, sie: U64, stvec: U64, scounteren: U64,
                                 sepc: U64, scause: U64, stval: U64, satp: U64)

  datatype Context = Context(x: seq<U64>, mepc: U64, mstatus: U64, csrs: SmodeCsrs)

  predicate Full(c: Context) { |c.x| == N_X }

  /** SIE, SPIE, SPP, MPP, FS, SUM and MXR. */
  const STATUS_MASK: nat := 0xc_7922

  /** MPP = 1, supervisor mode. */
  const MPP_S: U64 := 0x800

  /** The arguments `context_switch_to_enclave` hands to a first run, a1..a7. */
  datatype RunArgs = RunArgs(args: seq<U64>) {
    predicate Valid() { |args| == A7 + 1 - A1 }
  }

  // ---------- mstatus ----------

  lemma MaskFits()
    ensures STATUS_MASK < Pow2(64)
  {
    Pow2Values();
  }

  /** The value `swap_prev_mstatus` puts into the trap frame. */
  function MixStatus(current: U64, prev: U64): U64 {
    MaskFits();
    MixFits(current, prev);
    Or(And(current, Not(STATUS_MASK, 64)), prev)
  }

  lemma BitOfMix(current: U64, prev: U64, i: nat)
    ensures STATUS_MASK < Pow2(64)
    ensures Bit(Or(And(current, Not(STATUS_MASK, 64)), prev), i)
         == (Bit(prev, i) || (Bit(current, i) && !Bit(STATUS_MASK, i)))
  {
    MaskFits();
    BitOfOr(And(current, Not(STATUS_MASK, 64)), prev, i);
    BitOfAnd(current, Not(STATUS_MASK, 64), i);
    BitOfNot(STATUS_MASK, 64, i);
    if 64 <= i { AboveWord(current, i); }
  }

  lemma AboveWord(x: U64, i: nat)
    requires 64 <= i
    ensures !Bit(x, i)
  {
    Pow2Values();
    BitAboveWidth(x, 64, i);
  }

  lemma MixFits(current: U64, prev: U64)
    ensures STATUS_MASK < Pow2(64) && Or(And(current, Not(STATUS_MASK, 64)), prev) < WORD
  {
    MaskFits();
    var w := Or(And(current, Not(STATUS_MASK, 64)), prev);
    forall i: nat | 64 <= i ensures !Bit(w, i) {
      BitOfMix(current, prev, i);
      AboveWord(current, i);
      AboveWord(prev, i);
    }
    Pow2Values();
    BitsBound(w, 64);
  }

  /** Same interrupt enables, previous modes, FS, SUM and MXR. */
  ghost predicate SameFields(a: U64, b: U64) {
    forall i: nat :: Bit(STATUS_MASK, i) ==> Bit(a, i) == Bit(b, i)
  }

  /** Every field of `a` outside the mask is also set in `b`. */
  ghost predicate OtherBitsWithin(a: U64, b: U64) {
    forall i: nat :: !Bit(STATUS_MASK, i) && Bit(a, i) ==> Bit(b, i)
  }

  /** The masked fields come back exactly; all of mstatus does exactly when no other bit was left set. */
  lemma MixRestores(current: U64, prev: U64)
    ensures SameFields(MixStatus(current, prev), prev)
    ensures MixStatus(current, prev) == prev <==> OtherBitsWithin(current, prev)
  {
    var w := MixStatus(current, prev);
    forall i: nat ensures Bit(w, i) == (Bit(prev, i) || (Bit(current, i) && !Bit(STATUS_MASK, i))) {
      BitOfMix(current, prev, i);
    }
    if OtherBitsWithin(current, prev) {
      SameBits(w, prev);
    } else {
      var i: nat :| !Bit(STATUS_MASK, i) && Bit(current, i) && !Bit(prev, i);
      assert Bit(w, i);
    }
  }

  /** What `swap_prev_mstatus` saves, both halves or-ed together, is the current value. */
  lemma SplitStatus(current: U64)
    ensures STATUS_MASK < Pow2(64)
    ensures Or(And(current, Not(STATUS_MASK, 64)), And(current, STATUS_MASK)) == current
  {
    MaskFits();
    var w := Or(And(current, Not(STATUS_MASK, 64)), And(current, STATUS_MASK));
    forall i: nat ensures Bit(w, i) == Bit(current, i) {
      BitOfOr(And(current, Not(STATUS_MASK, 64)), And(current, STATUS_MASK), i);
      BitOfAnd(current, Not(STATUS_MASK, 64), i);
      BitOfAnd(current, STATUS_MASK, i);
      BitOfNot(STATUS_MASK, 64, i);
      if 64 <= i { AboveWord(current, i); }
    }
    SameBits(w, current);
  }

  lemma LowFour(x: nat, i: nat)
    ensures i == 0 ==> Bit(x, i) == (x % 2 == 1)
    ensures i == 1 ==> Bit(x, i) == (x / 2 % 2 == 1)
    ensures i == 2 ==> Bit(x, i) == (x / 4 % 2 == 1)
    ensures i == 3 ==> Bit(x, i) == (x / 8 % 2 == 1)
    ensures i >= 4 ==> Bit(x, i) == Bit(x / 0x10, i - 4)
  {
    if i >= 2 { assert Bit(x, i) == Bit(x / 2 / 2, i - 2); }
    if i == 3 { assert Bit(x / 2 / 2, 1) == Bit(x / 2 / 2 / 2, 0); }
    if i >= 4 { assert Bit(x / 2 / 2, i - 2) == Bit(x / 2 / 2 / 2 / 2, i - 4); }
  }

  /** The masked fields, bit by bit. */
  lemma StatusFields(i: nat)
    ensures Bit(STATUS_MASK, i) <==> i in {1, 5, 8, 11, 12, 13, 14, 18, 19}
  {
    LowFour(STATUS_MASK, i);
    if i >= 4 { LowFour(0xc792, i - 4); }
    if i >= 8 { LowFour(0xc79, i - 8); }
    if i >= 12 { LowFour(0xc7, i - 12); }
    if i >= 16 { LowFour(0xc, i - 16); }
    if i >= 20 { BitOfZero(i - 20); }
  }

  // ---------- one exchange ----------

  function Plus4(pc: U64): U64 { (pc + 4) % WORD }
  function Minus4(pc: U64): U64 { (pc + WORD - 4) % WORD }

  /** The hart's context once `saved` has been swapped in. */
  function Incoming(now: Context, saved: Context): Context {
    Context(saved.x, saved.mepc, MixStatus(now.mstatus, saved.mstatus), saved.csrs)
  }

  /** What the thread state holds of `now` afterwards. */
  function Outgoing(now: Context, returnOnResume: bool): (r: Context)
    requires Full(now)
    ensures Full(r)
  {
    now.(x := now.x[ZERO := if returnOnResume then 0 else 1])
  }

  /** A thread state after `clean_state`: slot 0, mepc and mstatus keep what they held. */
  function Cleaned(t: Context, scounteren: U64): (r: Context)
    requires Full(t)
    ensures Full(r)
  {
    Context(seq(N_X, i requires 0 <= i < N_X => if i == 0 then t.x[0] else 0), t.mepc, t.mstatus,
            SmodeCsrs(0, 0, 0, scounteren, 0, 0, 0, 0))
  }

  // ---------- what each SBI wrapper returns to ----------

  function WithA0(c: Context, v: U64): (r: Context)
    requires Full(c)
    ensures Full(r)
  {
    c.(x := c.x[A0 := v])
  }

  function Skipped(c: Context): (r: Context)
    ensures r.x == c.x
  {
    c.(mepc := Plus4(c.mepc))
  }

  /** The registers a first run starts with, before `regs->mepc += 4`. */
  function LoadParameters(c: Context, dramBase: U64, b: RunArgs): (r: Context)
    requires Full(c) && b.Valid()
    ensures Full(r)
  {
    Context(c.x[..A1] + b.args + c.x[A7 + 1..], Minus4(dramBase), MPP_S, c.csrs.(satp := 0))
  }

  /** `sbi_sm_run_enclave` when it succeeds. */
  function FirstRun(host: Context, saved: Context, dramBase: U64, b: RunArgs): (r: Context)
    requires Full(host) && Full(saved) && b.Valid()
    ensures Full(r)
  {
    Skipped(WithA0(LoadParameters(Incoming(host, saved), dramBase, b), 0))
  }

  /** `sbi_sm_run_enclave` when it fails with `code`. */
  function RunFails(host: Context, code: U64): (r: Context)
    requires Full(host)
    ensures Full(r)
  {
    Skipped(WithA0(host, code))
  }

  /** The end of `sbi_sm_resume_enclave`, on the registers the call has left: slot 0 guards a0. */
  function Resumed(c: Context, ret: U64): (r: Context)
    requires Full(c)
    ensures Full(r)
  {
    Skipped(if c.x[ZERO] == 0 then WithA0(c, ret) else c)
  }

  /** `sbi_sm_stop_enclave` on its way back to the host. */
  function BackFromStop(enclave: Context, saved: Context, code: U64): (r: Context)
    requires Full(enclave) && Full(saved)
    ensures Full(r)
  {
    Skipped(WithA0(Incoming(enclave, saved), code))
  }

  /** `sbi_sm_exit_enclave`: the enclave's a0 is handed over in a1. */
  function BackFromExit(enclave: Context, saved: Context): (r: Context)
    requires Full(enclave) && Full(saved)
    ensures Full(r)
  {
    var c := WithA0(Incoming(enclave, saved), 0);
    Skipped(c.(x := c.x[A1 := enclave.x[A0]]))
  }

  /** `sbi_sm_exit_enclave` when it fails with `code`: the enclave keeps its frame, and its a0 is in a1 all the same. */
  function ExitFails(enclave: Context, code: U64): (r: Context)
    requires Full(enclave)
    ensures Full(r)
  {
    var c := WithA0(enclave, code);
    Skipped(c.(x := c.x[A1 := enclave.x[A0]]))
  }

  // ---------- in place ----------

  /** `struct thread_state` */
  class ThreadState {
    const prev: array<U64>
    var prevMepc: U64
    var prevMstatus: U64
    var prevCsrs: SmodeCsrs

    ghost function View(): Context
      reads this, prev
    {
      Context(prev[..], prevMepc, prevMstatus, prevCsrs)
    }

    ghost predicate Valid() { prev.Length == N_X }

    constructor ()
      ensures Valid() && fresh(prev)
    {
      prev := new U64[N_X](_ => 0);
      prevMepc, prevMstatus, prevCsrs := 0, 0, SmodeCsrs(0, 0, 0, 0, 0, 0, 0, 0);
    }

    /** `clean_state` */
    method CleanState(scounteren: U64)
      requires Valid()
      modifies this`prevCsrs, prev
      ensures View() == Cleaned(old(View()), scounteren)
    {
      for i := 1 to N_X
        invariant prev[0] == old(prev[0])
        invariant forall j :: 1 <= j < i ==> prev[j] == 0
      {
        prev[i] := 0;
      }
      prevCsrs := SmodeCsrs(0, 0, 0, scounteren, 0, 0, 0, 0);
    }
  }

  /** A hart in the monitor: the trap frame and the live CSRs. */
  class Hart {
    const x: array<U64>
    var mepc: U64
    var mstatus: U64
    var csrs: SmodeCsrs

    ghost function View(): Context
      reads this, x
    {
      Context(x[..], mepc, mstatus, csrs)
    }

    ghost predicate Valid(t: ThreadState) { x.Length == N_X && t.Valid() && x != t.prev }

    constructor ()
      ensures x.Length == N_X && fresh(x)
    {
      x := new U64[N_X](_ => 0);
      mepc, mstatus, csrs := 0, 0, SmodeCsrs(0, 0, 0, 0, 0, 0, 0, 0);
    }

    /** `swap_prev_smode_csrs`, without sip and sscratch */
    method SwapPrevSmodeCsrs(t: ThreadState)
      modifies this`csrs, t`prevCsrs
      ensures csrs == old(t.prevCsrs) && t.prevCsrs == old(csrs)
    {
      var tmp := t.prevCsrs.sstatus;
      t.prevCsrs, csrs := t.prevCsrs.(sstatus := csrs.sstatus), csrs.(sstatus := tmp);
      tmp := t.prevCsrs.sie;
      t.prevCsrs, csrs := t.prevCsrs.(sie := csrs.sie), csrs.(sie := tmp);
      tmp := t.prevCsrs.stvec;
      t.prevCsrs, csrs := t.prevCsrs.(stvec := csrs.stvec), csrs.(stvec := tmp);
      tmp := t.prevCsrs.scounteren;
      t.prevCsrs, csrs := t.prevCsrs.(scounteren := csrs.scounteren), csrs.(scounteren := tmp);
      tmp := t.prevCsrs.sepc;
      t.prevCsrs, csrs := t.prevCsrs.(sepc := csrs.sepc), csrs.(sepc := tmp);
      tmp := t.prevCsrs.scause;
      t.prevCsrs, csrs := t.prevCsrs.(scause := csrs.scause), csrs.(scause := tmp);
      tmp := t.prevCsrs.stval;
      t.prevCsrs, csrs := t.prevCsrs.(stval := csrs.stval), csrs.(stval := tmp);
      tmp := t.prevCsrs.satp;
      t.prevCsrs, csrs := t.prevCsrs.(satp := csrs.satp), csrs.(satp := tmp);
    }

    /** `swap_prev_state` */
    method SwapPrevState(t: ThreadState, returnOnResume: bool)
      requires Valid(t)
      modifies this`csrs, x, t`prevCsrs, t.prev
      ensures x[..] == old(t.prev[..]) && csrs == old(t.prevCsrs)
      ensures t.prev[..] == old(x[..])[ZERO := if returnOnResume then 0 else 1] && t.prevCsrs == old(csrs)
    {
      for i := 0 to N_X
        invariant forall j :: 0 <= j < N_X ==> x[j] == if j < i then old(t.prev[j]) else old(x[j])
        invariant forall j :: 0 <= j < N_X ==> t.prev[j] == if j < i then old(x[j]) else old(t.prev[j])
        modifies x, t.prev
      {
        var tmp := t.prev[i];
        t.prev[i] := x[i];
        x[i] := tmp;
      }
      t.prev[0] := if returnOnResume then 0 else 1;
      SwapPrevSmodeCsrs(t);
    }

    /** `swap_prev_mepc` */
    method SwapPrevMepc(t: ThreadState)
      modifies this`mepc, t`prevMepc
      ensures mepc == old(t.prevMepc) && t.prevMepc == old(mepc)
    {
      var tmp := t.prevMepc;
      t.prevMepc := mepc;
      mepc := tmp;
    }

    /** `swap_prev_mstatus` */
    method SwapPrevMstatus(t: ThreadState)
      modifies this`mstatus, t`prevMstatus
      ensures mstatus == MixStatus(old(mstatus), old(t.prevMstatus)) && t.prevMstatus == old(mstatus)
    {
      SplitStatus(mstatus);
      MixFits(mstatus, t.prevMstatus);
      var tmp := t.prevMstatus;
      var others := And(mstatus, Not(STATUS_MASK, 64));
      t.prevMstatus := Or(others, And(mstatus, STATUS_MASK));
      mstatus := Or(others, tmp);
    }

    /** The three swaps the context switches begin or end with. */
    method Exchange(t: ThreadState, returnOnResume: bool)
      requires Valid(t)
      modifies this, x, t, t.prev
      ensures View() == Incoming(old(View()), old(t.View()))
      ensures t.View() == Outgoing(old(View()), returnOnResume)
    {
      SwapPrevState(t, returnOnResume);
      SwapPrevMepc(t);
      SwapPrevMstatus(t);
    }

    /** The parameters of a first run */
    method LoadArgs(dramBase: U64, b: RunArgs)
      requires x.Length == N_X && b.Valid()
      modifies this, x
      ensures View() == LoadParameters(old(View()), dramBase, b)
    {
      mepc := Minus4(dramBase);
      mstatus := MPP_S;
      for i := 0 to |b.args|
        invariant forall j :: 0 <= j < N_X ==> x[j] == if A1 <= j < A1 + i then b.args[j - A1] else old(x[j])
        modifies x
      {
        x[A1 + i] := b.args[i];
      }
      csrs := csrs.(satp := 0);
    }

    /** The registers of `sbi_sm_run_enclave` on success */
    method Run(t: ThreadState, dramBase: U64, b: RunArgs)
      requires Valid(t) && b.Valid()
      modifies this, x, t, t.prev
      ensures View() == FirstRun(old(View()), old(t.View()), dramBase, b)
      ensures t.View() == Outgoing(old(View()), true)
    {
      Exchange(t, true);
      LoadArgs(dramBase, b);
      x[A0] := 0;
      mepc := Plus4(mepc);
    }

    /** The registers of `sbi_sm_resume_enclave` on success */
    method Resume(t: ThreadState)
      requires Valid(t)
      modifies this, x, t, t.prev
      ensures View() == Resumed(Incoming(old(View()), old(t.View())), 0)
      ensures t.View() == Outgoing(old(View()), true)
    {
      Exchange(t, true);
      if x[ZERO] == 0 {
        x[A0] := 0;
      }
      mepc := Plus4(mepc);
    }

    /** The registers of `sbi_sm_stop_enclave` */
    method Stop(t: ThreadState, edgeCall: bool, code: U64)
      requires Valid(t)
      modifies this, x, t, t.prev
      ensures View() == BackFromStop(old(View()), old(t.View()), code)
      ensures t.View() == Outgoing(old(View()), edgeCall)
    {
      Exchange(t, edgeCall);
      x[A0] := code;
      mepc := Plus4(mepc);
    }

    /** The registers of an interrupt in the enclave: the pc is moved back first, so that resuming repeats it */
    method Interrupt(t: ThreadState, code: U64)
      requires Valid(t)
      modifies this, x, t, t.prev
      ensures var m := old(View()).(mepc := Minus4(old(mepc)));
              View() == BackFromStop(m, old(t.View()), code) && t.View() == Outgoing(m, false)
    {
      mepc := Minus4(mepc);
      Stop(t, false, code);
    }

    /** The registers of `sbi_sm_exit_enclave` */
    method Exit(t: ThreadState)
      requires Valid(t)
      modifies this, x, t, t.prev
      ensures View() == BackFromExit(old(View()), old(t.View()))
      ensures t.View() == Outgoing(old(View()), false)
    {
      var retval := x[A0];
      Exchange(t, false);
      x[A0] := 0;
      x[A1] := retval;
      mepc := Plus4(mepc);
    }
  }
}
