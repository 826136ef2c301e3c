/**
 The firmware side of dorami_main.c: an S-mode ecall that is not for the monitor goes to the
 firmware with most registers blanked, and comes back with at most two results.
 */
module FirmwareCalls {
  import opened Bits
  import opened Threads

  const N_SAVE: nat := 5
  const A6: nat := 16

  const EXT_LEGACY_LAST: nat := 0x0f
  const EXT_BASE: nat := 0x10
  const EXT_TIME: nat := 0x5449_4d45
  const EXT_IPI: nat := 0x73_5049
  const EXT_RFENCE: nat := 0x5246_4e43
  const EXT_HSM: nat := 0x48_534d
  const EXT_SRST: nat := 0x5352_5354
  const EXT_PMU: nat := 0x50_4d55
  const EXT_KEYSTONE: nat := 0x0842_4b45

  const CAUSE_S_ECALL: nat := 0x9
  const CAUSE_M_ECALL: nat := 0xb
  const IRQ: nat := 0x8000_0000_0000_0000
  const IRQ_M_SOFT: nat := 0x8000_0000_0000_0003
  const IRQ_M_TIMER: nat := 0x8000_0000_0000_0007

  /** `struct sbi_trap_regs` */
  datatype Regs = Regs(x: seq<U64>, mepc: U64, mstatus: U64, mscratch: U64, sscratch: U64)

  predicate Whole(r: Regs) { |r.x| == N_X }

  // ---------- going out ----------

  /** a0 .. a(n-1) */
  function Args(n: nat): (r: set<nat>)
    requires n <= 5
    ensures forall i: nat :: i in r <==> A0 <= i < A0 + n
  {
    if n == 0 then {} else Args(n - 1) + {A0 + n - 1}
  }

  /** The registers `mon_ecall_enter` hands on, by extension and function id. */
  function Passed(ext: nat, func: nat): set<nat> {
    if ext == EXT_BASE then {A7, A6} + (if func == 3 then Args(1) else {})
    else if ext <= EXT_LEGACY_LAST then {A7} + Args(if func == 6 then 3 else if func == 7 then 4 else 1)
    else if ext == EXT_TIME then {A7} + Args(1)
    else if ext == EXT_IPI then {A7} + Args(2)
    else if ext == EXT_RFENCE then
      {A7, A6} + Args(if func == 0 then 2 else if func in {1, 4, 6} then 4 else if func in {2, 3, 5} then 5 else 0)
    else if ext == EXT_HSM then {A7, A6} + Args(if func in {0, 3} then 3 else if func == 2 then 2 else 0)
    else if ext == EXT_SRST then {A7, A6} + Args(2)
    else if ext == EXT_PMU then
      {A7, A6} + Args(if func in {1, 5} then 1 else if func == 2 then 5 else if func == 3 then 4
          else if func == 4 then 3 else 0)
    else {}
  }

  /** What the firmware sees of a frame. */
  function FirmwareView(r: Regs): (v: Regs)
    requires Whole(r)
    ensures Whole(v)
  {
    var pass := Passed(r.x[A7], r.x[A6]);
    Regs(seq(N_X, i requires 0 <= i < N_X => if i in pass then r.x[i] else 0), r.mepc, r.mstatus, r.mscratch, 0)
  }

  /** The registers the RISC-V SBI Specification defines for a call (chapters 4 to 11; chapter 5 for legacy ones). */
  function Needed(ext: nat, func: nat): set<nat> {
    if ext <= EXT_LEGACY_LAST then {A7} + Args(LegacyArgs(ext))
    else if ext == EXT_BASE then {A7, A6} + Args(if func == 3 then 1 else 0)
    else if ext == EXT_TIME then {A7, A6} + Args(if func == 0 then 1 else 0)
    else if ext == EXT_IPI then {A7, A6} + Args(if func == 0 then 2 else 0)
    else if ext == EXT_RFENCE then
      {A7, A6} + Args(match func case 0 => 2 case 1 => 4 case 2 => 5 case 3 => 5
                                 case 4 => 4 case 5 => 5 case 6 => 4 case _ => 0)
    else if ext == EXT_HSM then {A7, A6} + Args(match func case 0 => 3 case 2 => 1 case 3 => 3 case _ => 0)
    else if ext == EXT_SRST then {A7, A6} + Args(if func == 0 then 2 else 0)
    else if ext == EXT_PMU then
      {A7, A6} + Args(match func case 1 => 1 case 2 => 5 case 3 => 4 case 4 => 3 case 5 => 1 case _ => 0)
    else {A7, A6}
  }

  /** set_timer, console_putchar, send_ipi and remote_fence_i take one, the remote sfences three and four. */
  function LegacyArgs(ext: nat): (n: nat)
    ensures n <= 4
  {
    match ext case 0 => 1 case 1 => 1 case 4 => 1 case 5 => 1 case 6 => 3 case 7 => 4 case _ => 0
  }

  /** The extensions `mon_ecall_enter` knows. */
  predicate Known(ext: nat) {
    ext <= EXT_LEGACY_LAST || ext in {EXT_BASE, EXT_TIME, EXT_IPI, EXT_RFENCE, EXT_HSM, EXT_SRST, EXT_PMU}
  }

  lemma ArgsWithin(m: nat, n: nat)
    requires m <= 5 && n <= 5
    ensures Args(m) <= Args(n) <==> m <= n
    ensures A6 !in Args(n) && A7 !in Args(n)
  {
    if n < m { assert A0 + n in Args(m); }
  }

  /**
   Exactly when the firmware gets every register a call is defined by: the legacy remote sfences
   are decided by a6 instead of a7, the function ids of TIME and IPI are dropped, and unknown
   extensions lose everything.
   */
  lemma ArgumentsReachIff(ext: nat, func: nat)
    ensures Needed(ext, func) <= Passed(ext, func) <==>
            && Known(ext) && ext != EXT_TIME && ext != EXT_IPI
            && (ext == 6 ==> func == 6 || func == 7)
            && (ext == 7 ==> func == 7)
  {
    if ext <= EXT_LEGACY_LAST {
      var n := if func == 6 then 3 else if func == 7 then 4 else 1;
      ArgsWithin(LegacyArgs(ext), n);
      assert A7 in Passed(ext, func);
      if Needed(ext, func) <= Passed(ext, func) {
        forall i | i in Args(LegacyArgs(ext)) ensures i in Args(n) { assert i in Needed(ext, func) && i != A7; }
      }
    } else if ext == EXT_TIME || ext == EXT_IPI {
      ArgsWithin(0, if ext == EXT_TIME then 1 else 2);
      assert A6 in Needed(ext, func) && A6 !in Passed(ext, func);
    } else if !Known(ext) {
      assert A7 in Needed(ext, func) && A7 !in Passed(ext, func);
    }
  }

  /**
   Which registers are handed on, beside those the specification defines. HSM's hart_get_status comes with an
   a1 it does not have, and so do unknown functions of SRST with a0 and a1. TIME and IPI come without a6. A
   legacy call comes with a0, and with more if a6 happens to hold the number of a remote sfence.
   */
  lemma PassedByExtension(ext: nat, func: nat)
    ensures ext in {EXT_BASE, EXT_RFENCE, EXT_PMU} ==> Passed(ext, func) == Needed(ext, func)
    ensures ext == EXT_HSM ==> Passed(ext, func) == Needed(ext, func) + if func == 2 then {11} else {}
    ensures ext == EXT_SRST ==> Passed(ext, func) == Needed(ext, func) + {10, 11}
    ensures ext == EXT_TIME ==> Passed(ext, func) == {10, 17}
    ensures ext == EXT_IPI ==> Passed(ext, func) == {10, 11, 17}
    ensures ext <= EXT_LEGACY_LAST ==>
              Passed(ext, func) == {10, 17} + (if func == 6 || func == 7 then {11, 12} else {})
                                            + (if func == 7 then {13} else {})
    ensures !Known(ext) ==> Passed(ext, func) == {}
  {
    if ext <= EXT_LEGACY_LAST {
      assert Args(1) == {10};
      assert Args(3) == {10, 11, 12};
      assert Args(4) == {10, 11, 12, 13};
    }
  }

  /** Whatever the call, the firmware sees at most a0..a4, a6 and a7 of the caller's registers. */
  lemma NothingElseLeaks(r: Regs, i: nat)
    requires Whole(r) && i < N_X && !(A0 <= i < A0 + 5) && i != A6 && i != A7
    ensures FirmwareView(r).x[i] == 0
  {
    assert i !in Passed(r.x[A7], r.x[A6]);
  }

  // ---------- coming back ----------

  predicate Ecall(cause: nat) { cause == CAUSE_S_ECALL || cause == CAUSE_M_ECALL }

  /** An interrupt that is neither the timer's nor a software one. */
  predicate Unhandled(cause: nat) { cause >= IRQ && cause != IRQ_M_SOFT && cause != IRQ_M_TIMER }

  /** Traps that never reach the firmware: calls of the monitor, and interrupts of an enclave. */
  predicate Answered(cause: nat, executing: bool, regs: Regs)
    requires Whole(regs)
  {
    (Ecall(cause) && regs.x[A7] == EXT_KEYSTONE) || (executing && (cause == IRQ_M_SOFT || cause == IRQ_M_TIMER))
  }

  /** A frame to leave with, the start of the OS with a0, a1 and a2, or a hart that hangs. */
  datatype Outcome = Goes(regs: Regs) | Starts(a0: U64, a1: U64, a2: U64) | Hangs

  /** The caller's frame with the firmware's results in it. */
  function Answer(caller: Regs, firmware: Regs): (r: Regs)
    requires Whole(caller) && Whole(firmware)
    ensures Whole(r)
  {
    var x := caller.x[A0 := firmware.x[A0]];
    caller.(x := if caller.x[A7] <= EXT_LEGACY_LAST then x else x[A1 := firmware.x[A1]],
            mepc := Plus4(caller.mepc))
  }

  /**
   One of each per hart: `temporary_registers`, the causes in `temporary_infos`, `sscratch_double_save`,
   `sscratch_double_save_enclave`, `OSBI_mscratch` and `SU_started`.
   */
  class FirmwareGate {
    var saved: seq<Regs>
    var cause: seq<nat>
    var hostScratch: seq<U64>
    var enclaveScratch: seq<U64>
    var firmwareScratch: seq<U64>
    var started: seq<bool>

    ghost predicate Valid()
      reads this
    {
      Ready(View())
    }

    ghost function View(): Gate
      reads this
    {
      Gate(saved, cause, hostScratch, enclaveScratch, firmwareScratch, started)
    }

    constructor ()
      ensures Valid() && forall i :: 0 <= i < N_SAVE ==> !started[i]
    {
      var r := Regs(seq(N_X, _ => 0), 0, 0, 0, 0);
      saved, cause := seq(N_SAVE, _ => r), seq(N_SAVE, _ => 0);
      hostScratch, enclaveScratch := seq(N_SAVE, _ => 0), seq(N_SAVE, _ => 0);
      firmwareScratch, started := seq(N_SAVE, _ => 0), seq(N_SAVE, _ => false);
    }

    /** The branches of `mon_ecall_enter`: are a7 and a6 handed on, and how many arguments? */
    static method Select(ext: nat, func: nat) returns (a7: bool, a6: bool, n: nat)
      ensures n <= 5 && Passed(ext, func) == (if a7 then {A7} else {}) + (if a6 then {A6} else {}) + Args(n)
    {
      a7, a6, n := true, true, 0;
      if ext == EXT_BASE {
        if func == 3 {
          n := 1;
        }
      } else if ext <= EXT_LEGACY_LAST {
        a6, n := false, 1;
        match func {
          case 6 => n := 3;
          case 7 => n := 4;
          case _ =>
        }
      } else if ext == EXT_TIME {
        a6, n := false, 1;
      } else if ext == EXT_IPI {
        a6, n := false, 2;
      } else if ext == EXT_RFENCE {
        n := if func == 0 then 2 else if func in {1, 4, 6} then 4 else if func in {2, 3, 5} then 5 else 0;
      } else if ext == EXT_HSM {
        n := if func in {0, 3} then 3 else if func == 2 then 2 else 0;
      } else if ext == EXT_SRST {
        n := 2;
      } else if ext == EXT_PMU {
        n := if func in {1, 5} then 1 else if func == 2 then 5 else if func == 3 then 4 else if func == 4 then 3 else 0;
      } else {
        a7, a6 := false, false;
      }
    }

    /** The register copies of `mon_ecall_enter`; `from` is the saved frame. */
    static method PickRegisters(from: Regs) returns (x: seq<U64>)
      requires Whole(from)
      ensures |x| == N_X
      ensures forall i :: 0 <= i < N_X ==> x[i] == if i in Passed(from.x[A7], from.x[A6]) then from.x[i] else 0
    {
      var a7, a6, n := Select(from.x[A7], from.x[A6]);
      x := seq(N_X, _ => 0);
      if a7 { x := x[A7 := from.x[A7]]; }
      if a6 { x := x[A6 := from.x[A6]]; }
      if n >= 1 { x := x[A0 := from.x[A0]]; }
      if n >= 2 { x := x[A1 := from.x[A1]]; }
      if n >= 3 { x := x[A0 + 2 := from.x[A0 + 2]]; }
      if n >= 4 { x := x[A0 + 3 := from.x[A0 + 3]]; }
      if n >= 5 { x := x[A0 + 4 := from.x[A0 + 4]]; }
      assert forall i :: 0 <= i < N_X ==>
               x[i] == if (a7 && i == A7) || (a6 && i == A6) || A0 <= i < A0 + n then from.x[i] else 0;
    }

    /** `mon_trap_handler_sumode` up to the firmware, for a trap it does not answer itself */
    method Trap(h: nat, mcause: nat, executing: bool, regs: Regs) returns (out: Outcome)
      requires Valid() && h < N_SAVE && Whole(regs) && !Answered(mcause, executing, regs)
      modifies this
      ensures Valid() && (View(), out) == TrapStep(old(View()), h, mcause, executing, regs)
    {
      cause := cause[h := mcause];
      if executing {
        enclaveScratch := enclaveScratch[h := regs.sscratch];
      } else {
        hostScratch := hostScratch[h := regs.sscratch];
      }
      if Unhandled(mcause) {
        return Hangs;
      }
      var now := regs;
      if Ecall(mcause) {
        saved := saved[h := regs];
        var x := PickRegisters(saved[h]);
        assert x == FirmwareView(regs).x;
        now := Regs(x, regs.mepc, regs.mstatus, regs.mscratch, 0);
      }
      if !executing {
        now := now.(mscratch := firmwareScratch[h]);
      }
      return Goes(now);
    }

    /** `mon_trap_return_osbi` up to the exit to S-mode */
    method Return(h: nat, executing: bool, firmware: Regs) returns (out: Outcome)
      requires Valid() && h < N_SAVE && Whole(firmware)
      modifies this
      ensures Valid() && (View(), out) == ReturnStep(old(View()), h, executing, firmware)
    {
      var mcause := cause[h];
      var regs := firmware.(sscratch := if executing then enclaveScratch[h] else hostScratch[h]);
      if !started[h] {
        firmwareScratch, started := firmwareScratch[h := regs.mscratch], started[h := true];
        return Starts(regs.x[A0], regs.x[A1], regs.x[A0 + 2]);
      }
      if mcause >= IRQ {
        return if Unhandled(mcause) then Hangs else Goes(regs);
      }
      match mcause {
        case 2 =>
        case 4 =>
        case 6 =>
        case _ =>
          if Ecall(mcause) {
            saved := saved[h := saved[h].(x := saved[h].x[A0 := regs.x[A0]])];
            if saved[h].x[A7] > EXT_LEGACY_LAST {
              saved := saved[h := saved[h].(x := saved[h].x[A1 := regs.x[A1]])];
            }
            saved := saved[h := saved[h].(mepc := Plus4(saved[h].mepc))];
            assert saved == old(saved)[h := Answer(old(saved)[h], regs)];
          } else {
            saved := saved[h := saved[h].(mepc := regs.mepc, mstatus := regs.mstatus)];
          }
      }
      out := Goes(if Ecall(mcause) then saved[h] else regs);
    }
  }

  // ---------- runs of several harts ----------

  datatype Gate = Gate(saved: seq<Regs>, cause: seq<nat>, hostScratch: seq<U64>, enclaveScratch: seq<U64>,
                       firmwareScratch: seq<U64>, started: seq<bool>)

  predicate Ready(g: Gate) {
    && |g.saved| == N_SAVE == |g.cause| && |g.hostScratch| == N_SAVE == |g.enclaveScratch|
    && |g.firmwareScratch| == N_SAVE == |g.started|
    && forall i :: 0 <= i < N_SAVE ==> Whole(g.saved[i])
  }

  function TrapStep(g: Gate, h: nat, mcause: nat, executing: bool, regs: Regs): (r: (Gate, Outcome))
    requires Ready(g) && h < N_SAVE && Whole(regs)
    ensures Ready(r.0)
  {
    var g0 := g.(cause := g.cause[h := mcause]);
    var g1 := if executing then g0.(enclaveScratch := g.enclaveScratch[h := regs.sscratch])
              else g0.(hostScratch := g.hostScratch[h := regs.sscratch]);
    var mscratch := if executing then regs.mscratch else g.firmwareScratch[h];
    if Unhandled(mcause) then (g1, Hangs)
    else if Ecall(mcause) then
      (g1.(saved := g.saved[h := regs]), Goes(FirmwareView(regs).(mscratch := mscratch)))
    else (g1, Goes(regs.(mscratch := mscratch)))
  }

  function ReturnStep(g: Gate, h: nat, executing: bool, firmware: Regs): (r: (Gate, Outcome))
    requires Ready(g) && h < N_SAVE && Whole(firmware)
    ensures Ready(r.0)
  {
    var c := g.cause[h];
    var regs := firmware.(sscratch := if executing then g.enclaveScratch[h] else g.hostScratch[h]);
    if !g.started[h] then
      (g.(firmwareScratch := g.firmwareScratch[h := regs.mscratch], started := g.started[h := true]),
       Starts(regs.x[A0], regs.x[A1], regs.x[A0 + 2]))
    else if Unhandled(c) then (g, Hangs)
    else if Ecall(c) then
      var answer := Answer(g.saved[h], regs);
      (g.(saved := g.saved[h := answer]), Goes(answer))
    else if c >= IRQ || c in {2, 4, 6} then (g, Goes(regs))
    else (g.(saved := g.saved[h := g.saved[h].(mepc := regs.mepc, mstatus := regs.mstatus)]), Goes(regs))
  }

  /**
   A trap into the monitor, or the firmware's return with any registers it likes; `executing` is the
   hart's `mon_enclave_execution` at that moment.
   */
  datatype Event =
    | Trapped(hart: nat, mcause: nat, executing: bool, regs: Regs)
    | Returned(hart: nat, executing: bool, regs: Regs)

  predicate ValidRun(run: seq<Event>) {
    forall i :: 0 <= i < |run| ==> run[i].hart < N_SAVE && Whole(run[i].regs)
  }

  function Next(g: Gate, e: Event): (r: (Gate, Outcome))
    requires Ready(g) && e.hart < N_SAVE && Whole(e.regs)
    ensures Ready(r.0)
  {
    match e
    case Trapped(h, mcause, executing, regs) => TrapStep(g, h, mcause, executing, regs)
    case Returned(h, executing, regs) => ReturnStep(g, h, executing, regs)
  }

  function After(g: Gate, run: seq<Event>): (r: Gate)
    requires Ready(g) && ValidRun(run)
    ensures Ready(r)
    decreases |run|
  {
    if run == [] then g else Next(After(g, run[..|run| - 1]), run[|run| - 1]).0
  }

  /** The two gates agree on everything they keep for hart `h`. */
  predicate SameFor(g: Gate, q: Gate, h: nat)
    requires Ready(g) && Ready(q) && h < N_SAVE
  {
    && q.saved[h] == g.saved[h] && q.cause[h] == g.cause[h] && q.hostScratch[h] == g.hostScratch[h]
    && q.enclaveScratch[h] == g.enclaveScratch[h] && q.firmwareScratch[h] == g.firmwareScratch[h]
    && q.started[h] == g.started[h]
  }

  /** Nothing that other harts do touches what is kept for a hart. */
  lemma {:induction false} OthersDoNotMatter(g: Gate, run: seq<Event>, h: nat)
    requires Ready(g) && ValidRun(run) && h < N_SAVE && forall i :: 0 <= i < |run| ==> run[i].hart != h
    ensures SameFor(g, After(g, run), h)
    decreases |run|
  {
    if run != [] { OthersDoNotMatter(g, run[..|run| - 1], h); }
  }

  lemma {:induction false} ScratchKept(g: Gate, run: seq<Event>, h: nat)
    requires Ready(g) && ValidRun(run) && h < N_SAVE && g.started[h]
    ensures var r := After(g, run);
            r.started[h] && r.firmwareScratch[h] == g.firmwareScratch[h]
    decreases |run|
  {
    if run != [] { ScratchKept(g, run[..|run| - 1], h); }
  }

  /**
   The firmware's first return on hart `h` starts the OS with its a0, a1 and a2. After any run after that,
   every trap of the host that the firmware gets to see on that hart finds the mscratch that it left then.
   */
  lemma {:induction false} FirmwareFindsItsScratch(g: Gate, h: nat, executing: bool, first: Regs, run: seq<Event>,
                                                   mcause: nat, f: Regs)
    requires Ready(g) && ValidRun(run) && h < N_SAVE && Whole(first) && Whole(f)
    requires !g.started[h] && !Unhandled(mcause) && !Answered(mcause, false, f)
    ensures var (g0, start) := Next(g, Returned(h, executing, first));
            var out := Next(After(g0, run), Trapped(h, mcause, false, f)).1;
            && start == Starts(first.x[10], first.x[11], first.x[12])
            && out.Goes? && out.regs.mscratch == first.mscratch
  {
    ScratchKept(Next(g, Returned(h, executing, first)).0, run, h);
  }

  /** `r` is `f` behind its ecall, with the first result and, except for legacy calls, the second one in place. */
  ghost predicate OnlyResultsChanged(r: Regs, f: Regs, a0: U64, a1: U64) {
    && Whole(r) && Whole(f) && r.x[A0] == a0
    && r.x[A1] == (if f.x[A7] <= EXT_LEGACY_LAST then f.x[A1] else a1)
    && (forall i :: 0 <= i < N_X && i != A0 && i != A1 ==> r.x[i] == f.x[i])
    && r.mepc == (f.mepc + 4) % WORD && r.mstatus == f.mstatus && r.mscratch == f.mscratch && r.sscratch == f.sscratch
  }

  /**
   From any state in which hart `h` has started, an ecall by hart `h` that is not for the monitor itself, then
   anything on the other harts, then a return of the firmware on hart `h` with arbitrary registers: the firmware
   gets the registers that are handed on as the caller had them, and zeroes; and the caller gets its own frame
   back, with the results and nothing else of what the firmware left.
   */
  lemma {:induction false} EcallRoundTrip(g: Gate, h: nat, mcause: nat, executing: bool, f: Regs,
                                          others: seq<Event>, firmware: Regs)
    requires Ready(g) && h < N_SAVE && g.started[h] && (mcause == 9 || mcause == 11) && Whole(f) && Whole(firmware)
    requires !Answered(mcause, executing, f)
    requires ValidRun(others) && forall i :: 0 <= i < |others| ==> others[i].hart != h
    ensures var (g1, out) := Next(g, Trapped(h, mcause, executing, f));
            var back := Next(After(g1, others), Returned(h, executing, firmware)).1;
            && out.Goes? && Whole(out.regs) && out.regs.sscratch == 0
            && out.regs.mepc == f.mepc && out.regs.mstatus == f.mstatus
            && out.regs.mscratch == (if executing then f.mscratch else g.firmwareScratch[h])
            && (forall i: nat :: i < N_X ==> out.regs.x[i] == if i in Passed(f.x[17], f.x[16]) then f.x[i] else 0)
            && back.Goes? && OnlyResultsChanged(back.regs, f, firmware.x[A0], firmware.x[A1])
  {
    var g1 := Next(g, Trapped(h, mcause, executing, f)).0;
    OthersDoNotMatter(g1, others, h);
  }

  /**
   The same for a trap that is not an ecall and that the monitor does not answer itself: the firmware gets the
   whole frame but for mscratch, and decides about every register but sscratch, which it cannot change.
   */
  lemma {:induction false} TrapRoundTrip(g: Gate, h: nat, mcause: nat, executing: bool, f: Regs,
                                         others: seq<Event>, firmware: Regs)
    requires Ready(g) && h < N_SAVE && g.started[h] && mcause != 9 && mcause != 11 && Whole(f) && Whole(firmware)
    requires !Answered(mcause, executing, f)
    requires ValidRun(others) && forall i :: 0 <= i < |others| ==> others[i].hart != h
    ensures var (g1, out) := Next(g, Trapped(h, mcause, executing, f));
            var back := Next(After(g1, others), Returned(h, executing, firmware)).1;
            var handled := mcause < 0x8000_0000_0000_0000 || mcause in {0x8000_0000_0000_0003, 0x8000_0000_0000_0007};
            && (!handled ==> out == Hangs)
            && (handled ==>
                  && out == Goes(f.(mscratch := if executing then f.mscratch else g.firmwareScratch[h]))
                  && back == Goes(firmware.(sscratch := f.sscratch)))
  {
    var g1 := Next(g, Trapped(h, mcause, executing, f)).0;
    OthersDoNotMatter(g1, others, h);
  }
}
