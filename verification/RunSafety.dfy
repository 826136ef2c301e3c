/**
 What the runs of TrapRuns mean for enclaves and host: isolation at every address, the life cycle
 over whole runs, and what enclave and host keep.
 */
module RunSafety {
  import opened Bits
  import opened PmpHardware
  import opened PmpRegions
  import opened PmpEncoding
  import opened PmpWord
  import opened Boot
  import opened Enclaves
  import opened Lifecycle
  import opened LifecycleSteps
  import opened HartSteps
  import opened Isolation
  import opened Coverage
  import opened TrapRuns
  import opened WideBlocks

  // ---------- isolation ----------

  /**
   After every run without a breach, a hart that has not entered a live enclave since its create, or has
   been switched back since, is denied every access to every address of its private memory that the PMP can express.
   */
  lemma IsolationHolds(before: seq<Csrs>, mem: map<nat, Byte>, run: seq<Event>, h: nat, e: nat, x: nat)
    requires AllValid(before) && ValidRun(run) && Unbreached(before, mem, run, |run|)
    requires 1 <= h < N_HART && h !in Entered(before, mem, run, |run|) && e < ENCL_MAX && x < PHYS
    ensures var s := Reached(before, mem, run);
            var p := s.enclaves[e].params;
            Live(s.enclaves[e]) ==>
              p.dramSize > 0 && (InEpm(p, x) && Expressible(p) ==> Perm(s.harts[h], x) == NO_PERM)
  {
    assert run[..|run|] == run;
    UnbreachedIsolates(before, mem, run, |run|);
    DeniedAt(Reached(before, mem, run), Entered(before, mem, run, |run|), h, e, x);
  }

  lemma DeniedAt(s: System, entered: set<nat>, h: nat, e: nat, x: nat)
    requires CoreInv(s) && IsolatesFrom(s, entered) && 1 <= h < N_HART && h !in entered && e < ENCL_MAX && x < PHYS
    ensures var p := s.enclaves[e].params;
            Live(s.enclaves[e]) ==>
              p.dramSize > 0 && (InEpm(p, x) && Expressible(p) ==> Perm(s.harts[h], x) == NO_PERM)
  {
    if Live(s.enclaves[e]) {
      assert e == 0 && s.enclaves[0].params.dramSize > 0;
      assert Visible(s) ==> Denied(s, h);
    }
  }

  // ---------- the regions reserved at boot ----------

  /** Where the boot regions are, and what they allow. */
  lemma BootRanges(i: nat, x: nat)
    requires i < 5
    ensures i == 0 ==> START_PERMS[i] == 5 && (InRegion(BOOT_REGIONS[i], x) <==> 0x8000_0000 <= x < 0x8004_0000)
    ensures i == 1 ==> START_PERMS[i] == 3 && (InRegion(BOOT_REGIONS[i], x) <==> 0x8010_0000 <= x < 0x8014_0000)
    ensures i == 2 ==> START_PERMS[i] == 0 && (InRegion(BOOT_REGIONS[i], x) <==> 0x8004_0000 <= x < 0x8008_0000)
    ensures i == 3 ==> START_PERMS[i] == 0 && (InRegion(BOOT_REGIONS[i], x) <==> 0x800c_0000 <= x < 0x8010_0000)
    ensures i == 4 ==> START_PERMS[i] == 7 && (InRegion(BOOT_REGIONS[i], x) <==> x < 0x8000_0000)
  {
  }

  /** The first entry that matches an address of a boot region is that region's own. */
  lemma BootPerm(c: Csrs, t: Table, i: nat, x: nat)
    requires ValidCsrs(c) && BootProgrammed(c) && BootKept(t) && i < 5 && x < PHYS && InRegion(BOOT_REGIONS[i], x)
    ensures Perm(c, x) == START_PERMS[i]
  {
    BootRanges(i, x);
    forall j: nat | j < i ensures !Matches(c, j, x) {
      BootRanges(j, x);
      BootEntry(c, t, j, x);
    }
    PermSkips(c, x, 0, i);
    BootEntry(c, t, i, x);
    OwnEntry(c, i);
  }

  lemma OwnEntry(c: Csrs, i: nat)
    requires ValidCsrs(c) && BootProgrammed(c) && i < 5
    ensures c.cfg[i] % 8 == START_PERMS[i]
  {
    assert Programmed(c, BOOT_REGIONS[i], START_PERMS[i]);
    assert BOOT_REGIONS[i].mode == A_NAPOT && BOOT_REGIONS[i].reg == i;
    LowBits(c.cfg[i], START_PERMS[i]);
  }

  lemma LowBits(b: nat, perm: nat)
    requires b == A_NAPOT + perm && perm < 8
    ensures b % 8 == perm
  {
  }

  /**
   After every run whatever, on every hart and in every context, S and U mode are denied code and data of the
   security monitor; the regions of the trusted monitor have read and execute, and read and write set, and the
   devices everything.
   */
  lemma BootMemoryExact(before: seq<Csrs>, mem: map<nat, Byte>, run: seq<Event>, h: nat, x: nat)
    requires AllValid(before) && ValidRun(run) && 1 <= h < N_HART && x < PHYS
    ensures var may := Perm(Reached(before, mem, run).harts[h], x);
            && (0x8004_0000 <= x < 0x8008_0000 ==> may == NO_PERM)
            && (0x800c_0000 <= x < 0x8010_0000 ==> may == NO_PERM)
            && (0x8000_0000 <= x < 0x8004_0000 ==> may == 5)
            && (0x8010_0000 <= x < 0x8014_0000 ==> may == 3)
            && (x < 0x8000_0000 ==> may == 7)
  {
    BootMemoryAt(Reached(before, mem, run), h, x);
  }

  lemma BootMemoryAt(s: System, h: nat, x: nat)
    requires CoreInv(s) && 1 <= h < N_HART && x < PHYS
    ensures var may := Perm(s.harts[h], x);
            && (0x8004_0000 <= x < 0x8008_0000 ==> may == NO_PERM)
            && (0x800c_0000 <= x < 0x8010_0000 ==> may == NO_PERM)
            && (0x8000_0000 <= x < 0x8004_0000 ==> may == 5)
            && (0x8010_0000 <= x < 0x8014_0000 ==> may == 3)
            && (x < 0x8000_0000 ==> may == 7)
  {
    assert CoreHart(s, h);
    TablesNoneLive(s);
    if x < 0x8014_0000 && !(0x8008_0000 <= x < 0x800c_0000) {
      var i: nat := if x < 0x8000_0000 then 4 else if x < 0x8004_0000 then 0 else if x < 0x8008_0000 then 2
                    else if x < 0x8010_0000 then 3 else 1;
      BootRanges(i, x);
      BootPerm(s.harts[h], s.table, i, x);
    }
  }

  /** An entry with address 0 matches nothing but what the device region has already matched. */
  lemma ZeroEntry(b: Byte, prev: nat, x: nat)
    requires EntryMatches(b, prev, 0, x)
    ensures x < 8
  {
    assert TrailingOnes(0) == 0;
    assert Shr(x / 4, 1) == x / 4 / 2;
  }

  /**
   What S and U mode may touch when they start on a hart, whatever its registers held before: the boot regions as
   above, and all other memory without restriction. Entry 5, which every return from the firmware switches on, matches
   nothing that entry 4 has not matched.
   */
  lemma BootedExactly(before: seq<Csrs>, mem: map<nat, Byte>, h: nat, x: nat)
    requires AllValid(before) && 1 <= h < N_HART && x < PHYS
    ensures Perm(BootSystem(before, mem).harts[h], x) ==
              if 0x8004_0000 <= x < 0x8008_0000 || 0x800c_0000 <= x < 0x8010_0000 then NO_PERM
              else if 0x8000_0000 <= x < 0x8004_0000 then 5
              else if 0x8010_0000 <= x < 0x8014_0000 then 3 else 7
  {
    var s := BootSystem(before, mem);
    BootedInv(before, mem);
    BootMemoryAt(s, h, x);
    if 0x8014_0000 <= x || 0x8008_0000 <= x < 0x800c_0000 { BootedElsewhere(s, before[h], h, x); }
  }

  lemma BootedElsewhere(s: System, was: Csrs, h: nat, x: nat)
    requires CoreInv(s) && 1 <= h < N_HART && ValidCsrs(was) && s.harts[h] == StartHart(was)
    requires x < PHYS && (0x8014_0000 <= x || 0x8008_0000 <= x < 0x800c_0000)
    ensures Perm(s.harts[h], x) == 7
  {
    var c := s.harts[h];
    assert CoreHart(s, h);
    TablesNoneLive(s);
    forall i: nat | i < 5 ensures !InRegion(BOOT_REGIONS[i], x) { BootRanges(i, x); }
    SkipBoot(c, s.table, x);
    StartHartFacts(was);
    if Matches(c, 5, x) { ZeroEntry(c.cfg[5], c.addr[4], x); }
    PermSkips(c, x, 5, 7);
    WholeSpaceEntry(c, SU_RWX, x);
  }

  // ---------- the life cycle ----------

  /**
   After every run without a stray interrupt that strands a hart, RUNNING enclaves and harts in
   enclave context correspond one to one; after every run, RUNNING means one thread, and other
   states none.
   */
  lemma RunningOneToOne(before: seq<Csrs>, mem: map<nat, Byte>, run: seq<Event>)
    requires AllValid(before) && ValidRun(run)
    ensures var s := Reached(before, mem, run);
            && (forall e: nat :: e < ENCL_MAX ==>
                  s.enclaves[e].nThread == if s.enclaves[e].state == Running then 1 else 0)
            && (Unstranded(before, mem, run, |run|) ==>
                  && (forall e: nat :: e < ENCL_MAX ==>
                        (s.enclaves[e].state == Running <==> exists h: nat :: Inside(s, h, e)))
                  && (forall h: nat, k: nat, e: nat :: Inside(s, h, e) && Inside(s, k, e) ==> h == k))
  {
    var s := Reached(before, mem, run);
    forall e: nat | e < ENCL_MAX
      ensures s.enclaves[e].nThread == if s.enclaves[e].state == Running then 1 else 0
    {
      assert EnclaveOk(s.enclaves[e]);
    }
    if Unstranded(before, mem, run, |run|) {
      assert run[..|run|] == run;
      UnstrandedOneToOne(before, mem, run, |run|);
    }
  }

  /** In enclave context, a call to leave is refused exactly if the enclave is not RUNNING. */
  lemma LeavingFailsIff(s: System, h: nat, call: Call)
    requires TablesInv(s) && 1 <= h < N_HART && s.cpus[h].isEnclave && EnclaveCall(call)
    ensures Step(s, h, call).1 == ERR_NOT_RUNNING <==> s.enclaves[0].state != Running
  {
    if s.enclaves[0].state == Running { LeavesEffect(s, h, call); }
  }

  /**
   After every run that strands no hart, a hart in enclave context leaves by exit, stop or
   interrupt: the answer is never NOT_RUNNING, and the enclave is STOPPED.
   */
  lemma LeavingNeverFails(before: seq<Csrs>, mem: map<nat, Byte>, run: seq<Event>, h: nat, call: Call)
    requires AllValid(before) && ValidRun(run) && Unstranded(before, mem, run, |run|) && 1 <= h < N_HART
    requires Reached(before, mem, run).cpus[h].isEnclave && (EnclaveCall(call) || call.Interrupt?)
    ensures var (r, ret) := Step(Reached(before, mem, run), h, call);
            ret != ERR_NOT_RUNNING && !r.cpus[h].isEnclave && r.enclaves[0].state == Stopped
  {
    assert run[..|run|] == run;
    UnstrandedOneToOne(before, mem, run, |run|);
    EnclaveKeepsView(before, mem, run, |run|, h);
    LeavesEffect(Reached(before, mem, run), h, call);
  }

  // ---------- what the enclave keeps ----------

  lemma StepKeepsView(s: System, h: nat, call: Call, k: nat)
    requires CoreInv(s) && OneToOne(s) && 1 <= h < N_HART && 1 <= k < N_HART && OpenToEnclave(s, k)
    ensures OpenToEnclave(Step(s, h, call).0, k)
  {
    if Enters(s, h, call) || Leaves(s, h, call) {
      SwitchKeepsView(s, h, call, k);
    } else if Fixes(s, h, call) {
      FixesHart(s, h, call);
    } else if call.FirmwareReturn? {
      ReturnKeepsFlags(s, h, call);
    } else if Creates(s, h, call) {
      CreateKeepsView(s, h, call, k);
    } else {
      OtherKeepsView(s, h, call, k);
    }
  }

  lemma SwitchKeepsView(s: System, h: nat, call: Call, k: nat)
    requires CoreInv(s) && 1 <= h < N_HART && 1 <= k < N_HART && OpenToEnclave(s, k)
    requires Enters(s, h, call) || Leaves(s, h, call)
    ensures OpenToEnclave(Step(s, h, call).0, k)
  {
    if Enters(s, h, call) {
      EntersHart(s, h, call, k);
      EntersEffect(s, h, call);
    } else {
      LeavesEffect(s, h, call);
    }
  }

  lemma OtherKeepsView(s: System, h: nat, call: Call, k: nat)
    requires CoreInv(s) && OneToOne(s) && 1 <= h < N_HART && 1 <= k < N_HART && OpenToEnclave(s, k)
    requires !Enters(s, h, call) && !Leaves(s, h, call) && !call.FirmwareReturn? && !Creates(s, h, call)
    ensures OpenToEnclave(Step(s, h, call).0, k)
  {
    if Destroys(s, h, call) {
      CreateOrDestroyFlags(s, h, call);
    } else {
      OtherFlags(s, h, call);
    }
  }

  /** While a hart is inside, no create reserves anything, and only the creating hart is touched. */
  lemma CreateKeepsView(s: System, h: nat, call: Call, k: nat)
    requires CoreInv(s) && OneToOne(s) && 1 <= h < N_HART && 1 <= k < N_HART && OpenToEnclave(s, k)
    requires Creates(s, h, call)
    ensures OpenToEnclave(Step(s, h, call).0, k)
  {
    CreateOrDestroyFlags(s, h, call);
    if s.cpus[k].isEnclave {
      CreatesStep(s, h, call);
      LiveCreate(s, h, call.args, call.env);
      SbiCreateResult(s, h, call.args, call.env);
    }
  }

  /**
   In every run that strands no hart, a hart in enclave context has the entries of private and shared region
   programmed open. What that grants, and that entry 6 can still deny shared memory, is said in `Grants`.
   */
  lemma {:induction false} EnclaveKeepsView(before: seq<Csrs>, mem: map<nat, Byte>, run: seq<Event>, n: nat, k: nat)
    requires AllValid(before) && ValidRun(run) && n <= |run| && Unstranded(before, mem, run, n) && 1 <= k < N_HART
    ensures OpenToEnclave(At(before, mem, run, n), k)
  {
    if n == 0 {
      StartsIdle(before, mem, run);
    } else {
      EnclaveKeepsView(before, mem, run, n - 1, k);
      UnstrandedOneToOne(before, mem, run, n - 1);
      ViewNext(before, mem, run, n - 1, k);
    }
  }

  lemma ViewNext(before: seq<Csrs>, mem: map<nat, Byte>, run: seq<Event>, n: nat, k: nat)
    requires AllValid(before) && ValidRun(run) && n < |run| && 1 <= k < N_HART
    requires OneToOne(At(before, mem, run, n)) && OpenToEnclave(At(before, mem, run, n), k)
    ensures OpenToEnclave(At(before, mem, run, n + 1), k)
  {
    AtNext(before, mem, run, n);
    StepKeepsView(At(before, mem, run, n), run[n].hart, run[n].call, k);
  }

  // ---------- what the host keeps ----------

  /** The return from the firmware that takes the OS region away from a hart in host context. */
  predicate ShutsHost(s: System, h: nat, call: Call)
    requires Shaped(s) && h < N_HART
  {
    Shuts(s, h, call) && (Live(s.enclaves[0]) ==> s.enclaves[0].params.untrustedSize < WIDE)
  }

  /** A repair puts the shared region, or a closed OS region, in place of the OS region. */
  lemma ShutIff(s: System, h: nat)
    requires CoreInv(s) && 1 <= h < N_HART && Stray(s, h)
    ensures OpenToHost(Step(s, h, FirmwareReturn).0, h) <==> !ShutsHost(s, h, FirmwareReturn)
  {
    FixesHart(s, h, FirmwareReturn);
    var c := Step(s, h, FirmwareReturn).0.harts[h];
    if Live(s.enclaves[0]) {
      RegionsAreBlocks(s.table, s.enclaves[0].params);
      OsOpenIffWide(c, s.table.regions[UTM_RID]);
    } else {
      ClosedIsNotOpen(c);
    }
  }

  lemma ClosedIsNotOpen(c: Csrs)
    requires ValidCsrs(c) && Programmed(c, OS, NO_PERM)
    ensures !OsOpen(c)
  {
  }

  /** Every hart in host context has the OS region open. */
  ghost predicate AllOpen(s: System)
    requires Shaped(s)
  {
    forall k: nat :: 1 <= k < N_HART ==> OpenToHost(s, k)
  }

  lemma StepKeepsOs(s: System, h: nat, call: Call, k: nat)
    requires CoreInv(s) && 1 <= h < N_HART && 1 <= k < N_HART && OpenToHost(s, k) && !ShutsHost(s, h, call)
    ensures OpenToHost(Step(s, h, call).0, k)
  {
    StepKeepsHart(s, h, call, k);
    if k == h && Fixes(s, h, call) {
      FixesHart(s, h, call);
      if Stray(s, h) { ShutIff(s, h); }
    }
  }

  /** Whatever a hart does, host harts keep the OS region exactly if it is not that return from the firmware. */
  lemma HostStepIff(s: System, h: nat, call: Call)
    requires CoreInv(s) && 1 <= h < N_HART && AllOpen(s)
    ensures AllOpen(Step(s, h, call).0) <==> !ShutsHost(s, h, call)
  {
    if ShutsHost(s, h, call) {
      ShutIff(s, h);
      assert !OpenToHost(Step(s, h, call).0, h);
    } else {
      forall k: nat | 1 <= k < N_HART ensures OpenToHost(Step(s, h, call).0, k) { StepKeepsOs(s, h, call, k); }
    }
  }

  /** No event up to `n` is such a return. */
  ghost predicate Unshut(before: seq<Csrs>, mem: map<nat, Byte>, run: seq<Event>, n: nat)
    requires AllValid(before) && ValidRun(run) && n <= |run|
  {
    forall i: nat :: i < n ==> !ShutsHost(At(before, mem, run, i), run[i].hart, run[i].call)
  }

  lemma HostNextIff(before: seq<Csrs>, mem: map<nat, Byte>, run: seq<Event>, n: nat)
    requires AllValid(before) && ValidRun(run) && n < |run| && AllOpen(At(before, mem, run, n))
    ensures AllOpen(At(before, mem, run, n + 1)) <==> !ShutsHost(At(before, mem, run, n), run[n].hart, run[n].call)
  {
    AtNext(before, mem, run, n);
    HostStepIff(At(before, mem, run, n), run[n].hart, run[n].call);
  }

  lemma StartsOpen(before: seq<Csrs>, mem: map<nat, Byte>, run: seq<Event>)
    requires AllValid(before) && ValidRun(run)
    ensures AllOpen(At(before, mem, run, 0))
  {
    AtStart(before, mem, run);
    BootedInv(before, mem);
  }

  lemma {:induction false} UnshutOpen(before: seq<Csrs>, mem: map<nat, Byte>, run: seq<Event>, n: nat)
    requires AllValid(before) && ValidRun(run) && n <= |run| && Unshut(before, mem, run, n)
    ensures AllOpen(At(before, mem, run, n))
  {
    if n == 0 {
      StartsOpen(before, mem, run);
    } else {
      UnshutOpen(before, mem, run, n - 1);
      UnshutNext(before, mem, run, n - 1);
    }
  }

  lemma UnshutNext(before: seq<Csrs>, mem: map<nat, Byte>, run: seq<Event>, n: nat)
    requires AllValid(before) && ValidRun(run) && n < |run| && Unshut(before, mem, run, n + 1)
    requires AllOpen(At(before, mem, run, n))
    ensures AllOpen(At(before, mem, run, n + 1))
  {
    HostNextIff(before, mem, run, n);
  }

  /**
   In a run from boot, harts in host context have the OS region open in every state exactly when no
   return from the firmware comes to a stray hart, unless a shared region is so wide that it is encoded
   like the OS region.
   */
  lemma HostKeepsOsIff(before: seq<Csrs>, mem: map<nat, Byte>, run: seq<Event>)
    requires AllValid(before) && ValidRun(run)
    ensures (forall n: nat :: n <= |run| ==> AllOpen(At(before, mem, run, n))) <==> Unshut(before, mem, run, |run|)
  {
    if Unshut(before, mem, run, |run|) {
      forall n: nat | n <= |run| ensures AllOpen(At(before, mem, run, n)) { UnshutOpen(before, mem, run, n); }
    } else {
      var i: nat :| i < |run| && ShutsHost(At(before, mem, run, i), run[i].hart, run[i].call);
      if AllOpen(At(before, mem, run, i)) {
        HostNextIff(before, mem, run, i);
        assert !AllOpen(At(before, mem, run, i + 1));
      }
    }
  }

  // ---------- private memory the PMP cannot express ----------

  /** No event up to `n` repairs a hart that has not entered the live enclave, expressible or not. */
  ghost predicate Unrepaired(before: seq<Csrs>, mem: map<nat, Byte>, run: seq<Event>, n: nat)
    requires AllValid(before) && ValidRun(run) && n <= |run|
  {
    forall i: nat :: i < n ==>
      !Repairs(At(before, mem, run, i), run[i].hart, run[i].call, Entered(before, mem, run, i))
  }

  ghost predicate OnlyEntered(s: System, st: seq<Epm>, entered: set<nat>)
    requires Shaped(s) && |st| == N_HART
  {
    Live(s.enclaves[0]) ==> forall k: nat :: 1 <= k < N_HART && st[k] == Open ==> k in entered
  }

  lemma OnlyEnteredStep(s: System, h: nat, call: Call, st: seq<Epm>, entered: set<nat>)
    requires CoreInv(s) && 1 <= h < N_HART && |st| == N_HART && OnlyEntered(s, st, entered)
    requires !Repairs(s, h, call, entered)
    ensures var r := Step(s, h, call).0;
            OnlyEntered(r, StandNext(s, r, h, call, st), EnteredNext(s, r, h, call, entered))
  {
    LiveKept(s, h, call);
    BeginsIffMade(s, h, call);
    OnlyEnteredFlags(s, Step(s, h, call).0, h, call, st, entered);
  }

  lemma OnlyEnteredFlags(s: System, r: System, h: nat, call: Call, st: seq<Epm>, entered: set<nat>)
    requires Shaped(s) && Shaped(r) && 1 <= h < N_HART && |st| == N_HART && OnlyEntered(s, st, entered)
    requires !Repairs(s, h, call, entered) && (Live(r.enclaves[0]) && !Begins(s, r) ==> Live(s.enclaves[0]))
    ensures OnlyEntered(r, StandNext(s, r, h, call, st), EnteredNext(s, r, h, call, entered))
  {
  }

  lemma {:induction false} UnrepairedOpens(before: seq<Csrs>, mem: map<nat, Byte>, run: seq<Event>, n: nat)
    requires AllValid(before) && ValidRun(run) && n <= |run| && Unrepaired(before, mem, run, n)
    ensures OnlyEntered(At(before, mem, run, n), Standing(before, mem, run, n), Entered(before, mem, run, n))
  {
    if n == 0 {
      StartsIdle(before, mem, run);
    } else {
      UnrepairedOpens(before, mem, run, n - 1);
      OnlyEnteredNext(before, mem, run, n);
    }
  }

  lemma OnlyEnteredNext(before: seq<Csrs>, mem: map<nat, Byte>, run: seq<Event>, n: nat)
    requires AllValid(before) && ValidRun(run) && 0 < n <= |run| && Unrepaired(before, mem, run, n)
    requires OnlyEntered(At(before, mem, run, n - 1), Standing(before, mem, run, n - 1),
                         Entered(before, mem, run, n - 1))
    ensures OnlyEntered(At(before, mem, run, n), Standing(before, mem, run, n), Entered(before, mem, run, n))
  {
    AtLast(before, mem, run, n);
    OnlyEnteredStep(At(before, mem, run, n - 1), run[n - 1].hart, run[n - 1].call, Standing(before, mem, run, n - 1),
                    Entered(before, mem, run, n - 1));
  }

  /** After such a run, the private region is closed or off on every hart that has not entered. */
  lemma NotOpenToOthers(before: seq<Csrs>, mem: map<nat, Byte>, run: seq<Event>, h: nat)
    requires AllValid(before) && ValidRun(run) && Unrepaired(before, mem, run, |run|)
    requires 1 <= h < N_HART && h !in Entered(before, mem, run, |run|) && Live(Reached(before, mem, run).enclaves[0])
    ensures var (s, e) := (Reached(before, mem, run), Standing(before, mem, run, |run|)[h]);
            e != Open && EpmIs(s.harts[h], s.table.regions[EPM_RID], e)
  {
    assert run[..|run|] == run;
    StandingTells(before, mem, run, |run|);
    UnrepairedOpens(before, mem, run, |run|);
    StandsThere(Reached(before, mem, run), Standing(before, mem, run, |run|), h);
  }

  lemma StandsThere(s: System, st: seq<Epm>, h: nat)
    requires Shaped(s) && |st| == N_HART && EpmOn(s, st) && 1 <= h < N_HART && Live(s.enclaves[0])
    ensures EpmIs(s.harts[h], s.table.regions[EPM_RID], st[h])
  {
    assert HasEpm(s, h, st[h]);
  }

  /**
   After every run that repairs no hart outside the live enclave, whether a hart that has not entered it is denied its
   private memory. If the region is closed on the hart: exactly when the memory is outside physical memory, or can
   be expressed by the PMP, or the hart's bottom entry grants nothing where the region's entry misses. If it is off:
   exactly when the bottom entry grants nothing of it.
   */
  lemma IsolatedIff(before: seq<Csrs>, mem: map<nat, Byte>, run: seq<Event>, h: nat)
    requires AllValid(before) && ValidRun(run) && Unrepaired(before, mem, run, |run|)
    requires 1 <= h < N_HART && h !in Entered(before, mem, run, |run|) && Live(Reached(before, mem, run).enclaves[0])
    ensures var (s, e) := (Reached(before, mem, run), Standing(before, mem, run, |run|)[h]);
            var (p, c) := (s.enclaves[0].params, s.harts[h]);
            && p.dramSize > 0 && e != Open
            && (Denied(s, h) <==> if e == Off then !BottomOpens(c, p)
                                  else p.dramBase >= PHYS || Expressible(p) || Hidden(c, p))
  {
    var s := Reached(before, mem, run);
    NotOpenToOthers(before, mem, run, h);
    if Standing(before, mem, run, |run|)[h] == Off { DeniedOffIff(s, h); } else { DeniedIff(s, h); }
  }

  /** If harts in host context have kept the OS region, it hides nothing from them. */
  lemma IsolatedIffExpressible(before: seq<Csrs>, mem: map<nat, Byte>, run: seq<Event>, h: nat)
    requires AllValid(before) && ValidRun(run) && Unrepaired(before, mem, run, |run|) && Unshut(before, mem, run, |run|)
    requires 1 <= h < N_HART && Live(Reached(before, mem, run).enclaves[0])
    requires !Reached(before, mem, run).cpus[h].isEnclave
    ensures var (s, e) := (Reached(before, mem, run), Standing(before, mem, run, |run|)[h]);
            var p := s.enclaves[0].params;
            p.dramSize > 0 && e != Open && (Denied(s, h) <==> p.dramBase >= PHYS || (e == Closed && Expressible(p)))
  {
    HostHasOs(before, mem, run, h);
    NotOpenToOthers(before, mem, run, h);
    HostDeniedAt(Reached(before, mem, run), h, Standing(before, mem, run, |run|)[h]);
  }

  lemma HostHasOs(before: seq<Csrs>, mem: map<nat, Byte>, run: seq<Event>, h: nat)
    requires AllValid(before) && ValidRun(run) && Unshut(before, mem, run, |run|)
    requires 1 <= h < N_HART && !Reached(before, mem, run).cpus[h].isEnclave
    ensures OsOpen(Reached(before, mem, run).harts[h]) && h !in Entered(before, mem, run, |run|)
  {
    assert run[..|run|] == run;
    EnteredIsInside(before, mem, run, |run|);
    UnshutOpen(before, mem, run, |run|);
    assert OpenToHost(Reached(before, mem, run), h);
  }

  lemma HostDeniedAt(s: System, h: nat, e: Epm)
    requires CoreInv(s) && 1 <= h < N_HART && Live(s.enclaves[0]) && OsOpen(s.harts[h]) && e != Open
    requires EpmIs(s.harts[h], s.table.regions[EPM_RID], e)
    ensures var p := s.enclaves[0].params;
            p.dramSize > 0 && (Denied(s, h) <==> p.dramBase >= PHYS || (e == Closed && Expressible(p)))
  {
    if e == Off {
      DeniedOffIff(s, h);
      OsOpensOff(s.harts[h], s.table, s.enclaves[0].params);
    } else {
      IsolationIff(s, h);
    }
  }
}
