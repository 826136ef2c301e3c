/**
 Exactly what S and U mode may touch behind the boot regions, over whole runs, on harts in enclave and host context.

 Nothing is asked of the addresses an enclave was created with.
 */
module Grants {
  import opened Bits
  import opened PmpHardware
  import opened PmpRegions
  import opened PmpEncoding
  import opened Boot
  import opened Enclaves
  import opened Lifecycle
  import opened LifecycleSteps
  import opened HartSteps
  import opened Isolation
  import opened Coverage
  import opened TrapRuns
  import opened RunSafety
  import opened CreateDestroy
  import opened Admission
  import opened Views
  import opened Leftovers

  // ---------- which entry decides ----------

  /** Behind the boot regions, the private region, a leftover entry and then the bottom entry decide. */
  lemma BehindPrivate(c: Csrs, t: Table, p: Params, perm: nat, x: nat)
    requires ValidCsrs(c) && BootProgrammed(c) && LoadedTable(t, p) && x < PHYS && !InBootRegion(x)
    requires Programmed(c, t.regions[EPM_RID], perm) && perm < 8 && (Owns(t.regions[EPM_RID], 6) || Inert(c, 6))
    ensures Perm(c, x) ==
            if PrivateCovers(p, x) then perm
            else if Leftover(c, t.regions[EPM_RID], x) then NO_PERM
            else PermFrom(c, x, 7)
  {
    BehindBoot(c, t, p, perm, x);
  }

  // ---------- a hart in enclave context ----------

  /** The addresses the enclave's entries grant: its private region, and of its shared region what entry 6 leaves. */
  predicate EnclaveMay(s: System, k: nat, x: nat)
    requires Shaped(s) && k < N_HART && s.enclaves[0].params.dramSize > 0
  {
    var p := s.enclaves[0].params;
    PrivateCovers(p, x) || (SharedCovers(p, x) && !Leftover(s.harts[k], s.table.regions[EPM_RID], x))
  }

  lemma EnclaveGrants(s: System, k: nat, x: nat)
    requires CoreInv(s) && 1 <= k < N_HART && Live(s.enclaves[0]) && Tidy(s, k) && x < PHYS && !InBootRegion(x)
    requires EnclaveHart(s.harts[k], s.table.regions[EPM_RID], s.table.regions[UTM_RID])
    ensures Perm(s.harts[k], x) == if EnclaveMay(s, k, x) then SU_RWX else NO_PERM
  {
    var (p, c) := (s.enclaves[0].params, s.harts[k]);
    BehindPrivate(c, s.table, p, SU_RWX, x);
    SharedEntry(c, s.table, p, SU_RWX, x);
  }

  /** In a run that strands no hart, a hart in enclave context has the live enclave's regions open. */
  lemma InsideRun(before: seq<Csrs>, mem: map<nat, Byte>, run: seq<Event>, n: nat, k: nat)
    requires AllValid(before) && ValidRun(run) && n <= |run| && Unstranded(before, mem, run, n) && 1 <= k < N_HART
    requires At(before, mem, run, n).cpus[k].isEnclave
    ensures var s := At(before, mem, run, n);
            && Live(s.enclaves[0]) && s.enclaves[0].params.dramSize > 0 && Tidy(s, k)
            && EnclaveHart(s.harts[k], s.table.regions[EPM_RID], s.table.regions[UTM_RID])
  {
    UnstrandedOneToOne(before, mem, run, n);
    EnclaveKeepsView(before, mem, run, n, k);
    NothingLeftOpen(before, mem, run, n, k);
  }

  /**
   In every run that strands no hart, at every address behind the boot regions: a hart in enclave context may do
   everything on what the private region covers and on what of the shared region a leftover entry 6 does not
   decide, and nothing elsewhere.
   */
  lemma EnclaveExactly(before: seq<Csrs>, mem: map<nat, Byte>, run: seq<Event>, n: nat, k: nat, x: nat)
    requires AllValid(before) && ValidRun(run) && n <= |run| && Unstranded(before, mem, run, n) && 1 <= k < N_HART
    requires At(before, mem, run, n).cpus[k].isEnclave && x < PHYS && !InBootRegion(x)
    ensures var s := At(before, mem, run, n);
            && s.enclaves[0].state == Running && s.enclaves[0].params.dramSize > 0
            && Perm(s.harts[k], x) == if EnclaveMay(s, k, x) then SU_RWX else NO_PERM
  {
    InsideRun(before, mem, run, n, k);
    UnstrandedOneToOne(before, mem, run, n);
    EnclaveGrants(At(before, mem, run, n), k, x);
  }

  // ---------- in terms of the enclave's own memory ----------

  /** A running enclave may do everything with its private memory, wherever the PMP can express it. */
  lemma PrivateIsOpen(before: seq<Csrs>, mem: map<nat, Byte>, run: seq<Event>, n: nat, k: nat, x: nat)
    requires AllValid(before) && ValidRun(run) && n <= |run| && Unstranded(before, mem, run, n) && 1 <= k < N_HART
    requires At(before, mem, run, n).cpus[k].isEnclave
    requires x < PHYS && InEpm(At(before, mem, run, n).enclaves[0].params, x)
    ensures var s := At(before, mem, run, n);
            && s.enclaves[0].params.dramSize > 0
            && (Expressible(s.enclaves[0].params) ==> Perm(s.harts[k], x) == SU_RWX)
  {
    var s := At(before, mem, run, n);
    InsideRun(before, mem, run, n, k);
    EpmOutsideBoot(s.table, s.enclaves[0].params, x);
    EnclaveExactly(before, mem, run, n, k, x);
    PrivateIsCovered(s.enclaves[0].params, x);
  }

  /**
   And everything with its shared memory exactly where no leftover entry 6 decides. A private region that starts
   above the physical limit may cover shared memory too, and its entry comes first.
   */
  lemma SharedOpenIff(before: seq<Csrs>, mem: map<nat, Byte>, run: seq<Event>, n: nat, k: nat, x: nat)
    requires AllValid(before) && ValidRun(run) && n <= |run| && Unstranded(before, mem, run, n) && 1 <= k < N_HART
    requires At(before, mem, run, n).cpus[k].isEnclave
    requires x < PHYS && InUtm(At(before, mem, run, n).enclaves[0].params, x)
    ensures var s := At(before, mem, run, n);
            var (p, c) := (s.enclaves[0].params, s.harts[k]);
            && p.dramSize > 0 && (p.dramBase < PHYS ==> !PrivateCovers(p, x))
            && Perm(c, x) ==
                 if Leftover(c, s.table.regions[EPM_RID], x) && !PrivateCovers(p, x) then NO_PERM else SU_RWX
  {
    var s := At(before, mem, run, n);
    var p := s.enclaves[0].params;
    InsideRun(before, mem, run, n, k);
    UtmOutsideBoot(s.table, p, x);
    EnclaveExactly(before, mem, run, n, k, x);
    SharedNotPrivate(s.table, p, x);
    SharedIsCovered(p, x);
    if p.dramBase < PHYS { PrivateIsCovered(p, x); }
  }

  /** A hart is denied everything outside the boot regions, private and shared memory. */
  ghost predicate Confined(s: System, k: nat)
    requires Shaped(s) && k < N_HART
  {
    forall x: nat :: x < PHYS && !InBootRegion(x) && !InEpm(s.enclaves[0].params, x) && !InUtm(s.enclaves[0].params, x)
                     ==> Perm(s.harts[k], x) == NO_PERM
  }

  /** The entries of the two regions cover nothing but boot regions, private and shared memory. */
  ghost predicate CoversOwn(s: System, k: nat)
    requires Shaped(s) && k < N_HART && s.enclaves[0].params.dramSize > 0
  {
    forall x: nat :: x < PHYS && !InBootRegion(x) && EnclaveMay(s, k, x) ==>
                       InEpm(s.enclaves[0].params, x) || InUtm(s.enclaves[0].params, x)
  }

  /**
   In every run that strands no hart, a hart in enclave context is denied everything outside the boot regions and
   the enclave's memory exactly if the two ranges, taken modulo the physical limit, cover nothing else. They never
   do if both start below the limit.
   */
  lemma ConfinedIff(before: seq<Csrs>, mem: map<nat, Byte>, run: seq<Event>, n: nat, k: nat)
    requires AllValid(before) && ValidRun(run) && n <= |run| && Unstranded(before, mem, run, n) && 1 <= k < N_HART
    requires At(before, mem, run, n).cpus[k].isEnclave
    ensures var s := At(before, mem, run, n);
            && s.enclaves[0].params.dramSize > 0 && (Confined(s, k) <==> CoversOwn(s, k))
            && (s.enclaves[0].params.dramBase < PHYS && s.enclaves[0].params.untrustedBase < PHYS ==> Confined(s, k))
  {
    var s := At(before, mem, run, n);
    InsideRun(before, mem, run, n, k);
    forall x: nat | x < PHYS && !InBootRegion(x)
      ensures Perm(s.harts[k], x) == if EnclaveMay(s, k, x) then SU_RWX else NO_PERM
    {
      EnclaveExactly(before, mem, run, n, k, x);
    }
    if s.enclaves[0].params.dramBase < PHYS && s.enclaves[0].params.untrustedBase < PHYS { BelowLimit(s, k); }
  }

  lemma BelowLimit(s: System, k: nat)
    requires Shaped(s) && k < N_HART && s.enclaves[0].params.dramSize > 0
    requires s.enclaves[0].params.dramBase < PHYS && s.enclaves[0].params.untrustedBase < PHYS
    ensures CoversOwn(s, k)
  {
    var p := s.enclaves[0].params;
    forall x: nat | x < PHYS && EnclaveMay(s, k, x) ensures InEpm(p, x) || InUtm(p, x) {
      PrivateIsCovered(p, x);
      SharedIsCovered(p, x);
    }
  }

  // ---------- a hart in host context ----------

  /** The entries that decide before the OS region does. */
  predicate HostLacks(s: System, k: nat, x: nat)
    requires Shaped(s) && k < N_HART && (Live(s.enclaves[0]) ==> s.enclaves[0].params.dramSize > 0)
  {
    var (p, c, g) := (s.enclaves[0].params, s.harts[k], s.table.regions[EPM_RID]);
    if !Live(s.enclaves[0]) then Matches(c, 5, x) || Matches(c, 6, x)
    else if SwitchedOff(c, g) then FirstBytes(p, x)
    else PrivateCovers(p, x) || Leftover(c, g, x)
  }

  lemma HostGrants(s: System, k: nat, e: Epm, x: nat)
    requires CoreInv(s) && 1 <= k < N_HART && Tidy(s, k) && OsOpen(s.harts[k]) && x < PHYS && !InBootRegion(x)
    requires HasEpm(s, k, e) && e != Open
    ensures Live(s.enclaves[0]) ==> s.enclaves[0].params.dramSize > 0
    ensures Perm(s.harts[k], x) == if HostLacks(s, k, x) then NO_PERM else SU_RWX
  {
    var c := s.harts[k];
    assert CoreHart(s, k);
    TablesNoneLive(s);
    WholeSpaceEntry(c, SU_RWX, x);
    if !Live(s.enclaves[0]) {
      IdleGrants(s, k, x);
    } else if e == Off {
      OffEntry(c, s.table, s.enclaves[0].params, x);
    } else {
      ClosedIsNotOff(s, k);
      BehindPrivate(c, s.table, s.enclaves[0].params, NO_PERM, x);
    }
  }

  lemma ClosedIsNotOff(s: System, k: nat)
    requires TablesInv(s) && 1 <= k < N_HART && Live(s.enclaves[0])
    requires Programmed(s.harts[k], s.table.regions[EPM_RID], NO_PERM)
    ensures !SwitchedOff(s.harts[k], s.table.regions[EPM_RID])
  {
    if SwitchedOff(s.harts[k], s.table.regions[EPM_RID]) { OffIsOff(s, k, Closed); }
  }

  lemma IdleGrants(s: System, k: nat, x: nat)
    requires CoreInv(s) && 1 <= k < N_HART && BothInert(s.harts[k]) && BootKept(s.table) && x < PHYS && !InBootRegion(x)
    ensures Perm(s.harts[k], x) ==
            if Matches(s.harts[k], 5, x) || Matches(s.harts[k], 6, x) then NO_PERM else PermFrom(s.harts[k], x, 7)
  {
    var c := s.harts[k];
    assert CoreHart(s, k);
    SkipBoot(c, s.table, x);
    assert PermFrom(c, x, 5) == if Matches(c, 5, x) then c.cfg[5] % 8 else PermFrom(c, x, 6);
  }

  /**
   After every run that takes the OS region from no host hart and repairs no hart outside the live enclave: a hart
   in host context may do everything behind the boot regions, but for what entries 5 and 6 deny. If the private
   region is off on the hart, that is eight bytes; else it is what the region covers, and what a leftover entry
   matches. A leftover entry only ever denies.
   */
  lemma HostExactly(before: seq<Csrs>, mem: map<nat, Byte>, run: seq<Event>, k: nat, x: nat)
    requires AllValid(before) && ValidRun(run) && Unrepaired(before, mem, run, |run|) && Unshut(before, mem, run, |run|)
    requires 1 <= k < N_HART && !Reached(before, mem, run).cpus[k].isEnclave && x < PHYS && !InBootRegion(x)
    ensures var s := Reached(before, mem, run);
            && (Live(s.enclaves[0]) ==> s.enclaves[0].params.dramSize > 0)
            && Perm(s.harts[k], x) == if HostLacks(s, k, x) then NO_PERM else SU_RWX
  {
    HostRun(before, mem, run, k);
    HostGrants(Reached(before, mem, run), k, HostStanding(before, mem, run, k), x);
  }

  /** With private memory that the PMP can express, it is exactly that and the leftover range, unless it is off. */
  lemma HostDeniedIff(before: seq<Csrs>, mem: map<nat, Byte>, run: seq<Event>, k: nat, x: nat)
    requires AllValid(before) && ValidRun(run) && Unrepaired(before, mem, run, |run|) && Unshut(before, mem, run, |run|)
    requires 1 <= k < N_HART && !Reached(before, mem, run).cpus[k].isEnclave && x < PHYS && !InBootRegion(x)
    requires Visible(Reached(before, mem, run))
    ensures var s := Reached(before, mem, run);
            var (p, c, g) := (s.enclaves[0].params, s.harts[k], s.table.regions[EPM_RID]);
            Perm(c, x) == NO_PERM <==>
            if SwitchedOff(c, g) then p.dramBase <= x < p.dramBase + 8 else InEpm(p, x) || Leftover(c, g, x)
  {
    var p := Reached(before, mem, run).enclaves[0].params;
    HostExactly(before, mem, run, k, x);
    PrivateIsCovered(p, x);
    ModOfSmaller(p.dramBase, PHYS);
  }

  /** What the private region is on the hart, or closed if there is none. */
  ghost function HostStanding(before: seq<Csrs>, mem: map<nat, Byte>, run: seq<Event>, k: nat): Epm
    requires AllValid(before) && ValidRun(run) && k < N_HART
  {
    if Live(Reached(before, mem, run).enclaves[0]) then Standing(before, mem, run, |run|)[k] else Closed
  }

  lemma HostRun(before: seq<Csrs>, mem: map<nat, Byte>, run: seq<Event>, k: nat)
    requires AllValid(before) && ValidRun(run) && Unrepaired(before, mem, run, |run|) && Unshut(before, mem, run, |run|)
    requires 1 <= k < N_HART && !Reached(before, mem, run).cpus[k].isEnclave
    ensures var (s, e) := (Reached(before, mem, run), HostStanding(before, mem, run, k));
            Tidy(s, k) && OsOpen(s.harts[k]) && HasEpm(s, k, e) && e != Open
  {
    assert run[..|run|] == run;
    NothingLeftOpen(before, mem, run, |run|, k);
    HostHasOs(before, mem, run, k);
    if Live(Reached(before, mem, run).enclaves[0]) { NotOpenToOthers(before, mem, run, k); }
  }

  // ---------- ranges above the physical limit ----------

  /**
   From every boot, an enclave that is created and run may do everything on what its private region covers, also
   where that is not its own memory.
   */
  lemma FoldedReached(before: seq<Csrs>, mem: map<nat, Byte>, h: nat, a: CreateArgs, env: CreateEnv, x: nat)
    returns (run: seq<Event>)
    requires AllValid(before) && 1 <= h < N_HART && Admissible(a) && Undisturbed(env)
    requires x < PHYS && !InBootRegion(x) && PrivateCovers(ParamsOf(a), x)
    ensures ValidRun(run) && |run| == 2 && run[0] == Event(h, Create(a, env)) && run[1] == Event(h, Run(0))
    ensures var s := Reached(before, mem, run);
            s.cpus[h].isEnclave && s.enclaves[0].params == ParamsOf(a) && Perm(s.harts[h], x) == SU_RWX
  {
    var created := ReachCreated(before, mem, h, a, env);
    assert Stands(Reached(before, mem, created), h, Fresh, false, false);
    run := created + [Event(h, Run(0))];
    ReachNext(before, mem, created, Event(h, Run(0)));
    EnteredGrants(Reached(before, mem, created), h, a, x);
  }

  lemma EnteredGrants(s: System, h: nat, a: CreateArgs, x: nat)
    requires CoreInv(s) && 1 <= h < N_HART && s.enclaves[0].state == Fresh && !s.cpus[h].isEnclave
    requires s.enclaves[0].params == ParamsOf(a) && a.epmSize > 0
    requires x < PHYS && !InBootRegion(x) && PrivateCovers(ParamsOf(a), x)
    ensures var r := Step(s, h, Run(0)).0;
            r.cpus[h].isEnclave && r.enclaves[0].params == ParamsOf(a) && Perm(r.harts[h], x) == SU_RWX
  {
    var r := Step(s, h, Run(0)).0;
    StepKeepsCore(s, h, Run(0));
    EntersEffect(s, h, Run(0));
    EntersHart(s, h, Run(0), h);
    var g := r.table.regions[EPM_RID];
    SkipBoot(r.harts[h], r.table, x);
    PrivateMatches(r.harts[h], r.table, ParamsOf(a), SU_RWX, x);
    EpmEntry(r.harts[h], g, SU_RWX, x);
  }

  /** A page above the limit covers the page it would be without the bits above. */
  lemma SomeFolded(a: CreateArgs)
    requires a == CreateArgs(PHYS + 0x9000_0000, 0x1000, 0x9000_4000, 0x1000, PHYS + 0x9000_0000, PHYS + 0x9000_0000,
                             PHYS + 0x9000_0000)
    ensures Admissible(a) && PrivateCovers(ParamsOf(a), 0x9000_0000) && !InBootRegion(0x9000_0000)
    ensures !InEpm(ParamsOf(a), 0x9000_0000) && !InUtm(ParamsOf(a), 0x9000_0000)
  {
    PlaceableAbove(a.epmAddr, a.epmSize);
    PlaceableAbove(a.utmAddr, a.utmSize);
    PageAligned(a.epmAddr, a.epmSize);
    PageAligned(a.utmAddr, a.utmSize);
    SharedNapot(a.epmAddr, a.epmSize);
    forall i: nat | i < 5 ensures !InRegion(BOOT_REGIONS[i], 0x9000_0000) { BootRanges(i, 0x9000_0000); }
  }
}
