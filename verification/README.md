# Dorami monitor and boot-loader models

This project models the Dorami/Keystone security monitor (`monitor/`) and four loop-heavy pieces of
the boot loader (`uboot/boot/`), and proves what they promise about memory isolation, the enclave
life cycle, cross-hart messages, locking, register contexts, measurement and text processing.

| files | part |
|---|---|
| `Bits`, `BitSearch` | machine words as numbers, and the bitmap searches of sbi_bitops |
| `PmpHardware`, `PmpWord`, `PmpEncoding`, `WideBlocks` | the PMP registers, their meaning in section 3.7.1 of the RISC-V Privileged Architecture, and how a region is written into them |
| `PmpRegions`, `RegionLaws`, `RegionTable`, `Boot` | the region allocator as a value and as an object, exactly what it answers, and the boot sequence |
| `Enclaves`, `Lifecycle`, `LifecycleSteps`, `HartSteps` | the SBI calls and traps, and what every run of them keeps |
| `Isolation`, `TrapRuns`, `RunSafety` | isolation and the life cycle over runs |
| `Coverage`, `Views`, `Leftovers`, `Grants` | exactly what enclave and host may touch, after a switch and over runs |
| `CreateDestroy`, `Admission`, `Answers`, `Monitor` | conservation, exactly which creates succeed, runs on which promises fail, the answer to every call, and the monitor as an object |
| `IpiMailbox`, `IpiProgress`, `IpiStraddle`, `TicketLock` | the mailbox protocol and the spinlock as interleaved steps, safety and progress |
| `Threads`, `ContextRuns`, `FirmwareCalls` | register contexts of host, enclave and firmware |
| `Measurement` | what the enclave hash absorbs |
| `FdtStream`, `FdtRegions` | `fdt_find_regions` |
| `CmdlineText`, `CmdlineEdit`, `CmdlineLaws`, `CmdlineNames`, `CmdlineExact` | the kernel command-line editor |
| `Moves`, `AbSlots` | overlapping moves, and Android A/B slots |

Source that works in place is modelled by methods and classes whose contracts tie them to
functions on values; the promises are proved about those functions. SBI calls are whole steps; the
mailbox and the lock are stepped one memory access at a time, sequentially consistent. Answers of
code outside the model (copying arguments in, the platform hook, hashing) are parameters.

## Where a promise holds only on a condition

- The monitor has two per-hart flags for "runs an enclave". Calls are admitted by `cpus[].is_enclave`,
  traps are routed by `mon_enclave_execution`, and a run or resume that is refused sets only the
  latter. Two kinds of harts result. A stray hart is in host context with the execution flag up.
  An interrupt on it stops the enclave under the hart that runs it, whose exit is then answered
  NOT_RUNNING (`RefusedRunStrands`): that hart is stranded, and stays in enclave context when the
  enclave is destroyed and the next one is created. Enclaves and harts correspond throughout a run
  exactly if no interrupt strands a hart (`OneToOneRunIff`).
- Every return from the firmware overwrites pmpcfg0 with one constant, LOCK_OSBI, before the monitor looks
  at anything (`HartPmp.EnterFromFirmware`). That leaves a private region of one register closed, whatever
  it was (`OneRegisterSurvives`). Of a region of two registers, which is any private range that is no aligned
  power of two, it switches entry 6 off and leaves entry 5 to deny eight bytes: a hart in host context may then
  do everything with the rest (`ReturnExposes`, and `SomeAdmissible` for arguments). The interrupt by which a
  create tells the other harts of its region ends with such a return.
- If the execution flag is up, that return also repairs the enclave's permissions, and so opens the private
  memory of the live enclave to a stray hart that has never entered it (`RefusedRunExposes`). A hart
  counts as having entered only if it ran or resumed the live enclave since the create that made it
  and was not switched back since (`Entered`); in runs that strand nobody these are the harts in
  enclave context (`EnteredIffInside`). Only stray harts are repaired without having entered, never stranded
  ones, because creates and destroys wait until every other hart's flag is down (`RepairsOnStray`,
  `ToldByInterrupt`).
- Isolation from every hart that has not entered holds throughout a run exactly if there is no breach
  (`IsolationRunIff`). A breach is a return from the firmware on such a hart while there is private memory to
  expose, if it repairs, or if the private range is no aligned power of two and the bottom entry covers some of
  it; or a create by a hart on which the region is off. With one register, repairs of stray harts
  are the only breaches (`OneRegisterRunIff`). `StrayIffRefused` says which harts are stray, and `QuietIsSafe`
  that runs without traps on them keep the correspondence and, with one register, isolation.
- `Entered` is about which hart the monitor has switched in, not about whose registers it runs. The
  interrupt that strands a hart also saves the stray hart's registers as the enclave's, and the next
  resume continues with those (`StrayInterruptMixes`, `StrayFrameResumed`).
- The same repairs put the shared region, or a closed OS region, in place of the OS region. The host
  keeps its OS region throughout exactly if no repair comes to a hart in host context, but for shared
  regions of 2^57 bytes or more, which are encoded like the OS region (`HostKeepsOsIff`,
  `OsOpenIffWide`).
- A TOR region (a range that is no aligned power of two) whose end is at or above 2^56 does not fit
  the 54-bit pmpaddr registers (`EncodingExactIff`). A create with such a private range leaves the last
  physical address open to every hart from the start (`LastAddressReached`, `IsolatedIffExpressible`).
- Ranges that start at or above 2^56 are accepted too, and are decoded as if their addresses had been taken
  modulo 2^56 (`PrivateMatches`, `SharedEntry`). An enclave is confined to the boot regions and its own memory
  exactly if its two ranges so taken cover nothing else, as they do if both start below 2^56
  (`ConfinedIff`); with a private page above it another page is covered instead (`FoldedReached`, `SomeFolded`).
- A private region that takes one register leaves entry 6 as it was, and a hart that destroys an
  enclave keeps that enclave's closed entry. Such an entry never grants anything (`NothingLeftOpen`), but it
  decides before the shared region and the OS region do. The host can so be denied memory that belongs to nobody
  (`LeftoverReached`), and a running enclave its own shared memory (`SharedDeniedReached`), until the firmware
  next returns on the hart (`ReturnEndsLeftover`). `EnclaveExactly`,
  `SharedOpenIff`, `HostExactly` and `HostViewIff` give the exact conditions.
- The allocator does not reserve the bottom register for bottom-priority regions: freeing one clears
  the register's bit while the OS region still uses it (`BottomSharedWithAny`, `BootSharesBottom`,
  `AnyTakesBottomIff`). Over runs of SBI calls a private region nevertheless always lands on register
  5, or on 5 and 6 (`ReserveEpm`).
- `pmp_init` hands one variable to an or-ing macro eight times, so it switches off entry 0 only
  (`HartPmp.PmpInit`). Entries 5 and 6 keep their byte through `sm_init` (`BootLeaves`). The first return from
  the firmware, which starts S mode, overwrites them, and gives the devices and the OS region the execute
  permission that `sm_init` had not (`StartHartFacts`, `BootedExactly`).
- A mailbox receiver loads the valid flag and the ready flag one after the other. If the sender
  clears both in between, the receiver acts on a cleared request (`OverappliesReachable`). It has a
  real request exactly when the valid flag is still up (`ActsOnRequestIff`); receivers whose two
  loads are adjacent are always right (`AdjacentLoadsAreClean`).
- A mailbox receiver acknowledges within a bounded number of its own steps (`ReceiverAcknowledges`), and
  a sender whose flags are all up returns within fifteen (`SenderReturns`). But a hart that waits does not
  look at its own mailbox: two harts that send before either has looked wait for each other for ever
  (`DeadlockReached`, `DeadlockStays`). The source has a note about this at its wait loop.
- The ticket lock excludes exactly as long as at most 2^16 threads contend (`ExclusiveIffFewThreads`).
- `swap_prev_mstatus` restores the masked fields; all of mstatus exactly when the other side left no
  further bit set (`MixRestores`).
- Legacy remote-fence calls get their arguments by a6 instead of a7, TIME and IPI lose their function
  id, unknown extensions lose everything (`ArgumentsReachIff`, `PassedByExtension`).
- An argument added to the command line is read back as one exactly when its name has closed quotes and
  quoted spaces (`SetMeansEditedIff`, `SpacedNameSplits`). A value that was set is found again exactly
  when it has no `=` or has a space (`SetThenGetIff`, `EqualsInValueLost`). Under an added name with an
  unquoted space the value of its first word is found instead (`SpacedNameIff`); one that
  is a single argument behind spaces is never found (`LeadingSpaceLost`), and of one with an open quote
  only what stands behind its own last `=` can be (`OpenNameIff`).
- The comment above the slot loop of `ab_select_slot` says that a successful slot is bootable without
  tries; the code wants tries in any case, and so does the model.

## Model

| member | source | states |
|---|---|---|
| `Bits.PowerOfTwoTest` | monitor/sm/pmp.c:492-494 | the `!(x & (x - 1))` test accepts exactly the powers of two |
| `Bits.UnsetBitEffect` | monitor/sm/pmp.h:15 | UNSET_BIT clears one bit of a 32-bit bitmap and no other |
| `PmpWord.LaneOfMerge` | monitor/sm/pmp.h:48-59 | the shift-and-mask update of pmpcfg0 replaces one byte and leaves the seven others |
| `PmpWord.HartPmp.PmpSet` | monitor/sm/pmp.h:48-59 | PMP_SET on the packed word is an update of one entry |
| `PmpWord.HartPmp.PmpUnset` | monitor/sm/pmp.h:61-72 | PMP_UNSET on the packed word zeroes one entry |
| `PmpWord.HartPmp.PmpInit` | monitor/sm/pmp.c:219-232 | what the loop over all entries leaves, given that the macro or-s into its argument |
| `PmpWord.HartPmp.EnterFromFirmware` | monitor/monitor.S:654-660 | the write of LOCK_OSBI gives the eight entries the bytes 1D 1B 18 18 1F 18 00 1F, whatever they had, and leaves all addresses |
| `PmpEncoding.CfgByteValue` | monitor/sm/pmp.c:77-80 | the configuration byte is mode plus permission |
| `PmpEncoding.NapotBlock` | monitor/sm/pmp.c:69-70 | the programmed word selects exactly the aligned block, by the trailing-ones rule |
| `PmpEncoding.EncodingExactIff` | monitor/sm/pmp.c:246-292 | programming and decoding by section 3.7.1 an exclusive region that starts in physical memory gives back exactly [addr, addr+size), if and only if the region is encodable: NAPOT, or ending below 2^56 with a register for its start; the permission is the requested one in any case |
| `PmpEncoding.SetKeepsProgrammed` | monitor/sm/pmp.c:246-292 | programming a region leaves every region in other registers programmed |
| `PmpEncoding.UnsetKeepsProgrammed` | monitor/sm/pmp.c:294-322 | so does unsetting one |
| `PmpRegions.TakesNapotMeaning` | monitor/sm/pmp.c:492-494 | the two bit tests mean: the whole space, or a naturally aligned power of two |
| `PmpRegions.InitKeepsInv` | monitor/sm/pmp.c:333-505 | any initialisation keeps exclusive regions disjoint and non-wrapping, registers below the bottom used exactly when one region owns them, and free slots zeroed |
| `PmpRegions.FreeKeepsInv` | monitor/sm/pmp.c:449-471 | any free keeps the same and zeroes its slot |
| `PmpRegions.After` | monitor/sm/pmp.c:324-505 | the invariant over every sequence of initialisations and frees |
| `PmpRegions.AnyTakesBottomIff` | monitor/sm/pmp.c:132-140 | a region that asks for any register gets the bottom one exactly when nothing large enough is free below |
| `RegionLaws.InitExactly` | monitor/sm/pmp.c:333-505 | for every table between calls: the code of the first check that fails, and then nothing changes; otherwise the region stands in the lowest free slot and in the lowest registers that will do, the first or the last, as its priority asks, and nothing else changes |
| `RegionTableObject.SearchRightmostUnset` | monitor/sm/pmp.c:110-125 | the mask loop finds the lowest run of clear bits, or -1 if there is none |
| `RegionTableObject.RegionTable.DetectRegionOverlap` | monitor/sm/pmp.c:149-179 | the scan reports an overlap exactly when the range wraps or meets an exclusive region |
| `RegionTableObject.RegionTable.InitRegion` | monitor/sm/pmp.c:473-505 | the in-place initialisation with all its error codes is the one on values, and keeps the invariant |
| `RegionTableObject.RegionTable.NapotRegionInit` | monitor/sm/pmp.c:383-447 | slot and register choice for one-register regions |
| `RegionTableObject.RegionTable.TorRegionInit` | monitor/sm/pmp.c:333-381 | slot and register choice for two-register regions |
| `RegionTableObject.RegionTable.FreeRegion` | monitor/sm/pmp.c:449-471 | the in-place free is the one on values, and keeps the invariant |
| `Boot.BootTableFacts` | monitor/sm/sm.c:195-236 | after the six boot calls: slots 0..5, registers 0..4 and 7, and the regions with their ranges |
| `Boot.BootHartFacts` | monitor/sm/sm.c:257-277 | whatever the registers held, `sm_init` leaves each boot region programmed with its last permission |
| `Boot.StartHartFacts` | monitor/monitor.S:683-695 | when S mode starts, the boot regions have the permissions of LOCK_OSBI, the OS region is open, and entries 5 and 6 grant nothing |
| `Boot.BootLeaves` | monitor/sm/pmp.c:219-232 | entries 5 and 6 come through `sm_init` with the byte they had and address 0 |
| `Boot.BottomSharedWithAny` | monitor/sm/pmp.c:449-471 | from boot, four allocator calls put a region that asked for any register onto the OS region's register |
| `Boot.BootSharesBottom` | monitor/sm/sm.c:195-236 | three concrete regions for which that happens from the very table sm_init leaves |
| `Monitor.InitThenFree` | monitor/sm/enclave.c:399-406 | freeing a region that took any register undoes its initialisation completely |
| `Monitor.ReserveThenFree` | monitor/sm/enclave.c:476-483 | unwinding both regions of a create loses nothing but the bottom register's bit |
| `Monitor.BootRegions` | monitor/sm/sm.c:195-236 | the boot calls on the table object |
| `Monitor.SecurityMonitor.constructor` | monitor/sm/sm.c:184-277 | the monitor when S mode starts |
| `Monitor.SecurityMonitor.SetGlobal` | monitor/sm/pmp.c:208-217 | a global set reaches harts 1..4 except the sender, and their execution flags are down afterwards |
| `Monitor.SecurityMonitor.UnsetGlobal` | monitor/sm/pmp.c:196-205 | so does a global unset |
| `Monitor.SecurityMonitor.ContextSwitchToEnclave` | monitor/sm/enclave.c:78-101 | OS closed, then the enclave's regions opened, and the context flag set |
| `Monitor.SecurityMonitor.ContextSwitchToHost` | monitor/sm/enclave.c:107-152 | the enclave's regions closed, then the OS opened, and the context flag cleared |
| `Monitor.SecurityMonitor.FixAccessPermissions` | monitor/sm/enclave.c:155-164 | the enclave view again |
| `Monitor.SecurityMonitor.AllocEid` | monitor/sm/enclave.c:203-227 | the lowest INVALID slot, marked ALLOCATED, or none |
| `Monitor.SecurityMonitor.Create` | monitor/sm/enclave.c:366-487 | the goto-unwinding create has the net effect stated on values, at every failure point |
| `Monitor.SecurityMonitor.SbiCreateEnclave` | monitor/sm/sm-sbi.c:15-35 | the wrapper that opens and closes the OS entry around the create |
| `Monitor.SecurityMonitor.Destroy` | monitor/sm/enclave.c:494-556 | the clearing loop, the shared region and the reset of the slot |
| `Monitor.SecurityMonitor.Run` | monitor/sm/enclave.c:559-580 | only a FRESH enclave is run |
| `Monitor.SecurityMonitor.Resume` | monitor/sm/enclave.c:652-674 | only a resumable enclave is resumed |
| `Monitor.SecurityMonitor.Stop` | monitor/sm/enclave.c:605-650 | thread count, state, switch back, and the answer for each request |
| `Monitor.SecurityMonitor.Exit` | monitor/sm/enclave.c:582-601 | the same for an exit |
| `Monitor.SecurityMonitor.SbiTrapExit` | monitor/sbi/dorami_main.c:524-547 | the execution flag takes the target of the exit |
| `Monitor.SecurityMonitor.SbiRunEnclave` | monitor/sm/sm-sbi.c:44-59 | a run, admitted or refused, leaves through the enclave's exit |
| `Monitor.SecurityMonitor.SbiResumeEnclave` | monitor/sm/sm-sbi.c:61-71 | so does a resume |
| `Monitor.SecurityMonitor.SbiStopEnclave` | monitor/sm/sm-sbi.c:82-88 | a stop leaves through the host's exit, whatever it is answered |
| `Monitor.SecurityMonitor.SbiExitEnclave` | monitor/sm/sm-sbi.c:73-80 | so does an exit |
| `Monitor.SecurityMonitor.HandleInterrupt` | monitor/sbi/dorami_main.c:260-267 | an interrupt stops the enclave of the hart's eid exactly if the execution flag is up |
| `Monitor.SecurityMonitor.EnterFromFirmware` | monitor/monitor.S:683-695 | a return from the firmware overwrites the configuration of its hart |
| `Monitor.SecurityMonitor.HandleFirmwareReturn` | monitor/sbi/dorami_main.c:390-392 | and then repairs permissions exactly if the execution flag is up |
| `Monitor.SecurityMonitor.Handle` | monitor/sm/sm-sbi-opensbi.c:17-83 | the gate: host calls refused in enclave context and enclave calls outside it, traps past it |
| `Lifecycle.EnclaveViewIsEnclaveHart` | monitor/sm/enclave.c:78-85 | entering leaves private and shared region open although the shared one takes the OS's register |
| `Lifecycle.HostViewIsHostHart` | monitor/sm/enclave.c:111-118 | leaving closes the private region and puts the OS back into the shared register |
| `LifecycleSteps.ReserveEpm` | monitor/sm/enclave.c:399-402 | with no enclave live a private region can only get slot 6 and register 5, or 5 and 6 |
| `LifecycleSteps.StepKeepsTables` | monitor/sm/enclave.c:366-674 | every call and trap keeps regions, enclave states and thread counts in agreement, with one enclave live at most, in slot 0 |
| `Lifecycle.LockedHart` | monitor/monitor.S:654-660 | what the word does to a hart: boot regions as ever, the OS region open if its address is in place, a private region of one register closed and one of two registers off |
| `HartSteps.StepKeepsHart` | monitor/sm/enclave.c:42-164 | every call and trap leaves each hart the boot regions, its private region closed, open or off, and its OS region unless its permissions are repaired |
| `HartSteps.Reached` | monitor/sm/sm-sbi-opensbi.c:17-83 | after every run from boot the tables agree, and every hart 1..4 has the boot regions, and the private region closed, as an enclave has it, or off |
| `Isolation.IsolationIff` | monitor/sm/pmp.c:246-322 | a hart with the private region closed and the OS region open is denied the live enclave's private memory exactly when that is outside physical memory or expressible by the PMP |
| `TrapRuns.BeginsIffMade` | monitor/sm/enclave.c:366-487 | an enclave comes to life exactly by a create that answers SUCCESS |
| `TrapRuns.EnteredIsInside` | monitor/sm/enclave.c:559-674 | in every run whatever, a hart that has run or resumed the live enclave since its create, and was not switched back since, is in enclave context, and while the enclave is FRESH there is none |
| `TrapRuns.EnteredIffInside` | monitor/sm/cpu.c:10-29 | in every run that strands no hart these are exactly the harts in enclave context |
| `TrapRuns.ToldByInterrupt` | monitor/sbi/dorami_main.c:260-281 | when a create or destroy tells the other harts, the interrupt on a hart lowers its execution flag and does nothing else |
| `TrapRuns.IsolationStepIff` | monitor/sbi/dorami_main.c:357-392 | whatever a hart does, isolation of the live enclave from every hart that has not entered it survives exactly if it is no breach: no repair of such a hart, no return from the firmware that switches off a region of two registers which the bottom entry covers, no create by a hart on which the region is off |
| `TrapRuns.IsolationRunIff` | monitor/sbi/dorami_main.c:345-452 | in every run from boot, no hart that has not entered the live enclave can touch its expressible private memory in any state, exactly if no breach occurs |
| `TrapRuns.RepairsOnStray` | monitor/sm/ipi.c:31-78 | in every run whatever, a hart that is repaired without having entered the live enclave is stray, never stranded in an earlier one |
| `TrapRuns.OneRegisterSurvives` | monitor/monitor.S:654-660 | a return from the firmware without repair closes a private region of one register, whatever the hart had of it, and denies the hart the private memory |
| `TrapRuns.OneRegisterRunIff` | monitor/sbi/dorami_main.c:345-452 | if the firmware returns only while the live private range is an aligned power of two, isolation holds throughout exactly if no stray hart is repaired with private memory to expose |
| `TrapRuns.OneToOneStepIff` | monitor/sbi/dorami_main.c:260-267 | whatever a hart does, the correspondence of RUNNING enclaves and harts in enclave context survives exactly if it is no interrupt on a stray hart while the enclave is RUNNING |
| `TrapRuns.OneToOneRunIff` | monitor/sm/cpu.c:10-29 | in every run from boot the correspondence holds in every state exactly if no such interrupt occurs |
| `TrapRuns.EnterAnswer` | monitor/sm/sm-sbi-opensbi.c:27-36 | run and resume answer PROHIBITED exactly in enclave context, and SUCCESS exactly if they enter |
| `TrapRuns.StrayIffRefused` | monitor/sbi/dorami_main.c:524-547 | in every run the stray harts are those whose last run or resume was refused, with no interrupt since, and no create or destroy of another hart that told of a region |
| `TrapRuns.QuietIsSafe` | monitor/sbi/dorami_main.c:248-267 | runs without traps on such harts keep the correspondence throughout, and isolation if the firmware returns only while the live private region takes one register |
| `TrapRuns.PrivateMemoryExact` | monitor/sm/enclave.c:42-164 | after every run whatever, what a hart may do with the live enclave's private memory: everything if it last entered or was repaired; if a return without repair came last and the range is no aligned power of two, nothing of the first eight bytes and what the bottom entry grants of the rest; else nothing |
| `RunSafety.IsolationHolds` | monitor/sm/enclave.c:42-153 | after every run without a breach, the lowest-numbered matching entry of a hart 1..4 that has not entered the live enclave denies every access to its private memory, if the PMP can express it |
| `RunSafety.BootMemoryExact` | monitor/monitor.S:654-660 | after every run whatever, on every hart in every context, S and U mode are denied the security monitor's code and data; the trusted monitor's code is RX, its data RW, and the devices are RWX |
| `RunSafety.BootedExactly` | monitor/monitor.S:683-695 | whatever the registers held before boot, what S and U mode may touch at every physical address when they start |
| `RunSafety.RunningOneToOne` | monitor/sm/cpu.c:10-29 | after every run RUNNING means one thread and other states none; after every run that strands no hart RUNNING enclaves and harts in enclave context correspond one to one |
| `RunSafety.LeavingNeverFails` | monitor/sm/enclave.c:582-650 | after every run that strands no hart, exit, stop and interrupt in enclave context never answer NOT_RUNNING and leave the enclave STOPPED |
| `RunSafety.EnclaveKeepsView` | monitor/sm/enclave.c:78-85 | in every run that strands no hart, a hart in enclave context has the entries of private and shared region programmed open; `Grants` says what that grants |
| `RunSafety.HostKeepsOsIff` | monitor/sm/enclave.c:111-164 | in every run from boot, all harts in host context have the OS region open in every state exactly if no return from the firmware repairs a stray hart while no enclave, or one with a shared region below 2^57 bytes, is live |
| `RunSafety.ShutIff` | monitor/sm/enclave.c:155-164 | a return from the firmware leaves a stray hart the OS region exactly if an enclave with a shared region of 2^57 bytes or more is live |
| `WideBlocks.AllOnesIff` | monitor/sm/pmp.c:69-70 | an aligned block is written as 54 ones, like the whole address space, exactly if it has 2^57 bytes or more |
| `WideBlocks.OsOpenIffWide` | monitor/sm/pmp.c:246-292 | with a shared region programmed into the bottom register, the OS region is open exactly in that case |
| `RunSafety.IsolatedIff` | monitor/sm/pmp.c:246-322 | after every run in which no hart that has not entered the live enclave is repaired, such a hart is denied the private memory exactly when, if the region is closed, that is outside physical memory, or expressible by the PMP, or nothing is granted below where the entries miss it; if it is off, when the bottom entry grants nothing of it |
| `RunSafety.IsolatedIffExpressible` | monitor/sm/pmp.c:246-322 | if the hosts keep their OS region too, then for harts in host context exactly when it is outside physical memory, or the region is closed and expressible |
| `Views.EnclaveViewExact` | monitor/sm/enclave.c:78-85 | the permission at every address outside the boot regions after a switch or a repair: RWX on what private and shared region cover and nothing else, but for what a leftover entry 6 says |
| `Views.HostViewExact` | monitor/sm/enclave.c:111-118 | the same after a switch back: everything but what the private region covers, but for what a leftover entry 6 says |
| `Views.HostViewIff` | monitor/sm/enclave.c:111-118 | the host has exactly everything but the private memory if and only if entry 6 grants everything wherever it decides |
| `Views.LeftoverReached` | monitor/sm/enclave.c:494-556 | from every boot, creating and destroying a two-register enclave and creating a one-register one denies the hart the memory between their ends |
| `Views.SharedDeniedReached` | monitor/sm/enclave.c:559-580 | from every boot, entering the second enclave of such a run on that hart denies it its own shared memory between the ends of the two private regions |
| `Views.SomeShared` | monitor/sm/enclave.c:366-468 | two creates that are such a pair, with a shared page between |
| `Coverage.PrivateMatches` | monitor/sm/pmp.c:65-75 | the entry of any live enclave's private region matches, of all physical addresses, exactly the block with its address modulo 2^56, or the range with both ends modulo 2^56 |
| `Coverage.SharedEntry` | monitor/sm/pmp.c:65-75 | the same of the shared region, whose entry comes last |
| `Coverage.PrivateIsCovered` | monitor/sm/pmp.c:65-75 | of a private range that starts below 2^56 only its own addresses are covered, and all of them if the PMP can express it |
| `Leftovers.NothingLeftOpen` | monitor/sm/pmp.c:294-322 | in every run whatever, an entry 5 or 6 of any hart 1..4 that is not the live enclave's grants nothing |
| `Leftovers.StepKeepsTidy` | monitor/sm/enclave.c:366-556 | every call and every trap keeps that |
| `Leftovers.ReturnEndsLeftover` | monitor/monitor.S:654-660 | after a return from the firmware entry 6 of that hart denies nothing that an earlier enclave had |
| `Grants.EnclaveExactly` | monitor/sm/enclave.c:42-85 | in every run that strands no hart, what a hart in enclave context may do at every address outside the boot regions: everything on what the private region covers and on what of the shared region a leftover entry 6 does not decide, nothing elsewhere |
| `Grants.PrivateIsOpen` | monitor/sm/enclave.c:42-85 | so it may do everything with all private memory that the PMP can express |
| `Grants.SharedOpenIff` | monitor/sm/enclave.c:42-85 | and everything or nothing at each address of its shared memory: nothing exactly where a leftover entry 6 decides and no private range above 2^56 is decoded to it |
| `Grants.ConfinedIff` | monitor/sm/enclave.c:42-85 | it is denied everything outside the boot regions, private and shared memory exactly if the two ranges modulo 2^56 cover nothing else, and always if both start below 2^56 |
| `Grants.HostExactly` | monitor/sm/enclave.c:107-164 | after every run that takes the OS region from no host hart and repairs no hart outside the live enclave, a host hart has RWX on everything outside the boot regions but what entries 5 and 6 deny: eight bytes if the private region is off, else what it covers and what a leftover entry matches |
| `Grants.HostDeniedIff` | monitor/sm/enclave.c:107-164 | with private memory that the PMP can express: exactly that memory and the leftover range, or its first eight bytes if the region is off |
| `Grants.FoldedReached` | monitor/sm/pmp.c:246-292 | from every boot, an enclave that is created and run may do everything on what its private region covers, its own memory or not |
| `Grants.SomeFolded` | monitor/sm/pmp.c:473-505 | a create with a private page above 2^56 that covers a page which is not the enclave's |
| `CreateDestroy.OneEnclaveAtATime` | monitor/sm/enclave.c:399-406 | no create succeeds while an enclave is live |
| `CreateDestroy.FailedCreateRestores` | monitor/sm/enclave.c:470-487 | a create that fails anywhere restores regions, slot bitmap, registers below the bottom and all states, and memory, but for a shared range that is zeroed byte by byte; if its regions were reserved, the other harts' execution flags are down |
| `CreateDestroy.CreateThenDestroy` | monitor/sm/enclave.c:494-556 | create then destroy, on any two harts in host context, restores the same; every byte of the shared range is zero after the create, every byte of both ranges after the destroy, and no other byte changes; each lowers the execution flags of the other harts; in enclave context the destroy is refused |
| `CreateDestroy.DestroyWipes` | monitor/sm/enclave.c:515-548 | whatever has happened since, a destroy zeroes every byte of the private range and no other, and resets state, threads, parameters and region kinds of the slot |
| `CreateDestroy.MemoryKept` | monitor/sm/enclave.c:559-674 | no other call and no trap changes a byte |
| `CreateDestroy.RegionsAccounted` | monitor/sm/enclave.c:366-556 | between calls the defined regions are the six boot regions and two per live enclave, none shared |
| `Admission.CreateSucceedsIff` | monitor/sm/enclave.c:366-487 | in every state between calls a host's create succeeds exactly when no enclave is live, nothing outside fails, and both ranges are whole pages, clear of the boot regions and of each other, the shared one a naturally aligned power of two |
| `Answers.ArgsValidIff` | monitor/sm/enclave.c:304-351 | the checks, whose sums wrap, accept exactly ranges that are not empty, end inside the address space and hold runtime, application and free memory in this order |
| `Answers.AnswersExactly` | monitor/sm/enclave.c:366-674 | in every state between calls the answer to every call, from the hart's context, the enclave's state and the arguments alone |
| `Answers.StatesExactly` | monitor/sm/enclave.c:366-674 | in every state between calls, what every call and trap makes of the enclave's state; slots 1..15 stay unused |
| `Answers.RefusedKeepsAll` | monitor/sm/sm-sbi.c:44-88 | a refused call changes nothing but the execution flag, which run and resume raise and stop and exit lower |
| `Answers.FailedCreateMemory` | monitor/sm/enclave.c:399-487 | a create that fails zeroes the shared range exactly if both regions could be reserved |
| `Answers.DestroyClears` | monitor/sm/enclave.c:515-548 | after a destroy the private region's registers are off on every other hart, whose OS region stays open |
| `Answers.FailedCreateClears` | monitor/sm/enclave.c:470-487 | so they are after a create that failed once its regions were reserved |
| `Answers.HartZeroKept` | monitor/sm/pmp.c:196-217 | the registers of hart 0 are left alone by whatever other harts do |
| `Admission.EveryStateReached` | monitor/sm/enclave.c:366-650 | from every boot and for all admissible arguments, create, run and interrupt on any hart 1..4 reach FRESH, RUNNING on that hart, and STOPPED |
| `Admission.RefusedRunExposes` | monitor/sbi/dorami_main.c:390-392 | from every boot, create, a refused run and a return from the firmware give a hart in host context RWX on the private memory |
| `Admission.RefusedRunStrands` | monitor/sbi/dorami_main.c:465-477 | from every boot, a refused run and an interrupt on one hart leave another inside a STOPPED enclave, unable to exit |
| `Admission.ReturnExposes` | monitor/monitor.S:654-660 | from every boot, after a create with any admissible private range that is no aligned power of two, a return from the firmware on any hart gives it, in host context, RWX on all private memory but the first eight bytes |
| `Admission.LastAddressReached` | monitor/sm/pmp.c:246-292 | from every boot, a create with any admissible inexpressible range leaves the last physical address, which is the enclave's, open to every hart |
| `Admission.SomeInexpressible` | monitor/sm/pmp.c:473-505 | there are such arguments |
| `Admission.SomeAdmissible` | monitor/sm/enclave.c:366-468 | arguments of which every create on an idle monitor succeeds, with a private range of two registers |
| `IpiMailbox.StepKeepsInv` | monitor/sm/ipi.c:10-88 | every load and store of every hart that does not misread keeps the mailbox invariant |
| `IpiMailbox.DeliveredOnReturn` | monitor/sm/ipi.c:53-88 | in runs without a misread, once a sender has left its wait loop each other hart has applied exactly the updates sent so far, each once and in order |
| `IpiMailbox.NeverStale` | monitor/sm/ipi.c:10-25 | in runs without a misread, at every moment a receiver has applied a prefix of what was sent, short of at most the latest |
| `IpiMailbox.ActsOnRequestIff` | monitor/sm/ipi.c:15 | a receiver about to act has a request in front of it exactly when the valid flag is still up |
| `IpiMailbox.AdjacentLoadsAreClean` | monitor/sm/ipi.c:83-87 | receivers whose two loads are adjacent never misread, because valid is cleared before ready |
| `IpiMailbox.MisreadOverapplies` | monitor/sm/ipi.c:15-22 | after any misread the receiver, going on alone, has applied one update more than were posted to it |
| `IpiProgress.SendRecords` | monitor/sm/ipi.c:36-39 | a send of type 0 means setting the region's permissions, any other unsetting it |
| `IpiProgress.SenderWaits` | monitor/sm/ipi.c:36-53 | whatever others do in between, a sender waits after exactly seven steps of its own, with the request in its mailbox and a flag raised for every other hart 1..4 |
| `IpiProgress.SenderReturns` | monitor/sm/ipi.c:53-88 | once all its flags are up a sender returns after twelve to fifteen steps of its own, and not before |
| `IpiProgress.ReceiverAcknowledges` | monitor/sm/ipi.c:10-25 | in runs without a misread, a hart that begins to check while a request of hart b waits for it has applied and acknowledged it within 6 (b + 1) steps of its own |
| `IpiProgress.DeadlockStays` | monitor/sm/ipi.c:53-78 | two senders that wait for each other do so in every continuation without a misread |
| `IpiProgress.DeadlockReached` | monitor/sm/ipi.c:53-78 | any two harts 1..4 get there by sending one after the other |
| `IpiStraddle.OverappliesReachable` | monitor/sm/ipi.c:10-88 | such a run exists |
| `TicketLock.AmoaddAddsTicket` | monitor/sbi/riscv_locks.c:56 | the 32-bit addition increments the next half only, with wraparound |
| `TicketLock.StepKeepsInv` | monitor/sbi/riscv_locks.c:22-77 | every access of every thread keeps the queue invariant |
| `TicketLock.MutualExclusion` | monitor/sbi/riscv_locks.c:22-77 | at most one holder in every interleaving of up to 2^16 threads |
| `TicketLock.GrantedInOrder` | monitor/sbi/riscv_locks.c:48-72 | the lock is granted in ticket order, across wraparound |
| `TicketLock.HeadIsGranted` | monitor/sbi/riscv_locks.c:48-72 | in every run, a thread whose turn it is holds the lock after exactly one, two or three steps of its own, whatever others do in between |
| `TicketLock.NobodyStarves` | monitor/sbi/riscv_locks.c:48-77 | in every run, a thread with k others before it has been granted the lock for its ticket, and released it, once every thread has taken five steps k + 1 times over |
| `TicketLock.TryLockIff` | monitor/sbi/riscv_locks.c:22-46 | in every run, an undisturbed trylock ends with the lock exactly if nobody is in line, and otherwise leaves everything as it was |
| `TicketLock.OutstandingTickets` | monitor/sbi/riscv_locks.c:48-77 | with fewer than 2^16 threads the outstanding tickets are owner .. next-1 modulo 2^16, one per thread in line |
| `TicketLock.ExclusiveIffFewThreads` | monitor/sbi/riscv_locks.c:48-72 | mutual exclusion in every run holds exactly for at most 2^16 threads |
| `Threads.MixRestores` | monitor/sm/thread.c:23-32 | the masked mstatus fields come back exactly; all of it exactly when no other bit was left set |
| `Threads.SplitStatus` | monitor/sm/thread.c:30 | the two halves saved make the whole value |
| `Threads.StatusFields` | monitor/sm/thread.c:25-27 | which bits of mstatus are exchanged |
| `Threads.ThreadState.CleanState` | monitor/sm/thread.c:94-125 | the loop zeroes x1..x31, and the CSRs are zeroed but scounteren, which takes the hart's value |
| `Threads.Hart.SwapPrevState` | monitor/sm/thread.c:35-53 | the loop exchanges all registers and CSRs and leaves the resume flag in slot 0 |
| `Threads.Hart.SwapPrevMstatus` | monitor/sm/thread.c:23-32 | the value saved and the value restored |
| `Threads.Hart.Run` | monitor/sm/sm-sbi.c:44-59 | the registers a first run starts with |
| `Threads.Hart.Resume` | monitor/sm/sm-sbi.c:61-71 | the registers of a resume, with slot 0 guarding a0 |
| `Threads.Hart.Stop` | monitor/sm/sm-sbi.c:82-88 | the registers the host gets after a stop |
| `Threads.Hart.Exit` | monitor/sm/sm-sbi.c:73-80 | the registers the host gets after an exit |
| `Threads.Hart.Interrupt` | monitor/sbi/dorami_main.c:462-478 | the pc is moved back before an interrupted enclave is saved |
| `ContextRuns.CallKeepsWorldIff` | monitor/sm/enclave.c:42-153 | a call or trap keeps thread states equal to what was last saved in them exactly if it is no interrupt that strands a hart |
| `ContextRuns.StrayInterruptMixes` | monitor/sm/enclave.c:107-153 | after that interrupt the stray hart goes on with the registers another hart entered with |
| `ContextRuns.StrayFrameResumed` | monitor/sm/enclave.c:107-153 | and the enclave, resumed by any host hart, goes on with the stray hart's registers, CSRs, masked mstatus and pc |
| `ContextRuns.RefusedLeave` | monitor/sm/sm-sbi.c:73-88 | a stop or exit that is refused gives the hart its own registers back behind the ecall, with NOT_RUNNING in a0 and, on exit, the exit value in a1 |
| `ContextRuns.RefusedEnter` | monitor/sm/sm-sbi.c:44-71 | a run or resume that is refused gives the hart its own registers back behind the ecall, with the error in a0, and changes no thread state |
| `ContextRuns.AfterReached` | monitor/sm/sm-sbi-opensbi.c:17-83 | the runs with registers reach the same monitor states as those without |
| `ContextRuns.ResumeRestores` | monitor/sm/sm-sbi.c:61-71 | after any run that strands no hart a resumed enclave regains its registers, CSRs and masked mstatus; interrupted at its pc with a0 intact, after an edge call behind it with a0 = 0 |
| `ContextRuns.LeaveRestores` | monitor/sm/sm-sbi.c:73-88 | after any run that strands no hart the host regains its own behind its ecall, with the monitor's answer in a0, for each kind of leaving a stated one, and an exit value in a1 |
| `ContextRuns.FirstRunStarts` | monitor/sm/enclave.c:53-74 | after any run that strands no hart a first run starts at dram_base with a1 to a7 holding base, size, runtime, application, free memory, shared base and shared size, and zeroes |
| `ContextRuns.CreateThenRun` | monitor/sm/enclave.c:366-580 | after any run that strands no hart, a create and a run on any two host harts start the enclave with exactly the create's arguments |
| `ContextRuns.HistoryOfHostCall` | monitor/sm/enclave.c:46-48 | the host context meant is the one of the entering call |
| `ContextRuns.HistoryOfLeaving` | monitor/sm/enclave.c:124-126 | the enclave context meant is the one of the leaving call |
| `FirmwareCalls.FirmwareGate.PickRegisters` | monitor/sbi/dorami_main.c:98-240 | each register handed on holds what the caller's held, and every other one zero |
| `FirmwareCalls.FirmwareGate.Trap` | monitor/sbi/dorami_main.c:248-338 | cause, frame and sscratch saved per hart; a host trap gets the firmware's own mscratch, an enclave's keeps its own; an unknown interrupt hangs |
| `FirmwareCalls.FirmwareGate.Return` | monitor/sbi/dorami_main.c:345-452 | the first return of a hart keeps the firmware's mscratch and starts the OS; later ones give S-mode its frame, for ecalls, interrupts and other causes |
| `FirmwareCalls.EcallRoundTrip` | monitor/sbi/dorami_main.c:417-443 | of an ecall that is not for the monitor the firmware gets the handed-on registers as the caller had them, its mepc and mstatus, and zeroes; whatever it leaves and whatever other harts do, the caller gets its frame back with a0, for non-legacy calls a1, and mepc + 4 |
| `FirmwareCalls.TrapRoundTrip` | monitor/sbi/dorami_main.c:277-355 | of other traps that the monitor does not answer the firmware gets the whole frame but for mscratch, and decides about every register but sscratch, which comes back as it was; an unknown interrupt hangs |
| `FirmwareCalls.FirmwareFindsItsScratch` | monitor/sbi/dorami_main.c:318-329 | a hart's first return starts the OS with the firmware's a0, a1 and a2; after any run, every host trap that reaches the firmware there brings the mscratch of that first return |
| `FirmwareCalls.OthersDoNotMatter` | monitor/sbi/dorami_main.c:92-95 | whatever other harts do, everything kept for a hart stays |
| `FirmwareCalls.NothingElseLeaks` | monitor/sbi/dorami_main.c:98-240 | in an ecall no general register outside a0..a4, a6 and a7 reaches the firmware |
| `FirmwareCalls.ArgumentsReachIff` | monitor/sbi/dorami_main.c:112-236 | exactly which calls reach the firmware with every register the RISC-V SBI Specification gives them |
| `FirmwareCalls.PassedByExtension` | monitor/sbi/dorami_main.c:112-236 | extension by extension, the registers handed on against those of the specification, both ways |
| `Measurement.HashEpm` | monitor/sm/attest.c:11-34 | the three loops absorb the sizes and the rounded-up sections, with 64-bit address arithmetic |
| `Measurement.TranscriptSizes` | monitor/sm/attest.c:18-20 | the first 24 bytes are the three sizes, little-endian, loader first |
| `Measurement.TranscriptSections` | monitor/sm/attest.c:22-32 | behind them every byte of loader, runtime and application at its place, each section rounded up to whole pages, and nothing else |
| `Measurement.AcceptedCreateNoWrap` | monitor/sm/enclave.c:304-351 | in every state between calls, a create that gets to the measurement has page loops that end without wrapping around |
| `Measurement.TranscriptInjective` | monitor/sm/attest.c:18-32 | equal transcripts imply equal section sizes and equal bytes of loader, runtime and application |
| `FdtStream.ScanItems` | uboot/boot/fdt_region.c:50-127 | over a node's content the tag-by-tag scan with path buffer and stack yields the recursive reading, which asks only whether paths are listed, and comes back to where it was; or it stops with the code of the first property without a name, or node too deep or too long, in document order |
| `FdtStream.ScanTree` | uboot/boot/fdt_region.c:50-147 | the same for a root node behind NOPs and before anything: nothing but an END tag may follow |
| `FdtStream.ScanDoc` | uboot/boot/fdt_region.c:50-147 | the same for a whole tree |
| `FdtStream.ScanRootless` | uboot/boot/fdt_region.c:83-127 | the answer to a stream in which another tag comes where the root node should begin |
| `FdtRegions.RunsApart` | uboot/boot/fdt_region.c:129-146 | the runs of kept tags are ascending, disjoint and not touching |
| `FdtRegions.RunsCover` | uboot/boot/fdt_region.c:129-146 | they cover exactly the bytes of included tags and of an END_NODE directly behind one |
| `FdtRegions.Navigate` | uboot/boot/fdt_region.c:63-127 | the switch over the tag, with the stack array, every error code and the stop position |
| `FdtRegions.Collect` | uboot/boot/fdt_region.c:129-146 | opening, merging and closing a region in the caller's array |
| `FdtRegions.FindRegions` | uboot/boot/fdt_region.c:32-162 | error codes; the count fits exactly when the runs do, and then the array holds exactly the runs, the string table added to the last |
| `FdtRegions.DocSelection` | uboot/boot/fdt_region.c:32-162 | on a well-named tree the scan stops with the first error, or the runs cover exactly the bytes of included tags and of an END_NODE directly behind one: properties and NOPs whose node is listed, but for excluded names, and the tags of nodes that are listed or whose parent is |
| `FdtRegions.DocRegions` | uboot/boot/fdt_region.c:32-162 | what the call answers for such a tree: the first error, a bad layout if the block has another size, or the number of regions, and then these are separate, ascending, and hold exactly the bytes asked for, with the string table behind |
| `CmdlineEdit.ScanArg` | uboot/boot/bootflow.c:687-713 | the scan finds the end of an argument and of its name, or an unclosed quote |
| `CmdlineEdit.CopyIn` | uboot/boot/bootflow.c:627-657 | the argument as written, quoted if needed, within the buffer |
| `CmdlineEdit.SetArg` | uboot/boot/bootflow.c:659-804 | the outcome on the line's arguments, every error code, and no write at or behind maxlen |
| `CmdlineLaws.WrittenText` | uboot/boot/bootflow.c:659-804 | a success writes the edited arguments with single spaces, one trailing space dropped, below maxlen |
| `CmdlineExact.OutcomeExactly` | uboot/boot/bootflow.c:659-804 | which answer a call gives, in the order of the checks: EBADF, E2BIG, EINVAL, ENOENT, E2BIG, or the text; both E2BIG told from sums of argument lengths |
| `CmdlineExact.SetEach` | uboot/boot/bootflow.c:735-768 | each argument that is named keeps its name and gets the new value, quoted if it has a space; each other one stays, all in their places |
| `CmdlineExact.DeleteEach` | uboot/boot/bootflow.c:735-768 | exactly the arguments that are not named are left, unchanged and in the same order |
| `CmdlineExact.OthersKeepValues` | uboot/boot/bootflow.c:659-843 | what is found under a name unrelated to the arguments an edit touches is found in the new line exactly if it was in the old one |
| `CmdlineExact.DeletedIsGone` | uboot/boot/bootflow.c:659-843 | a deleted argument is not found again |
| `CmdlineLaws.SetMeansEditedIff` | uboot/boot/bootflow.c:735-790 | reading the written line gives the old arguments with every match rewritten or deleted, all others unchanged in order, and an added one last, exactly when an added name has closed quotes and quoted spaces |
| `CmdlineLaws.SpacedNameSplits` | uboot/boot/bootflow.c:770-790 | setting `a b` to `x` in an empty line writes two arguments |
| `CmdlineLaws.GetArg` | uboot/boot/bootflow.c:836-843 | position and length of the first match, or the error code |
| `CmdlineLaws.FindIsFirst` | uboot/boot/bootflow.c:735-751 | the lookup answers with the first matching argument, at its place in the line |
| `CmdlineNames.SetThenGetIff` | uboot/boot/bootflow.c:659-843 | after every successful set the value set is the value found: for a name that matched or reads as one argument exactly when the value has no `=` or has a space; for any other exactly as the first word of the name that matches says, whatever the line was |
| `CmdlineNames.OpenNameIff` | uboot/boot/bootflow.c:687-713 | of a name with an open quote the value found is the one set exactly if it starts with a space and is what stands behind the name's own last unquoted `=` and the quote, with a `=` |
| `CmdlineNames.LeadingSpaceLost` | uboot/boot/bootflow.c:687-713 | an added name that is one argument behind spaces is never found again, whatever it is set to |
| `CmdlineNames.SpacedNameIff` | uboot/boot/bootflow.c:687-713 | of an added name with an unquoted space behind its first word that word is found, so a value comes back exactly if the word itself says it; for a plain word exactly if it is empty |
| `CmdlineNames.EqualsInValueLost` | uboot/boot/bootflow.c:687-713 | setting `a` to `b=c` in an empty line is not found again under `a` |
| `BitSearch.WordsLeft` | monitor/sbi/sbi_bitops.c:29 | the loop condition means that a whole word is left |
| `BitSearch.Ffs` | monitor/sbi/sbi_bitops.h:80-109 | the halving tests find the lowest set bit |
| `BitSearch.Fls` | monitor/sbi/sbi_bitops.h:160-189 | the halving tests find the highest set bit |
| `BitSearch.FindFirstBit` | monitor/sbi/sbi_bitops.c:22-43 | the first set bit below size, or size |
| `BitSearch.FindFirstZeroBit` | monitor/sbi/sbi_bitops.c:52-73 | the first clear bit below size, or size |
| `BitSearch.FindLastBit` | monitor/sbi/sbi_bitops.c:82-109 | the last set bit below size, or size |
| `BitSearch.FindNextBit` | monitor/sbi/sbi_bitops.c:117-154 | the first set bit from offset on, or size |
| `BitSearch.FindNextZeroBit` | monitor/sbi/sbi_bitops.c:162-200 | the first clear bit from offset on, or size |
| `BitSearch.ForEachSetBit` | monitor/sbi/sbi_bitops.h:191-194 | every set bit below size exactly once, in increasing order |
| `Moves.SbiMemmove` | monitor/sbi/sbi_string.c:141-165 | for every overlap, as if everything were read before anything is written, nothing else touched |
| `Moves.MovedRange` | monitor/sbi/sbi_string.c:141-165 | so the target holds what the source range held, and everything before and behind it stays |
| `Moves.MemmoveWd` | uboot/boot/image-board.c:171-199 | the same for every chunk size, with and without the watchdog |
| `AbSlots.ChooseSlot` | uboot/boot/android_ab.c:288-311 | the loop chooses the first of the best bootable slots, or none |
| `AbSlots.AbControl.SelectSlot` | uboot/boot/android_ab.c:282-361 | the slot limit, the choice, the tries counted, and the return value |
| `AbSlots.BootExactly` | uboot/boot/android_ab.c:282-361 | the slot returned is the first of those with the highest priority, success and tries among the uncorrupted ones with tries left; it loses one try if attempts are counted and it was never successful, and nothing else changes |
| `AbSlots.BootUncounted` | uboot/boot/android_ab.c:312-320 | without dec_tries the same slot is chosen and no slot changes |
| `AbSlots.TakeTurns` | uboot/boot/android_ab.c:180-182 | equal slots with t tries each take turns: of n slots, boot number q n + j goes to slot j |
| `AbSlots.BootsExactly` | uboot/boot/android_ab.c:313-322 | when every boot counts tries and no slot is successful, exactly as many boots find a slot as uncorrupted slots had tries, and then -EINVAL |
| `AbSlots.PriorityNeverRises` | uboot/boot/android_ab.c:288-311 | over repeated boots the priority of the slot picked never rises |
| `AbSlots.SuccessStays` | uboot/boot/android_ab.c:313-322 | a successful best slot is chosen by every boot from then on |

## Left out

- monitor.S trampolines: taken to keep the monitor's state and to hand over the trap frame they build, but for the pmpcfg0 write on entry from the firmware, which is modelled. The words in pmpcfg0 while the firmware itself runs are not: S and U mode never run under them.
- When a hart that was told of a region returns from the firmware: that is an event of its own, so a run may let the hart act before it.
- Weak memory and fences: lock and mailbox are sequentially consistent.
- Interleaved SBI calls: each call is one step, so nothing is said about two destroys at once.
- The interrupt that makes a hart look at its mailbox: that a hart begins to check is an event of the run, and nothing says that it comes.
- Permissions a hart gives itself for the duration of a call, to clear or hash a region: a call is one step, and only what it leaves is stated.
- sscratch across enclave switches: it goes through the monitor's per-hart slots, not the thread state; `FirmwareCalls` follows it for traps to the firmware.
- sip, mideleg, pending-interrupt forwarding and the aliasing of sstatus and mstatus.
- SHA3, Ed25519, HKDF, attestation reports and sealing keys; the hash is its absorbed bytes.
- Platform hooks and plugins: success or failure, without effects on regions.
- UART, HTIF, console output and MMIO.
- Return registers of create and destroy: only switching calls are followed into the trap frame.
- CRC, backup copy, magic and version checks of the A/B metadata, and the stored slot suffix.
- fdt_next_region, fdt_add_alias_regions and the rest of U-Boot.
- TorRegionInit: with overlap allowed, a size of 2^64 - 1 and a start other than 0, the source stops at an assertion, where the model installs the region; no call of the monitor asks for that.
- MemmoveWd: a chunk size of zero is excluded, because the source's loop does not end then.
- HashEpm: requires that the page loops do not wrap around, which `AcceptedCreateNoWrap` shows of every create that gets there; memory is taken to be readable up to the end of the last page.
- Hart 0: the source leaves it unused, so runs are those of harts 1..4.
