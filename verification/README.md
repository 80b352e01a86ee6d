# riscv-baremetal-demo: a verified model

The repository is a set of freestanding RISC-V programs: a cooperative scheduler, a UART driver, and
many probes of the privileged and floating-point architecture that decide PASS or FAIL by themselves.
This project models the parts where a verdict, a schedule or a printed number depends on many steps
working together, and proves what those parts promise over every input or every run.

| files | what they model |
|---|---|
| `TimeGate*.dfy` | the U/S/M phase protocol of `mcounteren-tm-u-gate`: its state machine, its verdict, its payloads, its handlers, ordinary harts |
| `Pmp.dfy`, `Sv39.dfy`, `StoreFault*.dfy` | page tables, protection entries and the two-phase runs of `medeleg-store-access-fault` and `medeleg-store-pagefault` |
| `Hart.dfy`, `TrapRouting.dfy`, `SeipRoute.dfy`, `SeipProgram.dfy` | trap delivery, delegation over runs, and the masked one-shot interrupt of `mideleg-seip-route` |
| `Schedule.dfy`, `RoundRobin.dfy`, `Sched.dfy`, `Scheduler.dfy`, `Tasks.dfy`, `Demo.dfy` | `sched.c`, `switch.S`, `tasks.c`, `main.c` |
| `Binary64.dfy`, `Fcsr.dfy`, `RoundingConstants.dfy`, `RoundingTrials.dfy` | correct rounding of binary64 results, the fcsr register, and the rounding-mode and accrued-flag programs |
| `Numerals.dfy`, `Uart.dfy` | number printing and CRLF expansion |
| `Fnv.dfy` | the FNV-1a checksum in both its forms |
| `Ecall.dfy`, `EcallFirmware.dfy` | the ecall ABI module |
| `Stats.dfy` | sorting, order statistics and histogram of `cycle-read-latency` |
| `LrSc.dfy` | reservations and the retry loop of the two LR/SC modules |
| `Words.dfy`, `Masks.dfy`, `Options.dfy`, `Runs.dfy` | 64-bit words, their bits and masks; optional values; iterated steps |

Code that updates globals is a class whose methods are proved equal to a step of a state machine; the
whole-run theorems are proved about those steps. Code that loops over arrays is a method with the loop.

Points where reading the source needed a decision:

- A CSR write goes through an arbitrary legalisation function of the old and the written value, so the
  verdict theorems hold on harts that misbehave as well as on harts that conform.
- U-mode is any sequence of traps with any cause, pc and registers. Cause 9 is excluded because the
  architecture raises it for S-mode ecalls only.
- `src/fflags-nx-only/fnxo_main.c:81` gives the significand of 10^16 as 5000000000000000000; it is
  5000000000000000. The bit pattern the program uses is right, and is the one modelled.
- `src/lrsc-store-invalidate/lsi_main.c:7-12` expects a store to the reserved address to end the
  hart's own reservation. Section 8.2 of the RISC-V Unprivileged specification obliges that for stores
  of other harts only, so it is a parameter of the model, and the program's pass condition is stated in it.
- A floating-point instruction is known by its exact result, a fraction of 2^-1074, which is what
  rounding depends on.

## Model

| member | source | states |
|---|---|---|
| `TimeGateSoundness.VerdictSound` | src/mcounteren-tm-u-gate/mtmu_main.c:276-666 | for every hart and every U-mode trap sequence PASS is written if and only if the readbacks conform and the first four traps are SIG_A, the gated rdtime with its sentinel, SIG_B, SIG_C; then the history is those four rows, there were three handoffs, and all CSRs hold boot values |
| `TimeGateSoundness.RowsFallInTheirPhases` | src/mcounteren-tm-u-gate/mtmu_main.c:399-548 | in a passing run each history row was recorded in its own phase |
| `TimeGateSoundness.SameChecksumOnEveryPass` | src/mcounteren-tm-u-gate/mtmu_main.c:194-200 | any two passing runs, on any harts, feed the same 38 words to the checksum |
| `TimeGateSoundness.SampleChecksFeed` | src/mcounteren-tm-u-gate/mtmu_main.c:342-391 | the six words phases A and C feed to the checksum, whether their checks hold or not |
| `TimeGateSoundness.GateChecksFeed` | src/mcounteren-tm-u-gate/mtmu_main.c:560-602 | the seven words phase B feeds, whether its checks hold or not |
| `TimeGateSoundness.GateInvariant` | src/mcounteren-tm-u-gate/mtmu_main.c:423-536 | in every reachable unfailed U-mode state TM is set in phases 0 and 2 and clear in phase 1, and scounteren.TM stays set |
| `TimeGateSoundness.DoomedRun` | src/mcounteren-tm-u-gate/mtmu_main.c:399-548 | once a check failed or the history is too long for the handoffs still owed, no continuation can pass |
| `TimeGateOrdinary.OrdinaryHartConforms` | src/mcounteren-tm-u-gate/mtmu_main.c:724-863 | a hart whose CSRs keep the written bits they implement conforms, provided they implement CY, TM, IR, the S-level TM and delegation of illegal instructions and U-mode ecalls |
| `TimeGateOrdinary.GoodTrapsPass` | src/mcounteren-tm-u-gate/mtmu_main.c:276-863 | on such a hart PASS is written iff the first four traps are the expected ones, with no other condition |
| `TimeGateOrdinary.HistoryExact` | src/mcounteren-tm-u-gate/mtmu_main.c:276-319 | after any run on any hart the history holds the first eight frames that reached the dispatcher, numbered from 1, and the trap counter counts them all |
| `TimeGatePayload.ProgramPassesIffTimerTicks` | src/mcounteren-tm-u-gate/mtmu_trap.S:1-179 | handlers and payloads composed on a conforming hart whose rdtime retires iff both gates are open pass exactly when the timer ticks within the spin bound in both sampling phases, for every bound |
| `TimeGatePayload.MonotoneTimerPassesIff` | src/mcounteren-tm-u-gate/mtmu_trap.S:1-179 | with a timer that never runs backward in the two sampling phases the program passes exactly if the timer is nonzero at both samples and moves within the spin bound after each |
| `TimeGatePayload.AdvancingTimerPasses` | src/mcounteren-tm-u-gate/mtmu_main.c:724-863 | a nonzero timer that advances over the four reads the program then makes passes |
| `TimeGatePayload.TimeoutParks` | src/mcounteren-tm-u-gate/mtmu_trap.S:1-179 | a sampling payload whose timer does not move within its bound parks the dispatcher with cause 8 and its own timeout signature |
| `TimeGateOrdinary.OrdinaryHartPasses` | src/mcounteren-tm-u-gate/mtmu_trap.S:1-179 | on such a hart the whole program passes iff the timer ticks in both sampling phases |
| `TimeGateHandlers.Experiment.constructor` | src/mcounteren-tm-u-gate/mtmu_main.c:724-863 | M-mode set-up with its five checks is the state machine's initial state |
| `TimeGateHandlers.Experiment.Handle` | src/mcounteren-tm-u-gate/mtmu_main.c:276-319 | the dispatcher appends to the bounded history and picks the continuation exactly as the state machine does |
| `TimeGateHandlers.Experiment.PhaseADone` | src/mcounteren-tm-u-gate/mtmu_main.c:342-391 | the six phase-A checks, in order, on row 0 |
| `TimeGateHandlers.Experiment.PhaseBDone` | src/mcounteren-tm-u-gate/mtmu_main.c:560-602 | the seven phase-B checks on rows 1 and 2 |
| `TimeGateHandlers.Experiment.PhaseCDone` | src/mcounteren-tm-u-gate/mtmu_main.c:614-666 | the six phase-C checks on row 3 |
| `TimeGateHandlers.Experiment.HandleM` | src/mcounteren-tm-u-gate/mtmu_main.c:399-548 | the M-mode handler advances the phase, toggles the gate, restores and decides exactly as the state machine does |
| `TimeGateHandlers.Experiment.ServeTrap` | src/mcounteren-tm-u-gate/mtmu_trap.S:1-179 | one trap through dispatcher, continuation and M-mode handler is one step of the state machine |
| `TimeGateHandlers.RunExperiment` | src/mcounteren-tm-u-gate/mtmu_main.c:276-863 | the handlers, run against any U-mode trap sequence on any hart, write PASS if and only if the hart conforms and the four traps are the expected ones, and then leave the record and CSRs the verdict claims |
| `StoreFault.BuildTables` | src/medeleg-store-access-fault/msaf_main.c:519-537 | the construction leaves every one of the 1536 entries as described, word by word: two pointers, 128 leaves with flags 0xcf, the store leaf with flags 0xc7 present or absent, zeros |
| `StoreFault.PlacedTables` | src/medeleg-store-access-fault/msaf_main.c:519-537 | the arrays so built, placed in memory, are the tables the walk theorems assume |
| `Sv39.WalkIsFlat` | src/medeleg-store-pagefault/mspf_main.c:420-437 | for any page-aligned placement and any other memory contents, the three-level walk gives the flat map's answer at every 64-bit address |
| `Sv39.MapsIff` | src/medeleg-store-access-fault/msaf_main.c:519-537 | an entry maps an access iff its bits 0, 1, 2, 3, 4, 6, 7 and above 53 and its alignment are as section 4.4 of the RISC-V Privileged specification requires, and where it maps it |
| `Sv39.DescendsIff` | src/medeleg-store-access-fault/msaf_main.c:530-531 | an entry points to the next table iff it is valid with R, W, X, U, A and D clear |
| `Pmp.DenyStorePageExact` | src/medeleg-store-access-fault/msaf_main.c:476-491 | the three TOR entries let S and U reach exactly the first 4 GiB less the store page, and M everything but the store page |
| `Pmp.OpenAllExact` | src/medeleg-store-pagefault/mspf_main.c:384-437 | the all-ones NAPOT entry opens every 56-bit physical address |
| `Pmp.LowestMatchDecides` | src/medeleg-store-access-fault/msaf_main.c:91-99 | the lowest-numbered entry an access touches decides it by bits of its byte of pmpcfg0: containment, then R, W or X, or M-mode without the lock |
| `Pmp.UnmatchedIsMachineOnly` | src/medeleg-store-access-fault/msaf_main.c:91-99 | an access that touches no entry is M-mode's alone |
| `Pmp.NapotCovers` | src/medeleg-store-pagefault/mspf_main.c:402-408 | a NAPOT entry covers the naturally aligned power of two its register encodes |
| `StoreFault.LayeredIsFlat` | src/medeleg-store-access-fault/msaf_main.c:91-99 | every naturally aligned S-mode access of every kind: in place in the window, access fault on the store page, page fault elsewhere |
| `StoreFault.MModeDeniedOnlyOnStorePage` | src/medeleg-store-access-fault/msaf_main.c:476-491 | M-mode is denied exactly the locked page |
| `StoreFault.InvalidLeafPageFaults` | src/medeleg-store-pagefault/mspf_main.c:420-437 | with leaf 128 invalid every access outside the window page-faults and every access inside succeeds in place |
| `StoreFaultRun.TwoPhaseVerdict` | src/medeleg-store-access-fault/msaf_main.c:194-278 | for the access-fault and the page-fault program alike, the two-phase run over the built address space passes if and only if set-up failed nothing and medeleg legalises the values the run needs; a passing run leaves one S trap and two M traps recorded with cause 7 or 15, the stores' addresses and 0x80080000 |
| `StoreFaultRun.OnlyBitExact` | src/medeleg-store-access-fault/msaf_main.c:584-584 | phase A delegates the program's own fault and nothing else |
| `StoreFaultRun.WithoutBitExact` | src/medeleg-store-access-fault/msaf_main.c:252-252 | phase B takes back that delegation and no other |
| `StoreFaultRun.OrdinaryMedelegPasses` | src/medeleg-store-pagefault/mspf_main.c:384-480 | on a medeleg that keeps the written bits it implements, the fault's among them, either program ends Passed with both routes recorded |
| `StoreFaultRun.SetUpIsGood` | src/medeleg-store-pagefault/mspf_main.c:173-230 | over the built address space the control store completes and the store to the store page raises the program's fault |
| `StoreFaultRun.LostRun` | src/medeleg-store-access-fault/msaf_main.c:353-409 | a run with a failed or unavoidable check never passes, however long it goes on |
| `StoreFaultHandlers.Program.SupervisorEntry` | src/medeleg-store-access-fault/msaf_trap.S:1-86 | the S-mode entry counts, records and resumes as the run's step does |
| `StoreFaultHandlers.Program.MachineEntry` | src/medeleg-store-access-fault/msaf_trap.S:1-86 | the M-mode entry counts, records and continues as the run's step does |
| `StoreFaultHandlers.Program.PhaseTwo` | src/medeleg-store-access-fault/msaf_main.c:246-261 | the snapshot, the armed continuation, the medeleg clear and the drop are the run's second phase |
| `StoreFaultHandlers.Program.ReportAll` | src/medeleg-store-access-fault/msaf_main.c:286-409 | restore, sixteen record checks and verdict are the run's report |
| `StoreFaultHandlers.Program.PayloadA` | src/medeleg-store-access-fault/msaf_main.c:220-244 | the control store where there is one, then the faulting store, through whichever entry it is delegated to |
| `StoreFaultHandlers.Program.PayloadB` | src/medeleg-store-access-fault/msaf_main.c:263-278 | the same for the second phase |
| `StoreFaultHandlers.RunProgram` | src/medeleg-store-pagefault/mspf_main.c:150-384 | either program, composed of its payloads, entries and report, passes if and only if set-up failed nothing and medeleg legalises as the run needs, with both routes recorded |
| `TrapRouting.CountsMatchDelegation` | src/medeleg-store-access-fault/msaf_main.c:353-409 | for any interleaving of medeleg writes, privilege entries and traps, the S count is the number of traps delegated at their moment, the M count the rest, and returns restore the privilege and resume the instruction |
| `TrapRouting.MModeNeverTrapsToS` | src/medeleg-store-access-fault/msaf_main.c:246-261 | code that stays in M-mode never traps to S-mode whatever it delegates |
| `HartModel.ReturnUndoesTrap` | src/medeleg-store-access-fault/msaf_trap.S:1-86 | sret after a trap to S and mret after one to M give the interrupted privilege, pc and interrupt enable back |
| `SeipRoute.OneTrapPerEnable` | src/mideleg-seip-route/seip_main.c:186-256 | with SEIP pending for ever, each instruction that sets SIE costs exactly one S trap, recorded at the next instruction with SEIP showing, and nothing else costs any, for code of any length |
| `SeipRoute.OneShotDelivery` | src/mideleg-seip-route/seip_main.c:186-256 | no trap in the control stretch, exactly one after SIE is set with sepc at the next instruction and SEIP in the recorded sip, none in the quiet tail, no M trap |
| `SeipProgram.Supervisor.SupervisorEntry` | src/mideleg-seip-route/seip_trap.S:46-74 | the entry counts modulo 2^64, records cause, pc and the delegated pending bits, clears SIE and SPIE, raises the flag and gives t0, t1, t2 and sscratch back unchanged |
| `SeipProgram.Supervisor.WaitAndMask` | src/mideleg-seip-route/seip_main.c:151-156 | the wait ends at once if the flag is up and spends the whole budget if not; nothing more is delivered |
| `SeipProgram.Supervisor.SmodeMain` | src/mideleg-seip-route/seip_main.c:186-256 | every check of smode_main holds, of counts, cause, sepc, sip and polling budget, wherever its code lies and for windows of any length |
| `SeipRoute.WithoutSpieEveryBoundaryTraps` | src/mideleg-seip-route/seip_main.c:29-41 | had the handler cleared SIE alone, every later instruction would trap again |
| `Schedule.TurnsAreRounds` | src/sched.c:43-58 | the turns up to index i of round r are those of the earlier rounds followed by the round's own |
| `Schedule.RoundExact` | src/sched.c:43-58 | a round is the tasks with at least r yields, each once, in table order |
| `Schedule.FullScheduleIsRounds` | src/sched.c:43-58 | the whole schedule is the concatenation of rounds 0, 1, ... up to the last one that has a turn |
| `Schedule.TurnsPerTask` | src/sched.c:43-58 | a task that yields k times gets exactly k + 1 turns |
| `Schedule.AtMostOneTurnBetween` | src/sched.c:43-58 | between two consecutive turns of a task every other task has at most one |
| `RoundRobin.PassesAreRounds` | src/sched.c:43-58 | after any number of while iterations the state is the one the schedule leads to, `remaining` counts the unfinished tasks, and the guard holds exactly until the last round is over |
| `RoundRobin.GuardNeedsAllReady` | src/sched.c:43-58 | for any system whose turns finish only their own task, `remaining` is the unfinished tasks plus those finished on entry |
| `Sched.InitialSpInOwnStack` | src/sched.c:15-29 | for any table base the initial stack pointers are 16-aligned and lie within 16 bytes of the top of their own stack member and in no other |
| `Sched.StackIsItsField` | src/sched.h:16-40 | each stack is the stack member of its element as the C layout rule places it, and no two members of the table share a byte, for any base |
| `Sched.Isolation` | src/sched.c:32-41 | under any interleaving each task is in the state it reaches by running alone: its fourteen registers and its stack come back |
| `Sched.InterleavedOutput` | src/sched.c:32-58 | the output of any interleaving is the tasks' own outputs in dispatch order, and the scheduler's registers survive |
| `Sched.DoneAfter` | src/sched.c:32-37 | under any interleaving a task is DONE exactly at its (k + 1)-st turn |
| `Sched.EndsIffAllReady` | src/sched.c:43-58 | of tasks that are DONE or yield finitely often, the loops of sched_run end if and only if none is DONE on entry |
| `Sched.SecondRunNeverEnds` | src/sched.c:43-58 | over the machine a first run leaves, `remaining` stays positive for ever |
| `Scheduler.Scheduler.TaskCreate` | src/sched.c:15-29 | a table of three is left alone; otherwise the task is appended ready with ra at the trampoline and sp at base + 4232 n + 4208 rounded down to 16 |
| `Scheduler.Scheduler.SwitchIn` | src/switch.S:1-44 | switch, stretch and switch back is one dispatch of the model |
| `Scheduler.Scheduler.SchedRun` | src/sched.c:43-58 | for all finite yields the loops end in the state of the closed-form schedule with every task DONE |
| `Tasks.EntryAt` | src/tasks.c:12-52 | a task resumed after each yield runs the iterations of its loop |
| `Tasks.FibonacciLocals` | src/tasks.c:23-37 | a and b hold consecutive Fibonacci numbers modulo 2^64 at every iteration |
| `Tasks.HeartbeatAt` | src/tasks.c:12-19 | round r prints tick r + 1 |
| `Tasks.FibonacciAt` | src/tasks.c:23-37 | round r prints the Fibonacci number of index r + 1 |
| `Tasks.SpinnerAt` | src/tasks.c:41-52 | round r prints frame r modulo 4 |
| `Tasks.ScheduledOutput` | src/tasks.c:12-58 | for any table of counting tasks the scheduled interleaving prints their lines in turn, round after round |
| `Demo.RunDemo` | src/main.c:7-25 | the program prints its banner, every round's three lines and its closing line, and ends with all tasks DONE, for any iteration count, table base and memory |
| `Binary64.ValueIncreases` | src/frm-rdn-vs-rup-div/rnd_main.c:249-274 | the next pattern has a strictly greater value, across the subnormal and every binade boundary |
| `Binary64.ValueMonotone` | src/frm-rdn-vs-rup-div/rnd_main.c:249-274 | patterns compare as their values do |
| `Binary64.DirectedBrackets` | src/frm-rdn-vs-rup-div/rnd_main.c:249-274 | RDN is the greatest pattern not above the exact result, RUP the least not below; equal iff some pattern is the result, neighbours otherwise |
| `Binary64.Nearest` | src/frm-rounding-static/frs_main.c:385-421 | RNE and RMM deliver the RDN or the RUP pattern and beat every other pattern, ties going to even or up |
| `Binary64.RoundOfExact` | src/fflags-nx-only/fnxo_main.c:90-93 | every mode leaves a representable result alone |
| `Binary64.RoundMonotone` | src/fcsr-frm-rounddn/frd_main.c:338-357 | every mode is monotone in the exact result |
| `Fcsr.ModeOverRuns` | src/frm-rounding-static/frs_main.c:171-206 | after any events a static rm delivers its own mode's result; after a write of v and any events that spare frm, DYN delivers what the static mode in bits 7:5 of v would, or is illegal where that is reserved |
| `Fcsr.StaticEncodings` | src/frm-rounding-static/frs_main.c:171-206 | for every result and register, rm 0 delivers the nearest pattern with ties to even, 1 and 2 the greatest not above, 3 the least not below, 4 the nearest with ties to the larger; 5 and 6 are illegal |
| `Fcsr.DynamicEncodings` | src/fcsr-frm-rounddn/frd_main.c:338-357 | DYN does the same by the number last written to bits 7:5, over any run |
| `Fcsr.ResultBrackets` | src/frm-rounding-static/frs_main.c:405-421 | an executed instruction delivers the RDN or the RUP pattern, the result itself if representable, and leaves NX set exactly if it was set or the delivered value is not the result |
| `Fcsr.OrdinaryMeans` | src/fflags-nx-only/fnxo_main.c:75-93 | the results in scope are those finite when rounded up and exact or with a nonzero exponent field |
| `Fcsr.AccruedBits` | src/fflags-nx-only/fnxo_main.c:191-252 | after any event sequence a bit of fcsr is set iff it was set and kept; NX is set by every executed inexact instruction, no other bit by any instruction |
| `Fcsr.FrmOnlyByWrites` | src/fcsr-field-independence/ffi_main.c:219-266 | frm survives every instruction and every write that spares bits 7:5 |
| `Fcsr.WriteReads` | src/fcsr-field-independence/ffi_main.c:219-266 | a written value reads back modulo 256 with its fields in place |
| `Fcsr.ReadStores` | src/frm-rounding-static/frs_main.c:423-432 | writing back what was read restores the register |
| `RoundingTrials.DivideOneByThree` | src/frm-rdn-vs-rup-div/rnd_main.c:50-53 | 1/3 lies strictly between 0x3FD5555555555555 and its successor and is nearer to the former |
| `RoundingTrials.AddHalfUlp` | src/frm-rounding-static/frs_main.c:100-106 | 1 + 2^-53 is a tie that goes to 1 |
| `RoundingTrials.AddThreeQuarterUlp` | src/frm-rounding-static/frs_main.c:100-106 | 1 + 1.5 * 2^-53 rounds down to 1 and to nearest to its successor |
| `RoundingTrials.SubEighthUlp` | src/fcsr-frm-rounddn/frd_main.c:84-88 | the difference lies between patterns ending in 2 and 3 and is nearer to the latter |
| `RoundingTrials.AddOneToE16` | src/fflags-nx-only/fnxo_main.c:72-88 | 10^16 + 1 is a tie that goes to 10^16 |
| `RoundingTrials.AddOneAndTwo` | src/fflags-nx-only/fnxo_main.c:90-93 | 1 + 2 is exactly 3 |
| `RoundingTrials.Bench.Trial` | src/frm-rounding-static/frs_main.c:244-317 | no check of a trial fails iff the written value fits fcsr, the rounded result is the expected one, NX is the one flag and frm is in place |
| `RoundingTrials.Bench.Phase` | src/fflags-nx-only/fnxo_main.c:191-252 | no check of a phase fails iff the RNE result is the expected one and the flags tell inexactness |
| `RoundingTrials.Bench.DirectedDivision` | src/frm-rdn-vs-rup-div/rnd_main.c:193-274 | the program's checks hold on every result between neighbours whose lower one ends in binary 01 |
| `RoundingTrials.AddPastOne` | src/frm-rounding-static/frs_main.c:374-432 | the four trials and three relations all hold, the eight logged words are as listed and fcsr is restored, from any boot value |
| `RoundingTrials.SubtractBelow` | src/fcsr-frm-rounddn/frd_main.c:334-370 | both trials and the neighbour relation hold, the four logged words are as listed and fcsr is restored |
| `RoundingTrials.AddInexactThenExact` | src/fflags-nx-only/fnxo_main.c:312-335 | both phases hold, the results logged are 10^16 with NX and 3 without, and fcsr is restored |
| `RoundingTrials.DivideBothWays` | src/frm-rdn-vs-rup-div/rnd_main.c:193-274 | every check of the program holds for 1/3, and the six logged words are the two neighbours, the anchor and their fcsr values |
| `RoundingTrials.DivideBetweenWrites` | src/fcsr-field-independence/ffi_main.c:219-266 | every check of the program holds with its divide of 1 by 3 |
| `RoundingTrials.Bench.FieldIndependence` | src/fcsr-field-independence/ffi_main.c:219-266 | the five readbacks are 0x00, 0x01, 0x61, 0x60, 0x00 and no check fails |
| `Numerals.NumeralParses` | src/uart.c:39-53 | the printed numeral is canonical and parses back to the value |
| `Numerals.NumeralUnique` | src/uart.c:39-53 | it is the only canonical string that does |
| `Numerals.PositionalLength` | src/uart.c:39-53 | n digits suffice for exactly the values below base^n |
| `Numerals.WordLengths` | src/uart.c:55-62 | a 64-bit value takes at most 20 decimal and 16 hexadecimal digits |
| `Numerals.PrintedReadsBack` | src/uart.c:55-62 | read by ASCII codes in base ten and sixteen, what is printed is the value |
| `Uart.CollapseExpand` | src/uart.c:26-32 | CRLF expansion can be undone, for every string |
| `Uart.ExpandCollapse` | src/uart.c:26-32 | its outputs are exactly the streams whose line feeds follow carriage returns |
| `Uart.Transmitter.Putc` | src/uart.c:26-32 | a character is sent expanded |
| `Uart.Transmitter.Puts` | src/uart.c:34-37 | the characters before the first NUL are sent expanded |
| `Uart.FillDigits` | src/uart.c:39-51 | the buffer holds the numeral backwards and is never overrun |
| `Uart.Transmitter.PutUint` | src/uart.c:39-53 | the numeral is sent, most significant digit first |
| `Uart.Transmitter.PutHex` | src/uart.c:55-58 | 0x and the hexadecimal numeral |
| `Uart.Transmitter.PutDec` | src/uart.c:60-62 | the decimal numeral |
| `Fnv.StepIsPermutation` | src/fcsr-field-independence/ffi_main.c:135-143 | each byte's step is a permutation of the 64-bit states |
| `Fnv.OneByteDiffers` | src/fcsr-field-independence/ffi_main.c:135-143 | streams that differ in exactly one byte hash differently for any basis |
| `Fnv.BasesStayApart` | src/fcsr-field-independence/ffi_main.c:135-143 | different states stay different over any common bytes |
| `Fnv.BytesAreLittleEndian` | src/mhartid-readonly/mhr_main.c:70-77 | the eight bytes fed for a word are its little-endian bytes |
| `Fnv.HashBytes` | src/fcsr-field-independence/ffi_main.c:135-143 | the byte loop computes the hash of the first len bytes |
| `Fnv.Feed` | src/mhartid-readonly/mhr_main.c:70-77 | the word loop hashes the word's eight bytes |
| `Fnv.FeedWords` | src/lrsc-store-invalidate/lsi_main.c:94-106 | feeding words is hashing their memory image |
| `Ecall.AppendOnly` | src/ecall/ecall_main.c:86-129 | over any run from any state, written rows never change and the unexpected flag is never taken back |
| `Ecall.XorAllExact` | src/ecall/ecall_main.c:110-117 | the answer of service 1 is the one word that has exactly the bits an odd number of the arguments have |
| `Ecall.RunExact` | src/ecall/ecall_main.c:86-129 | the log holds the first four traps in order; unexpected tells exactly whether one of them asked for no known service; a fifth trap parks the hart |
| `Ecall.PassIff` | src/ecall/ecall_main.c:222-302 | PASS exactly for four traps whose first three carried the sets' registers in and gave the payload what the handler left, and whose last is a known service |
| `EcallFirmware.Firmware.Dispatch` | src/ecall/ecall_main.c:86-129 | the dispatcher with its copy loops is the model's step, and logs the exclusive or of a0..a5 for service 1 |
| `EcallFirmware.Firmware.Entry` | src/ecall/ecall_trap.S:1-96 | for every register file, saving, dispatching and restoring gives back x0 to x31 unchanged but for a0, which service 1 sets to the exclusive or of a0..a5 bit by bit, and resumes at mepc + 4 or, for service 0xE11, at the exit |
| `EcallFirmware.CheckReadBack` | src/ecall/ecall_main.c:179-201 | the payload's checks accept exactly the read-back with a0 the exclusive or of the arguments and every other register as loaded |
| `EcallFirmware.Report` | src/ecall/ecall_main.c:222-302 | the report's loop decides PASS as specified |
| `EcallFirmware.RunProgram` | src/ecall/ecall_main.c:206-217 | on a hart that raises cause 9 for ecalls the whole program passes, with the three calls and the exit call logged, for all arguments and compiler-held registers |
| `Stats.ExtractDeltas` | src/cycle-read-latency/crl_main.c:210-215 | each delta added to its read gives the next read of the same burst, modulo 2^64 |
| `Stats.SortSorts` | src/cycle-read-latency/crl_main.c:167-180 | the sort's result is a sorted permutation |
| `Stats.InsertInPlace` | src/cycle-read-latency/crl_main.c:172-178 | the shifting loop inserts the key in place and touches nothing beyond |
| `Stats.SortCopy` | src/cycle-read-latency/crl_main.c:167-180 | the in-place sort of the copy computes the sort of the deltas |
| `Stats.SortedPositionIsRank` | src/cycle-read-latency/crl_main.c:217-220 | a value is at position k of the sorted copy iff at most k deltas are smaller and more than k are not greater |
| `Stats.Histogram` | src/cycle-read-latency/crl_main.c:222-230 | each bin counts the deltas its index formula sends there |
| `Stats.BinRanges` | src/cycle-read-latency/crl_main.c:222-230 | a delta is in the bin whose printed range contains it and the clamp does not fire, exactly if max + 16 does not wrap |
| `Stats.BinsHoldAll` | src/cycle-read-latency/crl_main.c:222-230 | the bins sum to the number of deltas |
| `Stats.HistogramMeans` | src/cycle-read-latency/crl_main.c:222-230 | bins that count the deltas of a given maximum sum to their number and, unless max + 16 wraps, each delta is in its bin's printed range |
| `Stats.NoneBad` | src/cycle-read-latency/crl_main.c:232-234 | the bad count is 0 iff no delta is 0 or above 2^40 |
| `Stats.Summarize` | src/cycle-read-latency/crl_main.c:210-234 | the printed minimum, median and maximum have ranks 0, n/2 and n - 1 and the maximum bounds every delta; the bins sum to the deltas and, unless max + 16 wraps, print a range that contains each; the bad count is 0 iff every delta is positive and at most 2^40 |
| `LrSc.ReservedIff` | src/lrsc-store-invalidate/lsi_main.c:64-89 | after any accesses of this hart and stores of others, an address is reserved iff some load-reserved of it was not broken since |
| `LrSc.ScIff` | src/lrsc-store-invalidate/lsi_main.c:64-89 | a store-conditional succeeds exactly with a live reservation and no failure of its own; a failed one changes no memory |
| `LrSc.Hart.LrSwSc` | src/lrsc-store-invalidate/lsi_main.c:64-77 | after an intervening store the store-conditional fails, and the store's value stays, iff own stores end reservations or it fails on its own |
| `LrSc.Hart.LrSc` | src/lrsc-store-invalidate/lsi_main.c:80-89 | the control pair succeeds unless it fails on its own |
| `LrSc.Hart.StoreInvalidate` | src/lrsc-store-invalidate/lsi_main.c:124-163 | none of the five checks fails iff own stores end reservations (or the first pair fails anyway) and the control pair does not fail on its own |
| `LrSc.Hart.Retry` | src/lrsc-histogram/lrsc_main.c:53-65 | for any finite number of failures the loop stores the value, changes nothing else and returns failures + 1 modulo 2^64 |
| `LrSc.WrappedCounter` | src/lrsc-histogram/lrsc_main.c:53-65 | the reported attempts are those made iff they are below 2^64, and are 0 iff they are a multiple of 2^64; with 2^64 - 1 failures in the only iteration bins and overflow are all empty |
| `LrSc.BinsAndOverflow` | src/lrsc-histogram/lrsc_main.c:88-120 | bins and overflow count every iteration once, wherever the bins stop, but for those whose counter reads 0 |
| `LrSc.Experiment` | src/lrsc-histogram/lrsc_main.c:88-120 | the bins are the counts of reported attempts, the maximum is right, no value error arises, and the sum check holds iff no counter wrapped to 0; each that did is added to the word before the bins |

## Left out

- MMIO polling, UART drain loops, the test finisher and `wfi` parking: output is an appended string, the verdict a state.
- Host-timing facts (cycle rates, jitter bands, mtime calibration): properties of the QEMU host.
- `mcounteren-cy-u-read` as a soundness claim: it has no phase tracker and its phase-B check never looks at row 0.
- The set-up checks of the two store-fault programs before the first drop: their number of failures is a parameter of the run.
- The history row an S-mode dispatcher would append if a hart delegated cause 9: the model parks at once, as the dispatcher does after appending.
- The mideleg legalisation triple of `mideleg-seip-route`: one readback each.
- A `task_create` during `sched_run`: the source does not support it, since `remaining` is not updated.
- The spinner's busy loop in `src/tasks.c:48-49`: it changes nothing another task can see.
- Which callee-saved registers the compiler gives the tasks' locals: the model fixes s0, s1 and s2.
- NaN, infinities, negative results, overflow, underflow and division by zero in the floating-point model.
- `Stats.Histogram`: a zero width divides as the RISC-V instruction does; in C it is undefined.
- `LrSc.Experiment`: a counter that reads 0 indexes the word before the bins, as the compiled code does; in C it is undefined. What that word is used for is not modelled.
- `cycmon`, the WARL probes, the single-instruction demos and the misa letter probes: easy members.
- Modules named only in the repository's README, whose source is not present.
