# or1kiss, modelled and verified

or1kiss simulates OpenRISC 1000 processors. Most of what is hard about it comes in pairs: a fast
form that the simulator runs, and a simple form that it must agree with. This project models both
forms of each pair and proves how they are related, for every input and every run. Where the code
departs from the simple form, the exact condition of the departure is proved, and a concrete run or
state that shows it.

| files | what they model |
|---|---|
| `Tick.dfy` | the tick timer, charged in batches, against a counter clocked one cycle at a time |
| `Cpu.dfy`, `Quantum.dfy` | exceptions, delayed jumps, special registers and sleep; the main loop over batches of instructions |
| `Registers.dfy` | the same registers bit by bit: exceptions, interrupt lines, returns, special registers and sleep |
| `Or1k.dfy` | the simulator object: the same as methods with loops and assignments, each proved equal to those functions |
| `Budget.dfy` | what every run of the main loop keeps: its account of instructions and sleep, and the breakpoints |
| `TimerLag.dfy`, `Batching.dfy`, `DozeRun.dfy` | that batching is invisible, and the runs in which it is not |
| `Unaligned.dfy` | when the main loop and an exception return, whatever the alignment of breakpoints and base addresses |
| `Interrupts.dfy` | delayed branches and interrupts, against a machine with two program counters |
| `Mmu.dfy`, `TlbStructure.dfy`, `TlbAges.dfy`, `MmuProofs.dfy` | the TLB, its structure and ages over all runs, and the TLB against a page walk for every access |
| `PageEntries.dfy` | page table entries bit by bit: what they permit, where the walk finds them, what a refill stores |
| `Fetch.dfy`, `FetchProofs.dfy` | page latch and decode cache, against translating, reading and decoding every time |
| `Port.dfy`, `BigEndianMemory.dfy` | the converting memory port, against a big-endian byte memory |
| `Exclusive.dfy` | `l.lwa` and `l.swa` of several cores over one memory, in every interleaving |
| `Arith.dfy` | carries, overflows, chains of additions, and the MAC unit, against integers |
| `CoreList.dfy`, `ListSort.dfy`, `ListBench.dfy` | the in-place merge sort of a linked list, and the list benchmark that restores its list |
| `Scanner.dfy`, `ScannerInput.dfy`, `ScannerCounts.dfy` | the number scanner, against regular expressions, its input, and what it finds there |
| `Crc.dfy` | the shift-register checksum, against division of polynomials |
| `ScannerBench.dfy` | the scanner benchmark: scans, corruption and its undoing, and the checksum of all counters |

An instruction of the main loop is abstract: a list of primitive actions (commit registers, take
memory cycles, jump, write a special register, raise an exception, return), chosen by an arbitrary
function of everything the instruction can observe. Latencies, the interrupt lines of a quantum and
what the environment answers to a request to sleep are parameters.

The sources promise more than the code keeps in these places; the model follows the code:

- the tick timer misses a tick that a batch reaches through the wrap of the 28-bit count, if there is
  an interrupt to raise (`BatchedTicksExact`, `WrapIsVisible`); a nap within a batch is measured by the
  lagging timer (`NapIsVisible`), and sleep of the environment is charged late (`SleepIsVisible`);
- `l.addc` loses the carry that meets 0xffffffff (`AdditionExact`, `ChainExact`, `CarryLost`), and a
  second range exception of one instruction overwrites the state saved by the first: its status always,
  its address unless both are the same (`SecondFaultExact`, `FirstSaveLost`);
- page attributes are returned on a TLB hit but not on a refill (`AttributesExact`,
  `AttributesDiffer`); after a write of the control word or of the tables the TLB is transparent
  exactly if its entries still agree with the walk (`TransparentExact`, `ThroughoutExact`,
  `StaleWithoutFlush`);
- the entry that a refill replaces need not be the least recently used, as ages count modulo four
  (`AgeOverflows`, `VictimExact`, `RecentReplaced`);
- the page latch of the instruction fetch is never invalidated: a page latched by the supervisor is
  executed by the user without the permission to, and one latched before a flush after it
  (`LatchExact`, `LocationsExact`, `PrivilegeUnchecked`, `LatchOutlivesFlush`); and it matches the last
  page before it was ever set (`FirstFetchExact`);
- the page walk of an exclusive access reads the tables exclusively, so an exclusive store that walks
  them fails, unless it is to the second table entry itself (`WalkLosesReservation`);
- a branch in a delay slot loses the first target (`DelayedJumpsExact`, `BranchInDelaySlot`), a system
  call there resumes at the wrong address (`SyscallResumesExact`, `SyscallInDelaySlot`), and the
  delay-slot flag of interrupts tells of the last instruction (`InterruptDelaySlotFlag`, `FlagNotSet`);
- the handler of the exception that a return to an unaligned address raises runs with the status before
  the return, not that of an entry (`ReturnedExact`);
- the main loop does not return from the word of an unaligned breakpoint unless an interrupt is taken
  there, and an exception from an unaligned base never returns (`RepeatsExact`, `ReturnsExact`,
  `RaiseExact`);
- one of the patterns listed as scientific numbers, `-87e+832`, is not one, and leaves an invalid token
  and an integer (`PatternKinds`, `InitialScan`).

## Model

| member | source | states |
|---|---|---|
| Ticking.Tick.Update | src/or1kiss/tick.cpp:30-71 | the new registers in all three modes: when the count crosses the limit, what it becomes, and when the pending bit is set |
| Ticking.Tick.SetTtmr | include/or1kiss/tick.h:49-52 | a mode write sets the register and nothing else: evaluating it with no elapsed cycle changes nothing |
| Ticking.Tick.SetTtcr | include/or1kiss/tick.h:54-58 | a count write restarts a one-shot timer |
| Ticking.UnitExact | src/or1kiss/tick.cpp:30-71 | one cycle by the bits of the registers: where the count meets the limit it restarts, stops or goes on by mode, and the pending bit is set if enabled |
| Ticking.NextTickRange | include/or1kiss/tick.h:66-71 | the distance to the tick lies in 1..2^28 |
| Ticking.NextTickCountsDown | include/or1kiss/tick.h:66-71 | counting d cycles brings the tick d cycles closer, also through the 28-bit wrap |
| Ticking.TicksAreAfter | src/or1kiss/tick.cpp:30-71 | d unit updates have a closed form in every mode, for any d |
| Ticking.BatchedTicksExact | src/or1kiss/tick.cpp:30-71 | one update of d cycles equals d unit updates if and only if a condition on mode, count, limit and d holds; in particular for every d below the next tick |
| Ticking.UpdateSplit | src/or1kiss/tick.cpp:30-71 | before the tick is due, charging a batch in two parts is charging it at once, and raises nothing; a wrap of the count is harmless if there is no interrupt to raise |
| Quantum.ExecutedTime | src/or1kiss/or1k.cpp:49-83 | every instruction but the stopping nop takes at least one cycle of the quantum, never overdraws it, and is recorded |
| Quantum.InterruptTaken | src/or1kiss/or1k.cpp:341-414 | taking an interrupt masks both kinds; a masked one leaves all registers alone |
| Registers.RaisedExact | src/or1kiss/or1k.cpp:341-414 | every bit and register after an exception that is not masked: privileged, interrupts and translation off, the delay-slot flag, the doze bit clear, what is saved, and the address of its vector; a masked one changes nothing |
| Registers.PolledExact | src/or1kiss/or1k.cpp:28-31 | polling takes the external interrupt if and only if it is enabled and some line is both raised and enabled; else the machine is unchanged |
| Registers.MaskedLinesWait | src/or1kiss/or1k.cpp:98-99 | while every raised line is masked, polling changes nothing |
| Registers.SettledExact | src/or1kiss/or1k.cpp:92-99 | between batches a pending tick is taken before a waiting line, which is then masked; a line without a tick; else the registers are unchanged |
| Registers.EnteredExact | src/or1kiss/or1k.cpp:23-37 | a quantum starts with a waiting interrupt, which wakes the core, or else with sleep |
| Registers.DozedExact | src/or1kiss/or1k.cpp:111-131 | asleep, clock and quantum are extended by what the environment slept, or the quantum is skipped up to the tick; awake, nothing happens |
| Registers.SprWrittenExact | src/or1kiss/spr.cpp:291-432 | every special register after a write, bit by bit for the interrupt lines; unprivileged writes only end the batch |
| Registers.ReturnedExact | src/or1kiss/execute.cpp:883-891 | target and status after `l.rfe` for every privilege, and from an unaligned saved address |
| Registers.ScheduledExact | include/or1kiss/or1k.h:876-882 | a jump is pending after its delay, or its unaligned target enters the handler of the alignment exception |
| Registers.FlaggedExact | src/or1kiss/execute.cpp:347-381 | setting and clearing a flag changes its bit and no other |
| Registers.RetiredExact | src/or1kiss/or1k.cpp:65-78 | after every instruction the fixed bit is set, and the program counter is the next word or the target of a jump that is due |
| Registers.ExecutedExact | src/or1kiss/or1k.cpp:49-83 | every instruction is counted and takes a cycle, except for the nops that stop or reset the count |
| Quantum.RoundProgress | src/or1kiss/or1k.cpp:39-106 | the measure by which the main loop terminates: a round spends quantum, or stands at a breakpoint and has just masked all interrupts |
| Quantum.EmptyBatch | src/or1kiss/or1k.cpp:44-49 | a batch is empty exactly if the next instruction is at a breakpoint |
| Quantum.NearestExact | src/or1kiss/or1k.cpp:470-478 | straight-line execution meets no breakpoint before the nearest, and there it does |
| Budget.ExactBudget | src/or1kiss/or1k.cpp:23-131 | for every board and machine, a call reports at least the instructions it counted and at most these and the cycles slept, whatever memory costs: exactly the instructions if nothing was slept, exactly both if the environment never sleeps for the core, and the quantum if it ran to its end |
| Budget.ResultsExact | src/or1kiss/or1k.cpp:84-108 | what each result of a call means: the quantum is spent, a stop was requested, the core is at a breakpoint, or a watchpoint was hit and the core is at none |
| Budget.EndStaysNear | src/or1kiss/or1k.cpp:75-78 | the end of a batch never lies beyond the nearest breakpoint, after any instruction or jump |
| Budget.BreakpointsNeverSteppedOver | src/or1kiss/or1k.cpp:39-106 | no call of `advance` executes an instruction at a breakpoint, whatever jumps, exceptions, interrupts and sleep occur |
| TimerLag.ExecutedAlike | src/or1kiss/or1k.cpp:49-90 | one instruction that does not use the timer keeps a lagging and a charged machine alike: the same but for timers that agree once charged, now or later |
| TimerLag.DozedAlike | src/or1kiss/or1k.cpp:111-131 | so does falling asleep, if the timer is not to wake the core |
| Batching.BatchSimulates | src/or1kiss/or1k.cpp:44-99 | a batch charged to the timer at its end goes through the states of the reference, which settles after every instruction |
| Batching.BatchingInvisible | src/or1kiss/or1k.cpp:23-109 | a quantum in batches and the reference end in the same machine with the same result, if on the run of the reference no instruction uses the timer and no count with an interrupt to raise wraps |
| Batching.RunsIndistinguishable | src/or1kiss/or1k.cpp:720-725 | so for any sequence of quanta, with interrupt lines and requests changing in between |
| Batching.ArmedNeverWraps | src/or1kiss/tick.cpp:42-63 | checked before the quantum, in every mode: a timer not set past its limit, or with no interrupt to raise, satisfies the hypothesis on the wrap for good |
| Batching.WrapIsVisible | src/or1kiss/tick.cpp:60-63 | a run in continue mode where batching does lose a tick interrupt |
| Batching.SleepIsVisible | src/or1kiss/or1k.cpp:119-124 | a run on whose entry the environment sleeps, which the first batch does not see |
| DozeRun.NapIsVisible | src/or1kiss/or1k.cpp:115-130 | a run that falls asleep within a batch, with the tick interrupt enabled, and executes fewer instructions than the reference |
| Unaligned.AlignedReturns | src/or1kiss/or1k.cpp:39-106 | with aligned breakpoints, the rounds of the loop as it is written lead to the outcome of the theorems |
| Unaligned.EmptyExact | src/or1kiss/or1k.cpp:470-478 | a batch is empty if and only if some breakpoint, aligned or not, lies in the word at the next instruction |
| Unaligned.RepeatsExact | src/or1kiss/or1k.cpp:39-103 | at a word that holds a breakpoint and is none, with the timer charged, a round comes back to the same state if and only if no interrupt is to be taken |
| Unaligned.ReturnsExact | src/or1kiss/or1k.cpp:39-106 | for any breakpoints and from any machine, the loop returns if and only if it never comes to such a state |
| Unaligned.RaiseExact | src/or1kiss/or1k.cpp:341-414 | with any bound on nested calls, an exception raised by an instruction returns if and only if the base address is aligned; then at once, with the registers of the theorems |
| Simulator.Or1k.RaiseException | src/or1kiss/or1k.cpp:341-414 | the registers after an exception: saved program counter, status and address, masking, wake-up, redirection; it terminates together with `schedule_jump` |
| Simulator.Or1k.ScheduleJump | include/or1kiss/or1k.h:876-882 | a jump is pending after the given delay, and an unaligned target raises an alignment exception |
| Simulator.Or1k.UpdateTimer | src/or1kiss/or1k.cpp:439-446 | the elapsed cycles are charged once, and a pending interrupt is raised |
| Simulator.Or1k.Doze | src/or1kiss/or1k.cpp:111-131 | the environment sleeps and wakes the core, or the quantum is skipped up to the tick |
| Simulator.Or1k.SetSpr | src/or1kiss/spr.cpp:291-425 | every write ends the batch; an unprivileged one does nothing else |
| Simulator.Or1k.LeaveException | src/or1kiss/execute.cpp:883-891 | `l.rfe`: jump to the saved address, then restore the saved status, both only as far as the privilege reaches |
| Simulator.Or1k.ExecuteInstruction | src/or1kiss/or1k.cpp:50-78 | one instruction: count, act, restore fixed bits, advance or jump |
| Simulator.Or1k.NextBreakpoint | src/or1kiss/or1k.cpp:470-478 | the cycle of the nearest breakpoint in straight-line execution |
| Simulator.Or1k.BreakpointHit | src/or1kiss/or1k.cpp:480-487 | whether the next instruction is at a breakpoint |
| Simulator.Or1k.RunBatch | src/or1kiss/or1k.cpp:48-90 | the inner loop, whose end a jump may bring forward, runs one batch |
| Simulator.Or1k.Advance | src/or1kiss/or1k.cpp:23-109 | the whole call, in place, is the function the theorems are about; it terminates |
| Simulator.Or1k.Step | src/or1kiss/or1k.cpp:711-718 | the same, with the reported count, and the history avoiding all breakpoints |
| Interrupts.SteppedIsExecuted | src/or1kiss/or1k.cpp:50-78 | the step used for precise interrupts is what the main loop executes |
| Interrupts.SettledIsEntry | src/or1kiss/or1k.cpp:92-99 | between batches the main loop enters at most one interrupt, by the entry used for precise interrupts |
| Interrupts.FaultEntryIsExecuted | src/or1kiss/or1k.cpp:235-319 | the fault entry used for precise interrupts is what the main loop executes for a faulting instruction |
| Interrupts.ReturnStepIsExecuted | src/or1kiss/execute.cpp:883-891 | and so is the return |
| Interrupts.DelayedJumpsExact | src/or1kiss/or1k.cpp:71-78 | one program counter and an instruction count follow the two-register machine if and only if no branch with another target sits in a delay slot |
| Interrupts.EntrySaves | src/or1kiss/or1k.cpp:377-390 | an interrupt saves the status and the next instruction, or the branch whose delay slot is to come |
| Interrupts.FaultSaves | src/or1kiss/or1k.cpp:353-390 | so does a fault of the next instruction |
| Interrupts.ReturnRestores | src/or1kiss/execute.cpp:883-891 | `l.rfe` from a privileged handler restores status and address, with no jump pending |
| Interrupts.InterruptsArePrecise | src/or1kiss/or1k.cpp:341-414 | any run with any interrupts and restartable faults commits what the uninterrupted reference commits, up to what is the handlers' own, repeating at most one branch for each interruption |
| Interrupts.EqualityIsLikeness | src/or1kiss/execute.cpp:142-166 | if handlers restore everything, this asks of the program only that no branch sits in a delay slot and that each branch is the same on the registers it left |
| Interrupts.ReplayExact | src/or1kiss/execute.cpp:155-166 | repeating a branch is harmless if and only if it leads to the same place with the registers it left |
| Interrupts.SyscallResumesExact | src/or1kiss/or1k.cpp:370-375 | a system call resumes at its successor if and only if it is outside delay slots or the jump leads there anyway |
| Interrupts.InterruptDelaySlotFlag | src/or1kiss/or1k.cpp:392-393 | the delay-slot flag saved by an interrupt tells that the program resumes at a branch if and only if a condition on the pending jump and the old flag holds |
| Interrupts.SecondFaultExact | src/or1kiss/execute.cpp:396-423 | what the two range exceptions of one instruction save: the second status has the overflow flag and so is never the first, and the address is the same if and only if a condition on the delay slot and the program counters holds |
| Interrupts.BranchInDelaySlot | src/or1kiss/or1k.cpp:71-78 | a state in which the two-register machine and the core part |
| Interrupts.SyscallInDelaySlot | src/or1kiss/or1k.cpp:370-375 | a state in which a system call resumes elsewhere |
| Interrupts.FlagNotSet | src/or1kiss/or1k.cpp:392-393 | a state between a branch and its delay slot in which the flag stays clear |
| Interrupts.FirstSaveLost | src/or1kiss/execute.cpp:396-423 | an addition that carries and overflows, from a state in which status and address are both lost |
| Translation.Mmu.SetCr | src/or1kiss/mmu.cpp:73-78 | a control write stores all but the flush bit, which empties the TLB where the hardware can |
| Translation.Mmu.FlushTlbEntry | src/or1kiss/mmu.cpp:117-126 | all ways of the page's set that hold the page become invalid, and nothing else changes |
| Translation.Mmu.SelectWay | src/or1kiss/mmu.cpp:32-52 | the first invalid way, else the last of the oldest |
| Translation.Mmu.Translate | src/or1kiss/mmu.cpp:128-250 | the result and the new TLB array: ageing, lookup, access check, marking, walk and refill; and the cycles of the walk, charged if and only if it refilled the TLB |
| PageEntries.PermitsExact | src/or1kiss/mmu.cpp:22-31 | which bit of an entry permits which access, for instructions and data, reads and writes, user and supervisor; the executable mark permits execution only |
| PageEntries.WalkExact | src/or1kiss/mmu.cpp:178-217 | where the walk reads: entry addr / 2^24 of the directory, then entry addr / 2^13 % 2^11 of the table, neither of them zero |
| PageEntries.PureExact | src/or1kiss/mmu.cpp:178-250 | the translation by the walk: what the entry permits goes to its frame plus addr % 2^13; the debugger is always permitted |
| PageEntries.TranslationExact | src/or1kiss/mmu.cpp:128-250 | and so from the TLB, while its entries agree with the walk |
| PageEntries.RefillExact | src/or1kiss/mmu.cpp:218-246 | the two words that a refill stores: the valid page, and the entry with its rights and marks |
| PageEntries.FlushesExact | src/or1kiss/mmu.cpp:73-78 | a control write flushes if and only if the hardware can and its lowest bit is set |
| PageEntries.SamePageExact | include/or1kiss/mmu.h:35-35 | two addresses are on one page if and only if their quotients by 2^13 are equal |
| PageEntries.OldestIsLast | src/or1kiss/mmu.cpp:41-52 | the way replaced in a full set is the last of the oldest |
| TlbStructure.AgeingKeepsTag | src/or1kiss/mmu.cpp:132-140 | ageing touches neither tag nor valid bit |
| TlbStructure.AgeOverflows | src/or1kiss/mmu.cpp:136-137 | the age of 3 becomes 0, and its carry stays in bit 8 |
| TlbStructure.TranslatedStructured | src/or1kiss/mmu.cpp:128-250 | a translation with any tables, control word and request keeps each valid entry in the set of its page, and pages in at most one way |
| TlbStructure.FillDistinct | src/or1kiss/mmu.cpp:242-246 | a refill keeps at most one way of a set for each page |
| TlbStructure.RunsStructured | src/or1kiss/mmu.cpp:73-250 | so does every run of translations, flushes, control writes and changes of the tables, with no discipline |
| TlbStructure.OtherSetsUntouched | src/or1kiss/mmu.cpp:128-250 | translation leaves all other sets as they are |
| TlbStructure.RunsSpareSets | src/or1kiss/mmu.cpp:73-250 | over every run, a set is changed only by translations and flushes of its own pages and by flushes of all |
| TlbStructure.RefillPrefersInvalid | src/or1kiss/mmu.cpp:32-52 | the chosen way is invalid, or the set is full and none is older |
| TlbStructure.TranslationEvicts | src/or1kiss/mmu.cpp:128-250 | a translation evicts an entry only for its own page, from a full set, and one that is not younger than any other |
| TlbAges.RunCounts | src/or1kiss/mmu.cpp:132-140 | after every run, the age of a valid entry is the number of accesses to its set since its last use, modulo four |
| TlbAges.VictimExact | src/or1kiss/mmu.cpp:41-52 | after every run from power-up, an evicted entry was the least recently used if and only if no other entry of its set has gone through more rounds of four accesses unused |
| TlbAges.RecentReplaced | src/or1kiss/mmu.cpp:41-52 | a set in which the entry just used is the one replaced |
| TlbTransparency.TranslationTransparent | src/or1kiss/mmu.cpp:128-250 | from a sound TLB, a translation gives the result of the page walk and leaves a sound TLB; debugging leaves it unchanged |
| TlbTransparency.HitExact | src/or1kiss/mmu.cpp:143-174 | a hit has the outcome of the walk if and only if the page is mapped with the same rights for the access and, if permitted, the same frame |
| TlbTransparency.TransparentExact | src/or1kiss/mmu.cpp:73-250 | under any tables and control word, a structured TLB gives every access of a kind the outcome of the walk if and only if each valid entry agrees with the walk of its page |
| TlbTransparency.RunTransparentExact | src/or1kiss/mmu.cpp:73-250 | so after any run from power-up, however careless |
| TlbTransparency.ThroughoutExact | src/or1kiss/mmu.cpp:73-78 | a run is transparent throughout if and only if the entries agree after each write of the control word and of the tables |
| TlbTransparency.TlbTransparent | src/or1kiss/mmu.cpp:73-250 | from power-up, no run whose writes flush, keep the directory or leave agreeing entries can tell the TLB from the walk |
| TlbTransparency.StaleWithoutFlush | src/or1kiss/mmu.cpp:73-78 | a run that can, after a control write that moves the page directory and does not flush |
| TlbTransparency.AttributesExact | src/or1kiss/mmu.cpp:166-172 | the returned page attributes are those of a walk if and only if the lookup missed or they equal those the request came with |
| TlbTransparency.AttributesDiffer | src/or1kiss/mmu.cpp:166-172 | two loads of one page that return different attributes |
| Fetching.Fetcher.FetchInsn | src/or1kiss/or1k.cpp:235-319 | the fetched instruction or fault, and the new latch, TLB and decode cache |
| Fetching.Fetcher.InvalidateBlock | include/or1kiss/insn.h:98-101 | every word of the block is invalidated, in place |
| Fetching.FaultsExact | src/or1kiss/or1k.cpp:248-303 | which exception, at which address, tells of which failure of the fetch |
| Fetching.SlotsExact | include/or1kiss/insn.h:87-89 | two addresses share a slot of the decode cache if and only if their word numbers agree modulo its size |
| FetchTransparency.LatchExact | src/or1kiss/or1k.cpp:245-247 | an instruction on the latched page is located as the walk does if and only if the page, under the present tables, control word and privilege, still translates to the latched frame |
| FetchTransparency.LocateTransparent | src/or1kiss/or1k.cpp:242-266 | latch and TLB together give the address or fault of the walk if and only if the latch is right or not used |
| FetchTransparency.LatchRefreshed | src/or1kiss/or1k.cpp:258-263 | a page newly translated is latched rightly, and a fault leaves the latch alone |
| FetchTransparency.LatchStays | src/or1kiss/or1k.cpp:242-266 | a right latch can become wrong only by writes of the control word or the tables, and by changes of privilege |
| FetchTransparency.LocationsExact | src/or1kiss/or1k.cpp:242-266 | a run with changes of tables, control word and privilege, whose writes leave the TLB in agreement, locates every instruction as the reference does if and only if the latch is right whenever it is used |
| FetchTransparency.PrivilegeUnchecked | src/or1kiss/or1k.cpp:245-247 | a run in which the user executes a page of the supervisor without the permission to |
| FetchTransparency.LatchOutlivesFlush | src/or1kiss/or1k.cpp:245-247 | a run in which a page is executed that the new directory does not hold, though the TLB was flushed |
| FetchTransparency.FirstFetchExact | src/or1kiss/or1k.cpp:502-503 | from power-up the first translated fetch is right if and only if it is not on the last page |
| FetchTransparency.LoadExact | src/or1kiss/or1k.cpp:268-318 | a load through the decode cache is right if and only if it does not hit an instruction that memory no longer holds |
| FetchTransparency.BlockExact | include/or1kiss/insn.h:98-101 | the words of a block are those at every fourth address from its start |
| FetchTransparency.BlockKeeps | src/or1kiss/spr.cpp:396-398 | invalidating a line makes the words stored in it fetchable again, also where slots collide |
| FetchTransparency.FetchTransparent | src/or1kiss/or1k.cpp:235-319 | one fetch through all three caches gives what the reference gives and keeps them sound |
| FetchTransparency.FetchCachesTransparent | src/or1kiss/or1k.cpp:235-319 | from power-up, every run of fetches, stores, invalidations, flushes, and changes of tables, control word and privilege fetches what the reference fetches, if it fetches no stale word, leaves the TLB in agreement, and uses the latch only while it is right |
| Port.MemCpySwp | include/or1kiss/endian.h:59-84 | the bytes of the destination for every size |
| Port.SwappedExact | include/or1kiss/endian.h:59-84 | where every byte of the destination comes from, for every size |
| Port.SwappedBack | include/or1kiss/endian.h:59-84 | swapping there and back restores the source, for every size |
| Port.Env.ExclusiveAccess | src/or1kiss/env.cpp:38-52 | a load reserves the word; a store succeeds if address and word are those reserved, and then replaces it |
| Port.Env.ConvertAndTransact | src/or1kiss/env.cpp:54-96 | memory, data, reservation and response after any request, inside the memory or handed on to the system, with the request's buffer and byte order back in place, for data and instruction requests; and its cycles, those of the data memory being charged again for what is served from memory |
| Port.AnsweredInside | include/or1kiss/env.h:258-271 | within the memory the system is not asked |
| Port.AnsweredOutside | src/or1kiss/env.cpp:81-93 | outside, the system sees the converted data and its reply is converted back; memory and reservation stay |
| BigEndianMemory.MaskedIsExtended | src/or1kiss/execute.cpp:196-254 | the masks and shifts of the load instructions zero- or sign-extend what was read, whatever the register held |
| BigEndianMemory.BytesExact | src/or1kiss/env.cpp:54-96 | the bytes of a number, the highest at the lowest address in memory and the other way round in the host |
| BigEndianMemory.AccessIsPlain | src/or1kiss/env.cpp:54-96 | one load or store of any width through the port is one of a big-endian byte memory, and a store leaves its register alone |
| BigEndianMemory.PortIsBigEndianMemory | src/or1kiss/env.cpp:54-96 | so for every sequence of loads and stores |
| BigEndianMemory.StoreThenLoad | src/or1kiss/execute.cpp:182-310 | what is stored is loaded again, as far as it fits the width |
| Exclusive.LwaMeans | src/or1kiss/execute.cpp:168-180 | an exclusive load reads the word's number and reserves it |
| Exclusive.SwaMeans | src/or1kiss/execute.cpp:256-268 | an exclusive store replaces the reserved word, or changes nothing |
| Exclusive.SucceedsExactly | src/or1kiss/env.cpp:38-52 | in every interleaving, an exclusive store succeeds if and only if its core's last exclusive load was of this word and the word is as it was then |
| Exclusive.Chain | src/or1kiss/env.cpp:38-52 | absent plain stores to a word, each successful exclusive store replaces the value its core last loaded, and nothing else changes the word |
| Exclusive.NoLostUpdates | src/or1kiss/env.cpp:38-52 | cores that add to what they loaded leave the start plus all successful additions, modulo 2^32 |
| Exclusive.FailureMeansProgress | src/or1kiss/env.cpp:45-48 | a retry fails only if some exclusive store to the word succeeded since the load |
| Exclusive.WalkLosesReservation | src/or1kiss/mmu.cpp:192-210 | after the page walk of its request, an exclusive load reserves as without, and an exclusive store succeeds if and only if it is to the second table entry |
| Exclusive.OldValueReturns | include/or1kiss/utils.h:38-40 | the store compares values only: it succeeds after the word was changed and changed back |
| Arith.Alu.Add | src/or1kiss/execute.cpp:347-381 | result, both flags, and a range exception for the overflow only |
| Arith.Alu.Addc | src/or1kiss/execute.cpp:383-424 | result, both flags, and up to two range exceptions |
| Arith.Alu.Sub | src/or1kiss/execute.cpp:426-464 | result, borrow, overflow and range exceptions |
| Arith.Alu.Accumulate | src/or1kiss/execute.cpp:773-853 | the accumulator, the flag of the operation, and its range exception |
| Arith.AdditionExact | src/or1kiss/execute.cpp:383-424 | result and carry make up the sum if and only if not 0xffffffff is added with a carry in; the overflow flag is exact |
| Arith.SubtractionExact | src/or1kiss/execute.cpp:426-464 | result and borrow make up the difference; the overflow flag is exact |
| Arith.AccumulateExact | src/or1kiss/execute.cpp:773-853 | hi:lo after each of the four operations, modulo 2^64: the signed or unsigned product is added or subtracted |
| Arith.SubtractionUndoes | src/or1kiss/execute.cpp:773-853 | l.msb undoes l.mac, and l.msbu l.macu, of the same operands |
| Arith.ChainFallsShort | src/or1kiss/execute.cpp:347-424 | a chain over any number of words falls short of the sum by exactly the lost carries, each with its weight |
| Arith.ChainExact | src/or1kiss/execute.cpp:347-424 | so it is exact if and only if no carry of the lower words, by their numbers, meets 0xffffffff |
| Arith.LossIsCarryMeets | src/or1kiss/execute.cpp:396-399 | the code's own carries and the true ones agree up to the first loss |
| Arith.CarryLost | src/or1kiss/execute.cpp:396-399 | a chain of two words that is not |
| Arith.MacSumsProducts | src/or1kiss/execute.cpp:773-853 | any run of the MAC unit leaves the sum of the signed and unsigned products, modulo 2^64 |
| Arith.MacExact | src/or1kiss/execute.cpp:773-853 | read as a signed number, it is the true sum if and only if that fits 64 bits |
| CoreList.ValueExact | sw/coremark/core_list_join.c:63-95 | the value of an item by arithmetic on its data: cached, of a benchmark's result, or of the data itself |
| CoreList.EvaluatedExact | sw/coremark/core_list_join.c:101-118 | the data that a comparison of either kind leaves, by arithmetic |
| CoreList.CachedExact | sw/coremark/core_list_join.c:91-93 | the cached word: the upper byte, the flag and the value |
| CoreList.RegeneratedExact | sw/coremark/core_list_join.c:112-118 | the regenerated word repeats its upper byte |
| ListOrder.RanksAscend | sw/coremark/core_list_join.c:426-496 | after a sort the indices, or the values of the data, are numbers that do not decrease along the list |
| ListOrder.SortCorrect | sw/coremark/core_list_join.c:426-496 | the bottom-up merge sort yields a sorted permutation, and is stable |
| ListOrder.EveryItemCompared | sw/coremark/core_list_join.c:454-478 | sorting two or more items passes every one of them to the comparison |
| ListSort.CalcFunc | sw/coremark/core_list_join.c:63-95 | the value of an item, cached or computed, and the cached word it leaves |
| ListSort.NotAbove | sw/coremark/core_list_join.c:101-118 | both comparisons: their result on the items as they were, and the data they leave, also for an item compared with itself |
| ListSort.MergeRuns | sw/coremark/core_list_join.c:453-481 | two adjacent runs are merged by relinking their nodes behind those already merged |
| ListSort.SortPass | sw/coremark/core_list_join.c:433-484 | one pass merges all runs pairwise, and counts one merge exactly if it covered the list |
| ListSort.MergeSort | sw/coremark/core_list_join.c:426-496 | on every non-empty list it terminates and relinks exactly its nodes into the sorted, NULL-terminated list, along which the indices or values do not decrease, each item evaluated if it was compared |
| ListBench.Find | sw/coremark/core_list_join.c:370-380 | the first node with the index, or with the lower data byte; none only if there is none |
| ListBench.FoundExact | sw/coremark/core_list_join.c:370-380 | a node is found by its index if one is wanted, else by its data modulo 256 |
| ListBench.IncrementedExact | sw/coremark/core_list_join.c:164-165 | the index searched for goes on to the next signed 16-bit number |
| ListBench.Reverse | sw/coremark/core_list_join.c:395-404 | the list, reversed in place |
| ListBench.MoveToFront | sw/coremark/core_list_join.c:157-162 | the successor of the found node is relinked behind the head |
| ListBench.RemoveAndUndo | sw/coremark/core_list_join.c:174-186 | removing a node, searching, and undoing the removal restores all links and items |
| ListBench.SortedUnique | sw/coremark/core_list_join.c:188-188 | distinct indices admit one order only |
| ListBench.BenchList | sw/coremark/core_list_join.c:125-199 | from a list of at least three nodes in its initial state, for any searches, orders and computed values, the benchmark returns the same nodes in the same order with the same items and data |
| Scanner.Symbols | sw/coremark/core_state.c:168-172 | the digits, signs, point, exponent marks and comma, as characters |
| Scanner.RaisesExact | sw/coremark/core_state.c:196-271 | a symbol raises the counter of the state it makes the machine leave, and that of invalid symbols at the start or in a scientific number |
| Scanner.Transition | sw/coremark/core_state.c:184-277 | the final state, the end of the token, and every transition counter, in bounds of a terminated text |
| Scanner.RecognisesFormats | sw/coremark/core_state.c:196-273 | the machine ends in the state of a format if and only if the token matches its regular expression |
| Scanner.ScannedReads | sw/coremark/core_state.c:188-276 | what is consumed: the token with its comma, or up to the byte that makes it invalid |
| Scanner.TokenScanned | sw/coremark/core_state.c:59-60 | each scan tells the format of its token and consumes at least one byte, so the loop over them ends |
| Scanner.ScanAll | sw/coremark/core_state.c:58-65 | how many tokens of the text end in each state, and how often each transition counter was raised |
| Scanner.TokensConserved | sw/coremark/core_state.c:193-208 | every token is empty or raises the counter of the start state once |
| Scanner.Corrupt | sw/coremark/core_state.c:69-74 | every step-th byte that is no comma is changed |
| Scanner.XorExact | sw/coremark/core_state.c:71-72 | the corruption inverts exactly the binary digits that the seed has |
| Scanner.CorruptionUndone | sw/coremark/core_state.c:87-92 | the second corruption undoes the first if and only if the seeds agree and no byte was turned into a comma |
| ScannerBench.BenchState | sw/coremark/core_state.c:43-99 | the counters of both scans, the memory after both corruptions, and the checksum over the counters |
| ScannerBench.CorruptionTerminated | sw/coremark/core_state.c:69-74 | the buffer of the benchmark is still terminated after its corruption if and only if a condition on its size, the step and the seed holds |
| ScannerInput.IntsSpelled | sw/coremark/core_state.c:102-102 | the integers, as text |
| ScannerInput.FloatsSpelled | sw/coremark/core_state.c:103-103 | the numbers with a point, as text |
| ScannerInput.ScisSpelled | sw/coremark/core_state.c:104-104 | the scientific numbers, as text |
| ScannerInput.ErrsSpelled | sw/coremark/core_state.c:105-105 | the erroneous patterns, as text |
| ScannerInput.KindsExact | sw/coremark/core_state.c:133-153 | which seeds select which kind of pattern |
| ScannerInput.BumpedExact | sw/coremark/core_state.c:132-132 | the seed of the n-th pattern is the start plus n, modulo 2^16 |
| ScannerInput.PatternKinds | sw/coremark/core_state.c:101-105 | which patterns have the format they are listed under |
| ScannerInput.InitState | sw/coremark/core_state.c:116-166 | the buffer, in bounds: as many comma-terminated patterns as fit, then at least one zero |
| ScannerCounts.FirstZero | sw/coremark/core_state.c:158-162 | the buffer is terminated, and nothing before the end of its patterns is zero |
| ScannerCounts.BrokenAfter | sw/coremark/core_state.c:184-277 | a piece of text that the machine reads through a given list of states and then rejects is a token broken at its last byte |
| ScannerCounts.InitialScan | sw/coremark/core_state.c:58-65 | scanning that buffer finds exactly the tokens of its patterns, counted for each state: a valid pattern leaves one of its kind, a broken one its pieces |
| Crc.Bytes32Exact | sw/coremark/core_util.c:171-175 | a word is fed by its halves, the lower first |
| Crc.Bytes16Exact | sw/coremark/core_util.c:166-170 | and each half by its bytes, the lower first |
| Crc.GeneratorExact | sw/coremark/core_util.c:142-165 | the terms of the generator are x^16, x^15, x^2 and 1 |
| Crc.CheckValue | sw/coremark/core_util.c:142-165 | the checksum of the text 123456789 from zero is 0xbb3d |
| Polynomials.DivisionUnique | sw/coremark/core_util.c:142-165 | quotient and remainder of the long division are the only ones that make up the dividend |
| Crc.Crcu8 | sw/coremark/core_util.c:142-165 | the eight-step loop feeds the bits of the byte, the lowest first |
| Crc.Crcu16 | sw/coremark/core_util.c:166-170 | both bytes, the lower first |
| Crc.Crcu32 | sw/coremark/core_util.c:171-175 | all four bytes, the lowest first |
| Crc.RegisterDivides | sw/coremark/core_util.c:142-165 | feeding any bits to the register is dividing by x^16 + x^15 + x^2 + 1 |
| Crc.ChecksumIsRemainder | sw/coremark/core_util.c:142-178 | the checksum of any data from any start is the one remainder of the data by that polynomial |
| Crc.FedLinear | sw/coremark/core_util.c:142-165 | the checksum is linear in data and start together |
| Crc.Crcu16Injective | sw/coremark/core_util.c:166-170 | from a fixed start, different 16-bit values have different checksums |

## Left out

- Cycle and instruction counters are unbounded: their wrap after 2^64 is not modelled.
- `Simulator.Or1k` keeps the processor registers in one field, and its state also records the executed addresses, which nothing reads.
- Simulator.Or1k.NextBreakpoint and Simulator.Or1k.RaiseException: breakpoints, exception base addresses and written program counters are aligned by their types, so that the object terminates; for any breakpoints and bases ReturnsExact and RaiseExact tell when the code does. An interrupt taken from an unaligned base goes on at an unaligned address, which is not modelled.
- Batching.BatchingInvisible: of the run of the reference only, assumes that no instruction reads or writes the timer, that none falls asleep for the timer to wake the core (see NapIsVisible), and that a timer set past its limit with an interrupt to raise does not wrap (see ArmedNeverWraps); and that the environment does not sleep at the start of the quantum (see SleepIsVisible). The interrupt lines are constant within a quantum.
- Interrupts.InterruptsArePrecise: assumes of the states on the uninterrupted run that branches may be repeated, that no branch sits in a delay slot, and that the instruction there does not read what is the handlers' own; system calls and floating-point traps resume elsewhere (see SyscallResumesExact for the former).
- Simulator.Or1k.SetSpr: writes to MMU, MAC, floating-point and cache registers are one action without effect here; their effects are in the MMU, fetch and arithmetic models. Reads of special registers appear only in `l.rfe`.
- TlbTransparency.TlbTransparent: one MMU serves one kind of request. Writes of TLB registers by software and the address translation blocks are not modelled.
- FetchTransparency.FetchCachesTransparent: that stored words are invalidated before they are fetched is sufficient (LoadExact tells when one load is right); which words decode, and the size of the decode cache, are fixed. A fetch takes no cycles, as in the code. Masking of word addresses is written as a remainder.
- The decoder itself: a word decodes or does not, and its handler is a function of the word.
- Port.Env.ConvertAndTransact: demands that a request which starts in the memory also ends there, and that an exclusive one there is of a word, as the callers assert; the surrounding system is a function of the request, and the host is little-endian.
- Exclusive.Chain: each load, store and compare-and-swap is one step; a word read or written by several host instructions is not modelled, nor is address translation. The branch flag, which every successful exclusive access sets and a failed store clears, is the port's response here.
- Arith: shifts, rotations, multiplication, division and `l.macrc` are left out; an accumulation that overflows 64 bits is taken to wrap.
- ListSort.CalcFunc: what the benchmarks of an item leave in the results record is left out.
- ListBench.BenchList: the counters and checksums it returns, and the walks that compute them, are left out; the benchmarks run for an item are an arbitrary function of the item, which each sort asks at most once. The indices are unbounded, the searched one wraps as 16 bits do.
- ListSort.MergeSort: the empty list, on which the code dereferences NULL, and the overflow of the run length after 2^30 items are not modelled.
- ScannerBench.BenchState: demands what the code relies on: a positive step, and a zero byte that survives the corruption (CorruptionTerminated tells when one does). Bytes are numbers, with an exclusive-or of their digits.
- ScannerInput.InitState: demands a size of at least one; at zero the code's counter wraps and it writes on without end.
- List and matrix set-up, timing and printing of the benchmarks, the other benchmarks, floating point, the debugger stub, ELF loading, tracing, disassembly, statistics and semihosting.
