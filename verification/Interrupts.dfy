/** Delayed branches and precise interrupts.

    The core has one program counter and encodes a pending jump by the count of the instruction
    after which it is taken.  The reference is the architecture's view: a machine with two
    registers, the address of the instruction and that of its successor.  Interrupts and
    restartable faults, served by a handler that returns with l.rfe, leave no trace in what the
    program commits, also between a branch and its delay slot. */
module Interrupts {
  import opened Words
  import opened Ticking
  import opened Core
  import opened Quantum
  import Arith

  // ---- The program and the reference machine

  datatype Insn<A> =
    | Plain(arch: A, flags: seq<(Flag, bool)>)
    | Branch(arch: A, target: Pc)

  // The instruction at an address, given the registers and the status it can read.
  type Code<!A> = (A, bv32, Pc) -> Insn<A>

  datatype Committed<A> = Committed(arch: A, status: bv32, pc: Pc, npc: Pc)

  function FlagsSet(status: bv32, flags: seq<(Flag, bool)>): bv32
    decreases |flags|
  {
    if flags == [] then status
    else FlagsSet(Flagged(status, flags[0].0, flags[0].1), flags[1..])
  }

  function Reference<A>(code: Code<A>, k: Committed<A>): Committed<A> {
    match code(k.arch, k.status, k.pc)
    case Plain(arch, flags) => Committed(arch, Fixed(FlagsSet(k.status, flags)), k.npc, Successor(k.npc))
    case Branch(arch, target) => Committed(arch, Fixed(k.status), k.npc, target)
  }

  function ReferenceRun<A>(code: Code<A>, k: Committed<A>, n: nat): Committed<A> {
    if n == 0 then k else Reference(code, ReferenceRun(code, k, n - 1))
  }

  // ---- The core running the same program

  function Handler<A>(i: Insn<A>): seq<Action<A>> {
    match i
    case Plain(arch, flags) => [Commit(arch)] + seq(|flags|, k requires 0 <= k < |flags| => SetFlag(flags[k].0, flags[k].1))
    case Branch(arch, target) => [Commit(arch), Jump(target, 1)]
  }

  function Counted<A>(c: Cpu<A>): Cpu<A> {
    c.(instructions := c.instructions + 1)
  }

  function Stepped<A>(code: Code<A>, c: Cpu<A>): Cpu<A> {
    match code(c.arch, c.status, c.nextPc)
    case Plain(arch, flags) =>
      Retired(Counted(c).(arch := arch, status := FlagsSet(c.status, flags)))
    case Branch(arch, target) =>
      Retired(ScheduledJump(Counted(c).(arch := arch), target, 1))
  }

  lemma {:induction false} SetFlagsApplied<A>(b: Board<A>, m: Machine<A>, flags: seq<(Flag, bool)>, actions: seq<Action<A>>)
    requires |actions| == |flags| && forall k | 0 <= k < |flags| :: actions[k] == SetFlag(flags[k].0, flags[k].1)
    ensures AppliedAll(b, m, actions) == m.(cpu := m.cpu.(status := FlagsSet(m.cpu.status, flags)))
    decreases |actions|
  {
    hide Flagged;
    if flags != [] {
      var r := Applied(b, m, actions[0]);
      SetFlagsApplied(b, r, flags[1..], actions[1..]);
    }
  }

  // The step is what the main loop executes when the program fetches this instruction.
  lemma SteppedIsExecuted<A>(b: Board<A>, m: Machine<A>, code: Code<A>)
    requires var s := Begun(m);
             b.program(s.cpu, s.cycles, s.timer) == Act(Handler(code(m.cpu.arch, m.cpu.status, m.cpu.nextPc)))
    ensures Executed(b, m).cpu == Stepped(code, m.cpu)
  {
    hide Retired, ScheduledJump, FlagsSet;
    var s := Begun(m);
    var i := code(m.cpu.arch, m.cpu.status, m.cpu.nextPc);
    var actions := Handler(i);
    var r := Applied(b, s, Commit(i.arch));
    assert AppliedAll(b, s, actions) == AppliedAll(b, r, actions[1..]);
    match i
    case Plain(arch, flags) => SetFlagsApplied(b, r, flags, actions[1..]);
    case Branch(arch, target) =>
      assert AppliedAll(b, r, actions[1..]) == AppliedAll(b, Applied(b, r, Jump(target, 1)), actions[2..]);
  }

  // ---- One program counter and a count stand for two registers

  // No jump is pending beyond the next instruction.
  predicate Sane<A>(c: Cpu<A>) {
    c.jumpInsn <= c.instructions + 1
  }

  function Abstract<A>(c: Cpu<A>): Committed<A> {
    Committed(c.arch, c.status, c.nextPc, if c.AfterJump() then c.jumpTarget else Successor(c.nextPc))
  }

  lemma PlainStep<A>(code: Code<A>, c: Cpu<A>)
    requires Sane(c) && code(c.arch, c.status, c.nextPc).Plain?
    ensures Sane(Stepped(code, c)) && Abstract(Stepped(code, c)) == Reference(code, Abstract(c))
    ensures !Stepped(code, c).AfterJump()
  {
    hide FlagsSet;
  }

  lemma BranchStep<A>(code: Code<A>, c: Cpu<A>)
    requires Sane(c) && code(c.arch, c.status, c.nextPc).Branch?
    ensures var i := code(c.arch, c.status, c.nextPc);
            Abstract(Stepped(code, c)) == Committed(i.arch, Fixed(c.status), Successor(c.nextPc), i.target)
    ensures Sane(Stepped(code, c)) && Stepped(code, c).AfterJump() && Stepped(code, c).prevPc == c.nextPc
  {
  }

  // The encoding follows the two-register machine exactly when no branch sits in a delay slot,
  // unless the first branch goes where the core would have gone anyway.
  lemma DelayedJumpsExact<A>(code: Code<A>, c: Cpu<A>)
    requires Sane(c)
    ensures Sane(Stepped(code, c))
    ensures Abstract(Stepped(code, c)) == Reference(code, Abstract(c)) <==>
            !(c.AfterJump() && code(c.arch, c.status, c.nextPc).Branch?) || c.jumpTarget == Successor(c.nextPc)
  {
    hide Stepped, Successor, FlagsSet;
    if code(c.arch, c.status, c.nextPc).Plain? {
      PlainStep(code, c);
    } else {
      BranchStep(code, c);
    }
  }

  // ---- Leaving and returning

  // An interrupt between instructions.
  function InterruptEntry<A>(c: Cpu<A>, e: Exception): Cpu<A> {
    Raised(c, e, 0)
  }

  // A fault of the next instruction, before it commits anything.
  predicate Restartable(e: Exception) {
    e != Syscall && e != FloatingPoint && e != TickTimer && e != External
  }

  function FaultEntry<A>(c: Cpu<A>, e: Exception, addr: U32): Cpu<A> {
    Retired(Raised(Counted(c), e, addr))
  }

  // What the program can tell apart: `same` relates the registers and memories that differ only
  // in what is a handler's own, its stack for example.
  type Likeness<!A> = (A, A) -> bool

  ghost predicate Equivalence<A(!new)>(same: Likeness<A>) {
    && (forall a :: same(a, a))
    && (forall a, b :: same(a, b) ==> same(b, a))
    && (forall a, b, c :: same(a, b) && same(b, c) ==> same(a, c))
  }

  // The handler may do anything, as long as it arrives at its l.rfe privileged, with nothing of
  // the program's changed, the saved program counter and status as it found them, and that l.rfe
  // is not in a delay slot.
  ghost predicate Serves<A>(same: Likeness<A>, entry: Cpu<A>, h: Cpu<A>) {
    && same(h.arch, entry.arch) && h.expc == entry.expc && h.exsr == entry.exsr
    && Has(h.status, SR_SM) && !h.AfterJump()
  }

  function ReturnStep<A>(h: Cpu<A>): Cpu<A> {
    Retired(Returned(Counted(h)))
  }

  lemma ReturnStepIsExecuted<A>(b: Board<A>, m: Machine<A>)
    requires var s := Begun(m); b.program(s.cpu, s.cycles, s.timer) == Act([ReturnFromException])
    ensures Executed(b, m).cpu == ReturnStep(m.cpu)
  {
    hide Retired, Returned;
    var s := Begun(m);
    assert AppliedAll(b, s, [ReturnFromException]) == Applied(b, s, ReturnFromException);
  }

  lemma FaultEntryIsExecuted<A>(b: Board<A>, m: Machine<A>, e: SyncException, addr: U32)
    requires var s := Begun(m); b.program(s.cpu, s.cycles, s.timer) == Act([Raise(e, addr)])
    ensures Executed(b, m).cpu == FaultEntry(m.cpu, e, addr)
  {
    hide Retired, Raised;
    var s := Begun(m);
    assert AppliedAll(b, s, [Raise(e, addr)]) == Applied(b, s, Raise(e, addr));
  }

  // Between batches, the main loop enters at most one interrupt.
  lemma SettledIsEntry<A>(m: Machine<A>)
    ensures Settled(m).cpu == m.cpu
            || exists e | e in {TickTimer, External} :: !Masked(m.cpu.status, e) && Settled(m).cpu == InterruptEntry(m.cpu, e)
  {
    InterruptTaken(m.cpu, TickTimer);
    InterruptTaken(TimerUpdated(m).cpu, External);
    hide Raised, Updated, Has, Timer.IrqPending, Timer.Enabled;
    if TimerUpdated(m).cpu == m.cpu {
      assert Settled(m).cpu == m.cpu || Settled(m).cpu == InterruptEntry(m.cpu, External);
    } else {
      assert Settled(m).cpu == InterruptEntry(m.cpu, TickTimer);
    }
  }

  // Where the program goes on after it was interrupted between instructions: at the next
  // instruction, or at the branch if its delay slot is still to come.
  function ResumeAt<A>(c: Cpu<A>): U32 {
    if c.AfterJump() then c.prevPc else c.nextPc
  }

  lemma EntrySaves<A>(c: Cpu<A>, e: Exception)
    requires (e == TickTimer || e == External) && !Masked(c.status, e)
    ensures var entry := InterruptEntry(c, e);
            entry.arch == c.arch && entry.exsr == c.status && entry.expc == ResumeAt(c)
  {
    hide EntryPc, EntryStatus, Cleared, Has;
  }

  lemma FaultSaves<A>(c: Cpu<A>, e: Exception, addr: U32)
    requires Restartable(e)
    ensures var entry := FaultEntry(c, e, addr);
            entry.arch == c.arch && entry.exsr == c.status && entry.expc == ResumeAt(c)
  {
    hide EntryPc, EntryStatus, Cleared, Has;
  }

  // l.rfe restores the saved status and continues at the saved, word-aligned address with no
  // jump pending.
  lemma ReturnRestores<A>(h: Cpu<A>)
    requires Has(h.status, SR_SM) && WordAligned(h.expc)
    ensures var r := ReturnStep(h);
            && r.arch == h.arch && r.status == Fixed(h.exsr) && r.nextPc == h.expc
            && !r.AfterJump() && Sane(r)
  {
    PrivilegedMayRead(h.status);
    hide MayRead, Has, Raised;
  }

  lemma PrivilegedMayRead(status: bv32)
    requires Has(status, SR_SM)
    ensures MayRead(status)
  {
  }

  // ---- Interrupted runs

  datatype Event<A> =
    | Step
    | Interrupt(e: Exception, handler: Cpu<A>)
    | Fault(e: Exception, addr: U32, handler: Cpu<A>)

  // `handler` is the state in which the handler reaches its l.rfe.
  ghost predicate Possible<A>(same: Likeness<A>, c: Cpu<A>, ev: Event<A>) {
    match ev
    case Step => true
    case Interrupt(e, h) =>
      (e == TickTimer || e == External) && !Masked(c.status, e) && Serves(same, InterruptEntry(c, e), h)
    case Fault(e, addr, h) => Restartable(e) && Serves(same, FaultEntry(c, e, addr), h)
  }

  function Handled<A>(code: Code<A>, c: Cpu<A>, ev: Event<A>): Cpu<A> {
    match ev
    case Step => Stepped(code, c)
    case Interrupt(e, h) => ReturnStep(h)
    case Fault(e, addr, h) => ReturnStep(h)
  }

  ghost predicate PossibleRun<A>(same: Likeness<A>, code: Code<A>, c: Cpu<A>, events: seq<Event<A>>)
    decreases |events|
  {
    events != [] ==> Possible(same, c, events[0]) && PossibleRun(same, code, Handled(code, c, events[0]), events[1..])
  }

  function Run<A>(code: Code<A>, c: Cpu<A>, events: seq<Event<A>>): Cpu<A>
    decreases |events|
  {
    if events == [] then c else Run(code, Handled(code, c, events[0]), events[1..])
  }

  // ---- What is asked of the program, in the states of its uninterrupted run only

  // The same instruction, with like results.
  ghost predicate LikeInsn<A>(same: Likeness<A>, i: Insn<A>, j: Insn<A>) {
    match i
    case Plain(arch, flags) => j.Plain? && same(arch, j.arch) && flags == j.flags
    case Branch(arch, target) => j.Branch? && same(arch, j.arch) && target == j.target
  }

  // At this state, the program cannot tell like registers and memories apart.
  ghost predicate Respects<A(!new)>(same: Likeness<A>, code: Code<A>, k: Committed<A>) {
    forall a | same(a, k.arch) :: LikeInsn(same, code(a, k.status, k.pc), code(k.arch, k.status, k.pc))
  }

  // With the registers of this state, the instruction at pc is a branch to where this state goes
  // next, and changes nothing: true of the branch that led here, unless it is an l.jalr through the
  // link register.
  ghost predicate Replays<A(!new)>(same: Likeness<A>, code: Code<A>, k: Committed<A>, pc: Pc) {
    forall a | same(a, k.arch) :: LikeInsn(same, code(a, k.status, pc), Branch(k.arch, k.npc))
  }

  // After a branch: it can be repeated, and its delay slot holds no branch.
  ghost predicate BranchesWell<A(!new)>(same: Likeness<A>, code: Code<A>, k: Committed<A>) {
    code(k.arch, k.status, k.pc).Branch? ==>
      var next := Reference(code, k);
      Replays(same, code, next, k.pc) && code(next.arch, next.status, next.pc).Plain?
  }

  ghost predicate Regular<A(!new)>(same: Likeness<A>, code: Code<A>, k: Committed<A>) {
    Respects(same, code, k) && BranchesWell(same, code, k)
  }

  // The first n states of the uninterrupted run, and the one after them.
  ghost predicate RegularRun<A(!new)>(same: Likeness<A>, code: Code<A>, k: Committed<A>, n: nat) {
    forall i | 0 <= i <= n :: Regular(same, code, ReferenceRun(code, k, i))
  }

  // ---- The core stands for the reference

  predicate FixedOne(status: bv32) {
    Fixed(status) == status
  }

  // Where the reference is, up to likeness; between a branch and its delay slot the core still
  // knows the branch, which leads to the same place when executed again.
  ghost predicate InStep<A(!new)>(same: Likeness<A>, code: Code<A>, c: Cpu<A>, k: Committed<A>) {
    && Sane(c) && FixedOne(c.status) && same(c.arch, k.arch)
    && Abstract(c) == k.(arch := c.arch)
    && (c.AfterJump() ==>
          && WordAligned(c.prevPc) && Successor(c.prevPc) == c.nextPc
          && Replays(same, code, k, c.prevPc) && code(k.arch, k.status, k.pc).Plain?)
  }

  // The core is about to execute a branch that the reference has already executed.
  ghost predicate Replaying<A(!new)>(same: Likeness<A>, code: Code<A>, c: Cpu<A>, k: Committed<A>) {
    && Sane(c) && FixedOne(c.status) && !c.AfterJump()
    && same(c.arch, k.arch) && c.status == k.status && Successor(c.nextPc) == k.pc
    && Replays(same, code, k, c.nextPc) && code(k.arch, k.status, k.pc).Plain?
  }

  ghost predicate Faithful<A(!new)>(same: Likeness<A>, code: Code<A>, c: Cpu<A>, k: Committed<A>) {
    InStep(same, code, c, k) || Replaying(same, code, c, k)
  }

  lemma OrTwice(s: bv32)
    ensures FixedOne(Fixed(s))
  {
  }

  lemma LikeThere<A(!new)>(same: Likeness<A>, code: Code<A>, a: A, k: Committed<A>)
    requires Respects(same, code, k) && same(a, k.arch)
    ensures LikeInsn(same, code(a, k.status, k.pc), code(k.arch, k.status, k.pc))
  {
  }

  lemma StepInStep<A(!new)>(same: Likeness<A>, code: Code<A>, c: Cpu<A>, k: Committed<A>)
    requires Regular(same, code, k) && InStep(same, code, c, k)
    ensures InStep(same, code, Stepped(code, c), Reference(code, k))
  {
    hide Stepped, Successor, FixedOne, Fixed, FlagsSet, Replays, Sane, Reference, BranchesWell;
    LikeThere(same, code, c.arch, k);
    if code(k.arch, k.status, k.pc).Plain? {
      PlainInStep(same, code, c, k);
    } else {
      BranchInStep(same, code, c, k);
    }
  }

  lemma PlainReference<A(!new)>(same: Likeness<A>, code: Code<A>, a: A, k: Committed<A>)
    requires code(k.arch, k.status, k.pc).Plain?
    requires LikeInsn(same, code(a, k.status, k.pc), code(k.arch, k.status, k.pc))
    ensures var i := code(a, k.status, k.pc);
            && Reference(code, k.(arch := a)) == Reference(code, k).(arch := i.arch) && same(i.arch, Reference(code, k).arch)
            && FixedOne(Reference(code, k).status)
  {
    OrTwice(FlagsSet(k.status, code(k.arch, k.status, k.pc).flags));
    hide FlagsSet, Successor, FixedOne, Fixed;
  }

  lemma PlainInStep<A(!new)>(same: Likeness<A>, code: Code<A>, c: Cpu<A>, k: Committed<A>)
    requires InStep(same, code, c, k) && code(k.arch, k.status, k.pc).Plain?
    requires LikeInsn(same, code(c.arch, c.status, c.nextPc), code(k.arch, k.status, k.pc))
    ensures InStep(same, code, Stepped(code, c), Reference(code, k))
  {
    assert Abstract(c) == k.(arch := c.arch);
    hide FlagsSet, Stepped, Successor, FixedOne, Fixed, Replays, Reference;
    PlainStep(code, c);
    PlainReference(same, code, c.arch, k);
    assert Stepped(code, c).arch == Abstract(Stepped(code, c)).arch;
    assert Stepped(code, c).status == Abstract(Stepped(code, c)).status;
  }

  lemma BranchInStep<A(!new)>(same: Likeness<A>, code: Code<A>, c: Cpu<A>, k: Committed<A>)
    requires InStep(same, code, c, k) && code(k.arch, k.status, k.pc).Branch? && BranchesWell(same, code, k)
    requires LikeInsn(same, code(c.arch, c.status, c.nextPc), code(k.arch, k.status, k.pc))
    ensures InStep(same, code, Stepped(code, c), Reference(code, k))
  {
    BranchStep(code, c);
    BranchKeepsRest(code, c);
    hide Stepped, Successor, FixedOne, Fixed, Replays;
  }

  lemma BranchKeepsRest<A>(code: Code<A>, c: Cpu<A>)
    requires Sane(c) && FixedOne(c.status) && code(c.arch, c.status, c.nextPc).Branch?
    ensures var i, d := code(c.arch, c.status, c.nextPc), Stepped(code, c);
            d.arch == i.arch && d.status == c.status && d.jumpTarget == i.target && d.prevPc == c.nextPc
            && Fixed(c.status) == c.status
  {
  }

  lemma StepReplays<A(!new)>(same: Likeness<A>, code: Code<A>, c: Cpu<A>, k: Committed<A>)
    requires Replaying(same, code, c, k)
    ensures InStep(same, code, Stepped(code, c), k)
  {
    assert LikeInsn(same, code(c.arch, c.status, c.nextPc), Branch(k.arch, k.npc));
    BranchStep(code, c);
    BranchKeepsRest(code, c);
    hide Stepped, Successor, FixedOne, Fixed, Replays;
  }

  lemma ReturnsTo<A>(c: Cpu<A>, h: Cpu<A>)
    requires h.exsr == c.status && h.expc == ResumeAt(c) && Has(h.status, SR_SM)
    requires FixedOne(c.status) && WordAligned(ResumeAt(c))
    ensures var r := ReturnStep(h);
            && r.arch == h.arch && r.status == c.status && r.nextPc == ResumeAt(c)
            && Sane(r) && !r.AfterJump()
  {
    ReturnRestores(h);
    hide ReturnStep, ResumeAt, Has;
  }

  // Coming back from a handler, the core stands where it was, or before the branch.
  lemma ReturnsFaithful<A(!new)>(same: Likeness<A>, code: Code<A>, c: Cpu<A>, k: Committed<A>, h: Cpu<A>)
    requires Equivalence(same) && Faithful(same, code, c, k)
    requires same(h.arch, c.arch) && h.exsr == c.status && h.expc == ResumeAt(c) && Has(h.status, SR_SM)
    ensures Faithful(same, code, ReturnStep(h), k)
  {
    assert WordAligned(ResumeAt(c));
    ReturnsTo(c, h);
    var r := ReturnStep(h);
    hide ReturnStep, Successor, Has, FixedOne, Fixed, Replays;
    assert same(r.arch, k.arch);
    if c.AfterJump() {
      assert Replaying(same, code, r, k);
    } else if InStep(same, code, c, k) {
      assert InStep(same, code, r, k);
    } else {
      assert Replaying(same, code, r, k);
    }
  }

  function Steps<A>(events: seq<Event<A>>): nat
    decreases |events|
  {
    if events == [] then 0 else (if events[0].Step? then 1 else 0) + Steps(events[1..])
  }

  lemma RegularLater<A(!new)>(same: Likeness<A>, code: Code<A>, k: Committed<A>, n: nat)
    requires RegularRun(same, code, k, n)
    ensures Regular(same, code, k)
    ensures n > 0 ==> RegularRun(same, code, Reference(code, k), n - 1)
  {
    hide Regular, Reference;
    assert Regular(same, code, ReferenceRun(code, k, 0));
    if n > 0 {
      forall i | 0 <= i <= n - 1 ensures Regular(same, code, ReferenceRun(code, Reference(code, k), i)) {
        RunFrom(code, k, i);
        assert Regular(same, code, ReferenceRun(code, k, i + 1));
      }
    }
  }

  lemma RegularShorter<A(!new)>(same: Likeness<A>, code: Code<A>, k: Committed<A>, n: nat, m: nat)
    requires RegularRun(same, code, k, n) && m <= n
    ensures RegularRun(same, code, k, m)
  {
    hide Regular;
  }

  lemma InStepNotReplaying<A(!new)>(same: Likeness<A>, code: Code<A>, c: Cpu<A>, k: Committed<A>)
    requires InStep(same, code, c, k)
    ensures !Replaying(same, code, c, k)
  {
  }

  lemma FaithfulAgrees<A(!new)>(same: Likeness<A>, code: Code<A>, c: Cpu<A>, k: Committed<A>)
    requires Faithful(same, code, c, k)
    ensures same(c.arch, k.arch) && c.status == k.status
  {
  }

  // However a run is interrupted, the core has committed what the reference commits in some
  // number n of instructions, up to what is the handlers' own: every step but the repeated
  // branches, at most one for each interruption.
  lemma {:induction false} InterruptsArePrecise<A(!new)>(
      same: Likeness<A>, code: Code<A>, c: Cpu<A>, k: Committed<A>, events: seq<Event<A>>) returns (n: nat)
    requires Equivalence(same) && RegularRun(same, code, k, Steps(events))
    requires Faithful(same, code, c, k) && PossibleRun(same, code, c, events)
    ensures n <= Steps(events)
    ensures Steps(events) <= n + |events| - Steps(events) + (if Replaying(same, code, c, k) then 1 else 0)
    ensures Faithful(same, code, Run(code, c, events), ReferenceRun(code, k, n))
    ensures same(Run(code, c, events).arch, ReferenceRun(code, k, n).arch)
    ensures Run(code, c, events).status == ReferenceRun(code, k, n).status
    decreases |events|
  {
    hide Stepped, ReturnStep, RegularRun, Regular, Reference, Has, FaultEntry, InterruptEntry, Equivalence, InStep, Replaying, Masked;
    FaithfulAgrees(same, code, c, k);
    if events == [] {
      n := 0;
    } else {
      var d := Handled(code, c, events[0]);
      RegularLater(same, code, k, Steps(events));
      match events[0]
      case Step =>
        if InStep(same, code, c, k) {
          StepInStep(same, code, c, k);
          InStepNotReplaying(same, code, d, Reference(code, k));
          n := InterruptsArePrecise(same, code, d, Reference(code, k), events[1..]);
          RunFrom(code, k, n);
          n := n + 1;
        } else {
          StepReplays(same, code, c, k);
          InStepNotReplaying(same, code, d, k);
          RegularShorter(same, code, k, Steps(events), Steps(events[1..]));
          n := InterruptsArePrecise(same, code, d, k, events[1..]);
        }
      case Interrupt(e, h) =>
        EntrySaves(c, e);
        ReturnsFaithful(same, code, c, k, h);
        n := InterruptsArePrecise(same, code, d, k, events[1..]);
      case Fault(e, addr, h) =>
        FaultSaves(c, e, addr);
        ReturnsFaithful(same, code, c, k, h);
        n := InterruptsArePrecise(same, code, d, k, events[1..]);
    }
  }

  lemma {:induction false} RunFrom<A>(code: Code<A>, k: Committed<A>, n: nat)
    ensures ReferenceRun(code, Reference(code, k), n) == ReferenceRun(code, k, n + 1)
  {
    hide Reference;
    if n > 0 {
      RunFrom(code, k, n - 1);
    }
  }

  // With equality for likeness: handlers restore everything, every program respects it, and a
  // branch replays if it is the same instruction on the registers it left.
  lemma EqualityIsLikeness<A(!new)>(code: Code<A>, k: Committed<A>)
    ensures var same := (a: A, b: A) => a == b;
            && Equivalence(same) && Respects(same, code, k)
            && (BranchesWell(same, code, k) <==>
                (code(k.arch, k.status, k.pc).Branch? ==>
                   var next := Reference(code, k);
                   && code(next.arch, next.status, k.pc) == Branch(next.arch, next.npc)
                   && code(next.arch, next.status, next.pc).Plain?))
  {
    hide Reference;
  }

  // ---- Where the scheme departs from the architecture

  // An interrupt between a branch and its delay slot repeats the branch.  What the branch
  // committed stands exactly if it leads to the same place with the registers it left behind.
  lemma ReplayExact<A>(code: Code<A>, c: Cpu<A>, r: Cpu<A>)
    requires c.AfterJump() && WordAligned(c.prevPc) && Successor(c.prevPc) == c.nextPc && FixedOne(c.status)
    requires Sane(r) && !r.AfterJump() && r.arch == c.arch && r.status == c.status && r.nextPc == c.prevPc
    requires code(c.arch, c.status, c.prevPc).Branch?
    ensures Abstract(Stepped(code, r)) == Abstract(c) <==>
            code(c.arch, c.status, c.prevPc) == Branch(c.arch, c.jumpTarget)
  {
    BranchStep(code, r);
    assert Fixed(c.status) == c.status;
    hide Stepped, Successor, FixedOne, Fixed;
  }

  // A system call resumes at the successor of its instruction exactly outside delay slots
  // (or if the pending jump leads to the next word anyway).
  lemma SyscallResumesExact<A>(c: Cpu<A>)
    requires Sane(c)
    ensures FaultEntry(c, Syscall, 0).expc == Abstract(c).npc <==>
            !c.AfterJump() || c.jumpTarget == Successor(c.nextPc)
  {
    hide EntryPc, EntryStatus, Cleared, Has;
  }

  // The delay-slot flag is meant to tell that the program will be resumed at a branch.  An
  // interrupt sets it if a jump has just completed instead, so it is right exactly if no jump is
  // concerned and it was clear, or if it was set before and a jump is indeed pending.
  lemma InterruptDelaySlotFlag<A>(c: Cpu<A>, e: Exception)
    requires (e == TickTimer || e == External) && !Masked(c.status, e)
    ensures (Has(InterruptEntry(c, e).status, SR_DSX) <==> c.AfterJump()) <==>
            if Has(c.status, SR_DSX) then c.AfterJump() else !c.AfterJump() && !c.InDelaySlot()
  {
    EntryFlag(c.status, c.InDelaySlot());
    hide EntryPc, EntryStatus, Cleared, Has;
  }

  lemma EntryFlag(status: bv32, delaySlot: bool)
    ensures Has(EntryStatus(status, delaySlot), SR_DSX) <==> Has(status, SR_DSX) || delaySlot
  {
  }

  // What an addition with carry or a subtraction does: it commits its result with both flags clear;
  // then, for either flag that it sets, it records the exception in AESR before it raises it.
  function SumCommitted<A>(sum: A): seq<Action<A>> {
    [Commit(sum), SetFlag(FlagCY, false), SetFlag(FlagOV, false)]
  }

  function RangeFault<A>(f: Flag, recorded: A): seq<Action<A>> {
    [SetFlag(f, true), Commit(recorded), Raise(Range, 0)]
  }

  function CarryFault<A>(sum: A, carried: A): seq<Action<A>> {
    SumCommitted(sum) + RangeFault(FlagCY, carried)
  }

  lemma {:induction false} AppliedTogether<A>(b: Board<A>, m: Machine<A>, first: seq<Action<A>>, rest: seq<Action<A>>)
    ensures AppliedAll(b, m, first + rest) == AppliedAll(b, AppliedAll(b, m, first), rest)
    decreases |first|
  {
    if first == [] {
      assert first + rest == rest;
    } else {
      assert (first + rest)[1..] == first[1..] + rest;
      AppliedTogether(b, Applied(b, m, first[0]), first[1..], rest);
    }
  }

  lemma AppliedThree<A>(b: Board<A>, m: Machine<A>, actions: seq<Action<A>>)
    requires |actions| == 3
    ensures AppliedAll(b, m, actions) == Applied(b, Applied(b, Applied(b, m, actions[0]), actions[1]), actions[2])
  {
    hide Applied;
    var s2 := Applied(b, Applied(b, m, actions[0]), actions[1]);
    assert actions[1..][1..] == [actions[2]];
    assert AppliedAll(b, s2, [actions[2]]) == Applied(b, s2, actions[2]);
  }

  lemma SumCommittedMeans<A>(b: Board<A>, m: Machine<A>, sum: A)
    ensures AppliedAll(b, m, SumCommitted(sum)) == m.(cpu := m.cpu.(arch := sum,
              status := Flagged(Flagged(m.cpu.status, FlagCY, false), FlagOV, false)))
  {
    AppliedThree(b, m, SumCommitted(sum));
    hide AppliedAll, Flagged;
  }

  lemma RangeFaultMeans<A>(b: Board<A>, m: Machine<A>, f: Flag, recorded: A)
    ensures AppliedAll(b, m, RangeFault(f, recorded)) == m.(cpu :=
              Raised(m.cpu.(arch := recorded, status := Flagged(m.cpu.status, f, true)), Range, 0))
  {
    AppliedThree(b, m, RangeFault(f, recorded));
    hide AppliedAll, Flagged, Raised;
  }

  // The status with which the first exception is raised.
  function Carried(status: bv32): bv32 {
    Flagged(Flagged(Flagged(status, FlagCY, false), FlagOV, false), FlagCY, true)
  }

  lemma OverflowBit(status: bv32)
    ensures !Has(Carried(status), SR_OV) && Has(Flagged(status, FlagOV, true), SR_OV)
  {
  }

  lemma FaultsMean<A>(b: Board<A>, m: Machine<A>, sum: A, carried: A, overflown: A)
    ensures var once := AppliedAll(b, m, CarryFault(sum, carried)).cpu;
            && once == Raised(m.cpu.(arch := carried, status := Carried(m.cpu.status)), Range, 0)
            && AppliedAll(b, m, CarryFault(sum, carried) + RangeFault(FlagOV, overflown)).cpu
               == Raised(once.(arch := overflown, status := Flagged(once.status, FlagOV, true)), Range, 0)
  {
    var start := AppliedAll(b, m, SumCommitted(sum));
    SumCommittedMeans(b, m, sum);
    RangeFaultMeans(b, start, FlagCY, carried);
    RangeFaultMeans(b, AppliedAll(b, start, RangeFault(FlagCY, carried)), FlagOV, overflown);
    AppliedTogether(b, m, SumCommitted(sum), RangeFault(FlagCY, carried));
    AppliedTogether(b, m, CarryFault(sum, carried), RangeFault(FlagOV, overflown));
    hide Raised, Flagged, Applied, AppliedAll, SumCommitted, RangeFault;
  }

  // A second range exception in one instruction overwrites what the first one saved: the status of
  // the handler, with the overflow flag that is set only then, and the address before.  The status
  // of the program is always lost, its address unless both are the same.
  lemma SecondFaultExact<A>(b: Board<A>, m: Machine<A>, sum: A, carried: A, overflown: A)
    ensures var c := m.cpu;
            var once := AppliedAll(b, m, CarryFault(sum, carried)).cpu;
            var twice := AppliedAll(b, m, CarryFault(sum, carried) + RangeFault(FlagOV, overflown)).cpu;
            && once.exsr == Carried(c.status) && once.expc == ResumePc(c, Range)
            && twice.exsr == Flagged(EntryStatus(once.exsr, c.InDelaySlot()), FlagOV, true)
            && twice.expc == c.prevPc
            && !Has(once.exsr, SR_OV) && Has(twice.exsr, SR_OV) && twice.exsr != once.exsr
            && (twice.expc == once.expc <==> c.InDelaySlot() || c.prevPc == c.nextPc)
  {
    var c := m.cpu;
    FaultsMean(b, m, sum, carried, overflown);
    OverflowBit(c.status);
    OverflowBit(EntryStatus(Carried(c.status), c.InDelaySlot()));
    hide EntryPc, EntryStatus, Cleared, Has, Flagged, Carried, AppliedAll, CarryFault, RangeFault;
  }

  // ---- Runs of a program of branches that depart

  // A core that has executed the branch at 0x2000, in user mode with the timer interrupt enabled.
  function BeforeDelaySlot(): Cpu<int> {
    Cpu(7, 0x3000, 8, 0x2000, 0x2004, SR_FO | SR_TEE, 0, 0, 0, 0, 0, PIC_NMI, 0, 0)
  }

  function OnlyBranches(): Code<int> {
    (a, s, pc) => Branch(a, 0x1000)
  }

  lemma BranchInDelaySlot()
    ensures var c, code := BeforeDelaySlot(), OnlyBranches();
            && Sane(c) && Abstract(c) == Committed(0, c.status, 0x2004, 0x3000)
            && Reference(code, Abstract(c)).pc == 0x3000 && Abstract(Stepped(code, c)).pc == 0x2008
  {
  }

  lemma SyscallInDelaySlot()
    ensures var c := BeforeDelaySlot();
            Sane(c) && Abstract(c).npc == 0x3000 && FaultEntry(c, Syscall, 0).expc == 0x2008
  {
  }

  lemma FlagNotSet()
    ensures var c := BeforeDelaySlot();
            !Masked(c.status, TickTimer) && c.AfterJump() && !Has(InterruptEntry(c, TickTimer).status, SR_DSX)
  {
    var c := BeforeDelaySlot();
    assert !Has(c.status, SR_DSX) && Has(c.status, SR_TEE);
    EntryFlag(c.status, c.InDelaySlot());
    hide EntryPc, EntryStatus, Cleared, Has;
  }

  // A core that executes an addition at 0x2004, outside delay slots, with range exceptions enabled.
  function AtAddition(): Cpu<int> {
    Cpu(8, 0, 0, 0x2000, 0x2004, SR_FO | SR_OVE, 0, 0, 0, 0, 0, PIC_NMI, 0, 0)
  }

  // Adding 0x80000000 to itself both carries and overflows; status and address are lost.
  lemma FirstSaveLost(b: Board<int>, m: Machine<int>)
    requires m.cpu == AtAddition()
    ensures Arith.Added(0x8000_0000, 0x8000_0000, false) == Arith.Sum(0, true, true)
    ensures var once := AppliedAll(b, m, CarryFault(0, 0)).cpu;
            var twice := AppliedAll(b, m, CarryFault(0, 0) + RangeFault(FlagOV, 0)).cpu;
            once.expc == 0x2004 && twice.expc == 0x2000 && twice.exsr != once.exsr
  {
    SecondFaultExact(b, m, 0, 0, 0);
    hide AppliedAll, CarryFault, RangeFault, EntryStatus, Has, Flagged, Carried;
  }
}
