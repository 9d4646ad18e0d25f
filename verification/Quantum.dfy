/** The main loop.  `advance` runs instructions in batches (mini-quanta) that end no later than
    the next breakpoint or timer tick, and looks at the timer, the interrupt lines and the
    breakpoints only between batches.

    The loop is written once, for two granularities: the batches of the program, and the
    reference, which ends the batch after every instruction. */
module Quantum {
  import opened Words
  import opened Ticking
  import opened Core

  datatype StepResult = StepOk | StepExit | StepBreakpoint | StepWatchpoint

  datatype Granularity = MiniQuantum | SingleInstruction

  datatype Outcome<A> = Outcome(result: StepResult, machine: Machine<A>)

  // ---- Breakpoints

  // Instructions until straight-line execution from pc reaches the word of target.
  function StepsTo(pc: Pc, target: U32): nat {
    Wrap32(target - pc) / 4
  }

  const NO_BREAKPOINT: nat := 0xffff_ffff

  function Nearest(breakpoints: seq<U32>, pc: Pc): nat {
    if breakpoints == [] then NO_BREAKPOINT
    else Min(StepsTo(pc, breakpoints[0]), Nearest(breakpoints[1..], pc))
  }

  predicate AtBreakpoint<A>(b: Board<A>, m: Machine<A>) {
    m.cpu.nextPc in b.breakpoints
  }

  // ---- One instruction

  function Begun<A>(m: Machine<A>): Machine<A> {
    m.(cycles := m.cycles + 1, cpu := m.cpu.(instructions := m.cpu.instructions + 1),
       trace := m.trace + [m.cpu.nextPc])
  }

  // The registers are advanced past the instruction; a due jump is taken.
  function Retired<A>(c: Cpu<A>): Cpu<A> {
    c.(status := Fixed(c.status), prevPc := c.nextPc,
       nextPc := if c.InDelaySlot() then c.jumpTarget else Successor(c.nextPc))
  }

  // The nop that stops the simulation takes back the cycle and the instruction it counted.
  function Caused<A>(b: Board<A>, s: Machine<A>, effect: Effect<A>): Machine<A>
    requires s.cycles > 0 && s.cpu.instructions > 0
  {
    match effect
    case ExitNop =>
      s.(cycles := s.cycles - 1, cpu := s.cpu.(instructions := s.cpu.instructions - 1), stopRequested := true)
    case ResetNop => s.(cpu := s.cpu.(instructions := 0), breakRequested := true)
    case Act(actions) => AppliedAll(b, s, actions)
  }

  function Executed<A>(b: Board<A>, m: Machine<A>): Machine<A> {
    var s := Begun(m);
    var p := Caused(b, s, b.program(s.cpu, s.cycles, s.timer));
    p.(cpu := Retired(p.cpu))
  }

  lemma ExecutedTime<A>(b: Board<A>, m: Machine<A>)
    ensures m.Timed() ==> Executed(b, m).Timed()
    ensures Executed(b, m).trace == m.trace + [m.cpu.nextPc]
    ensures m.stopRequested ==> Executed(b, m).stopRequested
    ensures !Executed(b, m).stopRequested ==> m.cycles < Executed(b, m).cycles
    ensures !Executed(b, m).stopRequested && m.Budget() > 0 ==> 0 <= Executed(b, m).Budget() < m.Budget()
    ensures m.cycles <= Executed(b, m).cycles && m.limit <= Executed(b, m).limit
    ensures m.Budget() > 0 ==> 0 <= Executed(b, m).Budget() <= m.Budget()
  {
    var s := Begun(m);
    var fx := b.program(s.cpu, s.cycles, s.timer);
    if fx.Act? {
      AppliedAllOnward(b, s, fx.actions);
    }
  }

  // ---- One batch

  predicate BatchBroken<A>(m: Machine<A>) {
    m.stopRequested || m.breakRequested || m.watchHit
  }

  // A jump may have brought a breakpoint closer.
  function EndAfter<A>(b: Board<A>, m: Machine<A>, end: nat): nat {
    if m.cpu.InDelaySlot() then Min(end, m.cycles + Nearest(b.breakpoints, m.cpu.nextPc)) else end
  }

  function Batch<A>(b: Board<A>, m: Machine<A>, end: nat): Machine<A>
    decreases end - m.cycles
  {
    if m.cycles >= end then m
    else
      var x := Executed(b, m);
      ExecutedTime(b, m);
      if BatchBroken(x) then x else Batch(b, x, EndAfter(b, x, end))
  }

  // ---- Between batches

  function Polled<A>(m: Machine<A>): Machine<A> {
    if m.cpu.InterruptLine() then m.(cpu := Raised(m.cpu, External, 0)) else m
  }

  function Settled<A>(m: Machine<A>): Machine<A> {
    Polled(TimerUpdated(m))
  }

  function Rearmed<A>(m: Machine<A>): Machine<A> {
    m.(stopRequested := false, breakRequested := false, watchHit := false)
  }

  function BatchEnd<A>(b: Board<A>, m: Machine<A>, g: Granularity): nat {
    match g
    case MiniQuantum =>
      var end := Min(m.limit, m.cycles + Nearest(b.breakpoints, m.cpu.nextPc));
      if m.timer.Enabled() then Min(end, m.cycles + m.timer.NextTick()) else end
    case SingleInstruction =>
      if AtBreakpoint(b, m) then m.cycles else m.cycles + 1
  }

  // ---- The loop

  predicate Interruptible<A>(c: Cpu<A>) {
    Has(c.status, SR_TEE) || Has(c.status, SR_IEE)
  }

  // Each round either executes an instruction of the quantum, or it stands at a breakpoint; then
  // it returns unless an interrupt is taken, which masks all further interrupts.
  function Rounds<A>(b: Board<A>, m: Machine<A>, g: Granularity): Outcome<A>
    decreases m.Budget(), Interruptible(m.cpu)
  {
    if m.cycles >= m.limit then Outcome(StepOk, m)
    else
      var x := Batch(b, Rearmed(m), BatchEnd(b, m, g));
      RoundProgress(b, m, g);
      if x.stopRequested then Outcome(StepExit, x)
      else
        var y := Settled(x);
        if AtBreakpoint(b, y) then Outcome(StepBreakpoint, y)
        else if y.watchHit then Outcome(StepWatchpoint, y)
        else Rounds(b, y, g)
  }

  // A quantum starts by serving a waiting interrupt and by sleeping, if allowed.
  function Entered<A>(b: Board<A>, m: Machine<A>, quantum: U32): Machine<A> {
    Dozed(b, Polled(m.(limit := m.cycles + quantum)))
  }

  function Advanced<A>(b: Board<A>, m: Machine<A>, quantum: U32, g: Granularity): Outcome<A> {
    Rounds(b, Entered(b, m, quantum), g)
  }

  lemma PolledOnward<A>(m: Machine<A>)
    ensures Onward(m, Polled(m)) && Polled(m).Budget() == m.Budget()
  {
  }

  lemma EnteredTime<A>(b: Board<A>, m: Machine<A>, quantum: U32)
    ensures Entered(b, m, quantum).trace == m.trace
    ensures 0 <= Entered(b, m, quantum).Budget() <= quantum
    ensures m.Timed() ==> Entered(b, m, quantum).Timed()
  {
    hide Dozed, Polled;
    var q := m.(limit := m.cycles + quantum);
    PolledOnward(q);
    DozedOnward(b, Polled(q));
    assert Entered(b, m, quantum) == Dozed(b, Polled(q));
  }

  // ---- Termination

  lemma {:induction false} BatchTime<A>(b: Board<A>, m: Machine<A>, end: nat)
    requires m.Budget() >= 0 && end <= m.cycles + m.Budget()
    ensures m.Timed() ==> Batch(b, m, end).Timed()
    ensures 0 <= Batch(b, m, end).Budget() <= m.Budget()
    ensures m.cycles < end && !Batch(b, m, end).stopRequested ==> Batch(b, m, end).Budget() < m.Budget()
    decreases end - m.cycles
  {
    if m.cycles < end {
      var x := Executed(b, m);
      ExecutedTime(b, m);
      if !BatchBroken(x) && x.cycles < EndAfter(b, x, end) {
        BatchTime(b, x, EndAfter(b, x, end));
      }
    }
  }

  lemma StepsToZero(pc: Pc, target: Pc)
    ensures StepsTo(pc, target) == 0 <==> pc == target
  {
  }

  lemma {:induction false} NearestZero(breakpoints: seq<Pc>, pc: Pc)
    ensures Nearest(breakpoints, pc) == 0 <==> pc in breakpoints
  {
    if breakpoints != [] {
      StepsToZero(pc, breakpoints[0]);
      NearestZero(breakpoints[1..], pc);
    }
  }

  lemma DistanceExact(pc: Pc, target: Pc)
    ensures 4 * StepsTo(pc, target) == if target >= pc then target - pc else target - pc + TWO32
  {
    assert Wrap32(target - pc) == if target >= pc then target - pc else target - pc + TWO32;
  }

  lemma StepsToExact(pc: Pc, target: Pc)
    ensures (pc + 4 * StepsTo(pc, target)) % 0x1_0000_0000 == target
    ensures forall k: nat | (pc + 4 * k) % 0x1_0000_0000 == target :: StepsTo(pc, target) <= k
  {
    DistanceExact(pc, target);
    hide StepsTo;
  }

  // Straight-line execution meets no breakpoint before the nearest, and there it does.
  lemma {:induction false} NearestExact(breakpoints: seq<Pc>, pc: Pc)
    ensures var n := Nearest(breakpoints, pc);
            && (breakpoints != [] ==> (pc + 4 * n) % 0x1_0000_0000 in breakpoints)
            && forall k | 0 <= k < n :: (pc + 4 * k) % 0x1_0000_0000 !in breakpoints
  {
    if breakpoints != [] {
      StepsToExact(pc, breakpoints[0]);
      NearestExact(breakpoints[1..], pc);
    }
  }

  // A round whose batch is empty stands at a breakpoint.
  lemma EmptyBatch<A>(b: Board<A>, m: Machine<A>, g: Granularity)
    requires m.cycles < m.limit
    ensures m.cycles >= BatchEnd(b, m, g) <==> AtBreakpoint(b, m)
  {
    NearestZero(b.breakpoints, m.cpu.nextPc);
    NextTickRange(m.timer);
  }

  lemma EntryMasks(status: bv32, delaySlot: bool)
    ensures !Has(EntryStatus(status, delaySlot), SR_TEE) && !Has(EntryStatus(status, delaySlot), SR_IEE)
  {
  }

  // Taking an interrupt masks both kinds; not taking it leaves the registers alone.
  lemma InterruptTaken<A>(c: Cpu<A>, e: Exception)
    requires e == TickTimer || e == External
    ensures Masked(c.status, e) ==> Raised(c, e, 0) == c
    ensures !Masked(c.status, e) ==> Interruptible(c) && !Interruptible(Raised(c, e, 0))
  {
    EntryMasks(c.status, c.InDelaySlot());
    hide EntryPc, ResumePc, Cleared, EntryStatus, Has;
  }

  lemma SettledRegisters<A>(m: Machine<A>)
    ensures Settled(m).cpu == m.cpu || (Interruptible(m.cpu) && !Interruptible(Settled(m).cpu))
  {
    InterruptTaken(m.cpu, TickTimer);
    InterruptTaken(TimerUpdated(m).cpu, External);
    hide Raised, Interruptible, Masked, Updated, Has;
  }

  lemma SettledTime<A>(m: Machine<A>)
    ensures Settled(m).cycles == m.cycles && Settled(m).limit == m.limit && Settled(m).trace == m.trace
    ensures Settled(m).watchHit == m.watchHit && Settled(m).Timed()
  {
  }

  lemma RoundProgress<A>(b: Board<A>, m: Machine<A>, g: Granularity)
    requires m.cycles < m.limit
    ensures var x := Batch(b, Rearmed(m), BatchEnd(b, m, g));
            var y := Settled(x);
            !x.stopRequested && !AtBreakpoint(b, y)
            ==> 0 <= y.Budget() && (y.Budget() < m.Budget()
                || (y.Budget() == m.Budget() && Interruptible(m.cpu) && !Interruptible(y.cpu)))
  {
    var end := BatchEnd(b, m, g);
    var x := Batch(b, Rearmed(m), end);
    EmptyBatch(b, m, g);
    SettledRegisters(x);
    SettledTime(x);
    if m.cycles < end {
      BatchTime(b, Rearmed(m), end);
    }
  }
}
