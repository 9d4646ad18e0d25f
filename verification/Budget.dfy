/** Two properties of every run of the main loop, whatever the timer and the interrupt lines do: the
    quantum is spent exactly on instructions and sleep, and no instruction at a breakpoint is executed. */
module Budget {
  import opened Words
  import opened Ticking
  import opened Core
  import opened Quantum

  // ---- The quantum is spent on counted instructions and on sleep

  predicate FallsAsleep<A>(a: Action<A>) {
    a.WriteSpr? && a.w.ToPmr? && Has(a.w.bits, PMR_DOZE)
  }

  // The environment never sleeps for us.
  ghost predicate NeverWoken<A>(b: Board<A>) {
    forall target :: b.sleep(target) == 0
  }

  // From m to r, `counted` cycles of the quantum went to instructions; the rest was slept.  Sleep
  // on our behalf extends the quantum, so it takes nothing from it.
  ghost predicate Spends<A>(b: Board<A>, m: Machine<A>, r: Machine<A>, counted: int) {
    var skipped := m.Budget() - r.Budget() - counted;
    var slept := r.sleepCycles - m.sleepCycles;
    counted >= 0 && 0 <= skipped <= slept && (NeverWoken(b) ==> skipped == slept)
  }

  lemma DozedSpends<A>(b: Board<A>, m: Machine<A>)
    ensures Spends(b, m, Dozed(b, m), 0)
  {
    TimerUpdatedOnward(Skipped(m, SleepTarget(m.timer)));
    hide SleepTarget, Updated, Raised, Has;
  }

  lemma AppliedSpends<A>(b: Board<A>, m: Machine<A>, a: Action<A>)
    ensures Spends(b, m, Applied(b, m, a), 0)
  {
    if a.WriteSpr? && a.w.ToPmr? {
      DozedSpends(b, m.(breakRequested := true, cpu := m.cpu.(pmr := a.w.bits)));
    }
    hide Dozed, Raised, ScheduledJump, Returned, Flagged, RegisterWritten, Has, NeverWoken;
  }

  lemma {:induction false} AppliedAllSpends<A>(b: Board<A>, m: Machine<A>, actions: seq<Action<A>>)
    ensures Spends(b, m, AppliedAll(b, m, actions), 0)
    decreases |actions|
  {
    hide Applied;
    if actions != [] {
      AppliedSpends(b, m, actions[0]);
      AppliedAllSpends(b, Applied(b, m, actions[0]), actions[1..]);
    }
  }

  // Every instruction is counted, but for the nop that stops the simulation.
  function Counted<A>(from: Machine<A>, m: Machine<A>): int {
    |m.trace| - |from.trace| - (if m.stopRequested then 1 else 0)
  }

  lemma ExecutedSpends<A>(b: Board<A>, m: Machine<A>)
    requires !m.stopRequested
    ensures Spends(b, m, Executed(b, m), Counted(m, Executed(b, m)))
  {
    ExecutedTime(b, m);
    var s := Begun(m);
    var fx := b.program(s.cpu, s.cycles, s.timer);
    hide AppliedAll, Retired;
    if fx.Act? {
      AppliedAllOnward(b, s, fx.actions);
      AppliedAllSpends(b, s, fx.actions);
    }
  }

  lemma {:induction false} BatchSpends<A>(b: Board<A>, m: Machine<A>, end: nat)
    requires !m.stopRequested
    ensures Spends(b, m, Batch(b, m, end), Counted(m, Batch(b, m, end)))
    decreases end - m.cycles
  {
    hide Executed;
    if m.cycles < end {
      var x := Executed(b, m);
      ExecutedTime(b, m);
      ExecutedSpends(b, m);
      if !BatchBroken(x) {
        BatchSpends(b, x, EndAfter(b, x, end));
      }
    }
  }

  lemma SettledSpends<A>(b: Board<A>, m: Machine<A>)
    ensures Spends(b, m, Settled(m), 0) && Settled(m).stopRequested == m.stopRequested
  {
    hide Updated, Raised, NeverWoken;
  }

  lemma {:induction false} RoundsSpend<A>(b: Board<A>, m: Machine<A>, g: Granularity)
    requires 0 <= m.Budget()
    ensures var r := Rounds(b, m, g);
            && Spends(b, m, r.machine, Executions(m, r))
            && 0 <= r.machine.Budget() <= m.Budget()
            && (r.result == StepOk ==> r.machine.Budget() == 0)
    decreases m.Budget(), Interruptible(m.cpu)
  {
    hide Settled, Batch, BatchEnd;
    if m.cycles < m.limit {
      var end := BatchEnd(b, m, g);
      var x := Batch(b, Rearmed(m), end);
      BatchSpends(b, Rearmed(m), end);
      EndWithin(b, m, g);
      BatchTime(b, Rearmed(m), end);
      RoundProgress(b, m, g);
      SettledTime(x);
      SettledSpends(b, x);
      var y := Settled(x);
      if !x.stopRequested && !AtBreakpoint(b, y) && !y.watchHit {
        RoundsSpend(b, y, g);
      }
    }
  }

  lemma EndWithin<A>(b: Board<A>, m: Machine<A>, g: Granularity)
    requires m.cycles < m.limit
    ensures BatchEnd(b, m, g) <= m.limit
  {
  }

  // The instructions counted by a run.
  function Executions<A>(m: Machine<A>, r: Outcome<A>): int {
    |r.machine.trace| - |m.trace| - (if r.result == StepExit then 1 else 0)
  }

  // What `step` reports: the quantum corrected by what is left of it.
  function Reported<A>(quantum: U32, m: Machine<A>): int {
    quantum + m.cycles - m.limit
  }

  lemma PolledPower<A>(m: Machine<A>)
    ensures Has(Polled(m).cpu.pmr, PMR_DOZE) ==> Has(m.cpu.pmr, PMR_DOZE)
    ensures Polled(m).Budget() == m.Budget() && Polled(m).sleepCycles == m.sleepCycles
  {
  }

  lemma EnteredSpends<A>(b: Board<A>, m: Machine<A>, quantum: U32)
    ensures Spends(b, m.(limit := m.cycles + quantum), Entered(b, m, quantum), 0)
  {
    hide Dozed, Polled, Spends;
    PolledSpends(b, m.(limit := m.cycles + quantum));
  }

  lemma PolledSpends<A>(b: Board<A>, m: Machine<A>)
    ensures Spends(b, m, Dozed(b, Polled(m)), 0)
  {
    hide Dozed, Polled, NeverWoken;
    PolledPower(m);
    DozedSpends(b, Polled(m));
  }

  // A call reports at least the instructions it counted and at most these and the cycles slept,
  // whatever the latency of memory.  If the environment never sleeps for us it reports both, and if
  // nothing was slept exactly the instructions.  One that runs to its end reports the quantum.
  lemma ExactBudget<A>(b: Board<A>, m: Machine<A>, quantum: U32, g: Granularity)
    ensures var r := Advanced(b, m, quantum, g);
            var counted := Executions(m, r);
            var slept := r.machine.sleepCycles - m.sleepCycles;
            var reported := Reported(quantum, r.machine);
            && 0 <= counted <= reported <= counted + slept
            && reported <= quantum
            && (r.result == StepOk ==> reported == quantum)
            && (slept == 0 ==> reported == counted)
            && (NeverWoken(b) ==> reported == counted + slept)
  {
    EnteredTime(b, m, quantum);
    EnteredSpends(b, m, quantum);
    hide Rounds, Entered, NeverWoken;
    RoundsSpend(b, Entered(b, m, quantum), g);
  }

  // ---- What the results mean

  // A breakpoint is reported at one, before a watchpoint that was hit; else the quantum is spent.
  lemma {:induction false} RoundsMean<A>(b: Board<A>, m: Machine<A>, g: Granularity)
    ensures var r := Rounds(b, m, g);
            match r.result
            case StepOk => r.machine.cycles >= r.machine.limit
            case StepExit => r.machine.stopRequested
            case StepBreakpoint => r.machine.cpu.nextPc in b.breakpoints
            case StepWatchpoint => r.machine.watchHit && r.machine.cpu.nextPc !in b.breakpoints
    decreases m.Budget(), Interruptible(m.cpu)
  {
    hide Settled, Batch, BatchEnd;
    if m.cycles < m.limit {
      var x := Batch(b, Rearmed(m), BatchEnd(b, m, g));
      RoundProgress(b, m, g);
      var y := Settled(x);
      if !x.stopRequested && !AtBreakpoint(b, y) && !y.watchHit {
        RoundsMean(b, y, g);
      }
    }
  }

  lemma ResultsExact<A>(b: Board<A>, m: Machine<A>, quantum: U32, g: Granularity)
    ensures var r := Advanced(b, m, quantum, g);
            match r.result
            case StepOk => r.machine.cycles >= r.machine.limit
            case StepExit => r.machine.stopRequested
            case StepBreakpoint => r.machine.cpu.nextPc in b.breakpoints
            case StepWatchpoint => r.machine.watchHit && r.machine.cpu.nextPc !in b.breakpoints
  {
    RoundsMean(b, Entered(b, m, quantum), g);
    hide Rounds, Entered;
  }

  // ---- Breakpoints are never stepped over

  predicate Avoids(breakpoints: seq<Pc>, trace: seq<Pc>, from: nat) {
    forall k | from <= k < |trace| :: trace[k] !in breakpoints
  }

  lemma AppliedPc<A>(b: Board<A>, m: Machine<A>, a: Action<A>)
    ensures !Applied(b, m, a).breakRequested ==> Applied(b, m, a).cpu.nextPc == m.cpu.nextPc
  {
    if a.WriteSpr? {
      SprWrittenOnward(b, m, a.w);
    }
  }

  lemma {:induction false} AppliedAllPc<A>(b: Board<A>, m: Machine<A>, actions: seq<Action<A>>)
    ensures !AppliedAll(b, m, actions).breakRequested
            ==> AppliedAll(b, m, actions).cpu.nextPc == m.cpu.nextPc
    decreases |actions|
  {
    if actions != [] {
      var r := Applied(b, m, actions[0]);
      AppliedPc(b, m, actions[0]);
      AppliedAllPc(b, r, actions[1..]);
      AppliedAllOnward(b, r, actions[1..]);
    }
  }

  // Unless the batch is broken, the program counter moves to the next word or to the jump target.
  lemma ExecutedPc<A>(b: Board<A>, m: Machine<A>)
    ensures var x := Executed(b, m);
            !BatchBroken(x) && !x.cpu.InDelaySlot() ==> x.cpu.nextPc == Wrap32(m.cpu.nextPc + 4)
  {
    var s := Begun(m);
    var fx := b.program(s.cpu, s.cycles, s.timer);
    if fx.Act? {
      AppliedAllPc(b, s, fx.actions);
    }
  }

  lemma Distance(pc: Pc, target: Pc)
    ensures Wrap32(target - pc) == if target >= pc then target - pc else target - pc + TWO32
    ensures Wrap32(pc + 4) == if pc + 4 == TWO32 then 0 else pc + 4
  {
  }

  lemma StepsToStep(pc: Pc, next: Pc, target: Pc)
    requires next == Wrap32(pc + 4) && StepsTo(pc, target) != 0
    ensures StepsTo(next, target) == StepsTo(pc, target) - 1
  {
    Distance(pc, target);
    Distance(next, target);
    hide Wrap32;
  }

  lemma {:induction false} NearestStep(breakpoints: seq<Pc>, pc: Pc, next: Pc)
    requires next == Wrap32(pc + 4) && Nearest(breakpoints, pc) != 0
    ensures Nearest(breakpoints, next) >= Nearest(breakpoints, pc) - 1
  {
    hide StepsTo, Wrap32;
    if breakpoints != [] {
      StepsToStep(pc, next, breakpoints[0]);
      NearestStep(breakpoints[1..], pc, next);
    }
  }

  // The end of the batch never lies beyond the nearest breakpoint.
  lemma EndStaysNear<A>(b: Board<A>, m: Machine<A>, end: nat)
    requires m.cycles < end <= m.cycles + Nearest(b.breakpoints, m.cpu.nextPc)
    ensures var x := Executed(b, m);
            !BatchBroken(x) ==> EndAfter(b, x, end) <= x.cycles + Nearest(b.breakpoints, x.cpu.nextPc)
  {
    ExecutedTime(b, m);
    ExecutedPc(b, m);
    NearestStep(b.breakpoints, m.cpu.nextPc, Wrap32(m.cpu.nextPc + 4));
  }

  lemma {:induction false} BatchAvoidsBreakpoints<A>(b: Board<A>, m: Machine<A>, end: nat, from: nat)
    requires end <= m.cycles + Nearest(b.breakpoints, m.cpu.nextPc)
    requires Avoids(b.breakpoints, m.trace, from)
    ensures Avoids(b.breakpoints, Batch(b, m, end).trace, from)
    decreases end - m.cycles
  {
    if m.cycles < end {
      var x := Executed(b, m);
      ExecutedTime(b, m);
      NearestZero(b.breakpoints, m.cpu.nextPc);
      if !BatchBroken(x) {
        EndStaysNear(b, m, end);
        BatchAvoidsBreakpoints(b, x, EndAfter(b, x, end), from);
      }
    }
  }

  lemma {:induction false} RoundsAvoidBreakpoints<A>(b: Board<A>, m: Machine<A>, g: Granularity, from: nat)
    requires Avoids(b.breakpoints, m.trace, from)
    ensures Avoids(b.breakpoints, Rounds(b, m, g).machine.trace, from)
    decreases m.Budget(), Interruptible(m.cpu)
  {
    if m.cycles < m.limit {
      var end := BatchEnd(b, m, g);
      var x := Batch(b, Rearmed(m), end);
      NearestZero(b.breakpoints, m.cpu.nextPc);
      BatchAvoidsBreakpoints(b, Rearmed(m), end, from);
      RoundProgress(b, m, g);
      SettledTime(x);
      var y := Settled(x);
      if !x.stopRequested && !AtBreakpoint(b, y) && !y.watchHit {
        RoundsAvoidBreakpoints(b, y, g, from);
      }
    }
  }

  // No call of `advance` executes an instruction at a breakpoint: not after jumps, exceptions,
  // interrupts, slow memory accesses or sleep.
  lemma BreakpointsNeverSteppedOver<A>(b: Board<A>, m: Machine<A>, quantum: U32, g: Granularity)
    ensures Avoids(b.breakpoints, Advanced(b, m, quantum, g).machine.trace, |m.trace|)
  {
    EnteredTime(b, m, quantum);
    RoundsAvoidBreakpoints(b, Entered(b, m, quantum), g, |m.trace|);
  }
}
