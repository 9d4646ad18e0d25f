/** Batching is invisible.  `advance` run in mini-quanta reaches the same step result and the same
    machine as the reference that updates the timer and looks for interrupts, breakpoints and
    watchpoints after every instruction. */
module Batching {
  import opened Words
  import opened Ticking
  import opened Core
  import opened Quantum
  import opened TimerLag
  import Budget

  // ---- No interrupt is waiting to be taken

  predicate Quiet<A>(c: Cpu<A>, t: Timer) {
    && !(t.Enabled() && t.IrqPending() && Has(c.status, SR_TEE))
    && !(c.InterruptLine() && Has(c.status, SR_IEE))
  }

  // Interrupts are unmasked only by instructions that break the batch.
  predicate NoNewInterrupts<A>(c: Cpu<A>, d: Cpu<A>) {
    && (Has(d.status, SR_TEE) ==> Has(c.status, SR_TEE))
    && (Has(d.status, SR_IEE) ==> Has(c.status, SR_IEE))
    && d.picMr == c.picMr && d.picSr == c.picSr
  }

  lemma RaisedQuietly<A>(c: Cpu<A>, e: Exception, addr: U32)
    ensures NoNewInterrupts(c, Raised(c, e, addr))
  {
    hide EntryPc, ResumePc, Cleared, EntryStatus, Has, Masked;
    var entry := EntryStatus(c.status, c.InDelaySlot());
    assert Raised(c, e, addr).status == c.status || Raised(c, e, addr).status == entry;
    EntryMasks(c.status, c.InDelaySlot());
  }

  lemma ScheduledJumpQuietly<A>(c: Cpu<A>, target: U32, delay: nat)
    ensures NoNewInterrupts(c, ScheduledJump(c, target, delay))
  {
    hide Raised;
    if !WordAligned(target) {
      RaisedQuietly(c.(jumpInsn := c.instructions + delay), InsnAlignment, target);
    }
  }

  lemma AppliedQuietly<A>(b: Board<A>, m: Machine<A>, a: Action<A>)
    ensures !Applied(b, m, a).breakRequested ==> NoNewInterrupts(m.cpu, Applied(b, m, a).cpu)
  {
    hide Raised, Returned, SprWritten, ScheduledJump, Flagged;
    match a
    case WriteSpr(w) => SprWrittenOnward(b, m, w);
    case Raise(e, addr) => RaisedQuietly(m.cpu, e, addr);
    case Jump(target, delay) => ScheduledJumpQuietly(m.cpu, target, delay);
    case SetFlag(f, on) => FlagsQuiet(m.cpu.status, f, on);
    case _ =>
  }

  lemma FlagsQuiet(status: bv32, f: Flag, on: bool)
    ensures Has(Flagged(status, f, on), SR_TEE) == Has(status, SR_TEE)
    ensures Has(Flagged(status, f, on), SR_IEE) == Has(status, SR_IEE)
  {
  }

  lemma {:induction false} AppliedAllQuietly<A>(b: Board<A>, m: Machine<A>, actions: seq<Action<A>>)
    ensures !AppliedAll(b, m, actions).breakRequested ==> NoNewInterrupts(m.cpu, AppliedAll(b, m, actions).cpu)
    decreases |actions|
  {
    hide Applied;
    if actions != [] {
      var r := Applied(b, m, actions[0]);
      AppliedQuietly(b, m, actions[0]);
      AppliedAllQuietly(b, r, actions[1..]);
      AppliedAllOnward(b, r, actions[1..]);
    }
  }

  lemma RetiredQuietly<A>(c: Cpu<A>)
    ensures NoNewInterrupts(c, Retired(c))
  {
    assert Has(Fixed(c.status), SR_TEE) == Has(c.status, SR_TEE);
    assert Has(Fixed(c.status), SR_IEE) == Has(c.status, SR_IEE);
    hide Has;
  }

  lemma QuietStays<A>(c: Cpu<A>, d: Cpu<A>, t: Timer)
    requires Quiet(c, t) && NoNewInterrupts(c, d)
    ensures Quiet(d, t)
  {
    hide Has, Timer.IrqPending, Timer.Enabled;
  }

  lemma CausedQuietly<A>(b: Board<A>, s: Machine<A>, fx: Effect<A>, t: Timer)
    requires s.cycles > 0 && s.cpu.instructions > 0 && Quiet(s.cpu, t)
    ensures !BatchBroken(Caused(b, s, fx)) ==> Quiet(Caused(b, s, fx).cpu, t)
  {
    hide AppliedAll, Quiet;
    if fx.Act? {
      var r := AppliedAll(b, s, fx.actions);
      AppliedAllQuietly(b, s, fx.actions);
      if !r.breakRequested {
        QuietStays(s.cpu, r.cpu, t);
      }
    }
  }

  lemma ExecutedQuietly<A>(b: Board<A>, m: Machine<A>, t: Timer)
    requires Quiet(m.cpu, t)
    ensures !BatchBroken(Executed(b, m)) ==> Quiet(Executed(b, m).cpu, t)
  {
    var s := Begun(m);
    QuietStays(m.cpu, s.cpu, t);
    hide Quiet, Caused, Retired, Has;
    var p := Caused(b, s, b.program(s.cpu, s.cycles, s.timer));
    CausedQuietly(b, s, b.program(s.cpu, s.cycles, s.timer), t);
    if !BatchBroken(p) {
      RetiredQuietly(p.cpu);
      QuietStays(p.cpu, Retired(p.cpu), t);
    }
  }

  // ---- Settling

  // When nothing is waiting, settling is charging.
  lemma SettledIsCharged<A>(m: Machine<A>)
    requires Quiet(m.cpu, Updated(m.timer, m.Elapsed()))
    ensures Settled(m) == Charged(m)
  {
    UpdatedMode(m.timer, m.Elapsed());
    hide Updated;
    if !m.timer.Enabled() {
      assert Updated(m.timer, m.Elapsed()) == m.timer by {
        DisabledStands(m.timer, m.Elapsed());
      }
    }
  }

  lemma TimerUpdatedQuiet<A>(m: Machine<A>)
    ensures var u := TimerUpdated(m);
            && !(u.timer.Enabled() && u.timer.IrqPending() && Has(u.cpu.status, SR_TEE))
            && u.tickUpdate == u.cycles == m.cycles
    ensures !(m.cpu.InterruptLine() && Has(m.cpu.status, SR_IEE))
            ==> Quiet(TimerUpdated(m).cpu, TimerUpdated(m).timer)
  {
    UpdatedMode(m.timer, m.Elapsed());
    RaisedQuietly(m.cpu, TickTimer, 0);
    InterruptTaken(m.cpu, TickTimer);
    hide Updated, Raised, Has;
  }

  lemma PolledQuiet<A>(m: Machine<A>)
    requires !(m.timer.Enabled() && m.timer.IrqPending() && Has(m.cpu.status, SR_TEE))
    ensures Quiet(Polled(m).cpu, m.timer)
  {
    RaisedQuietly(m.cpu, External, 0);
    InterruptTaken(m.cpu, External);
    hide Raised, Has;
  }

  lemma SettledQuiet<A>(m: Machine<A>)
    ensures Quiet(Settled(m).cpu, Settled(m).timer)
    ensures Settled(m).tickUpdate == Settled(m).cycles
  {
    TimerUpdatedQuiet(m);
    hide TimerUpdated, Has;
    PolledQuiet(TimerUpdated(m));
    hide Quiet, Raised;
  }

  // ---- The simulation

  // What follows the end of a batch.
  function Concluded<A>(b: Board<A>, x: Machine<A>, g: Granularity): Outcome<A> {
    if x.stopRequested then Outcome(StepExit, x)
    else
      var y := Settled(x);
      if AtBreakpoint(b, y) then Outcome(StepBreakpoint, y)
      else if y.watchHit then Outcome(StepWatchpoint, y)
      else Rounds(b, y, g)
  }

  lemma RoundsConclude<A>(b: Board<A>, m: Machine<A>, g: Granularity)
    requires m.cycles < m.limit
    ensures Rounds(b, m, g) == Concluded(b, Batch(b, Rearmed(m), BatchEnd(b, m, g)), g)
  {
  }

  // Equal results in equal machines.  A run stopped by the program leaves its last batch
  // uncharged; there the machines agree once both are charged.
  ghost predicate Indistinguishable<A>(x: Outcome<A>, y: Outcome<A>) {
    && x.result == y.result
    && (x.result == StepExit ==> Charged(x.machine) == Charged(y.machine))
    && (x.result != StepExit ==> x.machine == y.machine)
  }

  // In the instruction-by-instruction run, no instruction uses the timer, or falls asleep for the
  // timer to wake the core.
  ghost predicate RunBlind<A>(b: Board<A>, m: Machine<A>)
    decreases m.Budget(), Interruptible(m.cpu)
  {
    m.cycles < m.limit ==>
      var x := Batch(b, Rearmed(m), BatchEnd(b, m, SingleInstruction));
      RoundProgress(b, m, SingleInstruction);
      && (AtBreakpoint(b, m) || BlindAt(b, Rearmed(m)))
      && (x.stopRequested || AtBreakpoint(b, Settled(x)) || Settled(x).watchHit || RunBlind(b, Settled(x)))
  }

  // Besides, a count past its limit that has an interrupt to raise never runs through its 28-bit
  // wrap.
  ghost predicate Undisturbed<A>(b: Board<A>, m: Machine<A>)
    decreases m.Budget(), Interruptible(m.cpu)
  {
    m.cycles < m.limit ==>
      var x := Batch(b, Rearmed(m), BatchEnd(b, m, SingleInstruction));
      RoundProgress(b, m, SingleInstruction);
      && (AtBreakpoint(b, m) || BlindAt(b, Rearmed(m)))
      && (x.stopRequested ||
          (WrapFree(x.timer, x.Elapsed()) &&
           (AtBreakpoint(b, Settled(x)) || Settled(x).watchHit || Undisturbed(b, Settled(x)))))
  }

  // The state within a mini-quantum, before its next instruction.
  ghost predicate MidBatch<A>(b: Board<A>, s: Machine<A>, end: nat) {
    && s.Timed() && !BatchBroken(s)
    && s.cycles < end <= s.limit
    && end <= s.cycles + Nearest(b.breakpoints, s.cpu.nextPc)
    && (s.timer.Enabled() ==> end <= s.tickUpdate + s.timer.NextTick())
    && Quiet(s.cpu, s.timer)
    && WrapFree(s.timer, s.Elapsed())
  }

  // One instruction of the reference, from the charged state.
  lemma SingleBatch<A>(b: Board<A>, r: Machine<A>)
    requires r.cycles < r.limit && !BatchBroken(r) && !AtBreakpoint(b, r)
    ensures Rounds(b, r, SingleInstruction) == Concluded(b, Executed(b, r), SingleInstruction)
    ensures Undisturbed(b, r) ==> BlindAt(b, r)
    ensures Undisturbed(b, r) && !Executed(b, r).stopRequested ==>
              var x := Executed(b, r);
              && WrapFree(x.timer, x.Elapsed())
              && (AtBreakpoint(b, Settled(x)) || Settled(x).watchHit || Undisturbed(b, Settled(x)))
  {
    hide Executed, Settled, BlindAt;
    ExecutedTime(b, r);
    RoundsConclude(b, r, SingleInstruction);
    assert Rearmed(r) == r;
    assert Batch(b, r, r.cycles + 1) == Executed(b, r);
  }

  // The instruction that follows leaves the charged machine of the batch where the reference is.
  lemma ChargedStep<A>(b: Board<A>, s: Machine<A>)
    requires BlindAt(b, Charged(s)) && s.Timed() && !BatchBroken(s)
    requires s.timer.Enabled() ==> s.Elapsed() < s.timer.NextTick()
    requires WrapFree(s.timer, s.Elapsed())
    ensures var x, y := Executed(b, s), Executed(b, Charged(s));
            && Alike(x, y) && BatchBroken(x) == BatchBroken(y)
            && (!BatchBroken(x) ==> x.timer == s.timer && x.tickUpdate == s.tickUpdate)
            && (WrapFree(y.timer, y.Elapsed()) ==> WrapFree(x.timer, x.Elapsed()))
  {
    hide Executed, BlindAt, WrapFree, Updated, Timer.Enabled, Timer.NextTick;
    ChargedAlike(s);
    ExecutedAlike(b, s, Charged(s));
    ExecutedTimer(b, s);
    var x, y := Executed(b, s), Executed(b, Charged(s));
    assert FreeLater(y, 0) ==> FreeLater(x, 0);
  }

  // Before the tick is due, no batch raises the pending bit.
  lemma NothingPends<A>(x: Machine<A>, end: nat)
    requires x.Timed() && x.cycles < end
    requires x.timer.Enabled() ==> end <= x.tickUpdate + x.timer.NextTick()
    requires Quiet(x.cpu, x.timer) && WrapFree(x.timer, x.Elapsed())
    ensures Quiet(x.cpu, Updated(x.timer, x.Elapsed()))
    ensures Settled(x) == Charged(x)
  {
    if x.timer.Enabled() {
      UpdateSplit(x.timer, x.Elapsed(), 0);
    }
    SettledIsCharged(x);
  }

  // The batch goes on: the next state is again in mid-batch, and the reference has seen no
  // interrupt, breakpoint or watchpoint either.
  lemma BatchGoesOn<A>(b: Board<A>, s: Machine<A>, end: nat)
    requires MidBatch(b, s, end) && Undisturbed(b, Charged(s))
    ensures var x := Executed(b, s);
            !BatchBroken(x) && x.cycles < EndAfter(b, x, end) ==>
              && MidBatch(b, x, EndAfter(b, x, end))
              && Undisturbed(b, Charged(x))
              && Rounds(b, Charged(s), SingleInstruction) == Rounds(b, Charged(x), SingleInstruction)
  {
    var x := Executed(b, s);
    var y := Executed(b, Charged(s));
    var next := EndAfter(b, x, end);
    if !BatchBroken(x) && x.cycles < next {
      MidBatchNearest(b, s, end);
      SingleBatch(b, Charged(s));
      ChargedStep(b, s);
      ExecutedTime(b, s);
      EndAfterBounds(b, s, end);
      ExecutedQuietly(b, s, s.timer);
      NearestNotHere(b, x, next);
      hide Executed, EndAfter;
      NothingPends(x, next);
      SettledAlike(x, y);
      hide Settled, BlindAt, Alike;
      assert Settled(y) == Charged(x);
      assert !AtBreakpoint(b, Charged(x)) && !Charged(x).watchHit;
    }
  }

  lemma NearestNotHere<A>(b: Board<A>, m: Machine<A>, end: nat)
    requires m.cycles < end <= m.cycles + Nearest(b.breakpoints, m.cpu.nextPc)
    ensures !AtBreakpoint(b, m)
  {
    NearestZero(b.breakpoints, m.cpu.nextPc);
  }

  lemma MidBatchNearest<A>(b: Board<A>, s: Machine<A>, end: nat)
    requires MidBatch(b, s, end)
    ensures !AtBreakpoint(b, Charged(s)) && !BatchBroken(Charged(s)) && s.cycles < s.limit
    ensures s.timer.Enabled() ==> s.Elapsed() < s.timer.NextTick()
  {
    NearestNotHere(b, s, end);
  }

  lemma EndAfterBounds<A>(b: Board<A>, s: Machine<A>, end: nat)
    requires s.cycles < end <= s.cycles + Nearest(b.breakpoints, s.cpu.nextPc)
    ensures var x := Executed(b, s);
            && EndAfter(b, x, end) <= end
            && (!BatchBroken(x) ==> EndAfter(b, x, end) <= x.cycles + Nearest(b.breakpoints, x.cpu.nextPc))
  {
    Budget.EndStaysNear(b, s, end);
  }

  // The batch from s, followed by whatever follows it, is what the reference does from the
  // charged s; and both loops agree from every state between batches.
  lemma {:induction false} BatchSimulates<A>(b: Board<A>, s: Machine<A>, end: nat)
    requires MidBatch(b, s, end) && Undisturbed(b, Charged(s))
    ensures Indistinguishable(Concluded(b, Batch(b, s, end), MiniQuantum),
                              Rounds(b, Charged(s), SingleInstruction))
    decreases s.Budget(), false, 0
  {
    var x := Executed(b, s);
    var y := Executed(b, Charged(s));
    MidBatchNearest(b, s, end);
    SingleBatch(b, Charged(s));
    ChargedStep(b, s);
    ExecutedTime(b, s);
    BatchGoesOn(b, s, end);
    SettledAlike(x, y);
    OnlyTimers(x, y);
    hide Executed, Settled, EndAfter, Rounds, BlindAt, Alike;
    if !BatchBroken(x) && x.cycles < EndAfter(b, x, end) {
      BatchSimulates(b, x, EndAfter(b, x, end));
    } else {
      assert Batch(b, s, end) == x;
      if !x.stopRequested {
        SettledQuiet(x);
        SettledTime(x);
        if !AtBreakpoint(b, Settled(x)) && !Settled(x).watchHit {
          RoundsSimulate(b, Settled(x));
        }
      }
    }
  }

  lemma RearmedTwice<A>(b: Board<A>, m: Machine<A>, g: Granularity)
    ensures Rearmed(Rearmed(m)) == Rearmed(m) && BatchEnd(b, Rearmed(m), g) == BatchEnd(b, m, g)
  {
    hide Nearest, Timer.NextTick, Timer.Enabled;
  }

  lemma RoundsRearmed<A>(b: Board<A>, m: Machine<A>, g: Granularity)
    requires m.cycles < m.limit
    ensures Rounds(b, Rearmed(m), g) == Rounds(b, m, g)
  {
    RearmedTwice(b, m, g);
    hide Concluded, Rounds, BatchEnd, Batch;
    RoundsConclude(b, m, g);
    RoundsConclude(b, Rearmed(m), g);
  }

  lemma UndisturbedRearmed<A>(b: Board<A>, m: Machine<A>)
    requires m.cycles < m.limit && Undisturbed(b, m)
    ensures Undisturbed(b, Rearmed(m))
  {
    RearmedTwice(b, m, SingleInstruction);
    hide Batch, Settled, BatchEnd, BlindAt, WrapFree;
  }

  lemma BatchStarts<A>(b: Board<A>, m: Machine<A>)
    requires m.cycles < m.limit && !AtBreakpoint(b, m) && m.tickUpdate == m.cycles && Quiet(m.cpu, m.timer)
    ensures MidBatch(b, Rearmed(m), BatchEnd(b, m, MiniQuantum)) && Charged(Rearmed(m)) == Rearmed(m)
  {
    EmptyBatch(b, m, MiniQuantum);
    UpdatedByZero(m.timer);
    NextTickRange(m.timer);
    hide Updated, Quiet, Nearest, Timer.NextTick, Timer.Enabled;
  }

  // A round that does not stand at a breakpoint enters its batch with a charged timer.
  lemma RoundEntersBatch<A>(b: Board<A>, m: Machine<A>)
    requires m.cycles < m.limit && !AtBreakpoint(b, m)
    requires m.tickUpdate == m.cycles && Quiet(m.cpu, m.timer) && Undisturbed(b, m)
    ensures var s := Rearmed(m);
            && MidBatch(b, s, BatchEnd(b, m, MiniQuantum)) && Charged(s) == s && Undisturbed(b, s)
            && Rounds(b, m, SingleInstruction) == Rounds(b, s, SingleInstruction)
  {
    hide *;
    BatchStarts(b, m);
    UndisturbedRearmed(b, m);
    RoundsRearmed(b, m, SingleInstruction);
  }

  // At a breakpoint both loops pass through an empty batch.
  lemma BreakpointRound<A>(b: Board<A>, m: Machine<A>, g: Granularity)
    requires m.cycles < m.limit && AtBreakpoint(b, m) && m.tickUpdate == m.cycles && Undisturbed(b, m)
    ensures Rounds(b, m, g) == Concluded(b, Rearmed(m), g)
    ensures var y := Settled(Rearmed(m));
            && y.tickUpdate == y.cycles && Quiet(y.cpu, y.timer)
            && (!AtBreakpoint(b, y) && !y.watchHit ==>
                  (Undisturbed(b, y) && y.Budget() == m.Budget()
                   && Interruptible(m.cpu) && !Interruptible(y.cpu)))
  {
    EmptyBatch(b, m, g);
    EmptyBatch(b, m, SingleInstruction);
    RoundsConclude(b, m, g);
    SettledQuiet(Rearmed(m));
    SettledTime(Rearmed(m));
    SettledRegisters(Rearmed(m));
    hide Settled, Quiet, Concluded, BatchEnd, Interruptible, Rounds;
  }

  lemma {:induction false} RoundsSimulate<A>(b: Board<A>, m: Machine<A>)
    requires m.tickUpdate == m.cycles && Quiet(m.cpu, m.timer)
    requires Undisturbed(b, m)
    ensures Indistinguishable(Rounds(b, m, MiniQuantum), Rounds(b, m, SingleInstruction))
    decreases m.Budget(), Interruptible(m.cpu), 1
  {
    hide Quiet, Settled, Batch, BatchEnd, Undisturbed, MidBatch, Interruptible;
    if m.cycles < m.limit {
      if AtBreakpoint(b, m) {
        var y := Settled(Rearmed(m));
        BreakpointRound(b, m, MiniQuantum);
        BreakpointRound(b, m, SingleInstruction);
        hide Rounds;
        if !AtBreakpoint(b, y) && !y.watchHit {
          RoundsSimulate(b, y);
        }
      } else {
        RoundEntersBatch(b, m);
        RoundsConclude(b, m, MiniQuantum);
        hide Rounds, Concluded, Indistinguishable;
        BatchSimulates(b, Rearmed(m), BatchEnd(b, m, MiniQuantum));
      }
    }
  }

  // ---- Whole quanta and whole runs

  // No tick is waiting to be taken, and the timer is charged up to now.
  predicate BetweenQuanta<A>(m: Machine<A>) {
    && m.tickUpdate == m.cycles
    && !(m.timer.Enabled() && m.timer.IrqPending() && Has(m.cpu.status, SR_TEE))
  }

  // If we doze on entry, it is not the environment that sleeps for us.
  predicate SleepsAlone<A>(b: Board<A>, m: Machine<A>) {
    !Has(m.cpu.pmr, PMR_DOZE) || !b.allowSleep || b.sleep(SleepTarget(m.timer)) == 0
  }

  lemma PolledSleepsAlone<A>(b: Board<A>, m: Machine<A>)
    requires SleepsAlone(b, m)
    ensures SleepsAlone(b, Polled(m))
  {
    PolledTime(m);
    Budget.PolledPower(m);
    hide Polled, SleepTarget, Has;
  }

  lemma DozedQuiet<A>(b: Board<A>, m: Machine<A>)
    requires Quiet(m.cpu, m.timer) && m.tickUpdate == m.cycles && SleepsAlone(b, m)
    ensures Quiet(Dozed(b, m).cpu, Dozed(b, m).timer) && Dozed(b, m).tickUpdate == Dozed(b, m).cycles
  {
    hide TimerUpdated, Quiet, Skipped, SleepTarget;
    var skip := SleepTarget(m.timer);
    QuietSkipped(m, skip);
    TimerUpdatedQuiet(Skipped(m, skip));
  }

  lemma DozedPolledQuiet<A>(b: Board<A>, m: Machine<A>)
    requires BetweenQuanta(m) && SleepsAlone(b, m)
    ensures Quiet(Dozed(b, Polled(m)).cpu, Dozed(b, Polled(m)).timer)
    ensures Dozed(b, Polled(m)).tickUpdate == Dozed(b, Polled(m)).cycles
  {
    PolledTime(m);
    assert m.tickUpdate == m.cycles;
    hide *;
    PolledQuiet(m);
    PolledSleepsAlone(b, m);
    DozedQuiet(b, Polled(m));
  }

  lemma EnteredQuiet<A>(b: Board<A>, m: Machine<A>, quantum: U32)
    requires BetweenQuanta(m) && SleepsAlone(b, m)
    ensures Quiet(Entered(b, m, quantum).cpu, Entered(b, m, quantum).timer)
    ensures Entered(b, m, quantum).tickUpdate == Entered(b, m, quantum).cycles
  {
    hide Dozed, Polled, Has, SleepTarget, Quiet;
    DozedPolledQuiet(b, m.(limit := m.cycles + quantum));
  }

  lemma PolledTime<A>(m: Machine<A>)
    ensures Polled(m).timer == m.timer && Polled(m).tickUpdate == m.tickUpdate && Polled(m).cycles == m.cycles
  {
  }

  lemma QuietSkipped<A>(m: Machine<A>, skip: nat)
    requires Quiet(m.cpu, m.timer)
    ensures Quiet(Skipped(m, skip).cpu, Skipped(m, skip).timer)
  {
  }

  // One call of `advance`.
  lemma BatchingInvisible<A>(b: Board<A>, m: Machine<A>, quantum: U32)
    requires BetweenQuanta(m) && SleepsAlone(b, m)
    requires Undisturbed(b, Entered(b, m, quantum))
    ensures Indistinguishable(Advanced(b, m, quantum, MiniQuantum), Advanced(b, m, quantum, SingleInstruction))
  {
    EnteredQuiet(b, m, quantum);
    RoundsSimulate(b, Entered(b, m, quantum));
  }

  // A run: quantum after quantum, the interrupt lines being set by the outside in between.
  datatype Slot = Slot(lines: bv32, quantum: U32)

  function WithLines<A>(m: Machine<A>, lines: bv32): Machine<A> {
    m.(cpu := m.cpu.(picSr := lines))
  }

  function Ran<A>(b: Board<A>, m: Machine<A>, slots: seq<Slot>, g: Granularity): Outcome<A>
    decreases |slots|
  {
    if slots == [] then Outcome(StepOk, m)
    else
      var r := Advanced(b, WithLines(m, slots[0].lines), slots[0].quantum, g);
      if r.result == StepOk then Ran(b, r.machine, slots[1..], g) else r
  }

  // The hypotheses on each quantum of a run, all about the instruction-by-instruction run.
  ghost predicate RunUndisturbed<A>(b: Board<A>, m: Machine<A>, slots: seq<Slot>)
    decreases |slots|
  {
    slots != [] ==>
      var w := WithLines(m, slots[0].lines);
      var r := Advanced(b, w, slots[0].quantum, SingleInstruction);
      && SleepsAlone(b, w)
      && Undisturbed(b, Entered(b, w, slots[0].quantum))
      && (r.result == StepOk ==> RunUndisturbed(b, r.machine, slots[1..]))
  }

  lemma {:induction false} RoundsEndBetween<A>(b: Board<A>, m: Machine<A>, g: Granularity)
    requires m.tickUpdate == m.cycles && Quiet(m.cpu, m.timer)
    ensures Rounds(b, m, g).result != StepExit ==> BetweenQuanta(Rounds(b, m, g).machine)
    decreases m.Budget(), Interruptible(m.cpu)
  {
    if m.cycles < m.limit {
      RoundsConclude(b, m, g);
      RoundProgress(b, m, g);
      var x := Batch(b, Rearmed(m), BatchEnd(b, m, g));
      SettledQuiet(x);
      hide Settled;
      if !x.stopRequested && !AtBreakpoint(b, Settled(x)) && !Settled(x).watchHit {
        RoundsEndBetween(b, Settled(x), g);
      }
    }
  }

  // Whole runs.
  lemma {:induction false} RunsIndistinguishable<A>(b: Board<A>, m: Machine<A>, slots: seq<Slot>)
    requires BetweenQuanta(m) && RunUndisturbed(b, m, slots)
    ensures Indistinguishable(Ran(b, m, slots, MiniQuantum), Ran(b, m, slots, SingleInstruction))
    decreases |slots|
  {
    if slots != [] {
      var w := WithLines(m, slots[0].lines);
      var r := Advanced(b, w, slots[0].quantum, SingleInstruction);
      BatchingInvisible(b, w, slots[0].quantum);
      if r.result == StepOk {
        EnteredQuiet(b, w, slots[0].quantum);
        RoundsEndBetween(b, Entered(b, w, slots[0].quantum), SingleInstruction);
        hide Entered, Rounds;
        RunsIndistinguishable(b, r.machine, slots[1..]);
      }
    }
  }

  // ---- When the wrap cannot matter

  // A timer that has not been set past its limit, or has no interrupt to raise.
  predicate Armed(t: Timer) {
    t.Stopped() || t.Limit() == 0 || t.Current() < t.Limit() || Harmless(t)
  }

  lemma ArmedStays(t: Timer, d: nat)
    requires Armed(t)
    ensures Armed(Updated(t, d))
  {
    if Harmless(t) {
      HarmlessUpdate(t, d);
    } else if !t.Stopped() && t.Limit() != 0 {
      if t.Current() + d < t.Limit() {
        CountAhead(t.ttcr, d);
      } else {
        Restarted(t, d);
      }
    }
  }

  // Once the limit is met, the count starts again, stops, or has raised its interrupt.
  lemma Restarted(t: Timer, d: nat)
    requires !t.Stopped() && t.Limit() != 0 && t.Current() < t.Limit() <= t.Current() + d
    ensures Armed(Updated(t, d))
  {
    FireKeepsFields(t.(ttcr := 0));
    FireKeepsFields(t.(ttcr := t.Limit(), done := true));
    FireKeepsFields(t.(ttcr := Wrap32(t.ttcr + d)));
  }

  lemma TimerUpdatedArmed<A>(m: Machine<A>)
    requires Armed(m.timer)
    ensures Armed(TimerUpdated(m).timer)
  {
    ArmedStays(m.timer, m.Elapsed());
    hide Updated, Armed, Raised;
  }

  lemma DozedArmed<A>(b: Board<A>, m: Machine<A>)
    requires Armed(m.timer)
    ensures Armed(Dozed(b, m).timer)
  {
    TimerUpdatedArmed(Skipped(m, SleepTarget(m.timer)));
    hide TimerUpdated, Armed, SleepTarget;
  }

  lemma AppliedArmed<A>(b: Board<A>, m: Machine<A>, a: Action<A>)
    requires Armed(m.timer) && (a.WriteSpr? ==> !a.w.ToTtmr? && !a.w.ToTtcr?)
    ensures Armed(Applied(b, m, a).timer)
  {
    if a.WriteSpr? && a.w.ToPmr? {
      DozedArmed(b, m.(breakRequested := true, cpu := m.cpu.(pmr := a.w.bits)));
    }
    hide Dozed, Armed, Raised, ScheduledJump, Returned, RegisterWritten;
  }

  lemma {:induction false} AppliedAllArmed<A>(b: Board<A>, m: Machine<A>, actions: seq<Action<A>>)
    requires Armed(m.timer) && forall k | 0 <= k < |actions| :: actions[k].WriteSpr? ==> !actions[k].w.ToTtmr? && !actions[k].w.ToTtcr?
    ensures Armed(AppliedAll(b, m, actions).timer)
    decreases |actions|
  {
    hide Applied, Armed;
    if actions != [] {
      AppliedArmed(b, m, actions[0]);
      AppliedAllArmed(b, Applied(b, m, actions[0]), actions[1..]);
    }
  }

  lemma ExecutedArmed<A>(b: Board<A>, m: Machine<A>)
    requires Armed(m.timer) && BlindAt(b, m)
    ensures Armed(Executed(b, m).timer)
  {
    var s := Begun(m);
    var fx := b.program(s.cpu, s.cycles, s.timer);
    hide AppliedAll, Armed, Retired;
    if fx.Act? {
      assert forall k | 0 <= k < |fx.actions| :: LeavesTimer(b, m.timer, fx.actions[k]);
      AppliedAllArmed(b, s, fx.actions);
    }
  }

  lemma SettledArmed<A>(m: Machine<A>)
    requires Armed(m.timer)
    ensures Armed(Settled(m).timer)
  {
    TimerUpdatedArmed(m);
    hide TimerUpdated, Armed, Raised;
  }

  lemma SingleArmed<A>(b: Board<A>, m: Machine<A>)
    requires m.cycles < m.limit && Armed(m.timer) && (AtBreakpoint(b, m) || BlindAt(b, Rearmed(m)))
    ensures Armed(Batch(b, Rearmed(m), BatchEnd(b, m, SingleInstruction)).timer)
  {
    hide Executed, Armed, BlindAt;
    ExecutedTime(b, Rearmed(m));
    if !AtBreakpoint(b, m) {
      ExecutedArmed(b, Rearmed(m));
      assert Batch(b, Rearmed(m), m.cycles + 1) == Executed(b, Rearmed(m));
    }
  }

  // From such a timer, the hypothesis on the wrap holds of every quantum.  In continue mode the
  // first tick raises the interrupt, and later wraps find it pending.
  lemma {:induction false} ArmedNeverWraps<A>(b: Board<A>, m: Machine<A>)
    requires RunBlind(b, m) && Armed(m.timer)
    ensures Undisturbed(b, m)
    decreases m.Budget(), Interruptible(m.cpu)
  {
    if m.cycles < m.limit {
      var x := Batch(b, Rearmed(m), BatchEnd(b, m, SingleInstruction));
      SingleArmed(b, m);
      SettledArmed(x);
      RoundProgress(b, m, SingleInstruction);
      assert WrapFree(x.timer, x.Elapsed());
      hide Settled, Updated, Batch, Armed, BlindAt, WrapFree;
      if !x.stopRequested && !AtBreakpoint(b, Settled(x)) && !Settled(x).watchHit {
        ArmedNeverWraps(b, Settled(x));
      }
    }
  }

  // ---- When it does: a concrete run

  // Two instructions that do nothing, on a continuing timer one cycle before its wrap with
  // limit 1 and interrupts enabled: the reference takes the tick interrupt after the second
  // instruction, the batch of both never does.
  function Idle(nap: nat): Board<int> {
    Board((c, n, t) => Act([]), [], true, true, n => nap)
  }

  function BeforeWrap(): Machine<int> {
    Machine(Cpu(0, 0, 0, 0, 0x100, SR_FO | SR_SM | SR_TEE, 0, 0, 0, 0, 0, PIC_NMI, 0, 0),
            0, 0, 0, Timer(false, 0xe000_0001, 0x0fff_ffff), 0, false, false, false, [])
  }

  lemma IdleExecuted(nap: nat, m: Machine<int>)
    ensures var x := Executed(Idle(nap), m);
            && x.cycles == m.cycles + 1 && x.limit == m.limit
            && x.timer == m.timer && x.tickUpdate == m.tickUpdate
            && BatchBroken(x) == BatchBroken(m)
  {
    hide Retired;
    var s := Begun(m);
    assert Idle(nap).program(s.cpu, s.cycles, s.timer) == Act([]);
    assert AppliedAll(Idle(nap), s, []) == s;
  }

  lemma {:induction false} IdleBatch(nap: nat, m: Machine<int>, end: nat)
    requires !BatchBroken(m) && m.cycles <= end
    ensures var x := Batch(Idle(nap), m, end);
            && x.cycles <= end && x.limit == m.limit && x.timer == m.timer && x.tickUpdate == m.tickUpdate
            && (end <= m.cycles + Nearest(Idle(nap).breakpoints, m.cpu.nextPc) ==> x.cycles == end)
            && !BatchBroken(x)
    decreases end - m.cycles
  {
    if m.cycles < end {
      var x := Executed(Idle(nap), m);
      IdleExecuted(nap, m);
      if end <= m.cycles + Nearest(Idle(nap).breakpoints, m.cpu.nextPc) {
        Budget.EndStaysNear(Idle(nap), m, end);
      }
      hide Executed;
      IdleBatch(nap, x, EndAfter(Idle(nap), x, end));
    }
  }

  lemma SettledCharge<A>(m: Machine<A>)
    ensures Settled(m).tickUpdate == Settled(m).cycles
    ensures m.timer.Enabled() ==> Settled(m).timer == Updated(m.timer, m.Elapsed())
  {
    hide Updated, Raised, Timer.IrqPending;
  }

  lemma IdleBatchEnds(nap: nat, m: Machine<int>, g: Granularity)
    requires m.cycles < m.limit
    ensures var x := Batch(Idle(nap), Rearmed(m), BatchEnd(Idle(nap), m, g));
            && m.cycles <= x.cycles == BatchEnd(Idle(nap), m, g) && x.limit == m.limit
            && x.timer == m.timer && x.tickUpdate == m.tickUpdate && !BatchBroken(x)
  {
    NextTickRange(m.timer);
    hide Batch, Timer.NextTick;
    IdleBatch(nap, Rearmed(m), BatchEnd(Idle(nap), m, g));
  }

  // One round of the idle program charges the timer with the cycles up to the end of the batch.
  lemma IdleRound(nap: nat, m: Machine<int>, g: Granularity) returns (y: Machine<int>)
    requires m.cycles < m.limit && m.Timed()
    ensures Rounds(Idle(nap), m, g) == Rounds(Idle(nap), y, g)
    ensures y.limit == m.limit && y.cycles == y.tickUpdate == BatchEnd(Idle(nap), m, g)
    ensures m.timer.Enabled() ==> y.timer == Updated(m.timer, y.cycles - m.tickUpdate)
  {
    hide Batch, Settled, Updated, BatchEnd, Rounds, Rearmed, Timer.Enabled;
    var x := Batch(Idle(nap), Rearmed(m), BatchEnd(Idle(nap), m, g));
    IdleBatchEnds(nap, m, g);
    SettledTime(x);
    SettledCharge(x);
    y := Settled(x);
    RoundsConclude(Idle(nap), m, g);
  }

  lemma WrapTicks(t: Timer)
    requires t == Timer(false, 0xe000_0001, 0x0fff_ffff)
    ensures t.Enabled() && !t.IrqPending() && t.NextTick() == 2
    ensures !Updated(t, 2).IrqPending()
    ensures Updated(Updated(t, 1), 1).IrqPending() && Updated(t, 1).Enabled()
  {
    assert t.Current() == 0x0fff_ffff && t.Limit() == 1 && t.Flags() == 14;
    var u := Updated(t, 1);
    assert u == Timer(false, 0xe000_0001, TWO28);
    FireKeepsFields(u.(ttcr := TWO28 + 1));
  }

  lemma WrapEntered()
    ensures Entered(Idle(0), BeforeWrap(), 2) == BeforeWrap().(limit := 2)
  {
  }

  lemma WrapBatched()
    ensures var r := Advanced(Idle(0), BeforeWrap(), 2, MiniQuantum);
            r.result == StepOk && !r.machine.timer.IrqPending()
  {
    WrapEntered();
    hide Entered;
    var m := BeforeWrap().(limit := 2);
    WrapTicks(m.timer);
    hide Updated, Batch, Settled, Timer.IrqPending;
    assert BatchEnd(Idle(0), m, MiniQuantum) == 2;
    var batched := IdleRound(0, m, MiniQuantum);
  }

  lemma WrapSingle()
    ensures var r := Advanced(Idle(0), BeforeWrap(), 2, SingleInstruction);
            r.result == StepOk && r.machine.timer.IrqPending()
  {
    WrapEntered();
    hide Entered;
    var m := BeforeWrap().(limit := 2);
    WrapTicks(m.timer);
    hide Updated, Batch, Settled, Timer.IrqPending;
    var first := IdleRound(0, m, SingleInstruction);
    var second := IdleRound(0, first, SingleInstruction);
  }

  lemma WrapIsVisible()
    ensures (forall m :: BlindAt(Idle(0), m)) && BetweenQuanta(BeforeWrap()) && SleepsAlone(Idle(0), BeforeWrap())
    ensures !Indistinguishable(Advanced(Idle(0), BeforeWrap(), 2, MiniQuantum),
                               Advanced(Idle(0), BeforeWrap(), 2, SingleInstruction))
  {
    WrapBatched();
    WrapSingle();
    hide Advanced;
  }

  // ---- Sleep of the environment is charged late: another run

  // A core that dozes on entry, with a restarting timer of limit 2 to wake it.
  function Dozing(): Machine<int> {
    Machine(Cpu(0, 0, 0, 0, 0x100, SR_FO | SR_SM, 0, 0, 0, 0, PMR_DOZE, PIC_NMI, 0, 0),
            0, 0, 0, Timer(false, 0x6000_0002, 0), 0, false, false, false, [])
  }

  // The environment sleeps for one of the two cycles to the tick.
  lemma DozingEntered()
    ensures var e := Entered(Idle(1), Dozing(), 2);
            e.cycles == 1 && e.limit == 3 && e.timer == Dozing().timer && e.tickUpdate == 0
    ensures BetweenQuanta(Dozing()) && !SleepsAlone(Idle(1), Dozing())
  {
    assert Has(PMR_DOZE, PMR_DOZE) && !Has(0, PIC_NMI) && !Has(SR_FO | SR_SM, SR_TEE);
    hide Has, Cleared, SleepTarget, Timer.IrqPending, Timer.Enabled;
  }

  lemma RestartTicks()
    ensures var t := Dozing().timer;
            && t.Enabled() && t.NextTick() == 2 && Updated(t, 3).ttcr == 0
            && Updated(t, 2).Enabled() && Updated(Updated(t, 2), 1).ttcr == 1
  {
    var t := Timer(false, 0x6000_0002, 0);
    assert t.Flags() == 6 && t.Current() == 0 && t.Limit() == 2;
    FireKeepsFields(t);
  }

  ghost predicate HasSlept(m: Machine<int>) {
    m.cycles == 1 && m.limit == 3 && m.timer == Dozing().timer && m.tickUpdate == 0
  }

  lemma SleptBatched(m: Machine<int>)
    requires HasSlept(m)
    ensures Rounds(Idle(1), m, MiniQuantum).machine.timer.ttcr == 0
    ensures Rounds(Idle(1), m, MiniQuantum).result == StepOk
  {
    RestartTicks();
    hide Updated, Batch, Settled, Timer.Enabled, Timer.NextTick, Dozing;
    assert BatchEnd(Idle(1), m, MiniQuantum) == 3;
    var y := IdleRound(1, m, MiniQuantum);
  }

  lemma SleptSingle(m: Machine<int>)
    requires HasSlept(m)
    ensures Rounds(Idle(1), m, SingleInstruction).machine.timer.ttcr == 1
  {
    RestartTicks();
    hide Updated, Batch, Settled, Timer.Enabled, Timer.NextTick, Dozing;
    var first := IdleRound(1, m, SingleInstruction);
    var second := IdleRound(1, first, SingleInstruction);
  }

  // The two instructions of the quantum run past the tick in one batch; the reference has counted
  // on from it.
  lemma SleepIsVisible()
    ensures (forall m :: BlindAt(Idle(1), m)) && BetweenQuanta(Dozing()) && !SleepsAlone(Idle(1), Dozing())
    ensures !Indistinguishable(Advanced(Idle(1), Dozing(), 2, MiniQuantum),
                               Advanced(Idle(1), Dozing(), 2, SingleInstruction))
  {
    DozingEntered();
    hide Rounds, Entered, Dozing;
    SleptBatched(Entered(Idle(1), Dozing(), 2));
    SleptSingle(Entered(Idle(1), Dozing(), 2));
  }
}
