/** Falling asleep within a batch, with the tick interrupt to wake the core, is visible: the nap is
    measured by the lagging timer.  A concrete run. */
module DozeRun {
  import opened Words
  import opened Ticking
  import opened Core
  import opened Quantum
  import opened TimerLag
  import opened Batching

  // The second instruction, at 0x104, falls asleep; all others do nothing.
  function Napping(): Board<int> {
    Board((c: Cpu<int>, n: nat, t: Timer) => if c.nextPc == 0x104 then Act([WriteSpr(ToPmr(PMR_DOZE))]) else Act([]), [], true, true, n => 0)
  }

  // A continuing timer with its interrupt enabled and limit 100.
  function AtStart(): Machine<int> {
    Machine(Cpu(0, 0, 0, 0, 0x100, SR_FO | SR_SM, 0, 0, 0, 0, 0, PIC_NMI, 0, 0),
            0, 0, 0, Timer(false, 0xe000_0064, 0), 0, false, false, false, [])
  }

  // What the run needs to know of a machine.
  predicate Awake(m: Machine<int>, instructions: nat) {
    && m.cpu.instructions == instructions && m.cpu.jumpInsn == 0 && m.cpu.nextPc == 0x100 + 4 * instructions
    && m.cpu.status == SR_FO | SR_SM && m.cpu.picSr == 0 && |m.trace| == instructions
    && m.limit == 102 && m.tickUpdate <= m.cycles && !m.stopRequested && !m.watchHit
  }

  predicate Starting(m: Machine<int>) {
    Awake(m, 0) && m.timer == Timer(false, 0xe000_0064, 0) && m.cycles == 0 && !m.breakRequested
  }

  lemma StatusStays()
    ensures Fixed(SR_FO | SR_SM) == SR_FO | SR_SM && Has(SR_FO | SR_SM, SR_SM)
    ensures !Has(SR_FO | SR_SM, SR_TEE) && !Has(SR_FO | SR_SM, SR_IEE) && Has(PMR_DOZE, PMR_DOZE)
    ensures forall w: bv32 :: !Has(0, w)
  {
  }

  lemma IdleStep(m: Machine<int>, i: nat)
    requires Awake(m, i) && i < 0x100 && m.cpu.nextPc != 0x104
    ensures var x := Executed(Napping(), m);
            Awake(x, i + 1) && x.cycles == m.cycles + 1 && x.breakRequested == m.breakRequested
            && x.timer == m.timer && x.tickUpdate == m.tickUpdate
  {
    StatusStays();
    hide Fixed, Has;
    var s := Begun(m);
    assert Napping().program(s.cpu, s.cycles, s.timer) == Act([]);
    assert AppliedAll(Napping(), s, []) == s;
  }

  // The instruction that falls asleep skips to the tick, as far as the lagging timer tells.
  lemma NapStep(m: Machine<int>)
    requires Awake(m, 1) && m.timer.Enabled() && m.timer.IrqEnabled() && m.timer.Limit() == 100 && m.timer.NextTick() <= 100
    requires m.cycles + 1 + m.timer.NextTick() <= 102
    ensures var x := Executed(Napping(), m);
            Awake(x, 2) && x.cycles == m.cycles + 1 + m.timer.NextTick() && x.breakRequested
  {
    StatusStays();
    hide Fixed, Has, Updated, Timer.Enabled, Timer.IrqEnabled, Timer.NextTick, Timer.Limit, Timer.IrqPending;
    var b := Napping();
    var s := Begun(m);
    var w := WriteSpr(ToPmr(PMR_DOZE));
    assert b.program(s.cpu, s.cycles, s.timer) == Act([w]);
    assert AppliedAll(b, s, [w]) == Applied(b, s, w);
    var p := s.(breakRequested := true, cpu := s.cpu.(pmr := PMR_DOZE));
    assert Applied(b, s, w) == Dozed(b, p);
    assert SleepTarget(p.timer) == m.timer.NextTick();
    assert Dozed(b, p) == TimerUpdated(Skipped(p, m.timer.NextTick()));
    NoTick(Skipped(p, m.timer.NextTick()));
  }

  // With interrupts masked, the timer is only charged.
  lemma NoTick(m: Machine<int>)
    requires m.cpu.status == SR_FO | SR_SM
    ensures TimerUpdated(m).cpu == m.cpu && TimerUpdated(m).cycles == m.cycles && TimerUpdated(m).limit == m.limit
    ensures TimerUpdated(m).trace == m.trace && TimerUpdated(m).tickUpdate == m.cycles
    ensures m.timer.Enabled() ==> TimerUpdated(m).timer == Updated(m.timer, m.Elapsed())
  {
    StatusStays();
    hide Has, Updated, Timer.IrqPending, Timer.Enabled;
  }

  lemma Settles(m: Machine<int>, i: nat)
    requires Awake(m, i)
    ensures var y := Settled(m);
            Awake(y, i) && y.cycles == m.cycles == y.tickUpdate && !AtBreakpoint(Napping(), y)
            && (m.timer.Enabled() ==> y.timer == Updated(m.timer, m.Elapsed()))
  {
    StatusStays();
    NoTick(m);
    hide TimerUpdated, Has, Updated, Timer.Enabled;
  }

  lemma Counting(n: nat)
    requires n < 100
    ensures var t := Timer(false, 0xe000_0064, n);
            t.Enabled() && t.IrqEnabled() && t.Limit() == 100 && t.NextTick() == 100 - n
    ensures n + 1 < 100 ==> Updated(Timer(false, 0xe000_0064, n), 1) == Timer(false, 0xe000_0064, n + 1)
  {
    var t := Timer(false, 0xe000_0064, n);
    assert t.Flags() == 14 && t.Current() == n;
  }

  // A round that executes one instruction.
  lemma OneRound(m: Machine<int>, i: nat)
    requires Awake(m, i) && m.cycles < 102
    requires var x := Executed(Napping(), Rearmed(m)); Awake(x, i + 1) && m.cycles < x.cycles
    ensures Rounds(Napping(), m, SingleInstruction) == Rounds(Napping(), Settled(Executed(Napping(), Rearmed(m))), SingleInstruction)
  {
    var b, s := Napping(), Rearmed(m);
    hide Executed, Settled, Rounds;
    Settles(Executed(b, s), i + 1);
    RoundsConclude(b, m, SingleInstruction);
    assert !AtBreakpoint(b, m);
    assert Batch(b, s, m.cycles + 1) == Executed(b, s);
  }

  // An instruction that does nothing, as a round of its own.
  lemma IdleRound(m: Machine<int>, i: nat) returns (y: Machine<int>)
    requires Awake(m, i) && i < 0x100 && i != 1 && m.cycles < 102
    ensures Awake(y, i + 1) && y.cycles == m.cycles + 1 && y.tickUpdate == y.cycles
    ensures m.timer.Enabled() && m.Timed() ==> y.timer == Updated(m.timer, m.Elapsed() + 1)
    ensures Rounds(Napping(), m, SingleInstruction) == Rounds(Napping(), y, SingleInstruction)
  {
    hide Executed, Settled, Rounds, Updated, Timer.Enabled;
    IdleStep(Rearmed(m), i);
    OneRound(m, i);
    var x := Executed(Napping(), Rearmed(m));
    Settles(x, i + 1);
    y := Settled(x);
  }

  // The instruction that falls asleep, as a round of its own.
  lemma NapRound(m: Machine<int>) returns (y: Machine<int>)
    requires Awake(m, 1) && m.timer == Timer(false, 0xe000_0064, 1) && m.cycles == 1
    ensures Awake(y, 2) && y.cycles == y.tickUpdate == 101
    ensures Rounds(Napping(), m, SingleInstruction) == Rounds(Napping(), y, SingleInstruction)
  {
    Counting(1);
    hide Executed, Settled, Rounds, Updated, Timer.Enabled, Timer.IrqEnabled, Timer.NextTick, Timer.Limit;
    NapStep(Rearmed(m));
    OneRound(m, 1);
    var x := Executed(Napping(), Rearmed(m));
    Settles(x, 2);
    y := Settled(x);
  }

  lemma QuantumSpent(m: Machine<int>, g: Granularity)
    requires m.cycles >= m.limit
    ensures Rounds(Napping(), m, g) == Outcome(StepOk, m)
  {
  }

  // The reference naps 99 cycles, and executes one more instruction.
  lemma SteppedRun(m: Machine<int>)
    requires Starting(m)
    ensures var r := Rounds(Napping(), m, SingleInstruction);
            r.result == StepOk && |r.machine.trace| == 3
  {
    var y := TwoRounds(m);
    hide Rounds, Awake, Napping, Starting;
    var y' := IdleRound(y, 2);
    AwakeMeans(y', 3);
    QuantumSpent(y', SingleInstruction);
  }

  lemma TwoRounds(m: Machine<int>) returns (y: Machine<int>)
    requires Starting(m)
    ensures Awake(y, 2) && y.cycles == y.tickUpdate == 101
    ensures Rounds(Napping(), m, SingleInstruction) == Rounds(Napping(), y, SingleInstruction)
  {
    hide *;
    y := FirstRound(m);
    y := NapRound(y);
  }

  lemma FirstRound(m: Machine<int>) returns (y: Machine<int>)
    requires Starting(m)
    ensures Awake(y, 1) && y.cycles == 1 && y.timer == Timer(false, 0xe000_0064, 1)
    ensures Rounds(Napping(), m, SingleInstruction) == Rounds(Napping(), y, SingleInstruction)
  {
    assert m.timer.Enabled() && m.Timed() && Updated(m.timer, m.Elapsed() + 1) == Timer(false, 0xe000_0064, 1) by {
      Counting(0);
      hide Updated, Timer.Enabled;
    }
    assert Awake(m, 0) && m.cycles == 0;
    hide *;
    y := IdleRound(m, 0);
  }

  lemma AwakeMeans(m: Machine<int>, i: nat)
    requires Awake(m, i)
    ensures m.limit == 102 && |m.trace| == i
  {
  }

  // Both instructions in one batch.
  lemma NapBatch(m: Machine<int>)
    requires Starting(m)
    ensures var x := Batch(Napping(), m, 100);
            Awake(x, 2) && x.cycles == 102
  {
    Counting(0);
    hide Executed, Nearest, Timer.Enabled, Timer.IrqEnabled, Timer.NextTick, Timer.Limit;
    IdleStep(m, 0);
    var x1 := Executed(Napping(), m);
    NapStep(x1);
    var x2 := Executed(Napping(), x1);
    assert EndAfter(Napping(), x1, 100) == 100;
    assert Batch(Napping(), m, 100) == Batch(Napping(), x1, 100) == x2;
  }

  // The batch naps 100 cycles, to the end of the quantum.
  lemma BatchedRun(m: Machine<int>)
    requires Starting(m)
    ensures var r := Rounds(Napping(), m, MiniQuantum);
            r.result == StepOk && |r.machine.trace| == 2
  {
    Counting(0);
    assert BatchEnd(Napping(), m, MiniQuantum) == 100 by {
      hide Timer.Enabled, Timer.NextTick;
    }
    hide Batch, Settled, Rounds, BatchEnd, Has;
    NapBatch(Rearmed(m));
    var x := Batch(Napping(), Rearmed(m), 100);
    Settles(x, 2);
    RoundsConclude(Napping(), m, MiniQuantum);
    QuantumSpent(Settled(x), MiniQuantum);
  }

  // From a quantum of 102 cycles, the two loops return after different numbers of instructions.
  lemma NapIsVisible()
    ensures BetweenQuanta(AtStart()) && SleepsAlone(Napping(), AtStart())
    ensures !Indistinguishable(Advanced(Napping(), AtStart(), 102, MiniQuantum),
                               Advanced(Napping(), AtStart(), 102, SingleInstruction))
  {
    var m := AtStart().(limit := 102);
    assert Entered(Napping(), AtStart(), 102) == m && BetweenQuanta(AtStart()) && Starting(m) by {
      StatusStays();
      hide Has;
    }
    BatchedRun(m);
    SteppedRun(m);
    hide Rounds, Entered;
  }
}
