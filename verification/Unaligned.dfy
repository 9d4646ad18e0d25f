/** Addresses that nothing aligns.  The debugger may set a breakpoint on any address, and a program
    any base of the exception vectors.  From either the simulator may never return; here it is told
    exactly when. */
module Unaligned {
  import opened Words
  import opened Ticking
  import opened Core
  import opened Quantum
  import opened TimerLag
  import opened Batching

  // ---- The main loop, with breakpoints at any address

  function EndOf<A>(breakpoints: seq<U32>, m: Machine<A>): nat {
    var end := Min(m.limit, m.cycles + Nearest(breakpoints, m.cpu.nextPc));
    if m.timer.Enabled() then Min(end, m.cycles + m.timer.NextTick()) else end
  }

  function BatchOf<A>(b: Board<A>, breakpoints: seq<U32>, m: Machine<A>, end: nat): Machine<A>
    decreases end - m.cycles
  {
    if m.cycles >= end then m
    else
      var x := Executed(b, m);
      ExecutedTime(b, m);
      var near := Min(end, x.cycles + Nearest(breakpoints, x.cpu.nextPc));
      if BatchBroken(x) then x else BatchOf(b, breakpoints, x, if x.cpu.InDelaySlot() then near else end)
  }

  // A call that has returned, or is about to begin another round.
  datatype Call<A> = Returned(outcome: Outcome<A>) | Looping(machine: Machine<A>)

  function Round<A>(b: Board<A>, breakpoints: seq<U32>, m: Machine<A>): Call<A> {
    if m.cycles >= m.limit then Returned(Outcome(StepOk, m))
    else
      var x := BatchOf(b, breakpoints, Rearmed(m), EndOf(breakpoints, m));
      var y := Settled(x);
      if x.stopRequested then Returned(Outcome(StepExit, x))
      else if y.cpu.nextPc in breakpoints then Returned(Outcome(StepBreakpoint, y))
      else if y.watchHit then Returned(Outcome(StepWatchpoint, y))
      else Looping(y)
  }

  function Rounded<A>(b: Board<A>, breakpoints: seq<U32>, m: Machine<A>, n: nat): Call<A>
    decreases n
  {
    if n == 0 then Looping(m)
    else
      var r := Round(b, breakpoints, m);
      if r.Returned? then r else Rounded(b, breakpoints, r.machine, n - 1)
  }

  // With the breakpoints of the board this is the loop of all other theorems.
  lemma {:induction false} BatchOfAligned<A>(b: Board<A>, m: Machine<A>, end: nat)
    ensures BatchOf(b, b.breakpoints, m, end) == Batch(b, m, end)
    decreases end - m.cycles
  {
    hide Executed;
    if m.cycles < end {
      var x := Executed(b, m);
      ExecutedTime(b, m);
      if !BatchBroken(x) {
        BatchOfAligned(b, x, EndAfter(b, x, end));
      }
    }
  }

  lemma {:induction false} AlignedReturns<A>(b: Board<A>, m: Machine<A>) returns (n: nat)
    ensures Rounded(b, b.breakpoints, m, n) == Returned(Rounds(b, m, MiniQuantum))
    decreases m.Budget(), Interruptible(m.cpu)
  {
    hide Settled, BatchOf, Batch;
    n := 1;
    if m.cycles < m.limit {
      BatchOfAligned(b, Rearmed(m), BatchEnd(b, m, MiniQuantum));
      RoundProgress(b, m, MiniQuantum);
      var r := Round(b, b.breakpoints, m);
      if r.Looping? {
        n := AlignedReturns(b, r.machine);
        n := n + 1;
      }
    }
  }

  // ---- Where it never returns

  // Some breakpoint lies in the word at pc.
  predicate HeldAt(breakpoints: seq<U32>, pc: Pc) {
    exists i | 0 <= i < |breakpoints| :: breakpoints[i] - breakpoints[i] % 4 == pc
  }

  lemma StepsToHeld(pc: Pc, target: U32)
    ensures StepsTo(pc, target) == 0 <==> target - target % 4 == pc
  {
    assert Wrap32(target - pc) == if target >= pc then target - pc else target - pc + TWO32;
  }

  lemma {:induction false} NearestHeld(breakpoints: seq<U32>, pc: Pc)
    ensures Nearest(breakpoints, pc) == 0 <==> HeldAt(breakpoints, pc)
  {
    hide StepsTo;
    if breakpoints != [] {
      var rest := breakpoints[1..];
      StepsToHeld(pc, breakpoints[0]);
      NearestHeld(rest, pc);
      if HeldAt(breakpoints, pc) && !HeldAt(rest, pc) {
        var i :| 0 <= i < |breakpoints| && breakpoints[i] - breakpoints[i] % 4 == pc;
        assert i > 0 ==> rest[i - 1] == breakpoints[i];
      }
      if HeldAt(rest, pc) {
        var i :| 0 <= i < |rest| && rest[i] - rest[i] % 4 == pc;
        assert breakpoints[i + 1] == rest[i];
      }
    }
  }

  // A batch is empty exactly if some breakpoint lies in the word at the next instruction.
  lemma EmptyExact<A>(breakpoints: seq<U32>, m: Machine<A>)
    requires m.cycles < m.limit
    ensures m.cycles >= EndOf(breakpoints, m) <==> HeldAt(breakpoints, m.cpu.nextPc)
    ensures EndOf(breakpoints, m) <= m.limit
  {
    NearestHeld(breakpoints, m.cpu.nextPc);
    NextTickRange(m.timer);
    hide Nearest, HeldAt, Timer.NextTick, Timer.Enabled;
  }

  // In the middle of a quantum, at a word that holds a breakpoint and is none, with the timer charged
  // and no interrupt to take.
  predicate Stalled<A>(breakpoints: seq<U32>, m: Machine<A>) {
    && m.cycles < m.limit && m.tickUpdate == m.cycles
    && HeldAt(breakpoints, m.cpu.nextPc) && m.cpu.nextPc !in breakpoints
    && Quiet(m.cpu, m.timer)
  }

  // With the timer charged, settling changes nothing exactly if no interrupt is to be taken; else
  // one is, and both kinds are masked.
  lemma SettlingExact<A>(m: Machine<A>)
    requires m.tickUpdate == m.cycles
    ensures Settled(m) == m <==> Quiet(m.cpu, m.timer)
    ensures !Quiet(m.cpu, m.timer) ==> Interruptible(m.cpu) && !Interruptible(Settled(m).cpu)
  {
    UpdatedByZero(m.timer);
    SettledQuiet(m);
    SettledRegisters(m);
    ChargeStands(m);
    hide Settled, Updated, Quiet, Interruptible;
    if Quiet(m.cpu, m.timer) {
      SettledIsCharged(m);
    }
  }

  lemma ChargeStands<A>(m: Machine<A>)
    requires m.tickUpdate == m.cycles
    ensures Settled(m).timer == m.timer && Settled(m).tickUpdate == m.tickUpdate
  {
    UpdatedByZero(m.timer);
    hide Updated, Raised, Has;
  }

  // At a word that holds a breakpoint and is none, the loop comes back to the very same state exactly
  // if no interrupt is to be taken.
  lemma RepeatsExact<A>(b: Board<A>, breakpoints: seq<U32>, m: Machine<A>)
    requires m.cycles < m.limit && m.tickUpdate == m.cycles
    requires HeldAt(breakpoints, m.cpu.nextPc) && m.cpu.nextPc !in breakpoints
    ensures Round(b, breakpoints, m) == Looping(Rearmed(m)) <==> Quiet(m.cpu, m.timer)
  {
    EmptyExact(breakpoints, m);
    SettlingExact(Rearmed(m));
    hide Settled, EndOf, HeldAt, Quiet, Nearest;
    assert BatchOf(b, breakpoints, Rearmed(m), EndOf(breakpoints, m)) == Rearmed(m);
  }

  lemma {:induction false} StalledForGood<A>(b: Board<A>, breakpoints: seq<U32>, m: Machine<A>, n: nat)
    requires Stalled(breakpoints, m)
    ensures Rounded(b, breakpoints, m, n).Looping?
    decreases n
  {
    RepeatsExact(b, breakpoints, m);
    hide Round, HeldAt, Quiet;
    if n > 0 {
      StalledForGood(b, breakpoints, Rearmed(m), n - 1);
    }
  }

  // ---- Everywhere else it does

  lemma {:induction false} BatchOfTime<A>(b: Board<A>, breakpoints: seq<U32>, m: Machine<A>, end: nat)
    requires 0 <= m.Budget() && end <= m.limit
    ensures var x := BatchOf(b, breakpoints, m, end);
            m.cycles < end && !x.stopRequested ==> 0 <= x.Budget() < m.Budget()
    decreases end - m.cycles
  {
    hide Executed, Nearest;
    if m.cycles < end {
      var x := Executed(b, m);
      ExecutedTime(b, m);
      var near := Min(end, x.cycles + Nearest(breakpoints, x.cpu.nextPc));
      var next := if x.cpu.InDelaySlot() then near else end;
      if !BatchBroken(x) && x.cycles < next {
        BatchOfTime(b, breakpoints, x, next);
      }
    }
  }

  predicate Lags<A>(m: Machine<A>) { m.tickUpdate != m.cycles }

  // A round that neither returns nor is stalled executes an instruction, takes an interrupt, or
  // charges the timer.
  lemma RoundOnward<A>(b: Board<A>, breakpoints: seq<U32>, m: Machine<A>)
    requires !Stalled(breakpoints, m) && Round(b, breakpoints, m).Looping?
    ensures var y := Round(b, breakpoints, m).machine;
            && 0 <= y.Budget() && !Lags(y)
            && (y.Budget() < m.Budget() ||
                (y.Budget() == m.Budget() && Interruptible(m.cpu) && !Interruptible(y.cpu)) ||
                (y.Budget() == m.Budget() && Interruptible(m.cpu) == Interruptible(y.cpu) && Lags(m)))
  {
    var s, end := Rearmed(m), EndOf(breakpoints, m);
    var x := BatchOf(b, breakpoints, s, end);
    EmptyExact(breakpoints, m);
    SettledTime(x);
    SettledRegisters(x);
    SettledQuiet(x);
    hide Settled, EndOf, HeldAt, Quiet, Nearest, Interruptible;
    if s.cycles < end {
      BatchOfTime(b, breakpoints, s, end);
    } else {
      assert x == s;
      if !Lags(m) {
        SettlingExact(s);
      }
    }
  }

  lemma {:induction false} ReturnsOrStalls<A>(b: Board<A>, breakpoints: seq<U32>, m: Machine<A>) returns (n: nat)
    ensures var r := Rounded(b, breakpoints, m, n); r.Looping? ==> Stalled(breakpoints, r.machine)
    decreases m.Budget(), Interruptible(m.cpu), Lags(m)
  {
    hide Round, Stalled;
    n := 0;
    if !Stalled(breakpoints, m) {
      n := 1;
      var r := Round(b, breakpoints, m);
      if r.Looping? {
        RoundOnward(b, breakpoints, m);
        n := ReturnsOrStalls(b, breakpoints, r.machine);
        n := n + 1;
      }
    }
  }

  lemma {:induction false} RoundedOn<A>(b: Board<A>, breakpoints: seq<U32>, m: Machine<A>, n: nat, k: nat)
    ensures var r := Rounded(b, breakpoints, m, n);
            Rounded(b, breakpoints, m, n + k) == if r.Returned? then r else Rounded(b, breakpoints, r.machine, k)
    decreases n
  {
    hide Round;
    if n > 0 {
      var r := Round(b, breakpoints, m);
      if r.Looping? {
        RoundedOn(b, breakpoints, r.machine, n - 1, k);
      }
    }
  }

  ghost predicate Returns<A>(b: Board<A>, breakpoints: seq<U32>, m: Machine<A>) {
    exists n: nat :: Rounded(b, breakpoints, m, n).Returned?
  }

  // A state that the loop comes to between rounds.
  ghost predicate ComesTo<A(!new)>(b: Board<A>, breakpoints: seq<U32>, m: Machine<A>, s: Machine<A>) {
    exists n: nat :: Rounded(b, breakpoints, m, n) == Looping(s)
  }

  // The call returns if and only if it never comes to a stalled state.
  lemma ReturnsExact<A(!new)>(b: Board<A>, breakpoints: seq<U32>, m: Machine<A>)
    ensures Returns(b, breakpoints, m) <==> !exists s :: Stalled(breakpoints, s) && ComesTo(b, breakpoints, m, s)
  {
    hide Stalled, Rounded;
    var n := ReturnsOrStalls(b, breakpoints, m);
    if Returns(b, breakpoints, m) {
      var k: nat :| Rounded(b, breakpoints, m, k).Returned?;
      forall s | Stalled(breakpoints, s) ensures !ComesTo(b, breakpoints, m, s) {
        if ComesTo(b, breakpoints, m, s) {
          var i: nat :| Rounded(b, breakpoints, m, i) == Looping(s);
          StalledForGood(b, breakpoints, s, k);
          RoundedOn(b, breakpoints, m, i, k);
          RoundedOn(b, breakpoints, m, k, i);
          assert false;
        }
      }
    } else {
      var r := Rounded(b, breakpoints, m, n);
      assert Stalled(breakpoints, r.machine) && ComesTo(b, breakpoints, m, r.machine);
    }
  }

  // ---- Exceptions, from any base

  // The call of `exception`, with at most `depth` nested ones: none, if these do not suffice.
  function RaisedFrom<A>(c: Cpu<A>, base: U32, e: SyncException, addr: U32, depth: nat): Option<Cpu<A>>
    decreases depth
  {
    if depth == 0 then None
    else
      var s := Saved(c, e, addr);
      var target := EntryAddress(base, Has(c.status, SR_EPH), e);
      var j := s.(jumpInsn := s.instructions);
      if WordAligned(target) then Some(j.(jumpTarget := target))
      else RaisedFrom(j, base, InsnAlignment, target, depth - 1)
  }

  lemma SavedFrom<A>(c: Cpu<A>, base: Pc, e: SyncException, addr: U32)
    ensures Saved(c.(evba := base), e, addr) == Saved(c, e, addr).(evba := base)
  {
    hide EntryStatus, Has, Cleared;
  }

  lemma AlignedRaise<A>(c: Cpu<A>, base: Pc, e: SyncException, addr: U32)
    ensures WordAligned(EntryAddress(base, Has(c.status, SR_EPH), e))
    ensures var s := Saved(c, e, addr);
            Raised(c.(evba := base), e, addr).(evba := c.evba)
              == s.(jumpInsn := s.instructions, jumpTarget := EntryAddress(base, Has(c.status, SR_EPH), e))
  {
    EntryAligned(base, Has(c.status, SR_EPH), e);
    SavedFrom(c, base, e, addr);
    hide EntryAddress, Saved, Has, WordAligned;
  }

  // Raising an exception returns if and only if the base is aligned; then it does so without nesting.
  lemma {:induction false} RaiseExact<A>(c: Cpu<A>, base: U32, e: SyncException, addr: U32, depth: nat)
    requires depth > 0
    ensures RaisedFrom(c, base, e, addr, depth).Some? <==> WordAligned(base)
    ensures WordAligned(base) ==>
              RaisedFrom(c, base, e, addr, depth) == Some(Raised(c.(evba := base), e, addr).(evba := c.evba))
    decreases depth
  {
    var s := Saved(c, e, addr);
    var target := EntryAddress(base, Has(c.status, SR_EPH), e);
    EntryAligned(base, Has(c.status, SR_EPH), e);
    hide EntryAddress, EntryStatus, ResumePc, Has, Cleared;
    if WordAligned(base) {
      AlignedRaise(c, base, e, addr);
    } else if depth > 1 {
      RaiseExact(s.(jumpInsn := s.instructions), base, InsnAlignment, target, depth - 1);
    }
  }
}
