/** The simulator object: its fields, and its methods as loops and updates over them.  Each method
    is proved to be the function of the machine that Core and Quantum define. */
module Simulator {
  import opened Words
  import opened Ticking
  import opened Core
  import opened Quantum
  import Budget
  import Batching

  class Or1k<A> {
    const board: Board<A>
    const tick: Tick

    // The registers, and the clock and requests of the main loop.
    var regs: Cpu<A>
    var cycles: nat
    var limit: nat
    var sleepCycles: nat
    var tickUpdate: nat
    var stopRequested: bool
    var breakRequested: bool
    var watchHit: bool
    ghost var trace: seq<Pc>

    ghost function Snap(): Machine<A>
      reads this, tick
    {
      Machine(regs, cycles, limit, sleepCycles, tick.Snap(), tickUpdate,
              stopRequested, breakRequested, watchHit, trace)
    }

    constructor (board: Board<A>, tick: Tick, arch: A)
      requires tick.Snap() == Timer(false, 0, 0)
      ensures this.board == board && this.tick == tick
      ensures Batching.BetweenQuanta(Snap())
      ensures regs == Cpu(0, 0, 0, 0x100, 0x100, SR_FO | SR_SM, 0, 0, 0, 0, 0, PIC_NMI, 0, arch)
    {
      this.board, this.tick := board, tick;
      regs := Cpu(0, 0, 0, 0x100, 0x100, SR_FO | SR_SM, 0, 0, 0, 0, 0, PIC_NMI, 0, arch);
      cycles, limit, sleepCycles, tickUpdate := 0, 0, 0, 0;
      stopRequested, breakRequested, watchHit, trace := false, false, false, [];
    }

    // ---- Exceptions and jumps

    method ExceptionPc(e: Exception) returns (pc: U32)
      ensures pc == ResumePc(regs, e)
    {
      var isJumpInsn := regs.instructions + 1 == regs.jumpInsn;
      var isDelayInsn := regs.instructions == regs.jumpInsn;
      match e {
        case Syscall =>
          pc := if isJumpInsn then regs.jumpTarget else Wrap32(regs.nextPc + 4);
        case FloatingPoint =>
          pc := if isJumpInsn then regs.jumpTarget else Wrap32(regs.nextPc + 4);
        case TickTimer =>
          pc := if isJumpInsn then regs.prevPc else regs.nextPc;
        case External =>
          pc := if isJumpInsn then regs.prevPc else regs.nextPc;
        case _ =>
          pc := if isDelayInsn then regs.prevPc else regs.nextPc;
      }
    }

    // The vector is word aligned, so the two methods call each other at most once.
    method RaiseException(e: Exception, addr: U32)
      modifies `regs
      ensures regs == Raised(old(regs), e, addr)
      decreases 1
    {
      hide EntryStatus, EntryPc, ResumePc, Has, Cleared;
      if Masked(regs.status, e) {
        return;
      }
      var pc := ExceptionPc(e);
      var isDelayInsn := regs.instructions == regs.jumpInsn;
      regs := regs.(jumpInsn := 0, expc := pc, exea := addr, exsr := regs.status);
      regs := regs.(status := EntryStatus(regs.status, isDelayInsn));
      regs := regs.(pmr := Cleared(regs.pmr, PMR_DOZE));
      assert regs == Saved(old(regs), e, addr);
      var target := EntryPc(regs.evba, Has(regs.status, SR_EPH), e);
      // Interrupts are taken after the program counter was updated, so they cannot jump.
      if e != TickTimer && e != External {
        ScheduleJump(target, 0);
      } else {
        regs := regs.(nextPc := target);
      }
    }

    method ScheduleJump(target: U32, delay: nat)
      modifies `regs
      ensures regs == ScheduledJump(old(regs), target, delay)
      decreases if WordAligned(target) then 0 else 2
    {
      regs := regs.(jumpInsn := regs.instructions + delay);
      if WordAligned(target) {
        regs := regs.(jumpTarget := target);
      } else {
        RaiseException(InsnAlignment, target);
      }
    }

    // ---- Timer and sleep

    method UpdateTimer()
      modifies this, tick
      ensures Snap() == TimerUpdated(old(Snap()))
    {
      hide Updated, Raised, Timer.Enabled, Timer.IrqPending;
      var enabled := tick.IsEnabled();
      if enabled {
        tick.Update(if tickUpdate <= cycles then cycles - tickUpdate else 0);
        var pending := tick.IsPending();
        if pending {
          RaiseException(TickTimer, 0);
        }
      }
      tickUpdate := cycles;
    }

    method SkipTarget() returns (skip: U64)
      ensures skip == SleepTarget(tick.Snap())
    {
      var t := tick.Snap();
      skip := FOREVER;
      if t.Enabled() && t.IrqEnabled() {
        skip := Min(t.NextTick(), t.Limit());
      }
    }

    method Doze()
      modifies this, tick
      ensures Snap() == Dozed(board, old(Snap()))
    {
      hide TimerUpdated, Cleared, SleepTarget, Has;
      if !Has(regs.pmr, PMR_DOZE) || !board.allowSleep {
        return;
      }
      var skip := SkipTarget();
      var slept := board.sleep(skip);
      if slept != 0 {
        cycles := cycles + slept;
        sleepCycles := sleepCycles + slept;
        limit := limit + slept;
        regs := regs.(pmr := Cleared(regs.pmr, PMR_DOZE));
      } else {
        var n := if cycles <= limit then Min(skip, limit - cycles) else skip;
        cycles := cycles + n;
        sleepCycles := sleepCycles + n;
        UpdateTimer();
      }
    }

    // ---- Actions of the instruction handlers

    method SetPmr(v: bv32)
      modifies this, tick
      ensures Snap() == Dozed(board, old(Snap()).(cpu := old(regs).(pmr := v)))
    {
      hide Dozed;
      regs := regs.(pmr := v);
      Doze();
    }

    method SetSpr(w: SprWrite)
      modifies this, tick
      ensures Snap() == SprWritten(board, old(Snap()), w)
    {
      hide SprTaken;
      breakRequested := true;
      TakeSpr(w);
    }

    method TakeSpr(w: SprWrite)
      modifies this, tick
      ensures Snap() == SprTaken(board, old(Snap()), w)
    {
      hide Dozed, Has, RegisterWritten;
      if !Has(regs.status, SR_SM) {
        return;
      }
      match w {
        case ToPmr(v) => SetPmr(v);
        case ToTtmr(v) => tick.SetTtmr(v);
        case ToTtcr(v) => tick.SetTtcr(v);
        case _ => SetRegister(w);
      }
    }

    method SetRegister(w: SprWrite)
      modifies `regs
      ensures regs == RegisterWritten(board.picLevel, old(regs), w)
    {
      hide Cleared;
      match w {
        case ToSr(v) => regs := regs.(status := v);
        case ToEsr(v) => regs := regs.(exsr := v);
        case ToPicMr(v) => regs := regs.(picMr := v | PIC_NMI);
        case ToPicSr(v) =>
          if !board.picLevel {
            regs := regs.(picSr := Cleared(regs.picSr, v));
          }
        case ToNpc(v) => regs := regs.(nextPc := v);
        case ToEvbar(v) => regs := regs.(evba := v);
        case ToPpc(v) => regs := regs.(prevPc := v);
        case ToEpcr(v) => regs := regs.(expc := v);
        case ToEear(v) => regs := regs.(exea := v);
        case _ =>
      }
    }

    method LeaveException()
      modifies `regs, `breakRequested
      ensures regs == Returned(old(regs)) && breakRequested
    {
      hide ScheduledJump, MayRead, Has;
      var target := if MayRead(regs.status) then regs.expc else 0;
      ScheduleJump(target, 0);
      var saved := if MayRead(regs.status) then regs.exsr else 0;
      breakRequested := true;
      if Has(regs.status, SR_SM) {
        regs := regs.(status := saved);
      }
    }

    method Perform(a: Action<A>)
      modifies this, tick
      ensures Snap() == Applied(board, old(Snap()), a)
    {
      hide Raised, ScheduledJump, Returned, SprWritten, Flagged;
      match a {
        case Commit(v) => regs := regs.(arch := v);
        case SetFlag(f, on) => regs := regs.(status := Flagged(regs.status, f, on));
        case Memory(n) =>
          cycles := cycles + n;
          limit := limit + n;
        case Watch => watchHit := true;
        case Jump(target, delay) => ScheduleJump(target, delay);
        case Raise(e, addr) => RaiseException(e, addr);
        case WriteSpr(w) => SetSpr(w);
        case ReturnFromException => LeaveException();
      }
    }

    method PerformAll(actions: seq<Action<A>>)
      modifies this, tick
      ensures Snap() == AppliedAll(board, old(Snap()), actions)
    {
      hide Applied;
      for i := 0 to |actions|
        invariant AppliedAll(board, Snap(), actions[i..]) == AppliedAll(board, old(Snap()), actions)
      {
        assert actions[i..][1..] == actions[i + 1..];
        Perform(actions[i]);
      }
      assert actions[|actions|..] == [];
    }

    // ---- The main loop

    method BeginInstruction()
      modifies `trace, `cycles, `regs
      ensures Snap() == Begun(old(Snap()))
    {
      trace := trace + [regs.nextPc];
      cycles := cycles + 1;
      regs := regs.(instructions := regs.instructions + 1);
    }

    method PerformEffect(effect: Effect<A>)
      requires regs.instructions > 0 && cycles > 0
      modifies this, tick
      ensures Snap() == Caused(board, old(Snap()), effect)
    {
      hide AppliedAll;
      match effect {
        case ExitNop =>
          cycles := cycles - 1;
          regs := regs.(instructions := regs.instructions - 1);
          stopRequested := true;
        case ResetNop =>
          regs := regs.(instructions := 0);
          breakRequested := true;
        case Act(actions) =>
          PerformAll(actions);
      }
    }

    method ExecuteInstruction()
      modifies this, tick
      ensures Snap() == Executed(board, old(Snap()))
    {
      hide Caused, Retired;
      BeginInstruction();
      PerformEffect(board.program(regs, cycles, tick.Snap()));
      RetireInstruction();
    }

    method RetireInstruction()
      modifies `regs
      ensures regs == Retired(old(regs))
    {
      regs := regs.(status := Fixed(regs.status));
      regs := regs.(prevPc := regs.nextPc);
      regs := regs.(nextPc := Successor(regs.nextPc));
      if regs.instructions == regs.jumpInsn {
        regs := regs.(nextPc := regs.jumpTarget);
      }
    }

    method NextBreakpoint() returns (next: nat)
      ensures next == cycles + Nearest(board.breakpoints, regs.nextPc)
    {
      hide StepsTo;
      next := NO_BREAKPOINT;
      var i := |board.breakpoints|;
      while i != 0
        invariant 0 <= i <= |board.breakpoints|
        invariant next == Nearest(board.breakpoints[i..], regs.nextPc)
      {
        var until := StepsTo(regs.nextPc, board.breakpoints[i - 1]);
        assert board.breakpoints[i - 1..][1..] == board.breakpoints[i..];
        next := Min(until, next);
        i := i - 1;
      }
      next := next + cycles;
    }

    method BreakpointHit() returns (hit: bool)
      ensures hit == (regs.nextPc in board.breakpoints)
    {
      for i := 0 to |board.breakpoints|
        invariant regs.nextPc !in board.breakpoints[..i]
      {
        if board.breakpoints[i] == regs.nextPc {
          return true;
        }
      }
      hit := false;
    }

    method PollInterrupts()
      modifies `regs
      ensures Snap() == Polled(old(Snap()))
    {
      hide Has, Raised;
      if Has(regs.picSr, regs.picMr) {
        RaiseException(External, 0);
      }
    }

    // The inner loop: instructions up to the end of the batch, which a jump may bring forward.
    method RunBatch(end: nat)
      modifies this, tick
      requires !BatchBroken(Snap())
      ensures Snap() == Batch(board, old(Snap()), end)
    {
      hide Executed, Nearest;
      var last: nat := end;
      while cycles < last
        invariant Batch(board, Snap(), last) == Batch(board, old(Snap()), end)
        decreases last - cycles
      {
        ExecutedTime(board, Snap());
        ExecuteInstruction();
        if regs.instructions == regs.jumpInsn {
          var next := NextBreakpoint();
          last := Min(last, next);
        }
        if stopRequested || breakRequested || watchHit {
          return;
        }
      }
    }

    method BatchLimit() returns (end: nat)
      ensures end == BatchEnd(board, Snap(), MiniQuantum)
    {
      hide Nearest, Timer.NextTick, Timer.Enabled;
      var next := NextBreakpoint();
      end := Min(limit, next);
      var t := tick.Snap();
      if t.Enabled() {
        end := Min(end, cycles + t.NextTick());
      }
    }

    // Clear the requests and run one batch.
    method RunMiniQuantum()
      modifies this, tick
      ensures Snap() == Batch(board, Rearmed(old(Snap())), BatchEnd(board, old(Snap()), MiniQuantum))
    {
      hide Batch, Nearest, Timer.NextTick, Timer.Enabled;
      watchHit, stopRequested, breakRequested := false, false, false;
      var end := BatchLimit();
      RunBatch(end);
    }

    method Settle()
      modifies this, tick
      ensures Snap() == Settled(old(Snap()))
    {
      hide TimerUpdated, Polled;
      UpdateTimer();
      PollInterrupts();
    }

    method Advance(quantum: U32) returns (r: StepResult)
      modifies this, tick
      ensures Outcome(r, Snap()) == Advanced(board, old(Snap()), quantum, MiniQuantum)
    {
      Enter(quantum);
      ghost var start := Snap();
      hide Settled, Entered, Batch, BatchEnd, Interruptible;
      while cycles < limit
        invariant Rounds(board, Snap(), MiniQuantum) == Rounds(board, start, MiniQuantum)
        decreases limit - cycles, Interruptible(regs)
      {
        RoundProgress(board, Snap(), MiniQuantum);
        RunMiniQuantum();
        if stopRequested {
          return StepExit;
        }
        Settle();
        var hit := BreakpointHit();
        if hit {
          return StepBreakpoint;
        }
        if watchHit {
          return StepWatchpoint;
        }
      }
      r := StepOk;
    }

    method Enter(quantum: U32)
      modifies this, tick
      ensures Snap() == Entered(board, old(Snap()), quantum)
    {
      hide Polled, Dozed;
      limit := cycles + quantum;
      PollInterrupts();
      Doze();
    }

    // The public entry point reports how many instructions were counted.
    method Step(quantum: U32) returns (r: StepResult, ran: int)
      modifies this, tick
      ensures Outcome(r, Snap()) == Advanced(board, old(Snap()), quantum, MiniQuantum)
      ensures ran == Budget.Reported(quantum, Snap())
      ensures Budget.Avoids(board.breakpoints, trace, |old(trace)|)
    {
      Budget.BreakpointsNeverSteppedOver(board, Snap(), quantum, MiniQuantum);
      hide Advanced;
      r := Advance(quantum);
      ran := quantum + cycles - limit;
    }
  }
}
