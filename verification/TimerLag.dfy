/** Within a batch the timer lags behind the clock.  A machine whose timer lags and one whose timer
    was charged on the way stay alike: they differ in their timers only, and charging them makes
    these the same, now or later. */
module TimerLag {
  import opened Words
  import opened Ticking
  import opened Core
  import opened Quantum
  import Budget

  // ---- Charging

  function Charged<A>(m: Machine<A>): Machine<A> {
    m.(timer := Updated(m.timer, m.Elapsed()), tickUpdate := m.cycles)
  }

  lemma UpdatedByZero(t: Timer)
    ensures Updated(t, 0) == t
  {
  }

  lemma UpdatedMode(t: Timer, d: nat)
    ensures Updated(t, d).Enabled() == t.Enabled() && Updated(t, d).IrqEnabled() == t.IrqEnabled()
  {
    FireKeepsFields(t);
    FireKeepsFields(t.(ttcr := 0));
    FireKeepsFields(t.(ttcr := t.Limit(), done := true));
    FireKeepsFields(t.(ttcr := Wrap32(t.ttcr + d)));
  }

  lemma DisabledStands(t: Timer, d: nat)
    requires !t.Enabled()
    ensures Updated(t, d) == t
  {
  }

  lemma ChargeSplit(t: Timer, d1: nat, d2: nat)
    requires t.Enabled() ==> d1 < t.NextTick()
    requires WrapFree(t, d1)
    ensures Updated(t, d1 + d2) == Updated(Updated(t, d1), d2)
    ensures WrapFree(Updated(t, d1), d2) ==> WrapFree(t, d1 + d2)
  {
    if t.Enabled() {
      UpdateSplit(t, d1, d2);
    }
  }

  // ---- Alike

  // The timer when it is charged after d more cycles.
  function Later<A>(m: Machine<A>, d: nat): Timer { Updated(m.timer, m.Elapsed() + d) }

  predicate FreeLater<A>(m: Machine<A>, d: nat) { WrapFree(m.timer, m.Elapsed() + d) }

  predicate SameMode(t: Timer, u: Timer) {
    t.Enabled() == u.Enabled() && t.IrqEnabled() == u.IrqEnabled()
  }

  ghost predicate Alike<A>(x: Machine<A>, y: Machine<A>) {
    && y == x.(timer := y.timer, tickUpdate := y.tickUpdate)
    && x.Timed() && y.Timed() && SameMode(x.timer, y.timer)
    && (forall d: nat :: Later(x, d) == Later(y, d))
    && (forall d: nat :: FreeLater(y, d) ==> FreeLater(x, d))
  }

  lemma AlikeItself<A>(x: Machine<A>)
    requires x.Timed()
    ensures Alike(x, x)
  {
  }

  // The same step of registers, clock and requests, leaving both timers alone.
  lemma AlikeStep<A>(x: Machine<A>, y: Machine<A>, x': Machine<A>, y': Machine<A>)
    requires Alike(x, y)
    requires y' == x'.(timer := y.timer, tickUpdate := y.tickUpdate)
    requires x'.timer == x.timer && x'.tickUpdate == x.tickUpdate && x.cycles <= x'.cycles
    ensures Alike(x', y')
  {
    var k := x'.cycles - x.cycles;
    hide Updated, WrapFree, SameMode;
    forall d: nat ensures Later(x', d) == Later(y', d) {
      assert Later(x, k + d) == Later(y, k + d);
    }
    forall d: nat ensures FreeLater(y', d) ==> FreeLater(x', d) {
      assert FreeLater(y, k + d) ==> FreeLater(x, k + d);
    }
  }

  // A lagging timer and the charged one.
  lemma ChargedAlike<A>(s: Machine<A>)
    requires s.Timed() && WrapFree(s.timer, s.Elapsed())
    requires s.timer.Enabled() ==> s.Elapsed() < s.timer.NextTick()
    ensures Alike(s, Charged(s))
  {
    UpdatedMode(s.timer, s.Elapsed());
    hide Updated, WrapFree, Timer.NextTick, Timer.Enabled, Timer.IrqEnabled;
    forall d: nat ensures Later(s, d) == Later(Charged(s), d) && (FreeLater(Charged(s), d) ==> FreeLater(s, d)) {
      ChargeSplit(s.timer, s.Elapsed(), d);
    }
  }

  // ---- What an instruction may do

  // Falling asleep looks at the timer only if its interrupt is to wake the core.
  predicate SleepsEvenly<A>(b: Board<A>, t: Timer) {
    !b.allowSleep || !(t.Enabled() && t.IrqEnabled())
  }

  predicate LeavesTimer<A>(b: Board<A>, t: Timer, a: Action<A>) {
    a.WriteSpr? ==> !a.w.ToTtmr? && !a.w.ToTtcr? && (Budget.FallsAsleep(a) ==> SleepsEvenly(b, t))
  }

  // The next instruction does not depend on the timer and does not write it; if it falls asleep,
  // the timer is not to wake the core.
  ghost predicate BlindAt<A>(b: Board<A>, m: Machine<A>) {
    var s := Begun(m);
    var fx := b.program(s.cpu, s.cycles, s.timer);
    && (forall t :: b.program(s.cpu, s.cycles, t) == fx)
    && (fx.Act? ==> forall k | 0 <= k < |fx.actions| :: LeavesTimer(b, m.timer, fx.actions[k]))
  }

  lemma LeavesByMode<A>(b: Board<A>, t: Timer, u: Timer, a: Action<A>)
    requires SameMode(t, u)
    ensures LeavesTimer(b, t, a) == LeavesTimer(b, u, a)
  {
  }

  // ---- Each step keeps machines alike

  lemma TimerUpdatedAlike<A>(x: Machine<A>, y: Machine<A>)
    requires Alike(x, y)
    ensures TimerUpdated(x) == TimerUpdated(y)
    ensures SameMode(TimerUpdated(x).timer, x.timer) && TimerUpdated(x).Timed()
  {
    assert Later(x, 0) == Later(y, 0);
    UpdatedMode(x.timer, x.Elapsed());
    if !x.timer.Enabled() {
      DisabledStands(x.timer, x.Elapsed());
      DisabledStands(y.timer, y.Elapsed());
    }
    hide Updated, Raised, Timer.Enabled, Timer.IrqEnabled, Timer.IrqPending;
  }

  lemma SkippedAlike<A>(x: Machine<A>, y: Machine<A>, skip: nat)
    requires Alike(x, y)
    ensures Alike(Skipped(x, skip), Skipped(y, skip)) && Skipped(x, skip).timer == x.timer
  {
    hide Alike;
    assert y == x.(timer := y.timer, tickUpdate := y.tickUpdate) by { OnlyTimers(x, y); }
    AlikeStep(x, y, Skipped(x, skip), Skipped(y, skip));
  }

  lemma OnlyTimers<A>(x: Machine<A>, y: Machine<A>)
    requires Alike(x, y)
    ensures y == x.(timer := y.timer, tickUpdate := y.tickUpdate) && x.Timed() && y.Timed() && SameMode(x.timer, y.timer)
  {
  }

  lemma DozedAlike<A>(b: Board<A>, x: Machine<A>, y: Machine<A>)
    requires Alike(x, y) && (Has(x.cpu.pmr, PMR_DOZE) ==> SleepsEvenly(b, x.timer))
    ensures Alike(Dozed(b, x), Dozed(b, y)) && SameMode(Dozed(b, x).timer, x.timer)
  {
    OnlyTimers(x, y);
    hide Alike, Skipped, TimerUpdated, Has;
    if Has(x.cpu.pmr, PMR_DOZE) && b.allowSleep {
      assert SleepTarget(x.timer) == FOREVER == SleepTarget(y.timer);
      hide SleepTarget;
      if b.sleep(FOREVER) != 0 {
        AlikeStep(x, y, Slept(x, b.sleep(FOREVER)), Slept(y, b.sleep(FOREVER)));
      } else {
        SkippedAlike(x, y, FOREVER);
        TimerUpdatedAlike(Skipped(x, FOREVER), Skipped(y, FOREVER));
        AlikeItself(TimerUpdated(Skipped(x, FOREVER)));
      }
    }
  }

  lemma SprTakenAlike<A>(b: Board<A>, x: Machine<A>, y: Machine<A>, w: SprWrite)
    requires Alike(x, y) && !w.ToTtmr? && !w.ToTtcr? && (w.ToPmr? && Has(w.bits, PMR_DOZE) ==> SleepsEvenly(b, x.timer))
    ensures Alike(SprTaken(b, x, w), SprTaken(b, y, w)) && SameMode(SprTaken(b, x, w).timer, x.timer)
  {
    OnlyTimers(x, y);
    hide Alike, Dozed, RegisterWritten, Has, SleepsEvenly, SameMode;
    if w.ToPmr? {
      var p, q := x.(cpu := x.cpu.(pmr := w.bits)), y.(cpu := y.cpu.(pmr := w.bits));
      AlikeStep(x, y, p, q);
      DozedAlike(b, p, q);
    } else {
      AlikeStep(x, y, SprTaken(b, x, w), SprTaken(b, y, w));
    }
    assert SameMode(x.timer, x.timer) by { ModeItself(x.timer); }
  }

  lemma ModeItself(t: Timer)
    ensures SameMode(t, t)
  {
  }

  lemma AppliedAlike<A>(b: Board<A>, x: Machine<A>, y: Machine<A>, a: Action<A>)
    requires Alike(x, y) && LeavesTimer(b, x.timer, a)
    ensures Alike(Applied(b, x, a), Applied(b, y, a)) && SameMode(Applied(b, x, a).timer, x.timer)
  {
    OnlyTimers(x, y);
    ModeItself(x.timer);
    hide Alike, SprTaken, Raised, ScheduledJump, Returned, Flagged, Has, SleepsEvenly, SameMode;
    if a.WriteSpr? {
      var p, q := x.(breakRequested := true), y.(breakRequested := true);
      AlikeStep(x, y, p, q);
      SprTakenAlike(b, p, q, a.w);
    } else {
      AlikeStep(x, y, Applied(b, x, a), Applied(b, y, a));
    }
  }

  lemma {:induction false} AppliedAllAlike<A>(b: Board<A>, x: Machine<A>, y: Machine<A>, actions: seq<Action<A>>)
    requires Alike(x, y) && forall k | 0 <= k < |actions| :: LeavesTimer(b, x.timer, actions[k])
    ensures Alike(AppliedAll(b, x, actions), AppliedAll(b, y, actions)) && SameMode(AppliedAll(b, x, actions).timer, x.timer)
    decreases |actions|
  {
    hide Alike, Applied, LeavesTimer;
    if actions != [] {
      var x', y' := Applied(b, x, actions[0]), Applied(b, y, actions[0]);
      AppliedAlike(b, x, y, actions[0]);
      forall k | 0 <= k < |actions[1..]| ensures LeavesTimer(b, x'.timer, actions[1..][k]) {
        LeavesByMode(b, x'.timer, x.timer, actions[k + 1]);
      }
      AppliedAllAlike(b, x', y', actions[1..]);
    }
  }

  lemma ExecutedAlike<A>(b: Board<A>, x: Machine<A>, y: Machine<A>)
    requires Alike(x, y) && BlindAt(b, y)
    ensures Alike(Executed(b, x), Executed(b, y)) && SameMode(Executed(b, x).timer, x.timer)
  {
    OnlyTimers(x, y);
    ModeItself(x.timer);
    var s, t := Begun(x), Begun(y);
    var fx := b.program(t.cpu, t.cycles, t.timer);
    assert b.program(s.cpu, s.cycles, s.timer) == fx;
    hide Alike, Retired, AppliedAll, SameMode;
    AlikeStep(x, y, s, t);
    match fx
    case ExitNop => AlikeStep(x, y, Executed(b, x), Executed(b, y));
    case ResetNop => AlikeStep(s, t, Executed(b, x), Executed(b, y));
    case Act(actions) =>
      forall k | 0 <= k < |actions| ensures LeavesTimer(b, s.timer, actions[k]) {
        LeavesByMode(b, x.timer, y.timer, actions[k]);
      }
      AppliedAllAlike(b, s, t, actions);
      OnlyTimers(AppliedAll(b, s, actions), AppliedAll(b, t, actions));
      AlikeStep(AppliedAll(b, s, actions), AppliedAll(b, t, actions), Executed(b, x), Executed(b, y));
  }

  lemma SettledAlike<A>(x: Machine<A>, y: Machine<A>)
    requires Alike(x, y)
    ensures Settled(x) == Settled(y) && Charged(x) == Charged(y)
  {
    OnlyTimers(x, y);
    assert Later(x, 0) == Later(y, 0);
    TimerUpdatedAlike(x, y);
    hide TimerUpdated, Polled, Updated;
  }

  // ---- Instructions that do not end the batch leave the timer alone

  lemma {:induction false} AppliedAllTimer<A>(b: Board<A>, m: Machine<A>, actions: seq<Action<A>>)
    ensures !AppliedAll(b, m, actions).breakRequested ==>
              AppliedAll(b, m, actions).timer == m.timer && AppliedAll(b, m, actions).tickUpdate == m.tickUpdate
    decreases |actions|
  {
    if actions != [] {
      var r := Applied(b, m, actions[0]);
      AppliedTimer(b, m, actions[0]);
      AppliedAllOnward(b, r, actions[1..]);
      hide Applied;
      AppliedAllTimer(b, r, actions[1..]);
    }
  }

  lemma AppliedTimer<A>(b: Board<A>, m: Machine<A>, a: Action<A>)
    ensures !Applied(b, m, a).breakRequested ==> Applied(b, m, a).timer == m.timer && Applied(b, m, a).tickUpdate == m.tickUpdate
  {
    hide Raised, ScheduledJump, Returned, Flagged, SprWritten;
    if a.WriteSpr? {
      SprWrittenOnward(b, m, a.w);
    }
  }

  lemma ExecutedTimer<A>(b: Board<A>, m: Machine<A>)
    ensures !Executed(b, m).breakRequested ==> Executed(b, m).timer == m.timer && Executed(b, m).tickUpdate == m.tickUpdate
  {
    var s := Begun(m);
    var fx := b.program(s.cpu, s.cycles, s.timer);
    hide AppliedAll, Retired;
    if fx.Act? {
      AppliedAllTimer(b, s, fx.actions);
    }
  }
}
