/** The tick timer: three counting modes over a 28-bit count, updated in batches.

    A batch of `delta` cycles is charged with one call of `Update`.  The reference is the
    hardware counter, which is clocked one cycle at a time (`Ticks`).  The two agree exactly
    under the condition `BatchExact`. */
module Ticking {
  import opened Words

  const MODE_DISABLED := 0
  const MODE_RESTART := 1
  const MODE_ONE_SHOT := 2
  const MODE_CONTINUE := 3

  // The registers of the timer: TTMR holds mode (31:30), interrupt enable (29), interrupt
  // pending (28) and the limit (27:0); TTCR holds the count, compared in its low 28 bits.
  datatype Timer = Timer(done: bool, ttmr: U32, ttcr: U32) {
    // Bits 31:28 of TTMR.
    function Flags(): nat { ttmr / TWO28 }
    function Mode(): nat { Flags() / 4 }
    predicate Enabled() { Mode() != MODE_DISABLED }
    predicate IrqEnabled() { Flags() / 2 % 2 == 1 }
    predicate IrqPending() { Flags() % 2 == 1 }
    function Limit(): nat { ttmr % TWO28 }
    function Current(): nat { ttcr % TWO28 }

    // A timer that `Update` leaves alone.
    predicate Stopped() { !Enabled() || done }

    // Cycles until the count meets the limit, counting through the 28-bit wrap if it must.
    function NextTick(): nat {
      if Current() < Limit() then Limit() - Current() else TWO28 - 1 - Current() + Limit() + 1
    }

    // The interrupt pending bit is raised only if interrupts are enabled in TTMR.
    function Fire(): Timer {
      if IrqEnabled() && !IrqPending() then this.(ttmr := ttmr + TWO28) else this
    }
  }

  // One call of update with `delta` elapsed cycles.
  function Updated(t: Timer, delta: nat): Timer {
    var hit := t.Current() < t.Limit() && t.Current() + delta >= t.Limit();
    var counted := t.(ttcr := Wrap32(t.ttcr + delta));
    if t.Stopped() then t
    else if !hit then counted
    else if t.Mode() == MODE_RESTART then t.(ttcr := 0).Fire()
    else if t.Mode() == MODE_ONE_SHOT then t.(ttcr := t.Limit(), done := true).Fire()
    else counted.Fire()
  }

  class Tick {
    var done: bool
    var ttmr: U32
    var ttcr: U32

    function Snap(): Timer
      reads this
    {
      Timer(done, ttmr, ttcr)
    }

    constructor ()
      ensures Snap() == Timer(false, 0, 0)
    {
      done, ttmr, ttcr := false, 0, 0;
    }

    method IsEnabled() returns (b: bool)
      ensures b == Snap().Enabled()
    {
      b := ttmr / TWO28 / 4 != 0;
    }

    method IsPending() returns (b: bool)
      ensures b == Snap().IrqPending()
    {
      b := ttmr / TWO28 % 2 == 1;
    }

    method Update(delta: nat)
      modifies this
      ensures Snap() == Updated(old(Snap()), delta)
    {
      var mode := ttmr / TWO28 / 4;
      if mode == MODE_DISABLED || done {
        return;
      }
      var lim := ttmr % TWO28;
      var cur := ttcr % TWO28;
      var irqEnabled := ttmr / TWO28 / 2 % 2 == 1;
      var irqSet := false;
      if mode == MODE_RESTART {
        if cur < lim && cur + delta >= lim {
          irqSet := true;
          ttcr := 0;
        } else {
          ttcr := Wrap32(ttcr + delta);
        }
      } else if mode == MODE_ONE_SHOT {
        if cur < lim && cur + delta >= lim {
          done, irqSet := true, true;
          ttcr := lim;
        } else {
          ttcr := Wrap32(ttcr + delta);
        }
      } else {
        irqSet := cur < lim && cur + delta >= lim;
        ttcr := Wrap32(ttcr + delta);
      }
      if irqEnabled && irqSet && ttmr / TWO28 % 2 == 0 {
        ttmr := ttmr + TWO28;
      }
    }

    // Register writes evaluate the new setting with no elapsed cycle, which changes nothing.
    method SetTtmr(v: U32)
      modifies this
      ensures Snap() == old(Snap()).(ttmr := v)
    {
      ttmr := v;
      Update(0);
    }

    method SetTtcr(v: U32)
      modifies this
      ensures Snap() == Timer(false, old(ttmr), v)
    {
      ttcr := v;
      done := false;
      Update(0);
    }
  }

  lemma NextTickRange(t: Timer)
    ensures 1 <= t.NextTick() <= TWO28
  {
  }

  // Raising the pending bit disturbs neither the limit nor the mode.
  lemma FireKeepsFields(t: Timer)
    ensures t.Fire().Limit() == t.Limit() && t.Fire().Mode() == t.Mode()
    ensures t.Fire().IrqEnabled() == t.IrqEnabled()
    ensures t.Fire().done == t.done && t.Fire().ttcr == t.ttcr
    ensures t.Fire().IrqPending() == (t.IrqPending() || t.IrqEnabled())
  {
    if t.Fire() != t {
      assert t.Fire().Flags() == t.Flags() + 1;
    }
  }

  // One cycle of the reference, by the bits of the registers.  The timer stands if its mode, bits 31 and
  // 30, is 0, or if it is done.  Where the count meets the limit it restarts from zero, stops there, or
  // goes on, and the pending bit 28 is set if bit 29 allows.
  lemma UnitExact(t: Timer)
    ensures var u, mode, limit := Updated(t, 1), t.ttmr / 0x4000_0000, t.ttmr % 0x1000_0000;
            if mode == 0 || t.done then u == t
            else if t.ttcr % 0x1000_0000 + 1 != limit then u == t.(ttcr := (t.ttcr + 1) % 0x1_0000_0000)
            else
              && u.done == (mode == 2)
              && u.ttcr == (if mode == 1 then 0 else if mode == 2 then limit else (t.ttcr + 1) % 0x1_0000_0000)
              && u.ttmr == t.ttmr + if t.ttmr / 0x2000_0000 % 2 == 1 && t.ttmr / 0x1000_0000 % 2 == 0 then 0x1000_0000 else 0
  {
  }

  // The reference: d single-cycle updates.
  function Ticks(t: Timer, d: nat): Timer {
    if d == 0 then t else Updated(Ticks(t, d - 1), 1)
  }

  // Where d single-cycle updates arrive, without counting them one by one.
  function After(t: Timer, d: nat): Timer {
    if t.Stopped() then t
    else if t.Limit() == 0 || d < t.NextTick() then t.(ttcr := Wrap32(t.ttcr + d))
    else if t.Mode() == MODE_RESTART then t.(ttcr := (d - t.NextTick()) % t.Limit()).Fire()
    else if t.Mode() == MODE_ONE_SHOT then t.(ttcr := t.Limit(), done := true).Fire()
    else t.(ttcr := Wrap32(t.ttcr + d)).Fire()
  }

  lemma ModSuccessor(x: nat, m: nat)
    requires 0 < m
    ensures (x + 1) % m == if x % m + 1 == m then 0 else x % m + 1
  {
    var q := x / m;
    assert x + 1 == q * m + (x % m + 1);
    if x % m + 1 == m {
      assert x + 1 == (q + 1) * m;
      RemainderUnique(q + 1, m, 0);
    } else {
      RemainderUnique(q, m, x % m + 1);
    }
  }

  lemma WrapTwice(x: int, d: int)
    ensures Wrap32(Wrap32(x) + d) == Wrap32(x + d)
  {
  }

  // Adding one to a count, seen through its low 28 bits.
  lemma CountStep(c: U32)
    ensures Wrap32(c + 1) % TWO28 == if c % TWO28 + 1 == TWO28 then 0 else c % TWO28 + 1
  {
  }

  lemma CountAhead(c: U32, d: nat)
    requires c % TWO28 + d < TWO28
    ensures Wrap32(c + d) % TWO28 == c % TWO28 + d
  {
  }

  lemma CountWraps(c: U32, d: nat)
    requires TWO28 <= c % TWO28 + d < 2 * TWO28
    ensures Wrap32(c + d) % TWO28 == c % TWO28 + d - TWO28
  {
  }

  // Before the tick is due, counting d cycles brings it d cycles closer.
  lemma NextTickCountsDown(t: Timer, d: nat)
    requires d < t.NextTick()
    ensures t.(ttcr := Wrap32(t.ttcr + d)).NextTick() == t.NextTick() - d
  {
    if t.Current() + d < TWO28 {
      CountAhead(t.ttcr, d);
    } else {
      CountWraps(t.ttcr, d);
    }
  }

  // One more cycle of the closed form is one more unit update.
  lemma AfterStep(t: Timer, d: nat)
    ensures After(t, d + 1) == Updated(After(t, d), 1)
  {
    if !t.Stopped() {
      if t.Limit() == 0 {
        WrapTwice(t.ttcr + d, 1);
      } else if d < t.NextTick() {
        AfterStepBeforeTick(t, d);
      } else {
        AfterStepPastTick(t, d);
      }
    }
  }

  lemma AfterStepBeforeTick(t: Timer, d: nat)
    requires !t.Stopped() && t.Limit() != 0 && d < t.NextTick()
    ensures After(t, d + 1) == Updated(After(t, d), 1)
  {
    var u := t.(ttcr := Wrap32(t.ttcr + d));
    NextTickCountsDown(t, d);
    WrapTwice(t.ttcr + d, 1);
    hide Wrap32, Updated, Timer.Fire, Timer.NextTick, Timer.Current;
    if d + 1 == t.NextTick() {
      RemainderUnique(0, t.Limit(), 0);
      TickDue(u);
    } else {
      TickNotDue(u);
    }
  }

  lemma TickDue(u: Timer)
    requires !u.Stopped() && u.NextTick() == 1 && u.Limit() != 0
    ensures Updated(u, 1) ==
            if u.Mode() == MODE_RESTART then u.(ttcr := 0).Fire()
            else if u.Mode() == MODE_ONE_SHOT then u.(ttcr := u.Limit(), done := true).Fire()
            else u.(ttcr := Wrap32(u.ttcr + 1)).Fire()
  {
  }

  lemma TickNotDue(u: Timer)
    requires !u.Stopped() && u.NextTick() > 1
    ensures Updated(u, 1) == u.(ttcr := Wrap32(u.ttcr + 1))
  {
  }

  lemma FireTwice(t: Timer, c: U32)
    ensures t.Fire().Fire() == t.Fire()
    ensures t.(ttcr := c).Fire() == t.Fire().(ttcr := c)
  {
    FireKeepsFields(t);
  }

  lemma AfterStepPastTick(t: Timer, d: nat)
    requires !t.Stopped() && t.Limit() != 0 && d >= t.NextTick()
    ensures After(t, d + 1) == Updated(After(t, d), 1)
  {
    if t.Mode() == MODE_RESTART {
      RestartStep(t, d - t.NextTick());
      assert After(t, d + 1) == t.(ttcr := (d - t.NextTick() + 1) % t.Limit()).Fire();
    } else if t.Mode() == MODE_ONE_SHOT {
      FireKeepsFields(t.(ttcr := t.Limit(), done := true));
    } else {
      ContinueStep(t, Wrap32(t.ttcr + d));
      WrapTwice(t.ttcr + d, 1);
    }
  }

  lemma RestartStep(t: Timer, x: nat)
    requires !t.Stopped() && t.Limit() != 0 && t.Mode() == MODE_RESTART
    ensures Updated(t.(ttcr := x % t.Limit()).Fire(), 1) == t.(ttcr := (x + 1) % t.Limit()).Fire()
  {
    ModSuccessor(x, t.Limit());
    RestartFrom(t, x % t.Limit(), (x + 1) % t.Limit());
  }

  lemma RestartFrom(t: Timer, r: nat, next: nat)
    requires !t.Stopped() && t.Mode() == MODE_RESTART && r < t.Limit()
    requires next == if r + 1 == t.Limit() then 0 else r + 1
    ensures Updated(t.(ttcr := r).Fire(), 1) == t.(ttcr := next).Fire()
  {
    var u := t.Fire().(ttcr := r);
    FireKeepsFields(t);
    FireTwice(t, r);
    FireTwice(t, next);
    FireTwice(t.Fire(), 0);
    assert u.Current() == r && u.Limit() == t.Limit() && !u.Stopped();
    NextIsDistance(u);
    hide Updated, Timer.Fire, Timer.NextTick, Timer.Current;
    if r + 1 == t.Limit() {
      TickDue(u);
    } else {
      TickNotDue(u);
    }
  }

  lemma NextIsDistance(u: Timer)
    ensures u.Current() < u.Limit() ==> u.NextTick() == u.Limit() - u.Current()
  {
  }

  lemma ContinueStep(t: Timer, c: U32)
    requires !t.Stopped() && t.Mode() == MODE_CONTINUE
    ensures Updated(t.(ttcr := c).Fire(), 1) == t.(ttcr := Wrap32(c + 1)).Fire()
  {
    FireTwice(t, c);
    FireTwice(t, Wrap32(c + 1));
    FireTwice(t.Fire(), Wrap32(c + 1));
    FireKeepsFields(t);
  }

  lemma {:induction false} TicksAreAfter(t: Timer, d: nat)
    ensures Ticks(t, d) == After(t, d)
  {
    AfterZero(t);
    hide After, Updated;
    if d > 0 {
      TicksAreAfter(t, d - 1);
      AfterStep(t, d - 1);
    }
  }

  lemma AfterZero(t: Timer)
    ensures After(t, 0) == t
  {
    NextTickRange(t);
  }

  // When one update of d cycles leaves the same registers as d unit updates.  The failing
  // family is a batch that reaches the tick only through the wrap of the count (the update
  // then never looks at the limit), and, in restart mode, one that overshoots the tick by
  // anything other than whole periods.
  predicate BatchExact(t: Timer, d: nat) {
    || t.Stopped()
    || t.Limit() == 0
    || d < t.NextTick()
    || (t.Current() < t.Limit() && t.Mode() != MODE_RESTART)
    || (t.Current() < t.Limit() && (d - t.NextTick()) % t.Limit() == 0)
    || (t.Current() >= t.Limit() && t.Mode() == MODE_CONTINUE && (!t.IrqEnabled() || t.IrqPending()))
    || (t.Current() >= t.Limit() && t.Mode() == MODE_RESTART && (!t.IrqEnabled() || t.IrqPending())
        && Wrap32(t.ttcr + d) == (d - t.NextTick()) % t.Limit())
  }

  lemma BatchedTicksExact(t: Timer, d: nat)
    ensures Updated(t, d) == Ticks(t, d) <==> BatchExact(t, d)
  {
    TicksAreAfter(t, d);
    FireKeepsFields(t);
  }

  // A free-running count has no interrupt to raise: it is disabled, or pending already.
  predicate Harmless(t: Timer) {
    t.Mode() == MODE_CONTINUE && (!t.IrqEnabled() || t.IrqPending())
  }

  // A count at or past its limit does not run through the 28-bit wrap within d cycles, or it
  // does not matter.
  predicate WrapFree(t: Timer, d: nat) {
    t.Stopped() || t.Limit() == 0 || Harmless(t) || t.Current() < t.Limit() || t.Current() + d < TWO28
  }

  lemma HarmlessUpdate(t: Timer, d: nat)
    requires Harmless(t)
    ensures Updated(t, d) == if t.Stopped() then t else t.(ttcr := Wrap32(t.ttcr + d))
    ensures Harmless(Updated(t, d))
  {
  }

  lemma SplitHarmless(t: Timer, d1: nat, d2: nat)
    requires Harmless(t)
    ensures Updated(t, d1 + d2) == Updated(Updated(t, d1), d2)
    ensures Updated(t, d1).ttmr == t.ttmr && Updated(t, d1).done == t.done
  {
    HarmlessUpdate(t, d1);
    HarmlessUpdate(t, d1 + d2);
    HarmlessUpdate(Updated(t, d1), d2);
    WrapTwice(t.ttcr + d1, d2);
    hide Updated, Harmless, Wrap32;
  }

  // The count does not meet its limit, so that only the count moves.
  lemma NotYetDue(t: Timer, d: nat)
    requires !t.Stopped() && d < t.NextTick()
    ensures Updated(t, d) == t.(ttcr := Wrap32(t.ttcr + d))
  {
  }

  lemma SplitRunning(t: Timer, d1: nat, d2: nat)
    requires !t.Stopped() && t.Limit() != 0 && d1 < t.NextTick()
    requires t.Current() < t.Limit() || t.Current() + d1 < TWO28
    ensures Updated(t, d1 + d2) == Updated(Updated(t, d1), d2)
    ensures Updated(t, d1).Current() == t.Current() + d1
  {
    CountAhead(t.ttcr, d1);
    NotYetDue(t, d1);
    WrapTwice(t.ttcr + d1, d2);
    hide Wrap32;
  }

  // Charging a batch in two parts is charging it at once, if the first part ends before the
  // tick is due; until then no interrupt is raised.
  lemma UpdateSplit(t: Timer, d1: nat, d2: nat)
    requires d1 < t.NextTick() && WrapFree(t, d1)
    ensures Updated(t, d1 + d2) == Updated(Updated(t, d1), d2)
    ensures Updated(t, d1).ttmr == t.ttmr && Updated(t, d1).done == t.done
    ensures WrapFree(Updated(t, d1), d2) ==> WrapFree(t, d1 + d2)
  {
    if t.Stopped() {
    } else if Harmless(t) {
      SplitHarmless(t, d1, d2);
    } else {
      NotYetDue(t, d1);
      WrapTwice(t.ttcr + d1, d2);
      if t.Limit() != 0 {
        SplitRunning(t, d1, d2);
      }
      hide Wrap32;
    }
  }
}
