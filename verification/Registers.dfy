/** The registers, bit by bit: what raising an exception, polling the interrupt lines, returning,
    writing a special register, falling asleep and completing an instruction make of them.  Bits are
    written as numbers here, and addresses by arithmetic. */
module Registers {
  import opened Words
  import opened Ticking
  import opened Core
  import opened Quantum

  // ---- Raising an exception

  // SM is set; TEE, IEE, DME and IME are clear; DSX is set if it was or in a delay slot; every other bit
  // is as before.
  predicate EntryBits(before: bv32, after: bv32, delaySlot: bool) {
    && after & 0x1 != 0 && after & 0x2 == 0 && after & 0x4 == 0 && after & 0x20 == 0 && after & 0x40 == 0
    && (after & 0x2000 != 0 <==> before & 0x2000 != 0 || delaySlot)
    && after & 0xffff_df98 == before & 0xffff_df98
  }

  lemma EntryStatusBits(status: bv32, delaySlot: bool)
    ensures EntryBits(status, EntryStatus(status, delaySlot), delaySlot)
  {
  }

  // The doze bit is clear; every other bit is as before.
  predicate Woken(before: bv32, after: bv32) { after & 0x10 == 0 && after | 0x10 == before | 0x10 }

  lemma ClearedBits(w: bv32)
    ensures Woken(w, Cleared(w, PMR_DOZE))
  {
  }

  // Vectors are in the uppermost segment.
  predicate PrefixHigh(status: bv32) { status & 0x4000 != 0 }

  lemma HasBits(w: bv32)
    ensures Has(w, SR_TEE) <==> w & 0x2 != 0
    ensures Has(w, SR_IEE) <==> w & 0x4 != 0
    ensures Has(w, SR_SM) <==> w & 0x1 != 0
    ensures Has(w, PMR_DOZE) <==> w & 0x10 != 0
  {
  }

  // The number of the vector of an exception.
  function VectorNumber(e: Exception): nat {
    match e
    case HardReset => 1
    case InsnBusError => 2
    case DataBusError => 2
    case DataPageFault => 3
    case InsnPageFault => 4
    case TickTimer => 5
    case InsnAlignment => 6
    case DataAlignment => 6
    case IllegalInsn => 7
    case External => 8
    case DataTlbMiss => 9
    case InsnTlbMiss => 10
    case Range => 11
    case Syscall => 12
    case FloatingPoint => 13
    case Trap => 14
  }

  // The address of a vector: above the base, or at its place in the uppermost of sixteen segments.
  function VectorAddress(base: U32, high: bool, e: Exception): int {
    var at := (base + 0x100 * VectorNumber(e)) % 0x1_0000_0000;
    if high then 0xf000_0000 + at % 0x1000_0000 else at
  }

  lemma VectorsApart(base: U32, high: bool, e: Exception)
    ensures EntryAddress(base, high, e) == VectorAddress(base, high, e)
  {
  }

  predicate IsInterrupt(e: Exception) { e == TickTimer || e == External }

  // An interrupt is masked unless its bit is set; no other exception is.
  predicate Refused(status: bv32, e: Exception) {
    (e == TickTimer && status & 0x2 == 0) || (e == External && status & 0x4 == 0)
  }

  // Where the program goes on: interrupts repeat a branch whose delay slot is to come, and other faults
  // one whose delay slot they are in; a system call goes on behind itself.
  function GoesOnAt<A>(c: Cpu<A>, e: Exception): int {
    if IsInterrupt(e) then if c.instructions + 1 == c.jumpInsn then c.prevPc else c.nextPc
    else if e == Syscall || e == FloatingPoint then
      if c.instructions + 1 == c.jumpInsn then c.jumpTarget else (c.nextPc + 4) % 0x1_0000_0000
    else if c.instructions == c.jumpInsn then c.prevPc else c.nextPc
  }

  lemma ResumesAt<A>(c: Cpu<A>, e: Exception)
    ensures ResumePc(c, e) == GoesOnAt(c, e)
  {
  }

  lemma NeverRefused(status: bv32, e: Exception)
    requires !IsInterrupt(e)
    ensures !Refused(status, e)
  {
  }

  // All that an exception does to the registers.
  ghost predicate EntersAt<A>(c: Cpu<A>, r: Cpu<A>, e: Exception, addr: U32) {
    && EntryBits(c.status, r.status, c.instructions == c.jumpInsn)
    && r.exsr == c.status && r.exea == addr && r.expc == GoesOnAt(c, e)
    && Woken(c.pmr, r.pmr)
    && (if IsInterrupt(e) then
          r.jumpInsn == 0 && r.jumpTarget == c.jumpTarget
          && r.nextPc == VectorAddress(c.evba, PrefixHigh(c.status), e)
        else
          r.jumpInsn == c.instructions && r.nextPc == c.nextPc
          && r.jumpTarget == VectorAddress(c.evba, PrefixHigh(c.status), e))
    && r.instructions == c.instructions && r.prevPc == c.prevPc && r.evba == c.evba
    && r.picMr == c.picMr && r.picSr == c.picSr && r.arch == c.arch
  }

  lemma RefusedIsMasked(status: bv32, e: Exception)
    ensures Masked(status, e) <==> Refused(status, e)
  {
    HasBits(status);
    hide Has;
  }

  lemma SavedExact<A>(c: Cpu<A>, e: Exception, addr: U32)
    ensures var r := Saved(c, e, addr);
            && EntryBits(c.status, r.status, c.instructions == c.jumpInsn)
            && Woken(c.pmr, r.pmr)
            && r == c.(jumpInsn := 0, expc := GoesOnAt(c, e), exea := addr, exsr := c.status, status := r.status, pmr := r.pmr)
  {
    EntryStatusBits(c.status, c.InDelaySlot());
    ClearedBits(c.pmr);
    ResumesAt(c, e);
    hide EntryStatus, Cleared, ResumePc, GoesOnAt, EntryBits, Woken;
  }

  lemma PrefixBit(status: bv32)
    ensures Has(status, SR_EPH) <==> PrefixHigh(status)
  {
  }

  lemma RedirectedExact<A>(c: Cpu<A>, e: Exception)
    ensures var at := VectorAddress(c.evba, PrefixHigh(c.status), e);
            && 0 <= at < 0x1_0000_0000 && at % 4 == 0
            && Redirected(c, e) == if IsInterrupt(e) then c.(nextPc := at) else c.(jumpInsn := c.instructions, jumpTarget := at)
  {
    PrefixBit(c.status);
    VectorsApart(c.evba, PrefixHigh(c.status), e);
    EntryAligned(c.evba, PrefixHigh(c.status), e);
    var at := EntryPc(c.evba, Has(c.status, SR_EPH), e);
    assert at == VectorAddress(c.evba, PrefixHigh(c.status), e) by {
      hide Has, EntryAddress, VectorAddress, PrefixHigh;
    }
    hide Has, EntryPc, VectorAddress, PrefixHigh;
  }

  lemma SavedPrefix(before: bv32, after: bv32, delaySlot: bool)
    requires EntryBits(before, after, delaySlot)
    ensures PrefixHigh(after) == PrefixHigh(before)
  {
  }

  lemma EntersFrom<A>(c: Cpu<A>, e: Exception, addr: U32)
    ensures EntersAt(c, Redirected(Saved(c, e, addr), e), e, addr)
  {
    SavedExact(c, e, addr);
    var s := Saved(c, e, addr);
    SavedPrefix(c.status, s.status, c.instructions == c.jumpInsn);
    RedirectedExact(s, e);
    hide Saved, Redirected, VectorAddress, GoesOnAt, EntryBits, Woken, PrefixHigh, IsInterrupt;
  }

  // An exception that is not masked enters its handler privileged, with interrupts and translation
  // off and the doze bit clear; a masked one changes nothing.
  lemma RaisedExact<A>(c: Cpu<A>, e: Exception, addr: U32)
    ensures if Refused(c.status, e) then Raised(c, e, addr) == c else EntersAt(c, Raised(c, e, addr), e, addr)
  {
    RefusedIsMasked(c.status, e);
    EntersFrom(c, e, addr);
    hide Masked, Refused, Saved, Redirected, EntersAt;
  }

  // ---- Interrupt lines

  // The line's bit is set.
  predicate Up(w: bv32, line: bv32) { line < 32 && (w >> line) & 1 == 1 }

  // The line is raised, and enabled.
  predicate LineUp(raised: bv32, enabled: bv32, line: bv32) { Up(raised, line) && Up(enabled, line) }

  ghost predicate SomeLineUp(raised: bv32, enabled: bv32) { exists line :: LineUp(raised, enabled, line) }

  // The lowest bit that is set, by halving the word.
  function LowestBit(w: bv32): bv32 {
    var a: bv32 := if w & 0xffff == 0 then 16 else 0;
    var b: bv32 := if (w >> a) & 0xff == 0 then a + 8 else a;
    var c: bv32 := if (w >> b) & 0xf == 0 then b + 4 else b;
    var d: bv32 := if (w >> c) & 0x3 == 0 then c + 2 else c;
    if (w >> d) & 0x1 == 0 then d + 1 else d
  }

  lemma LinesMeet(raised: bv32, enabled: bv32)
    ensures raised & enabled != 0 ==> LineUp(raised, enabled, LowestBit(raised & enabled))
  {
  }

  lemma LineMeets(raised: bv32, enabled: bv32, line: bv32)
    ensures LineUp(raised, enabled, line) ==> raised & enabled != 0
  {
  }

  lemma LineExact<A>(c: Cpu<A>)
    ensures c.InterruptLine() <==> SomeLineUp(c.picSr, c.picMr)
  {
    LinesMeet(c.picSr, c.picMr);
    forall line | LineUp(c.picSr, c.picMr, line) ensures c.InterruptLine() {
      LineMeets(c.picSr, c.picMr, line);
    }
    hide LineUp, Up, LowestBit;
  }

  // An external interrupt is to be taken.
  ghost predicate LineTaken<A>(c: Cpu<A>) { c.status & 0x4 != 0 && SomeLineUp(c.picSr, c.picMr) }

  // Polling takes the external interrupt if and only if it is enabled and some enabled line is raised;
  // else, and so if every raised line is masked, the machine is as it was.
  lemma PolledExact<A>(m: Machine<A>)
    ensures if LineTaken(m.cpu) then
              EntersAt(m.cpu, Polled(m).cpu, External, 0) && Polled(m) == m.(cpu := Polled(m).cpu)
            else Polled(m) == m
  {
    LineExact(m.cpu);
    RaisedExact(m.cpu, External, 0);
    hide Raised, EntersAt, SomeLineUp;
  }

  // While every raised line is masked, nothing happens.
  lemma MaskedLinesWait<A>(m: Machine<A>)
    requires forall line :: Up(m.cpu.picSr, line) ==> !Up(m.cpu.picMr, line)
    ensures Polled(m) == m
  {
    PolledExact(m);
    hide Polled, Up, EntersAt;
  }

  // ---- Between batches, and at the start of a quantum

  // The fields of the mode register.
  lemma ModeBits(t: Timer)
    ensures t.Mode() == t.ttmr / 0x4000_0000 && (t.Enabled() <==> t.ttmr >= 0x4000_0000)
    ensures t.IrqEnabled() <==> t.ttmr / 0x2000_0000 % 2 == 1
    ensures t.IrqPending() <==> t.ttmr / 0x1000_0000 % 2 == 1
    ensures t.Limit() == t.ttmr % 0x1000_0000 && t.Current() == t.ttcr % 0x1000_0000
  {
  }

  // The timer, charged with the cycles since its last update.
  function ChargedTimer<A>(m: Machine<A>): Timer {
    if m.tickUpdate <= m.cycles then Updated(m.timer, m.cycles - m.tickUpdate) else m.timer
  }

  // A tick interrupt is to be taken: the timer runs, its pending bit is set, and it is enabled.
  predicate TickTaken(t: Timer, status: bv32) {
    t.ttmr >= 0x4000_0000 && t.ttmr / 0x1000_0000 % 2 == 1 && status & 0x2 != 0
  }

  lemma ChargedMode<A>(m: Machine<A>)
    ensures !m.timer.Enabled() ==> ChargedTimer(m) == m.timer
    ensures m.timer.Enabled() ==> ChargedTimer(m) == Updated(m.timer, m.Elapsed()) && ChargedTimer(m).Enabled()
  {
    FireKeepsFields(m.timer);
    FireKeepsFields(m.timer.(ttcr := 0));
    FireKeepsFields(m.timer.(ttcr := m.timer.Limit(), done := true));
    FireKeepsFields(m.timer.(ttcr := Wrap32(m.timer.ttcr + m.Elapsed())));
  }

  lemma TimerUpdatedExact<A>(m: Machine<A>)
    ensures var t, r := ChargedTimer(m), TimerUpdated(m);
            && r == m.(timer := t, tickUpdate := m.cycles, cpu := r.cpu)
            && if TickTaken(t, m.cpu.status) then EntersAt(m.cpu, r.cpu, TickTimer, 0) else r.cpu == m.cpu
  {
    ChargedMode(m);
    ModeBits(ChargedTimer(m));
    RaisedExact(m.cpu, TickTimer, 0);
    hide Updated, Raised, EntersAt, Timer.Enabled, Timer.IrqPending, ChargedTimer;
  }

  lemma TickLeavesLine<A>(c: Cpu<A>, r: Cpu<A>, e: Exception)
    requires EntersAt(c, r, e, 0)
    ensures r.status & 0x4 == 0
  {
    hide Woken, VectorAddress, GoesOnAt;
  }

  // Settling takes a pending tick first; a line that waits meanwhile is then masked.  Without a tick it
  // takes a waiting line, and with neither the registers are as they were.
  lemma SettledExact<A>(m: Machine<A>)
    ensures var t, r := ChargedTimer(m), Settled(m);
            && r == m.(timer := t, tickUpdate := m.cycles, cpu := r.cpu)
            && if TickTaken(t, m.cpu.status) then EntersAt(m.cpu, r.cpu, TickTimer, 0)
               else if LineTaken(m.cpu) then EntersAt(m.cpu, r.cpu, External, 0)
               else r.cpu == m.cpu
  {
    TimerUpdatedExact(m);
    var u := TimerUpdated(m);
    PolledExact(u);
    if TickTaken(ChargedTimer(m), m.cpu.status) {
      TickLeavesLine(m.cpu, u.cpu, TickTimer);
    }
    hide TimerUpdated, Polled, ChargedTimer, TickTaken, SomeLineUp, EntersAt;
  }

  // Asleep, and allowed to be.
  predicate Sleeps<A>(b: Board<A>, c: Cpu<A>) { c.pmr & 0x10 != 0 && b.allowSleep }

  // How long to sleep: to the tick if its interrupt is to wake the core, and no longer than the limit;
  // else for good.
  function SleepsFor(t: Timer): int {
    if t.ttmr >= 0x4000_0000 && t.ttmr / 0x2000_0000 % 2 == 1 then Min(t.NextTick(), t.ttmr % 0x1000_0000)
    else 0xffff_ffff_ffff_ffff
  }

  lemma SleepsForTarget(t: Timer)
    ensures SleepTarget(t) == SleepsFor(t)
  {
    ModeBits(t);
    hide Timer.Enabled, Timer.IrqEnabled, Timer.NextTick, Timer.Limit;
  }

  lemma SleepBit<A>(b: Board<A>, c: Cpu<A>)
    ensures Sleeps(b, c) <==> Has(c.pmr, PMR_DOZE) && b.allowSleep
  {
  }

  // If the environment sleeps, clock and quantum are extended by the cycles slept, and the core is
  // awake.  If not, the core sleeps on for the rest of the quantum or up to the tick, and is charged.
  lemma DozedExact<A>(b: Board<A>, m: Machine<A>)
    requires m.cycles <= m.limit
    ensures var r, n, d := Dozed(b, m), b.sleep(SleepsFor(m.timer)), Min(SleepsFor(m.timer), m.limit - m.cycles);
            if !Sleeps(b, m.cpu) then r == m
            else if n != 0 then
              && Woken(m.cpu.pmr, r.cpu.pmr)
              && r == m.(cycles := m.cycles + n, limit := m.limit + n, sleepCycles := m.sleepCycles + n,
                         cpu := m.cpu.(pmr := r.cpu.pmr))
            else r == TimerUpdated(m.(cycles := m.cycles + d, sleepCycles := m.sleepCycles + d))
  {
    SleepsForTarget(m.timer);
    SleepBit(b, m.cpu);
    ClearedBits(m.cpu.pmr);
    hide SleepTarget, SleepsFor, TimerUpdated, Cleared, Has, Woken, Sleeps;
  }

  lemma WokenSleepsNot<A>(b: Board<A>, c: Cpu<A>, r: Cpu<A>, e: Exception)
    requires EntersAt(c, r, e, 0)
    ensures !Sleeps(b, r)
  {
    hide EntryBits, VectorAddress, GoesOnAt;
  }

  lemma AwakeStays<A>(b: Board<A>, m: Machine<A>)
    ensures !Sleeps(b, m.cpu) ==> Dozed(b, m) == m
  {
    SleepBit(b, m.cpu);
    hide Has, Sleeps, SleepTarget, Skipped, Slept, TimerUpdated;
  }

  lemma PolledDozed<A>(b: Board<A>, m: Machine<A>)
    ensures var r := Dozed(b, Polled(m));
            if LineTaken(m.cpu) then EntersAt(m.cpu, r.cpu, External, 0) && r == m.(cpu := r.cpu) else r == Dozed(b, m)
  {
    hide *;
    PolledExact(m);
    if LineTaken(m.cpu) {
      WokenSleepsNot(b, m.cpu, Polled(m).cpu, External);
      AwakeStays(b, Polled(m));
    }
  }

  // A quantum starts with the external interrupt, which wakes the core, if one is to be taken; else
  // with sleep, as above.
  lemma EnteredExact<A>(b: Board<A>, m: Machine<A>, quantum: U32)
    ensures var q, r := m.(limit := m.cycles + quantum), Entered(b, m, quantum);
            if LineTaken(m.cpu) then EntersAt(m.cpu, r.cpu, External, 0) && r == q.(cpu := r.cpu)
            else r == Dozed(b, q)
  {
    hide Polled, Dozed, EntersAt, LineTaken;
    PolledDozed(b, m.(limit := m.cycles + quantum));
  }

  // ---- Special registers

  // The lines 0 and 1 cannot be disabled; the others are as written.
  lemma LinesEnabled(v: bv32, line: bv32)
    requires line < 32
    ensures Up(v | PIC_NMI, line) <==> line < 2 || Up(v, line)
  {
  }

  lemma BothUp(v: bv32, w: bv32, line: bv32)
    requires line < 32
    ensures Up(v & w, line) <==> Up(v, line) && Up(w, line)
  {
  }

  lemma InvertedUp(v: bv32, line: bv32)
    requires line < 32
    ensures Up(!v, line) <==> !Up(v, line)
  {
    assert !v == v ^ 0xffff_ffff;
  }

  // Of lines that are not level-triggered, writing lowers those written as one.
  lemma LinesLowered(raised: bv32, v: bv32, line: bv32)
    requires line < 32
    ensures Up(Cleared(raised, v), line) <==> Up(raised, line) && !Up(v, line)
  {
    var w := !v;
    assert Cleared(raised, v) == raised & w;
    BothUp(raised, w, line);
    InvertedUp(v, line);
    hide Up, Cleared;
  }

  // What the enabled lines are after a write of v.
  ghost predicate AsWritten(enabled: bv32, v: bv32) {
    forall line: bv32 | line < 32 :: Up(enabled, line) <==> line < 2 || Up(v, line)
  }

  ghost predicate Lowered(before: bv32, after: bv32, v: bv32) {
    forall line: bv32 | line < 32 :: Up(after, line) <==> Up(before, line) && !Up(v, line)
  }

  lemma PicWrites(w: bv32, v: bv32)
    ensures AsWritten(v | PIC_NMI, v) && Lowered(w, Cleared(w, v), v)
  {
    forall line: bv32 | line < 32 ensures Up(v | PIC_NMI, line) <==> line < 2 || Up(v, line) {
      LinesEnabled(v, line);
    }
    forall line: bv32 | line < 32 ensures Up(Cleared(w, v), line) <==> Up(w, line) && !Up(v, line) {
      LinesLowered(w, v, line);
    }
    hide Up, Cleared;
  }

  // What a privileged write makes of the registers, if it is neither to the timer nor falls asleep.
  ghost predicate Writes<A>(picLevel: bool, c: Cpu<A>, r: Cpu<A>, w: SprWrite) {
    match w
    case ToSr(v) => r == c.(status := v)
    case ToEsr(v) => r == c.(exsr := v)
    case ToPicMr(v) => AsWritten(r.picMr, v) && r == c.(picMr := r.picMr)
    case ToPicSr(v) => if picLevel then r == c else Lowered(c.picSr, r.picSr, v) && r == c.(picSr := r.picSr)
    case ToNpc(v) => r == c.(nextPc := v)
    case ToEvbar(v) => r == c.(evba := v)
    case ToPpc(v) => r == c.(prevPc := v)
    case ToEpcr(v) => r == c.(expc := v)
    case ToEear(v) => r == c.(exea := v)
    case _ => r == c
  }

  lemma RegisterWrittenExact<A>(picLevel: bool, c: Cpu<A>, w: SprWrite)
    ensures Writes(picLevel, c, RegisterWritten(picLevel, c, w), w)
  {
    if w.ToPicMr? || w.ToPicSr? {
      PicWrites(c.picSr, w.bits);
    }
    hide AsWritten, Lowered, Cleared;
  }

  // A write without the privilege for it only ends the batch.  One of the count restarts the timer, and
  // one of the power register may put the core to sleep at once.
  lemma SprWrittenExact<A>(b: Board<A>, m: Machine<A>, w: SprWrite)
    ensures var q, r := m.(breakRequested := true), SprWritten(b, m, w);
            if m.cpu.status & 0x1 == 0 then r == q
            else
              match w
              case ToTtmr(v) => r == q.(timer := Timer(m.timer.done, v, m.timer.ttcr))
              case ToTtcr(v) => r == q.(timer := Timer(false, m.timer.ttmr, v))
              case ToPmr(v) => r == Dozed(b, q.(cpu := m.cpu.(pmr := v)))
              case _ => r == q.(cpu := r.cpu) && Writes(b.picLevel, m.cpu, r.cpu, w)
  {
    HasBits(m.cpu.status);
    RegisterWrittenExact(b.picLevel, m.cpu, w);
    hide Has, Dozed, RegisterWritten, Writes;
  }

  // ---- Leaving an exception

  predicate Supervisor(status: bv32) { status & 0x1 != 0 }

  // Registers of the supervisor may be read by it, or by all if it says so.
  predicate Reads(status: bv32) { status & 0x1 != 0 || status & 0x1_0000 != 0 }

  lemma ReadBits(status: bv32)
    ensures (MayRead(status) <==> Reads(status)) && (Has(status, SR_SM) <==> Supervisor(status))
    ensures Supervisor(status) ==> Reads(status)
  {
  }

  lemma EntrySupervises<A>(c: Cpu<A>, r: Cpu<A>, e: Exception, addr: U32)
    requires EntersAt(c, r, e, addr)
    ensures Supervisor(r.status) && r.exsr == c.status
  {
    hide Woken, VectorAddress, GoesOnAt;
  }

  // A return jumps to the saved address, or to zero if that may not be read.  The supervisor restores
  // the saved status.  If the address is not aligned, the handler of the exception it raises runs
  // with the status before.
  lemma ReturnedExact<A>(c: Cpu<A>)
    ensures var target: U32, j := if Reads(c.status) then c.expc else 0, c.(jumpInsn := c.instructions);
            var r, x := Returned(c), Raised(j, InsnAlignment, target);
            if target % 4 != 0 then EntersAt(j, x, InsnAlignment, target) && r == x.(status := c.status)
            else r == j.(jumpTarget := target, status := if Supervisor(c.status) then c.exsr else c.status)
  {
    var target: U32 := if Reads(c.status) then c.expc else 0;
    var j := c.(jumpInsn := c.instructions);
    var x := Raised(j, InsnAlignment, target);
    ReadBits(c.status);
    ReadBits(x.status);
    RaisedExact(j, InsnAlignment, target);
    NeverRefused(c.status, InsnAlignment);
    if target % 4 != 0 {
      EntrySupervises(j, x, InsnAlignment, target);
    }
    hide Raised, EntersAt, MayRead, Has, Supervisor, Reads, Refused;
  }

  // ---- Flags and the other actions

  // The bit of a flag: 9, 10 and 11.
  function FlagNumber(f: Flag): bv32 {
    match f
    case FlagF => 0x200
    case FlagCY => 0x400
    case FlagOV => 0x800
  }

  lemma FlagNumbers(f: Flag)
    ensures FlagBit(f) == FlagNumber(f)
  {
  }

  // It is set or cleared, and every other bit is as before.
  lemma FlaggedExact(status: bv32, f: Flag, on: bool)
    ensures Flagged(status, f, on) == if on then status | FlagNumber(f) else status & (0xffff_ffff ^ FlagNumber(f))
  {
    FlagNumbers(f);
    hide FlagBit, FlagNumber;
  }

  // Memory takes cycles that the quantum does not lose, and a watchpoint is remembered.
  lemma AppliedExact<A>(b: Board<A>, m: Machine<A>, a: Action<A>)
    ensures a.Memory? ==> Applied(b, m, a) == m.(cycles := m.cycles + a.latency, limit := m.limit + a.latency)
    ensures a.Watch? ==> Applied(b, m, a) == m.(watchHit := true)
    ensures a.Commit? ==> Applied(b, m, a) == m.(cpu := m.cpu.(arch := a.arch))
  {
    hide Raised, SprWritten, Returned, Flagged, ScheduledJump;
  }

  // A jump is taken after the given number of instructions; one to an unaligned target raises an
  // exception in the place of its delay slot.
  lemma ScheduledExact<A>(c: Cpu<A>, target: U32, delay: nat)
    ensures var j, r := c.(jumpInsn := c.instructions + delay), ScheduledJump(c, target, delay);
            if target % 4 == 0 then r == j.(jumpTarget := target) else EntersAt(j, r, InsnAlignment, target)
  {
    var j := c.(jumpInsn := c.instructions + delay);
    RaisedExact(j, InsnAlignment, target);
    NeverRefused(c.status, InsnAlignment);
    assert WordAligned(target) <==> target % 4 == 0;
    hide Raised, EntersAt, Refused, WordAligned;
  }

  // ---- One instruction

  predicate OneSet(before: bv32, after: bv32) { after & 0x8000 != 0 && after | 0x8000 == before | 0x8000 }

  lemma FixedBit(status: bv32)
    ensures OneSet(status, Fixed(status))
  {
  }

  // Every instruction goes on to the next word, or to the target of a jump that is due.
  lemma RetiredExact<A>(c: Cpu<A>)
    ensures var r := Retired(c);
            && OneSet(c.status, r.status)
            && r == c.(status := r.status, prevPc := c.nextPc, nextPc := r.nextPc)
            && r.nextPc == if c.instructions == c.jumpInsn then c.jumpTarget else (c.nextPc + 4) % 0x1_0000_0000
  {
    FixedBit(c.status);
    hide Fixed, OneSet;
  }

  // It is recorded, counted, and takes a cycle; but the nop that stops the simulation is not counted,
  // and the one that resets the count ends the batch.
  lemma ExecutedExact<A>(b: Board<A>, m: Machine<A>)
    ensures var s := m.(cycles := m.cycles + 1, cpu := m.cpu.(instructions := m.cpu.instructions + 1),
                        trace := m.trace + [m.cpu.nextPc]);
            var x := Executed(b, m);
            match b.program(s.cpu, s.cycles, s.timer)
            case ExitNop => x == m.(stopRequested := true, trace := s.trace, cpu := Retired(m.cpu))
            case ResetNop => x == s.(breakRequested := true, cpu := Retired(m.cpu.(instructions := 0)))
            case Act(actions) => var p := AppliedAll(b, s, actions); x == p.(cpu := Retired(p.cpu))
  {
    hide AppliedAll, Retired;
  }
}
