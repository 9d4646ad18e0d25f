/** The processor core without its main loop: program counters, the encoding of delayed
    jumps by instruction counts, exceptions, special registers and sleep.

    An instruction is abstract: it is the list of primitive actions its handler performs, chosen
    by a `Program` from all it can observe. */
module Core {
  import opened Words
  import opened Ticking

  const SR_SM: bv32 := 0x1
  const SR_TEE: bv32 := 0x2
  const SR_IEE: bv32 := 0x4
  const SR_DME: bv32 := 0x20
  const SR_IME: bv32 := 0x40
  const SR_F: bv32 := 0x200
  const SR_CY: bv32 := 0x400
  const SR_OV: bv32 := 0x800
  const SR_OVE: bv32 := 0x1000
  const SR_DSX: bv32 := 0x2000
  const SR_EPH: bv32 := 0x4000
  const SR_FO: bv32 := 0x8000
  const SR_SUMRA: bv32 := 0x1_0000
  const PMR_DOZE: bv32 := 0x10
  const PIC_NMI: bv32 := 0x3

  predicate Has(w: bv32, bit: bv32) {
    w & bit != 0
  }

  function Cleared(w: bv32, bit: bv32): bv32 {
    w & !bit
  }

  // The bit that every instruction restores.
  function Fixed(status: bv32): bv32 {
    status | SR_FO
  }

  // A word-aligned code address.
  type Pc = x: int | 0 <= x < 0x1_0000_0000 && x % 4 == 0

  function Successor(pc: Pc): Pc {
    Wrap32(pc + 4)
  }

  datatype Exception =
    | HardReset | InsnAlignment | InsnTlbMiss | InsnPageFault | InsnBusError
    | DataAlignment | DataTlbMiss | DataPageFault | DataBusError
    | IllegalInsn | Syscall | Trap | Range | FloatingPoint
    | TickTimer | External

  // The exceptions an instruction raises; the other two are raised between instructions.
  type SyncException = e: Exception | e != TickTimer && e != External witness HardReset

  function Vector(e: Exception): Pc {
    match e
    case HardReset => 0x100
    case InsnAlignment => 0x600
    case InsnTlbMiss => 0xa00
    case InsnPageFault => 0x400
    case InsnBusError => 0x200
    case DataAlignment => 0x600
    case DataTlbMiss => 0x900
    case DataPageFault => 0x300
    case DataBusError => 0x200
    case IllegalInsn => 0x700
    case Syscall => 0xc00
    case Trap => 0xe00
    case Range => 0xb00
    case FloatingPoint => 0xd00
    case TickTimer => 0x500
    case External => 0x800
  }

  // The processor registers.  `arch` stands for everything a handler computes with: general
  // registers, MAC, MMUs and memory.
  datatype Cpu<A> = Cpu(
    instructions: nat,
    jumpTarget: Pc, jumpInsn: nat,
    prevPc: U32, nextPc: Pc,
    status: bv32,
    expc: U32, exea: U32, exsr: bv32, evba: Pc,
    pmr: bv32, picMr: bv32, picSr: bv32,
    arch: A)
  {
    // The instruction just counted is a jump with its delay slot still to come.
    predicate AfterJump() { instructions + 1 == jumpInsn }

    // The instruction just counted is the last one before the jump target.
    predicate InDelaySlot() { instructions == jumpInsn }

    predicate InterruptLine() { Has(picSr, picMr) }
  }

  // Writes to special registers.  The base address and the program counter are word aligned.
  datatype SprWrite =
    | ToSr(bits: bv32) | ToEsr(bits: bv32) | ToPmr(bits: bv32)
    | ToPicMr(bits: bv32) | ToPicSr(bits: bv32)
    | ToNpc(pc: Pc) | ToEvbar(base: Pc)
    | ToPpc(val: U32) | ToEpcr(val: U32) | ToEear(val: U32)
    | ToTtmr(val: U32) | ToTtcr(val: U32)
    | ToOther

  datatype Action<A> =
    | Commit(arch: A)
    | SetFlag(flag: Flag, on: bool)
    | Memory(latency: nat)
    | Watch
    | Jump(target: U32, delay: nat)
    | Raise(ex: SyncException, addr: U32)
    | WriteSpr(w: SprWrite)
    | ReturnFromException

  datatype Flag = FlagF | FlagCY | FlagOV

  function FlagBit(f: Flag): bv32 {
    match f
    case FlagF => SR_F
    case FlagCY => SR_CY
    case FlagOV => SR_OV
  }

  function Flagged(status: bv32, f: Flag, on: bool): bv32 {
    if on then status | FlagBit(f) else Cleared(status, FlagBit(f))
  }

  // What one instruction does: stop the simulation, reset the instruction counter, or act.
  datatype Effect<A> = ExitNop | ResetNop | Act(actions: seq<Action<A>>)

  // The instruction fetched in a state, given the registers, the cycle count and the timer.
  type Program<!A> = (Cpu<A>, nat, Timer) -> Effect<A>

  // The processor together with its clock, its tick timer and the requests that end a batch.
  // `trace` is the history of the addresses executed so far; nothing reads it.
  datatype Machine<A> = Machine(
    cpu: Cpu<A>,
    cycles: nat, limit: nat, sleepCycles: nat,
    timer: Timer, tickUpdate: nat,
    stopRequested: bool, breakRequested: bool, watchHit: bool,
    trace: seq<Pc>)
  {
    // Time never runs backwards.
    predicate Timed() { tickUpdate <= cycles }

    // Cycles not yet charged to the timer.
    function Elapsed(): nat { if Timed() then cycles - tickUpdate else 0 }

    // Instructions left in the quantum.
    function Budget(): int { limit - cycles }
  }

  datatype Board<!A> = Board(
    program: Program<A>,
    breakpoints: seq<Pc>,
    picLevel: bool,
    allowSleep: bool,
    sleep: U64 -> nat)

  // ---- Exceptions and jumps

  predicate Masked(status: bv32, e: Exception) {
    || (e == External && !Has(status, SR_IEE))
    || (e == TickTimer && !Has(status, SR_TEE))
  }

  function ResumePc<A>(c: Cpu<A>, e: Exception): U32 {
    match e
    case Syscall => if c.AfterJump() then c.jumpTarget else Wrap32(c.nextPc + 4)
    case FloatingPoint => if c.AfterJump() then c.jumpTarget else Wrap32(c.nextPc + 4)
    case TickTimer => if c.AfterJump() then c.prevPc else c.nextPc
    case External => if c.AfterJump() then c.prevPc else c.nextPc
    case _ => if c.InDelaySlot() then c.prevPc else c.nextPc
  }

  function EntryStatus(status: bv32, delaySlot: bool): bv32 {
    (status | SR_SM | (if delaySlot then SR_DSX else 0)) & !(SR_IEE | SR_TEE | SR_IME | SR_DME)
  }

  function EntryAddress(base: U32, prefixHigh: bool, e: Exception): U32 {
    var target := Wrap32(Vector(e) + base);
    if prefixHigh then target % TWO28 + 0xf000_0000 else target
  }

  lemma EntryAligned(base: U32, prefixHigh: bool, e: Exception)
    ensures WordAligned(EntryAddress(base, prefixHigh, e)) <==> WordAligned(base)
  {
    hide Vector;
  }

  function EntryPc(base: Pc, prefixHigh: bool, e: Exception): Pc {
    EntryAligned(base, prefixHigh, e);
    EntryAddress(base, prefixHigh, e)
  }

  // The interrupted state is saved, pending jumps are cancelled, and the core runs privileged.
  function Saved<A>(c: Cpu<A>, e: Exception, addr: U32): Cpu<A> {
    c.(jumpInsn := 0, expc := ResumePc(c, e), exea := addr, exsr := c.status,
       status := EntryStatus(c.status, c.InDelaySlot()), pmr := Cleared(c.pmr, PMR_DOZE))
  }

  // Exceptions between instructions redirect the program counter at once; those within an
  // instruction jump without a delay slot.
  function Redirected<A>(c: Cpu<A>, e: Exception): Cpu<A> {
    var target := EntryPc(c.evba, Has(c.status, SR_EPH), e);
    if e == TickTimer || e == External then c.(nextPc := target)
    else c.(jumpInsn := c.instructions, jumpTarget := target)
  }

  function Raised<A>(c: Cpu<A>, e: Exception, addr: U32): Cpu<A> {
    if Masked(c.status, e) then c else Redirected(Saved(c, e, addr), e)
  }

  function ScheduledJump<A>(c: Cpu<A>, target: U32, delay: nat): Cpu<A> {
    if WordAligned(target) then c.(jumpTarget := target, jumpInsn := c.instructions + delay)
    else Raised(c.(jumpInsn := c.instructions + delay), InsnAlignment, target)
  }

  // ---- Timer and sleep

  function TimerUpdated<A>(m: Machine<A>): Machine<A> {
    if m.timer.Enabled() then
      var t := Updated(m.timer, m.Elapsed());
      m.(timer := t, tickUpdate := m.cycles,
         cpu := if t.IrqPending() then Raised(m.cpu, TickTimer, 0) else m.cpu)
    else
      m.(tickUpdate := m.cycles)
  }

  const FOREVER: U64 := 0xffff_ffff_ffff_ffff

  // The environment may sleep on our behalf and wake us; otherwise the rest of the quantum is
  // skipped, up to the next tick, and we stay asleep.
  function SleepTarget(t: Timer): U64 {
    if t.Enabled() && t.IrqEnabled() then Min(t.NextTick(), t.Limit()) else FOREVER
  }

  // Skip cycles without executing, within the quantum.
  function Skipped<A>(m: Machine<A>, skip: nat): Machine<A> {
    var n := if m.cycles <= m.limit then Min(skip, m.limit - m.cycles) else skip;
    m.(cycles := m.cycles + n, sleepCycles := m.sleepCycles + n)
  }

  // Cycles slept by the environment are not taken from the quantum.
  function Slept<A>(m: Machine<A>, n: nat): Machine<A> {
    m.(cycles := m.cycles + n, sleepCycles := m.sleepCycles + n, limit := m.limit + n,
       cpu := m.cpu.(pmr := Cleared(m.cpu.pmr, PMR_DOZE)))
  }

  function Dozed<A>(b: Board<A>, m: Machine<A>): Machine<A> {
    var skip := SleepTarget(m.timer);
    if !Has(m.cpu.pmr, PMR_DOZE) || !b.allowSleep then m
    else if b.sleep(skip) != 0 then Slept(m, b.sleep(skip))
    else TimerUpdated(Skipped(m, skip))
  }

  // ---- Actions

  // Every write, even one without the privilege for it, ends the batch.
  function SprWritten<A>(b: Board<A>, m: Machine<A>, w: SprWrite): Machine<A> {
    SprTaken(b, m.(breakRequested := true), w)
  }

  function SprTaken<A>(b: Board<A>, m: Machine<A>, w: SprWrite): Machine<A> {
    if !Has(m.cpu.status, SR_SM) then m
    else
      match w
      case ToPmr(v) => Dozed(b, m.(cpu := m.cpu.(pmr := v)))
      case ToTtmr(v) => m.(timer := m.timer.(ttmr := v))
      case ToTtcr(v) => m.(timer := Timer(false, m.timer.ttmr, v))
      case _ => m.(cpu := RegisterWritten(b.picLevel, m.cpu, w))
  }

  function RegisterWritten<A>(picLevel: bool, c: Cpu<A>, w: SprWrite): Cpu<A> {
    match w
    case ToSr(v) => c.(status := v)
    case ToEsr(v) => c.(exsr := v)
    case ToPicMr(v) => c.(picMr := v | PIC_NMI)
    case ToPicSr(v) => if picLevel then c else c.(picSr := Cleared(c.picSr, v))
    case ToNpc(v) => c.(nextPc := v)
    case ToEvbar(v) => c.(evba := v)
    case ToPpc(v) => c.(prevPc := v)
    case ToEpcr(v) => c.(expc := v)
    case ToEear(v) => c.(exea := v)
    case _ => c
  }

  // Reads of EPCR and ESR yield zero without the privilege to read them.
  predicate MayRead(status: bv32) {
    Has(status, SR_SM | SR_SUMRA)
  }

  function Returned<A>(c: Cpu<A>): Cpu<A> {
    var target := if MayRead(c.status) then c.expc else 0;
    var j := ScheduledJump(c, target, 0);
    var status := if MayRead(j.status) then j.exsr else 0;
    if Has(j.status, SR_SM) then j.(status := status) else j
  }

  function Applied<A>(b: Board<A>, m: Machine<A>, a: Action<A>): Machine<A> {
    var c := m.cpu;
    match a
    case Commit(arch) => m.(cpu := c.(arch := arch))
    case SetFlag(f, on) =>
      m.(cpu := c.(status := Flagged(c.status, f, on)))
    case Memory(n) => m.(cycles := m.cycles + n, limit := m.limit + n)
    case Watch => m.(watchHit := true)
    case Jump(target, delay) => m.(cpu := ScheduledJump(c, target, delay))
    case Raise(e, addr) => m.(cpu := Raised(c, e, addr))
    case WriteSpr(w) => SprWritten(b, m, w)
    case ReturnFromException => m.(cpu := Returned(c), breakRequested := true)
  }

  function AppliedAll<A>(b: Board<A>, m: Machine<A>, actions: seq<Action<A>>): Machine<A>
    decreases |actions|
  {
    if actions == [] then m else AppliedAll(b, Applied(b, m, actions[0]), actions[1..])
  }

  // ---- What every action keeps

  // Time moves forward, the quantum is never overdrawn, and neither the history nor a pending
  // request is lost.
  predicate Onward<A>(m: Machine<A>, r: Machine<A>) {
    && (m.Timed() ==> r.Timed())
    && m.cycles <= r.cycles && m.limit <= r.limit
    && (m.Budget() >= 0 ==> 0 <= r.Budget() <= m.Budget())
    && r.trace == m.trace
    && r.stopRequested == m.stopRequested
    && (m.breakRequested ==> r.breakRequested)
    && (m.watchHit ==> r.watchHit)
  }

  lemma TimerUpdatedOnward<A>(m: Machine<A>)
    ensures Onward(m, TimerUpdated(m)) && TimerUpdated(m).Budget() == m.Budget()
  {
  }

  lemma SkippedOnward<A>(m: Machine<A>, skip: nat)
    ensures Onward(m, Skipped(m, skip))
  {
  }

  lemma DozedOnward<A>(b: Board<A>, m: Machine<A>)
    ensures Onward(m, Dozed(b, m))
  {
    var skip := SleepTarget(m.timer);
    SkippedOnward(m, skip);
    TimerUpdatedOnward(Skipped(m, skip));
  }

  lemma SprWrittenOnward<A>(b: Board<A>, m: Machine<A>, w: SprWrite)
    ensures Onward(m, SprWritten(b, m, w)) && SprWritten(b, m, w).breakRequested
  {
    if w.ToPmr? {
      var d := m.(cpu := m.cpu.(pmr := w.bits), breakRequested := true);
      DozedOnward(b, d);
    }
  }

  lemma AppliedOnward<A>(b: Board<A>, m: Machine<A>, a: Action<A>)
    ensures Onward(m, Applied(b, m, a))
  {
    if a.WriteSpr? {
      SprWrittenOnward(b, m, a.w);
    }
  }

  lemma {:induction false} AppliedAllOnward<A>(b: Board<A>, m: Machine<A>, actions: seq<Action<A>>)
    ensures Onward(m, AppliedAll(b, m, actions))
    decreases |actions|
  {
    if actions != [] {
      AppliedOnward(b, m, actions[0]);
      AppliedAllOnward(b, Applied(b, m, actions[0]), actions[1..]);
    }
  }
}
