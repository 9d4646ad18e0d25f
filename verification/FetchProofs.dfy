/** The three caches of the instruction fetch are transparent: every run fetches what the
    reference fetches, if stored code is invalidated before it is fetched again, writes of the page
    tables leave the TLB in agreement, and the latched page is translated as when it was latched
    whenever it is used.  For the latch, this is exact. */
module FetchTransparency {
  import opened Words
  import opened Core
  import opened Translation
  import opened TlbStructure
  import opened TlbTransparency
  import opened Fetching

  // ---- The page latch

  lemma PhysicalByPage(trans: bv32, a: bv32, b: bv32)
    ensures Physical(trans, b) == OnPage(PageAlign(Physical(trans, a)), b)
  {
  }

  lemma PhysicalAligned(trans: bv32, a: bv32)
    requires Aligned(a)
    ensures Aligned(Physical(trans, a))
  {
  }

  lemma AlignedIsNotInvalid(a: bv32)
    requires Aligned(a)
    ensures a != INVALID_ADDR
  {
  }

  lemma FrameIsNotInvalid(a: bv32)
    ensures PageAlign(a) != INVALID_ADDR && SamePage(PageAlign(a), a)
  {
  }

  // What a fetch makes of the walk of its page.
  function FromWalk(g: Setting, walk: Option<bv32>, pc: bv32): Result {
    if !g.cfg.htr || walk.None? then TlbMiss
    else if !Permits(Loaded(walk.value, true), Access(true, false, g.supervisor)) then PageFault
    else Okay(Physical(Loaded(walk.value, true), pc), 0)
  }

  lemma PureFromWalk(g: Setting, pc: bv32)
    ensures Pure(g.cfg, g.tables, g.ctrl, FetchRequest(g, pc)) == FromWalk(g, Walk(g.tables, g.ctrl, pc), pc)
  {
    hide Walk, Loaded, Physical, Permits;
    var walk := Walk(g.tables, g.ctrl, pc);
    if walk.Some? {
      PermitsByKind(Loaded(walk.value, true), FetchRequest(g, pc));
    }
  }

  // A page translates as a whole: with the same result code, and to one physical page.
  lemma PureByPage(g: Setting, a: bv32, b: bv32)
    requires SamePage(a, b)
    ensures var p, q := Pure(g.cfg, g.tables, g.ctrl, FetchRequest(g, a)), Pure(g.cfg, g.tables, g.ctrl, FetchRequest(g, b));
            match p
            case Okay(addr, _) => q == Okay(OnPage(PageAlign(addr), b), 0)
            case TlbMiss => q == TlbMiss
            case PageFault => q == PageFault
  {
    hide Walk, Loaded, Physical, OnPage, PageAlign, SamePage, Permits, Pure, FetchRequest;
    PureFromWalk(g, a);
    PureFromWalk(g, b);
    WalkByPage(g.tables, g.ctrl, a, b);
    var walk := Walk(g.tables, g.ctrl, a);
    if walk.Some? {
      PhysicalByPage(Loaded(walk.value, true), a, b);
    }
  }

  // The latched page is the translation of its virtual page.
  ghost predicate LatchRight(g: Setting, c: Caches) {
    var p := Pure(g.cfg, g.tables, g.ctrl, FetchRequest(g, c.virt));
    p.Okay? && PageAlign(p.addr) == c.phys
  }

  // The latch holds a frame, or has never been set.
  predicate LatchSet(c: Caches) { PageAlign(c.phys) == c.phys || c.phys == INVALID_ADDR }

  // Where the reference reads the instruction.
  function PureLocate(g: Setting, pc: bv32, active: bool): Located {
    if !active then At(pc)
    else
      match Pure(g.cfg, g.tables, g.ctrl, FetchRequest(g, pc))
      case TlbMiss => Blocked(InsnTlbMiss)
      case PageFault => Blocked(InsnPageFault)
      case Okay(addr, _) => At(addr)
  }

  // An instruction on the latched page is located as the walk does exactly if the page still
  // translates to the latched frame.  Nothing in the fetch checks it.
  lemma LatchExact(g: Setting, c: Caches, pc: bv32)
    requires g.Valid() && LatchSet(c) && Aligned(pc) && SamePage(c.virt, pc)
    ensures Locate(g, c, pc, true).1 == PureLocate(g, pc, true) <==> LatchRight(g, c)
  {
    hide Pure, PageAlign, SamePage, OnPage, FetchRequest, Aligned;
    PureByPage(g, c.virt, pc);
    var p := Pure(g.cfg, g.tables, g.ctrl, FetchRequest(g, c.virt));
    if p.Okay? {
      FrameInjective(c.phys, p.addr, pc);
      if c.phys == INVALID_ADDR {
        FrameIsNotInvalid(p.addr);
        PureLocateAligned(g, pc, true);
        NeverSetUnaligned(pc);
      }
    }
  }

  lemma FrameInjective(phys: bv32, addr: bv32, pc: bv32)
    ensures PageAlign(phys) == phys ==> (OnPage(phys, pc) == OnPage(PageAlign(addr), pc) <==> phys == PageAlign(addr))
  {
  }

  lemma NeverSetUnaligned(pc: bv32)
    ensures !Aligned(OnPage(INVALID_ADDR, pc))
  {
    assert OnPage(INVALID_ADDR, pc) == INVALID_ADDR;
  }

  ghost predicate TlbSound(g: Setting, c: Caches)
    requires g.Valid()
  {
    Sound(g.cfg, g.tables, g.ctrl, true, c.tlb)
  }

  // The latch is right where it is used.
  ghost predicate LatchServes(g: Setting, c: Caches, pc: bv32, active: bool) {
    active && SamePage(c.virt, pc) ==> LatchRight(g, c)
  }

  lemma LocateKeeps(g: Setting, c: Caches, pc: bv32, active: bool)
    requires g.Valid() && TlbSound(g, c) && LatchSet(c)
    ensures TlbSound(g, Locate(g, c, pc, active).0) && LatchSet(Locate(g, c, pc, active).0)
    ensures Locate(g, c, pc, active).0.decoded == c.decoded
    ensures !(active && SamePage(c.virt, pc)) ==> Locate(g, c, pc, active).1 == PureLocate(g, pc, active)
  {
    hide Pure, Translated, PageAlign, SamePage, OnPage, FetchRequest, Sound;
    if active && !SamePage(c.virt, pc) {
      FetchKind(g, pc);
      TranslationTransparent(g.cfg, g.tables, g.ctrl, true, c.tlb, FetchRequest(g, pc));
      FramesAligned();
    }
  }

  lemma FramesAligned()
    ensures forall a: bv32 :: PageAlign(PageAlign(a)) == PageAlign(a)
  {
  }

  lemma LocateTransparent(g: Setting, c: Caches, pc: bv32, active: bool)
    requires g.Valid() && TlbSound(g, c) && LatchSet(c) && Aligned(pc)
    ensures Locate(g, c, pc, active).1 == PureLocate(g, pc, active) <==> LatchServes(g, c, pc, active)
    ensures TlbSound(g, Locate(g, c, pc, active).0) && LatchSet(Locate(g, c, pc, active).0)
  {
    hide Locate, PureLocate, LatchRight, SamePage, Sound, Aligned;
    LocateKeeps(g, c, pc, active);
    if active && SamePage(c.virt, pc) {
      LatchExact(g, c, pc);
    }
  }

  // A page newly translated is latched rightly.
  lemma LatchRefreshed(g: Setting, c: Caches, pc: bv32)
    requires g.Valid() && TlbSound(g, c) && !SamePage(c.virt, pc)
    ensures PureLocate(g, pc, true).At? ==>
              LatchRight(g, Locate(g, c, pc, true).0) && Locate(g, c, pc, true).0.virt == PageAlign(pc)
    ensures !PureLocate(g, pc, true).At? ==> Locate(g, c, pc, true).0 == c.(tlb := Locate(g, c, pc, true).0.tlb)
  {
    hide Pure, Translated, PageAlign, SamePage, OnPage, FetchRequest, Sound;
    FetchKind(g, pc);
    TranslationTransparent(g.cfg, g.tables, g.ctrl, true, c.tlb, FetchRequest(g, pc));
    FrameIsNotInvalid(pc);
    SamePageLaws(pc, PageAlign(pc), pc);
    PureByPage(g, pc, PageAlign(pc));
    FrameOfFrame(g, pc);
  }

  lemma FetchKind(g: Setting, pc: bv32)
    ensures FetchRequest(g, pc).imem
  {
  }

  lemma FrameOfFrame(g: Setting, pc: bv32)
    ensures forall a: bv32 :: PageAlign(OnPage(PageAlign(a), PageAlign(pc))) == PageAlign(a)
  {
    forall a: bv32 ensures PageAlign(OnPage(PageAlign(a), PageAlign(pc))) == PageAlign(a) {
      FrameOnFrame(a, pc);
    }
  }

  lemma FrameOnFrame(a: bv32, pc: bv32)
    ensures PageAlign(OnPage(PageAlign(a), PageAlign(pc))) == PageAlign(a)
  {
  }

  lemma PureLocateAligned(g: Setting, pc: bv32, active: bool)
    requires Aligned(pc) && PureLocate(g, pc, active).At?
    ensures Aligned(PureLocate(g, pc, active).addr)
  {
    if active && Walk(g.tables, g.ctrl, pc).Some? {
      PhysicalAligned(Loaded(Walk(g.tables, g.ctrl, pc).value, true), pc);
    }
    hide Walk, Loaded, Physical, Permits, Aligned;
  }

  // From power-up, an instruction fetched through translation is looked for at the right place
  // unless it lies on the last page: the latch then sends it to the address that marks empty cache
  // slots.
  lemma FirstFetchExact(g: Setting, c: Caches, pc: bv32)
    requires g.Valid() && c.virt == c.phys == INVALID_ADDR && Aligned(pc) && TlbSound(g, c)
    ensures Locate(g, c, pc, true).1 == PureLocate(g, pc, true) <==> !SamePage(INVALID_ADDR, pc)
  {
    hide Pure, SamePage, PageAlign, PureLocate, Aligned, Locate, Sound;
    LocateTransparent(g, c, pc, true);
    var p := Pure(g.cfg, g.tables, g.ctrl, FetchRequest(g, c.virt));
    if p.Okay? {
      FrameIsNotInvalid(p.addr);
    }
  }

  // ---- The decode cache

  // A slot is empty, or holds an aligned address that selects it, with the instruction that is
  // in memory there unless the word was stored since and not yet invalidated.
  ghost predicate SlotOk(g: Setting, code: Memory, stale: set<bv32>, i: nat, e: Decoded)
    requires g.Valid()
  {
    e.addr == INVALID_ADDR ||
    (Slot(g.count, e.addr) == i && (e.addr in stale || (code(e.addr) == Some(e.insn) && g.legal(e.insn))))
  }

  ghost predicate DecodedOk(g: Setting, code: Memory, stale: set<bv32>, decoded: seq<Decoded>)
    requires g.Valid()
  {
    |decoded| == g.count && forall i | 0 <= i < |decoded| :: SlotOk(g, code, stale, i, decoded[i])
  }

  lemma LoadTransparent(g: Setting, code: Memory, stale: set<bv32>, decoded: seq<Decoded>, addr: bv32)
    requires g.Valid() && DecodedOk(g, code, stale, decoded)
    requires addr !in stale && addr != INVALID_ADDR
    ensures Load(g, code, decoded, addr).1 == PureRead(g, code, addr)
    ensures DecodedOk(g, code, stale, Load(g, code, decoded, addr).0)
  {
    hide Slot;
    assert SlotOk(g, code, stale, Slot(g.count, addr), decoded[Slot(g.count, addr)]);
  }

  // One load is right exactly if it does not hit a decoded word that memory no longer holds.  For
  // runs, that stored words are invalidated is sufficient, as a stale word may have been replaced
  // in its slot.
  lemma LoadExact(g: Setting, code: Memory, decoded: seq<Decoded>, addr: bv32)
    requires g.Valid() && |decoded| == g.count
    ensures Load(g, code, decoded, addr).1 == PureRead(g, code, addr) <==>
            var e := decoded[Slot(g.count, addr)];
            g.off || e.addr != addr || (code(addr) == Some(e.insn) && g.legal(e.insn))
  {
    hide Slot;
  }

  // ---- Stores and invalidation

  function Stored(code: Memory, addr: bv32, word: bv32): Memory {
    a => if a == addr then Some(word) else code(a)
  }

  lemma StoreKeeps(g: Setting, code: Memory, stale: set<bv32>, decoded: seq<Decoded>, addr: bv32, word: bv32)
    requires g.Valid() && DecodedOk(g, code, stale, decoded)
    ensures DecodedOk(g, Stored(code, addr, word), stale + {addr}, decoded)
  {
    hide Slot;
    forall i | 0 <= i < |decoded|
      ensures SlotOk(g, Stored(code, addr, word), stale + {addr}, i, decoded[i])
    {
      assert SlotOk(g, code, stale, i, decoded[i]);
    }
  }

  // The word addresses of a block.
  function Block(addr: bv32, words: nat): set<bv32>
    decreases words
  {
    if words == 0 then {} else {addr} + Block(addr + 4, words - 1)
  }

  // They are four bytes apart.
  function WordAt(addr: bv32, k: nat): bv32
    decreases k
  {
    if k == 0 then addr else WordAt(addr + 4, k - 1)
  }

  ghost predicate Among(addr: bv32, words: nat, a: bv32) { exists k: nat :: k < words && a == WordAt(addr, k) }

  lemma {:induction false} BlockExact(addr: bv32, words: nat, a: bv32)
    ensures a in Block(addr, words) <==> Among(addr, words, a)
    decreases words
  {
    if words > 0 {
      BlockExact(addr + 4, words - 1, a);
      AmongFirst(addr, words, a);
    }
  }

  lemma AmongFirst(addr: bv32, words: nat, a: bv32)
    requires words > 0
    ensures Among(addr, words, a) <==> a == addr || Among(addr + 4, words - 1, a)
  {
    var next := addr + 4;
    assert WordAt(addr, 0) == addr;
    if k: nat :| k < words - 1 && a == WordAt(next, k) {
      assert WordAt(addr, k + 1) == a;
    }
    if k: nat :| k < words && a == WordAt(addr, k) {
      assert k > 0 ==> WordAt(next, k - 1) == a;
    }
  }

  lemma InvalidateKeeps(g: Setting, code: Memory, stale: set<bv32>, decoded: seq<Decoded>, addr: bv32)
    requires g.Valid() && DecodedOk(g, code, stale, decoded)
    ensures DecodedOk(g, code, stale - {addr}, Invalidated1(g.count, decoded, addr))
  {
    hide Slot;
    var r := Invalidated1(g.count, decoded, addr);
    forall i | 0 <= i < |r|
      ensures SlotOk(g, code, stale - {addr}, i, r[i])
    {
      assert SlotOk(g, code, stale, i, decoded[i]);
    }
  }

  lemma {:induction false} BlockKeeps(g: Setting, code: Memory, stale: set<bv32>, decoded: seq<Decoded>, addr: bv32, words: nat)
    requires g.Valid() && DecodedOk(g, code, stale, decoded)
    ensures DecodedOk(g, code, stale - Block(addr, words), InvalidatedBlock(g.count, decoded, addr, words))
    decreases words
  {
    hide DecodedOk, Invalidated1;
    assert |decoded| == g.count by { CacheSize(g, code, stale, decoded); }
    if words == 0 {
      assert stale - Block(addr, words) == stale;
    } else {
      InvalidateKeeps(g, code, stale, decoded, addr);
      BlockKeeps(g, code, stale - {addr}, Invalidated1(g.count, decoded, addr), addr + 4, words - 1);
      assert stale - {addr} - Block(addr + 4, words - 1) == stale - Block(addr, words);
    }
  }

  lemma CacheSize(g: Setting, code: Memory, stale: set<bv32>, decoded: seq<Decoded>)
    requires g.Valid() && DecodedOk(g, code, stale, decoded)
    ensures |decoded| == g.count
  {
  }

  // ---- One fetch

  ghost predicate AllSound(g: Setting, code: Memory, stale: set<bv32>, c: Caches)
    requires g.Valid()
  {
    TlbSound(g, c) && LatchSet(c) && DecodedOk(g, code, stale, c.decoded)
  }

  // The instruction is aligned and its word is not stale.
  predicate Fetchable(g: Setting, stale: set<bv32>, pc: bv32, active: bool) {
    Aligned(pc) && (PureLocate(g, pc, active).At? ==> PureLocate(g, pc, active).addr !in stale)
  }

  lemma PureFetchSplits(g: Setting, code: Memory, pc: bv32, active: bool)
    ensures PureFetch(g, code, pc, active) ==
            match PureLocate(g, pc, active)
            case Blocked(cause) => Fault(cause, pc)
            case At(addr) => PureRead(g, code, addr)
  {
    hide Pure;
  }

  lemma FetchTransparent(g: Setting, code: Memory, stale: set<bv32>, c: Caches, pc: bv32, active: bool)
    requires g.Valid() && AllSound(g, code, stale, c) && |c.decoded| == g.count
    requires LatchServes(g, c, pc, active) && Fetchable(g, stale, pc, active)
    ensures Fetch(g, code, c, pc, active).1 == PureFetch(g, code, pc, active)
    ensures AllSound(g, code, stale, Fetch(g, code, c, pc, active).0)
  {
    hide Locate, Load, PureLocate, PureRead, PureFetch, Sound, LatchServes, LatchSet, DecodedOk, Aligned;
    LocateTransparent(g, c, pc, active);
    LocateKeeps(g, c, pc, active);
    PureFetchSplits(g, code, pc, active);
    var d := Locate(g, c, pc, active).0;
    var located := PureLocate(g, pc, active);
    if located.At? {
      PureLocateAligned(g, pc, active);
      AlignedIsNotInvalid(located.addr);
      LoadTransparent(g, code, stale, d.decoded, located.addr);
      DecodeLeavesLatch(d, Load(g, code, d.decoded, located.addr).0);
    }
  }

  lemma DecodeLeavesLatch(c: Caches, decoded: seq<Decoded>)
    requires LatchSet(c)
    ensures LatchSet(c.(decoded := decoded))
  {
    hide PageAlign;
  }

  // ---- Runs

  // What may happen between fetches: stores, invalidations, flushes and writes of the MMU, changes
  // of the page tables, and changes of the privilege.
  datatype Event =
    | FetchAt(pc: bv32, active: bool)
    | StoreWord(addr: bv32, word: bv32)
    | InvalidateLine(addr: bv32)
    | Manage(op: Operation)
    | Privilege(supervisor: bool)

  // A cache line of the architecture is 32 bytes.
  const LINE_WORDS: nat := 8

  function StateOf(g: Setting, c: Caches): State { State(c.tlb, g.ctrl, g.tables) }

  function AfterEvent(g: Setting, code: Memory, c: Caches, ev: Event): Caches
    requires g.Valid() && |c.decoded| == g.count
  {
    match ev
    case FetchAt(pc, active) => Fetch(g, code, c, pc, active).0
    case InvalidateLine(addr) => c.(decoded := InvalidatedBlock(g.count, c.decoded, addr, LINE_WORDS))
    case Manage(op) => c.(tlb := Operated(g.cfg, StateOf(g, c), op).tlb)
    case _ => c
  }

  function Governed(g: Setting, ev: Event): Setting {
    match ev
    case Manage(WriteControl(val)) => g.(ctrl := ControlWord(val))
    case Manage(WriteTables(tables)) => g.(tables := tables)
    case Privilege(supervisor) => g.(supervisor := supervisor)
    case _ => g
  }

  function CodeAfter(code: Memory, ev: Event): Memory {
    if ev.StoreWord? then Stored(code, ev.addr, ev.word) else code
  }

  function StaleAfter(stale: set<bv32>, ev: Event): set<bv32> {
    match ev
    case StoreWord(addr, _) => stale + {addr}
    case InvalidateLine(addr) => stale - Block(addr, LINE_WORDS)
    case _ => stale
  }

  lemma FetchSize(g: Setting, code: Memory, c: Caches, pc: bv32, active: bool)
    requires g.Valid() && |c.decoded| == g.count
    ensures |Fetch(g, code, c, pc, active).0.decoded| == g.count
  {
    hide Translated, SamePage, PageAlign, OnPage, FetchRequest;
  }

  lemma EventSizes(g: Setting, code: Memory, c: Caches, ev: Event)
    requires g.Valid() && |c.decoded| == g.count
    ensures |AfterEvent(g, code, c, ev).decoded| == g.count == Governed(g, ev).count && Governed(g, ev).Valid()
  {
    hide Fetch, Operated;
    if ev.FetchAt? {
      FetchSize(g, code, c, ev.pc, ev.active);
    }
  }

  // What a run fetches, through the caches and by the reference.
  function RunFetches(g: Setting, code: Memory, c: Caches, events: seq<Event>): seq<Fetched>
    requires g.Valid() && |c.decoded| == g.count
    decreases |events|
  {
    if events == [] then []
    else
      var ev := events[0];
      EventSizes(g, code, c, ev);
      (if ev.FetchAt? then [Fetch(g, code, c, ev.pc, ev.active).1] else [])
      + RunFetches(Governed(g, ev), CodeAfter(code, ev), AfterEvent(g, code, c, ev), events[1..])
  }

  function RunReference(g: Setting, code: Memory, events: seq<Event>): seq<Fetched>
    decreases |events|
  {
    if events == [] then []
    else
      (if events[0].FetchAt? then [PureFetch(g, code, events[0].pc, events[0].active)] else [])
      + RunReference(Governed(g, events[0]), CodeAfter(code, events[0]), events[1..])
  }

  // Fetches are aligned, of words that were invalidated since they were stored, and from the latch
  // only while it is right; the MMU is managed with care.
  ghost predicate Disciplined(g: Setting, code: Memory, stale: set<bv32>, c: Caches, events: seq<Event>)
    requires g.Valid() && |c.decoded| == g.count
    decreases |events|
  {
    events != [] ==>
      var ev := events[0];
      EventSizes(g, code, c, ev);
      && (ev.FetchAt? ==> Fetchable(g, stale, ev.pc, ev.active) && LatchServes(g, c, ev.pc, ev.active))
      && (ev.Manage? ==> Careful(g.cfg, true, StateOf(g, c), ev.op))
      && Disciplined(Governed(g, ev), CodeAfter(code, ev), StaleAfter(stale, ev), AfterEvent(g, code, c, ev), events[1..])
  }

  lemma ManageKeepsSound(g: Setting, code: Memory, c: Caches, op: Operation)
    requires g.Valid() && TlbSound(g, c) && |c.decoded| == g.count
    requires Careful(g.cfg, true, StateOf(g, c), op)
    ensures TlbSound(Governed(g, Manage(op)), AfterEvent(g, code, c, Manage(op)))
  {
    hide Agreeing, Structured, Careful, Translated, FlushedEntry, Flushes;
    var s := StateOf(g, c);
    CarefulKeepsAgreement(g.cfg, true, s, op);
    OperatedStructured(g.cfg, s, op);
  }

  lemma GovernedDecode(g: Setting, ev: Event, code: Memory, stale: set<bv32>, decoded: seq<Decoded>)
    requires g.Valid() && DecodedOk(g, code, stale, decoded)
    ensures DecodedOk(Governed(g, ev), code, stale, decoded)
  {
    hide Slot, ControlWord;
    forall i | 0 <= i < |decoded| ensures SlotOk(Governed(g, ev), code, stale, i, decoded[i]) {
      assert SlotOk(g, code, stale, i, decoded[i]);
    }
  }

  lemma EventKeepsSound(g: Setting, code: Memory, stale: set<bv32>, c: Caches, ev: Event)
    requires g.Valid() && AllSound(g, code, stale, c) && |c.decoded| == g.count
    requires ev.FetchAt? ==> Fetchable(g, stale, ev.pc, ev.active) && LatchServes(g, c, ev.pc, ev.active)
    requires ev.Manage? ==> Careful(g.cfg, true, StateOf(g, c), ev.op)
    ensures AllSound(Governed(g, ev), CodeAfter(code, ev), StaleAfter(stale, ev), AfterEvent(g, code, c, ev))
  {
    hide Fetch, Fetchable, LatchServes, DecodedOk, Sound, Stored, InvalidatedBlock, Block, PageAlign, Operated, Careful;
    match ev
    case FetchAt(pc, active) => FetchTransparent(g, code, stale, c, pc, active);
    case StoreWord(addr, word) => StoreKeeps(g, code, stale, c.decoded, addr, word);
    case InvalidateLine(addr) => BlockKeeps(g, code, stale, c.decoded, addr, LINE_WORDS);
    case Manage(op) =>
      ManageKeepsSound(g, code, c, op);
      GovernedDecode(g, ev, code, stale, c.decoded);
    case Privilege(_) => GovernedDecode(g, ev, code, stale, c.decoded);
  }

  lemma {:induction false} RunTransparent(g: Setting, code: Memory, stale: set<bv32>, c: Caches, events: seq<Event>)
    requires g.Valid() && AllSound(g, code, stale, c) && |c.decoded| == g.count
    requires Disciplined(g, code, stale, c, events)
    ensures RunFetches(g, code, c, events) == RunReference(g, code, events)
    decreases |events|
  {
    hide Fetch, PureFetch, AllSound, Fetchable, LatchServes, AfterEvent, CodeAfter, StaleAfter, Governed, Careful;
    if events != [] {
      var ev := events[0];
      EventSizes(g, code, c, ev);
      EventKeepsSound(g, code, stale, c, ev);
      if ev.FetchAt? {
        FetchTransparent(g, code, stale, c, ev.pc, ev.active);
      }
      RunTransparent(Governed(g, ev), CodeAfter(code, ev), StaleAfter(stale, ev), AfterEvent(g, code, c, ev), events[1..]);
    }
  }

  // From power-up.
  function Starting(g: Setting): Caches {
    Caches(EmptyTlb(), INVALID_ADDR, INVALID_ADDR, seq(g.count, _ => Decoded(INVALID_ADDR, INVALID_ADDR)))
  }

  lemma FetchCachesTransparent(g: Setting, code: Memory, events: seq<Event>)
    requires g.Valid() && Disciplined(g, code, {}, Starting(g), events)
    ensures RunFetches(g, code, Starting(g), events) == RunReference(g, code, events)
  {
    EmptySound(g.cfg, g.tables, g.ctrl, true);
    hide Sound, PageAlign;
    assert AllSound(g, code, {}, Starting(g));
    hide AllSound, Disciplined;
    RunTransparent(g, code, {}, Starting(g), events);
  }

  // Only writes of the control word or of the tables, and changes of privilege, can make a latch
  // wrong that was right.
  lemma LatchStays(g: Setting, code: Memory, c: Caches, ev: Event)
    requires g.Valid() && TlbSound(g, c) && LatchRight(g, c) && |c.decoded| == g.count
    requires !ev.Privilege? && !(ev.Manage? && Rewrites(ev.op))
    ensures LatchRight(Governed(g, ev), AfterEvent(g, code, c, ev))
  {
    hide Locate, Load, Pure, PureLocate, Sound, InvalidatedBlock, PageAlign, Operated;
    if ev.FetchAt? {
      if !ev.active || SamePage(c.virt, ev.pc) {
        LatchUsed(g, c, ev.pc, ev.active);
      } else {
        LatchRefreshed(g, c, ev.pc);
      }
    }
  }

  lemma LatchUsed(g: Setting, c: Caches, pc: bv32, active: bool)
    requires g.Valid() && (!active || SamePage(c.virt, pc))
    ensures Locate(g, c, pc, active).0 == c
  {
  }

  // ---- Which runs locate every instruction where the reference does

  function RunLocations(g: Setting, code: Memory, c: Caches, events: seq<Event>): seq<Located>
    requires g.Valid() && |c.decoded| == g.count
    decreases |events|
  {
    if events == [] then []
    else
      var ev := events[0];
      EventSizes(g, code, c, ev);
      (if ev.FetchAt? then [Locate(g, c, ev.pc, ev.active).1] else [])
      + RunLocations(Governed(g, ev), CodeAfter(code, ev), AfterEvent(g, code, c, ev), events[1..])
  }

  function ReferenceLocations(g: Setting, events: seq<Event>): seq<Located>
    decreases |events|
  {
    if events == [] then []
    else
      (if events[0].FetchAt? then [PureLocate(g, events[0].pc, events[0].active)] else [])
      + ReferenceLocations(Governed(g, events[0]), events[1..])
  }

  // At each fetch from the latch, it is right.
  ghost predicate LatchAlwaysServes(g: Setting, code: Memory, c: Caches, events: seq<Event>)
    requires g.Valid() && |c.decoded| == g.count
    decreases |events|
  {
    events != [] ==>
      var ev := events[0];
      EventSizes(g, code, c, ev);
      && (ev.FetchAt? ==> LatchServes(g, c, ev.pc, ev.active))
      && LatchAlwaysServes(Governed(g, ev), CodeAfter(code, ev), AfterEvent(g, code, c, ev), events[1..])
  }

  // Fetches are aligned, and the MMU is managed with care.
  ghost predicate Managed(g: Setting, code: Memory, c: Caches, events: seq<Event>)
    requires g.Valid() && |c.decoded| == g.count
    decreases |events|
  {
    events != [] ==>
      var ev := events[0];
      EventSizes(g, code, c, ev);
      && (ev.FetchAt? ==> Aligned(ev.pc))
      && (ev.Manage? ==> Careful(g.cfg, true, StateOf(g, c), ev.op))
      && Managed(Governed(g, ev), CodeAfter(code, ev), AfterEvent(g, code, c, ev), events[1..])
  }

  lemma EventKeepsTlb(g: Setting, code: Memory, c: Caches, ev: Event)
    requires g.Valid() && TlbSound(g, c) && LatchSet(c) && |c.decoded| == g.count
    requires ev.Manage? ==> Careful(g.cfg, true, StateOf(g, c), ev.op)
    ensures TlbSound(Governed(g, ev), AfterEvent(g, code, c, ev)) && LatchSet(AfterEvent(g, code, c, ev))
  {
    hide Locate, Load, Sound, InvalidatedBlock, PageAlign, Operated, Careful;
    match ev
    case FetchAt(pc, active) => LocateKeeps(g, c, pc, active);
    case Manage(op) => ManageKeepsSound(g, code, c, op);
    case _ =>
  }

  lemma {:induction false} LocationsExact(g: Setting, code: Memory, c: Caches, events: seq<Event>)
    requires g.Valid() && TlbSound(g, c) && LatchSet(c) && |c.decoded| == g.count
    requires Managed(g, code, c, events)
    ensures RunLocations(g, code, c, events) == ReferenceLocations(g, events) <==> LatchAlwaysServes(g, code, c, events)
    decreases |events|
  {
    hide Locate, PureLocate, TlbSound, LatchSet, LatchServes, AfterEvent, CodeAfter, Governed, Careful, Aligned;
    if events != [] {
      var ev := events[0];
      EventSizes(g, code, c, ev);
      EventKeepsTlb(g, code, c, ev);
      var rest := RunLocations(Governed(g, ev), CodeAfter(code, ev), AfterEvent(g, code, c, ev), events[1..]);
      var pure := ReferenceLocations(Governed(g, ev), events[1..]);
      LocationsExact(Governed(g, ev), CodeAfter(code, ev), AfterEvent(g, code, c, ev), events[1..]);
      if ev.FetchAt? {
        LocateTransparent(g, c, ev.pc, ev.active);
        var here, there := Locate(g, c, ev.pc, ev.active).1, PureLocate(g, ev.pc, ev.active);
        assert ([here] + rest)[0] == here && ([there] + pure)[0] == there;
        assert ([here] + rest)[1..] == rest && ([there] + pure)[1..] == pure;
      } else {
        assert [] + rest == rest && [] + pure == pure;
      }
    }
  }

  // ---- Runs that depart

  // The page of address 0 is executable by the supervisor only, and absent from the directory at
  // 0x800.
  function SupervisorOnly(): Memory {
    a => if a == 0x400 then Some(0x2000) else if a == 0x2000 then Some(0x4040) else Some(0)
  }

  function AsSupervisor(): Setting {
    Setting(SMALL, SupervisorOnly(), 0x400, true, 1, false, word => true)
  }

  lemma PageOfZero()
    ensures AsSupervisor().Valid() && PageAlign(0) == 0 && !SamePage(INVALID_ADDR, 0) && Aligned(0)
    ensures PureLocate(AsSupervisor(), 0, true) == At(0x4000)
    ensures Pure(SMALL, SupervisorOnly(), 0x400, FetchRequest(AsSupervisor(), 0)) == Okay(0x4000, 0)
    ensures PureLocate(AsSupervisor().(supervisor := false), 0, true) == Blocked(InsnPageFault)
    ensures PureLocate(AsSupervisor().(ctrl := 0x800), 0, true) == Blocked(InsnTlbMiss)
  {
    assert Walk(SupervisorOnly(), 0x400, 0) == Some(0x4040);
    assert Walk(SupervisorOnly(), 0x800, 0) == None;
  }

  function Nops(): Memory { a => Some(0x1500_0000) }

  // The caches after the supervisor has executed the page.
  lemma PageLatched() returns (c: Caches)
    ensures AsSupervisor().Valid()
    ensures (c, Insn(0x4000, 0x1500_0000)) == Fetch(AsSupervisor(), Nops(), Starting(AsSupervisor()), 0, true)
    ensures AllSound(AsSupervisor(), Nops(), {}, c) && |c.decoded| == 1 && c.virt == 0 && c.phys == 0x4000
  {
    var g := AsSupervisor();
    PageOfZero();
    EmptySound(g.cfg, g.tables, g.ctrl, true);
    assert PageAlign(0x4000) == 0x4000;
    hide Sound, PageAlign, SamePage, PureLocate, Pure, Locate, Load, Aligned;
    assert AllSound(g, Nops(), {}, Starting(g));
    FetchTransparent(g, Nops(), {}, Starting(g), 0, true);
    FetchSize(g, Nops(), Starting(g), 0, true);
    LocateTransparent(g, Starting(g), 0, true);
    LatchRefreshed(g, Starting(g), 0);
    PureFetchSplits(g, Nops(), 0, true);
    c := Fetch(g, Nops(), Starting(g), 0, true).0;
  }

  // Under any other setting, the page is executed from the latch.
  lemma FromLatch(g: Setting, c: Caches)
    requires g.Valid() && AllSound(g, Nops(), {}, c) && |c.decoded| == g.count
    requires c.virt == 0 && c.phys == 0x4000 && g.legal(0x1500_0000)
    ensures Fetch(g, Nops(), c, 0, true).1 == Insn(0x4000, 0x1500_0000)
  {
    assert OnPage(0x4000, 0) == 0x4000 && SamePage(0, 0);
    hide Sound, OnPage, SamePage, Load, DecodedOk;
    LoadTransparent(g, Nops(), {}, c.decoded, 0x4000);
  }

  // A user executes a page latched by the supervisor, without the permission to.
  lemma PrivilegeUnchecked()
    ensures var g, code, events := AsSupervisor(), Nops(), [FetchAt(0, true), Privilege(false), FetchAt(0, true)];
            && g.Valid()
            && RunFetches(g, code, Starting(g), events) == [Insn(0x4000, 0x1500_0000), Insn(0x4000, 0x1500_0000)]
            && RunReference(g, code, events) == [Insn(0x4000, 0x1500_0000), Fault(InsnPageFault, 0)]
  {
    LatchOutlives(Privilege(false), InsnPageFault);
  }

  // Nor does emptying the TLB empty the latch: a page absent from the new directory is executed.
  lemma LatchOutlivesFlush()
    ensures var g, code, events := AsSupervisor(), Nops(), [FetchAt(0, true), Manage(WriteControl(0x801)), FetchAt(0, true)];
            && g.Valid()
            && RunFetches(g, code, Starting(g), events) == [Insn(0x4000, 0x1500_0000), Insn(0x4000, 0x1500_0000)]
            && RunReference(g, code, events) == [Insn(0x4000, 0x1500_0000), Fault(InsnTlbMiss, 0)]
  {
    assert ControlWord(0x801) == 0x800 && Flushes(SMALL, 0x801);
    LatchOutlives(Manage(WriteControl(0x801)), InsnTlbMiss);
  }

  predicate LeavesLatch(ev: Event) {
    ev.Privilege? || (ev.Manage? && ev.op.WriteControl? && Flushes(SMALL, ev.op.val))
  }

  // The latch stays as it was.
  lemma LatchLeft(c: Caches, ev: Event) returns (h: Setting, d: Caches)
    requires LeavesLatch(ev) && AsSupervisor().Valid()
    requires AllSound(AsSupervisor(), Nops(), {}, c) && |c.decoded| == 1 && c.virt == 0 && c.phys == 0x4000
    ensures h == Governed(AsSupervisor(), ev) && d == AfterEvent(AsSupervisor(), Nops(), c, ev)
    ensures h.Valid() && AllSound(h, Nops(), {}, d) && |d.decoded| == h.count && d.virt == 0 && d.phys == 0x4000
    ensures h.legal(0x1500_0000)
  {
    var g := AsSupervisor();
    h, d := Governed(g, ev), AfterEvent(g, Nops(), c, ev);
    hide Operated, Flushes, AllSound, ControlWord;
    if ev.Manage? {
      assert Careful(g.cfg, true, StateOf(g, c), ev.op);
    }
    EventKeepsSound(g, Nops(), {}, c, ev);
    EventSizes(g, Nops(), c, ev);
  }

  lemma LatchOutlives(ev: Event, cause: Exception)
    requires LeavesLatch(ev) && PureLocate(Governed(AsSupervisor(), ev), 0, true) == Blocked(cause)
    ensures var g, code, events := AsSupervisor(), Nops(), [FetchAt(0, true), ev, FetchAt(0, true)];
            && g.Valid()
            && RunFetches(g, code, Starting(g), events) == [Insn(0x4000, 0x1500_0000), Insn(0x4000, 0x1500_0000)]
            && RunReference(g, code, events) == [Insn(0x4000, 0x1500_0000), Fault(cause, 0)]
  {
    var g, code := AsSupervisor(), Nops();
    assert !ev.FetchAt? && !ev.StoreWord? && g.count == 1 == |Starting(g).decoded|;
    hide *;
    var c := PageLatched();
    var h, d := LatchLeft(c, ev);
    FetchedTwice(g, code, Starting(g), ev, c, h, d);
    FromLatch(h, d);
    SecondFault(h, cause);
    FirstFetched();
  }

  lemma SecondFault(h: Setting, cause: Exception)
    requires PureLocate(h, 0, true) == Blocked(cause)
    ensures PureFetch(h, Nops(), 0, true) == Fault(cause, 0)
  {
    PureFetchSplits(h, Nops(), 0, true);
  }

  lemma FirstFetched()
    ensures PureFetch(AsSupervisor(), Nops(), 0, true) == Insn(0x4000, 0x1500_0000)
  {
    PageOfZero();
    PureFetchSplits(AsSupervisor(), Nops(), 0, true);
    hide Pure, PureLocate;
  }

  // Two fetches of address 0 around an event that leaves memory alone.
  lemma FetchedTwice(g: Setting, code: Memory, c: Caches, ev: Event, d: Caches, h: Setting, e: Caches)
    requires g.Valid() && |c.decoded| == |d.decoded| == g.count && !ev.FetchAt? && !ev.StoreWord?
    requires d == Fetch(g, code, c, 0, true).0
    requires h.Valid() && h == Governed(g, ev) && e == AfterEvent(g, code, d, ev) && |e.decoded| == h.count
    ensures RunFetches(g, code, c, [FetchAt(0, true), ev, FetchAt(0, true)])
            == [Fetch(g, code, c, 0, true).1, Fetch(h, code, e, 0, true).1]
    ensures RunReference(g, code, [FetchAt(0, true), ev, FetchAt(0, true)])
            == [PureFetch(g, code, 0, true), PureFetch(h, code, 0, true)]
  {
    var fetch := FetchAt(0, true);
    var events := [fetch, ev, fetch];
    hide Fetch, PureFetch, Operated, InvalidatedBlock;
    assert events[1..] == [ev, fetch] && [ev, fetch][1..] == [fetch];
    assert RunFetches(h, code, e, [fetch]) == [Fetch(h, code, e, 0, true).1];
    assert RunFetches(g, code, d, [ev, fetch]) == [Fetch(h, code, e, 0, true).1];
    assert RunReference(h, code, [fetch]) == [PureFetch(h, code, 0, true)];
    assert RunReference(g, code, [ev, fetch]) == [PureFetch(h, code, 0, true)];
  }
}
