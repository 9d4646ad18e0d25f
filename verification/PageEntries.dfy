/** Page table entries, bit by bit.  The TLB and the page walk it is compared with share what an entry
    permits, where the walk finds it, and which address it yields; all of this is told here by
    arithmetic on the words, with the bits written as numbers. */
module PageEntries {
  import opened Words
  import opened Translation
  import opened TlbStructure
  import TlbTransparency

  // ---- What an entry permits

  // Instructions need bit 6 for the supervisor and bit 7 for the user, or the mark of an executable
  // page.  Loads and stores need bits 6 and 7 for the user, bits 8 and 9 for the supervisor.
  predicate Allows(pte: bv32, imem: bool, write: bool, supervisor: bool) {
    if imem then pte & 0x400 != 0 || (if supervisor then pte & 0x40 != 0 else pte & 0x80 != 0)
    else if write then (if supervisor then pte & 0x200 != 0 else pte & 0x80 != 0)
    else if supervisor then pte & 0x100 != 0 else pte & 0x40 != 0
  }

  // The executable mark, bit 10, grants both rights to execute; it grants nothing to data requests.
  lemma LoadedExact(pte: bv32)
    ensures Loaded(pte, true) == pte | 0x1 | (if pte & 0x400 != 0 then 0xc0 else 0)
    ensures Loaded(pte, false) == pte | 0x1
  {
  }

  lemma MaskExact(req: Request)
    ensures AccessMask(req) == if req.debug then 0x3c0
                               else if req.imem then (if req.supervisor then 0x40 else 0x80)
                               else if req.write then (if req.supervisor then 0x200 else 0x80)
                               else if req.supervisor then 0x100 else 0x40
  {
  }

  lemma MarkedBits(pte: bv32)
    ensures var w := pte | 0x1 | if pte & 0x400 != 0 then 0xc0 else 0;
            && (w & 0x40 != 0 <==> pte & 0x400 != 0 || pte & 0x40 != 0)
            && (w & 0x80 != 0 <==> pte & 0x400 != 0 || pte & 0x80 != 0)
  {
  }

  lemma DataBits(pte: bv32)
    ensures var w := pte | 0x1;
            && w & 0x40 == pte & 0x40 && w & 0x80 == pte & 0x80 && w & 0x100 == pte & 0x100 && w & 0x200 == pte & 0x200
  {
  }

  lemma PermitsExact(pte: bv32, req: Request)
    requires !req.debug
    ensures Permits(Loaded(pte, req.imem), req) <==> Allows(pte, req.imem, req.write, req.supervisor)
  {
    LoadedExact(pte);
    MaskExact(req);
    MarkedBits(pte);
    DataBits(pte);
    hide Loaded, AccessMask;
  }

  // ---- Words and addresses

  // Pages are of 2^13 bytes.
  function FrameOf(w: bv32): bv32 { w / 0x2000 * 0x2000 }
  function OffsetOf(addr: bv32): bv32 { addr % 0x2000 }
  function Sum(a: bv32, b: bv32): bv32 { a + b }

  // The directory is of 2^10 bytes.  It has an entry of four bytes for each 2^24 bytes, and each table
  // one for each of their 2^11 pages.
  function DirectoryOf(ctrl: bv32): bv32 { ctrl / 0x400 * 0x400 }
  function FirstEntry(addr: bv32): bv32 { addr / 0x100_0000 * 4 }
  function SecondEntry(addr: bv32): bv32 { addr / 0x2000 % 0x800 * 4 }

  lemma FrameExact(a: bv32)
    ensures PageAlign(a) == FrameOf(a)
  {
  }

  lemma DirectoryExact(ctrl: bv32)
    ensures Directory(ctrl) == DirectoryOf(ctrl)
  {
  }

  lemma FirstEntryExact(addr: bv32)
    ensures Level1Offset(addr) == FirstEntry(addr)
  {
  }

  lemma SecondEntryExact(addr: bv32)
    ensures Level2Offset(addr) == SecondEntry(addr)
  {
  }

  lemma ControlExact(val: bv32)
    ensures ControlWord(val) == val / 2 * 2
  {
  }

  lemma FlushExact(val: bv32)
    ensures FlushBit(val) <==> val % 2 == 1
  {
  }

  // The number of a page.
  function PageOf(addr: bv32): bv32 { addr / 0x2000 }

  lemma PageShift(addr: bv32)
    ensures PageOf(addr) == addr >> 13
  {
  }

  function StartOf(page: bv32): bv32 { page * 0x2000 }

  lemma AlignIsStart(addr: bv32)
    ensures PageAlign(addr) == StartOf(PageOf(addr))
  {
  }

  lemma PageOfAlign(addr: bv32)
    ensures PageOf(PageAlign(addr)) == PageOf(addr)
  {
  }

  lemma FlushesExact(cfg: Config, val: bv32)
    ensures Flushes(cfg, val) <==> cfg.teiri && val % 2 == 1
  {
    FlushExact(val);
    hide FlushBit;
  }

  lemma SamePageExact(a: bv32, b: bv32)
    ensures SamePage(a, b) <==> PageOf(a) == PageOf(b)
  {
    hide *;
    SamePageIsEqualFrame(a, b);
    AlignIsStart(a);
    AlignIsStart(b);
    PageOfAlign(a);
    PageOfAlign(b);
  }

  lemma TagExact(a: bv32)
    ensures Tag(a) == a / 0x2000 * 0x2000 + 1
  {
  }

  lemma ValidExact(m: bv32)
    ensures IsValid(m) <==> m % 2 == 1
  {
  }

  lemma InvalidatedExact(m: bv32)
    ensures Invalidated(m) == m / 2 * 2
  {
  }

  // The set is told by the lowest bits of the page number.
  lemma SetsExact(addr: bv32, mask: bv32)
    ensures SetBits(addr, mask) == PageOf(addr) & mask
  {
    PageShift(addr);
    hide PageOf;
  }

  // ---- The walk

  // A word that is there and is not zero.
  function Present(mem: Memory, addr: bv32): Option<bv32> {
    if mem(addr) == Some(0) then None else mem(addr)
  }

  function WalkTo(mem: Memory, ctrl: bv32, addr: bv32): Option<bv32> {
    if DirectoryOf(ctrl) == 0 then None
    else
      match Present(mem, DirectoryOf(ctrl) + FirstEntry(addr))
      case None => None
      case Some(table) => Present(mem, FrameOf(table) + SecondEntry(addr))
  }

  lemma EntryExact(mem: Memory, table: bv32, offset: bv32)
    ensures Entry(mem, table, offset) == Present(mem, table + offset)
  {
  }

  lemma WalkExact(mem: Memory, ctrl: bv32, addr: bv32)
    ensures Walk(mem, ctrl, addr) == WalkTo(mem, ctrl, addr)
  {
    DirectoryExact(ctrl);
    FirstEntryExact(addr);
    SecondEntryExact(addr);
    EntryExact(mem, DirectoryOf(ctrl), FirstEntry(addr));
    var first := Present(mem, DirectoryOf(ctrl) + FirstEntry(addr));
    if first.Some? {
      FrameExact(first.value);
      EntryExact(mem, FrameOf(first.value), SecondEntry(addr));
    }
    hide Directory, Level1Offset, Level2Offset, PageAlign, DirectoryOf, FirstEntry, SecondEntry, FrameOf, Entry, Present;
  }

  // The frame of the entry, and the offset of the address in it.
  function PlaceOf(pte: bv32, addr: bv32): bv32 { Sum(FrameOf(pte), OffsetOf(addr)) }

  lemma LoadedFrame(pte: bv32, imem: bool)
    ensures PageAlign(Loaded(pte, imem)) == PageAlign(pte)
  {
  }

  lemma OffsetExact(addr: bv32)
    ensures PageOffset(addr) == OffsetOf(addr)
  {
  }

  lemma NoOverlap(trans: bv32, addr: bv32)
    ensures Physical(trans, addr) == PageAlign(trans) + PageOffset(addr)
  {
  }

  lemma SumOfParts(trans: bv32, addr: bv32)
    ensures Physical(trans, addr) == Sum(PageAlign(trans), PageOffset(addr))
  {
    NoOverlap(trans, addr);
    hide Physical, PageAlign, PageOffset;
  }

  lemma PhysicalExact(pte: bv32, imem: bool, addr: bv32)
    ensures Physical(Loaded(pte, imem), addr) == PlaceOf(pte, addr)
  {
    LoadedFrame(pte, imem);
    FrameExact(pte);
    SumOfParts(Loaded(pte, imem), addr);
    OffsetExact(addr);
    hide Loaded, Physical, PageAlign, PageOffset, FrameOf, OffsetOf, Sum;
  }

  // Translation without a TLB.  What the entry allows goes to the frame of the entry, at the offset of
  // the address; the debugger is always allowed, and needs no refill by the hardware.
  lemma PureExact(cfg: Config, mem: Memory, ctrl: bv32, req: Request)
    ensures Pure(cfg, mem, ctrl, req) ==
            match if cfg.htr || req.debug then WalkTo(mem, ctrl, req.addr) else None
            case None => TlbMiss
            case Some(pte) =>
              if req.debug || Allows(pte, req.imem, req.write, req.supervisor)
              then Okay(PlaceOf(pte, req.addr), req.attributes) else PageFault
  {
    hide *;
    WalkExact(mem, ctrl, req.addr);
    PureByWalk(cfg, mem, ctrl, req);
    var walk := WalkTo(mem, ctrl, req.addr);
    if walk.Some? {
      PhysicalExact(walk.value, req.imem, req.addr);
      if !req.debug {
        PermitsExact(walk.value, req);
      }
    }
  }

  lemma PureByWalk(cfg: Config, mem: Memory, ctrl: bv32, req: Request)
    ensures Pure(cfg, mem, ctrl, req) ==
            match if cfg.htr || req.debug then Walk(mem, ctrl, req.addr) else None
            case None => TlbMiss
            case Some(pte) =>
              if req.debug || Permits(Loaded(pte, req.imem), req)
              then Okay(Physical(Loaded(pte, req.imem), req.addr), req.attributes) else PageFault
  {
    hide Walk, Permits, Loaded, Physical;
  }

  // And so from the TLB, while its entries agree with the walk.
  lemma TranslationExact(cfg: Config, mem: Memory, ctrl: bv32, imem: bool, s: Tlb, req: Request)
    requires cfg.Valid() && TlbTransparency.Sound(cfg, mem, ctrl, imem, s) && (req.debug || req.imem == imem)
    ensures var r := Translated(cfg, mem, ctrl, s, req).1;
            match if cfg.htr || req.debug then WalkTo(mem, ctrl, req.addr) else None
            case None => r.TlbMiss?
            case Some(pte) =>
              if req.debug || Allows(pte, req.imem, req.write, req.supervisor)
              then r.Okay? && r.addr == PlaceOf(pte, req.addr) else r.PageFault?
  {
    TlbTransparency.TranslationTransparent(cfg, mem, ctrl, imem, s, req);
    PureExact(cfg, mem, ctrl, req);
    hide Translated, Pure, WalkTo, Allows, PlaceOf, TlbTransparency.Sound;
  }

  // ---- Refills

  // The translation word that a refill stores.
  function Stored(pte: bv32, imem: bool, write: bool): bv32 {
    Marked(WithRights(pte, imem), write)
  }

  function WithRights(pte: bv32, imem: bool): bv32 {
    if imem then pte | 0x1 | (if pte & 0x400 != 0 then 0xc0 else 0) else pte | 0x1
  }

  function Marked(trans: bv32, write: bool): bv32 { if write then trans | 0x30 else trans | 0x10 }

  lemma LoadedWord(pte: bv32, imem: bool)
    ensures Loaded(pte, imem) == WithRights(pte, imem)
  {
    LoadedExact(pte);
    hide Loaded;
  }

  // A refill stores the page of the request, and the entry of the walk with its marks.
  lemma RefillExact(cfg: Config, mem: Memory, ctrl: bv32, s: Tlb, req: Request)
    requires cfg.Valid() && Refills(cfg, mem, ctrl, s, req)
    ensures var setIndex := SetOf(cfg, req.addr);
            var way := FindEmptyWay(Aged(s, setIndex, cfg.ways), setIndex, cfg.ways);
            var r, walk := Translated(cfg, mem, ctrl, s, req).0, WalkTo(mem, ctrl, req.addr);
            && walk.Some?
            && MatchAt(r, way, setIndex) == StartOf(PageOf(req.addr)) + 1
            && TransAt(r, way, setIndex) == Stored(walk.value, req.imem, req.write)
  {
    var setIndex := SetOf(cfg, req.addr);
    var aged := Aged(s, setIndex, cfg.ways);
    var way := FindEmptyWay(aged, setIndex, cfg.ways);
    WalkExact(mem, ctrl, req.addr);
    var walk := Walk(mem, ctrl, req.addr);
    hide Aged, SetOf, FindEmptyWay, Walk, WalkTo, Loaded, Permits, Physical, Filled, Tag, Touched, StartOf, PageOf, Marked;
    assert walk.Some?;
    var trans := Touched(Loaded(walk.value, req.imem), req.write);
    FilledWords(aged, way, setIndex, req.addr, trans, way, setIndex);
    StoredExact(walk.value, req);
    TagParts(req.addr);
    assert Translated(cfg, mem, ctrl, s, req).0 == Filled(aged, way, setIndex, req.addr, trans);
  }

  lemma StoredExact(pte: bv32, req: Request)
    ensures Touched(Loaded(pte, req.imem), req.write) == Stored(pte, req.imem, req.write)
  {
    LoadedWord(pte, req.imem);
    TouchedExact(Loaded(pte, req.imem), req.write);
    hide Loaded, Touched, WithRights, Marked;
  }

  lemma TagParts(addr: bv32)
    ensures Tag(addr) == StartOf(PageOf(addr)) + 1
  {
  }

  // ---- Marks

  // An access marks its page as accessed, a store also as dirty; nothing else changes.
  lemma MarksTogether(trans: bv32)
    ensures (trans | 0x10) | 0x20 == trans | 0x30
  {
  }

  lemma TouchedExact(trans: bv32, write: bool)
    ensures Touched(trans, write) == Marked(trans, write)
  {
    MarksTogether(trans);
    assert Accessed(trans) == trans | 0x10;
    assert Dirtied(Accessed(trans)) == (trans | 0x10) | 0x20;
    hide Accessed, Dirtied;
  }

  lemma AttributesExact(trans: bv32)
    ensures Attributes(trans) == trans % 0x10
  {
  }

  // The way replaced in a full set is the last of the oldest.
  lemma {:induction false} OldestIsLast(s: Tlb, setIndex: nat, ways: nat)
    requires 1 <= ways <= MAX_WAYS && setIndex < MAX_SETS
    ensures forall w: nat | Oldest(s, setIndex, ways) < w < ways ::
              MatchAt(s, w, setIndex) & 0xc0 < MatchAt(s, Oldest(s, setIndex, ways), setIndex) & 0xc0
    ensures forall w: nat | w < ways ::
              MatchAt(s, w, setIndex) & 0xc0 <= MatchAt(s, Oldest(s, setIndex, ways), setIndex) & 0xc0
    decreases ways
  {
    if ways > 1 {
      OldestIsLast(s, setIndex, ways - 1);
    }
  }
}
