/** The TLB is transparent: over every sequence of translations, entry flushes and control
    writes, translation gives the result and the physical address of the page walk alone, exactly
    as long as the entries agree with the page tables. */
module TlbTransparency {
  import opened Words
  import opened Translation
  import opened TlbStructure

  // ---- Translation words

  lemma SameOffsets(mem: Memory, ctrl: bv32, a: bv32, b: bv32)
    requires Level1Offset(a) == Level1Offset(b) && Level2Offset(a) == Level2Offset(b)
    ensures Walk(mem, ctrl, a) == Walk(mem, ctrl, b)
  {
    hide Level1Offset, Level2Offset, Entry, Directory, PageAlign;
  }

  lemma WalkByPage(mem: Memory, ctrl: bv32, a: bv32, b: bv32)
    requires SamePage(a, b)
    ensures Walk(mem, ctrl, a) == Walk(mem, ctrl, b)
  {
    hide *;
    SamePageIsEqualFrame(a, b);
    IndexOfFrame(a, 0);
    IndexOfFrame(b, 0);
    SameOffsets(mem, ctrl, a, b);
  }

  // The accessed and dirty bits are the only ones a translation word gains while cached.
  predicate SameMapping(t: bv32, u: bv32) {
    Dirtied(Accessed(t)) == Dirtied(Accessed(u))
  }

  lemma MarkedTwice(t: bv32)
    ensures Dirtied(Accessed(Accessed(t))) == Dirtied(Accessed(t))
    ensures Dirtied(Accessed(Dirtied(Accessed(t)))) == Dirtied(Accessed(t))
  {
  }

  lemma TouchedMapping(t: bv32, write: bool)
    ensures SameMapping(Touched(t, write), t) && SameMapping(t, Touched(t, write))
  {
    MarkedTwice(t);
    hide Accessed, Dirtied;
  }

  lemma MarkedPermits(t: bv32, req: Request)
    ensures Permits(Dirtied(Accessed(t)), req) == Permits(t, req)
  {
  }

  lemma MarkedFrame(t: bv32)
    ensures PageAlign(Dirtied(Accessed(t))) == PageAlign(t) && Attributes(Dirtied(Accessed(t))) == Attributes(t)
  {
  }

  lemma MappingDecides(t: bv32, u: bv32, req: Request)
    requires SameMapping(t, u)
    ensures Permits(t, req) == Permits(u, req)
    ensures PageAlign(t) == PageAlign(u) && Physical(t, req.addr) == Physical(u, req.addr)
    ensures Attributes(t) == Attributes(u)
  {
    MarkedPermits(t, req);
    MarkedPermits(u, req);
    MarkedFrame(t);
    MarkedFrame(u);
    hide Accessed, Dirtied, Permits, PageAlign, PageOffset, Attributes;
  }

  lemma LoadedFrame(pte: bv32, imem: bool)
    ensures PageAlign(Loaded(pte, imem)) == PageAlign(pte)
  {
  }

  // An address tells the frame it was translated to.
  lemma PhysicalTellsFrame(t: bv32, u: bv32, addr: bv32)
    ensures Physical(t, addr) == Physical(u, addr) <==> PageAlign(t) == PageAlign(u)
  {
    FrameOfPhysical(t, addr);
    FrameOfPhysical(u, addr);
    hide PageAlign, PageOffset;
  }

  lemma FrameOfPhysical(t: bv32, addr: bv32)
    ensures PageAlign(Physical(t, addr)) == PageAlign(t)
  {
  }

  // ---- When an entry agrees with the walk

  // A request of the kind an MMU serves; only its rights matter here.
  function Access(imem: bool, write: bool, supervisor: bool): Request {
    Request(0, imem, write, supervisor, false, 0)
  }

  predicate RightsAgree(t: bv32, u: bv32, req: Request) {
    Permits(t, req) == Permits(u, req) && (Permits(t, req) ==> PageAlign(t) == PageAlign(u))
  }

  // The same word but for the marks; or merely the same rights for each access, and the same
  // frame if there are any.
  datatype Agreement = SameWord | SameRights

  ghost predicate Agree(a: Agreement, imem: bool, t: bv32, u: bv32) {
    match a
    case SameWord => SameMapping(t, u)
    case SameRights => forall write, supervisor :: RightsAgree(t, u, Access(imem, write, supervisor))
  }

  lemma AgreesMarked(a: Agreement, imem: bool, t: bv32, t': bv32, u: bv32)
    requires SameMapping(t', t) && Agree(a, imem, t, u)
    ensures Agree(a, imem, t', u)
  {
    hide SameMapping, Permits, PageAlign;
    if a.SameRights? {
      forall write, supervisor ensures RightsAgree(t', u, Access(imem, write, supervisor)) {
        MappingDecides(t', t, Access(imem, write, supervisor));
        assert RightsAgree(t, u, Access(imem, write, supervisor));
      }
    } else {
      SameMappingTrans(t', t, u);
    }
  }

  lemma SameMappingTrans(t: bv32, u: bv32, v: bv32)
    requires SameMapping(t, u) && SameMapping(u, v)
    ensures SameMapping(t, v)
  {
    hide Accessed, Dirtied;
  }

  lemma AgreesIfMapped(a: Agreement, imem: bool, t: bv32, u: bv32)
    requires SameMapping(t, u)
    ensures Agree(a, imem, t, u)
  {
    hide SameMapping, Permits, PageAlign;
    if a.SameRights? {
      forall write, supervisor ensures RightsAgree(t, u, Access(imem, write, supervisor)) {
        MappingDecides(t, u, Access(imem, write, supervisor));
      }
    }
  }

  lemma PermitsByKind(t: bv32, req: Request)
    requires !req.debug
    ensures Permits(t, req) == Permits(t, Access(req.imem, req.write, req.supervisor))
  {
    assert AccessMask(req) == AccessMask(Access(req.imem, req.write, req.supervisor));
    hide AccessMask;
  }

  // A valid entry agrees with what the walk of its page loads.
  ghost predicate EntryAgrees(cfg: Config, mem: Memory, ctrl: bv32, imem: bool, a: Agreement, m: bv32, t: bv32) {
    IsValid(m) ==>
      cfg.htr && Walk(mem, ctrl, m).Some? && Agree(a, imem, t, Loaded(Walk(mem, ctrl, m).value, imem))
  }

  ghost predicate Agreeing(cfg: Config, mem: Memory, ctrl: bv32, imem: bool, a: Agreement, s: Tlb)
    requires cfg.Valid()
  {
    forall way: nat, setIndex: nat | way < cfg.ways && setIndex < MAX_SETS ::
      EntryAgrees(cfg, mem, ctrl, imem, a, MatchAt(s, way, setIndex), TransAt(s, way, setIndex))
  }

  ghost predicate Sound(cfg: Config, mem: Memory, ctrl: bv32, imem: bool, s: Tlb)
    requires cfg.Valid()
  {
    Agreeing(cfg, mem, ctrl, imem, SameWord, s) && Structured(cfg, s)
  }

  // ---- What keeps agreement

  lemma EntryWeakens(cfg: Config, mem: Memory, ctrl: bv32, imem: bool, a: Agreement, m: bv32, t: bv32, n: bv32, u: bv32)
    requires EntryAgrees(cfg, mem, ctrl, imem, a, m, t)
    requires Weaker(m, n) && SameMapping(u, t)
    ensures EntryAgrees(cfg, mem, ctrl, imem, a, n, u)
  {
    hide Walk, SamePage, IsValid, Loaded, Agree, SameMapping;
    if IsValid(n) {
      WalkByPage(mem, ctrl, n, m);
      AgreesMarked(a, imem, t, u, Loaded(Walk(mem, ctrl, m).value, imem));
    }
  }

  // The translation words change only in their marks.
  ghost predicate SameMappings(cfg: Config, s: Tlb, r: Tlb)
    requires cfg.Valid()
  {
    forall way: nat, setIndex: nat | way < cfg.ways && setIndex < MAX_SETS ::
      SameMapping(TransAt(r, way, setIndex), TransAt(s, way, setIndex))
  }

  lemma WeakerAgrees(cfg: Config, mem: Memory, ctrl: bv32, imem: bool, a: Agreement, s: Tlb, r: Tlb)
    requires cfg.Valid() && WeakerTags(cfg, s, r) && SameMappings(cfg, s, r)
    requires Agreeing(cfg, mem, ctrl, imem, a, s)
    ensures Agreeing(cfg, mem, ctrl, imem, a, r)
  {
    hide EntryAgrees, SameMapping, Weaker, MatchAt, TransAt;
    forall way: nat, setIndex: nat | way < cfg.ways && setIndex < MAX_SETS
      ensures EntryAgrees(cfg, mem, ctrl, imem, a, MatchAt(r, way, setIndex), TransAt(r, way, setIndex))
    {
      EntryWeakens(cfg, mem, ctrl, imem, a, MatchAt(s, way, setIndex), TransAt(s, way, setIndex),
                   MatchAt(r, way, setIndex), TransAt(r, way, setIndex));
    }
  }

  lemma UnchangedMappings(cfg: Config, s: Tlb, r: Tlb)
    requires cfg.Valid()
    requires forall way: nat, setIndex: nat | way < cfg.ways && setIndex < MAX_SETS ::
               TransAt(r, way, setIndex) == TransAt(s, way, setIndex)
    ensures SameMappings(cfg, s, r)
  {
    hide TransAt;
  }

  lemma AgedAgrees(cfg: Config, mem: Memory, ctrl: bv32, imem: bool, a: Agreement, s: Tlb, setIndex: nat)
    requires cfg.Valid() && setIndex < MAX_SETS && Agreeing(cfg, mem, ctrl, imem, a, s)
    ensures Agreeing(cfg, mem, ctrl, imem, a, Aged(s, setIndex, cfg.ways))
  {
    hide Agreeing, Aged, AgedWord, MatchAt, TransAt, WeakerTags, SameMappings;
    AgedWeaker(cfg, s, setIndex);
    forall way: nat, other: nat | way < cfg.ways && other < MAX_SETS
      ensures TransAt(Aged(s, setIndex, cfg.ways), way, other) == TransAt(s, way, other)
    {
      AgedWords(s, setIndex, cfg.ways, way, other);
    }
    UnchangedMappings(cfg, s, Aged(s, setIndex, cfg.ways));
    WeakerAgrees(cfg, mem, ctrl, imem, a, s, Aged(s, setIndex, cfg.ways));
  }

  lemma FlushAgrees(cfg: Config, mem: Memory, ctrl: bv32, imem: bool, a: Agreement, s: Tlb, ea: bv32)
    requires cfg.Valid() && Agreeing(cfg, mem, ctrl, imem, a, s)
    ensures Agreeing(cfg, mem, ctrl, imem, a, FlushedEntry(cfg, s, ea))
  {
    FlushedWeaker(cfg, s, ea);
    hide Agreeing, MatchAt, TransAt, WeakerTags, SameMappings, FlushedWays, SetOf, SamePage, PageAlign, Invalidated;
    forall way: nat, other: nat | way < cfg.ways && other < MAX_SETS
      ensures TransAt(FlushedEntry(cfg, s, ea), way, other) == TransAt(s, way, other)
    {
      FlushedWords(s, ea, SetOf(cfg, ea), cfg.ways, way, other);
    }
    UnchangedMappings(cfg, s, FlushedEntry(cfg, s, ea));
    WeakerAgrees(cfg, mem, ctrl, imem, a, s, FlushedEntry(cfg, s, ea));
  }

  lemma HitKeepsAgreement(cfg: Config, mem: Memory, ctrl: bv32, imem: bool, a: Agreement, s: Tlb, way: nat, setIndex: nat, req: Request)
    requires cfg.Valid() && way < cfg.ways && setIndex < MAX_SETS && Agreeing(cfg, mem, ctrl, imem, a, s)
    ensures Agreeing(cfg, mem, ctrl, imem, a, OnHit(s, way, setIndex, req).0)
  {
    HitWeaker(cfg, s, way, setIndex, req);
    hide Agreeing, MatchAt, TransAt, WeakerTags, OnHit, SameMapping, Touched, Permits;
    forall w: nat, other: nat | w < cfg.ways && other < MAX_SETS
      ensures SameMapping(TransAt(OnHit(s, way, setIndex, req).0, w, other), TransAt(s, w, other))
    {
      HitWords(s, way, setIndex, req, w, other);
      TouchedMapping(TransAt(s, w, other), req.write);
      MappingReflexive(TransAt(s, w, other));
    }
    WeakerAgrees(cfg, mem, ctrl, imem, a, s, OnHit(s, way, setIndex, req).0);
  }

  lemma MappingReflexive(t: bv32)
    ensures SameMapping(t, t)
  {
  }

  lemma TagAgrees(cfg: Config, mem: Memory, ctrl: bv32, imem: bool, a: Agreement, addr: bv32, t: bv32)
    requires cfg.htr && Walk(mem, ctrl, addr).Some? && SameMapping(t, Loaded(Walk(mem, ctrl, addr).value, imem))
    ensures EntryAgrees(cfg, mem, ctrl, imem, a, Tag(addr), t)
  {
    hide SamePage, IsValid, Walk, Tag, SameMapping, Loaded, Agree;
    TagIsPage(addr);
    WalkByPage(mem, ctrl, Tag(addr), addr);
    AgreesIfMapped(a, imem, t, Loaded(Walk(mem, ctrl, addr).value, imem));
  }

  lemma FillAgrees(cfg: Config, mem: Memory, ctrl: bv32, imem: bool, a: Agreement, s: Tlb, addr: bv32, way: nat, setIndex: nat, t: bv32)
    requires cfg.Valid() && way < cfg.ways && setIndex < MAX_SETS && cfg.htr && Agreeing(cfg, mem, ctrl, imem, a, s)
    requires Walk(mem, ctrl, addr).Some? && SameMapping(t, Loaded(Walk(mem, ctrl, addr).value, imem))
    ensures Agreeing(cfg, mem, ctrl, imem, a, Filled(s, way, setIndex, addr, t))
  {
    hide EntryAgrees, Filled, MatchAt, TransAt, Tag, Walk, SameMapping, Loaded;
    TagAgrees(cfg, mem, ctrl, imem, a, addr, t);
    forall w: nat, other: nat | w < cfg.ways && other < MAX_SETS
      ensures EntryAgrees(cfg, mem, ctrl, imem, a, MatchAt(Filled(s, way, setIndex, addr, t), w, other),
                          TransAt(Filled(s, way, setIndex, addr, t), w, other))
    {
      FilledWords(s, way, setIndex, addr, t, w, other);
    }
  }

  lemma MissKeepsAgreement(cfg: Config, mem: Memory, ctrl: bv32, imem: bool, a: Agreement, s: Tlb, setIndex: nat, req: Request)
    requires cfg.Valid() && setIndex < MAX_SETS && Agreeing(cfg, mem, ctrl, imem, a, s)
    requires req.debug || req.imem == imem
    ensures Agreeing(cfg, mem, ctrl, imem, a, OnMiss(cfg, mem, ctrl, s, setIndex, req).0)
  {
    hide Agreeing, Walk, Loaded, Touched, FindEmptyWay, Filled, Permits, Physical, SameMapping;
    var walk := Walk(mem, ctrl, req.addr);
    if !req.debug && cfg.htr && walk.Some? {
      TouchedMapping(Loaded(walk.value, imem), req.write);
      FillAgrees(cfg, mem, ctrl, imem, a, s, req.addr, FindEmptyWay(s, setIndex, cfg.ways), setIndex,
                 Touched(Loaded(walk.value, imem), req.write));
    }
  }

  // Translations of the one kind, and of the debugger, keep agreement.
  lemma TranslationKeepsAgreement(cfg: Config, mem: Memory, ctrl: bv32, imem: bool, a: Agreement, s: Tlb, req: Request)
    requires cfg.Valid() && Agreeing(cfg, mem, ctrl, imem, a, s)
    requires req.debug || req.imem == imem
    ensures Agreeing(cfg, mem, ctrl, imem, a, Translated(cfg, mem, ctrl, s, req).0)
  {
    hide OnHit, OnMiss, Aged, Agreeing, Matches, SetOf;
    var setIndex := SetOf(cfg, req.addr);
    var aged := if req.debug then s else Aged(s, setIndex, cfg.ways);
    var way := Lookup(aged, setIndex, req.addr, 0, cfg.ways);
    AgedAgrees(cfg, mem, ctrl, imem, a, s, setIndex);
    if way < cfg.ways {
      HitKeepsAgreement(cfg, mem, ctrl, imem, a, aged, way, setIndex, req);
    } else {
      MissKeepsAgreement(cfg, mem, ctrl, imem, a, aged, setIndex, req);
    }
  }

  // ---- What agreement gives

  // The same result code and, if translated, the same physical address.
  predicate SameOutcome(r: Result, p: Result) {
    match r
    case Okay(addr, _) => p.Okay? && p.addr == addr
    case TlbMiss => p.TlbMiss?
    case PageFault => p.PageFault?
  }

  // The outcome of a hit on a translation word.
  function HitOutcome(t: bv32, req: Request): Result {
    if !req.debug && !Permits(t, req) then PageFault else Okay(Physical(t, req.addr), Attributes(t))
  }

  lemma HitIsOutcome(s: Tlb, way: nat, setIndex: nat, req: Request)
    requires way < MAX_WAYS && setIndex < MAX_SETS
    ensures OnHit(s, way, setIndex, req).1 == HitOutcome(TransAt(s, way, setIndex), req)
  {
    var t := TransAt(s, way, setIndex);
    TouchedMapping(t, req.write);
    MappingDecides(Touched(t, req.write), t, req);
    hide Permits, Physical, Touched, Youngest, Attributes, SameMapping;
  }

  lemma MissAgrees(cfg: Config, mem: Memory, ctrl: bv32, s: Tlb, setIndex: nat, req: Request)
    requires cfg.Valid() && setIndex < MAX_SETS
    ensures OnMiss(cfg, mem, ctrl, s, setIndex, req).1 == Pure(cfg, mem, ctrl, req)
  {
    hide Walk, Loaded, Permits, Physical, Touched, FindEmptyWay, Filled, SameMapping;
    if Walk(mem, ctrl, req.addr).Some? {
      var loaded := Loaded(Walk(mem, ctrl, req.addr).value, req.imem);
      TouchedMapping(loaded, req.write);
      MappingDecides(Touched(loaded, req.write), loaded, req);
    }
  }

  // A hit of an access has the outcome of the walk exactly if the entry's rights agree with it.
  lemma HitExact(cfg: Config, mem: Memory, ctrl: bv32, t: bv32, req: Request)
    requires !req.debug
    ensures SameOutcome(HitOutcome(t, req), Pure(cfg, mem, ctrl, req)) <==>
            && cfg.htr && Walk(mem, ctrl, req.addr).Some?
            && RightsAgree(t, Loaded(Walk(mem, ctrl, req.addr).value, req.imem), Access(req.imem, req.write, req.supervisor))
  {
    hide Walk, Loaded, Permits, Physical, Attributes, PageAlign;
    PermitsByKind(t, req);
    if Walk(mem, ctrl, req.addr).Some? {
      var u := Loaded(Walk(mem, ctrl, req.addr).value, req.imem);
      PermitsByKind(u, req);
      PhysicalTellsFrame(t, u, req.addr);
    }
  }

  lemma DebugHitAgrees(cfg: Config, mem: Memory, ctrl: bv32, imem: bool, t: bv32, req: Request)
    requires req.debug && Walk(mem, ctrl, req.addr).Some? && SameMapping(t, Loaded(Walk(mem, ctrl, req.addr).value, imem))
    ensures SameOutcome(HitOutcome(t, req), Pure(cfg, mem, ctrl, req))
  {
    hide Walk, Loaded, Permits, Physical, Attributes, PageAlign, SameMapping;
    var pte := Walk(mem, ctrl, req.addr).value;
    MappingDecides(t, Loaded(pte, imem), req);
    LoadedFrame(pte, imem);
    LoadedFrame(pte, req.imem);
    PhysicalTellsFrame(t, Loaded(pte, req.imem), req.addr);
  }

  lemma MatchingPage(s: Tlb, way: nat, setIndex: nat, addr: bv32)
    requires way < MAX_WAYS && setIndex < MAX_SETS
    ensures Matches(s, way, setIndex, addr) <==> IsValid(MatchAt(s, way, setIndex)) && SamePage(addr, MatchAt(s, way, setIndex))
  {
    SamePageLaws(addr, MatchAt(s, way, setIndex), addr);
    hide SamePage, IsValid, PageAlign;
  }

  lemma HitAgrees(cfg: Config, mem: Memory, ctrl: bv32, imem: bool, a: Agreement, s: Tlb, way: nat, setIndex: nat, req: Request)
    requires cfg.Valid() && way < cfg.ways && setIndex < MAX_SETS && Agreeing(cfg, mem, ctrl, imem, a, s)
    requires Matches(s, way, setIndex, req.addr)
    requires if req.debug then a.SameWord? else req.imem == imem
    ensures SameOutcome(OnHit(s, way, setIndex, req).1, Pure(cfg, mem, ctrl, req))
  {
    hide Walk, Loaded, Permits, Matches, SameMapping, SamePage, MatchAt, TransAt, IsValid, HitOutcome, SameOutcome, Pure, RightsAgree, OnHit;
    var m, t := MatchAt(s, way, setIndex), TransAt(s, way, setIndex);
    MatchingPage(s, way, setIndex, req.addr);
    assert EntryAgrees(cfg, mem, ctrl, imem, a, m, t);
    WalkByPage(mem, ctrl, req.addr, m);
    HitIsOutcome(s, way, setIndex, req);
    if req.debug {
      DebugHitAgrees(cfg, mem, ctrl, imem, t, req);
    } else {
      var u := Loaded(Walk(mem, ctrl, m).value, imem);
      if a.SameWord? {
        AgreesIfMapped(SameRights, imem, t, u);
      }
      HitExact(cfg, mem, ctrl, t, req);
      assert Agree(SameRights, imem, t, u);
      assert RightsAgree(t, u, Access(imem, req.write, req.supervisor));
    }
  }

  lemma TranslationAgrees(cfg: Config, mem: Memory, ctrl: bv32, imem: bool, a: Agreement, s: Tlb, req: Request)
    requires cfg.Valid() && Agreeing(cfg, mem, ctrl, imem, a, s)
    requires if req.debug then a.SameWord? else req.imem == imem
    ensures SameOutcome(Translated(cfg, mem, ctrl, s, req).1, Pure(cfg, mem, ctrl, req))
  {
    hide OnHit, OnMiss, Aged, Agreeing, Matches, SetOf, Pure;
    var setIndex := SetOf(cfg, req.addr);
    var aged := if req.debug then s else Aged(s, setIndex, cfg.ways);
    var way := Lookup(aged, setIndex, req.addr, 0, cfg.ways);
    AgedAgrees(cfg, mem, ctrl, imem, a, s, setIndex);
    if way < cfg.ways {
      HitAgrees(cfg, mem, ctrl, imem, a, aged, way, setIndex, req);
    } else {
      MissAgrees(cfg, mem, ctrl, aged, setIndex, req);
    }
  }

  lemma DebugStands(cfg: Config, mem: Memory, ctrl: bv32, s: Tlb, req: Request)
    requires cfg.Valid() && req.debug
    ensures Translated(cfg, mem, ctrl, s, req).0 == s
  {
    hide Walk, Loaded, Permits, Physical, Touched, SetOf, Lookup, FindEmptyWay;
  }

  // One translation: the result of the walk, and a sound TLB again.
  lemma TranslationTransparent(cfg: Config, mem: Memory, ctrl: bv32, imem: bool, s: Tlb, req: Request)
    requires cfg.Valid() && Sound(cfg, mem, ctrl, imem, s)
    requires req.debug || req.imem == imem
    ensures SameOutcome(Translated(cfg, mem, ctrl, s, req).1, Pure(cfg, mem, ctrl, req))
    ensures Sound(cfg, mem, ctrl, imem, Translated(cfg, mem, ctrl, s, req).0)
    ensures req.debug ==> Translated(cfg, mem, ctrl, s, req).0 == s
  {
    hide Agreeing, Structured, Translated, Pure, SameOutcome;
    TranslationAgrees(cfg, mem, ctrl, imem, SameWord, s, req);
    TranslationKeepsAgreement(cfg, mem, ctrl, imem, SameWord, s, req);
    TranslatedStructured(cfg, mem, ctrl, s, req);
    if req.debug {
      DebugStands(cfg, mem, ctrl, s, req);
    }
  }

  // ---- Exactly when a TLB is transparent

  // Every access of the kind has the outcome of the walk.
  ghost predicate Transparent(cfg: Config, mem: Memory, ctrl: bv32, imem: bool, s: Tlb)
    requires cfg.Valid()
  {
    forall req: Request | !req.debug && req.imem == imem ::
      SameOutcome(Translated(cfg, mem, ctrl, s, req).1, Pure(cfg, mem, ctrl, req))
  }

  lemma OnlyMatch(cfg: Config, s: Tlb, setIndex: nat, addr: bv32, way: nat)
    requires cfg.Valid() && setIndex < MAX_SETS && way < cfg.ways
    requires forall w: nat | w < cfg.ways :: Matches(s, w, setIndex, addr) <==> w == way
    ensures Lookup(s, setIndex, addr, 0, cfg.ways) == way
  {
    hide Matches;
    assert Matches(s, way, setIndex, addr);
    var hit := Lookup(s, setIndex, addr, 0, cfg.ways);
  }

  // In a structured TLB, an access to the page of a valid entry hits that entry.
  lemma AccessHits(cfg: Config, s: Tlb, way: nat, setIndex: nat, addr: bv32)
    requires cfg.Valid() && Structured(cfg, s) && way < cfg.ways && setIndex < MAX_SETS
    requires IsValid(MatchAt(s, way, setIndex)) && addr == MatchAt(s, way, setIndex)
    ensures SetOf(cfg, addr) == setIndex
    ensures Lookup(Aged(s, setIndex, cfg.ways), setIndex, addr, 0, cfg.ways) == way
  {
    hide SetOf, SamePage, IsValid, MatchAt, Aged, AgedWord, Matches;
    var aged := Aged(s, setIndex, cfg.ways);
    assert InPlace(cfg, setIndex, MatchAt(s, way, setIndex));
    forall w: nat | w < cfg.ways ensures Matches(aged, w, setIndex, addr) <==> w == way {
      AgedWords(s, setIndex, cfg.ways, w, setIndex);
      AgeingKeepsTag(MatchAt(s, w, setIndex));
      MatchingPage(aged, w, setIndex, addr);
      SamePageLaws(MatchAt(aged, w, setIndex), MatchAt(s, w, setIndex), addr);
      SamePageLaws(addr, MatchAt(aged, w, setIndex), addr);
      SamePageLaws(MatchAt(s, w, setIndex), addr, addr);
      if w < way {
        assert Apart(MatchAt(s, w, setIndex), MatchAt(s, way, setIndex));
      } else if way < w {
        assert Apart(MatchAt(s, way, setIndex), MatchAt(s, w, setIndex));
      }
    }
    OnlyMatch(cfg, aged, setIndex, addr, way);
  }

  lemma AccessExact(cfg: Config, mem: Memory, ctrl: bv32, s: Tlb, way: nat, setIndex: nat, req: Request)
    requires cfg.Valid() && Structured(cfg, s) && way < cfg.ways && setIndex < MAX_SETS && !req.debug
    requires IsValid(MatchAt(s, way, setIndex)) && req.addr == MatchAt(s, way, setIndex)
    ensures SameOutcome(Translated(cfg, mem, ctrl, s, req).1, Pure(cfg, mem, ctrl, req)) <==>
            && cfg.htr && Walk(mem, ctrl, req.addr).Some?
            && RightsAgree(TransAt(s, way, setIndex), Loaded(Walk(mem, ctrl, req.addr).value, req.imem),
                           Access(req.imem, req.write, req.supervisor))
  {
    hide SetOf, IsValid, MatchAt, TransAt, Aged, OnHit, OnMiss, Structured, HitOutcome, SameOutcome, Pure, Walk, Loaded,
         RightsAgree, Lookup;
    AccessHits(cfg, s, way, setIndex, req.addr);
    HitIsOutcome(Aged(s, setIndex, cfg.ways), way, setIndex, req);
    AgedWords(s, setIndex, cfg.ways, way, setIndex);
    assert TransAt(Aged(s, setIndex, cfg.ways), way, setIndex) == TransAt(s, way, setIndex);
    HitExact(cfg, mem, ctrl, TransAt(s, way, setIndex), req);
  }

  lemma EntryExact(cfg: Config, mem: Memory, ctrl: bv32, imem: bool, s: Tlb, way: nat, setIndex: nat)
    requires cfg.Valid() && Structured(cfg, s) && way < cfg.ways && setIndex < MAX_SETS
    requires Transparent(cfg, mem, ctrl, imem, s)
    ensures EntryAgrees(cfg, mem, ctrl, imem, SameRights, MatchAt(s, way, setIndex), TransAt(s, way, setIndex))
  {
    hide IsValid, MatchAt, TransAt, Structured, SameOutcome, Pure, Walk, Loaded, RightsAgree, Translated;
    var m, t := MatchAt(s, way, setIndex), TransAt(s, way, setIndex);
    if IsValid(m) {
      var first := Request(m, imem, false, false, false, 0);
      AccessExact(cfg, mem, ctrl, s, way, setIndex, first);
      assert SameOutcome(Translated(cfg, mem, ctrl, s, first).1, Pure(cfg, mem, ctrl, first));
      forall write, supervisor
        ensures RightsAgree(t, Loaded(Walk(mem, ctrl, m).value, imem), Access(imem, write, supervisor))
      {
        var req := Request(m, imem, write, supervisor, false, 0);
        AccessExact(cfg, mem, ctrl, s, way, setIndex, req);
        assert SameOutcome(Translated(cfg, mem, ctrl, s, req).1, Pure(cfg, mem, ctrl, req));
      }
    }
  }

  // A structured TLB is transparent for one kind of access, under any page tables and control
  // word, exactly if each of its valid entries agrees with the walk of its page.  After
  // a control write or a change of the tables this tells whether a flush was needed.
  lemma TransparentExact(cfg: Config, mem: Memory, ctrl: bv32, imem: bool, s: Tlb)
    requires cfg.Valid() && Structured(cfg, s)
    ensures Transparent(cfg, mem, ctrl, imem, s) <==> Agreeing(cfg, mem, ctrl, imem, SameRights, s)
  {
    hide EntryAgrees, Structured, SameOutcome, Pure, Translated, MatchAt, TransAt;
    if Transparent(cfg, mem, ctrl, imem, s) {
      forall way: nat, setIndex: nat | way < cfg.ways && setIndex < MAX_SETS
        ensures EntryAgrees(cfg, mem, ctrl, imem, SameRights, MatchAt(s, way, setIndex), TransAt(s, way, setIndex))
      {
        EntryExact(cfg, mem, ctrl, imem, s, way, setIndex);
      }
    }
    if Agreeing(cfg, mem, ctrl, imem, SameRights, s) {
      forall req: Request | !req.debug && req.imem == imem
        ensures SameOutcome(Translated(cfg, mem, ctrl, s, req).1, Pure(cfg, mem, ctrl, req))
      {
        TranslationAgrees(cfg, mem, ctrl, imem, SameRights, s, req);
      }
    }
  }

  // ---- Runs

  ghost predicate TransparentAt(cfg: Config, imem: bool, s: State)
    requires cfg.Valid()
  {
    Transparent(cfg, s.tables, s.ctrl, imem, s.tlb)
  }

  ghost predicate AgreeingAt(cfg: Config, imem: bool, a: Agreement, s: State)
    requires cfg.Valid()
  {
    Agreeing(cfg, s.tables, s.ctrl, imem, a, s.tlb)
  }

  // After any run from power-up, however careless.
  lemma RunTransparentExact(cfg: Config, imem: bool, tables: Memory, ops: seq<Operation>)
    requires cfg.Valid()
    ensures var s := After(cfg, PowerUp(tables), ops);
            TransparentAt(cfg, imem, s) <==> AgreeingAt(cfg, imem, SameRights, s)
  {
    hide Structured, After, Transparent, Agreeing;
    AlwaysStructured(cfg, tables, ops);
    var s := After(cfg, PowerUp(tables), ops);
    TransparentExact(cfg, s.tables, s.ctrl, imem, s.tlb);
  }

  // Each MMU serves one kind of access besides debugging.
  predicate OneKind(imem: bool, op: Operation) {
    op.Translate? ==> op.req.debug || op.req.imem == imem
  }

  // Writes of the control word and of the tables may make entries disagree.
  predicate Rewrites(op: Operation) { op.WriteControl? || op.WriteTables? }

  ghost predicate TransparentThroughout(cfg: Config, imem: bool, s: State, ops: seq<Operation>)
    requires cfg.Valid()
    decreases |ops|
  {
    TransparentAt(cfg, imem, s) && (ops != [] ==> TransparentThroughout(cfg, imem, Operated(cfg, s, ops[0]), ops[1..]))
  }

  ghost predicate AgreesAfterRewrites(cfg: Config, imem: bool, s: State, ops: seq<Operation>)
    requires cfg.Valid()
    decreases |ops|
  {
    ops != [] ==>
      var next := Operated(cfg, s, ops[0]);
      && (Rewrites(ops[0]) ==> AgreeingAt(cfg, imem, SameRights, next))
      && AgreesAfterRewrites(cfg, imem, next, ops[1..])
  }

  lemma OperationKeepsAgreement(cfg: Config, imem: bool, a: Agreement, s: State, op: Operation)
    requires cfg.Valid() && AgreeingAt(cfg, imem, a, s) && OneKind(imem, op) && !Rewrites(op)
    ensures AgreeingAt(cfg, imem, a, Operated(cfg, s, op))
  {
    hide Agreeing, Translated, FlushedEntry;
    match op
    case Translate(req) => TranslationKeepsAgreement(cfg, s.tables, s.ctrl, imem, a, s.tlb, req);
    case FlushPage(ea) => FlushAgrees(cfg, s.tables, s.ctrl, imem, a, s.tlb, ea);
    case _ =>
  }

  // A run is transparent throughout exactly if the entries agree after each write of the control
  // word and of the tables; nothing else can make them disagree.
  lemma {:induction false} ThroughoutExact(cfg: Config, imem: bool, s: State, ops: seq<Operation>)
    requires cfg.Valid() && Structured(cfg, s.tlb) && AgreeingAt(cfg, imem, SameRights, s)
    requires forall i | 0 <= i < |ops| :: OneKind(imem, ops[i])
    ensures TransparentThroughout(cfg, imem, s, ops) <==> AgreesAfterRewrites(cfg, imem, s, ops)
    decreases |ops|
  {
    TransparentExact(cfg, s.tables, s.ctrl, imem, s.tlb);
    if ops != [] {
      hide Structured, Transparent, Agreeing, Operated, OneKind;
      var next := Operated(cfg, s, ops[0]);
      OperatedStructured(cfg, s, ops[0]);
      TransparentExact(cfg, next.tables, next.ctrl, imem, next.tlb);
      assert OneKind(imem, ops[0]);
      if !Rewrites(ops[0]) {
        OperationKeepsAgreement(cfg, imem, SameRights, s, ops[0]);
      }
      if AgreeingAt(cfg, imem, SameRights, next) {
        ThroughoutExact(cfg, imem, next, ops[1..]);
      } else {
        NotTransparent(cfg, imem, next, ops[1..]);
      }
    }
  }

  lemma NotTransparent(cfg: Config, imem: bool, s: State, ops: seq<Operation>)
    requires cfg.Valid() && !TransparentAt(cfg, imem, s)
    ensures !TransparentThroughout(cfg, imem, s, ops)
  {
    hide TransparentAt;
  }

  // ---- Results of a run

  // The results of the translations of a run, with the TLB and without.
  function Results(cfg: Config, s: State, ops: seq<Operation>): seq<Result>
    requires cfg.Valid()
    decreases |ops|
  {
    if ops == [] then []
    else
      (if ops[0].Translate? then [Translated(cfg, s.tables, s.ctrl, s.tlb, ops[0].req).1] else [])
      + Results(cfg, Operated(cfg, s, ops[0]), ops[1..])
  }

  function PureResults(cfg: Config, tables: Memory, ctrl: bv32, ops: seq<Operation>): seq<Result>
    decreases |ops|
  {
    if ops == [] then []
    else
      match ops[0]
      case Translate(req) => [Pure(cfg, tables, ctrl, req)] + PureResults(cfg, tables, ctrl, ops[1..])
      case FlushPage(_) => PureResults(cfg, tables, ctrl, ops[1..])
      case WriteControl(val) => PureResults(cfg, tables, ControlWord(val), ops[1..])
      case WriteTables(next) => PureResults(cfg, next, ctrl, ops[1..])
  }

  // A control write that moves the page directory flushes, or leaves entries that still agree; so
  // do the entries after a write of the tables.
  ghost predicate Careful(cfg: Config, imem: bool, s: State, op: Operation)
    requires cfg.Valid()
  {
    && OneKind(imem, op)
    && (op.WriteControl? ==> Flushes(cfg, op.val) || Directory(op.val) == Directory(s.ctrl)
                             || AgreeingAt(cfg, imem, SameWord, Operated(cfg, s, op)))
    && (op.WriteTables? ==> AgreeingAt(cfg, imem, SameWord, Operated(cfg, s, op)))
  }

  ghost predicate CarefulRun(cfg: Config, imem: bool, s: State, ops: seq<Operation>)
    requires cfg.Valid()
    decreases |ops|
  {
    ops != [] ==> Careful(cfg, imem, s, ops[0]) && CarefulRun(cfg, imem, Operated(cfg, s, ops[0]), ops[1..])
  }

  lemma EmptyAgrees(cfg: Config, mem: Memory, ctrl: bv32, imem: bool, a: Agreement)
    requires cfg.Valid()
    ensures Agreeing(cfg, mem, ctrl, imem, a, EmptyTlb())
  {
    assert !IsValid(0);
    hide IsValid, Walk, Loaded, Agree;
  }

  lemma EmptySound(cfg: Config, mem: Memory, ctrl: bv32, imem: bool)
    requires cfg.Valid()
    ensures Sound(cfg, mem, ctrl, imem, EmptyTlb())
  {
    hide Agreeing, Structured;
    EmptyAgrees(cfg, mem, ctrl, imem, SameWord);
    EmptyStructured(cfg);
  }

  lemma FlushSound(cfg: Config, mem: Memory, ctrl: bv32, imem: bool, s: Tlb, ea: bv32)
    requires cfg.Valid() && Sound(cfg, mem, ctrl, imem, s)
    ensures Sound(cfg, mem, ctrl, imem, FlushedEntry(cfg, s, ea))
  {
    hide Agreeing, Structured, WeakerTags, FlushedEntry;
    FlushAgrees(cfg, mem, ctrl, imem, SameWord, s, ea);
    FlushedWeaker(cfg, s, ea);
    WeakerStructured(cfg, s, FlushedEntry(cfg, s, ea));
  }

  lemma AndTwice(v: bv32, a: bv32, b: bv32)
    ensures And(And(v, a), b) == And(v, And(a, b))
  {
  }

  lemma DirectoryMask()
    ensures And(0xffff_fffe, 0xffff_fc00) == 0xffff_fc00
  {
  }

  lemma ControlWithoutFlushBit(val: bv32)
    ensures Directory(ControlWord(val)) == Directory(val)
  {
    hide And;
    AndTwice(val, 0xffff_fffe, 0xffff_fc00);
    DirectoryMask();
  }

  lemma WalkByDirectory(mem: Memory, ctrl: bv32, next: bv32, addr: bv32)
    requires Directory(ctrl) == Directory(next)
    ensures Walk(mem, ctrl, addr) == Walk(mem, next, addr)
  {
    hide Directory, Entry, Level1Offset, Level2Offset, PageAlign;
  }

  lemma SameDirectoryAgrees(cfg: Config, mem: Memory, ctrl: bv32, next: bv32, imem: bool, a: Agreement, s: Tlb)
    requires cfg.Valid() && Agreeing(cfg, mem, ctrl, imem, a, s) && Directory(ctrl) == Directory(next)
    ensures Agreeing(cfg, mem, next, imem, a, s)
  {
    hide Directory, IsValid, Walk, Loaded, Agree, MatchAt, TransAt;
    forall way: nat, setIndex: nat | way < cfg.ways && setIndex < MAX_SETS
      ensures EntryAgrees(cfg, mem, next, imem, a, MatchAt(s, way, setIndex), TransAt(s, way, setIndex))
    {
      assert EntryAgrees(cfg, mem, ctrl, imem, a, MatchAt(s, way, setIndex), TransAt(s, way, setIndex));
      WalkByDirectory(mem, ctrl, next, MatchAt(s, way, setIndex));
    }
  }

  lemma ControlKeepsAgreement(cfg: Config, imem: bool, s: State, val: bv32)
    requires cfg.Valid() && AgreeingAt(cfg, imem, SameWord, s)
    requires Flushes(cfg, val) || Directory(val) == Directory(s.ctrl)
    ensures AgreeingAt(cfg, imem, SameWord, Operated(cfg, s, WriteControl(val)))
  {
    hide Agreeing, Directory, Flushes, ControlWord;
    var next := ControlWord(val);
    ControlWithoutFlushBit(val);
    EmptyAgrees(cfg, s.tables, next, imem, SameWord);
    if Directory(val) == Directory(s.ctrl) {
      SameDirectoryAgrees(cfg, s.tables, s.ctrl, next, imem, SameWord, s.tlb);
    }
  }

  lemma CarefulKeepsAgreement(cfg: Config, imem: bool, s: State, op: Operation)
    requires cfg.Valid() && AgreeingAt(cfg, imem, SameWord, s) && Careful(cfg, imem, s, op)
    ensures AgreeingAt(cfg, imem, SameWord, Operated(cfg, s, op))
  {
    hide AgreeingAt, Operated, Directory, Flushes, OneKind;
    if !Rewrites(op) {
      OperationKeepsAgreement(cfg, imem, SameWord, s, op);
    } else if op.WriteControl? && (Flushes(cfg, op.val) || Directory(op.val) == Directory(s.ctrl)) {
      ControlKeepsAgreement(cfg, imem, s, op.val);
    }
  }

  predicate SameOutcomes(rs: seq<Result>, ps: seq<Result>) {
    |rs| == |ps| && forall i | 0 <= i < |rs| :: SameOutcome(rs[i], ps[i])
  }

  lemma OutcomesPrepend(r: Result, p: Result, rs: seq<Result>, ps: seq<Result>)
    requires SameOutcome(r, p) && SameOutcomes(rs, ps)
    ensures SameOutcomes([r] + rs, [p] + ps)
  {
    hide SameOutcome;
  }

  lemma NoOutcomes()
    ensures SameOutcomes([], [])
  {
  }

  lemma {:induction false} RunsTransparent(cfg: Config, imem: bool, s: State, ops: seq<Operation>)
    requires cfg.Valid() && AgreeingAt(cfg, imem, SameWord, s) && CarefulRun(cfg, imem, s, ops)
    ensures SameOutcomes(Results(cfg, s, ops), PureResults(cfg, s.tables, s.ctrl, ops))
    decreases |ops|
  {
    hide Agreeing, Translated, FlushedEntry, Directory, Pure, SameOutcomes, Flushes;
    if ops == [] {
      NoOutcomes();
    } else {
      var next := Operated(cfg, s, ops[0]);
      var rest := Results(cfg, next, ops[1..]);
      CarefulKeepsAgreement(cfg, imem, s, ops[0]);
      RunsTransparent(cfg, imem, next, ops[1..]);
      if ops[0].Translate? {
        TranslationAgrees(cfg, s.tables, s.ctrl, imem, SameWord, s.tlb, ops[0].req);
        OutcomesPrepend(Translated(cfg, s.tables, s.ctrl, s.tlb, ops[0].req).1, Pure(cfg, s.tables, s.ctrl, ops[0].req),
                        rest, PureResults(cfg, s.tables, s.ctrl, ops[1..]));
      } else {
        assert [] + rest == rest;
      }
    }
  }

  // From power-up, no careful run of translations, flushes and writes can tell the TLB from the
  // page walk.
  lemma TlbTransparent(cfg: Config, tables: Memory, imem: bool, ops: seq<Operation>)
    requires cfg.Valid() && CarefulRun(cfg, imem, PowerUp(tables), ops)
    ensures SameOutcomes(Results(cfg, PowerUp(tables), ops), PureResults(cfg, tables, 0, ops))
  {
    hide Agreeing, Results, PureResults, CarefulRun;
    EmptyAgrees(cfg, tables, 0, imem, SameWord);
    RunsTransparent(cfg, imem, PowerUp(tables), ops);
  }

  // Without the flush, an entry outlives its page directory: the page of address 0 is present
  // in the first directory and absent from the second.
  function TwoDirectories(): Memory {
    a => if a == 0x400 then Some(0x2000) else if a == 0x2000 then Some(0x4140) else Some(0)
  }

  const SMALL: Config := Config(1, 0, true, true)

  const LOAD_ZERO: Request := Request(0, false, false, true, false, 0)

  lemma FirstLoadFills()
    ensures SMALL.Valid() && SetOf(SMALL, 0) == 0
    ensures var (r, result) := Translated(SMALL, TwoDirectories(), 0x400, EmptyTlb(), LOAD_ZERO);
            result == Okay(0x4000, 0) && r[MatchReg(0, 0)] == 1 && r[TransReg(0, 0)] == 0x4151
  {
    assert Aged(EmptyTlb(), 0, 1) == EmptyTlb() by {
      assert EmptyTlb()[0] == 0;
      assert AgedWord(0) == 0;
    }
    assert Lookup(EmptyTlb(), 0, 0, 0, 1) == 1;
    assert Walk(TwoDirectories(), 0x400, 0) == Some(0x4140);
    assert FindEmptyWay(EmptyTlb(), 0, 1) == 0;
  }

  lemma StaleHit(s: Tlb, ctrl: bv32)
    requires s[MatchReg(0, 0)] == 1 && s[TransReg(0, 0)] == 0x4151
    ensures SMALL.Valid() && Translated(SMALL, TwoDirectories(), ctrl, s, LOAD_ZERO).1 == Okay(0x4000, 1)
  {
    FirstLoadFills();
    AgedWords(s, 0, 1, 0, 0);
    assert AgedWord(1) == 0x41;
    assert Lookup(Aged(s, 0, 1), 0, 0, 0, 1) == 0;
  }

  lemma StaleWithoutFlush()
    ensures var ops := [WriteControl(0x400), Translate(LOAD_ZERO), WriteControl(0x800), Translate(LOAD_ZERO)];
            var rs := Results(SMALL, PowerUp(TwoDirectories()), ops);
            var ps := PureResults(SMALL, TwoDirectories(), 0, ops);
            |rs| == |ps| == 2 && ps[1] == TlbMiss && rs[1] == Okay(0x4000, 1)
  {
    FirstLoadFills();
    var ops := [WriteControl(0x400), Translate(LOAD_ZERO), WriteControl(0x800), Translate(LOAD_ZERO)];
    var r := Translated(SMALL, TwoDirectories(), 0x400, EmptyTlb(), LOAD_ZERO).0;
    StaleHit(r, 0x800);
    assert Pure(SMALL, TwoDirectories(), 0x800, LOAD_ZERO) == TlbMiss;
    hide Translated, Pure;
    var mem := TwoDirectories();
    var s1, s2, s3 := State(EmptyTlb(), 0x400, mem), State(r, 0x400, mem), State(r, 0x800, mem);
    assert ops[1..][1..] == ops[2..] && ops[2..][1..] == ops[3..] && ops[3..][1..] == [];
    assert Operated(SMALL, PowerUp(mem), ops[0]) == s1;
    assert Operated(SMALL, s2, ops[2]) == s3;
    assert Results(SMALL, s3, ops[3..]) == [Okay(0x4000, 1)];
    assert Results(SMALL, s2, ops[2..]) == [Okay(0x4000, 1)];
    assert PureResults(SMALL, mem, 0x800, ops[3..]) == [TlbMiss];
    assert PureResults(SMALL, mem, 0x400, ops[2..]) == [TlbMiss];
    assert |PureResults(SMALL, mem, 0x400, ops[1..])| == 2;
  }

  // ---- Attributes

  // The page attributes are copied to the request on a hit only: a refill returns those the
  // request came with.
  lemma AttributesExact(cfg: Config, mem: Memory, ctrl: bv32, imem: bool, s: Tlb, req: Request)
    requires cfg.Valid() && Sound(cfg, mem, ctrl, imem, s) && req.imem == imem
    requires Translated(cfg, mem, ctrl, s, req).1.Okay?
    ensures Walk(mem, ctrl, req.addr).Some?
    ensures Translated(cfg, mem, ctrl, s, req).1 == Pure(cfg, mem, ctrl, req) <==>
            var setIndex := SetOf(cfg, req.addr);
            || Lookup(if req.debug then s else Aged(s, setIndex, cfg.ways), setIndex, req.addr, 0, cfg.ways) == cfg.ways
            || Attributes(Loaded(Walk(mem, ctrl, req.addr).value, imem)) == req.attributes
  {
    hide OnMiss, OnHit, Aged, SetOf, Walk, Loaded, Permits, Physical, Agreeing, Structured, Matches, Attributes;
    TranslationTransparent(cfg, mem, ctrl, imem, s, req);
    var setIndex := SetOf(cfg, req.addr);
    var aged := if req.debug then s else Aged(s, setIndex, cfg.ways);
    var way := Lookup(aged, setIndex, req.addr, 0, cfg.ways);
    AgedAgrees(cfg, mem, ctrl, imem, SameWord, s, setIndex);
    if way == cfg.ways {
      MissAgrees(cfg, mem, ctrl, aged, setIndex, req);
    } else {
      HitAttributes(cfg, mem, ctrl, imem, aged, way, setIndex, req);
    }
  }

  lemma HitAttributes(cfg: Config, mem: Memory, ctrl: bv32, imem: bool, s: Tlb, way: nat, setIndex: nat, req: Request)
    requires cfg.Valid() && way < cfg.ways && setIndex < MAX_SETS && Agreeing(cfg, mem, ctrl, imem, SameWord, s)
    requires Matches(s, way, setIndex, req.addr)
    requires OnHit(s, way, setIndex, req).1.Okay?
    ensures Walk(mem, ctrl, req.addr).Some?
    ensures OnHit(s, way, setIndex, req).1.attributes == Attributes(Loaded(Walk(mem, ctrl, req.addr).value, imem))
  {
    hide Walk, Loaded, Permits, Physical, Matches, SameMapping, SamePage, MatchAt, TransAt, IsValid, OnHit, Attributes;
    var m, t := MatchAt(s, way, setIndex), TransAt(s, way, setIndex);
    MatchingPage(s, way, setIndex, req.addr);
    assert EntryAgrees(cfg, mem, ctrl, imem, SameWord, m, t);
    WalkByPage(mem, ctrl, req.addr, m);
    HitIsOutcome(s, way, setIndex, req);
    MappingDecides(t, Loaded(Walk(mem, ctrl, m).value, imem), req);
  }

  // The first load of a page returns the attributes of the request, the second those of the page.
  lemma AttributesDiffer()
    ensures SMALL.Valid()
    ensures var r := Translated(SMALL, TwoDirectories(), 0x400, EmptyTlb(), LOAD_ZERO).0;
            && Translated(SMALL, TwoDirectories(), 0x400, r, LOAD_ZERO).1 == Okay(0x4000, 1)
            && Pure(SMALL, TwoDirectories(), 0x400, LOAD_ZERO) == Okay(0x4000, 0)
  {
    FirstLoadFills();
    StaleHit(Translated(SMALL, TwoDirectories(), 0x400, EmptyTlb(), LOAD_ZERO).0, 0x400);
    assert Walk(TwoDirectories(), 0x400, 0) == Some(0x4140);
  }
}
