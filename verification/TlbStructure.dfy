/** The structure of the TLB, which every operation keeps whatever the page tables hold: each valid
    entry sits in the set that its page selects, and no two ways of a set hold the same page. */
module TlbStructure {
  import opened Words
  import opened Translation

  // ---- Words

  // Comparing the exclusive-or compares the page frames.
  lemma SameFrame(a: bv32, b: bv32)
    requires SamePage(a, b)
    ensures PageAlign(a) == PageAlign(b)
  {
  }

  lemma FrameSame(a: bv32, b: bv32)
    requires PageAlign(a) == PageAlign(b)
    ensures SamePage(a, b)
  {
  }

  lemma SamePageIsEqualFrame(a: bv32, b: bv32)
    ensures SamePage(a, b) <==> PageAlign(a) == PageAlign(b)
  {
    hide SamePage, PageAlign;
    if SamePage(a, b) {
      SameFrame(a, b);
    }
    if PageAlign(a) == PageAlign(b) {
      FrameSame(a, b);
    }
  }

  lemma FrameTwice(a: bv32)
    ensures PageAlign(PageAlign(a)) == PageAlign(a)
  {
  }

  lemma SamePageLaws(a: bv32, b: bv32, c: bv32)
    ensures SamePage(a, a) && (SamePage(a, b) == SamePage(b, a))
    ensures SamePage(PageAlign(a), b) == SamePage(a, b)
    ensures SamePage(a, b) ==> SamePage(a, c) == SamePage(b, c)
  {
    hide *;
    SamePageIsEqualFrame(a, a);
    SamePageIsEqualFrame(a, b);
    SamePageIsEqualFrame(b, a);
    SamePageIsEqualFrame(a, c);
    SamePageIsEqualFrame(b, c);
    SamePageIsEqualFrame(PageAlign(a), b);
    FrameTwice(a);
  }

  // All indices of the walk and of the TLB are functions of the page frame.
  lemma IndexOfFrame(a: bv32, mask: bv32)
    ensures Level1Offset(a) == Level1Offset(PageAlign(a))
    ensures Level2Offset(a) == Level2Offset(PageAlign(a))
    ensures SetBits(a, mask) == SetBits(PageAlign(a), mask)
  {
  }

  lemma SetByPage(cfg: Config, a: bv32, b: bv32)
    requires cfg.Valid() && SamePage(a, b)
    ensures SetOf(cfg, a) == SetOf(cfg, b)
  {
    SetIsOfFrame(cfg, a);
    SetIsOfFrame(cfg, b);
    SamePageIsEqualFrame(a, b);
    hide *;
  }

  lemma SetIsOfFrame(cfg: Config, a: bv32)
    requires cfg.Valid()
    ensures SetOf(cfg, a) == SetOf(cfg, PageAlign(a))
  {
    IndexOfFrame(a, cfg.setMask);
    hide PageAlign, SetBits;
  }

  // Ageing keeps the tag and the valid bit, although the counter overflows: an entry of the
  // greatest age becomes one of the least, and the carry stays in bit 8.
  lemma AgeingKeepsTag(w: bv32)
    ensures SamePage(AgedWord(w), w) && IsValid(AgedWord(w)) == IsValid(w)
  {
  }

  lemma AgeOverflows(w: bv32)
    ensures IsValid(w) && Age(w) == MMUM_LRU3 ==> Age(AgedWord(w)) == 0 && AgedWord(w) & 0x100 != 0
    ensures IsValid(w) && Age(w) != MMUM_LRU3 ==> Age(AgedWord(w)) == Age(w) + MMUM_LRU1
  {
  }

  lemma YoungestKeepsTag(w: bv32)
    ensures SamePage(Youngest(w), w) && IsValid(Youngest(w)) == IsValid(w)
  {
  }

  lemma InvalidatedTag(w: bv32)
    ensures SamePage(Invalidated(w), w) && !IsValid(Invalidated(w))
  {
  }

  lemma TagIsPage(a: bv32)
    ensures IsValid(Tag(a)) && SamePage(Tag(a), a)
  {
  }

  // ---- The words of an entry

  function MatchAt(s: Tlb, way: nat, setIndex: nat): bv32
    requires way < MAX_WAYS && setIndex < MAX_SETS
  {
    s[MatchReg(way, setIndex)]
  }

  function TransAt(s: Tlb, way: nat, setIndex: nat): bv32
    requires way < MAX_WAYS && setIndex < MAX_SETS
  {
    s[TransReg(way, setIndex)]
  }

  // ---- The structure

  ghost predicate Placed(cfg: Config, s: Tlb)
    requires cfg.Valid()
  {
    forall way: nat, setIndex: nat | way < cfg.ways && setIndex < MAX_SETS ::
      InPlace(cfg, setIndex, MatchAt(s, way, setIndex))
  }

  predicate InPlace(cfg: Config, setIndex: nat, m: bv32)
    requires cfg.Valid()
  {
    IsValid(m) ==> SetOf(cfg, m) == setIndex
  }

  ghost predicate Distinct(cfg: Config, s: Tlb)
    requires cfg.Valid()
  {
    forall v: nat, w: nat, setIndex: nat | v < w < cfg.ways && setIndex < MAX_SETS ::
      Apart(MatchAt(s, v, setIndex), MatchAt(s, w, setIndex))
  }

  predicate Apart(m: bv32, n: bv32) {
    IsValid(m) && IsValid(n) ==> !SamePage(m, n)
  }

  ghost predicate Structured(cfg: Config, s: Tlb)
    requires cfg.Valid()
  {
    Placed(cfg, s) && Distinct(cfg, s)
  }

  // ---- Entries that keep their page or become invalid

  predicate Weaker(m: bv32, n: bv32) {
    SamePage(n, m) && (IsValid(n) ==> IsValid(m))
  }

  lemma InPlaceWeakens(cfg: Config, setIndex: nat, m: bv32, n: bv32)
    requires cfg.Valid() && InPlace(cfg, setIndex, m) && Weaker(m, n)
    ensures InPlace(cfg, setIndex, n)
  {
    if IsValid(n) {
      SetByPage(cfg, n, m);
    }
    hide SetOf, SamePage, IsValid;
  }

  lemma ApartWeakens(m: bv32, n: bv32, m': bv32, n': bv32)
    requires Apart(m, n) && Weaker(m, m') && Weaker(n, n')
    ensures Apart(m', n')
  {
    hide SamePage, IsValid;
    SamePageLaws(m', m, n');
    SamePageLaws(m, n', m);
    SamePageLaws(n', n, m);
    SamePageLaws(n, m, n);
  }

  ghost predicate WeakerTags(cfg: Config, s: Tlb, r: Tlb)
    requires cfg.Valid()
  {
    forall way: nat, setIndex: nat | way < cfg.ways && setIndex < MAX_SETS ::
      Weaker(MatchAt(s, way, setIndex), MatchAt(r, way, setIndex))
  }

  lemma WeakerStructured(cfg: Config, s: Tlb, r: Tlb)
    requires cfg.Valid() && Structured(cfg, s) && WeakerTags(cfg, s, r)
    ensures Structured(cfg, r)
  {
    hide Weaker, InPlace, Apart;
    forall way: nat, setIndex: nat | way < cfg.ways && setIndex < MAX_SETS
      ensures InPlace(cfg, setIndex, MatchAt(r, way, setIndex))
    {
      InPlaceWeakens(cfg, setIndex, MatchAt(s, way, setIndex), MatchAt(r, way, setIndex));
    }
    forall v: nat, w: nat, setIndex: nat | v < w < cfg.ways && setIndex < MAX_SETS
      ensures Apart(MatchAt(r, v, setIndex), MatchAt(r, w, setIndex))
    {
      ApartWeakens(MatchAt(s, v, setIndex), MatchAt(s, w, setIndex), MatchAt(r, v, setIndex), MatchAt(r, w, setIndex));
    }
  }

  // ---- Each operation, word by word

  lemma {:induction false} AgedWords(s: Tlb, setIndex: nat, ways: nat, way: nat, other: nat)
    requires ways <= MAX_WAYS && setIndex < MAX_SETS && way < MAX_WAYS && other < MAX_SETS
    ensures MatchAt(Aged(s, setIndex, ways), way, other) ==
            if other == setIndex && way < ways then AgedWord(MatchAt(s, way, other)) else MatchAt(s, way, other)
    ensures TransAt(Aged(s, setIndex, ways), way, other) == TransAt(s, way, other)
  {
    hide AgedWord;
    if ways > 0 {
      AgedWords(s, setIndex, ways - 1, way, other);
    }
  }

  lemma {:induction false} FlushedWords(s: Tlb, ea: bv32, setIndex: nat, ways: nat, way: nat, other: nat)
    requires ways <= MAX_WAYS && setIndex < MAX_SETS && way < MAX_WAYS && other < MAX_SETS
    ensures var m := MatchAt(s, way, other);
            MatchAt(FlushedWays(s, ea, setIndex, ways), way, other) ==
            if other == setIndex && way < ways && SamePage(PageAlign(ea), m) then Invalidated(m) else m
    ensures TransAt(FlushedWays(s, ea, setIndex, ways), way, other) == TransAt(s, way, other)
  {
    hide SamePage, PageAlign, Invalidated;
    if ways > 0 {
      FlushedWords(s, ea, setIndex, ways - 1, way, other);
    }
  }

  lemma HitWords(s: Tlb, hit: nat, setIndex: nat, req: Request, way: nat, other: nat)
    requires hit < MAX_WAYS && setIndex < MAX_SETS && way < MAX_WAYS && other < MAX_SETS
    ensures var r, touched := OnHit(s, hit, setIndex, req).0, way == hit && other == setIndex && !req.debug && Permits(TransAt(s, hit, setIndex), req);
            && MatchAt(r, way, other) == (if touched then Youngest(MatchAt(s, way, other)) else MatchAt(s, way, other))
            && TransAt(r, way, other) == if touched then Touched(TransAt(s, way, other), req.write) else TransAt(s, way, other)
  {
    hide Permits, Physical, Youngest, Touched, Attributes;
  }

  lemma FilledWords(s: Tlb, free: nat, setIndex: nat, addr: bv32, t: bv32, way: nat, other: nat)
    requires free < MAX_WAYS && setIndex < MAX_SETS && way < MAX_WAYS && other < MAX_SETS
    ensures var r, filled := Filled(s, free, setIndex, addr, t), way == free && other == setIndex;
            && MatchAt(r, way, other) == (if filled then Tag(addr) else MatchAt(s, way, other))
            && TransAt(r, way, other) == if filled then t else TransAt(s, way, other)
  {
    hide Tag;
  }

  lemma WeakerIf(m: bv32, n: bv32)
    requires SamePage(n, m) && (IsValid(n) ==> IsValid(m))
    ensures Weaker(m, n)
  {
    hide SamePage, IsValid;
  }

  lemma WeakerWords(m: bv32)
    ensures Weaker(m, m) && Weaker(m, AgedWord(m)) && Weaker(m, Youngest(m)) && Weaker(m, Invalidated(m))
  {
    hide *;
    SamePageLaws(m, m, m);
    WeakerIf(m, m);
    AgeingKeepsTag(m);
    WeakerIf(m, AgedWord(m));
    YoungestKeepsTag(m);
    WeakerIf(m, Youngest(m));
    InvalidatedTag(m);
    WeakerIf(m, Invalidated(m));
  }

  lemma AgedWeaker(cfg: Config, s: Tlb, setIndex: nat)
    requires cfg.Valid() && setIndex < MAX_SETS
    ensures WeakerTags(cfg, s, Aged(s, setIndex, cfg.ways))
  {
    hide AgedWord, Aged, Weaker;
    forall way: nat, other: nat | way < cfg.ways && other < MAX_SETS
      ensures Weaker(MatchAt(s, way, other), MatchAt(Aged(s, setIndex, cfg.ways), way, other))
    {
      AgedWords(s, setIndex, cfg.ways, way, other);
      WeakerWords(MatchAt(s, way, other));
    }
  }

  lemma FlushedWeaker(cfg: Config, s: Tlb, ea: bv32)
    requires cfg.Valid()
    ensures WeakerTags(cfg, s, FlushedEntry(cfg, s, ea))
  {
    hide Invalidated, FlushedWays, Weaker, SetOf, SamePage, PageAlign;
    forall way: nat, other: nat | way < cfg.ways && other < MAX_SETS
      ensures Weaker(MatchAt(s, way, other), MatchAt(FlushedEntry(cfg, s, ea), way, other))
    {
      FlushedWords(s, ea, SetOf(cfg, ea), cfg.ways, way, other);
      WeakerWords(MatchAt(s, way, other));
    }
  }

  lemma HitWeaker(cfg: Config, s: Tlb, way: nat, setIndex: nat, req: Request)
    requires cfg.Valid() && way < cfg.ways && setIndex < MAX_SETS
    ensures WeakerTags(cfg, s, OnHit(s, way, setIndex, req).0)
  {
    hide Weaker, Youngest, Touched, Permits, OnHit, MatchAt, TransAt;
    forall w: nat, other: nat | w < cfg.ways && other < MAX_SETS
      ensures Weaker(MatchAt(s, w, other), MatchAt(OnHit(s, way, setIndex, req).0, w, other))
    {
      HitWords(s, way, setIndex, req, w, other);
      WeakerWords(MatchAt(s, w, other));
    }
  }

  // ---- Filling a way with a page that no way matches

  // A miss leaves the TLB alone, or fills one way.
  lemma MissFills(cfg: Config, mem: Memory, ctrl: bv32, s: Tlb, setIndex: nat, req: Request) returns (t: bv32)
    requires cfg.Valid() && setIndex < MAX_SETS
    ensures var r := OnMiss(cfg, mem, ctrl, s, setIndex, req).0;
            r == s || (!req.debug && r == Filled(s, FindEmptyWay(s, setIndex, cfg.ways), setIndex, req.addr, t))
  {
    hide Walk, Loaded, Permits, Physical, Touched, FindEmptyWay, Filled;
    var walk := Walk(mem, ctrl, req.addr);
    t := if walk.Some? then Touched(Loaded(walk.value, req.imem), req.write) else 0;
  }

  lemma FillPlaced(cfg: Config, s: Tlb, addr: bv32, way: nat, t: bv32)
    requires cfg.Valid() && way < cfg.ways && Placed(cfg, s)
    ensures Placed(cfg, Filled(s, way, SetOf(cfg, addr), addr, t))
  {
    hide SamePage, IsValid, SetOf, Tag, Filled, MatchAt;
    TagIsPage(addr);
    SetByPage(cfg, Tag(addr), addr);
    forall w: nat, other: nat | w < cfg.ways && other < MAX_SETS
      ensures InPlace(cfg, other, MatchAt(Filled(s, way, SetOf(cfg, addr), addr, t), w, other))
    {
      FilledWords(s, way, SetOf(cfg, addr), addr, t, w, other);
    }
  }

  lemma Unmatched(s: Tlb, w: nat, setIndex: nat, addr: bv32)
    requires w < MAX_WAYS && setIndex < MAX_SETS && !Matches(s, w, setIndex, addr)
    ensures Apart(MatchAt(s, w, setIndex), Tag(addr)) && Apart(Tag(addr), MatchAt(s, w, setIndex))
  {
    hide SamePage, IsValid, PageAlign, Tag;
    var m := MatchAt(s, w, setIndex);
    TagIsPage(addr);
    SamePageLaws(Tag(addr), addr, m);
    SamePageLaws(addr, m, addr);
    SamePageLaws(Tag(addr), m, addr);
  }

  lemma FillDistinct(cfg: Config, s: Tlb, addr: bv32, way: nat, setIndex: nat, t: bv32)
    requires cfg.Valid() && way < cfg.ways && setIndex < MAX_SETS && Distinct(cfg, s)
    requires forall w | 0 <= w < cfg.ways :: !Matches(s, w, setIndex, addr)
    ensures Distinct(cfg, Filled(s, way, setIndex, addr, t))
  {
    var r := Filled(s, way, setIndex, addr, t);
    hide Apart, Tag, Matches, Filled, MatchAt, TransAt;
    forall v: nat, w: nat, other: nat | v < w < cfg.ways && other < MAX_SETS
      ensures Apart(MatchAt(r, v, other), MatchAt(r, w, other))
    {
      FilledWords(s, way, setIndex, addr, t, v, other);
      FilledWords(s, way, setIndex, addr, t, w, other);
      if other == setIndex && v == way {
        Unmatched(s, w, setIndex, addr);
      } else if other == setIndex && w == way {
        Unmatched(s, v, setIndex, addr);
      }
    }
  }

  lemma MissStructured(cfg: Config, mem: Memory, ctrl: bv32, s: Tlb, req: Request)
    requires cfg.Valid() && Structured(cfg, s)
    requires forall w | 0 <= w < cfg.ways :: !Matches(s, w, SetOf(cfg, req.addr), req.addr)
    ensures Structured(cfg, OnMiss(cfg, mem, ctrl, s, SetOf(cfg, req.addr), req).0)
  {
    hide Placed, Distinct, OnMiss, FindEmptyWay, Filled, SetOf, Matches;
    var t := MissFills(cfg, mem, ctrl, s, SetOf(cfg, req.addr), req);
    var way := FindEmptyWay(s, SetOf(cfg, req.addr), cfg.ways);
    FillPlaced(cfg, s, req.addr, way, t);
    FillDistinct(cfg, s, req.addr, way, SetOf(cfg, req.addr), t);
  }

  // Any request, with any page tables.
  lemma TranslatedStructured(cfg: Config, mem: Memory, ctrl: bv32, s: Tlb, req: Request)
    requires cfg.Valid() && Structured(cfg, s)
    ensures Structured(cfg, Translated(cfg, mem, ctrl, s, req).0)
  {
    hide OnHit, OnMiss, Aged, Structured, Matches, SetOf, WeakerTags;
    var setIndex := SetOf(cfg, req.addr);
    var aged := if req.debug then s else Aged(s, setIndex, cfg.ways);
    var way := Lookup(aged, setIndex, req.addr, 0, cfg.ways);
    if !req.debug {
      AgedWeaker(cfg, s, setIndex);
      WeakerStructured(cfg, s, aged);
    }
    if way < cfg.ways {
      HitWeaker(cfg, aged, way, setIndex, req);
      WeakerStructured(cfg, aged, OnHit(aged, way, setIndex, req).0);
    } else {
      MissStructured(cfg, mem, ctrl, aged, req);
    }
  }

  lemma EmptyStructured(cfg: Config)
    requires cfg.Valid()
    ensures Structured(cfg, EmptyTlb())
  {
    assert !IsValid(0);
    hide IsValid, SetOf, SamePage;
  }

  // ---- Runs

  // What may happen to an MMU, between arbitrary changes of the page tables.
  datatype Operation = Translate(req: Request) | FlushPage(ea: bv32) | WriteControl(val: bv32) | WriteTables(tables: Memory)

  datatype State = State(tlb: Tlb, ctrl: bv32, tables: Memory)

  function Operated(cfg: Config, s: State, op: Operation): State
    requires cfg.Valid()
  {
    match op
    case Translate(req) => s.(tlb := Translated(cfg, s.tables, s.ctrl, s.tlb, req).0)
    case FlushPage(ea) => s.(tlb := FlushedEntry(cfg, s.tlb, ea))
    case WriteControl(val) => s.(tlb := if Flushes(cfg, val) then EmptyTlb() else s.tlb, ctrl := ControlWord(val))
    case WriteTables(tables) => s.(tables := tables)
  }

  function After(cfg: Config, s: State, ops: seq<Operation>): State
    requires cfg.Valid()
    decreases |ops|
  {
    if ops == [] then s else After(cfg, Operated(cfg, s, ops[0]), ops[1..])
  }

  function PowerUp(tables: Memory): State { State(EmptyTlb(), 0, tables) }

  lemma OperatedStructured(cfg: Config, s: State, op: Operation)
    requires cfg.Valid() && Structured(cfg, s.tlb)
    ensures Structured(cfg, Operated(cfg, s, op).tlb)
  {
    hide Structured, Translated, FlushedEntry, WeakerTags, Flushes;
    match op
    case Translate(req) => TranslatedStructured(cfg, s.tables, s.ctrl, s.tlb, req);
    case FlushPage(ea) =>
      FlushedWeaker(cfg, s.tlb, ea);
      WeakerStructured(cfg, s.tlb, FlushedEntry(cfg, s.tlb, ea));
    case WriteControl(_) => EmptyStructured(cfg);
    case WriteTables(_) =>
  }

  // Every run of operations keeps the structure, with no discipline at all.
  lemma {:induction false} RunsStructured(cfg: Config, s: State, ops: seq<Operation>)
    requires cfg.Valid() && Structured(cfg, s.tlb)
    ensures Structured(cfg, After(cfg, s, ops).tlb)
    decreases |ops|
  {
    hide Structured, Operated;
    if ops != [] {
      OperatedStructured(cfg, s, ops[0]);
      RunsStructured(cfg, Operated(cfg, s, ops[0]), ops[1..]);
    }
  }

  lemma AlwaysStructured(cfg: Config, tables: Memory, ops: seq<Operation>)
    requires cfg.Valid()
    ensures Structured(cfg, After(cfg, PowerUp(tables), ops).tlb)
  {
    hide Structured, After;
    EmptyStructured(cfg);
    RunsStructured(cfg, PowerUp(tables), ops);
  }

  // ---- Other sets

  // The words of a set.
  predicate SameSet(setIndex: nat, s: Tlb, r: Tlb)
    requires setIndex < MAX_SETS
  {
    forall way: nat | way < MAX_WAYS ::
      MatchAt(r, way, setIndex) == MatchAt(s, way, setIndex) && TransAt(r, way, setIndex) == TransAt(s, way, setIndex)
  }

  lemma HitLeavesOtherSets(s: Tlb, way: nat, setIndex: nat, req: Request, other: nat)
    requires way < MAX_WAYS && setIndex < MAX_SETS && other < MAX_SETS && other != setIndex
    ensures SameSet(other, s, OnHit(s, way, setIndex, req).0)
  {
    hide OnHit, MatchAt, TransAt, Permits;
    forall w: nat | w < MAX_WAYS
      ensures MatchAt(OnHit(s, way, setIndex, req).0, w, other) == MatchAt(s, w, other)
      ensures TransAt(OnHit(s, way, setIndex, req).0, w, other) == TransAt(s, w, other)
    {
      HitWords(s, way, setIndex, req, w, other);
    }
  }

  lemma FillLeavesOtherSets(s: Tlb, way: nat, setIndex: nat, addr: bv32, t: bv32, other: nat)
    requires way < MAX_WAYS && setIndex < MAX_SETS && other < MAX_SETS && other != setIndex
    ensures SameSet(other, s, Filled(s, way, setIndex, addr, t))
  {
    hide Filled, MatchAt, TransAt;
    forall w: nat | w < MAX_WAYS
      ensures MatchAt(Filled(s, way, setIndex, addr, t), w, other) == MatchAt(s, w, other)
      ensures TransAt(Filled(s, way, setIndex, addr, t), w, other) == TransAt(s, w, other)
    {
      FilledWords(s, way, setIndex, addr, t, w, other);
    }
  }

  lemma AgeingLeavesOtherSets(s: Tlb, setIndex: nat, ways: nat, other: nat)
    requires ways <= MAX_WAYS && setIndex < MAX_SETS && other < MAX_SETS && other != setIndex
    ensures SameSet(other, s, Aged(s, setIndex, ways))
  {
    hide Aged, MatchAt, TransAt, AgedWord;
    forall w: nat | w < MAX_WAYS
      ensures MatchAt(Aged(s, setIndex, ways), w, other) == MatchAt(s, w, other)
      ensures TransAt(Aged(s, setIndex, ways), w, other) == TransAt(s, w, other)
    {
      AgedWords(s, setIndex, ways, w, other);
    }
  }

  lemma SameSetTwice(setIndex: nat, s: Tlb, r: Tlb, q: Tlb)
    requires setIndex < MAX_SETS && SameSet(setIndex, s, r) && SameSet(setIndex, r, q)
    ensures SameSet(setIndex, s, q)
  {
    hide MatchAt, TransAt;
  }

  lemma OtherSetsUntouched(cfg: Config, mem: Memory, ctrl: bv32, s: Tlb, req: Request, other: nat)
    requires cfg.Valid() && other < MAX_SETS && other != SetOf(cfg, req.addr)
    ensures SameSet(other, s, Translated(cfg, mem, ctrl, s, req).0)
  {
    hide Aged, SetOf, OnHit, OnMiss, Filled, SameSet, Matches, FindEmptyWay;
    var setIndex := SetOf(cfg, req.addr);
    var aged := if req.debug then s else Aged(s, setIndex, cfg.ways);
    var way := Lookup(aged, setIndex, req.addr, 0, cfg.ways);
    AgeingLeavesOtherSets(s, setIndex, cfg.ways, other);
    SetIsItself(other, s);
    if way < cfg.ways {
      HitLeavesOtherSets(aged, way, setIndex, req, other);
      SameSetTwice(other, s, aged, OnHit(aged, way, setIndex, req).0);
    } else {
      var t := MissFills(cfg, mem, ctrl, aged, setIndex, req);
      var filled := Filled(aged, FindEmptyWay(aged, setIndex, cfg.ways), setIndex, req.addr, t);
      FillLeavesOtherSets(aged, FindEmptyWay(aged, setIndex, cfg.ways), setIndex, req.addr, t, other);
      SameSetTwice(other, s, aged, filled);
    }
  }

  lemma FlushLeavesOtherSets(cfg: Config, s: Tlb, ea: bv32, other: nat)
    requires cfg.Valid() && other < MAX_SETS && other != SetOf(cfg, ea)
    ensures SameSet(other, s, FlushedEntry(cfg, s, ea))
  {
    hide FlushedWays, SetOf, SamePage, PageAlign, Invalidated;
    forall way: nat | way < MAX_WAYS
      ensures MatchAt(FlushedEntry(cfg, s, ea), way, other) == MatchAt(s, way, other)
      ensures TransAt(FlushedEntry(cfg, s, ea), way, other) == TransAt(s, way, other)
    {
      FlushedWords(s, ea, SetOf(cfg, ea), cfg.ways, way, other);
    }
  }

  predicate Spares(cfg: Config, op: Operation, setIndex: nat)
    requires cfg.Valid()
  {
    match op
    case Translate(req) => SetOf(cfg, req.addr) != setIndex
    case FlushPage(ea) => SetOf(cfg, ea) != setIndex
    case WriteControl(val) => !Flushes(cfg, val)
    case WriteTables(_) => true
  }

  // A set is changed only by translations and flushes of its own pages and by flushes of all.
  lemma {:induction false} RunsSpareSets(cfg: Config, s: State, ops: seq<Operation>, setIndex: nat)
    requires cfg.Valid() && setIndex < MAX_SETS
    requires forall i | 0 <= i < |ops| :: Spares(cfg, ops[i], setIndex)
    ensures SameSet(setIndex, s.tlb, After(cfg, s, ops).tlb)
    decreases |ops|
  {
    if ops != [] {
      var next := Operated(cfg, s, ops[0]);
      assert SameSet(setIndex, s.tlb, next.tlb) by {
        hide Translated, FlushedEntry, SetOf, Flushes, SameSet;
        assert Spares(cfg, ops[0], setIndex);
        match ops[0]
        case Translate(req) => OtherSetsUntouched(cfg, s.tables, s.ctrl, s.tlb, req, setIndex);
        case FlushPage(ea) => FlushLeavesOtherSets(cfg, s.tlb, ea, setIndex);
        case WriteControl(_) => SetIsItself(setIndex, s.tlb);
        case WriteTables(_) => SetIsItself(setIndex, s.tlb);
      }
      hide Operated, Spares;
      RunsSpareSets(cfg, next, ops[1..], setIndex);
    }
  }

  lemma SetIsItself(setIndex: nat, s: Tlb)
    requires setIndex < MAX_SETS
    ensures SameSet(setIndex, s, s)
  {
  }

  // ---- Replacement

  // No entry of the set is older than the one in this way.
  ghost predicate IsOldest(s: Tlb, way: nat, setIndex: nat, ways: nat)
    requires way < MAX_WAYS && setIndex < MAX_SETS && ways <= MAX_WAYS
  {
    forall w: nat | w < ways :: NoOlder(MatchAt(s, w, setIndex), MatchAt(s, way, setIndex))
  }

  lemma {:induction false} OldestIsOldest(s: Tlb, setIndex: nat, ways: nat)
    requires 1 <= ways <= MAX_WAYS && setIndex < MAX_SETS
    ensures IsOldest(s, Oldest(s, setIndex, ways), setIndex, ways)
  {
    hide NoOlder;
    var last := MatchAt(s, ways - 1, setIndex);
    NoOlderLaws(last, last, last);
    if ways > 1 {
      OldestIsOldest(s, setIndex, ways - 1);
      var eldest := MatchAt(s, Oldest(s, setIndex, ways - 1), setIndex);
      NoOlderLaws(eldest, last, last);
      forall w: nat | w < ways - 1 && NoOlder(eldest, last) ensures NoOlder(MatchAt(s, w, setIndex), last) {
        NoOlderLaws(MatchAt(s, w, setIndex), eldest, last);
      }
    }
  }

  // The chosen way is invalid, or no way is invalid and none is older.
  lemma RefillPrefersInvalid(s: Tlb, setIndex: nat, ways: nat)
    requires 1 <= ways <= MAX_WAYS && setIndex < MAX_SETS
    ensures var way := FindEmptyWay(s, setIndex, ways);
            IsValid(MatchAt(s, way, setIndex)) ==>
              IsOldest(s, way, setIndex, ways) && forall w: nat | w < ways :: IsValid(MatchAt(s, w, setIndex))
  {
    hide IsValid, IsOldest;
    OldestIsOldest(s, setIndex, ways);
    var free := FirstInvalid(s, setIndex, 0, ways);
  }

  // The way no longer holds its page.
  predicate Evicted(m: bv32, n: bv32) {
    IsValid(m) && !(IsValid(n) && SamePage(n, m))
  }

  lemma WeakerNotEvicted(m: bv32, n: bv32)
    requires SamePage(n, m) && IsValid(n) == IsValid(m)
    ensures !Evicted(m, n)
  {
    hide SamePage, IsValid;
  }

  // Ageing and hits evict nothing.
  lemma AccessKeepsEntry(m: bv32)
    ensures !Evicted(m, m) && !Evicted(m, AgedWord(m)) && !Evicted(m, Youngest(m)) && !Evicted(m, Youngest(AgedWord(m)))
    ensures IsValid(AgedWord(m)) == IsValid(m)
  {
    hide *;
    SamePageLaws(m, m, m);
    WeakerNotEvicted(m, m);
    AgeingKeepsTag(m);
    WeakerNotEvicted(m, AgedWord(m));
    YoungestKeepsTag(m);
    WeakerNotEvicted(m, Youngest(m));
    YoungestKeepsTag(AgedWord(m));
    SamePageLaws(Youngest(AgedWord(m)), AgedWord(m), m);
    WeakerNotEvicted(m, Youngest(AgedWord(m)));
  }

  // No entry of the set is invalid, or younger than the one in this way.
  ghost predicate FullAndOldest(s: Tlb, way: nat, setIndex: nat, ways: nat)
    requires way < MAX_WAYS && setIndex < MAX_SETS && ways <= MAX_WAYS
  {
    IsOldest(s, way, setIndex, ways) && forall w: nat | w < ways :: IsValid(MatchAt(s, w, setIndex))
  }

  lemma FillEvicts(s: Tlb, setIndex: nat, ways: nat, addr: bv32, t: bv32, way: nat, other: nat)
    requires 1 <= ways <= MAX_WAYS && way < ways && setIndex < MAX_SETS && other < MAX_SETS
    requires IsValid(MatchAt(s, way, other))
    requires MatchAt(Filled(s, FindEmptyWay(s, setIndex, ways), setIndex, addr, t), way, other) != MatchAt(s, way, other)
    ensures other == setIndex && FullAndOldest(s, way, other, ways)
    ensures MatchAt(Filled(s, FindEmptyWay(s, setIndex, ways), setIndex, addr, t), way, other) == Tag(addr)
  {
    hide IsValid, IsOldest, Tag, Filled, FindEmptyWay;
    FilledWords(s, FindEmptyWay(s, setIndex, ways), setIndex, addr, t, way, other);
    RefillPrefersInvalid(s, setIndex, ways);
  }

  // A translation evicts an entry only for its own page, from a full set, and then one that is,
  // once this access has aged the set, not younger than any other.
  lemma TranslationEvicts(cfg: Config, mem: Memory, ctrl: bv32, s: Tlb, req: Request, way: nat, other: nat)
    requires cfg.Valid() && way < cfg.ways && other < MAX_SETS
    requires Evicted(MatchAt(s, way, other), MatchAt(Translated(cfg, mem, ctrl, s, req).0, way, other))
    ensures other == SetOf(cfg, req.addr) && !req.debug
    ensures MatchAt(Translated(cfg, mem, ctrl, s, req).0, way, other) == Tag(req.addr)
    ensures FullAndOldest(Aged(s, other, cfg.ways), way, other, cfg.ways)
  {
    hide Aged, AgedWord, SetOf, OnHit, OnMiss, Filled, FindEmptyWay, MatchAt, TransAt, Matches, Tag, Evicted, Youngest, Permits,
         FullAndOldest, IsValid;
    var setIndex := SetOf(cfg, req.addr);
    var aged := if req.debug then s else Aged(s, setIndex, cfg.ways);
    var hit := Lookup(aged, setIndex, req.addr, 0, cfg.ways);
    AgedWords(s, setIndex, cfg.ways, way, other);
    AccessKeepsEntry(MatchAt(s, way, other));
    if hit < cfg.ways {
      HitWords(aged, hit, setIndex, req, way, other);
      assert false;
    } else {
      var t := MissFills(cfg, mem, ctrl, aged, setIndex, req);
      EvictedWasValid(MatchAt(s, way, other), MatchAt(Translated(cfg, mem, ctrl, s, req).0, way, other));
      FillEvicts(aged, setIndex, cfg.ways, req.addr, t, way, other);
    }
  }

  lemma EvictedWasValid(m: bv32, n: bv32)
    requires Evicted(m, n)
    ensures IsValid(m)
  {
  }
}
