/** The ages of TLB entries.  A two-bit counter tells for how many accesses to its set an entry was
    not used, modulo four; so the entry that a refill replaces need not be the one least recently
    used.  When it is, is told exactly, for every run. */
module TlbAges {
  import opened Words
  import opened Translation
  import opened TlbStructure

  function AgeBits(m: bv32): (a: bv32)
    ensures a <= 3
  {
    (m >> 6) & 3
  }

  function AgeOf(m: bv32): nat { AgeBits(m) as nat }

  lemma AgeBitsLaws(m: bv32, n: bv32)
    ensures IsValid(m) ==> AgeBits(AgedWord(m)) == (AgeBits(m) + 1) & 3
    ensures AgeBits(Youngest(m)) == 0 && AgeBits(Tag(m)) == 0
    ensures NoOlder(m, n) ==> AgeBits(m) <= AgeBits(n)
  {
  }

  lemma Successor4(a: bv32)
    requires a <= 3
    ensures ((a + 1) & 3) as nat == (a as nat + 1) % 4
  {
  }

  lemma Order4(a: bv32, b: bv32)
    ensures a <= b <= 3 ==> a as nat <= b as nat
  {
    assert b <= 3 ==> b == 0 || b == 1 || b == 2 || b == 3;
    assert a <= 3 ==> a == 0 || a == 1 || a == 2 || a == 3;
  }

  lemma AgedAge(m: bv32)
    ensures IsValid(m) ==> AgeOf(AgedWord(m)) == (AgeOf(m) + 1) % 4
  {
    AgeBitsLaws(m, m);
    Successor4(AgeBits(m));
    hide AgeBits, AgedWord, IsValid;
  }

  lemma UsedAge(m: bv32)
    ensures AgeOf(Youngest(m)) == 0 && AgeOf(Tag(m)) == 0
  {
    AgeBitsLaws(m, m);
    hide AgeBits, Youngest, Tag;
  }

  lemma OlderAge(m: bv32, n: bv32)
    ensures NoOlder(m, n) ==> AgeOf(m) <= AgeOf(n)
  {
    AgeBitsLaws(m, n);
    hide AgeBits, NoOlder;
    Order4(AgeBits(m), AgeBits(n));
  }

  // ---- How long an entry was not used

  // A translation uses the way it hits with permission, or the way it refills.
  predicate Uses(cfg: Config, s: State, req: Request, way: nat)
    requires cfg.Valid()
  {
    var setIndex := SetOf(cfg, req.addr);
    var aged := Aged(s.tlb, setIndex, cfg.ways);
    var hit := Lookup(aged, setIndex, req.addr, 0, cfg.ways);
    if hit < cfg.ways then way == hit && Permits(TransAt(aged, hit, setIndex), req)
    else way == FindEmptyWay(aged, setIndex, cfg.ways) && OnMiss(cfg, s.tables, s.ctrl, aged, setIndex, req).1.Okay?
  }

  // The accesses to the set since the last use of the way.
  function IdleAfter(cfg: Config, s: State, op: Operation, way: nat, setIndex: nat, idle: nat): nat
    requires cfg.Valid()
  {
    if op.Translate? && !op.req.debug && SetOf(cfg, op.req.addr) == setIndex then
      if Uses(cfg, s, op.req, way) then 0 else idle + 1
    else idle
  }

  function Idle(cfg: Config, s: State, ops: seq<Operation>, way: nat, setIndex: nat, idle: nat): nat
    requires cfg.Valid()
    decreases |ops|
  {
    if ops == [] then idle
    else Idle(cfg, Operated(cfg, s, ops[0]), ops[1..], way, setIndex, IdleAfter(cfg, s, ops[0], way, setIndex, idle))
  }

  // A valid entry has the age of the accesses since its use, modulo four.
  predicate Counts(s: Tlb, way: nat, setIndex: nat, idle: nat)
    requires way < MAX_WAYS && setIndex < MAX_SETS
  {
    IsValid(MatchAt(s, way, setIndex)) ==> AgeOf(MatchAt(s, way, setIndex)) == idle % 4
  }

  // The match word of a way after a translation of its set.
  lemma TranslatedWord(cfg: Config, s: State, req: Request, way: nat)
    requires cfg.Valid() && way < cfg.ways && !req.debug
    ensures var setIndex := SetOf(cfg, req.addr);
            var m, n := MatchAt(s.tlb, way, setIndex), MatchAt(Translated(cfg, s.tables, s.ctrl, s.tlb, req).0, way, setIndex);
            if Uses(cfg, s, req, way) then n == Youngest(AgedWord(m)) || n == Tag(req.addr) else n == AgedWord(m)
  {
    hide Aged, AgedWord, SetOf, OnHit, OnMiss, Filled, FindEmptyWay, MatchAt, TransAt, Matches, Tag, Youngest, Permits;
    var setIndex := SetOf(cfg, req.addr);
    var aged := Aged(s.tlb, setIndex, cfg.ways);
    var hit := Lookup(aged, setIndex, req.addr, 0, cfg.ways);
    AgedWords(s.tlb, setIndex, cfg.ways, way, setIndex);
    if hit < cfg.ways {
      HitWords(aged, hit, setIndex, req, way, setIndex);
    } else {
      var t := FillsExactly(cfg, s, aged, setIndex, req);
      FilledWords(aged, FindEmptyWay(aged, setIndex, cfg.ways), setIndex, req.addr, t, way, setIndex);
    }
  }

  lemma FillsExactly(cfg: Config, s: State, tlb: Tlb, setIndex: nat, req: Request) returns (t: bv32)
    requires cfg.Valid() && setIndex < MAX_SETS && !req.debug
    ensures var (r, result) := OnMiss(cfg, s.tables, s.ctrl, tlb, setIndex, req);
            r == if result.Okay? then Filled(tlb, FindEmptyWay(tlb, setIndex, cfg.ways), setIndex, req.addr, t) else tlb
  {
    hide Walk, Loaded, Permits, Physical, Touched, FindEmptyWay, Filled;
    var walk := Walk(s.tables, s.ctrl, req.addr);
    t := if walk.Some? then Touched(Loaded(walk.value, req.imem), req.write) else 0;
  }

  lemma TranslationCounts(cfg: Config, s: State, req: Request, way: nat, setIndex: nat, idle: nat)
    requires cfg.Valid() && way < cfg.ways && setIndex < MAX_SETS && Counts(s.tlb, way, setIndex, idle)
    ensures Counts(Operated(cfg, s, Translate(req)).tlb, way, setIndex, IdleAfter(cfg, s, Translate(req), way, setIndex, idle))
  {
    hide Translated, SetOf, Uses, MatchAt, AgedWord, Youngest, Tag, IsValid, AgeOf;
    var m := MatchAt(s.tlb, way, setIndex);
    if req.debug {
      DebugLeaves(cfg, s, req);
    } else if SetOf(cfg, req.addr) != setIndex {
      OtherSetsUntouched(cfg, s.tables, s.ctrl, s.tlb, req, setIndex);
    } else {
      TranslatedWord(cfg, s, req, way);
      WordCounts(m, req.addr);
    }
  }

  // Ageing counts on, and use starts over.
  lemma WordCounts(m: bv32, addr: bv32)
    ensures IsValid(AgedWord(m)) ==> IsValid(m) && AgeOf(AgedWord(m)) == (AgeOf(m) + 1) % 4
    ensures AgeOf(Youngest(AgedWord(m))) == 0 && AgeOf(Tag(addr)) == 0
  {
    AgedAge(m);
    AgeingKeepsTag(m);
    UsedAge(AgedWord(m));
    UsedAge(addr);
    hide *;
  }

  lemma DebugLeaves(cfg: Config, s: State, req: Request)
    requires cfg.Valid() && req.debug
    ensures Translated(cfg, s.tables, s.ctrl, s.tlb, req).0 == s.tlb
  {
    hide Walk, Loaded, Permits, Physical, SetOf, FindEmptyWay, Filled, Matches;
  }

  lemma OperationCounts(cfg: Config, s: State, op: Operation, way: nat, setIndex: nat, idle: nat)
    requires cfg.Valid() && way < cfg.ways && setIndex < MAX_SETS && Counts(s.tlb, way, setIndex, idle)
    ensures Counts(Operated(cfg, s, op).tlb, way, setIndex, IdleAfter(cfg, s, op, way, setIndex, idle))
  {
    hide Translated, SetOf, Uses, AgeOf, FlushedWays, Flushes, ControlWord, Invalidated;
    match op
    case Translate(req) => TranslationCounts(cfg, s, req, way, setIndex, idle);
    case FlushPage(ea) =>
      FlushedWords(s.tlb, ea, SetOf(cfg, ea), cfg.ways, way, setIndex);
      InvalidatedTag(MatchAt(s.tlb, way, setIndex));
    case WriteControl(_) => EmptyCounts(way, setIndex, idle);
    case WriteTables(_) =>
  }

  lemma EmptyCounts(way: nat, setIndex: nat, idle: nat)
    requires way < MAX_WAYS && setIndex < MAX_SETS
    ensures Counts(EmptyTlb(), way, setIndex, idle)
  {
    assert !IsValid(0);
  }

  lemma {:induction false} RunCounts(cfg: Config, s: State, ops: seq<Operation>, way: nat, setIndex: nat, idle: nat)
    requires cfg.Valid() && way < cfg.ways && setIndex < MAX_SETS && Counts(s.tlb, way, setIndex, idle)
    ensures Counts(After(cfg, s, ops).tlb, way, setIndex, Idle(cfg, s, ops, way, setIndex, idle))
    decreases |ops|
  {
    hide Counts, Operated, IdleAfter;
    if ops != [] {
      OperationCounts(cfg, s, ops[0], way, setIndex, idle);
      RunCounts(cfg, Operated(cfg, s, ops[0]), ops[1..], way, setIndex, IdleAfter(cfg, s, ops[0], way, setIndex, idle));
    }
  }

  // ---- The entry that is replaced

  // Accesses to the set since the last use of the way, counting the one that now ages the set.
  function Unused(cfg: Config, tables: Memory, ops: seq<Operation>, way: nat, setIndex: nat): nat
    requires cfg.Valid()
  {
    Idle(cfg, PowerUp(tables), ops, way, setIndex, 0) + 1
  }

  // After every run from power-up, an entry that a translation evicts was the least recently used if
  // and only if no other entry of its set has gone through more rounds of four accesses unused.
  lemma VictimExact(cfg: Config, tables: Memory, ops: seq<Operation>, req: Request, victim: nat)
    requires cfg.Valid() && victim < cfg.ways
    requires var s := After(cfg, PowerUp(tables), ops);
             Evicted(MatchAt(s.tlb, victim, SetOf(cfg, req.addr)),
                     MatchAt(Translated(cfg, s.tables, s.ctrl, s.tlb, req).0, victim, SetOf(cfg, req.addr)))
    ensures var k := way => Unused(cfg, tables, ops, way, SetOf(cfg, req.addr));
            && (forall w: nat | w < cfg.ways :: k(w) % 4 <= k(victim) % 4)
            && ((forall w: nat | w < cfg.ways :: k(w) <= k(victim)) <==>
                (forall w: nat | w < cfg.ways :: k(w) / 4 <= k(victim) / 4))
  {
    var s, setIndex := After(cfg, PowerUp(tables), ops), SetOf(cfg, req.addr);
    hide After, SetOf, Translated, MatchAt, Evicted, Idle, Aged, IsValid, NoOlder, AgedWord;
    TranslationEvicts(cfg, s.tables, s.ctrl, s.tlb, req, victim, setIndex);
    forall w: nat | w < cfg.ways
      ensures Unused(cfg, tables, ops, w, setIndex) % 4 <= Unused(cfg, tables, ops, victim, setIndex) % 4
    {
      AgedCount(cfg, tables, ops, w, setIndex);
      AgedCount(cfg, tables, ops, victim, setIndex);
      OlderAge(MatchAt(Aged(s.tlb, setIndex, cfg.ways), w, setIndex), MatchAt(Aged(s.tlb, setIndex, cfg.ways), victim, setIndex));
    }
    hide Unused;
  }

  lemma AgedCount(cfg: Config, tables: Memory, ops: seq<Operation>, way: nat, setIndex: nat)
    requires cfg.Valid() && way < cfg.ways && setIndex < MAX_SETS
    ensures var aged := Aged(After(cfg, PowerUp(tables), ops).tlb, setIndex, cfg.ways);
            IsValid(MatchAt(aged, way, setIndex)) ==>
              AgeOf(MatchAt(aged, way, setIndex)) == Unused(cfg, tables, ops, way, setIndex) % 4
  {
    hide After, Idle, MatchAt, Aged, IsValid, AgedWord, AgeOf;
    var s := After(cfg, PowerUp(tables), ops).tlb;
    EmptyCounts(way, setIndex, 0);
    RunCounts(cfg, PowerUp(tables), ops, way, setIndex, 0);
    AgedWords(s, setIndex, cfg.ways, way, setIndex);
    AgedAge(MatchAt(s, way, setIndex));
    AgeingKeepsTag(MatchAt(s, way, setIndex));
  }

  // Of two ways, the first unused for three accesses and the second just used, the next access to
  // another page replaces the second.
  lemma RecentReplaced(s: Tlb, setIndex: nat)
    requires setIndex < MAX_SETS && IsValid(MatchAt(s, 0, setIndex)) && IsValid(MatchAt(s, 1, setIndex))
    requires AgeOf(MatchAt(s, 0, setIndex)) == 3 && AgeOf(MatchAt(s, 1, setIndex)) == 0
    ensures FindEmptyWay(Aged(s, setIndex, 2), setIndex, 2) == 1
  {
    var r := Aged(s, setIndex, 2);
    AgedWords(s, setIndex, 2, 0, setIndex);
    AgedWords(s, setIndex, 2, 1, setIndex);
    AgedAge(MatchAt(s, 0, setIndex));
    AgedAge(MatchAt(s, 1, setIndex));
    AgeingKeepsTag(MatchAt(s, 0, setIndex));
    AgeingKeepsTag(MatchAt(s, 1, setIndex));
    hide Aged, AgedWord, IsValid, AgeOf, NoOlder;
    OldestIsOldest(r, setIndex, 2);
    RefillPrefersInvalid(r, setIndex, 2);
    assert FirstInvalid(r, setIndex, 0, 2) == 2;
    OlderAge(MatchAt(r, 1, setIndex), MatchAt(r, 0, setIndex));
  }
}
