/** Address translation: a set-associative TLB in front of a two-level page walk.

    The TLB is an array of match and translate words.  The reference, `Pure`, walks the page
    tables on every access and knows no TLB. */
module Translation {
  import opened Words

  const MMUM_V: bv32 := 0x1
  const MMUM_LRU1: bv32 := 0x40
  const MMUM_LRU3: bv32 := 0xc0

  const PTE_CC: bv32 := 0x1
  const PTE_EXEC: bv32 := 0x400

  const URE: bv32 := 0x40
  const UWE: bv32 := 0x80
  const UXE: bv32 := 0x80
  const SRE: bv32 := 0x100
  const SWE: bv32 := 0x200
  const SXE: bv32 := 0x40

  const MAX_WAYS: nat := 4
  const MAX_SETS: nat := 128
  const TLB_REGS: nat := 1024

  // Aligned words of physical memory; None where the bus does not answer.
  type Memory = bv32 -> Option<bv32>

  datatype Request = Request(addr: bv32, imem: bool, write: bool, supervisor: bool, debug: bool,
                             attributes: bv32)

  // A translated request carries its physical address and page attributes.
  datatype Result = Okay(addr: bv32, attributes: bv32) | TlbMiss | PageFault

  // Size of the TLB, and whether the hardware refills it and can flush it.
  datatype Config = Config(ways: nat, setMask: bv32, htr: bool, teiri: bool) {
    ghost predicate Valid() { 1 <= ways <= MAX_WAYS && setMask <= 127 }
  }

  // ---- Words and indices

  // Pages of 8 KB.
  function PageAlign(a: bv32): bv32 { a & 0xffff_e000 }

  // The match word of a page: valid, and of age zero.
  function Tag(a: bv32): bv32 { PageAlign(a) | 0x1 }

  // Caching and ordering attributes of a page.
  function Attributes(trans: bv32): bv32 { trans & 0xf }

  function PageOffset(a: bv32): bv32 { a & 0x1fff }

  predicate SamePage(a: bv32, b: bv32) { PageAlign(a ^ b) == 0 }

  predicate IsValid(matchWord: bv32) { matchWord & MMUM_V != 0 }

  function SetBits(a: bv32, mask: bv32): (bits: bv32)
    ensures bits <= mask
  {
    (a >> 13) & mask
  }

  function SetOf(cfg: Config, a: bv32): (setIndex: nat)
    requires cfg.Valid()
    ensures setIndex < MAX_SETS
  {
    SetBits(a, cfg.setMask) as int
  }

  function MatchReg(way: nat, setIndex: nat): nat { way * MAX_SETS * 2 + setIndex }

  function TransReg(way: nat, setIndex: nat): nat { MatchReg(way, setIndex) + MAX_SETS }

  // ---- The page walk

  function AccessMask(req: Request): bv32 {
    if req.debug then SRE | SWE | URE | UWE
    else if req.imem then (if req.supervisor then SXE else UXE)
    else if req.write then (if req.supervisor then SWE else UWE)
    else if req.supervisor then SRE else URE
  }

  // Bit 0 of a control write asks for a flush, and all other bits are stored.
  predicate FlushBit(val: bv32) { val & 0x1 != 0 }

  function And(a: bv32, b: bv32): bv32 { a & b }

  function ControlWord(val: bv32): bv32 { And(val, 0xffff_fffe) }

  function Directory(ctrl: bv32): bv32 { And(ctrl, 0xffff_fc00) }

  // Byte offsets of the entries for an address in its two tables.
  function Level1Offset(addr: bv32): bv32 { (addr >> 24) << 2 }
  function Level2Offset(addr: bv32): bv32 { ((addr >> 13) & 0x7ff) << 2 }

  // A table entry that is present: the bus answers and the entry is not zero.
  function Entry(mem: Memory, table: bv32, offset: bv32): Option<bv32> {
    match mem(table + offset)
    case None => None
    case Some(pte) => if pte == 0 then None else Some(pte)
  }

  // The second-level entry for an address, if both levels are present.
  function Walk(mem: Memory, ctrl: bv32, addr: bv32): Option<bv32> {
    if Directory(ctrl) == 0 then None
    else
      match Entry(mem, Directory(ctrl), Level1Offset(addr))
      case None => None
      case Some(pte1) => Entry(mem, PageAlign(pte1), Level2Offset(addr))
  }

  // What reading the entries costs, given the cycles of a read of each word.
  function WalkCost(mem: Memory, cost: bv32 -> nat, ctrl: bv32, addr: bv32): nat {
    if Directory(ctrl) == 0 then 0
    else
      cost(Directory(ctrl) + Level1Offset(addr)) +
      match Entry(mem, Directory(ctrl), Level1Offset(addr))
      case None => 0
      case Some(pte1) => cost(PageAlign(pte1) + Level2Offset(addr))
  }

  // The translation word made of a page table entry.
  function Loaded(pte: bv32, imem: bool): bv32 {
    if imem && pte & PTE_EXEC != 0 then pte | PTE_CC | SXE | UXE else pte | PTE_CC
  }

  predicate Permits(trans: bv32, req: Request) {
    trans & AccessMask(req) != 0
  }

  function Physical(trans: bv32, addr: bv32): bv32 {
    PageAlign(trans) | PageOffset(addr)
  }

  // Translation without a TLB.
  function Pure(cfg: Config, mem: Memory, ctrl: bv32, req: Request): Result {
    if !cfg.htr && !req.debug then TlbMiss
    else
      match Walk(mem, ctrl, req.addr)
      case None => TlbMiss
      case Some(pte) =>
        var trans := Loaded(pte, req.imem);
        if !Permits(trans, req) && !req.debug then PageFault
        else Okay(Physical(trans, req.addr), req.attributes)
  }

  // ---- The TLB

  type Tlb = s: seq<bv32> | |s| == 1024 witness seq(1024, _ => 0)

  // Ageing adds one to the two-bit counter of a valid entry; the carry of 3 + 1 goes to bit 8.
  function AgedWord(w: bv32): bv32 {
    if IsValid(w) then (w & !MMUM_LRU3) | ((w & MMUM_LRU3) + MMUM_LRU1) else w
  }

  function Aged(s: Tlb, setIndex: nat, ways: nat): Tlb
    requires ways <= MAX_WAYS && setIndex < MAX_SETS
  {
    if ways == 0 then s
    else
      var r := Aged(s, setIndex, ways - 1);
      var i := MatchReg(ways - 1, setIndex);
      r[i := AgedWord(r[i])]
  }

  predicate Matches(s: Tlb, way: nat, setIndex: nat, addr: bv32)
    requires way < MAX_WAYS && setIndex < MAX_SETS
  {
    IsValid(s[MatchReg(way, setIndex)]) && SamePage(PageAlign(addr), s[MatchReg(way, setIndex)])
  }

  // The first matching way from `way` on, or `ways` if there is none.
  function Lookup(s: Tlb, setIndex: nat, addr: bv32, way: nat, ways: nat): (hit: nat)
    requires way <= ways <= MAX_WAYS && setIndex < MAX_SETS
    ensures way <= hit <= ways
    ensures hit < ways ==> Matches(s, hit, setIndex, addr)
    ensures forall w | way <= w < hit :: !Matches(s, w, setIndex, addr)
    decreases ways - way
  {
    if way == ways || Matches(s, way, setIndex, addr) then way else Lookup(s, setIndex, addr, way + 1, ways)
  }

  function Age(matchWord: bv32): bv32 { matchWord & MMUM_LRU3 }

  predicate NoOlder(m: bv32, n: bv32) { Age(m) <= Age(n) }

  lemma NoOlderLaws(a: bv32, b: bv32, c: bv32)
    ensures NoOlder(a, a) && (NoOlder(a, b) || NoOlder(b, a))
    ensures NoOlder(a, b) && NoOlder(b, c) ==> NoOlder(a, c)
  {
  }

  // The last of the oldest among the first `ways` ways.
  function Oldest(s: Tlb, setIndex: nat, ways: nat): (way: nat)
    requires 1 <= ways <= MAX_WAYS && setIndex < MAX_SETS
    ensures way < ways
  {
    if ways == 1 then 0
    else
      var way := Oldest(s, setIndex, ways - 1);
      if NoOlder(s[MatchReg(way, setIndex)], s[MatchReg(ways - 1, setIndex)]) then ways - 1 else way
  }

  function FirstInvalid(s: Tlb, setIndex: nat, way: nat, ways: nat): (found: nat)
    requires way <= ways <= MAX_WAYS && setIndex < MAX_SETS
    ensures way <= found <= ways
    ensures found < ways ==> !IsValid(s[MatchReg(found, setIndex)])
    ensures forall w | way <= w < found :: IsValid(s[MatchReg(w, setIndex)])
    decreases ways - way
  {
    if way == ways || !IsValid(s[MatchReg(way, setIndex)]) then way else FirstInvalid(s, setIndex, way + 1, ways)
  }

  function FindEmptyWay(s: Tlb, setIndex: nat, ways: nat): (way: nat)
    requires 1 <= ways <= MAX_WAYS && setIndex < MAX_SETS
    ensures way < ways
  {
    var free := FirstInvalid(s, setIndex, 0, ways);
    if free < ways then free else Oldest(s, setIndex, ways)
  }

  function Invalidated(matchWord: bv32): bv32 { matchWord & !MMUM_V }

  function Youngest(matchWord: bv32): bv32 { matchWord & !MMUM_LRU3 }

  // Bit 4 marks a page as accessed, bit 5 as dirty.
  function Accessed(trans: bv32): bv32 { trans | 0x10 }
  function Dirtied(trans: bv32): bv32 { trans | 0x20 }

  function Touched(trans: bv32, write: bool): bv32 {
    if write then Dirtied(Accessed(trans)) else Accessed(trans)
  }

  // A hit checks the access rights, marks the page and makes the entry the youngest.
  function OnHit(s: Tlb, way: nat, setIndex: nat, req: Request): (Tlb, Result)
    requires way < MAX_WAYS && setIndex < MAX_SETS
  {
    var m, t := MatchReg(way, setIndex), TransReg(way, setIndex);
    if req.debug then (s, Okay(Physical(s[t], req.addr), Attributes(s[t])))
    else if !Permits(s[t], req) then (s, PageFault)
    else
      var trans := Touched(s[t], req.write);
      (s[t := trans][m := Youngest(s[m])], Okay(Physical(trans, req.addr), Attributes(trans)))
  }

  function Filled(s: Tlb, way: nat, setIndex: nat, addr: bv32, trans: bv32): Tlb
    requires way < MAX_WAYS && setIndex < MAX_SETS
  {
    s[MatchReg(way, setIndex) := Tag(addr)][TransReg(way, setIndex) := trans]
  }

  // A miss walks the page tables and, unless debugging, fills a way.
  function OnMiss(cfg: Config, mem: Memory, ctrl: bv32, s: Tlb, setIndex: nat, req: Request): (Tlb, Result)
    requires cfg.Valid() && setIndex < MAX_SETS
  {
    if !cfg.htr && !req.debug then (s, TlbMiss)
    else
      match Walk(mem, ctrl, req.addr)
      case None => (s, TlbMiss)
      case Some(pte) =>
        var loaded := Loaded(pte, req.imem);
        if !Permits(loaded, req) && !req.debug then (s, PageFault)
        else
          var trans := Touched(loaded, req.write);
          var way := FindEmptyWay(s, setIndex, cfg.ways);
          (if req.debug then s else Filled(s, way, setIndex, req.addr, trans), Okay(Physical(trans, req.addr), req.attributes))
  }

  function Translated(cfg: Config, mem: Memory, ctrl: bv32, s: Tlb, req: Request): (Tlb, Result)
    requires cfg.Valid()
  {
    var setIndex := SetOf(cfg, req.addr);
    var aged := if req.debug then s else Aged(s, setIndex, cfg.ways);
    var way := Lookup(aged, setIndex, req.addr, 0, cfg.ways);
    if way < cfg.ways then OnHit(aged, way, setIndex, req) else OnMiss(cfg, mem, ctrl, aged, setIndex, req)
  }

  // The translation misses, and fills a way.
  predicate Refills(cfg: Config, mem: Memory, ctrl: bv32, s: Tlb, req: Request)
    requires cfg.Valid()
  {
    var setIndex := SetOf(cfg, req.addr);
    var aged := Aged(s, setIndex, cfg.ways);
    && !req.debug && Lookup(aged, setIndex, req.addr, 0, cfg.ways) == cfg.ways
    && OnMiss(cfg, mem, ctrl, aged, setIndex, req).1.Okay?
  }

  function EmptyTlb(): Tlb {
    seq(1024, _ => 0)
  }

  // Clear the valid bits of all entries for a page in a set.
  function FlushedWays(s: Tlb, ea: bv32, setIndex: nat, ways: nat): Tlb
    requires ways <= MAX_WAYS && setIndex < MAX_SETS
  {
    if ways == 0 then s
    else
      var r := FlushedWays(s, ea, setIndex, ways - 1);
      var i := MatchReg(ways - 1, setIndex);
      if SamePage(PageAlign(ea), r[i]) then r[i := Invalidated(r[i])] else r
  }

  function FlushedEntry(cfg: Config, s: Tlb, ea: bv32): Tlb
    requires cfg.Valid()
  {
    FlushedWays(s, ea, SetOf(cfg, ea), cfg.ways)
  }

  predicate Flushes(cfg: Config, val: bv32) {
    cfg.teiri && FlushBit(val)
  }

  // ---- The object

  class Mmu {
    const cfg: Config
    const tlb: array<bv32>
    var ctrl: bv32

    ghost predicate Valid()
      reads this, tlb
    {
      cfg.Valid() && tlb.Length == TLB_REGS
    }

    // numSets is a power of two up to 128, given by its mask.
    constructor (cfg: Config)
      requires cfg.Valid()
      ensures Valid() && fresh(tlb) && this.cfg == cfg && ctrl == 0 && tlb[..] == EmptyTlb()
    {
      this.cfg, ctrl := cfg, 0;
      tlb := new bv32[TLB_REGS](_ => 0);
    }

    method SetCr(val: bv32)
      requires Valid()
      modifies this, tlb
      ensures Valid() && ctrl == ControlWord(val)
      ensures tlb[..] == if Flushes(cfg, val) then EmptyTlb() else old(tlb[..])
    {
      if cfg.teiri && FlushBit(val) {
        FlushTlb();
      }
      ctrl := ControlWord(val);
    }

    method FlushTlb()
      requires Valid()
      modifies tlb
      ensures Valid() && tlb[..] == EmptyTlb()
    {
      forall i | 0 <= i < tlb.Length {
        tlb[i] := 0;
      }
    }

    method FlushTlbEntry(ea: bv32)
      requires Valid()
      modifies tlb
      ensures Valid() && tlb[..] == FlushedEntry(cfg, old(tlb[..]), ea)
    {
      hide SamePage, SetOf, Invalidated, PageAlign;
      var vpg := PageAlign(ea);
      var setIndex := SetOf(cfg, ea);
      for way := 0 to cfg.ways
        invariant tlb[..] == FlushedWays(old(tlb[..]), ea, setIndex, way)
      {
        var i := MatchReg(way, setIndex);
        if SamePage(vpg, tlb[i]) {
          tlb[i] := Invalidated(tlb[i]);
        }
      }
    }

    method AgeSet(setIndex: nat)
      requires Valid() && setIndex < MAX_SETS
      modifies tlb
      ensures Valid() && tlb[..] == Aged(old(tlb[..]), setIndex, cfg.ways)
    {
      for way := 0 to cfg.ways
        invariant tlb[..] == Aged(old(tlb[..]), setIndex, way)
      {
        var i := MatchReg(way, setIndex);
        if IsValid(tlb[i]) {
          tlb[i] := (tlb[i] & !MMUM_LRU3) | ((tlb[i] & MMUM_LRU3) + MMUM_LRU1);
        }
      }
    }

    method SelectWay(setIndex: nat) returns (select: nat)
      requires Valid() && setIndex < MAX_SETS
      ensures select == FindEmptyWay(tlb[..], setIndex, cfg.ways) < cfg.ways
    {
      for way := 0 to cfg.ways
        invariant FirstInvalid(tlb[..], setIndex, 0, cfg.ways) == FirstInvalid(tlb[..], setIndex, way, cfg.ways)
      {
        if !IsValid(tlb[MatchReg(way, setIndex)]) {
          return way;
        }
      }
      select := 0;
      var oldest: bv32 := 0;
      for way := 0 to cfg.ways
        invariant way == 0 ==> select == 0 && oldest == 0
        invariant way > 0 ==> select == Oldest(tlb[..], setIndex, way) && oldest == Age(tlb[MatchReg(select, setIndex)])
      {
        var age := Age(tlb[MatchReg(way, setIndex)]);
        if age >= oldest {
          oldest := age;
          select := way;
        }
      }
    }

    // The walk is charged exactly if it refills the TLB.
    method Translate(mem: Memory, cost: bv32 -> nat, req: Request) returns (r: Result, cycles: nat)
      requires Valid()
      modifies tlb
      ensures Valid() && (tlb[..], r) == Translated(cfg, mem, ctrl, old(tlb[..]), req)
      ensures cycles == if Refills(cfg, mem, ctrl, old(tlb[..]), req) then WalkCost(mem, cost, ctrl, req.addr) else 0
    {
      hide SetOf, OnHit, OnMiss, Aged, SamePage, IsValid, PageAlign, WalkCost;
      cycles := 0;
      var setIndex := SetOf(cfg, req.addr);
      if !req.debug {
        AgeSet(setIndex);
      }
      ghost var aged := tlb[..];
      for way := 0 to cfg.ways
        invariant tlb[..] == aged
        invariant Lookup(aged, setIndex, req.addr, 0, cfg.ways) == Lookup(aged, setIndex, req.addr, way, cfg.ways)
      {
        if IsValid(tlb[MatchReg(way, setIndex)]) && SamePage(PageAlign(req.addr), tlb[MatchReg(way, setIndex)]) {
          r := Hit(way, setIndex, req);
          return;
        }
      }
      r, cycles := Refill(mem, cost, setIndex, req);
    }

    method Hit(way: nat, setIndex: nat, req: Request) returns (r: Result)
      requires Valid() && way < cfg.ways && setIndex < MAX_SETS
      modifies tlb
      ensures Valid() && (tlb[..], r) == OnHit(old(tlb[..]), way, setIndex, req)
    {
      hide Permits, Physical, Youngest, Touched;
      var m, t := MatchReg(way, setIndex), TransReg(way, setIndex);
      if !req.debug {
        if !Permits(tlb[t], req) {
          return PageFault;
        }
        tlb[t] := Touched(tlb[t], req.write);
        tlb[m] := Youngest(tlb[m]);
        ghost var s := old(tlb[..]);
        assert tlb[..] == s[t := Touched(s[t], req.write)][m := Youngest(s[m])];
      }
      r := Okay(Physical(tlb[t], req.addr), Attributes(tlb[t]));
    }

    method Refill(mem: Memory, cost: bv32 -> nat, setIndex: nat, req: Request) returns (r: Result, cycles: nat)
      requires Valid() && setIndex < MAX_SETS
      modifies tlb
      ensures Valid() && (tlb[..], r) == OnMiss(cfg, mem, ctrl, old(tlb[..]), setIndex, req)
      ensures cycles == if !req.debug && r.Okay? then WalkCost(mem, cost, ctrl, req.addr) else 0
    {
      hide Walk, WalkCost, Loaded, Permits, Physical, Touched, Tag, FindEmptyWay;
      cycles := 0;
      if !cfg.htr && !req.debug {
        return TlbMiss, 0;
      }
      var pte := Walk(mem, ctrl, req.addr);
      if pte.None? {
        return TlbMiss, 0;
      }
      var trans := Loaded(pte.value, req.imem);
      if !Permits(trans, req) && !req.debug {
        return PageFault, 0;
      }
      trans := Touched(trans, req.write);
      r := Okay(Physical(trans, req.addr), req.attributes);
      if !req.debug {
        cycles := WalkCost(mem, cost, ctrl, req.addr);
        var way := SelectWay(setIndex);
        tlb[MatchReg(way, setIndex)] := Tag(req.addr);
        tlb[TransReg(way, setIndex)] := trans;
      }
    }
  }
}
