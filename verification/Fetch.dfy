/** Instruction fetch through three caches: a latch for the page last executed from, the TLB, and
    a direct-mapped cache of decoded instructions.

    The reference, `PureFetch`, walks the page tables, reads memory and decodes every time. */
module Fetching {
  import opened Words
  import opened Core
  import opened Translation

  // A decoded instruction; the handler is a function of the instruction word.
  datatype Decoded = Decoded(addr: bv32, insn: bv32)

  // The address of an entry that holds no instruction.
  const INVALID_ADDR: bv32 := 0xffff_ffff

  datatype Fetched = Insn(addr: bv32, word: bv32) | Fault(cause: Exception, addr: bv32)

  // What stays fixed while instructions are fetched: the MMU and its tables, the privilege, the
  // size of the decode cache, and which words decode to an instruction.
  datatype Setting = Setting(cfg: Config, tables: Memory, ctrl: bv32, supervisor: bool,
                             count: nat, off: bool, legal: bv32 -> bool)
  {
    ghost predicate Valid() { cfg.Valid() && count > 0 }
  }

  // The page latch holds a virtual page and the physical page it was translated to.
  datatype Caches = Caches(tlb: Tlb, virt: bv32, phys: bv32, decoded: seq<Decoded>)

  predicate Aligned(a: bv32) { a & 3 == 0 }

  // The number of slots is a power of two, so masking the word address is taking a remainder.
  function Slot(count: nat, addr: bv32): (slot: nat)
    requires count > 0
    ensures slot < count
  {
    addr as int / 4 % count
  }

  // Words closer together than the size of the cache do not share a slot.
  lemma SlotsExact(count: nat, a: bv32, b: bv32)
    requires count > 0
    ensures Slot(count, a) == Slot(count, b) <==> (a as int / 4 - b as int / 4) % count == 0
  {
    SameRemainder(a as int / 4, b as int / 4, count);
  }

  lemma SameRemainder(x: int, y: int, n: nat)
    requires n > 0
    ensures x % n == y % n <==> (x - y) % n == 0
  {
    var p, q, r, s := x / n, y / n, x % n, y % n;
    assert x == p * n + r && y == q * n + s;
    assert p * n - q * n == (p - q) * n && (p - q) * n - n == (p - q - 1) * n;
    hide *;
    if r >= s {
      RemainderUnique(p - q, n, r - s);
    } else {
      RemainderUnique(p - q - 1, n, r - s + n);
    }
  }

  function FetchRequest(g: Setting, pc: bv32): Request {
    Request(pc, true, false, g.supervisor, false, 0)
  }

  // ---- The reference

  function PureFetch(g: Setting, code: Memory, pc: bv32, active: bool): Fetched {
    if active then
      match Pure(g.cfg, g.tables, g.ctrl, FetchRequest(g, pc))
      case TlbMiss => Fault(InsnTlbMiss, pc)
      case PageFault => Fault(InsnPageFault, pc)
      case Okay(addr, _) => PureRead(g, code, addr)
    else PureRead(g, code, pc)
  }

  function PureRead(g: Setting, code: Memory, addr: bv32): Fetched {
    match code(addr)
    case None => Fault(InsnBusError, addr)
    case Some(word) => if g.legal(word) then Insn(addr, word) else Fault(IllegalInsn, addr)
  }

  // Which exception tells of which failure.
  lemma FaultsExact(g: Setting, code: Memory, pc: bv32, active: bool, cause: Exception, addr: bv32)
    requires PureFetch(g, code, pc, active) == Fault(cause, addr)
    ensures var p := Pure(g.cfg, g.tables, g.ctrl, FetchRequest(g, pc));
            || (cause == InsnTlbMiss && active && p.TlbMiss? && addr == pc)
            || (cause == InsnPageFault && active && p.PageFault? && addr == pc)
            || ((if active then p.Okay? && p.addr == addr else addr == pc)
                && ((cause == InsnBusError && code(addr) == None)
                    || (cause == IllegalInsn && code(addr).Some? && !g.legal(code(addr).value))))
  {
    hide Pure;
  }

  // ---- The fetch

  datatype Located = At(addr: bv32) | Blocked(cause: Exception)

  function OnPage(frame: bv32, addr: bv32): bv32 {
    frame | PageOffset(addr)
  }

  // The physical address of an instruction: from the latch if it lies on the latched page.
  function Locate(g: Setting, c: Caches, pc: bv32, active: bool): (Caches, Located)
    requires g.Valid()
  {
    if !active then (c, At(pc))
    else if SamePage(c.virt, pc) then (c, At(OnPage(c.phys, pc)))
    else
      var (tlb, r) := Translated(g.cfg, g.tables, g.ctrl, c.tlb, FetchRequest(g, pc));
      match r
      case TlbMiss => (c.(tlb := tlb), Blocked(InsnTlbMiss))
      case PageFault => (c.(tlb := tlb), Blocked(InsnPageFault))
      case Okay(addr, _) => (Caches(tlb, PageAlign(pc), PageAlign(addr), c.decoded), At(addr))
  }

  // The instruction at a physical address: from the decode cache, or from memory into it.
  function Load(g: Setting, code: Memory, decoded: seq<Decoded>, addr: bv32): (seq<Decoded>, Fetched)
    requires g.Valid() && |decoded| == g.count
  {
    var slot := Slot(g.count, addr);
    if decoded[slot].addr == addr && !g.off then (decoded, Insn(addr, decoded[slot].insn))
    else
      match code(addr)
      case None => (decoded, Fault(InsnBusError, addr))
      case Some(word) =>
        if g.legal(word) then (decoded[slot := Decoded(addr, word)], Insn(addr, word))
        else (decoded, Fault(IllegalInsn, addr))
  }

  function Fetch(g: Setting, code: Memory, c: Caches, pc: bv32, active: bool): (Caches, Fetched)
    requires g.Valid() && |c.decoded| == g.count
  {
    match Locate(g, c, pc, active)
    case (d, Blocked(cause)) => (d, Fault(cause, pc))
    case (d, At(addr)) =>
      var (decoded, r) := Load(g, code, d.decoded, addr);
      (d.(decoded := decoded), r)
  }

  function Invalidated1(count: nat, decoded: seq<Decoded>, addr: bv32): (r: seq<Decoded>)
    requires count > 0 && |decoded| == count
    ensures |r| == count
  {
    var slot := Slot(count, addr);
    if decoded[slot].addr == addr then decoded[slot := decoded[slot].(addr := INVALID_ADDR)] else decoded
  }

  // The words addr, addr + 4, ... of a block.
  function InvalidatedBlock(count: nat, decoded: seq<Decoded>, addr: bv32, words: nat): (r: seq<Decoded>)
    requires count > 0 && |decoded| == count
    ensures |r| == count
    decreases words
  {
    if words == 0 then decoded
    else InvalidatedBlock(count, Invalidated1(count, decoded, addr), addr + 4, words - 1)
  }

  // ---- The object

  class Fetcher {
    const mmu: Mmu
    const cache: array<Decoded>
    const off: bool
    var virtPage: bv32
    var physPage: bv32

    ghost predicate Valid()
      reads this, mmu, mmu.tlb, cache
    {
      mmu.Valid() && cache.Length > 0 && (cache as object) != mmu.tlb
    }

    ghost function Snap(): Caches
      reads this, mmu, mmu.tlb, cache
      requires Valid()
    {
      Caches(mmu.tlb[..], virtPage, physPage, cache[..])
    }

    ghost predicate Runs(g: Setting)
      reads this, mmu, mmu.tlb, cache
    {
      Valid() && g.Valid() && g.cfg == mmu.cfg && g.ctrl == mmu.ctrl && g.count == cache.Length && g.off == off
    }

    // A cache of size zero keeps one slot that is never consulted.
    constructor (mmu: Mmu, size: nat)
      requires mmu.Valid()
      ensures Valid() && this.mmu == mmu && fresh(cache) && off == (size == 0)
      ensures virtPage == physPage == INVALID_ADDR
      ensures forall i | 0 <= i < cache.Length :: cache[i].addr == INVALID_ADDR
    {
      this.mmu := mmu;
      off := size == 0;
      virtPage, physPage := INVALID_ADDR, INVALID_ADDR;
      cache := new Decoded[Power2(size)](_ => Decoded(INVALID_ADDR, INVALID_ADDR));
    }

    method LocateInsn(g: Setting, pc: bv32, active: bool) returns (r: Located)
      requires Runs(g)
      modifies this, mmu.tlb
      ensures Runs(g) && (Snap(), r) == Locate(g, old(Snap()), pc, active)
    {
      hide Slot, SamePage, PageAlign, OnPage, Translated, FetchRequest;
      if !active {
        return At(pc);
      }
      if SamePage(virtPage, pc) {
        return At(OnPage(physPage, pc));
      }
      // A fetch does not use the cycles of its walk.
      var result, _ := mmu.Translate(g.tables, _ => 0, FetchRequest(g, pc));
      match result {
        case TlbMiss => r := Blocked(InsnTlbMiss);
        case PageFault => r := Blocked(InsnPageFault);
        case Okay(addr, _) =>
          virtPage := PageAlign(pc);
          physPage := PageAlign(addr);
          r := At(addr);
      }
    }

    method FetchInsn(g: Setting, code: Memory, pc: bv32, active: bool) returns (r: Fetched)
      requires Runs(g)
      modifies this, mmu.tlb, cache
      ensures Runs(g) && (Snap(), r) == Fetch(g, code, old(Snap()), pc, active)
    {
      hide Locate, Load;
      ghost var before := Snap();
      var located := LocateInsn(g, pc, active);
      match located {
        case Blocked(cause) => r := Fault(cause, pc);
        case At(addr) =>
          ghost var c := Snap();
          assert Locate(g, before, pc, active) == (c, At(addr));
          r := LoadInsn(g, code, addr);
          assert Snap() == c.(decoded := cache[..]);
      }
    }

    method LoadInsn(g: Setting, code: Memory, addr: bv32) returns (r: Fetched)
      requires Runs(g)
      modifies cache
      ensures Runs(g) && (cache[..], r) == Load(g, code, old(cache[..]), addr)
    {
      hide Slot;
      var slot := Slot(cache.Length, addr);
      if cache[slot].addr == addr && !off {
        return Insn(addr, cache[slot].insn);
      }
      var word := code(addr);
      if word.None? {
        return Fault(InsnBusError, addr);
      }
      if !g.legal(word.value) {
        return Fault(IllegalInsn, addr);
      }
      cache[slot] := Decoded(addr, word.value);
      r := Insn(addr, word.value);
    }

    method Invalidate(addr: bv32)
      requires Valid()
      modifies cache
      ensures cache[..] == Invalidated1(cache.Length, old(cache[..]), addr)
    {
      hide Slot;
      var slot := Slot(cache.Length, addr);
      if cache[slot].addr == addr {
        cache[slot] := cache[slot].(addr := INVALID_ADDR);
      }
    }

    method InvalidateBlock(addr: bv32, words: nat)
      requires Valid()
      modifies cache
      ensures cache[..] == InvalidatedBlock(cache.Length, old(cache[..]), addr, words)
    {
      hide Invalidated1;
      var at := addr;
      for i := 0 to words
        invariant InvalidatedBlock(cache.Length, cache[..], at, words - i)
                  == InvalidatedBlock(cache.Length, old(cache[..]), addr, words)
      {
        Invalidate(at);
        at := at + 4;
      }
    }
  }

  function Power2(n: nat): (p: nat)
    ensures p > 0
  {
    if n == 0 then 1 else 2 * Power2(n - 1)
  }
}
