/** What the converting port amounts to: a big-endian byte memory, to which stores and loads of any
    width write and read numbers. */
module BigEndianMemory {
  import opened Port
  import opened Words

  // ---- Numbers as bytes

  // The n bytes of a number in host memory, the lowest first.
  function HostBytes(v: nat, n: nat): (r: seq<byte>)
    ensures |r| == n
  {
    if n == 0 then [] else [(v % 256) as byte] + HostBytes(v / 256, n - 1)
  }

  function FromHost(bs: seq<byte>): nat {
    if bs == [] then 0 else bs[0] as nat + 256 * FromHost(bs[1..])
  }

  // The n bytes of a number, the highest first.
  function BigBytes(v: nat, n: nat): (r: seq<byte>)
    ensures |r| == n
  {
    if n == 0 then [] else BigBytes(v / 256, n - 1) + [(v % 256) as byte]
  }

  function FromBig(bs: seq<byte>): nat {
    if bs == [] then 0 else 256 * FromBig(bs[..|bs| - 1]) + bs[|bs| - 1] as nat
  }

  function Power(n: nat): (r: nat)
    ensures r > 0
  {
    if n == 0 then 1 else 256 * Power(n - 1)
  }

  lemma {:induction false} FlippedBytes(v: nat, n: nat)
    ensures Flipped(HostBytes(v, n)) == BigBytes(v, n)
  {
    if n > 0 {
      FlippedBytes(v / 256, n - 1);
      var h := HostBytes(v / 256, n - 1);
      assert Flipped([(v % 256) as byte] + h) == Flipped(h) + [(v % 256) as byte];
    }
  }

  lemma {:induction false} FlippedNumber(bs: seq<byte>)
    ensures FromHost(Flipped(bs)) == FromBig(bs)
    decreases |bs|
  {
    if bs != [] {
      var head := bs[..|bs| - 1];
      FlippedNumber(head);
      assert Flipped(bs)[1..] == Flipped(head);
      hide Flipped;
    }
  }

  // A number survives in n bytes as far as it fits them.
  lemma {:induction false} BigRoundTrip(v: nat, n: nat)
    ensures FromBig(BigBytes(v, n)) == v % Power(n)
  {
    if n > 0 {
      BigRoundTrip(v / 256, n - 1);
      var b := BigBytes(v / 256, n - 1);
      assert (b + [(v % 256) as byte])[..n - 1] == b;
      DivisionNested(v, Power(n - 1));
    }
  }

  // Nested remainders: the digits of v by 256 and then by m.
  lemma DivisionNested(v: nat, m: nat)
    requires m > 0
    ensures 256 * (v / 256 % m) + v % 256 == v % (256 * m)
  {
    var q, r := v / 256 / m, v / 256 % m;
    assert v / 256 == q * m + r;
    assert v == 256 * (q * m + r) + v % 256;
    assert v == q * (256 * m) + (256 * r + v % 256) by {
      assert 256 * (q * m) == q * (256 * m);
    }
    assert r <= m - 1;
    RemainderUnique(q, 256 * m, 256 * r + v % 256);
  }

  // ---- Widths and extension

  datatype Width = Byte | Half | Word

  lemma QuotientNested(v: nat, m: nat)
    requires m > 0
    ensures v / (256 * m) == v / 256 / m
  {
    DivisionNested(v, m);
    var n, p, q := 256 * m, v / (256 * m), v / 256 / m;
    assert v == n * p + v % n;
    assert v / 256 == q * m + v / 256 % m;
    assert 256 * (q * m) == n * q;
    assert n * p == n * q;
    Cancel(n, p, q);
  }

  lemma Cancel(n: nat, p: nat, q: nat)
    requires n > 0 && n * p == n * q
    ensures p == q
  {
  }

  // The highest byte has the lowest address in memory, and the highest in the host.
  lemma {:induction false} BytesExact(v: nat, n: nat, k: nat)
    requires k < n
    ensures BigBytes(v, n)[n - 1 - k] as nat == v / Power(k) % 256
    ensures HostBytes(v, n)[k] as nat == v / Power(k) % 256
    decreases n
  {
    if k > 0 {
      BytesExact(v / 256, n - 1, k - 1);
      QuotientNested(v, Power(k - 1));
    }
  }

  function Size(w: Width): nat {
    match w case Byte => 1 case Half => 2 case Word => 4
  }

  function Range(w: Width): nat {
    match w case Byte => 0x100 case Half => 0x1_0000 case Word => 0x1_0000_0000
  }

  lemma RangeIsPower(w: Width)
    ensures Power(Size(w)) == Range(w)
  {
    assert Power(1) == 256 * Power(0);
    assert Power(2) == 256 * Power(1);
    assert Power(3) == 256 * Power(2);
    assert Power(4) == 256 * Power(3);
  }

  // Shift the sign bit, which has k bits above it, to the top and arithmetically back: s is the
  // power of two of k.
  function SignExtended(v: nat, s: nat): nat
    requires s > 0
  {
    var t := v * s % 0x1_0000_0000;
    var signed := if t >= 0x8000_0000 then t - 0x1_0000_0000 else t;
    signed / s % 0x1_0000_0000
  }

  // What the instruction makes of the register the bytes were read into.
  function Masked(w: Width, signed: bool, v: nat): nat {
    match w
    case Byte => if signed then SignExtended(v, 0x100_0000) else v % 0x100
    case Half => if signed then SignExtended(v, 0x1_0000) else v % 0x1_0000
    case Word => v
  }

  // The number as a 32-bit word, with its sign if it has one.
  function Extended(w: Width, signed: bool, v: nat): nat
    requires v < Range(w)
  {
    if signed && v >= Range(w) / 2 then v + 0x1_0000_0000 - Range(w) else v
  }

  lemma SignExtendedByte(v: nat)
    ensures SignExtended(v, 0x100_0000) == Extended(Byte, true, v % 0x100)
  {
    assert v == v / 0x100 * 0x100 + v % 0x100;
    assert v * 0x100_0000 == v / 0x100 * 0x1_0000_0000 + v % 0x100 * 0x100_0000;
    RemainderUnique(v / 0x100, 0x1_0000_0000, v % 0x100 * 0x100_0000);
  }

  lemma SignExtendedHalf(v: nat)
    ensures SignExtended(v, 0x1_0000) == Extended(Half, true, v % 0x1_0000)
  {
    assert v == v / 0x1_0000 * 0x1_0000 + v % 0x1_0000;
    assert v * 0x1_0000 == v / 0x1_0000 * 0x1_0000_0000 + v % 0x1_0000 * 0x1_0000;
    RemainderUnique(v / 0x1_0000, 0x1_0000_0000, v % 0x1_0000 * 0x1_0000);
  }

  lemma MaskedIsExtended(w: Width, signed: bool, v: nat)
    requires v < 0x1_0000_0000
    ensures Masked(w, signed, v) == Extended(w, signed && w != Word, v % Range(w))
  {
    SignExtendedByte(v);
    SignExtendedHalf(v);
    hide SignExtended;
  }

  // ---- Stores and loads

  datatype Access = Store(w: Width, at: nat, reg: nat) | Load(w: Width, signed: bool, at: nat, reg: nat) {
    predicate Fits(size: nat) { reg < 0x1_0000_0000 && at + Size(w) <= size }
  }

  datatype Effect = Effect(memory: seq<byte>, reg: nat)

  // What the instruction does through the port: its register lies in host memory, and the request
  // covers as many bytes of it as the access is wide.
  ghost function ByPort(memory: seq<byte>, start: nat, held: Reservation, a: Access): Effect
    requires a.Fits(|memory|)
  {
    var reg := HostBytes(a.reg, 4);
    var n := Size(a.w);
    var o := Transacted(memory, a.at, start + a.at, reg[..n], a.Load?, false, held, true);
    var v := FromHost(o.data + reg[n..]);
    Effect(o.memory, if a.Load? then Masked(a.w, a.signed, v) else v)
  }

  // The plain byte memory: the highest byte first.
  ghost function Plainly(memory: seq<byte>, a: Access): Effect
    requires a.Fits(|memory|)
  {
    var n := Size(a.w);
    match a
    case Store(w, at, reg) => Effect(Patched(memory, at, BigBytes(reg, n)), reg)
    case Load(w, signed, at, reg) => Effect(memory, Extended(w, signed && w != Word, NumberAt(memory, at, w)))
  }

  ghost function NumberAt(memory: seq<byte>, at: nat, w: Width): (v: nat)
    requires at + Size(w) <= |memory|
    ensures v < Range(w)
  {
    BigBelow(memory[at..at + Size(w)]);
    RangeIsPower(w);
    FromBig(memory[at..at + Size(w)])
  }

  lemma {:induction false} BigBelow(bs: seq<byte>)
    ensures FromBig(bs) < Power(|bs|)
    decreases |bs|
  {
    if bs != [] {
      BigBelow(bs[..|bs| - 1]);
    }
  }

  lemma TimesShifted(p: nat, x: nat)
    ensures 256 * (p * x) == (256 * p) * x
  {
  }

  lemma HostPrepend(x: byte, bs: seq<byte>)
    ensures FromHost([x] + bs) == x as nat + 256 * FromHost(bs)
  {
    assert ([x] + bs)[1..] == bs;
  }

  lemma {:induction false} HostParts(a: seq<byte>, b: seq<byte>)
    ensures FromHost(a + b) == FromHost(a) + Power(|a|) * FromHost(b)
    decreases |a|
  {
    if a == [] {
      assert a + b == b;
    } else {
      var rest := a[1..];
      assert a == [a[0]] + rest && a + b == [a[0]] + (rest + b) && Power(|a|) == 256 * Power(|rest|);
      hide FromHost, Power;
      HostParts(rest, b);
      HostPrepend(a[0], rest);
      HostPrepend(a[0], rest + b);
      TimesShifted(Power(|rest|), FromHost(b));
    }
  }

  lemma {:induction false} HostBelow(bs: seq<byte>)
    ensures FromHost(bs) < Power(|bs|)
    decreases |bs|
  {
    if bs != [] {
      HostBelow(bs[1..]);
    }
  }

  lemma {:induction false} HostRoundTrip(v: nat, n: nat)
    ensures FromHost(HostBytes(v, n)) == v % Power(n)
  {
    FlippedBytes(v, n);
    FlippedNumber(HostBytes(v, n));
    FlippedTwice(HostBytes(v, n));
    FlippedNumber(BigBytes(v, n));
    BigRoundTrip(v, n);
    hide Flipped;
  }

  // The lowest bytes of a number are those of the whole.
  lemma {:induction false} HostPrefix(v: nat, n: nat, m: nat)
    requires n <= m
    ensures HostBytes(v, m)[..n] == HostBytes(v, n)
  {
    if n > 0 {
      HostPrefix(v / 256, n - 1, m - 1);
      assert HostBytes(v, m)[..n] == [(v % 256) as byte] + HostBytes(v / 256, m - 1)[..n - 1];
    }
  }

  lemma SwappedIsFlipped(bs: seq<byte>, to: seq<byte>, w: Width)
    requires |bs| == |to| == Size(w)
    ensures (if |bs| > 1 then Swapped(bs, to) else bs) == Flipped(bs)
  {
  }

  lemma StoreTransacted(memory: seq<byte>, at: nat, addr: nat, data: seq<byte>, held: Reservation, w: Width)
    requires at + |data| <= |memory| && |data| == Size(w)
    ensures Transacted(memory, at, addr, data, false, false, held, true)
            == Outcome(Patched(memory, at, Flipped(data)), data, held, Success)
  {
    SwappedIsFlipped(data, Blank(|data|), w);
    SwappedBack(data, Blank(|data|));
    hide Swapped, Flipped, Patched;
  }

  lemma LoadTransacted(memory: seq<byte>, at: nat, addr: nat, data: seq<byte>, held: Reservation, w: Width)
    requires at + |data| <= |memory| && |data| == Size(w)
    ensures Transacted(memory, at, addr, data, true, false, held, true)
            == Outcome(memory, Flipped(memory[at..at + |data|]), held, Success)
  {
    SwappedIsFlipped(memory[at..at + |data|], data, w);
    hide Swapped, Flipped, Patched;
  }

  lemma StoreIsPlain(memory: seq<byte>, start: nat, held: Reservation, a: Access)
    requires a.Fits(|memory|) && a.Store?
    ensures ByPort(memory, start, held, a) == Plainly(memory, a)
  {
    var reg, n := HostBytes(a.reg, 4), Size(a.w);
    assert reg[..n] + reg[n..] == reg;
    hide Transacted, Flipped, HostBytes, FromHost, BigBytes, Patched, Power;
    HostPrefix(a.reg, n, 4);
    StoreTransacted(memory, a.at, start + a.at, reg[..n], held, a.w);
    FlippedBytes(a.reg, n);
    HostRoundTrip(a.reg, 4);
    RangeIsPower(Word);
  }

  // Of a register, the bytes read are the lowest.
  lemma LowestBytes(low: seq<byte>, high: seq<byte>, w: Width)
    requires |low| == Size(w) && |low| + |high| == 4
    ensures FromHost(low + high) < 0x1_0000_0000 && FromHost(low + high) % Range(w) == FromHost(low)
  {
    hide FromHost, Power;
    HostParts(low, high);
    HostBelow(low);
    HostBelow(low + high);
    RangeIsPower(w);
    RangeIsPower(Word);
    assert Power(|low|) * FromHost(high) == FromHost(high) * Power(|low|);
    RemainderUnique(FromHost(high), Power(|low|), FromHost(low));
  }

  lemma LoadIsPlain(memory: seq<byte>, start: nat, held: Reservation, a: Access)
    requires a.Fits(|memory|) && a.Load?
    ensures ByPort(memory, start, held, a) == Plainly(memory, a)
  {
    var reg, n := HostBytes(a.reg, 4), Size(a.w);
    var bs := memory[a.at..a.at + n];
    hide Transacted, Flipped, HostBytes, FromHost, FromBig, Masked, Extended;
    LoadTransacted(memory, a.at, start + a.at, reg[..n], held, a.w);
    FlippedNumber(bs);
    LowestBytes(Flipped(bs), reg[n..], a.w);
    MaskedIsExtended(a.w, a.signed, FromHost(Flipped(bs) + reg[n..]));
  }

  // One access: the same memory and the same register, whatever the register held.  A store leaves
  // its register unchanged.
  lemma AccessIsPlain(memory: seq<byte>, start: nat, held: Reservation, a: Access)
    requires a.Fits(|memory|)
    ensures ByPort(memory, start, held, a) == Plainly(memory, a)
  {
    if a.Load? {
      LoadIsPlain(memory, start, held, a);
    } else {
      StoreIsPlain(memory, start, held, a);
    }
  }

  // ---- Runs

  ghost predicate AllFit(accesses: seq<Access>, size: nat) {
    forall i | 0 <= i < |accesses| :: accesses[i].Fits(size)
  }

  // The memory after the accesses, and the register of each.
  datatype Trace = Trace(memory: seq<byte>, regs: seq<nat>)

  ghost function RunByPort(memory: seq<byte>, start: nat, held: Reservation, accesses: seq<Access>): (r: Trace)
    requires AllFit(accesses, |memory|)
    ensures |r.memory| == |memory|
    decreases |accesses|
  {
    if accesses == [] then Trace(memory, [])
    else
      var e := ByPort(memory, start, held, accesses[0]);
      var r := RunByPort(e.memory, start, held, accesses[1..]);
      Trace(r.memory, [e.reg] + r.regs)
  }

  ghost function RunPlainly(memory: seq<byte>, accesses: seq<Access>): (r: Trace)
    requires AllFit(accesses, |memory|)
    ensures |r.memory| == |memory|
    decreases |accesses|
  {
    if accesses == [] then Trace(memory, [])
    else
      var e := Plainly(memory, accesses[0]);
      var r := RunPlainly(e.memory, accesses[1..]);
      Trace(r.memory, [e.reg] + r.regs)
  }

  lemma {:induction false} PortIsBigEndianMemory(memory: seq<byte>, start: nat, held: Reservation, accesses: seq<Access>)
    requires AllFit(accesses, |memory|)
    ensures RunByPort(memory, start, held, accesses) == RunPlainly(memory, accesses)
    decreases |accesses|
  {
    if accesses != [] {
      AccessIsPlain(memory, start, held, accesses[0]);
      hide ByPort, Plainly;
      PortIsBigEndianMemory(Plainly(memory, accesses[0]).memory, start, held, accesses[1..]);
    }
  }

  // What is stored is loaded again, as far as it fits the width.
  lemma StoreThenLoad(memory: seq<byte>, w: Width, at: nat, reg: nat, signed: bool, other: nat)
    requires Store(w, at, reg).Fits(|memory|) && other < 0x1_0000_0000
    ensures var after := Plainly(memory, Store(w, at, reg)).memory;
            Plainly(after, Load(w, signed, at, other)).reg == Extended(w, signed && w != Word, reg % Range(w))
  {
    var n := Size(w);
    var after := Patched(memory, at, BigBytes(reg, n));
    assert after[at..at + n] == BigBytes(reg, n);
    BigRoundTrip(reg, n);
    RangeIsPower(w);
    hide BigBytes, FromBig, Power, Extended;
  }
}
