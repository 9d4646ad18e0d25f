/** The memory port: requests in host byte order, memory in the order of the simulated system, and
    the exclusive accesses.  The host is little-endian. */
module Port {
  newtype byte = x: int | 0 <= x < 256

  datatype Endian = Little | Big
  datatype Response = Success | Failed | Error

  // ---- Copying with the bytes swapped

  function Flipped(bs: seq<byte>): (r: seq<byte>)
    ensures |r| == |bs| && forall i | 0 <= i < |bs| :: r[i] == bs[|bs| - 1 - i]
  {
    seq(|bs|, i requires 0 <= i < |bs| => bs[|bs| - 1 - i])
  }

  // Word by word; what is left over stays in the destination.
  function SwappedWords(from: seq<byte>, to: seq<byte>): (r: seq<byte>)
    requires |to| == |from|
    ensures |r| == |from|
  {
    if |from| < 4 then to else Flipped(from[..4]) + SwappedWords(from[4..], to[4..])
  }

  function Swapped(from: seq<byte>, to: seq<byte>): (r: seq<byte>)
    requires |to| == |from|
    ensures |r| == |from|
  {
    if |from| == 1 then from
    else if |from| == 2 || |from| == 4 || |from| == 8 then Flipped(from)
    else SwappedWords(from, to)
  }

  // Byte by byte: values of one, two, four and eight bytes are reversed, and of other sizes each word;
  // what is left over is not written.
  lemma {:induction false} SwappedWordsAt(from: seq<byte>, to: seq<byte>, i: nat)
    requires |to| == |from| && i < |from|
    ensures SwappedWords(from, to)[i] == if i / 4 * 4 + 4 <= |from| then from[i / 4 * 4 + 3 - i % 4] else to[i]
    decreases |from|
  {
    if |from| >= 4 {
      if i >= 4 {
        var f, t := from[4..], to[4..];
        assert (Flipped(from[..4]) + SwappedWords(f, t))[i] == SwappedWords(f, t)[i - 4];
        assert (i - 4) / 4 == i / 4 - 1 && (i - 4) % 4 == i % 4;
        hide Flipped;
        SwappedWordsAt(f, t, i - 4);
      } else {
        assert i / 4 == 0 && i % 4 == i;
      }
    }
  }

  lemma SwappedExact(from: seq<byte>, to: seq<byte>, i: nat)
    requires |to| == |from| && i < |from|
    ensures Swapped(from, to)[i] ==
            if |from| == 1 || |from| == 2 || |from| == 4 || |from| == 8 then from[|from| - 1 - i]
            else if i / 4 * 4 + 4 <= |from| then from[i / 4 * 4 + 3 - i % 4] else to[i]
  {
    SwappedWordsAt(from, to, i);
    hide SwappedWords;
  }

  lemma FlippedTwice(bs: seq<byte>)
    ensures Flipped(Flipped(bs)) == bs
  {
  }

  lemma {:induction false} WordsTwice(from: seq<byte>, to: seq<byte>)
    requires |to| == |from|
    ensures SwappedWords(SwappedWords(from, to), from) == from
    decreases |from|
  {
    if |from| >= 4 {
      var head, rest := Flipped(from[..4]), SwappedWords(from[4..], to[4..]);
      assert (head + rest)[..4] == head && (head + rest)[4..] == rest;
      FlippedTwice(from[..4]);
      WordsTwice(from[4..], to[4..]);
      assert from == from[..4] + from[4..];
    }
  }

  lemma SwappedMeans(from: seq<byte>, to: seq<byte>)
    requires |to| == |from|
    ensures Swapped(from, to) ==
            if |from| == 1 then from else if |from| in {2, 4, 8} then Flipped(from) else SwappedWords(from, to)
  {
  }

  // Swapping there and back restores the source, for every size.
  lemma SwappedBack(from: seq<byte>, to: seq<byte>)
    requires |to| == |from|
    ensures Swapped(Swapped(from, to), from) == from
  {
    FlippedTwice(from);
    WordsTwice(from, to);
    hide *;
    SwappedMeans(from, to);
    SwappedMeans(Swapped(from, to), from);
  }

  lemma {:induction false} WordsDone(from: seq<byte>, to: seq<byte>, k: nat)
    requires |to| == |from| && 4 * k <= |from|
    ensures SwappedWords(from, to) == SwappedWords(from[..4 * k], to[..4 * k]) + SwappedWords(from[4 * k..], to[4 * k..])
    decreases |from|
  {
    if k > 0 {
      WordsDone(from[4..], to[4..], k - 1);
      assert from[..4 * k][4..] == from[4..][..4 * (k - 1)] && to[..4 * k][4..] == to[4..][..4 * (k - 1)];
      assert from[4..][4 * (k - 1)..] == from[4 * k..] && to[4..][4 * (k - 1)..] == to[4 * k..];
      assert from[..4 * k][..4] == from[..4];
      hide Flipped;
    } else {
      assert from[0..] == from && to[0..] == to;
    }
  }

  lemma WordsOn(s: seq<byte>, d: seq<byte>, k: nat)
    requires |s| == |d| && 4 * k + 4 <= |s|
    ensures SwappedWords(s[..4 * k + 4], d[..4 * k + 4]) == SwappedWords(s[..4 * k], d[..4 * k]) + Flipped(s[4 * k..4 * k + 4])
  {
    var p, q := s[..4 * k + 4], d[..4 * k + 4];
    WordsDone(p, q, k);
    assert p[..4 * k] == s[..4 * k] && q[..4 * k] == d[..4 * k];
    assert p[4 * k..] == s[4 * k..4 * k + 4] == s[4 * k..4 * k + 4][..4];
    hide Flipped;
  }

  lemma LeftOver(from: seq<byte>, to: seq<byte>)
    requires |to| == |from| < 4
    ensures SwappedWords(from, to) == to
  {
  }

  method SwapWord(dst: array<byte>, src: array<byte>, at: nat)
    requires at + 4 <= dst.Length && at + 4 <= src.Length && dst != src
    modifies dst
    ensures dst[..] == Patched(old(dst[..]), at, Flipped(src[at..at + 4]))
  {
    dst[at], dst[at + 1], dst[at + 2], dst[at + 3] := src[at + 3], src[at + 2], src[at + 1], src[at];
  }

  lemma SwapsOne(before: seq<byte>, after: seq<byte>, word: seq<byte>, at: nat, size: nat)
    requires |word| == 4 && at + 4 <= size <= |before| && after == Patched(before, at, Flipped(word))
    ensures after[..at + 4] == before[..at] + Flipped(word)
    ensures after[at + 4..size] == before[at + 4..size] && after[size..] == before[size..]
  {
    hide Flipped;
    assert after[at + 4..] == before[at + 4..];
    assert after[at + 4..size] == after[at + 4..][..size - at - 4] && before[at + 4..size] == before[at + 4..][..size - at - 4];
    assert after[size..] == after[at + 4..][size - at - 4..] && before[size..] == before[at + 4..][size - at - 4..];
  }

  method CopyWords(to: array<byte>, from: array<byte>, size: nat)
    requires size <= to.Length && size <= from.Length && to != from
    modifies to
    ensures to[..size] == SwappedWords(from[..size], old(to[..size])) && to[size..] == old(to[size..])
  {
    ghost var s, d := from[..size], to[..size];
    assert SwappedWords(s[..0], d[..0]) == d[..0];
    hide SwappedWords, Flipped, Patched;
    var at := 0;
    ghost var k := 0;
    while size - at > 3
      invariant at == 4 * k <= size
      invariant to[..at] == SwappedWords(s[..at], d[..at]) && to[at..size] == d[at..]
      invariant to[size..] == old(to[size..])
    {
      WordsOn(s, d, k);
      ghost var before := to[..];
      SwapWord(to, from, at);
      assert s[at..at + 4] == from[at..at + 4];
      SwapsOne(before, to[..], s[at..at + 4], at, size);
      assert before[at..size][4..] == before[at + 4..size] && d[at..][4..] == d[at + 4..];
      at := at + 4;
      k := k + 1;
    }
    WordsDone(s, d, k);
    LeftOver(s[at..], d[at..]);
    assert to[..size] == to[..at] + to[at..size];
  }

  method MemCpySwp(to: array<byte>, from: array<byte>, size: nat)
    requires size <= to.Length && size <= from.Length && to != from
    modifies to
    ensures to[..size] == Swapped(from[..size], old(to[..size])) && to[size..] == old(to[size..])
  {
    if size == 1 {
      to[0] := from[0];
    } else if size == 2 {
      to[0], to[1] := from[1], from[0];
    } else if size == 4 {
      to[0], to[1], to[2], to[3] := from[3], from[2], from[1], from[0];
    } else if size == 8 {
      to[0], to[1], to[2], to[3] := from[7], from[6], from[5], from[4];
      to[4], to[5], to[6], to[7] := from[3], from[2], from[1], from[0];
    } else {
      CopyWords(to, from, size);
    }
  }

  // ---- Accesses to memory

  // What the port holds for a later exclusive store: an address and the word read from it.
  datatype Reservation = Reservation(addr: nat, word: seq<byte>)

  datatype Outcome = Outcome(memory: seq<byte>, data: seq<byte>, held: Reservation, response: Response)

  function Patched(memory: seq<byte>, at: nat, bs: seq<byte>): (r: seq<byte>)
    requires at + |bs| <= |memory|
    ensures |r| == |memory|
  {
    memory[..at] + bs + memory[at + |bs|..]
  }

  // at is the place of addr in memory.
  function Exclusive(memory: seq<byte>, at: nat, addr: nat, data: seq<byte>, read: bool, held: Reservation): Outcome
    requires at + |data| <= |memory|
  {
    var word := memory[at..at + |data|];
    if read then Outcome(memory, word, Reservation(addr, word), Success)
    else if addr == held.addr && word == held.word then Outcome(Patched(memory, at, data), data, held, Success)
    else Outcome(memory, data, held, Failed)
  }

  function Accessed(memory: seq<byte>, at: nat, addr: nat, data: seq<byte>, read: bool, exclusive: bool, held: Reservation): (o: Outcome)
    requires at + |data| <= |memory|
    ensures |o.memory| == |memory| && |o.data| == |data|
  {
    if exclusive then Exclusive(memory, at, addr, data, read, held)
    else if read then Outcome(memory, memory[at..at + |data|], held, Success)
    else Outcome(Patched(memory, at, data), data, held, Success)
  }

  function Blank(n: nat): (r: seq<byte>)
    ensures |r| == n
  {
    seq(n, i => 0)
  }

  function Transacted(memory: seq<byte>, at: nat, addr: nat, data: seq<byte>, read: bool, exclusive: bool, held: Reservation,
                      convert: bool): (o: Outcome)
    requires at + |data| <= |memory|
    ensures |o.memory| == |memory| && |o.data| == |data|
  {
    if convert && |data| > 1 then
      var o := Accessed(memory, at, addr, Swapped(data, Blank(|data|)), read, exclusive, held);
      o.(data := Swapped(o.data, data))
    else Accessed(memory, at, addr, data, read, exclusive, held)
  }

  // ---- Requests to the surrounding system

  // What the system answers to a request outside the port's memory: the data of a load, a response,
  // and the cycles it took.  Requests are by address, data, direction and exclusiveness.
  datatype Reply = Reply(data: seq<byte>, response: Response, cycles: nat)

  type System = (nat, seq<byte>, bool, bool) -> Reply

  // A reply of another size leaves the data alone.
  function Replied(r: Reply, data: seq<byte>): (d: seq<byte>)
    ensures |d| == |data|
  {
    if |r.data| == |data| then r.data else data
  }

  predicate Inside(memory: seq<byte>, start: nat, addr: nat) { start <= addr < start + |memory| }

  // A request inside the memory does not run over its end, and an exclusive one is of a word.
  predicate Proper(memory: seq<byte>, start: nat, addr: nat, size: nat, exclusive: bool) {
    Inside(memory, start, addr) ==> addr - start + size <= |memory| && (exclusive ==> size == 4)
  }

  function Handled(system: System, memory: seq<byte>, start: nat, addr: nat, data: seq<byte>, read: bool, exclusive: bool,
                   held: Reservation): (o: Outcome)
    requires Proper(memory, start, addr, |data|, exclusive)
    ensures |o.memory| == |memory| && |o.data| == |data|
  {
    if Inside(memory, start, addr) then Accessed(memory, addr - start, addr, data, read, exclusive, held)
    else
      var r := system(addr, data, read, exclusive);
      Outcome(memory, Replied(r, data), held, r.response)
  }

  function Answered(system: System, memory: seq<byte>, start: nat, addr: nat, data: seq<byte>, read: bool, exclusive: bool,
                    held: Reservation, convert: bool): (o: Outcome)
    requires Proper(memory, start, addr, |data|, exclusive)
    ensures |o.memory| == |memory| && |o.data| == |data|
  {
    if convert && |data| > 1 then
      var o := Handled(system, memory, start, addr, Swapped(data, Blank(|data|)), read, exclusive, held);
      o.(data := Swapped(o.data, data))
    else Handled(system, memory, start, addr, data, read, exclusive, held)
  }

  // Within the memory the system is not asked.
  lemma AnsweredInside(system: System, memory: seq<byte>, start: nat, addr: nat, data: seq<byte>, read: bool, exclusive: bool,
                       held: Reservation, convert: bool)
    requires Inside(memory, start, addr) && Proper(memory, start, addr, |data|, exclusive)
    ensures Answered(system, memory, start, addr, data, read, exclusive, held, convert)
            == Transacted(memory, addr - start, addr, data, read, exclusive, held, convert)
  {
    hide Swapped, Accessed;
  }

  // Outside, a conversion is undone in what the system is sent and in what it replies: the
  // register holds the reply as the system sees it, swapped once.
  lemma AnsweredOutside(system: System, memory: seq<byte>, start: nat, addr: nat, data: seq<byte>, read: bool, exclusive: bool,
                        held: Reservation)
    requires !Inside(memory, start, addr) && |data| in {2, 4, 8}
    ensures var o := Answered(system, memory, start, addr, data, read, exclusive, held, true);
            && o.memory == memory && o.held == held
            && o.response == system(addr, Flipped(data), read, exclusive).response
            && o.data == Flipped(Replied(system(addr, Flipped(data), read, exclusive), Flipped(data)))
  {
    hide Flipped;
  }

  // The cycles of a request: those of its window, and again those of the data window if it is
  // served from memory, or those the system took.
  function Cycles(system: System, memory: seq<byte>, start: nat, addr: nat, data: seq<byte>, read: bool, exclusive: bool,
                  convert: bool, own: nat, again: nat): nat {
    var sent := if convert && |data| > 1 then Swapped(data, Blank(|data|)) else data;
    own + if Inside(memory, start, addr) then again else system(addr, sent, read, exclusive).cycles
  }

  // ---- Requests

  class Request {
    var addr: nat
    var data: array<byte>
    var size: nat
    var insn: bool
    var read: bool
    var exclusive: bool
    var endian: Endian
    var cycles: nat

    constructor (addr: nat, data: array<byte>, size: nat, insn: bool, read: bool, exclusive: bool, endian: Endian)
      ensures this.addr == addr && this.data == data && this.size == size && this.insn == insn
      ensures this.read == read && this.exclusive == exclusive && this.endian == endian && this.cycles == 0
    {
      this.addr, this.data, this.size, this.insn := addr, data, size, insn;
      this.read, this.exclusive, this.endian, this.cycles := read, exclusive, endian, 0;
    }
  }

  method Copy(to: array<byte>, toAt: nat, from: array<byte>, fromAt: nat, size: nat)
    requires toAt + size <= to.Length && fromAt + size <= from.Length && to != from
    modifies to
    ensures to[..] == Patched(old(to[..]), toAt, from[fromAt..fromAt + size])
  {
    for i := 0 to size
      invariant to[..toAt] == old(to[..toAt]) && to[toAt..toAt + i] == from[fromAt..fromAt + i]
      invariant to[toAt + i..] == old(to[toAt + i..])
    {
      to[toAt + i] := from[fromAt + i];
    }
  }

  // A part of the address space that the port serves itself, and the cycles of a request to it.
  datatype Window = Window(memory: array<byte>, start: nat, cycles: nat)

  /** The port of one core.  The memory of its two windows may be the same, and shared with other
      cores. */
  class Env {
    const dataWindow: Window
    const insnWindow: Window
    const endian: Endian
    const system: System
    var exclAddr: nat
    var exclData: seq<byte>

    constructor (dataWindow: Window, insnWindow: Window, endian: Endian, system: System)
      ensures this.dataWindow == dataWindow && this.insnWindow == insnWindow
      ensures this.endian == endian && this.system == system && Held() == Reservation(0xffff_ffff, Blank(4))
    {
      this.dataWindow, this.insnWindow, this.endian, this.system := dataWindow, insnWindow, endian, system;
      exclAddr, exclData := 0xffff_ffff, Blank(4);
    }

    function Held(): Reservation
      reads this
    {
      Reservation(exclAddr, exclData)
    }

    function Served(req: Request): Window
      reads req
    {
      if req.insn then insnWindow else dataWindow
    }

    // The request's data is large enough, and not in the memory itself.
    predicate Takes(req: Request)
      reads req, Served(req).memory
    {
      var w := Served(req);
      req.size <= req.data.Length && req.data != w.memory && Proper(w.memory[..], w.start, req.addr, req.size, req.exclusive)
    }

    method ExclusiveAccess(req: Request) returns (resp: Response)
      requires Takes(req) && req.exclusive && Inside(Served(req).memory[..], Served(req).start, req.addr)
      modifies this, Served(req).memory, req.data
      ensures var w := Served(req);
              var o := Exclusive(old(w.memory[..]), req.addr - w.start, req.addr, old(req.data[..req.size]), req.read, old(Held()));
              && w.memory[..] == o.memory && req.data[..req.size] == o.data && Held() == o.held && resp == o.response
      ensures req.data[req.size..] == old(req.data[req.size..])
    {
      var memory, at := Served(req).memory, req.addr - Served(req).start;
      if req.read {
        exclAddr := req.addr;
        Copy(req.data, 0, memory, at, req.size);
        exclData := req.data[..req.size];
      } else {
        if req.addr != exclAddr {
          return Failed;
        }
        if memory[at..at + 4] != exclData {
          return Failed;
        }
        Copy(memory, at, req.data, 0, 4);
      }
      resp := Success;
    }

    method DirectAccess(req: Request) returns (resp: Response)
      requires Takes(req) && Inside(Served(req).memory[..], Served(req).start, req.addr)
      modifies this, Served(req).memory, req.data
      ensures var w := Served(req);
              var o := Accessed(old(w.memory[..]), req.addr - w.start, req.addr, old(req.data[..req.size]), req.read, req.exclusive, old(Held()));
              && w.memory[..] == o.memory && req.data[..req.size] == o.data && Held() == o.held && resp == o.response
      ensures req.data[req.size..] == old(req.data[req.size..])
    {
      var memory, at := Served(req).memory, req.addr - Served(req).start;
      resp := Success;
      if req.exclusive {
        resp := ExclusiveAccess(req);
      } else if req.read {
        Copy(req.data, 0, memory, at, req.size);
      } else {
        Copy(memory, at, req.data, 0, req.size);
      }
    }

    // The surrounding system sees the request in its own byte order.
    method Transact(req: Request) returns (resp: Response)
      requires Takes(req) && !Inside(Served(req).memory[..], Served(req).start, req.addr)
      modifies req`endian, req`cycles, req.data
      ensures req.endian == old(req.endian)
      ensures var r := system(req.addr, old(req.data[..req.size]), req.read, req.exclusive);
              && req.data[..req.size] == Replied(r, old(req.data[..req.size])) && resp == r.response
              && req.cycles == old(req.cycles) + r.cycles
      ensures req.data[req.size..] == old(req.data[req.size..])
    {
      var e := req.endian;
      req.endian := endian;
      var r := system(req.addr, req.data[..req.size], req.read, req.exclusive);
      ghost var before := req.data[..req.size];
      if |r.data| == req.size {
        for i := 0 to req.size
          invariant req.data[..i] == r.data[..i] && req.data[req.size..] == old(req.data[req.size..])
          invariant req.data == old(req.data) && req.cycles == old(req.cycles)
        {
          req.data[i] := r.data[i];
        }
      }
      req.cycles := req.cycles + r.cycles;
      resp := r.response;
      req.endian := e;
    }

    // A request served from memory is charged for its window, and once more for the data window.
    method Access(req: Request) returns (resp: Response)
      requires Takes(req)
      modifies this, Served(req).memory, req`endian, req`cycles, req.data
      ensures req.endian == old(req.endian)
      ensures var w := Served(req);
              var o := Handled(system, old(w.memory[..]), w.start, req.addr, old(req.data[..req.size]), req.read, req.exclusive, old(Held()));
              && w.memory[..] == o.memory && req.data[..req.size] == o.data && Held() == o.held && resp == o.response
      ensures var w := Served(req);
              req.cycles == old(req.cycles) + Cycles(system, old(w.memory[..]), w.start, req.addr, old(req.data[..req.size]),
                                                     req.read, req.exclusive, false, w.cycles, dataWindow.cycles)
      ensures req.data[req.size..] == old(req.data[req.size..])
    {
      hide Accessed, Replied;
      var w := Served(req);
      req.cycles := req.cycles + w.cycles;
      if w.start <= req.addr < w.start + w.memory.Length {
        req.cycles := req.cycles + dataWindow.cycles;
        resp := DirectAccess(req);
      } else {
        resp := Transact(req);
      }
    }

    method ConvertAndTransact(req: Request) returns (resp: Response)
      requires Takes(req)
      modifies this, Served(req).memory, req, req.data
      ensures req.data == old(req.data) && req.addr == old(req.addr) && req.size == old(req.size) && req.read == old(req.read)
      ensures req.insn == old(req.insn) && req.exclusive == old(req.exclusive) && req.endian == old(req.endian)
      ensures var w := Served(req);
              var o := Answered(system, old(w.memory[..]), w.start, req.addr, old(req.data[..req.size]), req.read, req.exclusive,
                                old(Held()), req.endian != endian);
              && w.memory[..] == o.memory && req.data[..req.size] == o.data && Held() == o.held && resp == o.response
      ensures var w := Served(req);
              req.cycles == old(req.cycles) + Cycles(system, old(w.memory[..]), w.start, req.addr, old(req.data[..req.size]),
                                                     req.read, req.exclusive, req.endian != endian, w.cycles, dataWindow.cycles)
      ensures req.data[req.size..] == old(req.data[req.size..])
    {
      hide Swapped, Handled;
      var org := req.data;
      var conversion := req.size > 1 && req.endian != endian;
      if conversion {
        var tmp := new byte[req.size](_ => 0);
        assert tmp[..req.size] == Blank(req.size);
        MemCpySwp(tmp, org, req.size);
        req.data := tmp;
      }
      resp := Access(req);
      if conversion {
        MemCpySwp(org, req.data, req.size);
        req.data := org;
      }
    }
  }
}
