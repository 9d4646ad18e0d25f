/** Cores sharing one memory, each with the reservation of its own port.  An exclusive load reserves
    a word; an exclusive store compares and swaps.  Every interleaving of their steps is a run. */
module Exclusive {
  import opened Port
  import opened BigEndianMemory

  datatype System = System(memory: seq<byte>, held: seq<Reservation>)

  // l.lwa and l.swa of one core, and plain stores of any.  Addresses count from the start of the
  // memory.
  datatype Event = Lwa(core: nat, at: nat) | Swa(core: nat, at: nat, value: nat) | Put(w: Width, at: nat, value: nat) {
    // The access is aligned, and within memory.
    predicate Fits(size: nat, cores: nat) {
      match this
      case Lwa(core, at) => core < cores && at % 4 == 0 && at + 4 <= size
      case Swa(core, at, value) => core < cores && at % 4 == 0 && at + 4 <= size && value < 0x1_0000_0000
      case Put(w, at, value) => Store(w, at, value).Fits(size)
    }

    // No plain store to the word at a.
    predicate Spares(a: nat) { Put? ==> at + Size(w) <= a || a + 4 <= at }
  }

  // The port's answer to the event; a plain store does not use the reservation.
  ghost function Answer(s: System, e: Event): (o: Outcome)
    requires e.Fits(|s.memory|, |s.held|)
    ensures |o.memory| == |s.memory|
  {
    match e
    case Lwa(core, at) => Transacted(s.memory, at, at, Blank(4), true, true, s.held[core], true)
    case Swa(core, at, value) => Transacted(s.memory, at, at, HostBytes(value, 4), false, true, s.held[core], true)
    case Put(w, at, value) => Outcome(ByPort(s.memory, 0, NoReservation(), Store(w, at, value)).memory, [], NoReservation(), Success)
  }

  function NoReservation(): Reservation { Reservation(0xffff_ffff, Blank(4)) }

  ghost function Next(s: System, e: Event): (s': System)
    requires e.Fits(|s.memory|, |s.held|)
    ensures |s'.memory| == |s.memory| && |s'.held| == |s.held|
  {
    var o := Answer(s, e);
    System(o.memory, if e.Put? then s.held else s.held[e.core := o.held])
  }

  ghost predicate Succeeds(s: System, e: Event)
    requires e.Fits(|s.memory|, |s.held|)
  {
    e.Swa? && Answer(s, e).response == Success
  }

  ghost function WordAt(s: System, a: nat): seq<byte>
    requires a + 4 <= |s.memory|
  {
    s.memory[a..a + 4]
  }

  ghost function Value(s: System, a: nat): nat
    requires a + 4 <= |s.memory|
  {
    FromBig(WordAt(s, a))
  }

  // ---- Single steps

  lemma LwaMeans(s: System, e: Event)
    requires e.Fits(|s.memory|, |s.held|) && e.Lwa?
    ensures Next(s, e) == System(s.memory, s.held[e.core := Reservation(e.at, WordAt(s, e.at))])
    ensures FromHost(Answer(s, e).data) == Value(s, e.at)
  {
    SwappedIsFlipped(WordAt(s, e.at), Blank(4), Word);
    FlippedNumber(WordAt(s, e.at));
    hide Swapped, Flipped, FromHost, FromBig;
  }

  // An exclusive store succeeds exactly if the word is the one reserved; then it is replaced.
  lemma SwaMeans(s: System, e: Event)
    requires e.Fits(|s.memory|, |s.held|) && e.Swa?
    ensures Succeeds(s, e) <==> s.held[e.core] == Reservation(e.at, WordAt(s, e.at))
    ensures Next(s, e) == System(if Succeeds(s, e) then Patched(s.memory, e.at, BigBytes(e.value, 4)) else s.memory, s.held)
  {
    var data := HostBytes(e.value, 4);
    SwappedIsFlipped(data, Blank(4), Word);
    FlippedBytes(e.value, 4);
    hide Swapped, Flipped, HostBytes, BigBytes, Patched;
    var h := s.held[e.core];
    assert s.held[e.core := h] == s.held;
  }

  lemma PutMeans(s: System, e: Event)
    requires e.Fits(|s.memory|, |s.held|) && e.Put?
    ensures Next(s, e) == System(Patched(s.memory, e.at, BigBytes(e.value, Size(e.w))), s.held)
  {
    AccessIsPlain(s.memory, 0, NoReservation(), Store(e.w, e.at, e.value));
    hide ByPort, Patched, BigBytes;
  }

  lemma PatchedElsewhere(memory: seq<byte>, at: nat, bs: seq<byte>, a: nat)
    requires at + |bs| <= |memory| && a + 4 <= |memory| && (at + |bs| <= a || a + 4 <= at)
    ensures Patched(memory, at, bs)[a..a + 4] == memory[a..a + 4]
  {
    var p := Patched(memory, at, bs);
    forall i | a <= i < a + 4 ensures p[i] == memory[i] {
    }
  }

  lemma PatchedHere(memory: seq<byte>, at: nat, bs: seq<byte>)
    requires at + |bs| <= |memory|
    ensures Patched(memory, at, bs)[at..at + |bs|] == bs
  {
  }

  // The word at a changes only by a successful exclusive store to it.
  lemma WordAfter(s: System, e: Event, a: nat)
    requires e.Fits(|s.memory|, |s.held|) && e.Spares(a) && a % 4 == 0 && a + 4 <= |s.memory|
    ensures WordAt(Next(s, e), a) == if e.Swa? && e.at == a && Succeeds(s, e) then BigBytes(e.value, 4) else WordAt(s, a)
  {
    hide Next, Succeeds, Patched, BigBytes;
    match e
    case Lwa(_, _) => LwaMeans(s, e);
    case Swa(_, at, value) =>
      SwaMeans(s, e);
      if at == a {
        PatchedHere(s.memory, a, BigBytes(value, 4));
      } else {
        PatchedElsewhere(s.memory, at, BigBytes(value, 4), a);
      }
    case Put(w, at, value) =>
      PutMeans(s, e);
      PatchedElsewhere(s.memory, at, BigBytes(value, Size(w)), a);
  }

  // ---- Runs

  ghost predicate Run(events: seq<Event>, size: nat, cores: nat) {
    forall i | 0 <= i < |events| :: events[i].Fits(size, cores)
  }

  // The system after the first n events.
  ghost function After(s: System, events: seq<Event>, n: nat): (s': System)
    requires n <= |events| && Run(events, |s.memory|, |s.held|)
    ensures |s'.memory| == |s.memory| && |s'.held| == |s.held|
  {
    if n == 0 then s else Next(After(s, events, n - 1), events[n - 1])
  }

  lemma OneMore(s: System, events: seq<Event>, n: nat)
    requires n < |events| && Run(events, |s.memory|, |s.held|)
    ensures events[n].Fits(|s.memory|, |s.held|)
    ensures After(s, events, n + 1) == Next(After(s, events, n), events[n])
  {
    hide Next;
  }

  // The core's last exclusive load among the first n events, or -1.
  function LastLoad(events: seq<Event>, core: nat, n: nat): (k: int)
    requires n <= |events|
    ensures -1 <= k < n && (k >= 0 ==> events[k].Lwa? && events[k].core == core)
  {
    if n == 0 then -1
    else if events[n - 1].Lwa? && events[n - 1].core == core then n - 1
    else LastLoad(events, core, n - 1)
  }

  ghost predicate Fresh(s: System) { forall c | 0 <= c < |s.held| :: s.held[c] == NoReservation() }

  // A reservation is the address and the word of the core's last exclusive load; nothing else,
  // not even the core's own stores, touches it.
  lemma {:induction false} HeldIsLastLoad(s: System, events: seq<Event>, n: nat, core: nat)
    requires Run(events, |s.memory|, |s.held|) && n <= |events| && core < |s.held| && Fresh(s)
    ensures var k := LastLoad(events, core, n);
            After(s, events, n).held[core] ==
            if k < 0 then NoReservation() else Reservation(events[k].at, WordAt(After(s, events, k), events[k].at))
  {
    hide Next;
    if n > 0 {
      HeldIsLastLoad(s, events, n - 1, core);
      var s', e := After(s, events, n - 1), events[n - 1];
      match e
      case Lwa(_, _) => LwaMeans(s', e);
      case Swa(_, _, _) => SwaMeans(s', e);
      case Put(_, _, _) => PutMeans(s', e);
    }
  }

  // The n-th event is an exclusive store to a that succeeds.
  ghost predicate Wins(s: System, events: seq<Event>, n: nat, a: nat)
    requires n < |events| && Run(events, |s.memory|, |s.held|)
  {
    events[n].Swa? && events[n].at == a && Succeeds(After(s, events, n), events[n])
  }

  // Over every run: an exclusive store succeeds exactly if its core's last exclusive load was of
  // this word, and the word now is as it was then.
  lemma SucceedsExactly(s: System, events: seq<Event>, n: nat, a: nat)
    requires Run(events, |s.memory|, |s.held|) && Fresh(s)
    requires n < |events| && events[n].Swa? && events[n].at == a
    ensures var k := LastLoad(events, events[n].core, n);
            Wins(s, events, n, a) <==>
            k >= 0 && events[k].at == a && WordAt(After(s, events, n), a) == WordAt(After(s, events, k), a)
  {
    hide After, Succeeds, Next;
    HeldIsLastLoad(s, events, n, events[n].core);
    SwaMeans(After(s, events, n), events[n]);
  }

  // The page walk for an exclusive access copies its request and so reads the two table entries
  // exclusively.  A load reserves its word all the same; a store then succeeds exactly if it is to
  // the second entry, whatever was reserved before.
  lemma WalkLosesReservation(s: System, core: nat, first: nat, second: nat, e: Event)
    requires Lwa(core, first).Fits(|s.memory|, |s.held|) && Lwa(core, second).Fits(|s.memory|, |s.held|)
    requires e.Fits(|s.memory|, |s.held|) && !e.Put? && e.core == core
    ensures var walked := Next(Next(s, Lwa(core, first)), Lwa(core, second));
            && walked.memory == s.memory
            && (e.Swa? ==> (Succeeds(walked, e) <==> e.at == second))
            && (e.Lwa? ==> Next(walked, e) == Next(s, e))
  {
    var t := Next(s, Lwa(core, first));
    var walked := Next(t, Lwa(core, second));
    LwaMeans(s, Lwa(core, first));
    LwaMeans(t, Lwa(core, second));
    hide Next, Succeeds;
    if e.Swa? {
      SwaMeans(walked, e);
    } else {
      LwaMeans(walked, e);
      LwaMeans(s, e);
    }
  }

  // Absent plain stores to the word, its values form a chain: each successful exclusive store
  // replaces the value its core last loaded, and nothing else changes it.
  lemma Chain(s: System, events: seq<Event>, n: nat, a: nat)
    requires Run(events, |s.memory|, |s.held|) && Fresh(s) && a % 4 == 0 && a + 4 <= |s.memory|
    requires n < |events| && events[n].Spares(a)
    ensures var before, after := Value(After(s, events, n), a), Value(After(s, events, n + 1), a);
            if Wins(s, events, n, a) then
              var k := LastLoad(events, events[n].core, n);
              k >= 0 && events[k].at == a && before == Value(After(s, events, k), a) && after == events[n].value
            else after == before
  {
    hide After, Next, Succeeds, FromBig, BigBytes, Power, Run, WordAt, LastLoad;
    OneMore(s, events, n);
    WordAfter(After(s, events, n), events[n], a);
    if Wins(s, events, n, a) {
      SucceedsExactly(s, events, n, a);
      BigRoundTrip(events[n].value, 4);
      RangeIsPower(Word);
    }
  }

  // ---- No lost updates

  // The exclusive stores to a add to what their core last loaded: the n-th event adds deltas(n).
  ghost predicate Adds(s: System, events: seq<Event>, a: nat, deltas: nat -> nat)
    requires Run(events, |s.memory|, |s.held|) && a + 4 <= |s.memory|
  {
    forall i | 0 <= i < |events| && events[i].Swa? && events[i].at == a ::
      var k := LastLoad(events, events[i].core, i);
      k >= 0 ==> events[i].value == (Value(After(s, events, k), a) + deltas(i)) % 0x1_0000_0000
  }

  // The sum of the deltas of the successful exclusive stores to a among the first n events.
  ghost function Gains(s: System, events: seq<Event>, a: nat, deltas: nat -> nat, n: nat): nat
    requires n <= |events| && Run(events, |s.memory|, |s.held|)
  {
    if n == 0 then 0 else Gains(s, events, a, deltas, n - 1) + if Wins(s, events, n - 1, a) then deltas(n - 1) else 0
  }

  lemma AddWraps(x: nat, y: nat, d: nat)
    ensures ((x + y) % 0x1_0000_0000 + d) % 0x1_0000_0000 == (x + (y + d)) % 0x1_0000_0000
  {
  }

  lemma ValueBelow(s: System, a: nat)
    requires a + 4 <= |s.memory|
    ensures Value(s, a) < 0x1_0000_0000
  {
    BigBelow(WordAt(s, a));
    RangeIsPower(Word);
    hide FromBig, Power;
  }

  // In every interleaving, the word ends as its start plus the deltas of all successful exclusive
  // stores, modulo 2^32: no update is lost.
  lemma {:induction false} NoLostUpdates(s: System, events: seq<Event>, a: nat, deltas: nat -> nat, n: nat)
    requires Run(events, |s.memory|, |s.held|) && Fresh(s) && a % 4 == 0 && a + 4 <= |s.memory| && n <= |events|
    requires forall i | 0 <= i < |events| :: events[i].Spares(a)
    requires Adds(s, events, a, deltas)
    ensures Value(After(s, events, n), a) == (Value(s, a) + Gains(s, events, a, deltas, n)) % 0x1_0000_0000
  {
    hide Run, After, Value, Wins, LastLoad;
    if n == 0 {
      ValueBelow(s, a);
      assert After(s, events, 0) == s by { NothingDone(s, events); }
    } else {
      NoLostUpdates(s, events, a, deltas, n - 1);
      Chain(s, events, n - 1, a);
      if Wins(s, events, n - 1, a) {
        AddWraps(Value(s, a), Gains(s, events, a, deltas, n - 1), deltas(n - 1));
        WinsIsSwa(s, events, n - 1, a);
      }
    }
  }

  lemma NothingDone(s: System, events: seq<Event>)
    requires Run(events, |s.memory|, |s.held|)
    ensures After(s, events, 0) == s
  {
  }

  lemma WinsIsSwa(s: System, events: seq<Event>, n: nat, a: nat)
    requires n < |events| && Run(events, |s.memory|, |s.held|) && Wins(s, events, n, a)
    ensures events[n].Swa? && events[n].at == a
  {
  }

  // ---- Progress

  // A failed retry means that, since the core's load, some exclusive store to the word succeeded.
  lemma FailureMeansProgress(s: System, events: seq<Event>, n: nat, a: nat)
    requires Run(events, |s.memory|, |s.held|) && Fresh(s) && a % 4 == 0 && a + 4 <= |s.memory|
    requires forall i | 0 <= i < |events| :: events[i].Spares(a)
    requires n < |events| && events[n].Swa? && events[n].at == a && !Wins(s, events, n, a)
    requires var k := LastLoad(events, events[n].core, n); k >= 0 && events[k].at == a
    ensures exists j | LastLoad(events, events[n].core, n) <= j < n :: Wins(s, events, j, a)
  {
    var k := LastLoad(events, events[n].core, n);
    hide LastLoad, Run, After;
    SucceedsExactly(s, events, n, a);
    if forall j | k <= j < n :: !Wins(s, events, j, a) {
      WordStays(s, events, a, k, n);
    }
  }

  lemma {:induction false} WordStays(s: System, events: seq<Event>, a: nat, k: nat, n: nat)
    requires Run(events, |s.memory|, |s.held|) && a % 4 == 0 && a + 4 <= |s.memory| && k <= n <= |events|
    requires forall i | 0 <= i < |events| :: events[i].Spares(a)
    requires forall j | k <= j < n :: !Wins(s, events, j, a)
    ensures WordAt(After(s, events, n), a) == WordAt(After(s, events, k), a)
    decreases n - k
  {
    if k < n {
      WordStays(s, events, a, k, n - 1);
      assert !Wins(s, events, n - 1, a);
      hide After, Next, Succeeds, BigBytes, Run, WordAt;
      OneMore(s, events, n - 1);
      WordAfter(After(s, events, n - 1), events[n - 1], a);
    }
  }

  // ---- Equal values suffice

  // The store compares values: between the load and the store of core 0, core 1 may have stored y
  // and then the old x again, and the store still succeeds.
  lemma OldValueReturns(s: System, a: nat, x: nat, y: nat, z: nat)
    requires |s.held| == 2 && Fresh(s) && a % 4 == 0 && a + 4 <= |s.memory|
    requires Value(s, a) == x && x != y && y < 0x1_0000_0000 && z < 0x1_0000_0000
    ensures x < 0x1_0000_0000
    ensures var events := [Lwa(0, a), Lwa(1, a), Swa(1, a, y), Lwa(1, a), Swa(1, a, x), Swa(0, a, z)];
            Run(events, |s.memory|, |s.held|)
            && Wins(s, events, 2, a) && Wins(s, events, 4, a) && Wins(s, events, 5, a)
  {
    ValueBelow(s, a);
    var events := [Lwa(0, a), Lwa(1, a), Swa(1, a, y), Lwa(1, a), Swa(1, a, x), Swa(0, a, z)];
    assert LastLoad(events, 0, 2) == 0;
    assert LastLoad(events, 0, 4) == 0;
    assert LastLoad(events, 1, 2) == 1 && LastLoad(events, 1, 4) == 3 && LastLoad(events, 0, 5) == 0;
    hide After, Succeeds, LastLoad;
    assert After(s, events, 0) == s by { NothingDone(s, events); }
    Quiet(s, events, 0, a);
    Quiet(s, events, 1, a);
    SucceedsExactly(s, events, 2, a);
    Chain(s, events, 2, a);
    Quiet(s, events, 3, a);
    SucceedsExactly(s, events, 4, a);
    Chain(s, events, 4, a);
    WordFromValue(After(s, events, 5), s, a);
    SucceedsExactly(s, events, 5, a);
  }

  // A load changes nothing in memory.
  lemma Quiet(s: System, events: seq<Event>, n: nat, a: nat)
    requires Run(events, |s.memory|, |s.held|) && n < |events| && events[n].Lwa? && a + 4 <= |s.memory|
    ensures WordAt(After(s, events, n + 1), a) == WordAt(After(s, events, n), a)
  {
    hide Next;
    LwaMeans(After(s, events, n), events[n]);
  }

  lemma {:induction false} BigInjective(p: seq<byte>, q: seq<byte>)
    requires |p| == |q| && FromBig(p) == FromBig(q)
    ensures p == q
    decreases |p|
  {
    if p != [] {
      var n := |p| - 1;
      BigInjective(p[..n], q[..n]);
      assert p == p[..n] + [p[n]] && q == q[..n] + [q[n]];
    }
  }

  lemma WordFromValue(s: System, t: System, a: nat)
    requires a + 4 <= |s.memory| && a + 4 <= |t.memory| && Value(s, a) == Value(t, a)
    ensures WordAt(s, a) == WordAt(t, a)
  {
    BigInjective(WordAt(s, a), WordAt(t, a));
  }
}
