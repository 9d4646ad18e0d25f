/** The scanner benchmark as a whole: two scans, the corruption between them and its undoing, and
    a checksum over all counters. */
module ScannerBench {
  import opened Words
  import opened Scanner
  import opened ScannerInput
  import ScannerCounts
  import Crc

  // The counters in the order in which they are summed up.
  function AllStates(): seq<State> { [Start, Invalid, S1, S2, Int, Float, Exponent, Scientific] }

  // A counter is a 32-bit word.
  function CounterWord(n: nat): bv32 { Wrap32(n) as bv32 }

  // The bytes of both counters of each state, from the i-th on.
  function Digest(finals: Counts, track: Counts, i: nat): seq<bv8>
    requires forall q :: q in finals && q in track
    requires i <= 8
    decreases 8 - i
  {
    if i == 8 then []
    else
      var q := AllStates()[i];
      Crc.Bytes32(CounterWord(finals[q])) + (Crc.Bytes32(CounterWord(track[q])) + Digest(finals, track, i + 1))
  }

  lemma FedWords(crc: bv16, a: seq<bv8>, b: seq<bv8>, rest: seq<bv8>)
    ensures Crc.Fed(crc, Crc.MessageBits(a + (b + rest)))
            == Crc.Fed(Crc.Fed(Crc.Fed(crc, Crc.MessageBits(a)), Crc.MessageBits(b)), Crc.MessageBits(rest))
  {
    Crc.MessageAppend(a, b + rest);
    Crc.MessageAppend(b, rest);
    Crc.FedAppend(crc, Crc.MessageBits(a), Crc.MessageBits(b + rest));
    Crc.FedAppend(Crc.Fed(crc, Crc.MessageBits(a)), Crc.MessageBits(b), Crc.MessageBits(rest));
    hide *;
  }

  lemma NothingFed(crc: bv16)
    ensures Crc.Fed(crc, Crc.MessageBits([])) == crc
  {
  }

  method Checksum(finals: Counts, track: Counts, crc0: bv16) returns (crc: bv16)
    requires forall q :: q in finals && q in track
    ensures crc == Crc.Fed(crc0, Crc.MessageBits(Digest(finals, track, 0)))
  {
    crc := crc0;
    hide Crc.Fed, Crc.MessageBits, Crc.Bytes32, CounterWord;
    for i := 0 to 8
      invariant Crc.Fed(crc, Crc.MessageBits(Digest(finals, track, i))) == Crc.Fed(crc0, Crc.MessageBits(Digest(finals, track, 0)))
    {
      var q := AllStates()[i];
      FedWords(crc, Crc.Bytes32(CounterWord(finals[q])), Crc.Bytes32(CounterWord(track[q])), Digest(finals, track, i + 1));
      crc := Crc.Crcu32(CounterWord(finals[q]), crc);
      crc := Crc.Crcu32(CounterWord(track[q]), crc);
    }
    NothingFed(crc);
  }

  // Scan, corrupt, scan again and undo the corruption; the result sums up the counters of both
  // scans.
  method BenchState(memblock: array<U8>, seed1: U8, seed2: U8, step: nat, crc0: bv16)
    returns (crc: bv16, ghost finals: Counts, ghost track: Counts)
    requires step > 0
    requires Terminated(memblock[..]) && Terminated(Corrupted(memblock[..], step, seed1))
    modifies memblock
    ensures var s := old(memblock[..]);
            var t := Corrupted(s, step, seed1);
            && (forall q :: q in finals && finals[q] == Count(s, q) + Count(t, q))
            && (forall q :: q in track && track[q] == RaisedAll(s, q) + RaisedAll(t, q))
            && memblock[..] == Corrupted(t, step, seed2)
    ensures (forall q :: q in finals && q in track) && crc == Crc.Fed(crc0, Crc.MessageBits(Digest(finals, track, 0)))
  {
    forall q ensures q in NoCounts() && NoCounts()[q] == 0 {
      EveryStateCounted(q);
    }
    hide Corrupted, Count, RaisedAll, Digest, NoCounts, Crc.Fed, Crc.MessageBits, Terminated;
    var finalCounts, trackCounts := ScanAll(memblock, NoCounts(), NoCounts());
    Corrupt(memblock, step, seed1);
    finalCounts, trackCounts := ScanAll(memblock, finalCounts, trackCounts);
    Corrupt(memblock, step, seed2);
    crc := Checksum(finalCounts, trackCounts, crc0);
    finals, track := finalCounts, trackCounts;
  }

  // ---- Which corruptions leave the buffer terminated

  lemma FlippedZero(b: U8, seed: U8)
    ensures IsZero(Flipped(b, seed)) <==> b == seed && !IsComma(b)
  {
    XorZero(b, seed);
    ScannerCounts.CommaIsNotZero(b);
    hide Xor;
  }

  predicate Touched(step: nat, i: nat)
    requires step > 0
  {
    i % step == 0
  }

  // A byte of the corrupted buffer is zero exactly if it was and is not touched, or if it is touched
  // and was equal to the seed.
  predicate Zeroed(s: seq<U8>, step: nat, seed: U8, i: nat)
    requires step > 0 && i < |s|
  {
    if Touched(step, i) then s[i] == seed && !IsComma(seed) else IsZero(s[i])
  }

  lemma CorruptedZero(s: seq<U8>, step: nat, seed: U8, i: nat)
    requires step > 0 && i < |s|
    ensures IsZero(Corrupted(s, step, seed)[i]) <==> Zeroed(s, step, seed, i)
  {
    FlippedZero(s[i], seed);
    hide Flipped, IsZero, IsComma;
  }

  lemma TerminatedBy(s: seq<U8>, step: nat, seed: U8)
    requires step > 0
    ensures Terminated(Corrupted(s, step, seed)) <==> exists i :: 0 <= i < |s| && Zeroed(s, step, seed, i)
  {
    var r := Corrupted(s, step, seed);
    forall i | 0 <= i < |s| ensures IsZero(r[i]) <==> Zeroed(s, step, seed, i) {
      CorruptedZero(s, step, seed, i);
    }
    hide Corrupted, IsZero, Zeroed;
    if i :| 0 <= i < |s| && Zeroed(s, step, seed, i) {
      assert IsZero(r[i]);
    }
  }

  // Some byte of a pattern is touched and equals the seed.
  predicate Cancels(s: seq<U8>, end: nat, step: nat, seed: U8)
    requires step > 0 && end <= |s|
  {
    exists i :: 0 <= i < end && Touched(step, i) && s[i] == seed && !IsComma(seed)
  }

  // The buffer that InitState leaves is terminated after its corruption exactly if not every byte is
  // touched and there is more than one, or the seed is zero, or some byte of a pattern is cancelled.
  lemma CorruptionTerminated(s: seq<U8>, seed: U16, n: nat, size: nat, step: nat, seed1: U8)
    requires Holds(s, seed, n, size) && |s| == size && step > 0
    requires |Filled(seed, n)| + 1 < size || n == 0
    ensures Terminated(Corrupted(s, step, seed1)) <==>
            (step >= 2 && size >= 2) || seed1 == 0 || Cancels(s, |Filled(seed, n)|, step, seed1)
  {
    var end := |Filled(seed, n)|;
    ScannerCounts.FirstZero(s, seed, n, size);
    ScannerCounts.CommaIsNotZero(seed1);
    TerminatedBy(s, step, seed1);
    hide Corrupted, Filled, Touched, Terminated, IsComma;
    if step >= 2 && size >= 2 {
      Neighbours(end, step);
      var z := if Touched(step, end) then end + 1 else end;
      assert Zeroed(s, step, seed1, z);
    } else if seed1 == 0 {
      assert Zeroed(s, step, seed1, end);
    } else {
      forall i | end <= i < size ensures !Zeroed(s, step, seed1, i) {
        EveryByteTouched(step, i, size);
      }
      if i :| 0 <= i < end && Touched(step, i) && s[i] == seed1 && !IsComma(seed1) {
        assert Zeroed(s, step, seed1, i);
      }
    }
  }

  lemma EveryByteTouched(step: nat, i: nat, size: nat)
    requires i < size && (step == 1 || size == 1) && step > 0
    ensures Touched(step, i)
  {
  }

  lemma Neighbours(i: nat, step: nat)
    requires step >= 2
    ensures Touched(step, i) ==> !Touched(step, i + 1)
  {
    if Touched(step, i) {
      RemainderUnique(i / step, step, 1);
    }
  }
}
