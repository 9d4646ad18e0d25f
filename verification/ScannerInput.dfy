/** The input of the number scanner: fixed patterns, chosen by a running seed and separated by
    commas, followed by zeros. */
module ScannerInput {
  import opened Words
  import opened Scanner

  datatype Kind = IntPattern | FloatPattern | SciPattern | ErrPattern

  function KindOf(seed: U16): Kind {
    var k := seed % 8;
    if k <= 2 then IntPattern else if k <= 4 then FloatPattern else if k <= 6 then SciPattern else ErrPattern
  }

  function Choice(seed: U16): nat
    ensures Choice(seed) < 4
  {
    var k := seed / 8 % 4;
    if k == 0 then 0 else if k == 1 then 1 else if k == 2 then 2 else 3
  }

  // Of eight seeds in a row, three select an integer, two a number with a point, two a scientific
  // number, and one an erroneous pattern; the next two bits choose among four.
  lemma KindsExact(seed: U16)
    ensures KindOf(seed) == IntPattern <==> seed % 8 in {0, 1, 2}
    ensures KindOf(seed) == FloatPattern <==> seed % 8 in {3, 4}
    ensures KindOf(seed) == SciPattern <==> seed % 8 in {5, 6}
    ensures KindOf(seed) == ErrPattern <==> seed % 8 == 7
    ensures Choice(seed) == seed / 8 % 4
  {
  }

  function Ints(i: nat): seq<U8> {
    match i
    case 0 => [0x35, 0x30, 0x31, 0x32]                           // 5012
    case 1 => [0x31, 0x32, 0x33, 0x34]                           // 1234
    case 2 => [0x2d, 0x38, 0x37, 0x34]                           // -874
    case _ => [0x2b, 0x31, 0x32, 0x32]                           // +122
  }

  function Floats(i: nat): seq<U8> {
    match i
    case 0 => [0x33, 0x35, 0x2e, 0x35, 0x34, 0x34, 0x30, 0x30]   // 35.54400
    case 1 => [0x2e, 0x31, 0x32, 0x33, 0x34, 0x35, 0x30, 0x30]   // .1234500
    case 2 => [0x2d, 0x31, 0x31, 0x30, 0x2e, 0x37, 0x30, 0x30]   // -110.700
    case _ => [0x2b, 0x30, 0x2e, 0x36, 0x34, 0x34, 0x30, 0x30]   // +0.64400
  }

  function Scis(i: nat): seq<U8> {
    match i
    case 0 => [0x35, 0x2e, 0x35, 0x30, 0x30, 0x65, 0x2b, 0x33]   // 5.500e+3
    case 1 => [0x2d, 0x2e, 0x31, 0x32, 0x33, 0x65, 0x2d, 0x32]   // -.123e-2
    case 2 => [0x2d, 0x38, 0x37, 0x65, 0x2b, 0x38, 0x33, 0x32]   // -87e+832
    case _ => [0x2b, 0x30, 0x2e, 0x36, 0x65, 0x2d, 0x31, 0x32]   // +0.6e-12
  }

  function Errs(i: nat): seq<U8> {
    match i
    case 0 => [0x54, 0x30, 0x2e, 0x33, 0x65, 0x2d, 0x31, 0x46]   // T0.3e-1F
    case 1 => [0x2d, 0x54, 0x2e, 0x54, 0x2b, 0x2b, 0x54, 0x71]   // -T.T++Tq
    case 2 => [0x31, 0x54, 0x33, 0x2e, 0x34, 0x65, 0x34, 0x7a]   // 1T3.4e4z
    case _ => [0x33, 0x34, 0x2e, 0x30, 0x65, 0x2d, 0x54, 0x5e]   // 34.0e-T^
  }

  function Pattern(seed: U16): (t: seq<U8>)
    ensures |t| == 4 || |t| == 8
  {
    match KindOf(seed)
    case IntPattern => Ints(Choice(seed))
    case FloatPattern => Floats(Choice(seed))
    case SciPattern => Scis(Choice(seed))
    case ErrPattern => Errs(Choice(seed))
  }

  // The patterns, as text.
  predicate Spells(t: seq<U8>, text: string) {
    |t| == |text| && forall i | 0 <= i < |t| :: t[i] as char == text[i]
  }

  lemma IntsSpelled()
    ensures Spells(Ints(0), "5012")
    ensures Spells(Ints(1), "1234")
    ensures Spells(Ints(2), "-874")
    ensures Spells(Ints(3), "+122")
  {
  }

  lemma FloatsSpelled()
    ensures Spells(Floats(0), "35.54400")
    ensures Spells(Floats(1), ".1234500")
    ensures Spells(Floats(2), "-110.700")
    ensures Spells(Floats(3), "+0.64400")
  {
  }

  lemma ScisSpelled()
    ensures Spells(Scis(0), "5.500e+3")
    ensures Spells(Scis(1), "-.123e-2")
    ensures Spells(Scis(2), "-87e+832")
    ensures Spells(Scis(3), "+0.6e-12")
  {
  }

  lemma ErrsSpelled()
    ensures Spells(Errs(0), "T0.3e-1F")
    ensures Spells(Errs(1), "-T.T++Tq")
    ensures Spells(Errs(2), "1T3.4e4z")
    ensures Spells(Errs(3), "34.0e-T^")
  {
  }

  // The machine over eight bytes.
  lemma RunEight(q: State, t: seq<U8>)
    requires |t| == 8
    ensures Run(q, t) == Next(Next(Next(Next(Next(Next(Next(Next(q, t[0]), t[1]), t[2]), t[3]), t[4]), t[5]), t[6]), t[7])
  {
    hide Next;
    RunFour(q, t[..4]);
    RunFour(Run(q, t[..4]), t[4..]);
    RunAppend(q, t[..4], t[4..]);
    assert t == t[..4] + t[4..];
  }

  lemma RunFour(q: State, t: seq<U8>)
    requires |t| == 4
    ensures Run(q, t) == Next(Next(Next(Next(q, t[0]), t[1]), t[2]), t[3])
  {
    hide Next;
    RunPrepend(q, t[0], t[1..]);
    RunPrepend(Next(q, t[0]), t[1], t[2..]);
    RunPrepend(Next(Next(q, t[0]), t[1]), t[2], t[3..]);
    RunPrepend(Next(Next(Next(q, t[0]), t[1]), t[2]), t[3], []);
    assert t == [t[0]] + t[1..] && t[1..] == [t[1]] + t[2..] && t[2..] == [t[2]] + t[3..] && t[3..] == [t[3]] + [];
  }

  lemma IntKinds(i: nat)
    ensures Run(Start, Ints(i)) == Int
  {
    RunFour(Start, Ints(i));
  }

  lemma FloatKinds(i: nat)
    ensures Run(Start, Floats(i)) == Float
  {
    var t := Floats(i);
    RunEight(Start, t);
    hide Run;
  }

  lemma SciKinds(i: nat)
    ensures Run(Start, Scis(i)) == Scientific <==> i != 2
  {
    var t := Scis(i);
    RunEight(Start, t);
    hide Run;
  }

  lemma ErrKinds(i: nat)
    ensures Run(Start, Errs(i)) == Invalid
  {
    var t := Errs(i);
    RunEight(Start, t);
    hide Run;
  }

  // Each pattern is of the kind it is listed under, but for "-87e+832", a scientific number without
  // a point, which the machine rejects.
  lemma PatternKinds(seed: U16)
    ensures KindOf(seed) == IntPattern ==> IsInt(Pattern(seed))
    ensures KindOf(seed) == FloatPattern ==> IsFloat(Pattern(seed))
    ensures KindOf(seed) == SciPattern ==> (IsScientific(Pattern(seed)) <==> Choice(seed) != 2)
    ensures KindOf(seed) == ErrPattern ==>
              !IsInt(Pattern(seed)) && !IsFloat(Pattern(seed)) && !IsScientific(Pattern(seed))
  {
    hide IsInt, IsFloat, IsScientific, Run, KindOf, Choice, Ints, Floats, Scis, Errs;
    RecognisesFormats(Pattern(seed));
    IntKinds(Choice(seed));
    FloatKinds(Choice(seed));
    SciKinds(Choice(seed));
    ErrKinds(Choice(seed));
  }

  // ---- Filling the buffer

  function Next16(seed: U16): U16 { (seed + 1) % 0x1_0000 }

  function Bumped(seed: U16, n: nat): U16 { if n == 0 then seed else Next16(Bumped(seed, n - 1)) }

  lemma {:induction false} BumpedExact(seed: U16, n: nat)
    ensures Bumped(seed, n) == (seed + n) % 0x1_0000
  {
    if n > 0 {
      BumpedExact(seed, n - 1);
      Next16Wraps(seed + n - 1);
    }
  }

  lemma Next16Wraps(x: nat)
    ensures Next16(x % 0x1_0000) == (x + 1) % 0x1_0000
  {
  }

  // The first n patterns, each with its comma.
  ghost function Filled(seed: U16, n: nat): seq<U8> {
    if n == 0 then [] else Filled(seed, n - 1) + Pattern(Bumped(seed, n)) + [0x2c]
  }

  ghost predicate Holds(s: seq<U8>, seed: U16, n: nat, size: nat) {
    && |Filled(seed, n)| < size <= |s|
    && s[..|Filled(seed, n)|] == Filled(seed, n)
    && forall i | |Filled(seed, n)| <= i < size :: IsZero(s[i])
  }

  method PutZeros(p: array<U8>, from: nat, size: nat)
    requires from <= size <= p.Length
    modifies p
    ensures forall i | 0 <= i < p.Length :: p[i] == if from <= i < size then 0 else old(p[i])
  {
    var total := from;
    while total < size
      invariant from <= total <= size
      invariant forall i | 0 <= i < p.Length :: p[i] == if from <= i < total then 0 else old(p[i])
    {
      p[total] := 0;
      total := total + 1;
    }
  }

  // The patterns written so far, and nothing beyond size changed.
  ghost predicate Written(s: seq<U8>, was: seq<U8>, seed: U16, n: nat, total: nat, size: nat) {
    && total == |Filled(seed, n)| <= size <= |was| && |s| == |was|
    && s[..total] == Filled(seed, n) && s[size..] == was[size..]
  }

  lemma WrittenMore(s: seq<U8>, was: seq<U8>, seed: U16, n: nat, total: nat, size: nat, s': seq<U8>)
    requires Written(s, was, seed, n, total, size)
    requires var t := Pattern(Bumped(seed, n + 1)) + [0x2c];
             total + |t| <= size && s' == s[..total] + t + s[total + |t|..]
    ensures Written(s', was, seed, n + 1, total + |Pattern(Bumped(seed, n + 1))| + 1, size)
  {
    var t := Pattern(Bumped(seed, n + 1)) + [0x2c];
    hide Pattern;
    assert Filled(seed, n + 1) == Filled(seed, n) + t;
    assert s'[..total + |t|] == s[..total] + t;
    assert s'[size..] == s[size..];
  }

  lemma Assembled(after: seq<U8>, before: seq<U8>, total: nat, buf: seq<U8>)
    requires total + |buf| < |after| == |before|
    requires after[..total] == before[..total] && after[total..total + |buf|] == buf
    requires after[total + |buf|] == 0x2c && after[total + |buf| + 1..] == before[total + |buf| + 1..]
    ensures after == before[..total] + (buf + [0x2c]) + before[total + |buf| + 1..]
  {
    var at := total + |buf|;
    assert after == after[..total] + after[total..at] + [after[at]] + after[at + 1..];
  }

  // Writes the next pattern and a comma at total.
  method PutPattern(p: array<U8>, total: nat, buf: seq<U8>, ghost was: seq<U8>, ghost seed: U16, ghost n: nat, ghost size: nat)
    requires total + |buf| + 1 <= size <= p.Length && buf == Pattern(Bumped(seed, n + 1))
    requires Written(p[..], was, seed, n, total, size)
    modifies p
    ensures Written(p[..], was, seed, n + 1, total + |buf| + 1, size)
  {
    hide Pattern, Written;
    var next := |buf|;
    ghost var before := p[..];
    for i := 0 to next
      invariant p[..total] == before[..total] && p[total..total + i] == buf[..i]
      invariant p[total + i..] == before[total + i..]
    {
      p[total + i] := buf[i];
    }
    assert p[total + next..][1..] == before[total + next + 1..];
    p[total + next] := 0x2c;
    assert p[..total] == before[..total] && p[total..total + next] == buf && p[total + next + 1..] == before[total + next + 1..];
    Assembled(p[..], before, total, buf);
    WrittenMore(before, was, seed, n, total, size, p[..]);
  }

  // Fill the first size bytes: as many patterns as leave room for two zeros, then zeros.
  method InitState(size: nat, seed: U16, p: array<U8>) returns (ghost n: nat)
    requires 1 <= size <= p.Length
    modifies p
    ensures Holds(p[..], seed, n, size) && p[size..] == old(p[size..])
    ensures |Filled(seed, n)| + 1 < size || n == 0
    ensures |Filled(seed, n + 1)| + 1 >= size
  {
    ghost var was := p[..];
    assert Bumped(seed, 0) == seed;
    hide *;
    var total, next, s := 0, 0, seed;
    var buf: seq<U8> := [];
    n := 0;
    NothingWritten(was, seed, size);
    while total + next + 1 < size - 1
      invariant next == 0 ==> total == 0 && n == 0 && s == Bumped(seed, 0) && buf == []
      invariant next > 0 ==> s == Bumped(seed, n + 1) && buf == Pattern(s) && next == |buf|
      invariant Written(p[..], was, seed, n, total, size)
      invariant n > 0 ==> total + 1 < size
      decreases if next == 0 then size + 1 else size - total
    {
      assert total + 1 < size;
      if next > 0 {
        PutPattern(p, total, buf, was, seed, n, size);
        n := n + 1;
        total := total + next + 1;
      }
      BumpedOnce(seed, n);
      s := Next16(s);
      buf := Pattern(s);
      next := |buf|;
      PatternLength(s);
      assert next > 0;
    }
    ghost var before := p[..];
    PutZeros(p, total, size);
    FilledUp(before, was, seed, n, total, size, p[..]);
  }

  lemma PatternLength(seed: U16)
    ensures |Pattern(seed)| > 0
  {
  }

  lemma BumpedOnce(seed: U16, n: nat)
    ensures Bumped(seed, n + 1) == Next16(Bumped(seed, n))
  {
  }

  lemma NothingWritten(was: seq<U8>, seed: U16, size: nat)
    requires size <= |was|
    ensures Written(was, was, seed, 0, 0, size)
  {
  }

  lemma FilledUp(s: seq<U8>, was: seq<U8>, seed: U16, n: nat, total: nat, size: nat, s': seq<U8>)
    requires Written(s, was, seed, n, total, size) && |s'| == |s| && (total < size || n == 0 < size)
    requires forall i | 0 <= i < |s'| :: s'[i] == if total <= i < size then 0 else s[i]
    ensures Holds(s', seed, n, size) && s'[size..] == was[size..] && total == |Filled(seed, n)|
    ensures |Filled(seed, n + 1)| == total + |Pattern(Bumped(seed, n + 1))| + 1
  {
    hide Pattern;
    assert s'[..total] == s[..total];
    assert s'[size..] == s[size..];
  }

  // The filled buffer is terminated, and its patterns hold no zero.
  lemma {:induction false} FilledNotZero(seed: U16, n: nat)
    ensures forall i | 0 <= i < |Filled(seed, n)| :: !IsZero(Filled(seed, n)[i])
  {
    if n > 0 {
      FilledNotZero(seed, n - 1);
      PatternNotEnding(Bumped(seed, n));
      hide Pattern;
    }
  }

  lemma PatternNotEnding(seed: U16)
    ensures forall i | 0 <= i < |Pattern(seed)| :: !Ends(Pattern(seed)[i])
  {
    hide KindOf, Choice;
  }
}
