/** What the scanner finds in its initial input: each pattern leaves the tokens of its kind.  A
    pattern that breaks a format breaks into several tokens. */
module ScannerCounts {
  import opened Words
  import opened Scanner
  import opened ScannerInput

  // ---- The buffer

  // The filled buffer ends in zeros, and nothing before them is zero.
  lemma FirstZero(s: seq<U8>, seed: U16, n: nat, size: nat)
    requires Holds(s, seed, n, size)
    ensures Terminated(s) && IsZero(s[|Filled(seed, n)|])
    ensures forall i | 0 <= i < |Filled(seed, n)| :: !IsZero(s[i])
  {
    FilledNotZero(seed, n);
    hide IsZero, Filled;
    var t := Filled(seed, n);
    assert IsZero(s[|t|]);
    forall i | 0 <= i < |t| ensures s[i] == t[i] {
      assert s[..|t|][i] == t[i];
    }
  }

  // ---- Counting piece by piece

  // Whole tokens: text without zeros that ends with a comma, or no text.
  ghost predicate Whole(t: seq<U8>) {
    (forall i | 0 <= i < |t| :: !IsZero(t[i])) && (t != [] ==> IsComma(t[|t| - 1]))
  }

  lemma {:induction false} ScannedWithin(q: State, t: seq<U8>, rest: seq<U8>)
    requires Whole(t) && t != []
    ensures Scanned(q, t + rest) == Scanned(q, t)
    decreases |t|
  {
    hide Next, IsZero, IsComma;
    assert (t + rest)[0] == t[0] && (t + rest)[1..] == t[1..] + rest;
    if q != Invalid && !IsComma(t[0]) {
      ScannedWithin(Next(q, t[0]), t[1..], rest);
    }
  }

  lemma WholeLater(t: seq<U8>, n: nat)
    requires Whole(t) && n <= |t|
    ensures Whole(t[n..])
  {
    hide IsZero, IsComma;
  }

  lemma CountPiece(t: seq<U8>, n: nat, state: State, q: State)
    requires t != [] && !IsZero(t[0]) && 1 <= n <= |t| && Scanned(Start, t) == Reading(state, n)
    ensures Count(t, q) == (if state == q then 1 else 0) + Count(t[n..], q)
  {
    hide Scanned, IsZero;
  }

  lemma {:induction false} CountSplit(t: seq<U8>, rest: seq<U8>, q: State)
    requires Whole(t)
    ensures Count(t + rest, q) == Count(t, q) + Count(rest, q)
    decreases |t|
  {
    if t == [] {
      assert t + rest == rest;
    } else {
      var n := Scanned(Start, t).length;
      WholeScans(t, rest);
      TailAfter(t, rest, n);
      hide *;
      CountSplit(t[n..], rest, q);
      CountPiece(t, n, Scanned(Start, t).state, q);
      CountPiece(t + rest, n, Scanned(Start, t).state, q);
    }
  }

  lemma TailAfter(t: seq<U8>, rest: seq<U8>, n: nat)
    requires t != [] && n <= |t|
    ensures (t + rest)[0] == t[0] && (t + rest)[n..] == t[n..] + rest
  {
  }

  lemma WholeScans(t: seq<U8>, rest: seq<U8>)
    requires Whole(t) && t != []
    ensures var n := Scanned(Start, t).length;
            !IsZero(t[0]) && 1 <= n <= |t| && Scanned(Start, t + rest) == Scanned(Start, t) && Whole(t[n..])
  {
    assert !IsZero(t[0]);
    ScannedWithin(Start, t, rest);
    TokenScanned(t);
    WholeLater(t, Scanned(Start, t).length);
    hide Scanned, IsInt, IsFloat, IsScientific, Token, Whole;
  }

  // A piece that breaks at its last byte.
  lemma ScannedBroken(t: seq<U8>, n: nat)
    requires 1 <= n <= |t| && (forall i | 0 <= i < n :: !Ends(t[i]))
    requires Run(Start, t[..n - 1]) != Invalid && Run(Start, t[..n]) == Invalid
    ensures Scanned(Start, t) == Reading(Invalid, n)
  {
    BrokenFrom(Start, t, n);
  }

  lemma {:induction false} BrokenFrom(q: State, t: seq<U8>, n: nat)
    requires 1 <= n <= |t| && (forall i | 0 <= i < n :: !Ends(t[i]))
    requires Run(q, t[..n - 1]) != Invalid && Run(q, t[..n]) == Invalid
    ensures Scanned(q, t) == Reading(Invalid, n)
    decreases n
  {
    var u, c := t[1..], t[0];
    InvalidStays(t[..n - 1]);
    RunPrepend(q, c, u[..n - 1]);
    assert t[..n] == [c] + u[..n - 1];
    assert !Ends(c);
    hide Next, IsZero, IsComma;
    if n == 1 {
      NothingRead(Next(q, c));
      assert u[..0] == [];
      assert Scanned(Invalid, u) == Reading(Invalid, 0);
    } else {
      RunPrepend(q, c, u[..n - 2]);
      assert t[..n - 1] == [c] + u[..n - 2];
      BrokenFrom(Next(q, c), u, n - 1);
    }
  }

  // A token that its comma ends.
  lemma ScannedWhole(t: seq<U8>)
    requires t != [] && (forall i | 0 <= i < |t| - 1 :: !Ends(t[i])) && IsComma(t[|t| - 1])
    requires Run(Start, t[..|t| - 1]) != Invalid
    ensures Scanned(Start, t) == Reading(Run(Start, t[..|t| - 1]), |t|)
  {
    WholeFrom(Start, t);
  }

  lemma {:induction false} WholeFrom(q: State, t: seq<U8>)
    requires t != [] && (forall i | 0 <= i < |t| - 1 :: !Ends(t[i])) && IsComma(t[|t| - 1])
    requires Run(q, t[..|t| - 1]) != Invalid
    ensures Scanned(q, t) == Reading(Run(q, t[..|t| - 1]), |t|)
    decreases |t|
  {
    var u, c, n := t[1..], t[0], |t| - 1;
    InvalidStays(t[..n]);
    CommaIsNotZero(t[n]);
    hide Next, IsZero, IsComma;
    if n == 0 {
      assert t[..0] == [];
      NothingRead(q);
    } else {
      assert !Ends(c);
      RunPrepend(q, c, u[..n - 1]);
      assert t[..n] == [c] + u[..n - 1];
      WholeFrom(Next(q, c), u);
    }
  }

  lemma CommaIsNotZero(c: U8)
    ensures IsComma(c) ==> !IsZero(c)
  {
  }

  lemma RunMore(t: seq<U8>, k: nat, q: State)
    requires k < |t| && Run(Start, t[..k]) == q
    ensures Run(Start, t[..k + 1]) == Next(q, t[k])
  {
    RunAppend(Start, t[..k], [t[k]]);
    assert t[..k + 1] == t[..k] + [t[k]];
    assert [t[k]] == [t[k]] + [];
    RunPrepend(q, t[k], []);
    NothingRead(Next(q, t[k]));
    hide Next;
  }

  // ---- The pieces of the patterns that break

  function Comma(): seq<U8> { [0x2c] }
  function T(): seq<U8> { [0x54] }                                                     // T
  function Q(): seq<U8> { [0x71] }                                                     // q
  function Z(): seq<U8> { [0x7a] }                                                     // z
  function Caret(): seq<U8> { [0x5e] }                                                 // ^
  function MinusT(): seq<U8> { [0x2d, 0x54] }                                          // -T
  function PointT(): seq<U8> { [0x2e, 0x54] }                                          // .T
  function PlusPlus(): seq<U8> { [0x2b, 0x2b] }                                        // ++
  function OneT(): seq<U8> { [0x31, 0x54] }                                            // 1T
  function Minus87e(): seq<U8> { [0x2d, 0x38, 0x37, 0x65] }                            // -87e
  function Point4e4(): seq<U8> { [0x33, 0x2e, 0x34, 0x65, 0x34] }                      // 3.4e4
  function Point0eMinusT(): seq<U8> { [0x33, 0x34, 0x2e, 0x30, 0x65, 0x2d, 0x54] }     // 34.0e-T
  function Point3eMinus1F(): seq<U8> { [0x30, 0x2e, 0x33, 0x65, 0x2d, 0x31, 0x46] }    // 0.3e-1F
  function Plus832(): seq<U8> { [0x2b, 0x38, 0x33, 0x32] }                    // +832

  ghost predicate Broken(p: seq<U8>) {
    && p != [] && (forall i | 0 <= i < |p| :: !Ends(p[i]))
    && Run(Start, p[..|p| - 1]) != Invalid && Run(Start, p) == Invalid
  }

  lemma CountBroken(p: seq<U8>, rest: seq<U8>, q: State)
    requires Broken(p)
    ensures Count(p + rest, q) == (if q == Invalid then 1 else 0) + Count(rest, q)
  {
    var t, n := p + rest, |p|;
    assert t[..n] == p && t[..n - 1] == p[..n - 1] && t[n..] == rest;
    forall i | 0 <= i < n ensures !Ends(t[i]) {
      assert t[i] == p[i];
    }
    ScannedBroken(t, n);
    assert !IsZero(t[0]) by {
      assert !Ends(t[0]);
    }
    CountPiece(t, n, Invalid, q);
  }

  // The states in which a broken token is read, up to the one it breaks in.
  predicate Reads(t: seq<U8>, states: seq<State>) {
    && |states| == |t| + 1 && t != [] && states[0] == Start && states[|t|] == Invalid
    && (forall i | 0 <= i < |t| :: !Ends(t[i]))
    && (forall i | 0 <= i < |t| :: states[i] != Invalid && states[i + 1] == Next(states[i], t[i]))
  }

  lemma BrokenAfter(t: seq<U8>, states: seq<State>)
    requires Reads(t, states)
    ensures Broken(t)
  {
    hide Ends, Next, Run;
    NothingRead(Start);
    var n := |t|;
    assert t[..0] == [] && t[..n] == t;
    for k := 0 to n
      invariant Run(Start, t[..k]) == states[k]
      invariant k > 0 ==> Run(Start, t[..k - 1]) == states[k - 1]
    {
      RunMore(t, k, states[k]);
    }
  }

  lemma ShortPiecesBreak()
    ensures Broken(T()) && Broken(Q()) && Broken(Z()) && Broken(Caret())
    ensures Broken(MinusT()) && Broken(PointT()) && Broken(PlusPlus()) && Broken(OneT())
  {
    hide Broken;
    BrokenAfter(T(), [Start, Invalid]);
    BrokenAfter(Q(), [Start, Invalid]);
    BrokenAfter(Z(), [Start, Invalid]);
    BrokenAfter(Caret(), [Start, Invalid]);
    BrokenAfter(MinusT(), [Start, S1, Invalid]);
    BrokenAfter(PointT(), [Start, Float, Invalid]);
    BrokenAfter(PlusPlus(), [Start, S1, Invalid]);
    BrokenAfter(OneT(), [Start, Int, Invalid]);
  }

  lemma MiddlePiecesBreak()
    ensures Broken(Minus87e()) && Broken(Point4e4())
  {
    hide Broken;
    BrokenAfter(Minus87e(), [Start, S1, Int, Int, Invalid]);
    BrokenAfter(Point4e4(), [Start, Int, Float, Float, S2, Invalid]);
  }

  lemma LongPiecesBreak()
    ensures Broken(Point0eMinusT()) && Broken(Point3eMinus1F())
  {
    hide Broken;
    BrokenAfter(Point0eMinusT(), [Start, Int, Int, Float, Float, S2, Exponent, Invalid]);
    BrokenAfter(Point3eMinus1F(), [Start, Int, Float, Float, S2, Exponent, Scientific, Invalid]);
  }

  // ---- The tokens of a pattern

  // A token that is not broken counts once.
  lemma CountWhole(p: seq<U8>, state: State, q: State)
    requires (forall i | 0 <= i < |p| :: !Ends(p[i])) && Run(Start, p) == state != Invalid
    ensures Count(p + Comma(), q) == if state == q then 1 else 0
  {
    var t := p + Comma();
    assert t[..|p|] == p && t[|t|..] == [];
    forall i | 0 <= i < |p| ensures !Ends(t[i]) {
      assert t[i] == p[i];
    }
    CommaIsNotZero(0x2c);
    ScannedWhole(t);
    assert !IsZero(t[0]) by {
      assert p != [] ==> !Ends(t[0]);
    }
    CountPiece(t, |t|, state, q);
  }

  lemma CountComma(q: State)
    ensures Count(Comma(), q) == if q == Start then 1 else 0
  {
    NothingRead(Start);
    CountWhole([], Start, q);
    assert [] + Comma() == Comma();
  }

  // How many tokens of a pattern and its comma end in a state.
  function Tokens(seed: U16, q: State): nat {
    match KindOf(seed)
    case IntPattern => if q == Int then 1 else 0
    case FloatPattern => if q == Float then 1 else 0
    case SciPattern =>
      if Choice(seed) != 2 then (if q == Scientific then 1 else 0)
      else if q == Invalid || q == Int then 1 else 0
    case ErrPattern => if q == Start then 1 else if q == Invalid then Breaks(Choice(seed)) else 0
  }

  // The pieces an erroneous pattern breaks into.
  function Breaks(i: nat): nat {
    match i case 0 => 2 case 1 => 5 case 2 => 3 case _ => 2
  }

  lemma PlusIsInt()
    ensures Run(Start, Plus832()) == Int && forall i | 0 <= i < |Plus832()| :: !Ends(Plus832()[i])
  {
    RunFour(Start, Plus832());
    hide Run;
  }

  lemma SplitSciTwo()
    ensures Scis(2) + Comma() == Minus87e() + (Plus832() + Comma())
  {
  }

  lemma CountSciTwo(q: State)
    ensures Count(Scis(2) + Comma(), q) == if q == Invalid || q == Int then 1 else 0
  {
    hide *;
    SplitSciTwo();
    MiddlePiecesBreak();
    CountBroken(Minus87e(), (Plus832() + Comma()), q);
    PlusIsInt();
    CountWhole(Plus832(), Int, q);
  }

  lemma SplitErrZero()
    ensures Errs(0) + Comma() == T() + (Point3eMinus1F() + Comma())
  {
  }

  lemma CountErrZero(q: State)
    ensures Count(Errs(0) + Comma(), q) == if q == Start then 1 else if q == Invalid then 2 else 0
  {
    hide *;
    SplitErrZero();
    ShortPiecesBreak();
    CountBroken(T(), Point3eMinus1F() + Comma(), q);
    LongPiecesBreak();
    CountBroken(Point3eMinus1F(), Comma(), q);
    CountComma(q);
  }

  lemma SplitErrOne()
    ensures Errs(1) + Comma() == MinusT() + (PointT() + (PlusPlus() + (T() + (Q() + Comma()))))
  {
  }

  lemma CountErrOne(q: State)
    ensures Count(Errs(1) + Comma(), q) == if q == Start then 1 else if q == Invalid then 5 else 0
  {
    hide *;
    SplitErrOne();
    ShortPiecesBreak();
    CountBroken(MinusT(), PointT() + (PlusPlus() + (T() + (Q() + Comma()))), q);
    CountBroken(PointT(), PlusPlus() + (T() + (Q() + Comma())), q);
    CountBroken(PlusPlus(), T() + (Q() + Comma()), q);
    CountBroken(T(), Q() + Comma(), q);
    CountBroken(Q(), Comma(), q);
    CountComma(q);
  }

  lemma SplitErrTwo()
    ensures Errs(2) + Comma() == OneT() + (Point4e4() + (Z() + Comma()))
  {
  }

  lemma CountErrTwo(q: State)
    ensures Count(Errs(2) + Comma(), q) == if q == Start then 1 else if q == Invalid then 3 else 0
  {
    hide *;
    SplitErrTwo();
    ShortPiecesBreak();
    CountBroken(OneT(), Point4e4() + (Z() + Comma()), q);
    MiddlePiecesBreak();
    CountBroken(Point4e4(), Z() + Comma(), q);
    CountBroken(Z(), Comma(), q);
    CountComma(q);
  }

  lemma SplitErrThree()
    ensures Errs(3) + Comma() == Point0eMinusT() + (Caret() + Comma())
  {
  }

  lemma CountErrThree(q: State)
    ensures Count(Errs(3) + Comma(), q) == if q == Start then 1 else if q == Invalid then 2 else 0
  {
    hide *;
    SplitErrThree();
    LongPiecesBreak();
    CountBroken(Point0eMinusT(), Caret() + Comma(), q);
    ShortPiecesBreak();
    CountBroken(Caret(), Comma(), q);
    CountComma(q);
  }

  lemma CountPattern(seed: U16, q: State)
    ensures Count(Pattern(seed) + Comma(), q) == Tokens(seed, q)
  {
    var p := Pattern(seed);
    hide KindOf, Choice, Ints, Floats, Scis, Errs, Run, Ends, Count, Breaks;
    PatternNotEnding(seed);
    IntKinds(Choice(seed));
    FloatKinds(Choice(seed));
    SciKinds(Choice(seed));
    match KindOf(seed)
    case IntPattern => CountWhole(p, Int, q);
    case FloatPattern => CountWhole(p, Float, q);
    case SciPattern =>
      if Choice(seed) == 2 {
        CountSciTwo(q);
      } else {
        CountWhole(p, Scientific, q);
      }
    case ErrPattern => CountErr(Choice(seed), q);
  }

  lemma CountErr(i: nat, q: State)
    requires i < 4
    ensures Count(Errs(i) + Comma(), q) == if q == Start then 1 else if q == Invalid then Breaks(i) else 0
  {
    hide Errs, Count;
    if i == 0 {
      CountErrZero(q);
    } else if i == 1 {
      CountErrOne(q);
    } else if i == 2 {
      CountErrTwo(q);
    } else {
      CountErrThree(q);
    }
  }

  // ---- The whole buffer

  // The tokens of the first n patterns.
  function TokensOf(seed: U16, n: nat, q: State): nat {
    if n == 0 then 0 else TokensOf(seed, n - 1, q) + Tokens(Bumped(seed, n), q)
  }

  lemma {:induction false} FilledWhole(seed: U16, n: nat)
    ensures Whole(Filled(seed, n))
  {
    FilledNotZero(seed, n);
    if n > 0 {
      var t := Filled(seed, n);
      assert t[|t| - 1] == 0x2c;
    }
    hide IsZero, Pattern;
  }

  lemma {:induction false} CountFilled(seed: U16, n: nat, q: State)
    ensures Count(Filled(seed, n), q) == TokensOf(seed, n, q)
  {
    hide Count, Pattern, Tokens, Whole;
    if n == 0 {
      CountNothing(q);
    } else {
      var p := Pattern(Bumped(seed, n)) + Comma();
      assert Filled(seed, n) == Filled(seed, n - 1) + p;
      CountFilled(seed, n - 1, q);
      CountPattern(Bumped(seed, n), q);
      FilledWhole(seed, n - 1);
      CountSplit(Filled(seed, n - 1), p, q);
    }
  }

  lemma CountNothing(q: State)
    ensures Count([], q) == 0
  {
  }

  // Scanning the buffer that InitState leaves finds the tokens of its patterns, and nothing else.
  lemma InitialScan(s: seq<U8>, seed: U16, n: nat, size: nat, q: State)
    requires Holds(s, seed, n, size)
    ensures Terminated(s) && Count(s, q) == TokensOf(seed, n, q)
  {
    var t := Filled(seed, n);
    FirstZero(s, seed, n, size);
    FilledWhole(seed, n);
    assert s == t + s[|t|..];
    assert Count(s[|t|..], q) == 0;
    hide Count, Filled, Whole, Terminated;
    CountSplit(t, s[|t|..], q);
    CountFilled(seed, n, q);
  }
}
