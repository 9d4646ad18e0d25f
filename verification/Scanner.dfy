/** The number scanner of the CoreMark benchmark: a state machine over comma-separated tokens, the
    buffer it scans, and the corruption of that buffer and its undoing. */
module Scanner {
  import opened Words

  datatype State = Start | Invalid | S1 | S2 | Int | Float | Exponent | Scientific

  predicate IsDigit(c: U8) { 0x30 <= c <= 0x39 }
  predicate IsSign(c: U8) { c == 0x2b || c == 0x2d }
  predicate IsPoint(c: U8) { c == 0x2e }
  predicate IsExponentMark(c: U8) { c == 0x45 || c == 0x65 }
  predicate IsComma(c: U8) { c == 0x2c }
  predicate IsZero(c: U8) { c == 0 }

  // The symbols, as characters.
  lemma Symbols(c: U8)
    ensures IsDigit(c) <==> '0' <= c as char <= '9'
    ensures IsSign(c) <==> c as char in "+-"
    ensures IsPoint(c) <==> c as char == '.'
    ensures IsExponentMark(c) <==> c as char in "eE"
    ensures IsComma(c) <==> c as char == ','
  {
  }

  lemma SymbolsDiffer(c: U8)
    ensures IsDigit(c) ==> !IsSign(c) && !IsPoint(c) && !IsExponentMark(c)
    ensures IsSign(c) ==> !IsPoint(c) && !IsExponentMark(c)
    ensures IsPoint(c) ==> !IsExponentMark(c)
  {
  }

  // ---- The state machine

  function Next(q: State, c: U8): State {
    match q
    case Start => if IsDigit(c) then Int else if IsSign(c) then S1 else if IsPoint(c) then Float else Invalid
    case S1 => if IsDigit(c) then Int else if IsPoint(c) then Float else Invalid
    case Int => if IsPoint(c) then Float else if IsDigit(c) then Int else Invalid
    case Float => if IsExponentMark(c) then S2 else if IsDigit(c) then Float else Invalid
    case S2 => if IsSign(c) then Exponent else Invalid
    case Exponent => if IsDigit(c) then Scientific else Invalid
    case Scientific => if IsDigit(c) then Scientific else Invalid
    case Invalid => Invalid
  }

  // The transition counters that a symbol raises; one that breaks a scientific number raises the
  // counter of invalid symbols.
  predicate Raises(q: State, c: U8, x: State) {
    match q
    case Start => x == Start || (x == Invalid && Next(q, c) == Invalid)
    case S1 => x == S1
    case Int => x == Int && Next(q, c) != Int
    case Float => x == Float && Next(q, c) != Float
    case S2 => x == S2
    case Exponent => x == Exponent
    case Scientific => x == Invalid && Next(q, c) == Invalid
    case Invalid => false
  }

  // A symbol raises the counter of the state it makes the machine leave, and that of invalid symbols if
  // it is the first of a token or breaks a scientific number.
  lemma RaisesExact(q: State, c: U8, x: State)
    requires q != Invalid
    ensures Raises(q, c, x) <==>
            || (x == q && q != Scientific && Next(q, c) != q)
            || (x == Invalid && (q == Start || q == Scientific) && Next(q, c) == Invalid)
  {
  }

  ghost function Run(q: State, t: seq<U8>): State
    decreases |t|
  {
    if t == [] then q else Run(Next(q, t[0]), t[1..])
  }

  lemma {:induction false} RunAppend(q: State, t: seq<U8>, u: seq<U8>)
    ensures Run(q, t + u) == Run(Run(q, t), u)
    decreases |t|
  {
    hide Next;
    if t == [] {
      assert t + u == u;
    } else {
      RunAppend(Next(q, t[0]), t[1..], u);
      assert (t + u)[1..] == t[1..] + u;
    }
  }

  lemma {:induction false} InvalidStays(t: seq<U8>)
    ensures Run(Invalid, t) == Invalid
    decreases |t|
  {
    if t != [] {
      InvalidStays(t[1..]);
    }
  }

  // ---- The tokens

  predicate Ends(c: U8) { IsComma(c) || IsZero(c) }

  // The text up to the next comma or zero.
  ghost function Token(s: seq<U8>): (t: seq<U8>)
    ensures |t| <= |s| && t == s[..|t|] && (|t| < |s| ==> Ends(s[|t|])) && forall i | 0 <= i < |t| :: !Ends(t[i])
    decreases |s|
  {
    if s == [] || Ends(s[0]) then [] else [s[0]] + Token(s[1..])
  }

  // ---- The languages of the formats

  predicate Digits(t: seq<U8>) { forall i | 0 <= i < |t| :: IsDigit(t[i]) }

  function Unsigned(t: seq<U8>): seq<U8> {
    if t != [] && IsSign(t[0]) then t[1..] else t
  }

  // [+-]? [0-9]+
  predicate IsInt(t: seq<U8>) { Unsigned(t) != [] && Digits(Unsigned(t)) }

  // [0-9]* . [0-9]*, with the point at i
  predicate PointAt(u: seq<U8>, i: nat) {
    i < |u| && IsPoint(u[i]) && Digits(u[..i]) && Digits(u[i + 1..])
  }
  predicate IsFraction(u: seq<U8>) { exists i | 0 <= i < |u| :: PointAt(u, i) }

  // [+-]? [0-9]* . [0-9]*
  predicate IsFloat(t: seq<U8>) { IsFraction(Unsigned(t)) }

  // [+-] [0-9]+
  predicate IsPower(t: seq<U8>) { t != [] && IsSign(t[0]) && t[1..] != [] && Digits(t[1..]) }

  // [+-]? [0-9]* . [0-9]* [eE] [+-] [0-9]+, with the exponent mark at i
  predicate MarkAt(t: seq<U8>, i: nat) {
    i < |t| && IsExponentMark(t[i]) && IsFloat(t[..i]) && IsPower(t[i + 1..])
  }
  predicate IsScientific(t: seq<U8>) { exists i | 0 <= i < |t| :: MarkAt(t, i) }

  // What is left of a scientific number after its sign, and after its point.
  predicate ScaledAt(u: seq<U8>, i: nat) {
    i < |u| && IsExponentMark(u[i]) && IsFraction(u[..i]) && IsPower(u[i + 1..])
  }
  predicate IsScaled(u: seq<U8>) { exists i | 0 <= i < |u| :: ScaledAt(u, i) }

  predicate TailAt(u: seq<U8>, i: nat) {
    i < |u| && IsExponentMark(u[i]) && Digits(u[..i]) && IsPower(u[i + 1..])
  }
  predicate IsTail(u: seq<U8>) { exists i | 0 <= i < |u| :: TailAt(u, i) }

  lemma DigitsPrepend(c: U8, t: seq<U8>)
    ensures Digits([c] + t) <==> IsDigit(c) && Digits(t)
  {
    hide IsDigit;
    assert ([c] + t)[0] == c;
    if Digits([c] + t) {
      forall i | 0 <= i < |t| ensures IsDigit(t[i]) {
        assert ([c] + t)[i + 1] == t[i];
      }
    }
  }

  // What remains to be read, state by state.

  lemma {:induction false} AfterScientific(t: seq<U8>)
    ensures Run(Scientific, t) == Scientific <==> Digits(t)
    ensures Run(Scientific, t) in {Scientific, Invalid}
    decreases |t|
  {
    if t != [] {
      AfterScientific(t[1..]);
      InvalidStays(t[1..]);
      DigitsPrepend(t[0], t[1..]);
      assert t == [t[0]] + t[1..];
      hide IsDigit, Digits;
    }
  }

  lemma AfterMark(t: seq<U8>)
    ensures Run(S2, t) == Scientific <==> IsPower(t)
    ensures Run(S2, t) in {S2, Exponent, Scientific, Invalid}
  {
    hide IsDigit, IsSign, Digits;
    if t != [] {
      InvalidStays(t[1..]);
      var u := t[1..];
      assert Run(S2, t) == Run(Next(S2, t[0]), u);
      if u != [] {
        InvalidStays(u[1..]);
        AfterScientific(u[1..]);
        assert u == [u[0]] + u[1..];
        DigitsPrepend(u[0], u[1..]);
      }
    }
  }

  lemma Shift(c: U8, u: seq<U8>, i: nat)
    requires i < |u|
    ensures var t := [c] + u; t[i + 1] == u[i] && t[..i + 1] == [c] + u[..i] && t[i + 2..] == u[i + 1..]
  {
  }

  lemma TailAtPrepend(c: U8, u: seq<U8>, i: nat)
    requires i <= |u|
    ensures TailAt([c] + u, i) <==> if i == 0 then IsExponentMark(c) && IsPower(u) else IsDigit(c) && TailAt(u, i - 1)
  {
    hide IsDigit, IsExponentMark, IsPower, Digits;
    if i == 0 {
      NoDigits();
      assert ([c] + u)[..0] == [] && ([c] + u)[1..] == u;
    } else {
      Shift(c, u, i - 1);
      DigitsPrepend(c, u[..i - 1]);
    }
  }

  lemma TailPrepend(c: U8, u: seq<U8>)
    ensures IsTail([c] + u) <==> (IsDigit(c) && IsTail(u)) || (IsExponentMark(c) && IsPower(u))
  {
    hide IsDigit, IsExponentMark, IsPower, TailAt;
    forall i | 0 <= i <= |u|
      ensures TailAt([c] + u, i) <==> if i == 0 then IsExponentMark(c) && IsPower(u) else IsDigit(c) && TailAt(u, i - 1)
    {
      TailAtPrepend(c, u, i);
    }
    assert IsDigit(c) && IsTail(u) ==> exists i | 0 < i <= |u| :: TailAt([c] + u, i) by {
      if IsDigit(c) && IsTail(u) {
        var i :| 0 <= i < |u| && TailAt(u, i);
        assert TailAt([c] + u, i + 1);
      }
    }
    assert TailAt([c] + u, 0) ==> IsTail([c] + u);
  }

  lemma NoDigits()
    ensures Digits([])
  {
  }

  lemma {:induction false} AfterPoint(t: seq<U8>)
    ensures Run(Float, t) == Float <==> Digits(t)
    ensures Run(Float, t) == Scientific <==> IsTail(t)
    ensures Run(Float, t) in {Float, S2, Exponent, Scientific, Invalid}
    decreases |t|
  {
    hide IsTail, IsPower, IsDigit, IsExponentMark, Digits;
    if t == [] {
      NoDigits();
      NoTail();
    } else {
      assert t == [t[0]] + t[1..];
      SymbolsDiffer(t[0]);
      DigitsPrepend(t[0], t[1..]);
      TailPrepend(t[0], t[1..]);
      InvalidStays(t[1..]);
      AfterMark(t[1..]);
      AfterPoint(t[1..]);
    }
  }

  lemma NoTail()
    ensures !IsTail([]) && !IsFraction([])
  {
  }

  lemma PointAtPrepend(c: U8, u: seq<U8>, i: nat)
    requires i <= |u|
    ensures PointAt([c] + u, i) <==> if i == 0 then IsPoint(c) && Digits(u) else IsDigit(c) && PointAt(u, i - 1)
  {
    hide IsDigit, IsPoint, Digits;
    if i == 0 {
      NoDigits();
      assert ([c] + u)[..0] == [] && ([c] + u)[1..] == u;
    } else {
      Shift(c, u, i - 1);
      DigitsPrepend(c, u[..i - 1]);
    }
  }

  lemma FractionPrepend(c: U8, u: seq<U8>)
    ensures IsFraction([c] + u) <==> (IsDigit(c) && IsFraction(u)) || (IsPoint(c) && Digits(u))
  {
    hide IsDigit, IsPoint, Digits, PointAt;
    forall i | 0 <= i <= |u|
      ensures PointAt([c] + u, i) <==> if i == 0 then IsPoint(c) && Digits(u) else IsDigit(c) && PointAt(u, i - 1)
    {
      PointAtPrepend(c, u, i);
    }
    assert IsDigit(c) && IsFraction(u) ==> exists i | 0 < i <= |u| :: PointAt([c] + u, i) by {
      if IsDigit(c) && IsFraction(u) {
        var i :| 0 <= i < |u| && PointAt(u, i);
        assert PointAt([c] + u, i + 1);
      }
    }
    assert PointAt([c] + u, 0) ==> IsFraction([c] + u);
  }

  lemma ScaledAtPrepend(c: U8, u: seq<U8>, i: nat)
    requires i <= |u|
    ensures ScaledAt([c] + u, i) <==>
            i > 0 && ((IsDigit(c) && ScaledAt(u, i - 1)) || (IsPoint(c) && TailAt(u, i - 1)))
  {
    hide IsDigit, IsPoint, IsExponentMark, IsFraction, IsPower, Digits;
    if i == 0 {
      NoTail();
      assert ([c] + u)[..0] == [];
    } else {
      Shift(c, u, i - 1);
      FractionPrepend(c, u[..i - 1]);
    }
  }

  lemma ScaledPrepend(c: U8, u: seq<U8>)
    ensures IsScaled([c] + u) <==> (IsDigit(c) && IsScaled(u)) || (IsPoint(c) && IsTail(u))
  {
    hide IsDigit, IsPoint, ScaledAt, TailAt;
    forall i | 0 <= i <= |u|
      ensures ScaledAt([c] + u, i) <==>
              i > 0 && ((IsDigit(c) && ScaledAt(u, i - 1)) || (IsPoint(c) && TailAt(u, i - 1)))
    {
      ScaledAtPrepend(c, u, i);
    }
    if (IsDigit(c) && IsScaled(u)) || (IsPoint(c) && IsTail(u)) {
      var i :| 0 <= i < |u| && ((IsDigit(c) && ScaledAt(u, i)) || (IsPoint(c) && TailAt(u, i)));
      assert ScaledAt([c] + u, i + 1);
    }
  }

  lemma {:induction false} AfterDigits(t: seq<U8>)
    ensures Run(Int, t) == Int <==> Digits(t)
    ensures Run(Int, t) == Float <==> IsFraction(t)
    ensures Run(Int, t) == Scientific <==> IsScaled(t)
    ensures Run(Int, t) !in {Start, S1}
    decreases |t|
  {
    hide IsScaled, IsFraction, IsTail, IsDigit, IsPoint, Digits;
    if t == [] {
      NoDigits();
      NoTail();
      NotScaled();
    } else {
      assert t == [t[0]] + t[1..];
      SymbolsDiffer(t[0]);
      DigitsPrepend(t[0], t[1..]);
      FractionPrepend(t[0], t[1..]);
      ScaledPrepend(t[0], t[1..]);
      InvalidStays(t[1..]);
      AfterPoint(t[1..]);
      AfterDigits(t[1..]);
    }
  }

  lemma NotScaled()
    ensures !IsScaled([])
  {
  }

  // With or without a sign, what follows is read alike, but for the empty text.
  lemma AfterSign(q: State, t: seq<U8>)
    requires q == S1 || (q == Start && (t == [] || !IsSign(t[0])))
    ensures Run(q, t) == Int <==> t != [] && Digits(t)
    ensures Run(q, t) == Float <==> IsFraction(t)
    ensures Run(q, t) == Scientific <==> IsScaled(t)
    ensures Run(q, t) in {Start, S1} <==> t == []
  {
    hide IsScaled, IsFraction, IsTail, IsDigit, IsPoint, IsSign, Digits;
    if t == [] {
      NoTail();
      NotScaled();
    } else {
      assert t == [t[0]] + t[1..];
      SymbolsDiffer(t[0]);
      DigitsPrepend(t[0], t[1..]);
      FractionPrepend(t[0], t[1..]);
      ScaledPrepend(t[0], t[1..]);
      InvalidStays(t[1..]);
      AfterPoint(t[1..]);
      AfterDigits(t[1..]);
    }
  }

  lemma MarkAtSigned(c: U8, u: seq<U8>, i: nat)
    requires IsSign(c) && i <= |u|
    ensures MarkAt([c] + u, i) <==> i > 0 && ScaledAt(u, i - 1)
  {
    SymbolsDiffer(c);
    hide IsDigit, IsPoint, IsSign, IsExponentMark, IsFraction, IsPower;
    if i > 0 {
      Shift(c, u, i - 1);
      assert Unsigned([c] + u[..i - 1]) == u[..i - 1];
    }
  }

  // A sign before a scientific number does not matter.
  lemma ScaledUnsigned(t: seq<U8>)
    ensures IsScientific(t) <==> IsScaled(Unsigned(t))
  {
    hide MarkAt, ScaledAt, IsSign;
    if t != [] && IsSign(t[0]) {
      var u := t[1..];
      assert t == [t[0]] + u;
      forall i | 0 <= i <= |u| ensures MarkAt(t, i) <==> i > 0 && ScaledAt(u, i - 1) {
        MarkAtSigned(t[0], u, i);
      }
      if IsScaled(u) {
        var i :| 0 <= i < |u| && ScaledAt(u, i);
        assert MarkAt(t, i + 1);
      }
    } else {
      forall i | 0 <= i < |t| ensures MarkAt(t, i) <==> ScaledAt(t, i) {
        MarkAtUnsigned(t, i);
      }
    }
  }

  lemma MarkAtUnsigned(t: seq<U8>, i: nat)
    requires i < |t| && !IsSign(t[0])
    ensures MarkAt(t, i) <==> ScaledAt(t, i)
  {
    assert Unsigned(t[..i]) == t[..i];
  }

  // The machine ends in a format's state exactly when the token has that format.
  lemma RecognisesFormats(t: seq<U8>)
    ensures Run(Start, t) == Int <==> IsInt(t)
    ensures Run(Start, t) == Float <==> IsFloat(t)
    ensures Run(Start, t) == Scientific <==> IsScientific(t)
    ensures Run(Start, t) == Start <==> t == []
  {
    hide IsScaled, IsFraction, IsDigit, Digits, IsScientific;
    ScaledUnsigned(t);
    if t != [] && IsSign(t[0]) {
      SymbolsDiffer(t[0]);
      assert Run(Start, t) == Run(S1, t[1..]);
      AfterSign(S1, t[1..]);
    } else {
      AfterSign(Start, t);
    }
    NotStart(t);
  }

  lemma {:induction false} NotStart(t: seq<U8>)
    ensures t != [] ==> Run(Start, t) != Start
  {
    if t != [] {
      NeverStart(Next(Start, t[0]), t[1..]);
    }
  }

  lemma {:induction false} NeverStart(q: State, t: seq<U8>)
    requires q != Start
    ensures Run(q, t) != Start
    decreases |t|
  {
    if t != [] {
      NeverStart(Next(q, t[0]), t[1..]);
    }
  }

  // ---- Scanning one token

  // The final state and the number of bytes consumed, from state q.
  datatype Reading = Reading(state: State, length: nat) {
    function Longer(): Reading { Reading(state, length + 1) }
  }

  ghost function Scanned(q: State, s: seq<U8>): (r: Reading)
    ensures r.length <= |s|
    decreases |s|
  {
    if s == [] || IsZero(s[0]) || q == Invalid then Reading(q, 0)
    else if IsComma(s[0]) then Reading(q, 1)
    else Scanned(Next(q, s[0]), s[1..]).Longer()
  }

  // How often the scan raises a transition counter.
  ghost function Raised(q: State, s: seq<U8>, x: State): nat
    decreases |s|
  {
    if s == [] || IsZero(s[0]) || q == Invalid || IsComma(s[0]) then 0
    else (if Raises(q, s[0], x) then 1 else 0) + Raised(Next(q, s[0]), s[1..], x)
  }

  // The state tells of the whole token; an invalid token is left behind its first byte that makes
  // it invalid, any other one is consumed with the comma that ends it.
  ghost predicate Reads(q: State, s: seq<U8>, r: Reading) {
    var t, state, n := Token(s), r.state, r.length;
    && state == Run(q, t)
    && if q == Invalid then n == 0
       else if state == Invalid then
         1 <= n <= |t| && Run(q, t[..n]) == Invalid && Run(q, t[..n - 1]) != Invalid
       else n == |t| + if |t| < |s| && IsComma(s[|t|]) then 1 else 0
  }

  lemma RunPrepend(q: State, c: U8, t: seq<U8>)
    ensures Run(q, [c] + t) == Run(Next(q, c), t)
  {
    assert ([c] + t)[1..] == t;
    hide Next;
  }

  lemma ReadsStep(q: State, s: seq<U8>, r: Reading)
    requires s != [] && !Ends(s[0]) && q != Invalid && Reads(Next(q, s[0]), s[1..], r)
    ensures Reads(q, s, r.Longer())
  {
    var c, u, state, n := s[0], Token(s[1..]), r.state, r.length;
    assert Token(s) == [c] + u;
    hide Next, Ends, Token, Run;
    RunPrepend(q, c, u);
    if Next(q, c) == Invalid {
      InvalidStays(u);
    }
    assert |u| < |s[1..]| ==> s[1..][|u|] == s[|u| + 1];
    if state == Invalid {
      RunPrepend(q, c, u[..n]);
      assert ([c] + u)[..n + 1] == [c] + u[..n];
      if n == 0 {
        assert Run(q, []) == q by { NothingRead(q); }
        assert Run(Next(q, c), []) == Next(q, c) by { NothingRead(Next(q, c)); }
        assert ([c] + u)[..0] == [];
      } else {
        RunPrepend(q, c, u[..n - 1]);
        assert ([c] + u)[..n] == [c] + u[..n - 1];
      }
    }
  }

  lemma NothingRead(q: State)
    ensures Run(q, []) == q
  {
  }

  lemma {:induction false} ScannedReads(q: State, s: seq<U8>)
    ensures Reads(q, s, Scanned(q, s))
    decreases |s|
  {
    hide Next;
    if q == Invalid || s == [] || Ends(s[0]) {
      InvalidStays(Token(s));
      SymbolsDiffer(0);
      NothingRead(q);
    } else {
      hide Token, Run, Reads;
      ScannedReads(Next(q, s[0]), s[1..]);
      ReadsStep(q, s, Scanned(Next(q, s[0]), s[1..]));
    }
  }

  // One token of a terminated text: which format it has, and that something is consumed.
  lemma TokenScanned(s: seq<U8>)
    requires s != [] && !IsZero(s[0])
    ensures var Reading(state, n) := Scanned(Start, s);
            && (state == Int <==> IsInt(Token(s)))
            && (state == Float <==> IsFloat(Token(s)))
            && (state == Scientific <==> IsScientific(Token(s)))
            && 1 <= n <= |s|
  {
    RecognisesFormats(Token(s));
    ScannedReads(Start, s);
    hide IsInt, IsFloat, IsScientific;
  }

  ghost predicate Terminated(s: seq<U8>) { exists z | 0 <= z < |s| :: IsZero(s[z]) }

  ghost function From(s: seq<U8>, i: nat): seq<U8>
    requires i <= |s|
  {
    s[i..]
  }

  lemma ScannedAt(q: State, s: seq<U8>, i: nat)
    requires i < |s|
    ensures Scanned(q, From(s, i)) ==
            if IsZero(s[i]) || q == Invalid then Reading(q, 0)
            else if IsComma(s[i]) then Reading(q, 1)
            else Scanned(Next(q, s[i]), From(s, i + 1)).Longer()
  {
    assert s[i..][1..] == s[i + 1..];
    hide Next, IsZero, IsComma;
  }

  // What is scanned from `from` is what was scanned up to str, and what is scanned on from there.
  ghost predicate Scanning(s: seq<U8>, from: nat, q: State, str: nat)
    requires from <= str <= |s|
  {
    var rest := Scanned(q, From(s, str));
    Scanned(Start, From(s, from)) == Reading(rest.state, str - from + rest.length)
  }

  ghost predicate ScannedTo(s: seq<U8>, from: nat, q: State, str: nat)
    requires from <= str <= |s|
  {
    Scanned(Start, From(s, from)) == Reading(q, str - from)
  }

  lemma ScanningOn(s: seq<U8>, from: nat, q: State, str: nat)
    requires from <= str < |s| && Scanning(s, from, q, str)
    ensures if IsZero(s[str]) || q == Invalid then ScannedTo(s, from, q, str)
            else if IsComma(s[str]) then ScannedTo(s, from, q, str + 1)
            else Scanning(s, from, Next(q, s[str]), str + 1)
  {
    hide Scanned, From, IsZero, IsComma, Next;
    ScannedAt(q, s, str);
  }

  lemma ScanningStarts(s: seq<U8>, from: nat)
    requires from <= |s|
    ensures Scanning(s, from, Start, from)
  {
  }

  // ---- The transition counters

  type Counts = map<State, nat>

  // Each counter that the symbol raises goes up by one.
  function Ticked(track: Counts, q: State, c: U8): Counts {
    map x | x in track :: track[x] + if Raises(q, c, x) then 1 else 0
  }

  // The counters hold what was raised since `from`, given what is raised on from str.
  ghost predicate Tracking(before: Counts, track: Counts, s: seq<U8>, from: nat, q: State, str: nat)
    requires from <= str <= |s|
  {
    forall x :: x in track && x in before
                && track[x] + Raised(q, From(s, str), x) == before[x] + Raised(Start, From(s, from), x)
  }

  ghost predicate Tracked(before: Counts, track: Counts, s: seq<U8>, from: nat)
    requires from <= |s|
  {
    forall x :: x in track && x in before && track[x] == before[x] + Raised(Start, From(s, from), x)
  }

  lemma RaisedAt(q: State, s: seq<U8>, i: nat, x: State)
    requires i < |s|
    ensures Raised(q, From(s, i), x) ==
            if IsZero(s[i]) || q == Invalid || IsComma(s[i]) then 0
            else (if Raises(q, s[i], x) then 1 else 0) + Raised(Next(q, s[i]), From(s, i + 1), x)
  {
    assert s[i..][1..] == s[i + 1..];
    hide Next, IsZero, IsComma, Raises;
  }

  lemma TrackingStarts(before: Counts, s: seq<U8>, from: nat)
    requires from <= |s| && forall x :: x in before
    ensures Tracking(before, before, s, from, Start, from)
  {
  }

  lemma TrackingOn(before: Counts, track: Counts, s: seq<U8>, from: nat, q: State, str: nat)
    requires from <= str < |s| && Tracking(before, track, s, from, q, str)
    ensures if IsZero(s[str]) || q == Invalid || IsComma(s[str]) then Tracked(before, track, s, from)
            else Tracking(before, Ticked(track, q, s[str]), s, from, Next(q, s[str]), str + 1)
  {
    hide Raised, From, IsZero, IsComma, Next, Raises;
    forall x ensures x in track && x in before
      && track[x] + Raised(q, From(s, str), x) == before[x] + Raised(Start, From(s, from), x)
    {
    }
    if IsZero(s[str]) || q == Invalid || IsComma(s[str]) {
      forall x ensures x in track && x in before && track[x] == before[x] + Raised(Start, From(s, from), x) {
        RaisedAt(q, s, str, x);
      }
    } else {
      var next := Ticked(track, q, s[str]);
      forall x ensures x in next && x in before
        && next[x] + Raised(Next(q, s[str]), From(s, str + 1), x) == before[x] + Raised(Start, From(s, from), x)
      {
        RaisedAt(q, s, str, x);
      }
    }
  }

  // Scans one token of the text s, which is terminated at z.
  method Transition(p: array<U8>, from: nat, before: Counts, ghost s: seq<U8>, ghost z: nat)
    returns (state: State, str: nat, track: Counts)
    requires p[..] == s && from <= z < |s| && IsZero(s[z]) && forall x :: x in before
    ensures from <= str <= z && ScannedTo(s, from, state, str) && Tracked(before, track, s, from)
  {
    TrackingStarts(before, s, from);
    hide *;
    state, str, track := Start, from, before;
    ScanningStarts(s, from);
    while !IsZero(p[str]) && state != Invalid
      invariant from <= str <= z && Scanning(s, from, state, str) && Tracking(before, track, s, from, state, str)
      decreases z - str
    {
      assert p[str] == s[str];
      ScanningOn(s, from, state, str);
      TrackingOn(before, track, s, from, state, str);
      if IsComma(p[str]) {
        str := str + 1;
        return;
      }
      track := Ticked(track, state, p[str]);
      state := Next(state, p[str]);
      str := str + 1;
    }
    assert p[str] == s[str];
    ScanningOn(s, from, state, str);
    TrackingOn(before, track, s, from, state, str);
  }

  // ---- Scanning the whole buffer

  // How many of the tokens up to the terminating zero end in state q.
  ghost function Count(s: seq<U8>, q: State): nat
    decreases |s|
  {
    if s == [] || IsZero(s[0]) then 0
    else
      var r := Scanned(Start, s);
      if r.length == 0 then 0 else (if r.state == q then 1 else 0) + Count(s[r.length..], q)
  }

  ghost predicate CountStep(s: seq<U8>, i: nat, q: State)
    requires i < |s|
  {
    var r := Scanned(Start, From(s, i));
    if IsZero(s[i]) then Count(From(s, i), q) == 0
    else r.length >= 1 && i + r.length <= |s|
         && Count(From(s, i), q) == (if r.state == q then 1 else 0) + Count(From(s, i + r.length), q)
  }

  lemma CountFrom(s: seq<U8>, i: nat, q: State)
    requires i < |s|
    ensures CountStep(s, i, q)
  {
    if !IsZero(s[i]) {
      TokenScanned(s[i..]);
      var n := Scanned(Start, s[i..]).length;
      assert s[i..][n..] == s[i + n..];
    }
    hide Scanned, IsZero;
  }

  lemma CountAt(s: seq<U8>, i: nat)
    requires i < |s|
    ensures forall q :: CountStep(s, i, q)
  {
    hide *;
    forall q ensures CountStep(s, i, q) {
      CountFrom(s, i, q);
    }
  }

  function NoCounts(): map<State, nat> {
    map[Start := 0, Invalid := 0, S1 := 0, S2 := 0, Int := 0, Float := 0, Exponent := 0, Scientific := 0]
  }

  lemma EveryStateCounted(q: State)
    ensures q in NoCounts() && NoCounts()[q] == 0
  {
    match q
    case Start => case Invalid => case S1 => case S2 => case Int => case Float => case Exponent => case Scientific =>
  }

  lemma FromStart(s: seq<U8>)
    ensures From(s, 0) == s
  {
  }

  // How often the scan of all tokens raises a transition counter.
  ghost function RaisedAll(s: seq<U8>, x: State): nat
    decreases |s|
  {
    if s == [] || IsZero(s[0]) then 0
    else
      var r := Scanned(Start, s);
      if r.length == 0 then 0 else Raised(Start, s, x) + RaisedAll(s[r.length..], x)
  }

  lemma RaisedFrom(s: seq<U8>, i: nat, next: nat, state: State, x: State)
    requires i <= next <= |s| && i < |s|
    ensures IsZero(s[i]) ==> RaisedAll(From(s, i), x) == 0
    ensures !IsZero(s[i]) && ScannedTo(s, i, state, next) ==>
              RaisedAll(From(s, i), x) == Raised(Start, From(s, i), x) + RaisedAll(From(s, next), x)
  {
    if !IsZero(s[i]) && ScannedTo(s, i, state, next) {
      TokenScanned(s[i..]);
      assert s[i..][next - i..] == s[next..];
    }
    hide Scanned, Raised, IsZero;
  }

  // The counters hold what has been counted since `before`, given what is left to count.
  ghost predicate Counted(before: Counts, counts: Counts, s: seq<U8>, at: nat)
    requires at <= |s|
  {
    forall q :: q in counts && q in before && counts[q] + Count(From(s, at), q) == before[q] + Count(s, q)
  }

  ghost predicate TrackedUpTo(before: Counts, track: Counts, s: seq<U8>, at: nat)
    requires at <= |s|
  {
    forall x :: x in track && x in before && track[x] + RaisedAll(From(s, at), x) == before[x] + RaisedAll(s, x)
  }

  lemma CountedNone(before: Counts, track: Counts, s: seq<U8>)
    requires forall q :: q in before && q in track
    ensures Counted(before, before, s, 0) && TrackedUpTo(track, track, s, 0)
  {
    FromStart(s);
    hide Count, RaisedAll, From;
  }

  lemma CountedOne(before: Counts, counts: Counts, s: seq<U8>, at: nat, state: State, next: nat)
    requires at <= next <= |s| && at < |s| && !IsZero(s[at]) && Counted(before, counts, s, at) && ScannedTo(s, at, state, next)
    ensures next > at && state in counts && Counted(before, counts[state := counts[state] + 1], s, next)
  {
    hide Count, From, Scanned, IsZero;
    CountAt(s, at);
    assert CountStep(s, at, state);
    forall q ensures q in counts && q in before && CountStep(s, at, q) && counts[q] + Count(From(s, at), q) == before[q] + Count(s, q) {
    }
  }

  lemma TrackedOne(before: Counts, track: Counts, next: Counts, s: seq<U8>, at: nat, state: State, str: nat)
    requires at <= str <= |s| && at < |s| && !IsZero(s[at]) && ScannedTo(s, at, state, str)
    requires TrackedUpTo(before, track, s, at) && Tracked(track, next, s, at)
    ensures TrackedUpTo(before, next, s, str)
  {
    hide RaisedAll, Raised, From, ScannedTo, IsZero;
    forall x ensures x in next && x in before && next[x] + RaisedAll(From(s, str), x) == before[x] + RaisedAll(s, x) {
      RaisedFrom(s, at, str, state, x);
      assert x in track && track[x] + RaisedAll(From(s, at), x) == before[x] + RaisedAll(s, x);
    }
  }

  lemma CountedAll(before: Counts, counts: Counts, s: seq<U8>, at: nat)
    requires at < |s| && IsZero(s[at]) && Counted(before, counts, s, at)
    ensures forall q :: q in counts && counts[q] == before[q] + Count(s, q)
  {
    hide Count, From, Scanned, IsZero;
    CountAt(s, at);
    forall q ensures q in counts && q in before && counts[q] == before[q] + Count(s, q) {
      assert CountStep(s, at, q);
    }
  }

  lemma TrackedAll(before: Counts, track: Counts, s: seq<U8>, at: nat)
    requires at < |s| && IsZero(s[at]) && TrackedUpTo(before, track, s, at)
    ensures forall x :: x in track && track[x] == before[x] + RaisedAll(s, x)
  {
    hide RaisedAll, From, IsZero;
    forall x ensures x in track && x in before && track[x] == before[x] + RaisedAll(s, x) {
      RaisedFrom(s, at, at, Start, x);
    }
  }

  // Scan all tokens, adding to the counters of final states and of transitions.
  method ScanAll(p: array<U8>, finals: Counts, track: Counts) returns (finals': Counts, track': Counts)
    requires Terminated(p[..]) && forall q :: q in finals && q in track
    ensures forall q :: q in finals' && finals'[q] == finals[q] + Count(p[..], q)
    ensures forall q :: q in track' && track'[q] == track[q] + RaisedAll(p[..], q)
  {
    ghost var s := p[..];
    ghost var z :| 0 <= z < |s| && IsZero(s[z]);
    CountedNone(finals, track, s);
    hide *;
    var at := 0;
    finals', track' := finals, track;
    while !IsZero(p[at])
      invariant p[..] == s && at <= z && Counted(finals, finals', s, at) && TrackedUpTo(track, track', s, at)
      decreases z - at
    {
      assert p[at] == s[at];
      EveryCounter(track, track', s, at);
      var fstate, next, raised := Transition(p, at, track', s, z);
      CountedOne(finals, finals', s, at, fstate, next);
      TrackedOne(track, track', raised, s, at, fstate, next);
      finals' := finals'[fstate := finals'[fstate] + 1];
      track', at := raised, next;
    }
    assert p[at] == s[at];
    CountedAll(finals, finals', s, at);
    TrackedAll(track, track', s, at);
  }

  lemma EveryCounter(before: Counts, track: Counts, s: seq<U8>, at: nat)
    requires at <= |s| && TrackedUpTo(before, track, s, at)
    ensures forall x :: x in track
  {
    hide RaisedAll, From;
    forall x ensures x in track {
      assert x in track && track[x] + RaisedAll(From(s, at), x) == before[x] + RaisedAll(s, x);
    }
  }

  // The counter of the start state counts the tokens that are not empty.
  lemma StartCounts(s: seq<U8>)
    ensures Raised(Start, s, Start) == if Scanned(Start, s).state == Start then 0 else 1
  {
    if s != [] && !IsZero(s[0]) && !IsComma(s[0]) {
      NoMoreStart(Next(Start, s[0]), s[1..]);
    }
    hide IsZero, IsComma;
  }

  lemma {:induction false} NoMoreStart(q: State, s: seq<U8>)
    requires q != Start
    ensures Raised(q, s, Start) == 0 && Scanned(q, s).state != Start
    decreases |s|
  {
    if s != [] && !IsZero(s[0]) && !IsComma(s[0]) && q != Invalid {
      NoMoreStart(Next(q, s[0]), s[1..]);
    }
    hide IsZero, IsComma;
  }

  ghost function TokenCount(s: seq<U8>): nat
    decreases |s|
  {
    if s == [] || IsZero(s[0]) then 0
    else
      var n := Scanned(Start, s).length;
      if n == 0 then 0 else 1 + TokenCount(s[n..])
  }

  // Every token is empty, or raises the counter of the start state once.
  lemma {:induction false} TokensConserved(s: seq<U8>)
    ensures RaisedAll(s, Start) + Count(s, Start) == TokenCount(s)
    decreases |s|
  {
    if s != [] && !IsZero(s[0]) {
      StartCounts(s);
      TokenScanned(s);
      hide Scanned, Raised, IsZero;
      TokensConserved(s[Scanned(Start, s).length..]);
    }
  }

  // ---- Corruption

  // The exclusive-or of the lowest n bits.
  function XorBits(a: nat, b: nat, n: nat): nat {
    if n == 0 then 0 else (if a % 2 != b % 2 then 1 else 0) + 2 * XorBits(a / 2, b / 2, n - 1)
  }

  function Power2(n: nat): (p: nat)
    ensures p > 0
  {
    if n == 0 then 1 else 2 * Power2(n - 1)
  }

  lemma {:induction false} XorBelow(a: nat, b: nat, n: nat)
    ensures XorBits(a, b, n) < Power2(n)
  {
    if n > 0 {
      XorBelow(a / 2, b / 2, n - 1);
    }
  }

  lemma XorDigits(a: nat, b: nat, n: nat)
    requires n > 0
    ensures XorBits(a, b, n) / 2 == XorBits(a / 2, b / 2, n - 1)
    ensures XorBits(a, b, n) % 2 == if a % 2 != b % 2 then 1 else 0
  {
  }

  lemma HalfEqual(a: nat, b: nat)
    ensures a == b <==> a / 2 == b / 2 && a % 2 == b % 2
  {
  }

  // A second exclusive-or undoes the first exactly if it is with the same number.
  lemma {:induction false} XorBack(a: nat, b: nat, c: nat, n: nat)
    requires a < Power2(n) && b < Power2(n) && c < Power2(n)
    ensures XorBits(XorBits(a, b, n), c, n) == a <==> b == c
  {
    if n > 0 {
      hide XorBits;
      var x := XorBits(a, b, n);
      XorDigits(a, b, n);
      XorDigits(x, c, n);
      HalfEqual(XorBits(x, c, n), a);
      HalfEqual(b, c);
      XorBack(a / 2, b / 2, c / 2, n - 1);
    }
  }

  lemma EightBits()
    ensures Power2(8) == 0x100
  {
    assert Power2(4) == 16 by {
      assert Power2(2) == 4;
    }
    assert Power2(6) == 4 * Power2(4);
  }

  function Xor(a: U8, b: U8): U8 {
    EightBits();
    XorBelow(a, b, 8);
    XorBits(a, b, 8)
  }

  lemma {:induction false} XorBitsZero(a: nat, b: nat, n: nat)
    requires a < Power2(n) && b < Power2(n)
    ensures XorBits(a, b, n) == 0 <==> a == b
  {
    if n > 0 {
      XorBitsZero(a / 2, b / 2, n - 1);
    }
  }

  lemma XorZero(a: U8, b: U8)
    ensures Xor(a, b) == 0 <==> a == b
  {
    EightBits();
    XorBitsZero(a, b, 8);
    hide XorBits, Power2;
  }

  // Digit by digit, it is one where the digits differ.
  lemma {:induction false} XorBitAt(a: nat, b: nat, n: nat, k: nat)
    requires k < n
    ensures Digit(XorBits(a, b, n), k) == 1 <==> Digit(a, k) != Digit(b, k)
    decreases n
  {
    XorDigits(a, b, n);
    hide XorBits;
    if k > 0 {
      XorBitAt(a / 2, b / 2, n - 1, k - 1);
    }
  }

  function Digit(a: nat, k: nat): nat { if k == 0 then a % 2 else Digit(a / 2, k - 1) }

  lemma XorExact(a: U8, b: U8, k: nat)
    requires k < 8
    ensures Digit(Xor(a, b), k) == 1 <==> Digit(a, k) != Digit(b, k)
  {
    XorBitAt(a, b, 8, k);
    hide XorBits, Digit;
  }

  function Flipped(b: U8, seed: U8): U8 { if IsComma(b) then b else Xor(b, seed) }

  function Corrupted(s: seq<U8>, step: nat, seed: U8): (r: seq<U8>)
    requires step > 0
    ensures |r| == |s|
  {
    seq(|s|, i requires 0 <= i < |s| => if i % step == 0 then Flipped(s[i], seed) else s[i])
  }

  lemma FlippedBack(b: U8, seed1: U8, seed2: U8)
    ensures Flipped(Flipped(b, seed1), seed2) == b <==> IsComma(b) || (seed1 == seed2 && !IsComma(Xor(b, seed1)))
  {
    EightBits();
    XorBack(b, seed1, seed2, 8);
    hide XorBits, Power2;
  }

  // The second pass undoes the first exactly when the seeds agree and no byte was turned into a
  // comma; commas themselves are never touched.
  lemma CorruptionUndone(s: seq<U8>, step: nat, seed1: U8, seed2: U8)
    requires step > 0
    ensures Corrupted(Corrupted(s, step, seed1), step, seed2) == s <==>
            forall i | 0 <= i < |s| && i % step == 0 && !IsComma(s[i]) :: seed1 == seed2 && !IsComma(Xor(s[i], seed1))
  {
    var t := Corrupted(Corrupted(s, step, seed1), step, seed2);
    forall i | 0 <= i < |s| && i % step == 0 ensures t[i] == Flipped(Flipped(s[i], seed1), seed2) {
    }
    forall i | 0 <= i < |s| && i % step == 0
      ensures t[i] == s[i] <==> IsComma(s[i]) || (seed1 == seed2 && !IsComma(Xor(s[i], seed1)))
    {
      FlippedBack(s[i], seed1, seed2);
    }
    hide IsComma, Flipped;
  }

  method Corrupt(p: array<U8>, step: nat, seed: U8)
    requires step > 0
    modifies p
    ensures p[..] == Corrupted(old(p[..]), step, seed)
  {
    hide IsComma;
    var at, k := 0, 0;
    while at < p.Length
      invariant at == k * step
      invariant forall i | 0 <= i < p.Length :: p[i] == if i < at && i % step == 0 then Flipped(old(p[i]), seed) else old(p[i])
      decreases p.Length - at
    {
      StepOver(k, step, p.Length);
      if !IsComma(p[at]) {
        p[at] := Xor(p[at], seed);
      }
      at := at + step;
      k := k + 1;
    }
  }

  lemma StepOver(k: nat, step: nat, n: nat)
    requires step > 0
    ensures (k * step) % step == 0 && (k + 1) * step == k * step + step
    ensures forall i | k * step < i < (k + 1) * step :: i % step != 0
  {
    forall i | k * step < i < (k + 1) * step ensures i % step != 0 {
      RemainderUnique(k, step, i - k * step);
    }
    RemainderUnique(k, step, 0);
  }
}
