/** Addition, subtraction and multiply-accumulate of 32-bit registers: their results, flags and
    range exceptions, chains of additions over several words, and runs of the MAC unit. */
module Arith {
  import opened Words

  function Signed(x: U32): int { if x >= 0x8000_0000 then x - TWO32 else x }

  function SignedLong(x: U64): int { if x >= 0x8000_0000_0000_0000 then x - TWO64 else x }

  function Bit(b: bool): nat { if b then 1 else 0 }

  // ---- What the handlers compute

  datatype Sum = Sum(result: U32, carry: bool, overflow: bool)

  // Operands of one sign give a result of the other.
  predicate SignsClash(src1: U32, src2: U32, r: U32) {
    var s1, s2, s := Signed(src1), Signed(src2), Signed(r);
    (s1 < 0 && s2 < 0 && s >= 0) || (s1 >= 0 && s2 >= 0 && s < 0)
  }

  // A carry is seen when the result is below the first operand.
  function Added(src1: U32, src2: U32, cin: bool): Sum {
    var r := Wrap32(src1 + src2 + Bit(cin));
    Sum(r, r < src1, SignsClash(src1, src2, r))
  }

  function Subtracted(src1: U32, src2: U32): Sum {
    var r := Wrap32(src1 - src2);
    var s1, s2, s := Signed(src1), Signed(src2), Signed(r);
    Sum(r, src2 > src1, (s1 < 0 && s2 >= 0 && s >= 0) || (s1 >= 0 && s2 < 0 && s < 0))
  }

  predicate InRange(v: int) { -0x8000_0000 <= v < 0x8000_0000 }

  // The carry, as the code computes it, is lost when one is added to 0xffffffff.
  predicate Loses(src2: U32, cin: bool) { cin && src2 == 0xffff_ffff }

  lemma AdditionExact(src1: U32, src2: U32, cin: bool)
    ensures var s := Added(src1, src2, cin);
            && (s.result + TWO32 * Bit(s.carry) == src1 + src2 + Bit(cin) <==> !Loses(src2, cin))
            && s.result + TWO32 * (Bit(s.carry) + Bit(Loses(src2, cin))) == src1 + src2 + Bit(cin)
            && (s.overflow <==> !InRange(Signed(src1) + Signed(src2) + Bit(cin)))
            && (!s.overflow ==> Signed(s.result) == Signed(src1) + Signed(src2) + Bit(cin))
  {
  }

  lemma SubtractionExact(src1: U32, src2: U32)
    ensures var s := Subtracted(src1, src2);
            && s.result - TWO32 * Bit(s.carry) == src1 - src2
            && (s.overflow <==> !InRange(Signed(src1) - Signed(src2)))
            && (!s.overflow ==> Signed(s.result) == Signed(src1) - Signed(src2))
  {
  }

  lemma WrapOnce(x: int)
    ensures Wrap32(Wrap32(x) + 1) == Wrap32(x + 1)
  {
  }

  // ---- Chains of additions

  datatype Chained = Chained(limbs: seq<U32>, carry: bool)

  // l.add on the lowest words and l.addc on all further ones: with no carry into it, l.addc is l.add.
  function AddLimbs(a: seq<U32>, b: seq<U32>, cin: bool): (c: Chained)
    requires |a| == |b|
    ensures |c.limbs| == |a|
    decreases |a|
  {
    if a == [] then Chained([], cin)
    else
      var s := Added(a[0], b[0], cin);
      var rest := AddLimbs(a[1..], b[1..], s.carry);
      Chained([s.result] + rest.limbs, rest.carry)
  }

  // Some step of the chain adds a carry to 0xffffffff.
  predicate SomeLoss(a: seq<U32>, b: seq<U32>, cin: bool)
    requires |a| == |b|
    decreases |a|
  {
    a != [] && (Loses(b[0], cin) || SomeLoss(a[1..], b[1..], Added(a[0], b[0], cin).carry))
  }

  function Number(limbs: seq<U32>): nat {
    if limbs == [] then 0 else limbs[0] + TWO32 * Number(limbs[1..])
  }

  function Weight(n: nat): (w: nat)
    ensures w > 0
  {
    if n == 0 then 1 else TWO32 * Weight(n - 1)
  }

  // The number the result falls short of the sum: the lost carries, each with its weight.
  function Lost(a: seq<U32>, b: seq<U32>, cin: bool): (d: nat)
    requires |a| == |b|
    ensures d > 0 <==> SomeLoss(a, b, cin)
    decreases |a|
  {
    if a == [] then 0
    else TWO32 * (Bit(Loses(b[0], cin)) + Lost(a[1..], b[1..], Added(a[0], b[0], cin).carry))
  }

  function Total(c: Chained): nat { Number(c.limbs) + Weight(|c.limbs|) * Bit(c.carry) }

  lemma TotalPrepend(x: U32, c: Chained)
    ensures Total(Chained([x] + c.limbs, c.carry)) == x + TWO32 * Total(c)
  {
    assert ([x] + c.limbs)[1..] == c.limbs;
    assert TWO32 * (Weight(|c.limbs|) * Bit(c.carry)) == Weight(|c.limbs| + 1) * Bit(c.carry);
  }

  lemma {:induction false} ChainFallsShort(a: seq<U32>, b: seq<U32>, cin: bool)
    requires |a| == |b|
    ensures Total(AddLimbs(a, b, cin)) + Lost(a, b, cin) == Number(a) + Number(b) + Bit(cin)
    decreases |a|
  {
    if a != [] {
      var s := Added(a[0], b[0], cin);
      var rest := AddLimbs(a[1..], b[1..], s.carry);
      AdditionExact(a[0], b[0], cin);
      ChainFallsShort(a[1..], b[1..], s.carry);
      TotalPrepend(s.result, rest);
      hide Added, Total, Weight, Loses;
    }
  }

  // There is a carry out of the lowest i words, by their numbers.
  predicate CarryInto(a: seq<U32>, b: seq<U32>, cin: bool, i: nat)
    requires i <= |a| == |b|
  {
    Number(a[..i]) + Number(b[..i]) + Bit(cin) >= Weight(i)
  }

  // A carry meets 0xffffffff in the word i of the second number.
  predicate CarryMeets(a: seq<U32>, b: seq<U32>, cin: bool, i: nat)
    requires i < |a| == |b|
  {
    b[i] == 0xffff_ffff && CarryInto(a, b, cin, i)
  }

  lemma ExceedsByWords(r: U32, x: nat, w: nat)
    ensures r + TWO32 * x >= TWO32 * w <==> x >= w
  {
  }

  lemma CarryIntoLater(a: seq<U32>, b: seq<U32>, cin: bool, i: nat)
    requires i + 1 <= |a| == |b| && !Loses(b[0], cin)
    ensures CarryInto(a, b, cin, i + 1) <==> CarryInto(a[1..], b[1..], Added(a[0], b[0], cin).carry, i)
  {
    var s := Added(a[0], b[0], cin);
    AdditionExact(a[0], b[0], cin);
    assert a[..i + 1][1..] == a[1..][..i] && b[..i + 1][1..] == b[1..][..i];
    assert Number(a[..i + 1]) == a[0] + TWO32 * Number(a[1..][..i]);
    assert Number(b[..i + 1]) == b[0] + TWO32 * Number(b[1..][..i]);
    ExceedsByWords(s.result, Number(a[1..][..i]) + Number(b[1..][..i]) + Bit(s.carry), Weight(i));
    hide Added, Number, Loses;
  }

  // A loss by the code's own carries is a loss by the true ones: they agree up to the first.
  lemma {:induction false} LossIsCarryMeets(a: seq<U32>, b: seq<U32>, cin: bool)
    requires |a| == |b|
    ensures SomeLoss(a, b, cin) <==> exists i | 0 <= i < |a| :: CarryMeets(a, b, cin, i)
    decreases |a|
  {
    if a != [] {
      assert CarryMeets(a, b, cin, 0) <==> Loses(b[0], cin);
      if !Loses(b[0], cin) {
        var carry := Added(a[0], b[0], cin).carry;
        hide Added, CarryInto;
        LossIsCarryMeets(a[1..], b[1..], carry);
        forall i | 0 <= i < |a| - 1 ensures CarryMeets(a, b, cin, i + 1) <==> CarryMeets(a[1..], b[1..], carry, i) {
          CarryIntoLater(a, b, cin, i);
        }
        hide CarryMeets;
        if i :| 0 <= i < |a| && CarryMeets(a, b, cin, i) {
          assert CarryMeets(a[1..], b[1..], carry, i - 1);
        }
        if i :| 0 <= i < |a| - 1 && CarryMeets(a[1..], b[1..], carry, i) {
          assert CarryMeets(a, b, cin, i + 1);
        }
      }
    }
  }

  // The chain gives the exact sum and carry exactly when no carry meets 0xffffffff.
  lemma ChainExact(a: seq<U32>, b: seq<U32>)
    requires |a| == |b|
    ensures Total(AddLimbs(a, b, false)) == Number(a) + Number(b) <==>
            !exists i | 0 <= i < |a| :: CarryMeets(a, b, false, i)
  {
    ChainFallsShort(a, b, false);
    LossIsCarryMeets(a, b, false);
    hide CarryMeets, SomeLoss, Total;
  }

  lemma OneLimb(x: U32)
    ensures Number([x]) == x && Weight(1) == TWO32
  {
    assert [x][1..] == [];
    assert Number([x]) == x + TWO32 * Number([]);
    assert Weight(1) == TWO32 * Weight(0);
  }

  // Two words suffice: 1:1 plus 0xffffffff:0xffffffff is not the sum.
  lemma CarryLost()
    ensures var a, b := [1, 1], [0xffff_ffff, 0xffff_ffff];
            Total(AddLimbs(a, b, false)) != Number(a) + Number(b)
  {
    var a, b := [1, 1], [0xffff_ffff, 0xffff_ffff];
    OneLimb(1);
    OneLimb(0xffff_ffff);
    assert a[..1] == [1] && b[..1] == [0xffff_ffff];
    assert CarryMeets(a, b, false, 1);
    hide Total, AddLimbs, Number, CarryMeets;
    ChainExact(a, b);
  }

  // ---- The MAC unit

  datatype MacOp = Mac(src1: U32, src2: U32) | Macu(src1: U32, src2: U32) | Msb(src1: U32, src2: U32) | Msbu(src1: U32, src2: U32) {
    // What the operation adds: a product of signed or unsigned numbers, or its negative.
    function Term(): int {
      match this
      case Mac(a, b) => Signed(a) * Signed(b)
      case Macu(a, b) => a * b
      case Msb(a, b) => -(Signed(a) * Signed(b))
      case Msbu(a, b) => -(a * b)
    }
  }

  datatype Accumulator = Accumulator(hi: U32, lo: U32) {
    function Long(): U64 { hi * TWO32 + lo }
  }

  function Wrap64(x: int): U64 { x % TWO64 }

  function Split(x: U64): Accumulator { Accumulator(x / TWO32, x % TWO32) }

  // hi and lo make up a 64-bit number; the product is added to it or subtracted from it.
  function Accumulated(m: Accumulator, op: MacOp): Accumulator { Split(Wrap64(m.Long() + op.Term())) }

  // The number that a word stands for as a signed one.
  lemma SignedExact(x: U32)
    ensures -0x8000_0000 <= Signed(x) < 0x8000_0000 && (Signed(x) - x) % 0x1_0000_0000 == 0
  {
  }

  lemma SignedLongExact(x: U64)
    ensures -0x8000_0000_0000_0000 <= SignedLong(x) < 0x8000_0000_0000_0000
    ensures (SignedLong(x) - x) % 0x1_0000_0000_0000_0000 == 0
  {
  }

  // The accumulator holds x, modulo 2^64.
  predicate Holds(m: Accumulator, x: int) { m.hi * 0x1_0000_0000 + m.lo == x % 0x1_0000_0000_0000_0000 }

  lemma AccumulatedHolds(m: Accumulator, op: MacOp)
    ensures Holds(Accumulated(m, op), m.hi * 0x1_0000_0000 + m.lo + op.Term())
  {
    SplitLong(Wrap64(m.Long() + op.Term()));
    hide MacOp.Term;
  }

  // Written out for each operation: the signed and the unsigned products are added and subtracted.
  lemma AccumulateExact(m: Accumulator, a: U32, b: U32)
    ensures Holds(Accumulated(m, Mac(a, b)), m.hi * 0x1_0000_0000 + m.lo + Signed(a) * Signed(b))
    ensures Holds(Accumulated(m, Macu(a, b)), m.hi * 0x1_0000_0000 + m.lo + a * b)
    ensures Holds(Accumulated(m, Msb(a, b)), m.hi * 0x1_0000_0000 + m.lo - Signed(a) * Signed(b))
    ensures Holds(Accumulated(m, Msbu(a, b)), m.hi * 0x1_0000_0000 + m.lo - a * b)
  {
    AccumulatedHolds(m, Mac(a, b));
    AccumulatedHolds(m, Macu(a, b));
    AccumulatedHolds(m, Msb(a, b));
    AccumulatedHolds(m, Msbu(a, b));
    hide Holds, Signed, Accumulated;
  }

  // Subtracting undoes adding.
  lemma SubtractionUndoes(m: Accumulator, a: U32, b: U32)
    ensures Accumulated(Accumulated(m, Mac(a, b)), Msb(a, b)) == m
    ensures Accumulated(Accumulated(m, Macu(a, b)), Msbu(a, b)) == m
  {
    Undoes(m, Mac(a, b), Msb(a, b));
    Undoes(m, Macu(a, b), Msbu(a, b));
    hide Accumulated, Signed;
  }

  lemma Undoes(m: Accumulator, op: MacOp, back: MacOp)
    requires back.Term() == -op.Term()
    ensures Accumulated(Accumulated(m, op), back) == m
  {
    var x := m.Long() + op.Term();
    SplitLong(Wrap64(x));
    Wraps(x, back.Term());
    assert Wrap64(m.Long()) == m.Long();
    assert Split(m.Long()) == m;
    hide MacOp.Term, Split, Wrap64, Accumulator.Long;
  }

  function AccumulatedAll(m: Accumulator, ops: seq<MacOp>): Accumulator
    decreases |ops|
  {
    if ops == [] then m else AccumulatedAll(Accumulated(m, ops[0]), ops[1..])
  }

  function Terms(ops: seq<MacOp>): int {
    if ops == [] then 0 else ops[0].Term() + Terms(ops[1..])
  }

  lemma Wraps(x: int, y: int)
    ensures Wrap64(Wrap64(x) + y) == Wrap64(x + y)
  {
  }

  lemma SplitLong(x: U64)
    ensures Split(x).Long() == x
  {
  }

  // Any run of the MAC unit leaves the sum of the products, modulo 2^64.
  lemma {:induction false} MacSumsProducts(m: Accumulator, ops: seq<MacOp>)
    ensures AccumulatedAll(m, ops).Long() == Wrap64(m.Long() + Terms(ops))
    decreases |ops|
  {
    if ops != [] {
      var x, m' := m.Long() + ops[0].Term(), Accumulated(m, ops[0]);
      assert AccumulatedAll(m, ops) == AccumulatedAll(m', ops[1..]) && m' == Split(Wrap64(x));
      assert Terms(ops) == ops[0].Term() + Terms(ops[1..]);
      hide Split, Accumulator.Long, MacOp.Term, Wrap64, AccumulatedAll, Terms;
      MacSumsProducts(m', ops[1..]);
      SplitLong(Wrap64(x));
      Wraps(x, Terms(ops[1..]));
    }
  }

  // If the true sum fits, it is what the accumulator holds.
  lemma MacExact(m: Accumulator, ops: seq<MacOp>)
    ensures SignedLong(AccumulatedAll(m, ops).Long()) == SignedLong(m.Long()) + Terms(ops) <==>
            -0x8000_0000_0000_0000 <= SignedLong(m.Long()) + Terms(ops) < 0x8000_0000_0000_0000
  {
    MacSumsProducts(m, ops);
    hide AccumulatedAll, Terms, Accumulator.Long;
  }

  // ---- The handlers

  datatype Cause = CarryAdd | OverflowAdd | CarryMac | OverflowMac

  /** The flags, the exception configuration and the accumulator that the handlers update.
      `raised` counts the range exceptions. */
  class Alu {
    var carry: bool
    var overflow: bool
    var ove: bool
    var aecr: set<Cause>
    var aesr: set<Cause>
    var mac: Accumulator
    var raised: nat

    constructor ()
      ensures !carry && !overflow && !ove && aecr == {} && aesr == {} && raised == 0
      ensures mac == Accumulator(0, 0)
    {
      carry, overflow, ove, aecr, aesr, raised := false, false, false, {}, {}, 0;
      mac := Accumulator(0, 0);
    }

    method RaiseIfEnabled(c: Cause)
      modifies this`aesr, this`raised
      ensures aesr == if ove && c in aecr then old(aesr) + {c} else old(aesr)
      ensures raised == old(raised) + Bit(ove && c in aecr)
    {
      if ove && c in aecr {
        aesr := aesr + {c};
        raised := raised + 1;
      }
    }

    // l.add: a range exception for a signed overflow only.
    method Add(src1: U32, src2: U32) returns (dest: U32)
      modifies this`carry, this`overflow, this`aesr, this`raised
      ensures Sum(dest, carry, overflow) == Added(src1, src2, false)
      ensures raised == old(raised) + Bit(overflow && ove && OverflowAdd in aecr)
      ensures aesr == old(aesr) + if overflow && ove && OverflowAdd in aecr then {OverflowAdd} else {}
    {
      dest := Wrap32(src1 + src2);
      carry, overflow := false, false;
      if dest < src1 {
        carry := true;
      }
      if SignsClash(src1, src2, dest) {
        overflow := true;
        RaiseIfEnabled(OverflowAdd);
      }
    }

    // l.addc: one range exception for the carry, and one for the overflow.
    method Addc(src1: U32, src2: U32) returns (dest: U32)
      modifies this`carry, this`overflow, this`aesr, this`raised
      ensures Sum(dest, carry, overflow) == Added(src1, src2, old(carry))
      ensures raised == old(raised) + Bit(carry && ove && CarryAdd in aecr) + Bit(overflow && ove && OverflowAdd in aecr)
      ensures aesr == old(aesr) + (if carry && ove && CarryAdd in aecr then {CarryAdd} else {})
                      + if overflow && ove && OverflowAdd in aecr then {OverflowAdd} else {}
    {
      dest := Wrap32(src1 + src2);
      if carry {
        dest := Wrap32(dest + 1);
      }
      WrapOnce(src1 + src2);
      hide Wrap32, SignsClash;
      assert dest == Wrap32(src1 + src2 + Bit(carry));
      carry, overflow := false, false;
      if dest < src1 {
        carry := true;
        RaiseIfEnabled(CarryAdd);
      }
      if SignsClash(src1, src2, dest) {
        overflow := true;
        RaiseIfEnabled(OverflowAdd);
      }
    }

    method Sub(src1: U32, src2: U32) returns (dest: U32)
      modifies this`carry, this`overflow, this`aesr, this`raised
      ensures Sum(dest, carry, overflow) == Subtracted(src1, src2)
      ensures raised == old(raised) + Bit(carry && ove && CarryAdd in aecr) + Bit(overflow && ove && OverflowAdd in aecr)
      ensures aesr == old(aesr) + (if carry && ove && CarryAdd in aecr then {CarryAdd} else {})
                      + if overflow && ove && OverflowAdd in aecr then {OverflowAdd} else {}
    {
      dest := Wrap32(src1 - src2);
      carry, overflow := false, false;
      if src2 > src1 {
        carry := true;
        RaiseIfEnabled(CarryAdd);
      }
      var s1, s2, s := Signed(src1), Signed(src2), Signed(dest);
      if (s1 < 0 && s2 >= 0 && s >= 0) || (s1 >= 0 && s2 < 0 && s < 0) {
        overflow := true;
        RaiseIfEnabled(OverflowAdd);
      }
    }

    // l.mac, l.macu, l.msb and l.msbu: the signed ones report that the whole accumulator is out of
    // the range of a signed word as overflow, the unsigned ones that it is above a word as carry.
    method Accumulate(op: MacOp)
      modifies this`mac, this`carry, this`overflow, this`aesr, this`raised
      ensures mac == Accumulated(old(mac), op)
      ensures if op.Mac? || op.Msb? then overflow == !InRange(SignedLong(mac.Long())) && carry == old(carry)
              else carry == (mac.hi != 0) && overflow == old(overflow)
      ensures var c := if op.Mac? || op.Msb? then OverflowMac else CarryMac;
              var out := if op.Mac? || op.Msb? then overflow else carry;
              && raised == old(raised) + Bit(out && ove && c in aecr)
              && aesr == old(aesr) + if out && ove && c in aecr then {c} else {}
    {
      var result := Wrap64(mac.Long() + op.Term());
      SplitLong(result);
      mac := Split(result);
      hide MacOp.Term;
      if op.Mac? || op.Msb? {
        overflow := false;
        if SignedLong(result) > 0x7fff_ffff || SignedLong(result) < -0x8000_0000 {
          overflow := true;
          RaiseIfEnabled(OverflowMac);
        }
      } else {
        carry := false;
        if result > 0xffff_ffff {
          carry := true;
          RaiseIfEnabled(CarryMac);
        }
      }
    }
  }
}
