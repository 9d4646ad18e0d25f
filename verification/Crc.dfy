/** Polynomials over the two-element field, as their coefficients from the highest down, and their
    division by x^16 + x^15 + x^2 + 1. */
module Polynomials {
  type Poly = seq<bool>

  function Zeros(n: nat): (r: Poly)
    ensures |r| == n && forall i | 0 <= i < n :: !r[i]
  {
    seq(n, i => false)
  }

  function Sum(p: Poly, q: Poly): (r: Poly)
    requires |p| == |q|
    ensures |r| == |p| && forall i | 0 <= i < |r| :: r[i] == (p[i] != q[i])
  {
    seq(|p|, i requires 0 <= i < |p| => p[i] != q[i])
  }

  // The sum of p and h, aligned at their highest coefficients.
  function SumHead(p: Poly, h: Poly): (r: Poly)
    requires |h| <= |p|
    ensures |r| == |p| && forall i | 0 <= i < |r| :: r[i] == if i < |h| then p[i] != h[i] else p[i]
  {
    seq(|p|, i requires 0 <= i < |p| => if i < |h| then p[i] != h[i] else p[i])
  }

  // x^16 + x^15 + x^2 + 1
  function Generator(): (r: Poly)
    ensures |r| == 17
  {
    [true, true, false, false, false, false, false, false, false, false, false, false, false, false, true, false, true]
  }

  // The generator, or nothing.
  function Times(b: bool): (r: Poly)
    ensures |r| == 17 && r[0] == b
  {
    if b then Generator() else Zeros(17)
  }

  // The product of q and the generator.
  function Product(q: Poly): (r: Poly)
    ensures |r| == |q| + 16
  {
    if q == [] then Zeros(16) else SumHead([false] + Product(q[1..]), Times(q[0]))
  }

  // One step of the long division takes away the highest coefficient.
  function Reduced(p: Poly): (r: Poly)
    requires |p| >= 17
    ensures |r| == |p| - 1
  {
    SumHead(p, Times(p[0]))[1..]
  }

  function Remainder(p: Poly): (r: Poly)
    requires |p| >= 16
    ensures |r| == 16
    decreases |p|
  {
    if |p| == 16 then p else Remainder(Reduced(p))
  }

  function Quotient(p: Poly): (q: Poly)
    requires |p| >= 16
    ensures |q| == |p| - 16
    decreases |p|
  {
    if |p| == 16 then [] else [p[0]] + Quotient(Reduced(p))
  }

  ghost predicate Divides(p: Poly, q: Poly, r: Poly) {
    |r| == 16 && |p| == |q| + 16 && p == Sum(Product(q), Zeros(|q|) + r)
  }

  lemma DividesStep(p: Poly, q: Poly, r: Poly)
    requires |r| == 16 && |p| == |q| + 16 && q != []
    ensures Divides(p, q, r) <==> p[0] == q[0] && Divides(Reduced(p), q[1..], r)
  {
    hide Generator;
    var t, m, m' := Times(q[0]), Product(q), Product(q[1..]);
    var low, low' := Zeros(|q|) + r, Zeros(|q| - 1) + r;
    assert forall i | 1 <= i < |p| :: low[i] == low'[i - 1];
    assert m == SumHead([false] + m', t);
    assert forall i | 1 <= i < |p| :: m[i] == if i < 17 then m'[i - 1] != t[i] else m'[i - 1];
    assert m[0] == q[0] && !low[0];
    if p[0] == q[0] {
      var d := Reduced(p);
      assert forall i | 1 <= i < |p| :: d[i - 1] == if i < 17 then p[i] != t[i] else p[i];
      hide Times, Product, Reduced, Zeros;
      if Divides(p, q, r) {
        assert forall i | 1 <= i < |p| :: p[i] == (m[i] != low[i]);
        assert forall i | 0 <= i < |d| :: d[i] == (m'[i] != low'[i]) by {
          forall i | 0 <= i < |d| ensures d[i] == (m'[i] != low'[i]) {
            assert d[(i + 1) - 1] == if i + 1 < 17 then p[i + 1] != t[i + 1] else p[i + 1];
            assert low[i + 1] == low'[(i + 1) - 1];
          }
        }
        assert d == Sum(m', low');
      }
      if Divides(d, q[1..], r) {
        forall i | 0 <= i < |p| ensures p[i] == (m[i] != low[i]) {
          if i > 0 {
            assert d[i - 1] == (m'[i - 1] != low'[i - 1]);
          }
        }
        assert p == Sum(m, low);
      }
    }
  }

  // Dividing with remainder: the quotient and the remainder, and no others, make up p.
  lemma {:induction false} DivisionUnique(p: Poly, q: Poly, r: Poly)
    requires |p| >= 16
    ensures Divides(p, q, r) <==> q == Quotient(p) && r == Remainder(p)
    decreases |p|
  {
    hide Reduced, Times, Generator;
    if |r| == 16 && |p| == |q| + 16 {
      if q == [] {
        NoQuotient(p, r);
      } else {
        DividesStep(p, q, r);
        DivisionUnique(Reduced(p), q[1..], r);
        hide Divides, Remainder;
        assert q == [q[0]] + q[1..];
      }
    }
  }

  lemma NoQuotient(p: Poly, r: Poly)
    requires |p| == |r| == 16
    ensures Divides(p, [], r) <==> p == r
  {
    assert Sum(Zeros(16), Zeros(0) + r) == r;
  }
}

/** The 16-bit checksum of the CoreMark benchmarks: a shift register fed bit by bit, and what it
    computes: the remainder of the data by the generator. */
module Crc {
  import opened Polynomials

  // ---- The register

  function LowBit8(data: bv8): bool { data & 1 != 0 }
  function LowBit16(crc: bv16): bool { crc & 1 != 0 }

  // The feedback: the lowest bits of the data and of the register differ.
  function Differ(data: bv8, crc: bv16): bool { (data & 1) ^ (((crc & 0xff) as bv8) & 1) == 1 }

  function Shifted(crc: bv16, feedback: bool): bv16 {
    if feedback then ((crc ^ 0x4002) >> 1) | 0x8000 else (crc >> 1) & 0x7fff
  }

  function Step(crc: bv16, bit: bool): bv16 { Shifted(crc, bit != LowBit16(crc)) }

  function Half(data: bv8): bv8 { data >> 1 }

  lemma DifferMeans(data: bv8, crc: bv16)
    ensures Differ(data, crc) <==> LowBit8(data) != LowBit16(crc)
  {
  }

  // ---- Data as bits, the lowest of each byte first

  function ByteBits(data: bv8): (r: Poly)
    ensures |r| == 8
  {
    [data & 0x01 != 0, data & 0x02 != 0, data & 0x04 != 0, data & 0x08 != 0,
     data & 0x10 != 0, data & 0x20 != 0, data & 0x40 != 0, data & 0x80 != 0]
  }

  function Half16(crc: bv16): bv16 { crc >> 1 }

  function Bit(crc: bv16, k: nat): bool
    decreases k
  {
    if k == 0 then LowBit16(crc) else Bit(Half16(crc), k - 1)
  }

  // The lowest bit of the register is its highest coefficient.
  function Bits(crc: bv16): (r: Poly)
    ensures |r| == 16
  {
    seq(16, k requires 0 <= k < 16 => Bit(crc, k))
  }

  ghost function MessageBits(data: seq<bv8>): Poly {
    if data == [] then [] else ByteBits(data[0]) + MessageBits(data[1..])
  }

  // The register after the bits were fed to it.
  ghost function Fed(crc: bv16, bits: Poly): bv16
    decreases |bits|
  {
    if bits == [] then crc else Fed(Step(crc, bits[0]), bits[1..])
  }

  lemma {:induction false} FedAppend(crc: bv16, a: Poly, b: Poly)
    ensures Fed(crc, a + b) == Fed(Fed(crc, a), b)
    decreases |a|
  {
    hide Step;
    if a == [] {
      assert a + b == b;
    } else {
      FedAppend(Step(crc, a[0]), a[1..], b);
      assert (a + b)[1..] == a[1..] + b;
    }
  }

  lemma HalfBits(data: bv8)
    ensures Half(data) & 0x01 != 0 <==> data & 0x02 != 0
    ensures Half(data) & 0x02 != 0 <==> data & 0x04 != 0
    ensures Half(data) & 0x04 != 0 <==> data & 0x08 != 0
    ensures Half(data) & 0x08 != 0 <==> data & 0x10 != 0
    ensures Half(data) & 0x10 != 0 <==> data & 0x20 != 0
    ensures Half(data) & 0x20 != 0 <==> data & 0x40 != 0
    ensures Half(data) & 0x40 != 0 <==> data & 0x80 != 0
  {
  }

  lemma ByteBitsHalf(data: bv8)
    ensures ByteBits(data)[0] == LowBit8(data)
    ensures ByteBits(Half(data))[..7] == ByteBits(data)[1..]
  {
    HalfBits(data);
    hide Half;
  }

  // ---- The program

  ghost function Ahead(data: bv8, i: nat): Poly
    requires i <= 8
  {
    ByteBits(data)[..8 - i]
  }

  lemma NextBit(data: bv8, crc: bv16, i: nat)
    requires i < 8
    ensures Fed(crc, Ahead(data, i)) == Fed(Shifted(crc, Differ(data, crc)), Ahead(Half(data), i + 1))
  {
    ByteBitsHalf(data);
    DifferMeans(data, crc);
    hide ByteBits, LowBit8, LowBit16, Differ, Half, Shifted;
    assert Ahead(data, i)[1..] == Ahead(Half(data), i + 1);
  }

  lemma FirstAndLast(data: bv8, crc: bv16, other: bv8)
    ensures Ahead(data, 0) == ByteBits(data) && Fed(crc, Ahead(other, 8)) == crc
  {
    hide ByteBits;
  }

  method Crcu8(data0: bv8, crc0: bv16) returns (crc: bv16)
    ensures crc == Fed(crc0, ByteBits(data0))
  {
    hide *;
    var data := data0;
    crc := crc0;
    FirstAndLast(data0, crc0, data0);
    for i := 0 to 8
      invariant Fed(crc, Ahead(data, i)) == Fed(crc0, ByteBits(data0))
    {
      NextBit(data, crc, i);
      crc := Shifted(crc, Differ(data, crc));
      data := Half(data);
    }
    FirstAndLast(data0, crc, data);
  }

  function Low8(v: bv16): bv8 { (v & 0xff) as bv8 }
  function High8(v: bv16): bv8 { (v >> 8) as bv8 }
  function Low16(v: bv32): bv16 { (v & 0xffff) as bv16 }
  function High16(v: bv32): bv16 { (v >> 16) as bv16 }

  // A word is fed byte by byte, the lower first.
  function Bytes16(v: bv16): seq<bv8> { [Low8(v), High8(v)] }
  function Bytes32(v: bv32): seq<bv8> { Bytes16(Low16(v)) + Bytes16(High16(v)) }

  lemma {:induction false} MessageAppend(a: seq<bv8>, b: seq<bv8>)
    ensures MessageBits(a + b) == MessageBits(a) + MessageBits(b)
    decreases |a|
  {
    hide ByteBits;
    if a == [] {
      assert a + b == b;
    } else {
      MessageAppend(a[1..], b);
      assert (a + b)[1..] == a[1..] + b;
    }
  }

  lemma TwoBytes(a: bv8, b: bv8)
    ensures MessageBits([a, b]) == ByteBits(a) + ByteBits(b)
  {
    hide ByteBits;
    assert [a, b][1..] == [b] && [b][1..] == [];
    assert MessageBits([b]) == ByteBits(b) + MessageBits([]);
  }

  method Crcu16(newval: bv16, crc0: bv16) returns (crc: bv16)
    ensures crc == Fed(crc0, MessageBits(Bytes16(newval)))
  {
    TwoBytes(Low8(newval), High8(newval));
    FedAppend(crc0, ByteBits(Low8(newval)), ByteBits(High8(newval)));
    hide ByteBits, Fed, MessageBits, Low8, High8;
    crc := Crcu8(Low8(newval), crc0);
    crc := Crcu8(High8(newval), crc);
  }

  method Crcu32(newval: bv32, crc0: bv16) returns (crc: bv16)
    ensures crc == Fed(crc0, MessageBits(Bytes32(newval)))
  {
    MessageAppend(Bytes16(Low16(newval)), Bytes16(High16(newval)));
    FedAppend(crc0, MessageBits(Bytes16(Low16(newval))), MessageBits(Bytes16(High16(newval))));
    hide Bytes16, Fed, MessageBits, Low16, High16;
    crc := Crcu16(Low16(newval), crc0);
    crc := Crcu16(High16(newval), crc);
  }

  // ---- The register divides

  function StepBits(r: Poly, bit: bool): (r': Poly)
    requires |r| == 16
    ensures |r'| == 16
  {
    Sum(r[1..] + [false], Times(bit != r[0])[1..])
  }

  function Xor16(c: bv16, d: bv16): bv16 { c ^ d }
  function Mask(b: bool): bv16 { if b then 0xa001 else 0 }

  lemma ShiftedOff(c: bv16)
    ensures Shifted(c, false) == Xor16(Half16(c), 0)
  {
  }

  lemma HalfOfXor(c: bv16)
    ensures (c ^ 0x4002) >> 1 == Half16(c) ^ 0x2001 && Half16(c) & 0x8000 == 0
  {
  }

  lemma HighBitSet(x: bv16)
    requires x & 0x8000 == 0
    ensures (x ^ 0x2001) | 0x8000 == x ^ 0xa001
  {
  }

  lemma ShiftedOn(c: bv16)
    ensures Shifted(c, true) == Xor16(Half16(c), 0xa001)
  {
    HalfOfXor(c);
    hide Half16;
    HighBitSet(Half16(c));
  }

  lemma ShiftedIsXor(c: bv16, feedback: bool)
    ensures Shifted(c, feedback) == Xor16(Half16(c), Mask(feedback))
  {
    ShiftedOn(c);
    ShiftedOff(c);
    hide Shifted, Half16, Xor16;
  }

  lemma XorLinear(c: bv16, d: bv16)
    ensures Half16(Xor16(c, d)) == Xor16(Half16(c), Half16(d))
    ensures LowBit16(Xor16(c, d)) == (LowBit16(c) != LowBit16(d))
  {
  }

  lemma {:induction false} BitXor(c: bv16, d: bv16, k: nat)
    ensures Bit(Xor16(c, d), k) == (Bit(c, k) != Bit(d, k))
    decreases k
  {
    hide Half16, LowBit16, Xor16;
    XorLinear(c, d);
    if k > 0 {
      BitXor(Half16(c), Half16(d), k - 1);
    }
  }

  function Eighth(c: bv16): bv16 { c >> 8 }

  function Quarter(c: bv16): bv16 { Half16(Half16(c)) }

  lemma EightHalves(c: bv16)
    ensures Quarter(Quarter(Quarter(Quarter(c)))) == Eighth(c)
    ensures !LowBit16(Eighth(Eighth(c)))
  {
  }

  lemma BitQuarter(c: bv16, k: nat)
    ensures Bit(c, k + 2) == Bit(Quarter(c), k)
  {
    hide Half16;
    assert Bit(c, k + 2) == Bit(Half16(c), k + 1);
  }

  lemma BitEighth(c: bv16, k: nat)
    ensures Bit(c, k + 8) == Bit(Eighth(c), k)
  {
    hide *;
    EightHalves(c);
    BitQuarter(c, k + 6);
    BitQuarter(Quarter(c), k + 4);
    BitQuarter(Quarter(Quarter(c)), k + 2);
    BitQuarter(Quarter(Quarter(Quarter(c))), k);
  }

  lemma MaskBits()
    ensures Bit(0xa001, 0) && !Bit(0xa001, 1) && !Bit(0xa001, 2) && !Bit(0xa001, 3)
    ensures !Bit(0xa001, 4) && !Bit(0xa001, 5) && !Bit(0xa001, 6) && !Bit(0xa001, 7)
    ensures !Bit(0xa001, 8) && !Bit(0xa001, 9) && !Bit(0xa001, 10) && !Bit(0xa001, 11)
    ensures !Bit(0xa001, 12) && Bit(0xa001, 13) && !Bit(0xa001, 14) && Bit(0xa001, 15)
  {
    assert Eighth(0xa001) == 0xa0;
    hide Eighth;
    forall k: nat ensures Bit(0xa001, k + 8) == Bit(0xa0, k) {
      BitEighth(0xa001, k);
    }
    MaskLow();
    MaskHigh();
    hide Bit;
    assert Bit(0xa001, 0 + 8) == Bit(0xa0, 0) && Bit(0xa001, 1 + 8) == Bit(0xa0, 1) && Bit(0xa001, 2 + 8) == Bit(0xa0, 2);
    assert Bit(0xa001, 3 + 8) == Bit(0xa0, 3) && Bit(0xa001, 4 + 8) == Bit(0xa0, 4) && Bit(0xa001, 5 + 8) == Bit(0xa0, 5);
    assert Bit(0xa001, 6 + 8) == Bit(0xa0, 6) && Bit(0xa001, 7 + 8) == Bit(0xa0, 7);
  }

  lemma MaskLow()
    ensures Bit(0xa001, 0) && !Bit(0xa001, 1) && !Bit(0xa001, 2) && !Bit(0xa001, 3)
    ensures !Bit(0xa001, 4) && !Bit(0xa001, 5) && !Bit(0xa001, 6) && !Bit(0xa001, 7)
  {
  }

  lemma MaskHigh()
    ensures !Bit(0xa0, 0) && !Bit(0xa0, 1) && !Bit(0xa0, 2) && !Bit(0xa0, 3)
    ensures !Bit(0xa0, 4) && Bit(0xa0, 5) && !Bit(0xa0, 6) && Bit(0xa0, 7)
  {
  }

  lemma {:induction false} NoBit(k: nat)
    ensures !Bit(0, k)
  {
    assert Half16(0) == 0;
    hide Half16;
    if k > 0 {
      NoBit(k - 1);
    }
  }

  lemma NothingAbove(c: bv16)
    ensures !Bit(c, 16)
  {
    BitEighth(c, 8);
    BitEighth(Eighth(c), 0);
    EightHalves(c);
    hide Half16, Eighth;
  }

  lemma MaskBit(feedback: bool, k: nat)
    requires k < 16
    ensures Bit(Mask(feedback), k) == (feedback && (k == 0 || k == 13 || k == 15))
  {
    if feedback {
      MaskBits();
      hide Bit;
    } else {
      NoBit(k);
    }
  }

  lemma ShiftedBit(crc: bv16, feedback: bool, k: nat)
    requires k < 16
    ensures Bit(Shifted(crc, feedback), k) ==
            if k == 15 then feedback else Bit(crc, k + 1) != (feedback && (k == 0 || k == 13))
  {
    hide Shifted, Half16, Xor16, Mask, LowBit16;
    ShiftedIsXor(crc, feedback);
    BitXor(Half16(crc), Mask(feedback), k);
    MaskBit(feedback, k);
    assert Bit(crc, k + 1) == Bit(Half16(crc), k);
    if k == 15 {
      NothingAbove(crc);
    }
  }

  lemma BitsShifted(crc: bv16, feedback: bool)
    ensures Bits(Shifted(crc, feedback)) == Sum(Bits(crc)[1..] + [false], Times(feedback)[1..])
  {
    hide Shifted, Bit;
    var t := Times(feedback);
    forall k | 1 <= k < 17 ensures t[k] == (feedback && (k == 1 || k == 14 || k == 16)) {
    }
    forall k | 0 <= k < 16 ensures Bits(Shifted(crc, feedback))[k] == Sum(Bits(crc)[1..] + [false], t[1..])[k] {
      ShiftedBit(crc, feedback, k);
      hide Times;
    }
  }

  lemma BitsStep(crc: bv16, bit: bool)
    ensures Bits(Step(crc, bit)) == StepBits(Bits(crc), bit)
  {
    LowestBit(crc);
    hide LowBit16, Bits, Shifted, Times, Sum;
    BitsShifted(crc, bit != LowBit16(crc));
  }

  lemma LowestBit(crc: bv16)
    ensures Bits(crc)[0] == LowBit16(crc)
  {
  }

  // The bits still to be fed and the register, as one polynomial: the bits followed by sixteen
  // zeros, plus the register at its head.
  function Dividend(crc: bv16, bits: Poly): (r: Poly)
    ensures |r| == |bits| + 16
  {
    SumHead(bits + Zeros(16), Bits(crc))
  }

  lemma SumHeadTail(p: Poly, r: Poly, t: Poly, m: Poly)
    requires |p| >= 17 && |r| == 16 && |t| == 17 && m == SumHead(p, r)
    ensures SumHead(p[1..], Sum(r[1..] + [false], t[1..])) == SumHead(m, t)[1..]
  {
  }

  lemma FeedingReduces(crc: bv16, bits: Poly)
    requires bits != []
    ensures Dividend(Step(crc, bits[0]), bits[1..]) == Reduced(Dividend(crc, bits))
  {
    BitsStep(crc, bits[0]);
    hide Step, Bits, Generator, Times, Zeros, Sum, SumHead;
    var r, p, t := Bits(crc), Dividend(crc, bits), Times(bits[0] != Bits(crc)[0]);
    assert p[0] == (bits[0] != r[0]);
    assert (bits + Zeros(16))[1..] == bits[1..] + Zeros(16);
    SumHeadTail(bits + Zeros(16), r, t, p);
  }

  lemma {:induction false} RegisterDivides(crc: bv16, bits: Poly)
    ensures Bits(Fed(crc, bits)) == Remainder(Dividend(crc, bits))
    decreases |bits|
  {
    hide Step, Bits, Reduced;
    if bits == [] {
      assert Dividend(crc, bits) == Bits(crc);
    } else {
      FeedingReduces(crc, bits);
      RegisterDivides(Step(crc, bits[0]), bits[1..]);
      hide Dividend;
    }
  }

  // The checksum of any data from any start: the one remainder that, with some quotient, makes up
  // the data.
  lemma ChecksumIsRemainder(crc: bv16, data: seq<bv8>, q: Poly, r: Poly)
    ensures Divides(Dividend(crc, MessageBits(data)), q, r) ==> Bits(Fed(crc, MessageBits(data))) == r
    ensures Divides(Dividend(crc, MessageBits(data)), Quotient(Dividend(crc, MessageBits(data))), Bits(Fed(crc, MessageBits(data))))
  {
    var p := Dividend(crc, MessageBits(data));
    RegisterDivides(crc, MessageBits(data));
    DivisionUnique(p, q, r);
    DivisionUnique(p, Quotient(p), Remainder(p));
    hide Divides, Dividend, Quotient, Remainder, Fed, MessageBits;
  }

  // ---- Linearity

  lemma MaskLinear(a: bool, b: bool)
    ensures Mask(a != b) == Xor16(Mask(a), Mask(b))
  {
  }

  lemma XorAssociates(a: bv16, b: bv16, c: bv16)
    ensures Xor16(Xor16(a, b), c) == Xor16(a, Xor16(b, c))
  {
  }

  lemma XorCommutes(a: bv16, b: bv16)
    ensures Xor16(a, b) == Xor16(b, a)
  {
  }

  lemma XorSwap(a: bv16, b: bv16, c: bv16, d: bv16)
    ensures Xor16(Xor16(a, b), Xor16(c, d)) == Xor16(Xor16(a, c), Xor16(b, d))
  {
    hide Xor16;
    XorAssociates(a, b, Xor16(c, d));
    XorAssociates(b, c, d);
    XorCommutes(b, c);
    XorAssociates(c, b, d);
    XorAssociates(a, c, Xor16(b, d));
  }

  lemma StepIsXor(c: bv16, bit: bool)
    ensures Step(c, bit) == Xor16(Half16(c), Mask(bit != LowBit16(c)))
  {
    ShiftedIsXor(c, bit != LowBit16(c));
    hide Shifted, Half16, Xor16, Mask, LowBit16;
  }

  lemma StepLinear(c: bv16, d: bv16, a: bool, b: bool)
    ensures Step(Xor16(c, d), a != b) == Xor16(Step(c, a), Step(d, b))
  {
    hide *;
    var f, g := a != LowBit16(c), b != LowBit16(d);
    XorLinear(c, d);
    MaskLinear(f, g);
    StepIsXor(c, a);
    StepIsXor(d, b);
    StepIsXor(Xor16(c, d), a != b);
    assert (f != g) == ((a != b) != LowBit16(Xor16(c, d)));
    XorSwap(Half16(c), Half16(d), Mask(f), Mask(g));
  }

  lemma {:induction false} FedLinear(c: bv16, d: bv16, a: Poly, b: Poly)
    requires |a| == |b|
    ensures Fed(Xor16(c, d), Sum(a, b)) == Xor16(Fed(c, a), Fed(d, b))
    decreases |a|
  {
    hide Step, Xor16;
    if a != [] {
      StepLinear(c, d, a[0], b[0]);
      FedLinear(Step(c, a[0]), Step(d, b[0]), a[1..], b[1..]);
      assert Sum(a, b)[1..] == Sum(a[1..], b[1..]);
      assert Sum(a, b)[0] == (a[0] != b[0]);
    }
  }

  // ---- Injectivity

  ghost function Feedbacks(crc: bv16, bits: Poly): Poly
    decreases |bits|
  {
    if bits == [] then [] else [bits[0] != LowBit16(crc)] + Feedbacks(Step(crc, bits[0]), bits[1..])
  }

  lemma FedLast(crc: bv16, bits: Poly, b: bool)
    ensures Fed(crc, bits + [b]) == Step(Fed(crc, bits), b)
  {
    FedAppend(crc, bits, [b]);
    hide Step;
    assert [b][1..] == [];
    assert Fed(Fed(crc, bits), [b]) == Fed(Step(Fed(crc, bits), b), []);
  }

  lemma {:induction false} LastFeedback(crc: bv16, bits: Poly, b: bool)
    ensures Feedbacks(crc, bits + [b]) == Feedbacks(crc, bits) + [b != LowBit16(Fed(crc, bits))]
    decreases |bits|
  {
    hide Step, LowBit16;
    if bits == [] {
      assert [b][1..] == [];
      assert bits + [b] == [b];
    } else {
      LastFeedback(Step(crc, bits[0]), bits[1..], b);
      assert (bits + [b])[1..] == bits[1..] + [b];
    }
  }

  // The register tells its last feedback, and all of its past but the bit shifted out.
  lemma StepBack(c: bv16, d: bv16, a: bool, b: bool, k: nat)
    requires k < 16 && Bits(Step(c, a))[k..] == Bits(Step(d, b))[k..]
    ensures (a != LowBit16(c)) == (b != LowBit16(d)) && Bits(c)[k + 1..] == Bits(d)[k + 1..]
  {
    var f, g := a != LowBit16(c), b != LowBit16(d);
    var s, t := Bits(Step(c, a)), Bits(Step(d, b));
    hide Shifted, Bit, LowBit16;
    forall i | k <= i < 16 ensures Bit(Shifted(c, f), i) == Bit(Shifted(d, g), i) {
      assert s[k..][i - k] == t[k..][i - k];
    }
    ShiftedBit(c, f, 15);
    ShiftedBit(d, g, 15);
    forall i | k + 1 <= i < 16 ensures Bit(c, i) == Bit(d, i) {
      ShiftedBit(c, f, i - 1);
      ShiftedBit(d, g, i - 1);
    }
  }

  // From the register, as many feedbacks are known as there are known bits.
  lemma {:induction false} SameFeedbacks(c: bv16, d: bv16, a: Poly, b: Poly, k: nat)
    requires |a| == |b| && k + |a| <= 16 && Bits(Fed(c, a))[k..] == Bits(Fed(d, b))[k..]
    ensures Feedbacks(c, a) == Feedbacks(d, b)
    decreases |a|
  {
    hide Step, Bits, LowBit16;
    if a != [] {
      var n := |a| - 1;
      assert a == a[..n] + [a[n]] && b == b[..n] + [b[n]];
      FedLast(c, a[..n], a[n]);
      FedLast(d, b[..n], b[n]);
      LastFeedback(c, a[..n], a[n]);
      LastFeedback(d, b[..n], b[n]);
      StepBack(Fed(c, a[..n]), Fed(d, b[..n]), a[n], b[n], k);
      SameFeedbacks(c, d, a[..n], b[..n], k + 1);
      hide Fed, Feedbacks;
    }
  }

  // From one start, the feedbacks tell the bits.
  lemma {:induction false} SameBits(crc: bv16, a: Poly, b: Poly)
    requires |a| == |b| && Feedbacks(crc, a) == Feedbacks(crc, b)
    ensures a == b
    decreases |a|
  {
    hide Step, LowBit16;
    if a != [] {
      var f, g := Feedbacks(crc, a), Feedbacks(crc, b);
      assert f[0] == g[0] && f[1..] == g[1..];
      assert a[0] == b[0];
      SameBits(Step(crc, a[0]), a[1..], b[1..]);
      assert a == [a[0]] + a[1..] && b == [b[0]] + b[1..];
    }
  }

  // Up to sixteen bits of data, from a fixed start, give different checksums for different data.
  lemma FedInjective(crc: bv16, a: Poly, b: Poly)
    requires |a| == |b| <= 16 && Fed(crc, a) == Fed(crc, b)
    ensures a == b
  {
    hide *;
    SameFeedbacks(crc, crc, a, b, 0);
    SameBits(crc, a, b);
  }

  lemma ByteBitsInjective(a: bv8, b: bv8)
    requires ByteBits(a) == ByteBits(b)
    ensures a == b
  {
    var p, q := ByteBits(a), ByteBits(b);
    assert forall i | 0 <= i < 8 :: p[i] == q[i];
    MasksInjective(a, b);
  }

  lemma MasksInjective(a: bv8, b: bv8)
    requires a & 0x01 == b & 0x01 && a & 0x02 == b & 0x02 && a & 0x04 == b & 0x04 && a & 0x08 == b & 0x08
    requires a & 0x10 == b & 0x10 && a & 0x20 == b & 0x20 && a & 0x40 == b & 0x40 && a & 0x80 == b & 0x80
    ensures a == b
  {
  }

  lemma HalvesInjective(v: bv16, w: bv16)
    requires Low8(v) == Low8(w) && High8(v) == High8(w)
    ensures v == w
  {
  }

  // The checksum of a 16-bit value tells the value.
  lemma Crcu16Injective(v: bv16, w: bv16, crc: bv16)
    ensures Fed(crc, MessageBits(Bytes16(v))) == Fed(crc, MessageBits(Bytes16(w))) <==> v == w
  {
    hide ByteBits, Fed, Low8, High8, MessageBits;
    TwoBytes(Low8(v), High8(v));
    TwoBytes(Low8(w), High8(w));
    if Fed(crc, MessageBits(Bytes16(v))) == Fed(crc, MessageBits(Bytes16(w))) {
      var p, q := MessageBits(Bytes16(v)), MessageBits(Bytes16(w));
      FedInjective(crc, p, q);
      assert p[..8] == ByteBits(Low8(v)) && q[..8] == ByteBits(Low8(w));
      assert p[8..] == ByteBits(High8(v)) && q[8..] == ByteBits(High8(w));
      ByteBitsInjective(Low8(v), Low8(w));
      ByteBitsInjective(High8(v), High8(w));
      HalvesInjective(v, w);
    }
  }

  // ---- The bytes of words

  // The lowest byte first.
  lemma Bytes16Exact(v: bv16)
    ensures |Bytes16(v)| == 2 && Bytes16(v)[0] as bv16 == v % 0x100 && Bytes16(v)[1] as bv16 == v / 0x100
  {
  }

  lemma HalvesExact(v: bv32)
    ensures Low16(v) as bv32 == v % 0x1_0000 && High16(v) as bv32 == v / 0x1_0000
  {
  }

  // The lower half first.
  lemma Bytes32Exact(v: bv32)
    ensures Bytes32(v)[..2] == Bytes16((v % 0x1_0000) as bv16) && Bytes32(v)[2..] == Bytes16((v / 0x1_0000) as bv16)
  {
    HalvesExact(v);
    assert (v % 0x1_0000) as bv16 == Low16(v) && (v / 0x1_0000) as bv16 == High16(v);
    hide Low8, High8, Low16, High16;
  }

  // ---- The polynomial, and a known checksum

  // The terms of x^16 + x^15 + x^2 + 1.
  lemma GeneratorExact(degree: nat)
    requires degree <= 16
    ensures Generator()[16 - degree] <==> degree == 16 || degree == 15 || degree == 2 || degree == 0
  {
  }

  function Advanced(crc: bv16, bit: bv8): bv16 {
    if (crc & 1 == 1) != (bit & 1 == 1) then (crc >> 1) ^ 0xa001 else crc >> 1
  }

  // One byte, bit by bit.
  function AdvancedByte(crc: bv16, d: bv8): bv16 {
    Advanced(Advanced(Advanced(Advanced(Advanced(Advanced(Advanced(Advanced(crc, d), d >> 1), d >> 2), d >> 3), d >> 4), d >> 5), d >> 6), d >> 7)
  }

  lemma AdvancedIsStep(crc: bv16, d: bv8)
    ensures Advanced(crc, d) == Step(crc, d & 1 != 0)
  {
  }

  lemma BitsOfByte(d: bv8)
    ensures ByteBits(d) == [d & 1 != 0, (d >> 1) & 1 != 0, (d >> 2) & 1 != 0, (d >> 3) & 1 != 0,
                            (d >> 4) & 1 != 0, (d >> 5) & 1 != 0, (d >> 6) & 1 != 0, (d >> 7) & 1 != 0]
  {
  }

  lemma FedBit(crc: bv16, bits: Poly, k: nat)
    requires k < |bits|
    ensures Fed(crc, bits[k..]) == Fed(Step(crc, bits[k]), bits[k + 1..])
  {
    assert bits[k..][1..] == bits[k + 1..];
    hide Step;
  }

  lemma FedBits(crc: bv16, bits: Poly)
    requires |bits| == 8
    ensures Fed(crc, bits) == Step(Step(Step(Step(Step(Step(Step(Step(crc, bits[0]), bits[1]), bits[2]), bits[3]), bits[4]), bits[5]), bits[6]), bits[7])
  {
    var c4 := Step(Step(Step(Step(crc, bits[0]), bits[1]), bits[2]), bits[3]);
    assert bits[0..] == bits && bits[8..] == [];
    assert forall c :: Fed(c, []) == c;
    hide Step, Fed;
    FedBit(crc, bits, 0);
    FedBit(Step(crc, bits[0]), bits, 1);
    FedBit(Step(Step(crc, bits[0]), bits[1]), bits, 2);
    FedBit(Step(Step(Step(crc, bits[0]), bits[1]), bits[2]), bits, 3);
    FedBit(c4, bits, 4);
    FedBit(Step(c4, bits[4]), bits, 5);
    FedBit(Step(Step(c4, bits[4]), bits[5]), bits, 6);
    FedBit(Step(Step(Step(c4, bits[4]), bits[5]), bits[6]), bits, 7);
  }

  lemma AdvancedByteIsFed(crc: bv16, d: bv8)
    ensures Fed(crc, ByteBits(d)) == AdvancedByte(crc, d)
  {
    BitsOfByte(d);
    FedBits(crc, ByteBits(d));
    forall c: bv16, e: bv8 ensures Advanced(c, e) == Step(c, e & 1 != 0) {
      AdvancedIsStep(c, e);
    }
    hide Step, Advanced, Fed, ByteBits;
  }

  lemma FedFirst(crc: bv16, data: seq<bv8>)
    requires data != []
    ensures Fed(crc, MessageBits(data)) == Fed(AdvancedByte(crc, data[0]), MessageBits(data[1..]))
  {
    AdvancedByteIsFed(crc, data[0]);
    FedAppend(crc, ByteBits(data[0]), MessageBits(data[1..]));
    hide Fed, ByteBits, AdvancedByte;
  }

  lemma CheckBytes()
    ensures AdvancedByte(0x0, 0x31) == 0xd4c1
    ensures AdvancedByte(0xd4c1, 0x32) == 0x4594
    ensures AdvancedByte(0x4594, 0x33) == 0xba04
    ensures AdvancedByte(0xba04, 0x34) == 0x14ba
    ensures AdvancedByte(0x14ba, 0x35) == 0xa455
    ensures AdvancedByte(0xa455, 0x36) == 0x29e4
    ensures AdvancedByte(0x29e4, 0x37) == 0x9d68
    ensures AdvancedByte(0x9d68, 0x38) == 0x3c9d
    ensures AdvancedByte(0x3c9d, 0x39) == 0xbb3d
  {
  }

  // The checksum of the digits from one to nine is that by which such checksums are told apart.
  lemma CheckValue()
    ensures Fed(0, MessageBits([0x31, 0x32, 0x33, 0x34, 0x35, 0x36, 0x37, 0x38, 0x39])) == 0xbb3d
  {
    var data: seq<bv8> := [0x31, 0x32, 0x33, 0x34, 0x35, 0x36, 0x37, 0x38, 0x39];
    var values: seq<bv16> := [0x0, 0xd4c1, 0x4594, 0xba04, 0x14ba, 0xa455, 0x29e4, 0x9d68, 0x3c9d, 0xbb3d];
    CheckBytes();
    hide AdvancedByte, Fed, MessageBits;
    assert data[0..] == data;
    for k := 0 to 9
      invariant Fed(0, MessageBits(data)) == Fed(values[k], MessageBits(data[k..]))
    {
      FedFirst(values[k], data[k..]);
      assert data[k..][1..] == data[k + 1..];
      assert AdvancedByte(values[k], data[k]) == values[k + 1];
    }
    assert data[9..] == [];
    FedNothing(values[9]);
  }

  lemma FedNothing(crc: bv16)
    ensures Fed(crc, MessageBits([])) == crc
  {
  }
}
