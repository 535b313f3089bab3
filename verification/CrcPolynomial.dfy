/** What a CRC-32 is: the remainder of a polynomial over the field of two elements. Polynomials are
    sets of exponents here, and nothing is shared with the shifting register. */
module CrcPolynomial {
  import opened Crc32

  // The exponents whose coefficient is 1.
  type Poly = set<nat>

  function Add(p: Poly, q: Poly): Poly { (p - q) + (q - p) }

  function TimesX(p: Poly): Poly {
    set e: nat | e in p :: e + 1
  }

  function TimesPower(p: Poly, n: nat): Poly {
    if n == 0 then p else TimesX(TimesPower(p, n - 1))
  }

  /** The product with the polynomial whose coefficients are given, the highest first. */
  function Product(coefficients: seq<bool>, p: Poly): Poly {
    if coefficients == [] then {}
    else
      var n := |coefficients| - 1;
      Add(TimesX(Product(coefficients[..n], p)), if coefficients[n] then p else {})
  }

  /** x^32+x^26+x^23+x^22+x^16+x^12+x^11+x^10+x^8+x^7+x^5+x^4+x^2+x+1 */
  const GENERATOR: Poly := {32, 26, 23, 22, 16, 12, 11, 10, 8, 7, 5, 4, 2, 1, 0}

  ghost predicate IsRemainder(p: Poly, r: Poly) {
    && (forall e | e in r :: e < 32)
    && exists quotient :: p == Add(Product(quotient, GENERATOR), r)
  }

  // ----- algebra

  lemma AddAssoc(p: Poly, q: Poly, r: Poly)
    ensures Add(Add(p, q), r) == Add(p, Add(q, r))
  {
  }

  lemma AddTwice(p: Poly, q: Poly)
    ensures Add(Add(p, q), q) == p && Add(p, {}) == p && Add(p, p) == {}
  {
  }

  lemma TimesXAdd(p: Poly, q: Poly)
    ensures TimesX(Add(p, q)) == Add(TimesX(p), TimesX(q))
  {
    forall e: nat ensures e in TimesX(Add(p, q)) <==> e in Add(TimesX(p), TimesX(q)) {
      InTimesX(p, e);
      InTimesX(q, e);
      InTimesX(Add(p, q), e);
    }
  }

  lemma InTimesX(p: Poly, e: nat)
    ensures e in TimesX(p) <==> e > 0 && e - 1 in p
  {
    if e > 0 && e - 1 in p {
      assert (e - 1) + 1 in TimesX(p);
    }
  }

  // ----- the register as a polynomial

  /** The coefficient of x^e in the register: the highest bit is the lowest exponent. */
  predicate Coefficient(c: bv32, e: nat)
    decreases e
  {
    if e == 0 then c & 0x8000_0000 != 0 else Coefficient(Doubled(c), e - 1)
  }

  function PolyOf(c: bv32): Poly {
    set e: nat | e < 32 && Coefficient(c, e)
  }

  function Doubled(c: bv32): bv32 { c << 1 }

  function Halved(c: bv32): bv32 { c >> 1 }

  lemma DoubledXor(a: bv32, b: bv32)
    ensures Doubled(Xor(a, b)) == Xor(Doubled(a), Doubled(b))
  {
  }

  lemma TopXor(a: bv32, b: bv32)
    ensures Coefficient(Xor(a, b), 0) == (Coefficient(a, 0) != Coefficient(b, 0))
  {
  }

  lemma {:induction false} CoefficientXor(a: bv32, b: bv32, e: nat)
    ensures Coefficient(Xor(a, b), e) == (Coefficient(a, e) != Coefficient(b, e))
    decreases e
  {
    hide Xor, Doubled;
    if e == 0 {
      TopXor(a, b);
    } else {
      DoubledXor(a, b);
      CoefficientXor(Doubled(a), Doubled(b), e - 1);
    }
  }

  lemma {:induction false} ZeroHasNone(e: nat)
    ensures !Coefficient(0, e)
  {
    if e > 0 {
      assert Doubled(0) == 0;
      ZeroHasNone(e - 1);
    }
  }

  lemma HalvedTop(c: bv32)
    ensures !Coefficient(Halved(c), 0)
  {
  }

  function Low1(c: bv32): bv32 { c & 1 }

  lemma HalvedDoubled(c: bv32)
    ensures Doubled(Halved(c)) == Xor(c, Low1(c))
    ensures Low1(c) == 0 || Low1(c) == 1
  {
  }

  lemma ShiftByLow(c: bv32)
    ensures Shift(c) == if Low1(c) == 1 then Xor(POLYNOMIAL, Halved(c)) else Halved(c)
  {
  }

  function Doubled8(c: bv32): bv32 { c << 8 }

  lemma EightDoublings(c: bv32)
    ensures Doubled(Doubled(Doubled(Doubled(Doubled(Doubled(Doubled(Doubled(c)))))))) == Doubled8(c)
    ensures Doubled8(Doubled8(Doubled8(Doubled8(c)))) == 0
  {
  }

  lemma CoefficientBehind(c: bv32, e: nat)
    requires e >= 8
    ensures Coefficient(c, e) == Coefficient(Doubled8(c), e - 8)
  {
    hide Doubled, Doubled8;
    EightDoublings(c);
    var c1 := Doubled(c);
    var c2 := Doubled(c1);
    var c3 := Doubled(c2);
    var c4 := Doubled(c3);
    var c5 := Doubled(c4);
    var c6 := Doubled(c5);
    var c7 := Doubled(c6);
    assert Coefficient(c, e) == Coefficient(c1, e - 1) == Coefficient(c2, e - 2) == Coefficient(c3, e - 3);
    assert Coefficient(c3, e - 3) == Coefficient(c4, e - 4) == Coefficient(c5, e - 5);
    assert Coefficient(c5, e - 5) == Coefficient(c6, e - 6) == Coefficient(c7, e - 7);
  }

  lemma OneBits()
    ensures !Coefficient(0x1, 0) && !Coefficient(0x1, 1) && !Coefficient(0x1, 2) && !Coefficient(0x1, 3)
    ensures !Coefficient(0x1, 4) && !Coefficient(0x1, 5) && !Coefficient(0x1, 6) && !Coefficient(0x1, 7)
    ensures !Coefficient(0x100, 0) && !Coefficient(0x100, 1)
            && !Coefficient(0x100, 2) && !Coefficient(0x100, 3)
    ensures !Coefficient(0x100, 4) && !Coefficient(0x100, 5)
            && !Coefficient(0x100, 6) && !Coefficient(0x100, 7)
    ensures !Coefficient(0x10000, 0) && !Coefficient(0x10000, 1)
            && !Coefficient(0x10000, 2) && !Coefficient(0x10000, 3)
    ensures !Coefficient(0x10000, 4) && !Coefficient(0x10000, 5)
            && !Coefficient(0x10000, 6) && !Coefficient(0x10000, 7)
    ensures !Coefficient(0x1000000, 0) && !Coefficient(0x1000000, 1)
            && !Coefficient(0x1000000, 2) && !Coefficient(0x1000000, 3)
    ensures !Coefficient(0x1000000, 4) && !Coefficient(0x1000000, 5)
            && !Coefficient(0x1000000, 6) && Coefficient(0x1000000, 7)
  {
  }

  lemma OneIsLast()
    ensures Coefficient(1, 31) && forall e | 0 <= e < 31 :: !Coefficient(1, e)
  {
    hide Coefficient;
    OneBits();
    forall e: nat | e < 32 ensures Coefficient(1, e) <==> e == 31 {
      if e >= 8 {
        CoefficientBehind(1, e);
      }
      if e >= 16 {
        CoefficientBehind(0x100, e - 8);
      }
      if e >= 24 {
        CoefficientBehind(0x10000, e - 16);
      }
    }
  }

  /** An even register has no last coefficient. */
  lemma EvenHasNone(c: bv32)
    ensures !Coefficient(Doubled(c), 31)
  {
    hide Doubled8;
    assert Coefficient(c, 32) == Coefficient(Doubled(c), 31);
    var c1 := Doubled8(c);
    var c2 := Doubled8(c1);
    var c3 := Doubled8(c2);
    CoefficientBehind(c, 32);
    CoefficientBehind(c1, 24);
    CoefficientBehind(c2, 16);
    CoefficientBehind(c3, 8);
    EightDoublings(c);
    ZeroHasNone(0);
  }

  /** The last coefficient is the lowest bit. */
  lemma LastCoefficient(c: bv32)
    ensures Coefficient(c, 31) <==> Low1(c) == 1
  {
    hide Xor, Doubled, Halved, Low1;
    HalvedDoubled(c);
    CoefficientXor(c, Low1(c), 31);
    OneIsLast();
    ZeroHasNone(31);
    EvenHasNone(Halved(c));
  }

  /** Exclusive or adds. */
  lemma XorAdds(a: bv32, b: bv32)
    ensures PolyOf(Xor(a, b)) == Add(PolyOf(a), PolyOf(b))
  {
    hide Coefficient, Xor;
    forall e: nat | e < 32 ensures e in PolyOf(Xor(a, b)) <==> e in Add(PolyOf(a), PolyOf(b)) {
      CoefficientXor(a, b, e);
    }
  }

  lemma GeneratorBits()
    ensures Coefficient(0xedb88320, 0) && Coefficient(0xedb88320, 1)
            && Coefficient(0xedb88320, 2) && !Coefficient(0xedb88320, 3)
    ensures Coefficient(0xedb88320, 4) && Coefficient(0xedb88320, 5)
            && !Coefficient(0xedb88320, 6) && Coefficient(0xedb88320, 7)
    ensures Coefficient(0xb8832000, 0) && !Coefficient(0xb8832000, 1)
            && Coefficient(0xb8832000, 2) && Coefficient(0xb8832000, 3)
    ensures Coefficient(0xb8832000, 4) && !Coefficient(0xb8832000, 5)
            && !Coefficient(0xb8832000, 6) && !Coefficient(0xb8832000, 7)
    ensures Coefficient(0x83200000, 0) && !Coefficient(0x83200000, 1)
            && !Coefficient(0x83200000, 2) && !Coefficient(0x83200000, 3)
    ensures !Coefficient(0x83200000, 4) && !Coefficient(0x83200000, 5)
            && Coefficient(0x83200000, 6) && Coefficient(0x83200000, 7)
    ensures !Coefficient(0x20000000, 0) && !Coefficient(0x20000000, 1)
            && Coefficient(0x20000000, 2) && !Coefficient(0x20000000, 3)
    ensures !Coefficient(0x20000000, 4) && !Coefficient(0x20000000, 5)
            && !Coefficient(0x20000000, 6) && !Coefficient(0x20000000, 7)
  {
  }

  /** The constant of the shifting register is the generator without its leading term. */
  lemma PolynomialIsGenerator()
    ensures PolyOf(POLYNOMIAL) == GENERATOR - {32}
  {
    hide Coefficient;
    GeneratorBits();
    forall e: nat | e < 32 ensures Coefficient(POLYNOMIAL, e) <==> e in GENERATOR {
      if e >= 8 {
        CoefficientBehind(POLYNOMIAL, e);
      }
      if e >= 16 {
        CoefficientBehind(0xb8832000, e - 8);
      }
      if e >= 24 {
        CoefficientBehind(0x83200000, e - 16);
      }
    }
  }

  /** Halving multiplies by x and drops the leading term. */
  lemma HalvedIsTimesX(c: bv32)
    ensures PolyOf(Halved(c)) == TimesX(PolyOf(c)) - {32}
  {
    hide Coefficient, Halved;
    forall e: nat ensures e in PolyOf(Halved(c)) <==> e in TimesX(PolyOf(c)) && e != 32 {
      InTimesX(PolyOf(c), e);
      if e == 0 {
        HalvedTop(c);
      } else if e < 32 {
        HalvedCoefficient(c, e);
      }
    }
  }

  lemma HalvedCoefficient(c: bv32, e: nat)
    requires 0 < e < 32
    ensures Coefficient(Halved(c), e) == Coefficient(c, e - 1)
  {
    hide Doubled, Halved, Xor, Low1;
    HalvedDoubled(c);
    CoefficientXor(c, Low1(c), e - 1);
    ZeroHasNone(e - 1);
    OneIsLast();
  }

  /** Multiplication by x, reduced by the generator. */
  function TimesXReduced(p: Poly): Poly {
    if 31 in p then Add(TimesX(p), GENERATOR) else TimesX(p)
  }

  /** One shift of the register is a multiplication by x. */
  lemma ShiftIsTimesX(c: bv32)
    ensures PolyOf(Shift(c)) == TimesXReduced(PolyOf(c))
  {
    hide Coefficient, Halved, Shift, Xor, Low1;
    ShiftByLow(c);
    LastCoefficient(c);
    HalvedIsTimesX(c);
    InTimesX(PolyOf(c), 32);
    if Low1(c) == 1 {
      XorAdds(POLYNOMIAL, Halved(c));
      PolynomialIsGenerator();
    }
  }

  // ----- messages

  /** The lowest `n` bits of a byte in the order they are sent, the lowest first. */
  function BitsFrom(b: bv8, n: nat): seq<bool>
    decreases n
  {
    if n == 0 then [] else [b & 1 != 0] + BitsFrom(b >> 1, n - 1)
  }

  function Bits(b: bv8): seq<bool> { BitsFrom(b, 8) }

  function AllBits(bs: Bytes): seq<bool> {
    if bs == [] then [] else Bits(bs[0]) + AllBits(bs[1..])
  }

  function BitStep(c: bv32, bit: bool): bv32 {
    Shift(if bit then Xor(c, 1) else c)
  }

  /** The register after some bits. */
  function RunBits(c: bv32, bits: seq<bool>): bv32 {
    if bits == [] then c
    else
      var n := |bits| - 1;
      BitStep(RunBits(c, bits[..n]), bits[n])
  }

  /** A message with the register's content in front. */
  function Message(p: Poly, bits: seq<bool>): Poly {
    Add(TimesPower(p, |bits|), Product(bits, {32}))
  }

  lemma OneIsTop()
    ensures PolyOf(1) == {31}
  {
    hide Coefficient;
    OneIsLast();
  }

  lemma BitStepIs(c: bv32, bit: bool)
    ensures PolyOf(BitStep(c, bit)) == TimesXReduced(Add(PolyOf(c), if bit then {31} else {}))
  {
    hide Coefficient, Shift, Xor;
    OneIsTop();
    XorAdds(c, 1);
    ShiftIsTimesX(if bit then Xor(c, 1) else c);
    AddTwice(PolyOf(c), {});
  }

  lemma MessageMore(p: Poly, bits: seq<bool>)
    requires bits != []
    ensures var n := |bits| - 1;
            Message(p, bits) == Add(TimesX(Message(p, bits[..n])), if bits[n] then {32} else {})
  {
    hide Add, TimesX;
    var n := |bits| - 1;
    var a, b := TimesPower(p, n), Product(bits[..n], {32});
    TimesXAdd(a, b);
    AddAssoc(TimesX(a), TimesX(b), if bits[n] then {32} else {});
  }

  /** What the register holds is what is left of the message after some multiple of the generator
      has been taken away. */
  lemma {:induction false} RegisterIsRemainder(c: bv32, bits: seq<bool>) returns (quotient: seq<bool>)
    ensures Message(PolyOf(c), bits) == Add(Product(quotient, GENERATOR), PolyOf(RunBits(c, bits)))
  {
    hide Add, TimesX, PolyOf, BitStep, Message, GENERATOR;
    if bits == [] {
      quotient := [];
      NoMessage(PolyOf(c));
    } else {
      var n := |bits| - 1;
      var front := RegisterIsRemainder(c, bits[..n]);
      var r, bit := RunBits(c, bits[..n]), bits[n];
      var top := 31 in Add(PolyOf(r), if bit then {31} else {});
      quotient := front + [top];
      assert quotient[..|front|] == front;
      MessageMore(PolyOf(c), bits);
      BitStepIs(r, bit);
      OneMoreBit(Product(front, GENERATOR), PolyOf(r), bit);
    }
  }

  lemma NoMessage(p: Poly)
    ensures Message(p, []) == p && Add(Product([], GENERATOR), p) == p
  {
  }

  lemma OneMoreBit(m: Poly, r: Poly, bit: bool)
    ensures var sum := Add(r, if bit then {31} else {});
            Add(TimesX(Add(m, r)), if bit then {32} else {})
            == Add(Add(TimesX(m), if 31 in sum then GENERATOR else {}), TimesXReduced(sum))
  {
    hide TimesX, GENERATOR;
    var sum := Add(r, if bit then {31} else {});
    var high: Poly := if bit then {32} else {};
    TimesXAdd(m, r);
    TimesXAdd(r, if bit then {31} else {});
    assert TimesX(if bit then {31} else {}) == high by {
      SmallTimesX();
    }
    XorOut(TimesX(m), TimesX(r), high, if 31 in sum then GENERATOR else {});
    AddTwice(TimesX(sum), {});
  }

  lemma SmallTimesX()
    ensures TimesX({31}) == {32} && TimesX({}) == {}
  {
    InTimesX({31}, 32);
  }

  lemma XorOut(m: Poly, r: Poly, high: Poly, g: Poly)
    ensures Add(Add(m, r), high) == Add(Add(m, g), Add(Add(r, high), g))
  {
  }

  // ----- bytes

  lemma LowParts(w: bv32)
    ensures Xor(Low1(w), Doubled(Halved(w))) == w
    ensures Low1(w) == if w & 1 != 0 then 1 else 0
  {
  }

  lemma ShiftDoubled(c: bv32)
    requires Halved(Doubled(c)) == c
    ensures Shift(Doubled(c)) == c
  {
  }

  lemma HalvedTwice(w: bv32)
    ensures Halved(Doubled(Halved(w))) == Halved(w)
  {
  }

  /** One bit of a word is mixed in, the rest of it still to come. */
  lemma PeelBit(c: bv32, w: bv32)
    ensures Shift(Xor(c, w)) == Xor(BitStep(c, w & 1 != 0), Halved(w))
  {
    hide Shift, Xor, Halved, Doubled, Low1;
    LowParts(w);
    XorAssoc(c, Low1(w), Doubled(Halved(w)));
    ShiftXor(Xor(c, Low1(w)), Doubled(Halved(w)));
    HalvedTwice(w);
    ShiftDoubled(Halved(w));
    XorZero(c);
  }

  lemma {:induction false} RunBitsConcat(c: bv32, a: seq<bool>, b: seq<bool>)
    ensures RunBits(c, a + b) == RunBits(RunBits(c, a), b)
    decreases |b|
  {
    hide BitStep;
    if b == [] {
      assert a + b == a;
    } else {
      var n := |b| - 1;
      assert (a + b)[..|a + b| - 1] == a + b[..n];
      RunBitsConcat(c, a, b[..n]);
    }
  }

  lemma RunOneBit(c: bv32, bit: bool)
    ensures RunBits(c, [bit]) == BitStep(c, bit)
  {
    assert [bit][..0] == [];
  }

  /** The lowest `n` bits of a word, from the lowest up. */
  function WordBits(w: bv32, n: nat): seq<bool>
    decreases n
  {
    if n == 0 then [] else [w & 1 != 0] + WordBits(Halved(w), n - 1)
  }

  function ShiftTimes(c: bv32, n: nat): bv32
    decreases n
  {
    if n == 0 then c else ShiftTimes(Shift(c), n - 1)
  }

  function HalvedTimes(w: bv32, n: nat): bv32
    decreases n
  {
    if n == 0 then w else HalvedTimes(Halved(w), n - 1)
  }

  lemma {:induction false} PeelBits(c: bv32, w: bv32, n: nat)
    ensures ShiftTimes(Xor(c, w), n) == Xor(RunBits(c, WordBits(w, n)), HalvedTimes(w, n))
    decreases n
  {
    hide Shift, BitStep, Xor, Halved;
    if n > 0 {
      var bit := w & 1 != 0;
      PeelBit(c, w);
      PeelBits(BitStep(c, bit), Halved(w), n - 1);
      RunBitsConcat(c, [bit], WordBits(Halved(w), n - 1));
      RunOneBit(c, bit);
    }
  }

  lemma WideHalved(b: bv8)
    ensures Halved(Wide(b)) == Wide(b >> 1) && (Wide(b) & 1 != 0 <==> b & 1 != 0)
  {
  }

  lemma {:induction false} ByteBits(b: bv8, n: nat)
    ensures WordBits(Wide(b), n) == BitsFrom(b, n)
    decreases n
  {
    hide Halved, Wide;
    if n > 0 {
      WideHalved(b);
      ByteBits(b >> 1, n - 1);
    }
  }

  lemma ByteGone(b: bv8)
    ensures HalvedTimes(Wide(b), 8) == 0
  {
    var w4 := Halved(Halved(Halved(Halved(Wide(b)))));
    assert Halved(Halved(Halved(Halved(w4)))) == 0;
    hide Halved, Wide;
    assert HalvedTimes(Wide(b), 8) == HalvedTimes(w4, 4);
  }

  lemma ShiftTimes8(c: bv32)
    ensures ShiftTimes(c, 8) == Shift8(c)
  {
    hide Shift;
    var c4 := Shift(Shift(Shift(Shift(c))));
    assert ShiftTimes(c, 8) == ShiftTimes(c4, 4);
  }

  /** A step of the table is eight bits of the byte, the lowest first. */
  lemma StepIsBits(c: bv32, b: bv8)
    ensures Step(c, b) == RunBits(c, Bits(b))
  {
    hide Step, Shift8, Xor, Wide, BitsFrom, WordBits, HalvedTimes, ShiftTimes, RunBits;
    StepIsShift8(c, b);
    ShiftTimes8(Xor(c, Wide(b)));
    PeelBits(c, Wide(b), 8);
    ByteBits(b, 8);
    ByteGone(b);
    XorZero(RunBits(c, Bits(b)));
  }

  lemma {:induction false} RunIsBits(c: bv32, bs: Bytes)
    ensures Run(c, bs) == RunBits(c, AllBits(bs))
    decreases |bs|
  {
    hide Step, Bits;
    if bs != [] {
      StepIsBits(c, bs[0]);
      RunIsBits(Step(c, bs[0]), bs[1..]);
      RunBitsConcat(c, Bits(bs[0]), AllBits(bs[1..]));
    }
  }

  // ----- the checksum

  /** Thirty-two ones: the register begins with them, and they are added to it at the end. */
  const COMPLEMENT: Poly := set e: nat | e < 32

  lemma OnesBits()
    ensures Coefficient(0xffff_ffff, 0) && Coefficient(0xffff_ffff, 1)
            && Coefficient(0xffff_ffff, 2) && Coefficient(0xffff_ffff, 3)
    ensures Coefficient(0xffff_ffff, 4) && Coefficient(0xffff_ffff, 5)
            && Coefficient(0xffff_ffff, 6) && Coefficient(0xffff_ffff, 7)
    ensures Coefficient(0xffff_ff00, 0) && Coefficient(0xffff_ff00, 1)
            && Coefficient(0xffff_ff00, 2) && Coefficient(0xffff_ff00, 3)
    ensures Coefficient(0xffff_ff00, 4) && Coefficient(0xffff_ff00, 5)
            && Coefficient(0xffff_ff00, 6) && Coefficient(0xffff_ff00, 7)
    ensures Coefficient(0xffff_0000, 0) && Coefficient(0xffff_0000, 1)
            && Coefficient(0xffff_0000, 2) && Coefficient(0xffff_0000, 3)
    ensures Coefficient(0xffff_0000, 4) && Coefficient(0xffff_0000, 5)
            && Coefficient(0xffff_0000, 6) && Coefficient(0xffff_0000, 7)
    ensures Coefficient(0xff00_0000, 0) && Coefficient(0xff00_0000, 1)
            && Coefficient(0xff00_0000, 2) && Coefficient(0xff00_0000, 3)
    ensures Coefficient(0xff00_0000, 4) && Coefficient(0xff00_0000, 5)
            && Coefficient(0xff00_0000, 6) && Coefficient(0xff00_0000, 7)
  {
  }

  lemma OnesAreAll()
    ensures PolyOf(ONES) == COMPLEMENT
  {
    hide Coefficient;
    OnesBits();
    forall e: nat | e < 32 ensures Coefficient(ONES, e) {
      if e >= 8 {
        CoefficientBehind(ONES, e);
      }
      if e >= 16 {
        CoefficientBehind(0xffff_ff00, e - 8);
      }
      if e >= 24 {
        CoefficientBehind(0xffff_0000, e - 16);
      }
    }
  }

  /** The checksum of section 8 of RFC 1952: the remainder of the message, with thirty-two ones in
      front, by the generator, with thirty-two ones added. */
  lemma CrcIsRemainder(bs: Bytes)
    ensures IsRemainder(Message(COMPLEMENT, AllBits(bs)), Add(PolyOf(Crc(bs)), COMPLEMENT))
  {
    hide Add, Xor, Run, RunBits, Message, Product, GENERATOR, Coefficient;
    var r := Run(ONES, bs);
    FreshRegister();
    RunIsBits(ONES, bs);
    OnesAreAll();
    Twice(r);
    XorAdds(Crc(bs), ONES);
    var quotient := RegisterIsRemainder(ONES, AllBits(bs));
    assert PolyOf(r) == Add(PolyOf(Crc(bs)), COMPLEMENT);
  }

  // ----- there is one remainder only

  function Sums(a: seq<bool>, b: seq<bool>): seq<bool>
    requires |a| == |b|
  {
    if a == [] then []
    else
      var n := |a| - 1;
      Sums(a[..n], b[..n]) + [a[n] != b[n]]
  }

  lemma {:induction false} ProductSums(a: seq<bool>, b: seq<bool>, p: Poly)
    requires |a| == |b|
    ensures Product(Sums(a, b), p) == Add(Product(a, p), Product(b, p))
  {
    hide TimesX, Add, Sums;
    SumsUnfold(a, b);
    if a == [] {
      AddTwice({}, {});
    } else {
      var n := |a| - 1;
      var front, back := a[..n], b[..n];
      ProductSums(front, back, p);
      TimesXAdd(Product(front, p), Product(back, p));
      Regrouped(TimesX(Product(front, p)), TimesX(Product(back, p)), if a[n] then p else {}, if b[n] then p else {});
      OneSum(a[n], b[n], p);
    }
  }

  lemma SumsUnfold(a: seq<bool>, b: seq<bool>)
    requires |a| == |b|
    ensures |Sums(a, b)| == |a|
    ensures a != [] ==>
              var n := |a| - 1;
              |a[..n]| == |b[..n]| && Sums(a, b)[..n] == Sums(a[..n], b[..n]) && Sums(a, b)[n] == (a[n] != b[n])
  {
    if a != [] {
      SumsUnfold(a[..|a| - 1], b[..|b| - 1]);
    }
  }

  lemma OneSum(a: bool, b: bool, p: Poly)
    ensures Add(if a then p else {}, if b then p else {}) == if a != b then p else {}
  {
  }

  lemma Regrouped(a: Poly, b: Poly, c: Poly, d: Poly)
    ensures Add(Add(a, b), Add(c, d)) == Add(Add(a, c), Add(b, d))
  {
  }

  lemma {:induction false} ProductPadded(k: nat, q: seq<bool>, p: Poly)
    ensures Product(seq(k, _ => false) + q, p) == Product(q, p)
    decreases k + |q|
  {
    var padded := seq(k, _ => false) + q;
    if q != [] {
      var n := |q| - 1;
      assert padded[..|padded| - 1] == seq(k, _ => false) + q[..n];
      ProductPadded(k, q[..n], p);
    } else if k > 0 {
      assert padded[..|padded| - 1] == seq(k - 1, _ => false) + [];
      ProductPadded(k - 1, [], p);
      assert TimesX({}) == {};
    }
  }

  /** The highest exponent is 32 or more. */
  ghost predicate High(p: Poly) {
    exists e :: e in p && e >= 32 && forall f | f in p :: f <= e
  }

  lemma HighGrows(m: Poly, g: Poly)
    requires High(m) && forall f | f in g :: f <= 32
    ensures High(Add(TimesX(m), g))
  {
    hide TimesX;
    var e :| e in m && e >= 32 && forall f | f in m :: f <= e;
    InTimesX(m, e + 1);
    var p := Add(TimesX(m), g);
    assert e + 1 in p;
    forall f | f in p ensures f <= e + 1 {
      InTimesX(m, f);
    }
  }

  lemma GeneratorBelow()
    ensures 32 in GENERATOR && forall f | f in GENERATOR :: f <= 32
  {
  }

  lemma GeneratorHigh()
    ensures High(GENERATOR) && forall f | f in GENERATOR :: f <= 32
  {
    hide GENERATOR;
    GeneratorBelow();
    var e: nat := 32;
    assert e in GENERATOR;
  }

  /** A multiple of the generator is nothing, or has a high exponent. */
  lemma {:induction false} MultiplesAreHigh(q: seq<bool>)
    ensures Product(q, GENERATOR) == {} || High(Product(q, GENERATOR))
  {
    hide Add, TimesX, GENERATOR, High;
    if q != [] {
      var n := |q| - 1;
      var m, g: Poly := Product(q[..n], GENERATOR), if q[n] then GENERATOR else {};
      MultiplesAreHigh(q[..n]);
      GeneratorHigh();
      if m == {} {
        NothingTimesX(g);
      } else {
        HighGrows(m, g);
      }
    }
  }

  lemma NothingTimesX(g: Poly)
    ensures Add(TimesX({}), g) == g
  {
  }

  /** No polynomial has two remainders. */
  lemma RemainderUnique(p: Poly, r: Poly, r': Poly)
    requires IsRemainder(p, r) && IsRemainder(p, r')
    ensures r == r'
  {
    hide Product, GENERATOR;
    var q :| p == Add(Product(q, GENERATOR), r);
    var q' :| p == Add(Product(q', GENERATOR), r');
    var a, b := seq(|q'|, _ => false) + q, seq(|q|, _ => false) + q';
    ProductPadded(|q'|, q, GENERATOR);
    ProductPadded(|q|, q', GENERATOR);
    ProductSums(a, b, GENERATOR);
    MultiplesAreHigh(Sums(a, b));
    SameSum(Product(q, GENERATOR), Product(q', GENERATOR), r, r');
  }

  lemma SameSum(m: Poly, m': Poly, r: Poly, r': Poly)
    requires Add(m, r) == Add(m', r')
    ensures Add(m, m') == Add(r, r')
    ensures Add(r, r') == {} ==> r == r'
  {
    forall e ensures e in Add(m, m') <==> e in Add(r, r') {
      assert e in Add(m, r) <==> e in Add(m', r');
    }
    if Add(r, r') == {} {
      forall e ensures e in r <==> e in r' {
        assert e !in Add(r, r');
      }
    }
  }
}
