/** CRC-32 as section 8 of RFC 1952 computes it, chained over buffers the way `zlib.crc32` is. */
module Crc32 {
  type Bytes = seq<bv8>

  const POLYNOMIAL: bv32 := 0xedb88320
  const ONES: bv32 := 0xffff_ffff

  // The word operations have names, so that a proof can look inside them or leave them alone.

  function Xor(a: bv32, b: bv32): bv32 { a ^ b }

  function Low(c: bv32): bv8 { (c & 0xff) as bv8 }

  function Down(c: bv32): bv32 { c >> 8 }

  function Wide(b: bv8): bv32 { b as bv32 }

  /** One bit of the table computation. */
  function Shift(c: bv32): bv32 {
    if c & 1 == 1 then POLYNOMIAL ^ (c >> 1) else c >> 1
  }

  function Shift8(c: bv32): bv32 {
    Shift(Shift(Shift(Shift(Shift(Shift(Shift(Shift(c))))))))
  }

  /** Entry `n` of the table. */
  function TableEntry(n: bv8): bv32 {
    Shift8(Wide(n))
  }

  /** The register after one more byte. */
  function Step(c: bv32, b: bv8): bv32 {
    Xor(TableEntry(Low(Xor(c, Wide(b)))), Down(c))
  }

  /** The register after a buffer. */
  function Run(c: bv32, bs: Bytes): bv32
    decreases |bs|
  {
    if bs == [] then c else Run(Step(c, bs[0]), bs[1..])
  }

  /** `zlib.crc32(bs, start)`: the register is kept complemented between buffers. */
  function Update(bs: Bytes, start: bv32): bv32 {
    Xor(Run(Xor(start, ONES), bs), ONES)
  }

  function Crc(bs: Bytes): bv32 { Update(bs, 0) }

  // ----- chaining

  lemma {:induction false} RunConcat(c: bv32, a: Bytes, b: Bytes)
    ensures Run(c, a + b) == Run(Run(c, a), b)
    decreases |a|
  {
    hide Step;
    if a == [] {
      assert a + b == b;
    } else {
      assert (a + b)[1..] == a[1..] + b;
      RunConcat(Step(c, a[0]), a[1..], b);
    }
  }

  lemma Twice(a: bv32)
    ensures Xor(Xor(a, ONES), ONES) == a
  {
  }

  /** Feeding two buffers one after the other is feeding their concatenation. */
  lemma UpdateConcat(a: Bytes, b: Bytes, start: bv32)
    ensures Update(b, Update(a, start)) == Update(a + b, start)
  {
    hide Run, Xor;
    RunConcat(Xor(start, ONES), a, b);
    Twice(Run(Xor(start, ONES), a));
  }

  function Concat(fields: seq<Bytes>): Bytes {
    if fields == [] then [] else fields[0] + Concat(fields[1..])
  }

  function Chain(fields: seq<Bytes>, start: bv32): bv32
    decreases |fields|
  {
    if fields == [] then start else Chain(fields[1..], Update(fields[0], start))
  }

  lemma UpdateNothing(start: bv32)
    ensures Update([], start) == start
  {
    Twice(start);
  }

  /** Chained field by field, for every split into fields, the checksum is that of all the bytes
      at once. */
  lemma {:induction false} ChainIsOneShot(fields: seq<Bytes>, start: bv32)
    ensures Chain(fields, start) == Update(Concat(fields), start)
    decreases |fields|
  {
    hide Update;
    if fields == [] {
      UpdateNothing(start);
    } else {
      ChainIsOneShot(fields[1..], Update(fields[0], start));
      UpdateConcat(fields[0], Concat(fields[1..]), start);
    }
  }

  // ----- the register update is one to one and respects exclusive or

  function Unshift(c: bv32): bv32 {
    if c & 0x8000_0000 != 0 then ((c ^ POLYNOMIAL) << 1) | 1 else c << 1
  }

  lemma UnshiftShift(c: bv32)
    ensures Unshift(Shift(c)) == c
  {
  }

  lemma ShiftInjective(a: bv32, b: bv32)
    requires Shift(a) == Shift(b)
    ensures a == b
  {
    hide Shift, Unshift;
    UnshiftShift(a);
    UnshiftShift(b);
  }

  lemma Shift8Injective(a: bv32, b: bv32)
    requires Shift8(a) == Shift8(b)
    ensures a == b
  {
    hide Shift;
    var a1, b1 := Shift(a), Shift(b);
    var a2, b2 := Shift(a1), Shift(b1);
    var a3, b3 := Shift(a2), Shift(b2);
    var a4, b4 := Shift(a3), Shift(b3);
    var a5, b5 := Shift(a4), Shift(b4);
    var a6, b6 := Shift(a5), Shift(b5);
    var a7, b7 := Shift(a6), Shift(b6);
    ShiftInjective(a7, b7);
    ShiftInjective(a6, b6);
    ShiftInjective(a5, b5);
    ShiftInjective(a4, b4);
    ShiftInjective(a3, b3);
    ShiftInjective(a2, b2);
    ShiftInjective(a1, b1);
    ShiftInjective(a, b);
  }

  lemma LowBit(a: bv32)
    ensures a & 1 == 0 || a & 1 == 1
  {
  }

  lemma XorOddOdd(a: bv32, b: bv32)
    requires a & 1 == 1 && b & 1 == 1
    ensures Shift(Xor(a, b)) == Xor(Shift(a), Shift(b))
  {
  }

  lemma XorEvenEven(a: bv32, b: bv32)
    requires a & 1 == 0 && b & 1 == 0
    ensures Shift(Xor(a, b)) == Xor(Shift(a), Shift(b))
  {
  }

  lemma XorEvenOdd(a: bv32, b: bv32)
    requires a & 1 == 0 && b & 1 == 1
    ensures Shift(Xor(a, b)) == Xor(Shift(a), Shift(b))
  {
  }

  lemma XorCommutes(a: bv32, b: bv32)
    ensures Xor(a, b) == Xor(b, a)
  {
  }

  lemma ShiftXor(a: bv32, b: bv32)
    ensures Shift(Xor(a, b)) == Xor(Shift(a), Shift(b))
  {
    hide Shift, Xor;
    LowBit(a);
    LowBit(b);
    if a & 1 == 1 && b & 1 == 1 {
      XorOddOdd(a, b);
    } else if a & 1 == 1 {
      XorEvenOdd(b, a);
      XorCommutes(a, b);
      XorCommutes(Shift(a), Shift(b));
    } else if b & 1 == 1 {
      XorEvenOdd(a, b);
    } else {
      XorEvenEven(a, b);
    }
  }

  lemma Shift8Xor(a: bv32, b: bv32)
    ensures Shift8(Xor(a, b)) == Xor(Shift8(a), Shift8(b))
  {
    hide Shift, Xor;
    var a1, b1 := Shift(a), Shift(b);
    var a2, b2 := Shift(a1), Shift(b1);
    var a3, b3 := Shift(a2), Shift(b2);
    var a4, b4 := Shift(a3), Shift(b3);
    var a5, b5 := Shift(a4), Shift(b4);
    var a6, b6 := Shift(a5), Shift(b5);
    var a7, b7 := Shift(a6), Shift(b6);
    ShiftXor(a, b);
    ShiftXor(a1, b1);
    ShiftXor(a2, b2);
    ShiftXor(a3, b3);
    ShiftXor(a4, b4);
    ShiftXor(a5, b5);
    ShiftXor(a6, b6);
    ShiftXor(a7, b7);
  }

  function High(c: bv32): bv32 { c & 0xffff_ff00 }

  /** Eight shifts only move down a word whose low byte is 0. */
  lemma ShiftHigh(c: bv32)
    ensures Shift8(High(c)) == Down(c)
  {
  }

  lemma Halves(c: bv32)
    ensures Xor(Wide(Low(c)), High(c)) == c
  {
  }

  lemma DownByte(c: bv32, b: bv8)
    ensures Down(Xor(c, Wide(b))) == Down(c)
  {
  }

  /** A table lookup is eight shifts of the register with the byte mixed in. */
  lemma StepIsShift8(c: bv32, b: bv8)
    ensures Step(c, b) == Shift8(Xor(c, Wide(b)))
  {
    hide Shift8, Xor, Wide, Low, High, Down;
    var x := Xor(c, Wide(b));
    Halves(x);
    DownByte(c, b);
    Shift8Xor(Wide(Low(x)), High(x));
    ShiftHigh(x);
  }

  lemma XorCancel(c: bv32, a: bv32, b: bv32)
    requires Xor(c, a) == Xor(c, b)
    ensures a == b
  {
  }

  lemma StepInjective(c: bv32, d: bv32, b: bv8)
    requires Step(c, b) == Step(d, b)
    ensures c == d
  {
    hide Step, Shift8, Xor, Wide;
    StepIsShift8(c, b);
    StepIsShift8(d, b);
    Shift8Injective(Xor(c, Wide(b)), Xor(d, Wide(b)));
    XorCommutes(c, Wide(b));
    XorCommutes(d, Wide(b));
    XorCancel(Wide(b), c, d);
  }

  /** Two different registers stay different over any common suffix. */
  lemma {:induction false} RunInjective(c: bv32, d: bv32, bs: Bytes)
    requires Run(c, bs) == Run(d, bs)
    ensures c == d
    decreases |bs|
  {
    hide Step;
    if bs != [] {
      RunInjective(Step(c, bs[0]), Step(d, bs[0]), bs[1..]);
      StepInjective(c, d, bs[0]);
    }
  }

  // ----- four bytes at a time

  function Pack(b0: bv8, b1: bv8, b2: bv8, b3: bv8): bv32 {
    (b0 as bv32) | ((b1 as bv32) << 8) | ((b2 as bv32) << 16) | ((b3 as bv32) << 24)
  }

  /** Four bytes as a little-endian word. */
  function Word(bs: Bytes): bv32
    requires |bs| == 4
  {
    Pack(bs[0], bs[1], bs[2], bs[3])
  }

  function WordBytes(x: bv32): (bs: Bytes)
    ensures |bs| == 4
  {
    [Low(x), Low(Down(x)), Low(Down(Down(x))), Low(Down(Down(Down(x))))]
  }

  lemma PackLow(b0: bv8, b1: bv8, b2: bv8, b3: bv8)
    ensures Low(Pack(b0, b1, b2, b3)) == b0
  {
  }

  lemma PackDown(b0: bv8, b1: bv8, b2: bv8, b3: bv8)
    ensures Down(Pack(b0, b1, b2, b3)) == Pack(b1, b2, b3, 0)
  {
  }

  lemma PackZero()
    ensures Pack(0, 0, 0, 0) == 0
  {
  }

  lemma PackUnpacked(x: bv32)
    ensures Pack(Low(x), Low(Down(x)), Low(Down(Down(x))), Low(Down(Down(Down(x))))) == x
  {
  }

  lemma WordRoundTrip(x: bv32)
    ensures Word(WordBytes(x)) == x
  {
    hide Pack, Low, Down;
    PackUnpacked(x);
  }

  lemma WordBytesRoundTrip(bs: Bytes)
    requires |bs| == 4
    ensures WordBytes(Word(bs)) == bs
  {
    hide Pack, Low, Down;
    PackLow(bs[0], bs[1], bs[2], bs[3]);
    PackDown(bs[0], bs[1], bs[2], bs[3]);
    PackLow(bs[1], bs[2], bs[3], 0);
    PackDown(bs[1], bs[2], bs[3], 0);
    PackLow(bs[2], bs[3], 0, 0);
    PackDown(bs[2], bs[3], 0, 0);
    PackLow(bs[3], 0, 0, 0);
  }

  lemma WordInjective(a: Bytes, b: Bytes)
    requires |a| == 4 && |b| == 4 && Word(a) == Word(b)
    ensures a == b
  {
    hide Word, WordBytes;
    WordBytesRoundTrip(a);
    WordBytesRoundTrip(b);
  }

  lemma XorAssoc(c: bv32, a: bv32, b: bv32)
    ensures Xor(c, Xor(a, b)) == Xor(Xor(c, a), b)
  {
  }

  /** Mixing in a whole word and shifting once is one step, with the rest of the word to come. */
  lemma Peel(c: bv32, w: bv32)
    ensures Shift8(Xor(c, w)) == Xor(Step(c, Low(w)), Down(w))
  {
    hide Shift8, Step, Xor, Wide, Low, High, Down;
    Halves(w);
    XorAssoc(c, Wide(Low(w)), High(w));
    Shift8Xor(Xor(c, Wide(Low(w))), High(w));
    StepIsShift8(c, Low(w));
    ShiftHigh(w);
  }

  function Shift32(c: bv32): bv32 {
    Shift8(Shift8(Shift8(Shift8(c))))
  }

  lemma Shift32Injective(a: bv32, b: bv32)
    requires Shift32(a) == Shift32(b)
    ensures a == b
  {
    hide Shift8;
    Shift8Injective(Shift8(Shift8(Shift8(a))), Shift8(Shift8(Shift8(b))));
    Shift8Injective(Shift8(Shift8(a)), Shift8(Shift8(b)));
    Shift8Injective(Shift8(a), Shift8(b));
    Shift8Injective(a, b);
  }

  lemma RunFour(c: bv32, bs: Bytes)
    requires |bs| == 4
    ensures Run(c, bs) == Step(Step(Step(Step(c, bs[0]), bs[1]), bs[2]), bs[3])
  {
    hide Step;
    assert bs[1..][1..] == bs[2..] && bs[2..][1..] == bs[3..] && bs[3..][1..] == [];
    var c1 := Step(c, bs[0]);
    assert Run(c, bs) == Run(c1, bs[1..]);
    var c2 := Step(c1, bs[1]);
    assert Run(c1, bs[1..]) == Run(c2, bs[2..]);
    var c3 := Step(c2, bs[2]);
    assert Run(c2, bs[2..]) == Run(c3, bs[3..]);
    var c4 := Step(c3, bs[3]);
    assert Run(c3, bs[3..]) == Run(c4, []);
  }

  lemma XorZero(c: bv32)
    ensures Xor(c, 0) == c
  {
  }

  /** Four bytes change the register as their word does, all at once. */
  lemma RunWord(c: bv32, bs: Bytes)
    requires |bs| == 4
    ensures Run(c, bs) == Shift32(Xor(c, Word(bs)))
  {
    hide Shift8, Step, Run, Xor, Low, Down, Pack;
    var w := Word(bs);
    PackLow(bs[0], bs[1], bs[2], bs[3]);
    PackDown(bs[0], bs[1], bs[2], bs[3]);
    PackLow(bs[1], bs[2], bs[3], 0);
    PackDown(bs[1], bs[2], bs[3], 0);
    PackLow(bs[2], bs[3], 0, 0);
    PackDown(bs[2], bs[3], 0, 0);
    PackLow(bs[3], 0, 0, 0);
    PackDown(bs[3], 0, 0, 0);
    PackZero();
    RunFour(c, bs);
    var c1 := Step(c, bs[0]);
    var c2 := Step(c1, bs[1]);
    var c3 := Step(c2, bs[2]);
    Peel(c, w);
    Peel(c1, Down(w));
    Peel(c2, Down(Down(w)));
    Peel(c3, Down(Down(Down(w))));
    XorZero(Step(c3, bs[3]));
  }

  /** Any change within four consecutive bytes changes the register at the end. */
  lemma BurstChangesRegister(c: bv32, front: Bytes, x: Bytes, y: Bytes, back: Bytes)
    requires |x| == 4 && |y| == 4 && x != y
    ensures Run(c, front + x + back) != Run(c, front + y + back)
  {
    hide Run, Word, Shift32, Xor;
    var d := Run(c, front);
    RunConcat(c, front + x, back);
    RunConcat(c, front + y, back);
    RunConcat(c, front, x);
    RunConcat(c, front, y);
    if Run(c, front + x + back) == Run(c, front + y + back) {
      RunInjective(Run(d, x), Run(d, y), back);
      RunWord(d, x);
      RunWord(d, y);
      Shift32Injective(Xor(d, Word(x)), Xor(d, Word(y)));
      XorCancel(d, Word(x), Word(y));
      WordInjective(x, y);
    }
  }

  // ----- a message with its checksum behind it

  lemma Complement(c: bv32)
    ensures Xor(c, Xor(c, ONES)) == ONES
  {
  }

  lemma FreshRegister()
    ensures Xor(0, ONES) == ONES
  {
  }

  /** A message followed by four bytes is in order exactly when the register ends on one fixed
      residue. */
  lemma ResidueIffChecksum(m: Bytes, f: Bytes)
    requires |f| == 4
    ensures Word(f) == Crc(m) <==> Run(ONES, m + f) == Shift32(ONES)
  {
    hide Run, Word, Shift32, Xor;
    var c := Run(ONES, m);
    FreshRegister();
    RunConcat(ONES, m, f);
    RunWord(c, f);
    Complement(c);
    if Shift32(Xor(c, Word(f))) == Shift32(ONES) {
      Shift32Injective(Xor(c, Word(f)), ONES);
      XorCancel(c, Word(f), Xor(c, ONES));
    }
  }

  // ----- bursts of 32 bits

  // The register takes the bits of a byte from the lowest up, and bursts are counted in that order.

  /** `k` shifts, the first one first. */
  function Shifts(c: bv32, k: bv8): bv32
    decreases k
  {
    if k == 0 then c else Shifts(Shift(c), k - 1)
  }

  lemma {:induction false} ShiftsInjective(a: bv32, b: bv32, k: bv8)
    requires Shifts(a, k) == Shifts(b, k)
    ensures a == b
    decreases k
  {
    hide Shift;
    if k != 0 {
      ShiftsInjective(Shift(a), Shift(b), k - 1);
      ShiftInjective(a, b);
    }
  }

  lemma {:induction false} ShiftsAgain(c: bv32, j: bv8, k: bv8)
    requires j <= 32 && k <= 32
    ensures Shifts(c, j + k) == Shifts(Shifts(c, j), k)
    decreases j
  {
    hide Shift;
    if j != 0 {
      ShiftsAgain(Shift(c), j - 1, k);
      OneLess(j, k);
    }
  }

  lemma OneLess(j: bv8, k: bv8)
    requires 0 < j <= 32 && k <= 32
    ensures j + k != 0 && j + k - 1 == j - 1 + k
  {
  }

  lemma Shifts8(c: bv32)
    ensures Shifts(c, 8) == Shift8(c)
  {
    hide Shift;
    var c1 := Shift(c);
    var c2 := Shift(c1);
    var c3 := Shift(c2);
    var c4 := Shift(c3);
    var c5 := Shift(c4);
    var c6 := Shift(c5);
    var c7 := Shift(c6);
    assert Shifts(c, 8) == Shifts(c1, 7) == Shifts(c2, 6) == Shifts(c3, 5) == Shifts(c4, 4);
    assert Shifts(c4, 4) == Shifts(c5, 3) == Shifts(c6, 2) == Shifts(c7, 1) == Shifts(Shift(c7), 0);
  }

  lemma Shifts32(c: bv32)
    ensures Shifts(c, 32) == Shift32(c)
  {
    hide Shift8, Shifts;
    Shifts8(c);
    Shifts8(Shift8(c));
    Shifts8(Shift8(Shift8(c)));
    Shifts8(Shift8(Shift8(Shift8(c))));
    ShiftsAgain(c, 8, 24);
    ShiftsAgain(Shift8(c), 8, 16);
    ShiftsAgain(Shift8(Shift8(c)), 8, 8);
  }

  function Left(c: bv32, k: bv8): bv32
    requires k <= 32
  {
    c << k
  }

  function Right(c: bv32, k: bv8): bv32
    requires k <= 32
  {
    c >> k
  }

  lemma ShiftLeft(c: bv32, k: bv8)
    requires 0 < k <= 32 && Right(Left(c, k), k) == c
    ensures Shift(Left(c, k)) == Left(c, k - 1) && Right(Left(c, k - 1), k - 1) == c
  {
  }

  /** Low bits that are 0 go without a trace. */
  lemma {:induction false} ShiftsLeft(c: bv32, k: bv8)
    requires k <= 32 && Right(Left(c, k), k) == c
    ensures Shifts(Left(c, k), k) == c
    decreases k
  {
    hide Shift, Left, Right;
    if k == 0 {
      LeftNone(c);
    } else {
      ShiftLeft(c, k);
      ShiftsLeft(c, k - 1);
    }
  }

  lemma LeftNone(c: bv32)
    ensures Left(c, 0) == c
  {
  }

  /** No change of bits from bit `s` of a word on is undone by one below bit `s` of the word that
      follows. */
  lemma BurstNotUndone(d: bv32, e: bv32, s: bv8)
    requires s <= 7 && Left(Right(d, s), s) == d && Right(e, s) == 0 && Shift32(d) == e
    ensures d == 0 && e == 0
  {
    hide Shift, Shift32, Left, Right;
    var high := Right(d, s);
    Parts(d, e, s);
    ShiftsLeft(high, s);
    ShiftsLeft(e, 32 - s);
    Shifts32(d);
    Complements(s);
    ShiftsAgain(d, s, 32 - s);
    ShiftsInjective(high, Left(e, 32 - s), 32 - s);
    Apart(d, e, s);
  }

  lemma Complements(s: bv8)
    requires s <= 7
    ensures s + (32 - s) == 32 && 32 - s <= 32
  {
  }

  lemma Parts(d: bv32, e: bv32, s: bv8)
    requires s <= 7 && Right(e, s) == 0
    ensures Right(Left(Right(d, s), s), s) == Right(d, s)
    ensures Right(Left(e, 32 - s), 32 - s) == e
  {
  }

  lemma Apart(d: bv32, e: bv32, s: bv8)
    requires s <= 7 && Left(Right(d, s), s) == d && Right(e, s) == 0 && Right(d, s) == Left(e, 32 - s)
    ensures d == 0 && e == 0
  {
  }

  function ByteXor(a: bv8, b: bv8): bv8 { a ^ b }

  /** Two bytes differ from bit `s` on only. */
  predicate OnlyFrom(a: bv8, b: bv8, s: bv8)
    requires s <= 7
  {
    (ByteXor(a, b) >> s) << s == ByteXor(a, b)
  }

  /** Two bytes differ below bit `s` only. */
  predicate OnlyBelow(a: bv8, b: bv8, s: bv8)
    requires s <= 7
  {
    ByteXor(a, b) >> s == 0
  }

  /** The two differ in nothing but 32 consecutive bits, which begin with bit `s` of byte `p`. */
  predicate Burst(a: Bytes, b: Bytes, p: nat, s: bv8) {
    && s <= 7 && |a| == |b|
    && (forall k | 0 <= k < |a| && (k < p || k > p + 4) :: a[k] == b[k])
    && (p < |a| ==> OnlyFrom(a[p], b[p], s))
    && (p + 4 < |a| ==> OnlyBelow(a[p + 4], b[p + 4], s))
  }

  /** Any change of four bytes is one. */
  lemma FourBytesBurst(a: Bytes, p: nat, y: Bytes)
    requires p + 4 <= |a| && |y| == 4
    ensures Burst(a, a[..p] + y + a[p + 4..], p, 0)
  {
    var b := a[..p] + y + a[p + 4..];
    forall k | 0 <= k < |a| && (k < p || k > p + 3) ensures a[k] == b[k] {
    }
    OnlyFromZero(a[p], b[p]);
    if p + 4 < |a| {
      OnlyBelowZero(a[p + 4]);
    }
  }

  lemma OnlyFromZero(a: bv8, b: bv8)
    ensures OnlyFrom(a, b, 0)
  {
  }

  lemma OnlyBelowZero(a: bv8)
    ensures OnlyBelow(a, a, 0)
  {
  }

  lemma PackXor(a0: bv8, a1: bv8, a2: bv8, a3: bv8, b0: bv8, b1: bv8, b2: bv8, b3: bv8)
    ensures Xor(Pack(a0, a1, a2, a3), Pack(b0, b1, b2, b3))
            == Pack(ByteXor(a0, b0), ByteXor(a1, b1), ByteXor(a2, b2), ByteXor(a3, b3))
  {
  }

  lemma PackFrom(b0: bv8, b1: bv8, b2: bv8, b3: bv8, s: bv8)
    requires s <= 7 && (b0 >> s) << s == b0
    ensures Left(Right(Pack(b0, b1, b2, b3), s), s) == Pack(b0, b1, b2, b3)
  {
    hide Left, Right, Pack;
    PackLow(b0, b1, b2, b3);
    LowZero(Pack(b0, b1, b2, b3), s);
  }

  lemma LowZero(c: bv32, s: bv8)
    requires s <= 7 && (Low(c) >> s) << s == Low(c)
    ensures Left(Right(c, s), s) == c
  {
    if
    case s == 0 =>
    case s == 1 =>
    case s == 2 =>
    case s == 3 =>
    case s == 4 =>
    case s == 5 =>
    case s == 6 =>
    case s == 7 =>
  }

  lemma WideBelow(a: bv8, b: bv8, s: bv8)
    requires s <= 7 && OnlyBelow(a, b, s)
    ensures Right(Xor(Wide(a), Wide(b)), s) == 0
  {
  }

  lemma WideEqual(a: bv8, b: bv8)
    requires Xor(Wide(a), Wide(b)) == 0
    ensures a == b
  {
  }

  lemma XorSame(a: bv32, b: bv32)
    requires Xor(a, b) == 0
    ensures a == b
  {
  }

  lemma XorMoved(c: bv32, a: bv32, b: bv32)
    ensures Xor(Xor(c, a), Xor(c, b)) == Xor(a, b)
  {
    hide Xor;
    XorAssoc(Xor(c, a), c, b);
    XorCommutes(c, a);
    XorTwice(a, c);
  }

  lemma XorAcross(c: bv32, d: bv32, a: bv32, b: bv32)
    requires Xor(c, a) == Xor(d, b)
    ensures Xor(c, d) == Xor(a, b)
  {
    hide Xor;
    XorTwice(c, a);
    XorAssoc(d, b, a);
    XorCommutes(c, d);
    XorTwice(Xor(b, a), d);
    XorCommutes(a, b);
  }

  lemma Shift32Xor(a: bv32, b: bv32)
    ensures Shift32(Xor(a, b)) == Xor(Shift32(a), Shift32(b))
  {
    hide Shift8, Xor;
    Shift8Xor(a, b);
    Shift8Xor(Shift8(a), Shift8(b));
    Shift8Xor(Shift8(Shift8(a)), Shift8(Shift8(b)));
    Shift8Xor(Shift8(Shift8(Shift8(a))), Shift8(Shift8(Shift8(b))));
  }

  /** Five bytes that differ in a burst leave the register different. */
  lemma FiveBytes(c: bv32, x: Bytes, y: Bytes, s: bv8)
    requires |x| == 5 && Burst(x, y, 0, s) && Run(c, x) == Run(c, y)
    ensures x == y
  {
    hide Run, Step, Shift8, Shift32, Xor, Pack, Wide, Left, Right, OnlyBelow;
    var u, v := Word(x[..4]), Word(y[..4]);
    var cu, cv := Run(c, x[..4]), Run(c, y[..4]);
    assert x == x[..4] + [x[4]] && y == y[..4] + [y[4]];
    RunConcat(c, x[..4], [x[4]]);
    RunConcat(c, y[..4], [y[4]]);
    RunOne(cu, x[4]);
    RunOne(cv, y[4]);
    StepIsShift8(cu, x[4]);
    StepIsShift8(cv, y[4]);
    Shift8Injective(Xor(cu, Wide(x[4])), Xor(cv, Wide(y[4])));
    XorAcross(cu, cv, Wide(x[4]), Wide(y[4]));
    RunWord(c, x[..4]);
    RunWord(c, y[..4]);
    Shift32Xor(Xor(c, u), Xor(c, v));
    XorMoved(c, u, v);
    PackXor(x[0], x[1], x[2], x[3], y[0], y[1], y[2], y[3]);
    PackFrom(ByteXor(x[0], y[0]), ByteXor(x[1], y[1]), ByteXor(x[2], y[2]), ByteXor(x[3], y[3]), s);
    WideBelow(x[4], y[4], s);
    BurstNotUndone(Xor(u, v), Xor(Wide(x[4]), Wide(y[4])), s);
    XorSame(u, v);
    WordInjective(x[..4], y[..4]);
    WideEqual(x[4], y[4]);
  }

  lemma RunOne(c: bv32, b: bv8)
    ensures Run(c, [b]) == Step(c, b)
  {
    hide Step;
    assert [b][1..] == [];
    assert Run(c, [b]) == Run(Step(c, b), []);
  }

  lemma BurstCaught(c: bv32, a: Bytes, b: Bytes, p: nat, s: bv8)
    requires Burst(a, b, p, s) && Run(c, a) == Run(c, b)
    ensures a == b
  {
    hide Run, OnlyFrom, OnlyBelow;
    if p < |a| {
      var z: Bytes := [0, 0, 0, 0];
      RunConcat(c, a, z);
      RunConcat(c, b, z);
      BurstPadded(a, b, p, s, z);
      WithinFive(c, a + z, b + z, p, s);
      assert a == (a + z)[..|a|] && b == (b + z)[..|b|];
    }
  }

  /** Any change within 32 consecutive bits, wherever in a byte they begin, changes the register at
      the end. */
  lemma BitBurstChangesRegister(c: bv32, a: Bytes, b: Bytes, p: nat, s: bv8)
    requires Burst(a, b, p, s) && a != b
    ensures Run(c, a) != Run(c, b)
  {
    hide Run, Burst;
    if Run(c, a) == Run(c, b) {
      BurstCaught(c, a, b, p, s);
    }
  }

  lemma BurstPadded(a: Bytes, b: Bytes, p: nat, s: bv8, z: Bytes)
    requires Burst(a, b, p, s) && p < |a|
    ensures Burst(a + z, b + z, p, s)
  {
    hide OnlyFrom, OnlyBelow;
    forall k | 0 <= k < |a + z| && (k < p || k > p + 4) ensures (a + z)[k] == (b + z)[k] {
    }
    if |a| <= p + 4 < |a + z| {
      OnlyBelowSame((a + z)[p + 4], s);
    }
  }

  lemma OnlyBelowSame(a: bv8, s: bv8)
    requires s <= 7
    ensures OnlyBelow(a, a, s)
  {
  }

  lemma WithinFive(c: bv32, a: Bytes, b: Bytes, p: nat, s: bv8)
    requires Burst(a, b, p, s) && p + 5 <= |a| && Run(c, a) == Run(c, b)
    ensures a == b
  {
    hide Run, OnlyFrom, OnlyBelow;
    var front, back, x, y := a[..p], a[p + 5..], a[p..p + 5], b[p..p + 5];
    assert front == b[..p] && back == b[p + 5..];
    assert a == front + x + back && b == front + y + back;
    var d := Run(c, front);
    RunConcat(c, front + x, back);
    RunConcat(c, front + y, back);
    RunConcat(c, front, x);
    RunConcat(c, front, y);
    RunInjective(Run(d, x), Run(d, y), back);
    assert Burst(x, y, 0, s);
    FiveBytes(d, x, y, s);
  }

  // ----- any checksum can be had

  lemma HighBitOff(c: bv32)
    requires c & 0x8000_0000 != 0
    ensures (c ^ POLYNOMIAL) & 0x8000_0000 == 0
  {
  }

  lemma PolynomialTwice(c: bv32)
    ensures POLYNOMIAL ^ (c ^ POLYNOMIAL) == c
  {
  }

  lemma DoubleEven(c: bv32)
    requires c & 0x8000_0000 == 0
    ensures (c << 1) & 1 == 0 && (c << 1) >> 1 == c
  {
  }

  lemma DoubleOdd(c: bv32)
    requires c & 0x8000_0000 == 0
    ensures ((c << 1) | 1) & 1 == 1 && ((c << 1) | 1) >> 1 == c
  {
  }

  lemma ShiftUnshift(c: bv32)
    ensures Shift(Unshift(c)) == c
  {
    if c & 0x8000_0000 != 0 {
      HighBitOff(c);
      DoubleOdd(c ^ POLYNOMIAL);
      PolynomialTwice(c);
    } else {
      DoubleEven(c);
    }
  }

  function Unshift8(c: bv32): bv32 {
    Unshift(Unshift(Unshift(Unshift(Unshift(Unshift(Unshift(Unshift(c))))))))
  }

  lemma Shift8Unshift8(c: bv32)
    ensures Shift8(Unshift8(c)) == c
  {
    hide Shift, Unshift;
    var c1 := Unshift(c);
    var c2 := Unshift(c1);
    var c3 := Unshift(c2);
    var c4 := Unshift(c3);
    var c5 := Unshift(c4);
    var c6 := Unshift(c5);
    var c7 := Unshift(c6);
    ShiftUnshift(c);
    ShiftUnshift(c1);
    ShiftUnshift(c2);
    ShiftUnshift(c3);
    ShiftUnshift(c4);
    ShiftUnshift(c5);
    ShiftUnshift(c6);
    ShiftUnshift(c7);
  }

  function Unstep(c: bv32, b: bv8): bv32 {
    Xor(Unshift8(c), Wide(b))
  }

  lemma XorTwice(a: bv32, b: bv32)
    ensures Xor(Xor(a, b), b) == a && Xor(b, Xor(b, a)) == a
  {
  }

  lemma StepUnstep(c: bv32, b: bv8)
    ensures Step(Unstep(c, b), b) == c
  {
    hide Step, Shift8, Unshift8, Xor, Wide;
    StepIsShift8(Unstep(c, b), b);
    XorTwice(Unshift8(c), Wide(b));
    Shift8Unshift8(c);
  }

  /** The register from which a buffer leads to a given one. */
  function RunBack(c: bv32, bs: Bytes): bv32 {
    if bs == [] then c else Unstep(RunBack(c, bs[1..]), bs[0])
  }

  lemma {:induction false} RunForth(c: bv32, bs: Bytes)
    ensures Run(RunBack(c, bs), bs) == c
  {
    hide Step, Unstep;
    if bs != [] {
      StepUnstep(RunBack(c, bs[1..]), bs[0]);
      RunForth(c, bs[1..]);
    }
  }

  function Unshift32(c: bv32): bv32 {
    Unshift8(Unshift8(Unshift8(Unshift8(c))))
  }

  lemma Shift32Unshift32(c: bv32)
    ensures Shift32(Unshift32(c)) == c
  {
    hide Shift8, Unshift8;
    Shift8Unshift8(c);
    Shift8Unshift8(Unshift8(c));
    Shift8Unshift8(Unshift8(Unshift8(c)));
    Shift8Unshift8(Unshift8(Unshift8(Unshift8(c))));
  }

  /** The word that, between two buffers, makes the checksum come out as `crc`. */
  function Forged(front: Bytes, back: Bytes, crc: bv32): bv32 {
    Xor(Run(ONES, front), Unshift32(RunBack(Xor(crc, ONES), back)))
  }

  /** Between any two buffers there is exactly one word with which the checksum is a given one. */
  lemma ChecksumReached(front: Bytes, back: Bytes, crc: bv32, w: bv32)
    ensures Crc(front + WordBytes(w) + back) == crc <==> w == Forged(front, back, crc)
  {
    hide Run, Shift32, Unshift32, Xor, WordBytes, RunBack;
    var f := Forged(front, back, crc);
    ForgedFits(front, back, crc);
    if w != f {
      WordsDiffer(w, f);
      BurstChangesRegister(ONES, front, WordBytes(w), WordBytes(f), back);
      FreshRegister();
      Twice(Run(ONES, front + WordBytes(w) + back));
      Twice(Run(ONES, front + WordBytes(f) + back));
    }
  }

  lemma WordsDiffer(a: bv32, b: bv32)
    requires a != b
    ensures WordBytes(a) != WordBytes(b)
  {
    hide Word, WordBytes;
    WordRoundTrip(a);
    WordRoundTrip(b);
  }

  lemma ForgedFits(front: Bytes, back: Bytes, crc: bv32)
    ensures Crc(front + WordBytes(Forged(front, back, crc)) + back) == crc
  {
    hide Run, Shift32, Unshift32, Xor, Word, WordBytes, RunBack;
    var c, w, d := Run(ONES, front), Forged(front, back, crc), RunBack(Xor(crc, ONES), back);
    FreshRegister();
    RunConcat(ONES, front + WordBytes(w), back);
    RunConcat(ONES, front, WordBytes(w));
    RunWord(c, WordBytes(w));
    WordRoundTrip(w);
    XorTwice(Unshift32(d), c);
    Shift32Unshift32(d);
    RunForth(Xor(crc, ONES), back);
    Twice(crc);
  }
}
