/**
  How far apart two flipped bits may be without the CRC noticing.  A register is a
  polynomial modulo the generator, a bit-step multiplies it by x, and squaring is
  linear; powers of x are computed by squaring and stepping, and x has order 32767.
 */
module CrcOrder {
  import opened Folds
  import opened Crc
  import opened CrcDivision
  import opened CrcTable

  // ----- Products of registers

  /** The polynomial 1: bit 15 is the coefficient of x^0. */
  function One(): Register {
    Zeros(15) + [true]
  }

  /** Horner's rule over the first `n` coefficients of `c`, highest degree first. */
  function Horner(c: Register, v: Register, n: nat): Register
    requires n <= 16
  {
    if n == 0 then Zeros(16)
    else Xor(Step(Horner(c, v, n - 1)), if c[n - 1] then v else Zeros(16))
  }

  /** The product of two registers as polynomials modulo the generator. */
  function Product(c: Register, v: Register): Register {
    Horner(c, v, |c|)
  }

  /** x to the power of `n`. */
  function Power(n: nat): Register {
    Iterate<Register>(Step, One(), n)
  }

  lemma StepLinear(a: Register, b: Register)
    ensures Step(Xor(a, b)) == Xor(Step(a), Step(b))
  {
    FeedLinear(a, b, false, false);
  }

  lemma StepOfZeros()
    ensures Step(Zeros(16)) == Zeros(16)
  {}

  /** A step may be taken before the product or after it. */
  lemma {:induction false} HornerSteps(c: Register, v: Register, n: nat)
    requires n <= 16
    ensures Horner(c, Step(v), n) == Step(Horner(c, v, n))
    decreases n
  {
    hide Step, Xor;
    StepOfZeros();
    if n > 0 {
      HornerSteps(c, v, n - 1);
      StepLinear(Step(Horner(c, v, n - 1)), if c[n - 1] then v else Zeros(16));
    }
  }

  lemma {:induction false} ProductSteps(c: Register, v: Register, m: nat)
    ensures Product(c, Iterate<Register>(Step, v, m)) == Iterate<Register>(Step, Product(c, v), m)
    decreases m
  {
    hide Step, Horner;
    if m > 0 {
      ProductSteps(c, v, m - 1);
      HornerSteps(c, Iterate<Register>(Step, v, m - 1), |c|);
    }
  }

  // Below bit 0 of `h` nothing falls out, so a step only shifts.
  lemma ShiftIn(c: Register, n: nat, h: Register, t: Register)
    requires n < 16 && h == Zeros(16 - n) + c[..n]
    requires t == if c[n] then One() else Zeros(16)
    ensures Xor(Step(h), t) == Zeros(15 - n) + c[..n + 1]
  {
    assert !h[0];
    var r, want := Xor(Step(h), t), Zeros(15 - n) + c[..n + 1];
    forall k | 0 <= k < 16
      ensures r[k] == want[k]
    {
      assert r[k] == (At(h, k + 1) != t[k]);
    }
  }

  // After `n` coefficients the register holds them in its top bits.
  lemma {:induction false} HornerOfOne(c: Register, n: nat)
    requires n <= 16
    ensures Horner(c, One(), n) == Zeros(16 - n) + c[..n]
    decreases n
  {
    hide One, Step, Xor;
    if n == 0 {
      assert Zeros(16) == Zeros(16 - n) + c[..n];
    } else {
      HornerOfOne(c, n - 1);
      ShiftIn(c, n - 1, Horner(c, One(), n - 1), if c[n - 1] then One() else Zeros(16));
    }
  }

  lemma ProductOfOne(c: Register)
    ensures Product(c, One()) == c
  {
    HornerOfOne(c, |c|);
    assert Zeros(0) + c[..16] == c;
  }

  lemma {:induction false} IterateAdds(v: Register, m: nat, n: nat)
    ensures Iterate<Register>(Step, Iterate<Register>(Step, v, n), m) == Iterate<Register>(Step, v, m + n)
    decreases m
  {
    hide Step;
    if m > 0 {
      IterateAdds(v, m - 1, n);
    }
  }

  /** Exponents add. */
  lemma PowerSum(m: nat, n: nat)
    ensures Product(Power(n), Power(m)) == Power(m + n)
  {
    hide Step, Horner, One;
    ProductSteps(Power(n), One(), m);
    ProductOfOne(Power(n));
    IterateAdds(One(), m, n);
  }

  // ----- Squares

  /** The square of the polynomial that the first `n` bits of `c` make up: every power
      of x in it doubled. */
  function SquareTo(c: Register, n: nat): Register
    requires n <= 16
  {
    if n == 0 then Zeros(16)
    else Xor(SquareTo(c, n - 1), if c[n - 1] then Power(32 - 2 * n) else Zeros(16))
  }

  function Square(c: Register): Register {
    SquareTo(c, |c|)
  }

  lemma XorShuffle(a: Register, b: Register, c: Register, d: Register)
    ensures Xor(Xor(a, b), Xor(c, d)) == Xor(Xor(a, c), Xor(b, d))
  {}

  lemma {:induction false} SquareToXor(c: Register, d: Register, n: nat)
    requires n <= 16
    ensures SquareTo(Xor(c, d), n) == Xor(SquareTo(c, n), SquareTo(d, n))
    decreases n
  {
    hide Power;
    if n == 0 {
      XorSelf(Zeros(16));
    } else {
      SquareToXor(c, d, n - 1);
      var p := Power(32 - 2 * n);
      var s: Register := if c[n - 1] then p else Zeros(16);
      var t: Register := if d[n - 1] then p else Zeros(16);
      XorShuffle(SquareTo(c, n - 1), SquareTo(d, n - 1), s, t);
      XorSelf(p);
      XorSelf(Zeros(16));
      XorZeroRight();
      XorZeroLeft(p);
    }
  }

  lemma PowerNext(n: nat)
    ensures Power(n + 1) == Step(Power(n)) && Power(n + 2) == Step(Step(Power(n)))
  {
    hide Step, One;
  }

  /** The register with bit `k` alone, x to the power of `15 - k`. */
  function Unit(k: nat): Register
    requires k < 16
  {
    Zeros(k) + [true] + Zeros(15 - k)
  }

  lemma {:induction false} UnitIsPower(n: nat)
    requires n <= 15
    ensures Power(n) == Unit(15 - n)
    decreases n
  {
    hide Step;
    if n == 0 {
      assert One() == Unit(15);
    } else {
      UnitIsPower(n - 1);
      StepOfUnit(16 - n, Unit(16 - n));
    }
  }

  lemma SquareToNext(c: Register, n: nat, r: Register)
    requires n < 16 && r == SquareTo(c, n)
    ensures SquareTo(c, n + 1) == if c[n] then Xor(r, Power(30 - 2 * n)) else r
  {
    hide Power, Xor;
    XorZeroRight();
  }

  lemma {:induction false} SquareToUnit(k: nat, n: nat)
    requires k < 16 && n <= 16
    ensures SquareTo(Unit(k), n) == if n <= k then Zeros(16) else Power(30 - 2 * k)
    decreases n
  {
    hide Power, Xor, Unit, SquareTo;
    if n == 0 {
      SquareToNone(Unit(k));
    } else {
      SquareToUnit(k, n - 1);
      UnitBit(k, n - 1);
      SquareToNext(Unit(k), n - 1, SquareTo(Unit(k), n - 1));
      XorZeroLeft(Power(30 - 2 * k));
    }
  }

  lemma SquareToNone(c: Register)
    ensures SquareTo(c, 0) == Zeros(16)
  {}

  lemma UnitBit(k: nat, i: nat)
    requires k < 16 && i < 16
    ensures Unit(k)[i] == (i == k)
  {}

  // Without the last power, shifting the register multiplies the square by x twice.
  lemma {:induction false} SquareToShifted(c: Register, n: nat)
    requires n <= 15 && !c[0]
    ensures SquareTo(c[1..] + [false], n) == Step(Step(SquareTo(c, n + 1)))
    decreases n
  {
    hide Power, Step, Xor;
    StepOfZeros();
    if n == 0 {
      XorSelf(Zeros(16));
      assert SquareTo(c, 1) == Xor(SquareTo(c, 0), Zeros(16));
    } else {
      SquareToShifted(c, n - 1);
      var t: Register := if c[n] then Power(30 - 2 * n) else Zeros(16);
      assert SquareTo(c, n + 1) == Xor(SquareTo(c, n), t);
      StepLinear(SquareTo(c, n), t);
      StepLinear(Step(SquareTo(c, n)), Step(t));
      PowerNext(30 - 2 * n);
    }
  }

  lemma SquareOfShifted(c: Register, d: Register)
    requires !c[0] && d == c[1..] + [false]
    ensures Step(c) == d && Square(d) == Step(Step(Square(c)))
  {
    hide Power, Xor;
    assert Step(c) == d;
    SquareToShifted(c, 15);
    XorZeroRight();
    assert SquareTo(d, 16) == Xor(SquareTo(d, 15), Zeros(16));
  }

  // x^16 is x^15 + x^2 + 1, and so on up.
  lemma {:induction false} GeneratorPower(j: nat)
    ensures Power(16 + j) == Xor(Xor(Power(15 + j), Power(2 + j)), Power(j))
    decreases j
  {
    hide Power, Step, Taps, Xor;
    if j == 0 {
      TapsIsPower();
      UnitIsPower(15);
      UnitIsPower(2);
      UnitIsPower(0);
      TapsAreUnits();
    } else {
      GeneratorPower(j - 1);
      PowerNext(15 + j);
      PowerNext(14 + j);
      PowerNext(1 + j);
      PowerNext(j - 1);
      StepLinear(Xor(Power(14 + j), Power(1 + j)), Power(j - 1));
      StepLinear(Power(14 + j), Power(1 + j));
    }
  }

  lemma TapsAreUnits()
    ensures Taps() == Xor(Xor(Unit(0), Unit(13)), Unit(15))
  {}

  lemma TapsIsPower()
    ensures Taps() == Power(16)
  {
    hide Step, Taps;
    StepsOfUnit(15, 0);
    assert One() == Zeros(15) + [true] + Zeros(0);
  }

  lemma CancelFive(p0: Register, p2: Register, p4: Register, p15: Register, p16: Register, p17: Register,
                   p18: Register, p30: Register, p31: Register, p32: Register)
    requires p32 == Xor(Xor(p31, p18), p16) && p31 == Xor(Xor(p30, p17), p15)
    requires p18 == Xor(Xor(p17, p4), p2) && p16 == Xor(Xor(p15, p2), p0)
    ensures p32 == Xor(Xor(p30, p4), p0)
  {
    forall k | 0 <= k < 16
      ensures p32[k] == Xor(Xor(p30, p4), p0)[k]
    {}
  }

  lemma SquareOfTaps()
    ensures Square(Taps()) == Power(32)
  {
    hide Power, Xor, Taps, Unit, SquareTo;
    TapsAreUnits();
    SquareToXor(Xor(Unit(0), Unit(13)), Unit(15), 16);
    SquareToXor(Unit(0), Unit(13), 16);
    SquareToUnit(0, 16);
    SquareToUnit(13, 16);
    SquareToUnit(15, 16);
    GeneratorPower(0);
    GeneratorPower(2);
    GeneratorPower(15);
    GeneratorPower(16);
    CancelFive(Power(0), Power(2), Power(4), Power(15), Power(16), Power(17), Power(18), Power(30), Power(31), Power(32));
  }

  /** Squaring turns a step into two. */
  lemma SquareOfStep(c: Register)
    ensures Square(Step(c)) == Step(Step(Square(c)))
  {
    hide Power, Step, Xor, SquareTo, Unit, Taps;
    if !c[0] {
      SquareOfShifted(c, c[1..] + [false]);
    } else {
      var d: Register := [false] + c[1..];
      SplitLowBit(c, d);
      SquareOfShifted(d, d[1..] + [false]);
      StepLinear(d, Unit(0));
      StepOfUnit(0, Unit(0));
      SquareToXor(Step(d), Taps(), 16);
      SquareOfTaps();
      SquareToXor(d, Unit(0), 16);
      SquareToUnit(0, 16);
      StepLinear(Square(d), Power(30));
      StepLinear(Step(Square(d)), Step(Power(30)));
      PowerNext(30);
    }
  }

  lemma SplitLowBit(c: Register, d: Register)
    requires c[0] && d == [false] + c[1..]
    ensures c == Xor(d, Unit(0)) && Unit(0) == Zeros(0) + [true] + Zeros(15)
  {
    var e := Xor(d, Unit(0));
    forall k | 0 <= k < 16
      ensures c[k] == e[k]
    {}
  }

  /** The square of a power of x has twice the exponent. */
  lemma {:induction false} PowerSquare(n: nat)
    ensures Square(Power(n)) == Power(2 * n)
    decreases n
  {
    hide Step, SquareTo, One;
    if n == 0 {
      SquareOfOne();
    } else {
      PowerSquare(n - 1);
      SquareOfStep(Power(n - 1));
      PowerNext(n - 1);
      PowerNext(2 * n - 2);
    }
  }

  lemma SquareOfOne()
    ensures Square(Power(0)) == Power(0)
  {
    hide Power, SquareTo, Unit;
    UnitIsPower(0);
    SquareToUnit(15, 16);
  }

  // ----- The same on words

  function StepWord(c: bv16): bv16 {
    if c & 1 != 0 then XorWord(c >> 1, 0xA001) else c >> 1
  }

  lemma StepWordSteps(c: bv16)
    ensures WordBits(StepWord(c)) == Step(WordBits(c))
  {
    ShiftWordSteps(c, c >> 1, StepWord(c));
  }

  lemma ZeroWord()
    ensures WordBits(0) == Zeros(16)
  {
    forall k: nat
      ensures !WordBit(0, k)
    {
      ZeroWordBit(k);
    }
  }

  lemma ZeroWordBit(k: nat)
    ensures !WordBit(0, k)
  {
    if k == 0 {} else if k == 1 {} else if k == 2 {} else if k == 3 {}
    else if k == 4 {} else if k == 5 {} else if k == 6 {} else if k == 7 {}
    else if k == 8 {} else if k == 9 {} else if k == 10 {} else if k == 11 {}
    else if k == 12 {} else if k == 13 {} else if k == 14 {} else {}
  }

  /** The word `w` holds x to the power of `n`. */
  ghost predicate Holds(w: bv16, n: nat) {
    WordBits(w) == Power(n)
  }

  function Part(w: bv16, m: bv16, p: bv16): bv16 {
    if w & m != 0 then p else 0
  }

  function Low2(w: bv16): bv16 {
    0 ^ Part(w, 0x0001, 0x6001) ^ Part(w, 0x0002, 0xC007)
  }

  function Low4(w: bv16): bv16 {
    Low2(w) ^ Part(w, 0x0004, 0xC019) ^ Part(w, 0x0008, 0xC061)
  }

  function Low6(w: bv16): bv16 {
    Low4(w) ^ Part(w, 0x0010, 0xC181) ^ Part(w, 0x0020, 0xC601)
  }

  function Low8(w: bv16): bv16 {
    Low6(w) ^ Part(w, 0x0040, 0xD801) ^ Part(w, 0x0080, 0xA001)
  }

  function Low10(w: bv16): bv16 {
    Low8(w) ^ Part(w, 0x0100, 0x0002) ^ Part(w, 0x0200, 0x0008)
  }

  function Low12(w: bv16): bv16 {
    Low10(w) ^ Part(w, 0x0400, 0x0020) ^ Part(w, 0x0800, 0x0080)
  }

  function Low14(w: bv16): bv16 {
    Low12(w) ^ Part(w, 0x1000, 0x0200) ^ Part(w, 0x2000, 0x0800)
  }

  /** The word's square: for each of its bits, the square of that power of x. */
  function SquareWord(w: bv16): bv16 {
    Low14(w) ^ Part(w, 0x4000, 0x2000) ^ Part(w, 0x8000, 0x8000)
  }

  lemma NextWord(w: bv16, n: nat, r: bv16)
    requires Holds(w, n) && r == StepWord(w)
    ensures Holds(r, n + 1)
  {
    hide StepWord, WordBits, Step, One;
    StepWordSteps(w);
    PowerNext(n);
  }

  lemma OneWord()
    ensures Holds(0x8000, 0)
  {
    forall k: nat | k < 16
      ensures WordBit(0x8000, k) == (k == 15)
    {
      TopWordBit(k);
    }
    assert WordBits(0x8000) == One();
  }

  lemma TopWordBit(k: nat)
    ensures WordBit(0x8000, k) == (k == 15)
  {
    if k == 0 {} else if k == 1 {} else if k == 2 {} else if k == 3 {}
    else if k == 4 {} else if k == 5 {} else if k == 6 {} else if k == 7 {}
    else if k == 8 {} else if k == 9 {} else if k == 10 {} else if k == 11 {}
    else if k == 12 {} else if k == 13 {} else if k == 14 {} else {}
  }

  lemma EvenPowersTo10()
    ensures Holds(0x8000, 0) && Holds(0x2000, 2) && Holds(0x0800, 4)
    ensures Holds(0x0200, 6) && Holds(0x0080, 8) && Holds(0x0020, 10)
  {
    hide Holds;
    OneWord();
    NextWord(0x8000, 0, 0x4000);
    NextWord(0x4000, 1, 0x2000);
    NextWord(0x2000, 2, 0x1000);
    NextWord(0x1000, 3, 0x0800);
    NextWord(0x0800, 4, 0x0400);
    NextWord(0x0400, 5, 0x0200);
    NextWord(0x0200, 6, 0x0100);
    NextWord(0x0100, 7, 0x0080);
    NextWord(0x0080, 8, 0x0040);
    NextWord(0x0040, 9, 0x0020);
  }

  lemma EvenPowersTo20()
    ensures Holds(0x0008, 12) && Holds(0x0002, 14) && Holds(0xA001, 16)
    ensures Holds(0xD801, 18) && Holds(0xC601, 20)
  {
    hide Holds;
    EvenPowersTo10();
    NextWord(0x0020, 10, 0x0010);
    NextWord(0x0010, 11, 0x0008);
    NextWord(0x0008, 12, 0x0004);
    NextWord(0x0004, 13, 0x0002);
    NextWord(0x0002, 14, 0x0001);
    NextWord(0x0001, 15, 0xA001);
    NextWord(0xA001, 16, 0xF001);
    NextWord(0xF001, 17, 0xD801);
    NextWord(0xD801, 18, 0xCC01);
    NextWord(0xCC01, 19, 0xC601);
  }

  lemma EvenPowersTo30()
    ensures Holds(0xC181, 22) && Holds(0xC061, 24) && Holds(0xC019, 26)
    ensures Holds(0xC007, 28) && Holds(0x6001, 30)
  {
    hide Holds;
    EvenPowersTo20();
    NextWord(0xC601, 20, 0xC301);
    NextWord(0xC301, 21, 0xC181);
    NextWord(0xC181, 22, 0xC0C1);
    NextWord(0xC0C1, 23, 0xC061);
    NextWord(0xC061, 24, 0xC031);
    NextWord(0xC031, 25, 0xC019);
    NextWord(0xC019, 26, 0xC00D);
    NextWord(0xC00D, 27, 0xC007);
    NextWord(0xC007, 28, 0xC002);
    NextWord(0xC002, 29, 0x6001);
  }

  /** `t` is `p` if the word has its bit `k`, and nothing otherwise. */
  ghost predicate Picks(t: bv16, w: bv16, k: nat, p: bv16) {
    (WordBit(w, k) ==> t == p) && (!WordBit(w, k) ==> t == 0)
  }

  lemma EvenPowers()
    ensures Holds(0x8000, 0) && Holds(0x2000, 2) && Holds(0x0800, 4) && Holds(0x0200, 6)
    ensures Holds(0x0080, 8) && Holds(0x0020, 10) && Holds(0x0008, 12) && Holds(0x0002, 14)
    ensures Holds(0xA001, 16) && Holds(0xD801, 18) && Holds(0xC601, 20) && Holds(0xC181, 22)
    ensures Holds(0xC061, 24) && Holds(0xC019, 26) && Holds(0xC007, 28) && Holds(0x6001, 30)
  {
    hide Holds;
    EvenPowersTo10();
    EvenPowersTo20();
    EvenPowersTo30();
  }

  // One bit more of the square.
  lemma SquareBit(w: bv16, n: nat, p: bv16, t: bv16, a: bv16, r: bv16)
    requires n < 16 && WordBits(a) == SquareTo(WordBits(w), n) && Holds(p, 30 - 2 * n)
    requires Picks(t, w, n, p) && r == XorWord(a, t)
    ensures WordBits(r) == SquareTo(WordBits(w), n + 1)
  {
    hide Xor, Power, XorWord, WordBit;
    ZeroWord();
    WordBitsXor(a, t, r);
  }

  lemma PartPicks(w: bv16, k: nat, m: bv16, p: bv16)
    requires w & m != 0 <==> WordBit(w, k)
    ensures Picks(Part(w, m, p), w, k, p)
  {
    hide WordBit;
  }

  lemma TwoXor(a: bv16, t: bv16, u: bv16)
    ensures XorWord(XorWord(a, t), u) == a ^ t ^ u
  {}

  // Two bits more of the square.
  lemma TwoBits(w: bv16, n: nat, p: bv16, q: bv16, t: bv16, u: bv16, a: bv16, r: bv16)
    requires n < 15 && WordBits(a) == SquareTo(WordBits(w), n) && Holds(p, 30 - 2 * n) && Holds(q, 28 - 2 * n)
    requires Picks(t, w, n, p) && Picks(u, w, n + 1, q) && r == XorWord(XorWord(a, t), u)
    ensures WordBits(r) == SquareTo(WordBits(w), n + 2)
  {
    hide SquareTo, WordBits, Holds, Picks, XorWord;
    SquareBit(w, n, p, t, a, XorWord(a, t));
    SquareBit(w, n + 1, q, u, XorWord(a, t), r);
  }

  lemma Low2Is(w: bv16)
    ensures Low2(w) == XorWord(XorWord(0, Part(w, 0x0001, 0x6001)), Part(w, 0x0002, 0xC007))
  {
    hide XorWord, Part;
    TwoXor(0, Part(w, 0x0001, 0x6001), Part(w, 0x0002, 0xC007));
  }

  lemma Bits0And1(w: bv16, n: nat)
    requires n == 0 && WordBits(0) == SquareTo(WordBits(w), n)
    ensures WordBits(Low2(w)) == SquareTo(WordBits(w), n + 2)
  {
    hide SquareTo, WordBits, Holds, Picks, Part, XorWord, Low2;
    EvenPowers();
    PartPicks(w, n, 0x0001, 0x6001);
    PartPicks(w, n + 1, 0x0002, 0xC007);
    Low2Is(w);
    TwoBits(w, n, 0x6001, 0xC007, Part(w, 0x0001, 0x6001), Part(w, 0x0002, 0xC007), 0, Low2(w));
  }

  lemma Low4Is(w: bv16)
    ensures Low4(w) == XorWord(XorWord(Low2(w), Part(w, 0x0004, 0xC019)), Part(w, 0x0008, 0xC061))
  {
    hide XorWord, Part, Low2;
    TwoXor(Low2(w), Part(w, 0x0004, 0xC019), Part(w, 0x0008, 0xC061));
  }

  lemma Bits2And3(w: bv16, n: nat)
    requires n == 2 && WordBits(Low2(w)) == SquareTo(WordBits(w), n)
    ensures WordBits(Low4(w)) == SquareTo(WordBits(w), n + 2)
  {
    hide SquareTo, WordBits, Holds, Picks, Part, XorWord, Low4, Low2;
    EvenPowers();
    PartPicks(w, n, 0x0004, 0xC019);
    PartPicks(w, n + 1, 0x0008, 0xC061);
    Low4Is(w);
    TwoBits(w, n, 0xC019, 0xC061, Part(w, 0x0004, 0xC019), Part(w, 0x0008, 0xC061), Low2(w), Low4(w));
  }

  lemma Low6Is(w: bv16)
    ensures Low6(w) == XorWord(XorWord(Low4(w), Part(w, 0x0010, 0xC181)), Part(w, 0x0020, 0xC601))
  {
    hide XorWord, Part, Low4;
    TwoXor(Low4(w), Part(w, 0x0010, 0xC181), Part(w, 0x0020, 0xC601));
  }

  lemma Bits4And5(w: bv16, n: nat)
    requires n == 4 && WordBits(Low4(w)) == SquareTo(WordBits(w), n)
    ensures WordBits(Low6(w)) == SquareTo(WordBits(w), n + 2)
  {
    hide SquareTo, WordBits, Holds, Picks, Part, XorWord, Low6, Low4;
    EvenPowers();
    PartPicks(w, n, 0x0010, 0xC181);
    PartPicks(w, n + 1, 0x0020, 0xC601);
    Low6Is(w);
    TwoBits(w, n, 0xC181, 0xC601, Part(w, 0x0010, 0xC181), Part(w, 0x0020, 0xC601), Low4(w), Low6(w));
  }

  lemma Low8Is(w: bv16)
    ensures Low8(w) == XorWord(XorWord(Low6(w), Part(w, 0x0040, 0xD801)), Part(w, 0x0080, 0xA001))
  {
    hide XorWord, Part, Low6;
    TwoXor(Low6(w), Part(w, 0x0040, 0xD801), Part(w, 0x0080, 0xA001));
  }

  lemma Bits6And7(w: bv16, n: nat)
    requires n == 6 && WordBits(Low6(w)) == SquareTo(WordBits(w), n)
    ensures WordBits(Low8(w)) == SquareTo(WordBits(w), n + 2)
  {
    hide SquareTo, WordBits, Holds, Picks, Part, XorWord, Low8, Low6;
    EvenPowers();
    PartPicks(w, n, 0x0040, 0xD801);
    PartPicks(w, n + 1, 0x0080, 0xA001);
    Low8Is(w);
    TwoBits(w, n, 0xD801, 0xA001, Part(w, 0x0040, 0xD801), Part(w, 0x0080, 0xA001), Low6(w), Low8(w));
  }

  lemma Low10Is(w: bv16)
    ensures Low10(w) == XorWord(XorWord(Low8(w), Part(w, 0x0100, 0x0002)), Part(w, 0x0200, 0x0008))
  {
    hide XorWord, Part, Low8;
    TwoXor(Low8(w), Part(w, 0x0100, 0x0002), Part(w, 0x0200, 0x0008));
  }

  lemma Bits8And9(w: bv16, n: nat)
    requires n == 8 && WordBits(Low8(w)) == SquareTo(WordBits(w), n)
    ensures WordBits(Low10(w)) == SquareTo(WordBits(w), n + 2)
  {
    hide SquareTo, WordBits, Holds, Picks, Part, XorWord, Low10, Low8;
    EvenPowers();
    PartPicks(w, n, 0x0100, 0x0002);
    PartPicks(w, n + 1, 0x0200, 0x0008);
    Low10Is(w);
    TwoBits(w, n, 0x0002, 0x0008, Part(w, 0x0100, 0x0002), Part(w, 0x0200, 0x0008), Low8(w), Low10(w));
  }

  lemma Low12Is(w: bv16)
    ensures Low12(w) == XorWord(XorWord(Low10(w), Part(w, 0x0400, 0x0020)), Part(w, 0x0800, 0x0080))
  {
    hide XorWord, Part, Low10;
    TwoXor(Low10(w), Part(w, 0x0400, 0x0020), Part(w, 0x0800, 0x0080));
  }

  lemma Bits10And11(w: bv16, n: nat)
    requires n == 10 && WordBits(Low10(w)) == SquareTo(WordBits(w), n)
    ensures WordBits(Low12(w)) == SquareTo(WordBits(w), n + 2)
  {
    hide SquareTo, WordBits, Holds, Picks, Part, XorWord, Low12, Low10;
    EvenPowers();
    PartPicks(w, n, 0x0400, 0x0020);
    PartPicks(w, n + 1, 0x0800, 0x0080);
    Low12Is(w);
    TwoBits(w, n, 0x0020, 0x0080, Part(w, 0x0400, 0x0020), Part(w, 0x0800, 0x0080), Low10(w), Low12(w));
  }

  lemma Low14Is(w: bv16)
    ensures Low14(w) == XorWord(XorWord(Low12(w), Part(w, 0x1000, 0x0200)), Part(w, 0x2000, 0x0800))
  {
    hide XorWord, Part, Low12;
    TwoXor(Low12(w), Part(w, 0x1000, 0x0200), Part(w, 0x2000, 0x0800));
  }

  lemma Bits12And13(w: bv16, n: nat)
    requires n == 12 && WordBits(Low12(w)) == SquareTo(WordBits(w), n)
    ensures WordBits(Low14(w)) == SquareTo(WordBits(w), n + 2)
  {
    hide SquareTo, WordBits, Holds, Picks, Part, XorWord, Low14, Low12;
    EvenPowers();
    PartPicks(w, n, 0x1000, 0x0200);
    PartPicks(w, n + 1, 0x2000, 0x0800);
    Low14Is(w);
    TwoBits(w, n, 0x0200, 0x0800, Part(w, 0x1000, 0x0200), Part(w, 0x2000, 0x0800), Low12(w), Low14(w));
  }

  lemma SquareWordIs(w: bv16)
    ensures SquareWord(w) == XorWord(XorWord(Low14(w), Part(w, 0x4000, 0x2000)), Part(w, 0x8000, 0x8000))
  {
    hide XorWord, Part, Low14;
    TwoXor(Low14(w), Part(w, 0x4000, 0x2000), Part(w, 0x8000, 0x8000));
  }

  lemma Bits14And15(w: bv16, n: nat)
    requires n == 14 && WordBits(Low14(w)) == SquareTo(WordBits(w), n)
    ensures WordBits(SquareWord(w)) == SquareTo(WordBits(w), n + 2)
  {
    hide SquareTo, WordBits, Holds, Picks, Part, XorWord, SquareWord, Low14;
    EvenPowers();
    PartPicks(w, n, 0x4000, 0x2000);
    PartPicks(w, n + 1, 0x8000, 0x8000);
    SquareWordIs(w);
    TwoBits(w, n, 0x2000, 0x8000, Part(w, 0x4000, 0x2000), Part(w, 0x8000, 0x8000), Low14(w), SquareWord(w));
  }

  lemma NoBits(w: bv16)
    ensures WordBits(0) == SquareTo(WordBits(w), 0)
  {
    hide WordBits;
    ZeroWord();
  }

  lemma SquareWordSquares(w: bv16, n: nat, m: nat)
    requires n == 0 && m == 16
    ensures WordBits(SquareWord(w)) == SquareTo(WordBits(w), m)
  {
    hide WordBits, SquareTo, Low2, Low4, Low6, Low8, Low10, Low12, Low14, SquareWord;
    NoBits(w);
    Bits0And1(w, n);
    Bits2And3(w, n + 2);
    Bits4And5(w, n + 4);
    Bits6And7(w, n + 6);
    Bits8And9(w, n + 8);
    Bits10And11(w, n + 10);
    Bits12And13(w, n + 12);
    Bits14And15(w, n + 14);
  }

  lemma SquareUp(w: bv16, n: nat, r: bv16)
    requires Holds(w, n) && r == SquareWord(w)
    ensures Holds(r, 2 * n)
  {
    hide WordBits, SquareWord, SquareTo, Power;
    SquareWordSquares(w, 0, |WordBits(w)|);
    PowerSquare(n);
  }

  lemma SquaresFor217()
    ensures SquareWord(0x4000) == 0x2000
    ensures SquareWord(0x1000) == 0x0200
    ensures SquareWord(0x0200) == 0x0008
    ensures SquareWord(0x0004) == 0xC019
    ensures SquareWord(0xC00D) == 0xC079
    ensures SquareWord(0xC079) == 0xDFE1
    ensures SquareWord(0xDFE1) == 0x7CAA
  {}

  lemma Power217()
    ensures Holds(0x3E55, 217)
  {
    hide Holds, SquareWord;
    OneWord();
    SquaresFor217();
    NextWord(0x8000, 0, 0x4000);
    SquareUp(0x4000, 1, 0x2000);
    NextWord(0x2000, 2, 0x1000);
    SquareUp(0x1000, 3, 0x0200);
    SquareUp(0x0200, 6, 0x0008);
    NextWord(0x0008, 12, 0x0004);
    SquareUp(0x0004, 13, 0xC019);
    NextWord(0xC019, 26, 0xC00D);
    SquareUp(0xC00D, 27, 0xC079);
    SquareUp(0xC079, 54, 0xDFE1);
    SquareUp(0xDFE1, 108, 0x7CAA);
    NextWord(0x7CAA, 216, 0x3E55);
  }

  lemma SquaresFor1057()
    ensures SquareWord(0x4000) == 0x2000
    ensures SquareWord(0x2000) == 0x0800
    ensures SquareWord(0x0800) == 0x0080
    ensures SquareWord(0x0080) == 0xA001
    ensures SquareWord(0xA001) == 0xE801
    ensures SquareWord(0xD401) == 0xC221
    ensures SquareWord(0xC221) == 0x0608
    ensures SquareWord(0x0608) == 0xC049
    ensures SquareWord(0xC049) == 0xD861
    ensures SquareWord(0xD861) == 0xDC81
  {}

  lemma Power1057()
    ensures Holds(0xCE41, 1057)
  {
    hide Holds, SquareWord;
    OneWord();
    SquaresFor1057();
    NextWord(0x8000, 0, 0x4000);
    SquareUp(0x4000, 1, 0x2000);
    SquareUp(0x2000, 2, 0x0800);
    SquareUp(0x0800, 4, 0x0080);
    SquareUp(0x0080, 8, 0xA001);
    SquareUp(0xA001, 16, 0xE801);
    NextWord(0xE801, 32, 0xD401);
    SquareUp(0xD401, 33, 0xC221);
    SquareUp(0xC221, 66, 0x0608);
    SquareUp(0x0608, 132, 0xC049);
    SquareUp(0xC049, 264, 0xD861);
    SquareUp(0xD861, 528, 0xDC81);
    NextWord(0xDC81, 1056, 0xCE41);
  }

  lemma SquaresFor4681()
    ensures SquareWord(0x4000) == 0x2000
    ensures SquareWord(0x2000) == 0x0800
    ensures SquareWord(0x0800) == 0x0080
    ensures SquareWord(0x0040) == 0xD801
    ensures SquareWord(0xD801) == 0xC281
    ensures SquareWord(0xC281) == 0x6008
    ensures SquareWord(0x3004) == 0xCA19
    ensures SquareWord(0xCA19) == 0xC169
    ensures SquareWord(0xC169) == 0x1E62
    ensures SquareWord(0x0F31) == 0x672B
    ensures SquareWord(0x672B) == 0x8E4C
    ensures SquareWord(0x8E4C) == 0x58D1
  {}

  lemma Power4681()
    ensures Holds(0x8C69, 4681)
  {
    hide Holds, SquareWord;
    OneWord();
    SquaresFor4681();
    NextWord(0x8000, 0, 0x4000);
    SquareUp(0x4000, 1, 0x2000);
    SquareUp(0x2000, 2, 0x0800);
    SquareUp(0x0800, 4, 0x0080);
    NextWord(0x0080, 8, 0x0040);
    SquareUp(0x0040, 9, 0xD801);
    SquareUp(0xD801, 18, 0xC281);
    SquareUp(0xC281, 36, 0x6008);
    NextWord(0x6008, 72, 0x3004);
    SquareUp(0x3004, 73, 0xCA19);
    SquareUp(0xCA19, 146, 0xC169);
    SquareUp(0xC169, 292, 0x1E62);
    NextWord(0x1E62, 584, 0x0F31);
    SquareUp(0x0F31, 585, 0x672B);
    SquareUp(0x672B, 1170, 0x8E4C);
    SquareUp(0x8E4C, 2340, 0x58D1);
    NextWord(0x58D1, 4680, 0x8C69);
  }

  lemma SquaresFor32768A()
    ensures SquareWord(0x4000) == 0x2000
    ensures SquareWord(0x2000) == 0x0800
    ensures SquareWord(0x0800) == 0x0080
    ensures SquareWord(0x0080) == 0xA001
    ensures SquareWord(0xA001) == 0xE801
    ensures SquareWord(0xE801) == 0xC881
    ensures SquareWord(0xC881) == 0x6080
    ensures SquareWord(0x6080) == 0x8801
  {}

  lemma SquaresFor32768B()
    ensures SquareWord(0x8801) == 0xE081
    ensures SquareWord(0xE081) == 0x6800
    ensures SquareWord(0x6800) == 0x2880
    ensures SquareWord(0x2880) == 0xA881
    ensures SquareWord(0xA881) == 0x4880
    ensures SquareWord(0x4880) == 0x8081
    ensures SquareWord(0x8081) == 0x4000
  {}

  lemma Power32768()
    ensures Holds(0x4000, 32768)
  {
    hide Holds, SquareWord;
    OneWord();
    SquaresFor32768A();
    SquaresFor32768B();
    NextWord(0x8000, 0, 0x4000);
    SquareUp(0x4000, 1, 0x2000);
    SquareUp(0x2000, 2, 0x0800);
    SquareUp(0x0800, 4, 0x0080);
    SquareUp(0x0080, 8, 0xA001);
    SquareUp(0xA001, 16, 0xE801);
    SquareUp(0xE801, 32, 0xC881);
    SquareUp(0xC881, 64, 0x6080);
    SquareUp(0x6080, 128, 0x8801);
    SquareUp(0x8801, 256, 0xE081);
    SquareUp(0xE081, 512, 0x6800);
    SquareUp(0x6800, 1024, 0x2880);
    SquareUp(0x2880, 2048, 0xA881);
    SquareUp(0xA881, 4096, 0x4880);
    SquareUp(0x4880, 8192, 0x8081);
    SquareUp(0x8081, 16384, 0x4000);
  }

  // ----- The order of x

  /** `n` steps bring the polynomial 1 back. */
  ghost predicate Returns(n: nat) {
    Power(n) == One()
  }

  lemma {:induction false} IterateInjective(u: Register, v: Register, n: nat)
    requires Iterate<Register>(Step, u, n) == Iterate<Register>(Step, v, n)
    ensures u == v
    decreases n
  {
    hide Step, Xor;
    if n > 0 {
      var x, y := Iterate<Register>(Step, u, n - 1), Iterate<Register>(Step, v, n - 1);
      StepLinear(x, y);
      XorZero(Step(x), Step(y));
      StepKeepsNonzero(Xor(x, y));
      XorZero(x, y);
      IterateInjective(u, v, n - 1);
    }
  }

  lemma SameAsX(w: bv16, n: nat)
    requires Holds(w, 1) && Holds(w, n + 1)
    ensures Returns(n)
  {
    hide Step, WordBits, One;
    IterateAdds(One(), 1, n);
    IterateInjective(Power(n), One(), 1);
  }

  // The polynomial 1 has bit 0 clear.
  lemma NotOne(w: bv16, n: nat)
    requires Holds(w, n) && w & 1 != 0
    ensures !Returns(n)
  {
    hide Power;
    assert WordBits(w)[0] == WordBit(w, 0);
  }

  lemma Landmarks()
    ensures Returns(32767) && !Returns(4681) && !Returns(1057) && !Returns(217)
  {
    hide Holds, Returns;
    OneWord();
    NextWord(0x8000, 0, 0x4000);
    Power32768();
    SameAsX(0x4000, 32767);
    Power4681();
    NotOne(0x8C69, 4681);
    Power1057();
    NotOne(0xCE41, 1057);
    Power217();
    NotOne(0x3E55, 217);
  }

  lemma ReturnsSum(m: nat, n: nat)
    requires Returns(m)
    ensures Returns(n + m) <==> Returns(n)
  {
    hide Step, One;
    IterateAdds(One(), n, m);
  }

  lemma {:induction false} ReturnsTimes(m: nat, k: nat)
    requires Returns(m)
    ensures Returns(k * m)
    decreases k
  {
    hide Step, One;
    if k > 0 {
      ReturnsTimes(m, k - 1);
      ReturnsSum(m, (k - 1) * m);
      assert (k - 1) * m + m == k * m;
    }
  }

  ghost predicate Prime(p: nat) {
    p > 1 && forall r {:trigger p % r} :: 1 < r < p ==> p % r != 0
  }

  lemma ReturnsRest(p: nat, r: nat, m: nat)
    requires r > 0 && Returns(p * m) && Returns(r * m)
    ensures Returns(p % r * m)
  {
    hide Returns;
    ReturnsTimes(r * m, p / r);
    var whole := p / r * (r * m);
    assert p % r * m + whole == p * m by {
      assert whole == p / r * r * m;
      assert p == p / r * r + p % r;
    }
    ReturnsSum(whole, p % r * m);
  }

  // Euclid's algorithm on the exponents: with a prime it ends in 1.
  lemma {:induction false} Descend(p: nat, r: nat, m: nat)
    requires Prime(p) && 0 < r < p && Returns(p * m) && Returns(r * m)
    ensures Returns(m)
    decreases r
  {
    hide Returns;
    if r > 1 {
      ReturnsRest(p, r, m);
      Descend(p, p % r, m);
    } else {
      assert r * m == m;
    }
  }

  lemma PrimeDivides(p: nat, m: nat, d: nat)
    requires Prime(p) && Returns(p * m) && !Returns(m) && Returns(d)
    ensures d % p == 0
  {
    hide Returns;
    if d % p != 0 {
      ReturnsTimes(d, m);
      assert m * d == d * m;
      ReturnsRest(d, p, m);
      Descend(p, d % p, m);
    }
  }

  lemma SmallPrimes()
    ensures Prime(7) && Prime(31) && Prime(151)
  {
    forall r | 1 < r < 151
      ensures 151 % r != 0
    {
      NotFactor(r, 151 / r);
    }
  }

  lemma NotFactor(r: nat, q: nat)
    requires 1 < r < 151
    ensures q * r != 151
  {
    if r < 13 {
      assert r == 2 || r == 3 || r == 4 || r == 5 || r == 6 || r == 7 || r == 8 || r == 9 || r == 10 || r == 11 || r == 12;
    } else if q < 12 {
      assert q == 0 || q == 1 || q == 2 || q == 3 || q == 4 || q == 5 || q == 6 || q == 7 || q == 8 || q == 9 || q >= 10;
    } else {
      assert q * r >= 12 * 13;
    }
  }

  /** x has order 32767 = 7 * 31 * 151. */
  lemma OrderOfX(d: nat)
    ensures Returns(d) <==> d % 32767 == 0
  {
    hide Returns, Prime;
    Landmarks();
    if Returns(d) {
      SmallPrimes();
      PrimeDivides(7, 4681, d);
      PrimeDivides(31, 1057, d);
      PrimeDivides(151, 217, d);
      AllThree(d, d / 7, d / 31, d / 151);
    }
    if d % 32767 == 0 {
      ReturnsTimes(32767, d / 32767);
    }
  }

  lemma AllThree(d: nat, a: nat, b: nat, c: nat)
    requires d == 7 * a && d == 31 * b && d == 151 * c
    ensures d % 32767 == 0
  {
    var e := 9 * b - 2 * a;
    assert d == 217 * e;
    assert d == 32767 * (23 * e - 16 * c);
  }

  // ----- Two flipped bits

  /** The two messages differ at `i` and `j` and nowhere else. */
  ghost predicate DifferAtTwo(s: Bits, t: Bits, i: nat, j: nat) {
    && i < j < |s| == |t|
    && forall k :: 0 <= k < |s| ==> (s[k] != t[k] <==> k == i || k == j)
  }

  lemma FeedOne(c: Register)
    ensures FeedBits(c, [true]) == Xor(Step(c), Taps())
  {
    assert [true][..0] == [];
    assert FeedBits(c, []) == c;
    assert Feed(c, true) == Xor(Step(c), Taps());
  }

  // What the register makes of the difference, started from zero.
  lemma TwoLeave(p: nat, d: nat, q: nat)
    requires d > 0
    ensures FeedBits(Zeros(16), Zeros(p) + [true] + Zeros(d - 1) + [true] + Zeros(q)) == Zeros(16) <==> Returns(d)
  {
    hide Step, Xor, Taps, Feed, One, Zeros;
    var z := Zeros(16);
    FoldConcat<Register, bool>(Feed, z, Zeros(p) + [true] + Zeros(d - 1) + [true], Zeros(q));
    FoldConcat<Register, bool>(Feed, z, Zeros(p) + [true] + Zeros(d - 1), [true]);
    FoldConcat<Register, bool>(Feed, z, Zeros(p) + [true], Zeros(d - 1));
    FoldConcat<Register, bool>(Feed, z, Zeros(p), [true]);
    FeedZeros(z, p);
    StepsKeep(z, p);
    FeedOne(z);
    StepOfZeros();
    XorZeroLeft(Taps());
    FeedZeros(Taps(), d - 1);
    var r := Iterate<Register>(Step, Taps(), d - 1);
    FeedOne(r);
    var m := Xor(Step(r), Taps());
    FeedZeros(m, q);
    StepsKeep(m, q);
    XorZero(Step(r), Taps());
    TapsBack(d);
  }

  lemma XorZeroLeft(c: Register)
    ensures Xor(Zeros(16), c) == c
  {}

  lemma TapsBack(d: nat)
    ensures Iterate<Register>(Step, Taps(), d) == Taps() <==> Returns(d)
  {
    hide Step, Taps, One;
    TapsIsPower();
    Exchange(d, 16);
  }

  lemma Exchange(d: nat, n: nat)
    ensures Iterate<Register>(Step, Power(n), d) == Power(n) <==> Returns(d)
  {
    hide Step, One;
    IterateAdds(One(), d, n);
    IterateAdds(One(), n, d);
    if Iterate<Register>(Step, Power(d), n) == Iterate<Register>(Step, One(), n) {
      IterateInjective(Power(d), One(), n);
    }
  }

  /** Two flipped bits go unseen exactly when their distance is a multiple of
      32767: at every position, in messages of every length, from every initial
      value. */
  lemma TwoBitErrors(c: Register, a: Message, b: Message, i: nat, j: nat)
    requires |a| == |b| && DifferAtTwo(MessageBits(a), MessageBits(b), i, j)
    ensures CrcOf(c, a) == CrcOf(c, b) <==> (j - i) % 32767 == 0
  {
    hide MessageBits, Returns, Xor;
    var s, t, z := MessageBits(a), MessageBits(b), Zeros(16);
    var p, d, q := i, j - i, |s| - j - 1;
    assert XorBits(s, t) == Zeros(p) + [true] + Zeros(d - 1) + [true] + Zeros(q);
    TwoLeave(p, d, q);
    OrderOfX(d);
    FeedBitsLinear(c, c, s, t);
    XorSelf(c);
    XorZero(CrcOf(c, a), CrcOf(c, b));
  }
}
