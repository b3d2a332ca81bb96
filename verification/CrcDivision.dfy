/**
  What the CRC register computes, said without the register: the remainder of
  polynomial division over GF(2).  A polynomial is the sequence of its
  coefficients, highest power first.
 */
module CrcDivision {
  import opened Folds
  import opened Crc

  /** x^16 + x^15 + x^2 + 1. */
  function Polynomial(): (p: Bits)
    ensures |p| == 17
  {
    [true] + Taps()
  }

  /** The product of `q` and the polynomial: shift and add. */
  function TimesPolynomial(q: Bits): (s: Bits)
    ensures |s| == |q| + 16
  {
    if q == [] then
      Zeros(16)
    else
      var n := |q| - 1;
      var shifted := TimesPolynomial(q[..n]) + [false];
      if q[n] then XorBits(shifted, Zeros(n) + Polynomial()) else shifted
  }

  /** The dividend of CRC-16/ARC: the message times x^16 plus the initial
      register times x^n, for a message of n bits. */
  function Dividend(c: Register, s: Bits): (d: Bits)
    ensures |d| == |s| + 16
  {
    XorBits(c + Zeros(|s|), s + Zeros(16))
  }

  /** `q` and `r` are a quotient and a remainder of degree below 16. */
  ghost predicate IsDivision(c: Register, s: Bits, q: Bits, r: Register) {
    |q| == |s| && Dividend(c, s) == XorBits(TimesPolynomial(q), Zeros(|s|) + r)
  }

  function Quotient(c: Register, s: Bits): (q: Bits)
    ensures |q| == |s|
  {
    if s == [] then []
    else Quotient(c, s[..|s| - 1]) + [FeedBits(c, s[..|s| - 1])[0] != s[|s| - 1]]
  }

  // One more message bit: the dividend is shifted up and gains one coefficient.
  lemma DividendStep(c: Register, s: Bits, b: bool)
    ensures Dividend(c, s + [b]) == XorBits(Dividend(c, s) + [false], Zeros(|s|) + ([b] + Zeros(16)))
  {}

  lemma DivisionStep(c: Register, s: Bits, b: bool, q: Bits, r: Register)
    requires IsDivision(c, s, q, r)
    ensures IsDivision(c, s + [b], q + [r[0] != b], Feed(r, b))
  {
    var n, out, t := |s|, r[0] != b, Feed(r, b);
    DividendStep(c, s, b);
    assert (q + [out])[..n] == q;
    assert forall k :: 1 <= k < 17 ==> Polynomial()[k] == Tap(k - 1);
    var lhs := Dividend(c, s + [b]);
    var rhs := XorBits(TimesPolynomial(q + [out]), Zeros(n + 1) + t);
    forall i | 0 <= i < n + 17
      ensures lhs[i] == rhs[i]
    {
      if i > n {
        assert t[i - n - 1] == (At(r, i - n) != (out && Tap(i - n - 1)));
      }
    }
  }

  lemma {:induction false} RegisterDivides(c: Register, s: Bits)
    ensures IsDivision(c, s, Quotient(c, s), FeedBits(c, s))
    decreases |s|
  {
    if s != [] {
      var init, b := s[..|s| - 1], s[|s| - 1];
      RegisterDivides(c, init);
      DivisionStep(c, init, b, Quotient(c, init), FeedBits(c, init));
      assert s == init + [b];
    }
  }

  lemma ProductSnoc(q: Bits, n: nat, i: nat)
    requires |q| == n + 1 && i <= n
    ensures TimesPolynomial(q)[i] ==
      if i < n then TimesPolynomial(q[..n])[i] else (TimesPolynomial(q[..n])[n] != q[n])
  {
    assert (Zeros(n) + Polynomial())[n] == true;
  }

  // The high part of a product determines the factor.
  lemma {:induction false} ProductDetermines(q: Bits, p: Bits)
    requires |q| == |p| && TimesPolynomial(q)[..|q|] == TimesPolynomial(p)[..|q|]
    ensures q == p
    decreases |q|
  {
    hide TimesPolynomial;
    if q != [] {
      var n := |q| - 1;
      forall i | 0 <= i <= n
        ensures TimesPolynomial(q)[i] == TimesPolynomial(p)[i]
      {
        assert TimesPolynomial(q)[..|q|][i] == TimesPolynomial(p)[..|q|][i];
      }
      forall i | 0 <= i < n
        ensures TimesPolynomial(q[..n])[i] == TimesPolynomial(p[..n])[i]
      {
        ProductSnoc(q, n, i);
        ProductSnoc(p, n, i);
      }
      ProductDetermines(q[..n], p[..n]);
      ProductSnoc(q, n, n);
      ProductSnoc(p, n, n);
      assert q == q[..n] + [q[n]] && p == p[..n] + [p[n]];
    }
  }

  lemma DivisionUnique(c: Register, s: Bits, q: Bits, r: Register, q': Bits, r': Register)
    requires IsDivision(c, s, q, r) && IsDivision(c, s, q', r')
    ensures q == q' && r == r'
  {
    var n, d := |s|, Dividend(c, s);
    forall i | 0 <= i < n
      ensures TimesPolynomial(q)[i] == TimesPolynomial(q')[i]
    {
      assert d[i] == TimesPolynomial(q)[i] && d[i] == TimesPolynomial(q')[i];
    }
    ProductDetermines(q, q');
    forall k | 0 <= k < 16
      ensures r[k] == r'[k]
    {
      assert d[n + k] == (TimesPolynomial(q)[n + k] != r[k]);
      assert d[n + k] == (TimesPolynomial(q')[n + k] != r'[k]);
    }
  }

  /** The CRC is the remainder of dividing the dividend by the polynomial, and
      nothing else is. */
  lemma CrcIsRemainder(c: Register, msg: Message, r: Register)
    ensures (exists q :: IsDivision(c, MessageBits(msg), q, r)) <==> r == CrcOf(c, msg)
  {
    var s := MessageBits(msg);
    RegisterDivides(c, s);
    if q :| IsDivision(c, s, q, r) {
      DivisionUnique(c, s, q, r, Quotient(c, s), FeedBits(c, s));
    }
  }

  // ----- Consequences that bound and use the code

  /** Appending two bytes brings the register to zero exactly when they are the
      CRC itself, low byte first. */
  lemma ResidueZero(c: Register, msg: Message, lo: bv8, hi: bv8)
    ensures CrcOf(c, msg + [lo, hi]) == Zeros(16) <==> BitsOf(lo) + BitsOf(hi) == CrcOf(c, msg)
  {
    var r, w := CrcOf(c, msg), BitsOf(lo) + BitsOf(hi);
    CrcConcat(c, msg, [lo, hi]);
    TwoBytes(lo, hi);
    FeedWindow(r, w);
    assert Pad(w) == w;
    StepsKeep(Xor(r, w), 16);
    if Xor(r, w) == Zeros(16) {
      forall k | 0 <= k < 16
        ensures r[k] == w[k]
      {
        assert Xor(r, w)[k] == false;
      }
    }
    XorSelf(r);
  }

  lemma TwoBytes(lo: bv8, hi: bv8)
    ensures MessageBits([lo, hi]) == BitsOf(lo) + BitsOf(hi)
  {
    assert [lo, hi][..1] == [lo] && [lo][..0] == [];
    assert FlatMap(BitsOf, [lo]) == BitsOf(lo);
  }

  /** Sixteen bits is the exact bound: the seventeen-bit burst that is the
      polynomial itself goes unseen, wherever it falls. */
  lemma PolynomialBurstMissed(c: Register, a: Message, b: Message, p: nat, q: nat)
    requires |a| == |b| && |MessageBits(a)| == |MessageBits(b)|
    requires XorBits(MessageBits(a), MessageBits(b)) == Zeros(p) + Polynomial() + Zeros(q)
    ensures CrcOf(c, a) == CrcOf(c, b)
  {
    hide Polynomial, MessageBits;
    var z := Zeros(16);
    FeedBitsLinear(c, c, MessageBits(a), MessageBits(b));
    XorSelf(c);
    FoldConcat<Register, bool>(Feed, z, Zeros(p) + Polynomial(), Zeros(q));
    FoldConcat<Register, bool>(Feed, z, Zeros(p), Polynomial());
    FeedZeros(z, p);
    StepsKeep(z, p);
    PolynomialFeedsToZero();
    FeedZeros(z, q);
    StepsKeep(z, q);
    XorZero(CrcOf(c, a), CrcOf(c, b));
  }

  lemma XorZero(x: Register, y: Register)
    ensures Xor(x, y) == Zeros(16) <==> x == y
  {
    XorSelf(x);
    if Xor(x, y) == Zeros(16) {
      forall k | 0 <= k < 16
        ensures x[k] == y[k]
      {
        assert Xor(x, y)[k] == false;
      }
    }
  }

  lemma PolynomialFeedsToZero()
    ensures FeedBits(Zeros(16), Polynomial()) == Zeros(16)
  {
    FoldFirst<Register, bool>(Feed, Zeros(16), Polynomial());
    assert Polynomial()[1..] == Taps();
    assert Feed(Zeros(16), true) == Taps();
    FeedWindow(Taps(), Taps());
    assert Pad(Taps()) == Taps();
    XorSelf(Taps());
    StepsKeep(Zeros(16), 16);
  }
}
