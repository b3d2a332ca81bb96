/**
  CRC-16/ARC as its definition reads: message bits, least significant bit of
  each byte first, are fed one at a time into a reflected 16-bit register that
  divides by the polynomial x^16 + x^15 + x^2 + 1 (0x8005).  The algebra of
  that register is proved here for every message and every initial value.
 */
module Crc {
  import opened Folds

  type Bits = seq<bool>

  function Zeros(n: nat): (s: Bits)
    ensures |s| == n && forall i :: 0 <= i < n ==> s[i] == false
  {
    seq(n, _ => false)
  }

  /** The register, least significant bit first.  Bit `k` of the reflected
      register is the coefficient of x^(15-k). */
  type Register = s: Bits | |s| == 16 witness Zeros(16)

  /** Where the reflected polynomial 0xA001 has its ones. */
  predicate Tap(k: nat) {
    k == 0 || k == 13 || k == 15
  }

  predicate At(c: Register, k: nat) {
    k < 16 && c[k]
  }

  /** One bit-step: shift right, and when the bit that falls out differs from
      the message bit, subtract the polynomial. */
  function Feed(c: Register, bit: bool): (r: Register)
    ensures forall k {:trigger r[k]} :: 0 <= k < 16 ==> r[k] == (At(c, k + 1) != ((c[0] != bit) && Tap(k)))
  {
    seq(16, k requires 0 <= k < 16 => At(c, k + 1) != ((c[0] != bit) && Tap(k)))
  }

  function Step(c: Register): Register {
    Feed(c, false)
  }

  /** Bit `k` of a byte, counting from the least significant. */
  predicate TestBit(b: bv8, k: nat) {
    if k == 0 then b & 1 != 0 else if k == 1 then b & 2 != 0
    else if k == 2 then b & 4 != 0 else if k == 3 then b & 8 != 0
    else if k == 4 then b & 16 != 0 else if k == 5 then b & 32 != 0
    else if k == 6 then b & 64 != 0 else k == 7 && b & 128 != 0
  }

  /** The bits of a byte, least significant first. */
  function BitsOf(b: bv8): (s: Bits)
    ensures |s| == 8
  {
    Spread(TestBit, 8, b)
  }

  /** A message, byte by byte, as the bit patterns the register consumes. */
  type Message = seq<bv8>

  function MessageBits(msg: Message): Bits {
    FlatMap(BitsOf, msg)
  }

  function FeedBits(c: Register, bits: Bits): Register {
    Fold<Register, bool>(Feed, c, bits)
  }

  /** The reference: CRC-16/ARC of `msg` from register value `c`. */
  function CrcOf(c: Register, msg: Message): Register {
    FeedBits(c, MessageBits(msg))
  }

  /** Feeding a message in two pieces is feeding it whole. */
  lemma CrcConcat(c: Register, a: Message, b: Message)
    ensures CrcOf(c, a + b) == CrcOf(CrcOf(c, a), b)
  {
    FlatMapConcat(BitsOf, a, b);
    FoldConcat<Register, bool>(Feed, c, MessageBits(a), MessageBits(b));
  }

  // ----- Linearity over GF(2)

  predicate XorBit(a: bool, b: bool) {
    a != b
  }

  function XorBits(s: Bits, t: Bits): (u: Bits)
    requires |s| == |t|
    ensures |u| == |s|
    ensures forall i :: 0 <= i < |u| ==> u[i] == (s[i] != t[i])
  {
    Zip(XorBit, s, t)
  }

  function Xor(a: Register, b: Register): Register {
    XorBits(a, b)
  }

  function Xor8(a: bv8, b: bv8): bv8 {
    a ^ b
  }

  function XorMessage(a: Message, b: Message): Message
    requires |a| == |b|
  {
    Zip(Xor8, a, b)
  }

  lemma FeedIsLinear()
    ensures LinearStep<Register, bool>(Feed, Xor, XorBit)
  {
    forall x, y, e, f
      ensures Feed(Xor(x, y), XorBit(e, f)) == Xor(Feed(x, e), Feed(y, f))
    {
      FeedLinear(x, y, e, f);
    }
  }

  lemma FeedLinear(a: Register, b: Register, x: bool, y: bool)
    ensures Feed(Xor(a, b), XorBit(x, y)) == Xor(Feed(a, x), Feed(b, y))
  {}

  lemma FeedBitsLinear(a: Register, b: Register, s: Bits, t: Bits)
    requires |s| == |t|
    ensures FeedBits(Xor(a, b), XorBits(s, t)) == Xor(FeedBits(a, s), FeedBits(b, t))
  {
    FeedIsLinear();
    FoldLinear<Register, bool>(Feed, Xor, XorBit, a, b, s, t);
  }

  lemma TestBitXor(a: bv8, b: bv8, k: nat)
    ensures TestBit(Xor8(a, b), k) == (TestBit(a, k) != TestBit(b, k))
  {
    if k == 0 {} else if k == 1 {} else if k == 2 {} else if k == 3 {}
    else if k == 4 {} else if k == 5 {} else if k == 6 {} else {}
  }

  lemma TestBitIsBitwise()
    ensures Bitwise(TestBit, Xor8, XorBit)
  {
    forall x, y, k: nat
      ensures TestBit(Xor8(x, y), k) == XorBit(TestBit(x, k), TestBit(y, k))
    {
      TestBitXor(x, y, k);
    }
  }

  lemma BitsOfDistributes()
    ensures Distributes(BitsOf, Xor8, XorBit) && FixedLength(BitsOf, 8)
  {
    TestBitIsBitwise();
    forall x, y
      ensures BitsOf(Xor8(x, y)) == Zip(XorBit, BitsOf(x), BitsOf(y))
    {
      SpreadZip(TestBit, 8, Xor8, XorBit, x, y);
    }
  }

  lemma MessageBitsXor(a: Message, b: Message)
    requires |a| == |b|
    ensures |MessageBits(a)| == |MessageBits(b)|
    ensures MessageBits(XorMessage(a, b)) == XorBits(MessageBits(a), MessageBits(b))
  {
    BitsOfDistributes();
    FlatMapZip(BitsOf, 8, Xor8, XorBit, a, b);
  }

  /** CRC is linear over GF(2) in the message and the initial value together. */
  lemma CrcLinear(c: Register, d: Register, a: Message, b: Message)
    requires |a| == |b|
    ensures CrcOf(Xor(c, d), XorMessage(a, b)) == Xor(CrcOf(c, a), CrcOf(d, b))
  {
    MessageBitsXor(a, b);
    FeedBitsLinear(c, d, MessageBits(a), MessageBits(b));
  }

  // ----- Parity

  /** Whether the number of true bits is odd. */
  function Odd(s: Bits): bool {
    if s == [] then false else Odd(s[..|s| - 1]) != s[|s| - 1]
  }

  lemma {:induction false} OddXor(s: Bits, t: Bits)
    requires |s| == |t|
    ensures Odd(XorBits(s, t)) == (Odd(s) != Odd(t))
    decreases |s|
  {
    if s != [] {
      var n := |s| - 1;
      assert XorBits(s, t)[..n] == XorBits(s[..n], t[..n]);
      OddXor(s[..n], t[..n]);
    }
  }

  lemma {:induction false} OddFirst(s: Bits)
    requires s != []
    ensures Odd(s) == (s[0] != Odd(s[1..]))
    decreases |s|
  {
    if |s| > 1 {
      var n := |s| - 1;
      OddFirst(s[..n]);
      assert s[..n][1..] == s[1..][..n - 1];
    }
  }

  lemma {:induction false} OddZeros(n: nat)
    ensures !Odd(Zeros(n))
  {
    if n > 0 {
      assert Zeros(n)[..n - 1] == Zeros(n - 1);
      OddZeros(n - 1);
    }
  }

  function Taps(): Register {
    seq(16, k requires 0 <= k < 16 => Tap(k))
  }

  // The reflected polynomial has three ones.
  lemma OddTaps()
    ensures Odd(Taps())
  {
    var z := [true] + Zeros(12);
    OddZeros(12);
    OddFirst(z);
    assert z[1..] == Zeros(12);
    assert (z + [true])[..13] == z && Odd(z + [true]) == false;
    assert (z + [true, false])[..14] == z + [true];
    assert (z + [true, false, true])[..15] == z + [true, false];
    assert Taps() == z + [true, false, true];
  }

  lemma FeedParity(c: Register, bit: bool)
    ensures Odd(Feed(c, bit)) == (Odd(c) != bit)
  {
    var shifted := c[1..] + [false];
    var taken := if c[0] != bit then Taps() else Zeros(16);
    assert Feed(c, bit) == XorBits(shifted, taken);
    OddXor(shifted, taken);
    OddFirst(c);
    assert shifted[..15] == c[1..];
    OddTaps();
    OddZeros(16);
  }

  function RegisterOdd(c: Register): bool {
    Odd(c)
  }

  lemma ParityCommutes()
    ensures Commutes<Register, bool, bool>(RegisterOdd, Feed, XorBit)
  {
    forall c: Register, bit
      ensures RegisterOdd(Feed(c, bit)) == XorBit(RegisterOdd(c), bit)
    {
      FeedParity(c, bit);
    }
  }

  lemma {:induction false} OddIsFold(s: Bits, p: bool)
    ensures Fold(XorBit, p, s) == (p != Odd(s))
    decreases |s|
  {
    if s != [] {
      OddIsFold(s[..|s| - 1], p);
    }
  }

  /** The parity of the CRC is the parity of the message xor the parity of the
      initial value: x + 1 divides the polynomial. */
  lemma CrcParity(c: Register, msg: Message)
    ensures Odd(CrcOf(c, msg)) == (Odd(c) != Odd(MessageBits(msg)))
  {
    ParityCommutes();
    FoldCommutes<Register, bool, bool>(RegisterOdd, Feed, XorBit, c, MessageBits(msg));
    OddIsFold(MessageBits(msg), Odd(c));
  }

  /** Any odd number of flipped bits changes the CRC. */
  lemma OddErrorDetected(c: Register, a: Message, b: Message)
    requires |a| == |b| && |MessageBits(a)| == |MessageBits(b)|
    requires Odd(XorBits(MessageBits(a), MessageBits(b)))
    ensures CrcOf(c, a) != CrcOf(c, b)
  {
    OddXor(MessageBits(a), MessageBits(b));
    CrcParity(c, a);
    CrcParity(c, b);
  }

  // ----- A run of at most sixteen message bits acts like a change of register

  function Push(bit: bool, p: Register): Register {
    [bit] + p[..15]
  }

  predicate Fits(p: Register, n: nat) {
    forall k :: n <= k < 16 ==> !p[k]
  }

  /** A run of at most sixteen bits, widened to a register. */
  function Pad(w: Bits): Register
    requires |w| <= 16
  {
    w + Zeros(16 - |w|)
  }

  lemma FeedAbsorbs()
    ensures Absorbs<Register, bool>(Feed, Step, Xor, Push, Fits, 16)
  {
    forall x: Register, p: Register, e, n: nat | n < 16 && Fits(p, n)
      ensures Xor(Feed(x, e), p) == Step(Xor(x, Push(e, p)))
    {
      AbsorbBit(x, e, p);
    }
  }

  lemma AbsorbBit(x: Register, e: bool, p: Register)
    requires !p[15]
    ensures Xor(Feed(x, e), p) == Step(Xor(x, Push(e, p)))
  {
    var y := Xor(x, Push(e, p));
    forall k | 0 <= k < 16
      ensures Xor(Feed(x, e), p)[k] == Step(y)[k]
    {
      assert k < 15 ==> y[k + 1] == (x[k + 1] != p[k]);
    }
  }

  lemma {:induction false} PackedIsPad(w: Bits)
    requires |w| <= 16
    ensures Packed<Register, bool>(Push, Zeros(16), w) == Pad(w)
    decreases |w|
  {
    if w == [] {
      assert Pad(w) == Zeros(16);
    } else {
      PackedIsPad(w[1..]);
      assert Push(w[0], Pad(w[1..])) == Pad(w);
    }
  }

  lemma XorZeroRight()
    ensures forall x: Register :: Xor(x, Zeros(16)) == x
  {}

  /** The window law: up to sixteen message bits are absorbed by xoring them
      into the register and stepping with zeros. */
  lemma FeedWindow(c: Register, w: Bits)
    requires |w| <= 16
    ensures FeedBits(c, w) == Iterate<Register>(Step, Xor(c, Pad(w)), |w|)
  {
    FeedAbsorbs();
    XorZeroRight();
    WindowLaw<Register, bool>(Feed, Step, Xor, Push, Zeros(16), Fits, 16, c, w);
    PackedIsPad(w);
  }

  // ----- Burst detection

  predicate NonZero(c: Register) {
    c != Zeros(16)
  }

  predicate IsZero(c: Register) {
    c == Zeros(16)
  }

  lemma StepKeepsNonzero(c: Register)
    requires Step(c) == Zeros(16)
    ensures c == Zeros(16)
  {
    assert !Step(c)[15] && !c[0];
    forall k | 1 <= k < 16
      ensures !c[k]
    {
      assert !Step(c)[k - 1];
    }
  }

  lemma StepOfZero()
    ensures Keeps<Register>(Step, IsZero)
  {
    assert Step(Zeros(16)) == Zeros(16);
  }

  lemma StepsKeep(c: Register, n: nat)
    ensures IsZero(Iterate<Register>(Step, c, n)) <==> IsZero(c)
  {
    assert Keeps<Register>(Step, NonZero) by {
      forall x: Register | NonZero(x)
        ensures NonZero(Step(x))
      {
        if !NonZero(Step(x)) {
          StepKeepsNonzero(x);
        }
      }
    }
    if NonZero(c) {
      IterateKeeps<Register>(Step, NonZero, c, n);
    } else {
      StepOfZero();
      IterateKeeps<Register>(Step, IsZero, c, n);
    }
  }

  lemma FeedZeros(c: Register, n: nat)
    ensures FeedBits(c, Zeros(n)) == Iterate<Register>(Step, c, n)
  {
    assert Neutral<Register, bool>(Feed, Step, false);
    FoldNeutral<Register, bool>(Feed, Step, false, c, Zeros(n));
  }

  // A nonzero difference confined to a window of sixteen bits leaves a mark on
  // the zero register.
  lemma BurstLeavesMark(p: nat, w: Bits, q: nat)
    requires |w| <= 16 && Pad(w) != Zeros(16)
    ensures FeedBits(Zeros(16), Zeros(p) + w + Zeros(q)) != Zeros(16)
  {
    var z := Zeros(16);
    FoldConcat<Register, bool>(Feed, z, Zeros(p) + w, Zeros(q));
    FoldConcat<Register, bool>(Feed, z, Zeros(p), w);
    FeedZeros(z, p);
    StepsKeep(z, p);
    FeedWindow(z, w);
    assert Xor(z, Pad(w)) == Pad(w);
    StepsKeep(Pad(w), |w|);
    FeedZeros(FeedBits(z, w), q);
    StepsKeep(FeedBits(z, w), q);
  }

  lemma BitsOfInjective(a: bv8, b: bv8)
    requires BitsOf(a) == BitsOf(b)
    ensures a == b
  {
    SpreadAt(TestBit, 8, a, b);
    assert TestBit(a, 0) == TestBit(b, 0) && TestBit(a, 1) == TestBit(b, 1);
    assert TestBit(a, 2) == TestBit(b, 2) && TestBit(a, 3) == TestBit(b, 3);
    assert TestBit(a, 4) == TestBit(b, 4) && TestBit(a, 5) == TestBit(b, 5);
    assert TestBit(a, 6) == TestBit(b, 6) && TestBit(a, 7) == TestBit(b, 7);
  }

  lemma MessageBitsInjective(a: Message, b: Message)
    requires |a| == |b| && MessageBits(a) == MessageBits(b)
    ensures a == b
  {
    assert OneToOne(BitsOf) by {
      forall x, y | BitsOf(x) == BitsOf(y)
        ensures x == y
      {
        BitsOfInjective(x, y);
      }
    }
    FlatMapInjective(BitsOf, 8, a, b);
  }

  /** The two messages agree outside the sixteen bits starting at `p`. */
  ghost predicate DifferOnlyIn16(s: Bits, t: Bits, p: nat) {
    && |s| == |t|
    && forall i :: 0 <= i < |s| && !(p <= i < p + 16) ==> s[i] == t[i]
  }

  lemma WindowDiffers(s: Bits, t: Bits, p: nat, k: nat)
    requires DifferOnlyIn16(s, t, p) && k < |s| && s[k] != t[k]
    ensures FeedBits(Zeros(16), XorBits(s, t)) != Zeros(16)
  {
    var d := XorBits(s, t);
    var e := if p + 16 <= |d| then p + 16 else |d|;
    var w := d[p..e];
    assert d == Zeros(p) + w + Zeros(|d| - e);
    assert Pad(w)[k - p];
    BurstLeavesMark(p, w, |d| - e);
  }

  lemma XorSelf(c: Register)
    ensures Xor(c, c) == Zeros(16)
  {}

  /** Every error burst of at most sixteen consecutive bits is detected, in
      messages of every length, at every position, from every initial value. */
  lemma BurstDetected(c: Register, a: Message, b: Message, p: nat)
    requires |a| == |b| && a != b
    requires DifferOnlyIn16(MessageBits(a), MessageBits(b), p)
    ensures CrcOf(c, a) != CrcOf(c, b)
  {
    var s, t := MessageBits(a), MessageBits(b);
    if s == t {
      MessageBitsInjective(a, b);
      assert false;
    }
    var k :| 0 <= k < |s| && s[k] != t[k];
    WindowDiffers(s, t, p, k);
    FeedBitsLinear(c, c, s, t);
    XorSelf(c);
    XorSelf(CrcOf(c, a));
  }
}
