/**
  The check value by which CRC-16/ARC is told from its relatives: the CRC of the nine
  ASCII digits from 1 to 9.
 */
module CrcCheck {
  import opened Folds
  import opened Crc
  import opened CrcTable
  import opened CrcOrder

  function FourSteps(c: bv16): bv16 {
    StepWord(StepWord(StepWord(StepWord(c))))
  }

  /** A byte fed into a register held in a word. */
  function FeedWord(c: bv16, b: bv8): bv16 {
    FourSteps(FourSteps(XorWord(c, b as bv16)))
  }

  lemma WideBit(b: bv8, w: bv16, k: nat)
    requires w == b as bv16
    ensures WordBit(w, k) == (k < 8 && TestBit(b, k))
  {
    if k == 0 {} else if k == 1 {} else if k == 2 {} else if k == 3 {}
    else if k == 4 {} else if k == 5 {} else if k == 6 {} else if k == 7 {}
    else if k == 8 {} else if k == 9 {} else if k == 10 {} else if k == 11 {}
    else if k == 12 {} else if k == 13 {} else if k == 14 {} else {}
  }

  lemma WideBits(b: bv8, w: bv16)
    requires w == b as bv16
    ensures WordBits(w) == Pad(BitsOf(b))
  {
    hide WordBit, TestBit;
    forall k: nat | k < 16
      ensures WordBits(w)[k] == Pad(BitsOf(b))[k]
    {
      WideBit(b, w, k);
    }
  }

  lemma FourStepsStep(r: Register, n: nat, c: bv16)
    requires WordBits(c) == Iterate<Register>(Step, r, n)
    ensures WordBits(FourSteps(c)) == Iterate<Register>(Step, r, n + 4)
  {
    hide Step, StepWord, WordBits;
    OneStep(r, n, c);
    OneStep(r, n + 1, StepWord(c));
    OneStep(r, n + 2, StepWord(StepWord(c)));
    OneStep(r, n + 3, StepWord(StepWord(StepWord(c))));
  }

  lemma OneStep(r: Register, n: nat, c: bv16)
    requires WordBits(c) == Iterate<Register>(Step, r, n)
    ensures WordBits(StepWord(c)) == Iterate<Register>(Step, r, n + 1)
  {
    hide Step, StepWord, WordBits;
    StepWordSteps(c);
  }

  lemma FeedWordFeeds(c: bv16, b: bv8, w: bv16, r: Register)
    requires w == b as bv16 && r == Xor(WordBits(c), WordBits(w))
    ensures WordBits(FeedWord(c, b)) == FeedBits(WordBits(c), BitsOf(b))
  {
    hide Step, FourSteps, WordBits, XorWord, Xor, BitsOf, FeedBits;
    WideBits(b, w);
    WordBitsXor(c, w, XorWord(c, w));
    FourStepsStep(r, 0, XorWord(c, w));
    FourStepsStep(r, 4, FourSteps(XorWord(c, w)));
    FeedWindow(WordBits(c), BitsOf(b));
  }

  lemma OneMoreByte(msg: Message, b: bv8, c: bv16, r: bv16)
    requires WordBits(c) == CrcOf(Zeros(16), msg) && r == FeedWord(c, b)
    ensures WordBits(r) == CrcOf(Zeros(16), msg + [b])
  {
    hide FeedWord, WordBits, BitsOf, FeedBits;
    FeedWordFeeds(c, b, b as bv16, Xor(WordBits(c), WordBits(b as bv16)));
    CrcConcat(Zeros(16), msg, [b]);
    OneByte(b);
  }

  lemma OneByte(b: bv8)
    ensures MessageBits([b]) == BitsOf(b)
  {
    assert [b][..0] == [];
    assert FlatMap(BitsOf, [b]) == FlatMap(BitsOf, []) + BitsOf(b);
  }

  lemma DigitsTo3()
    ensures FeedWord(0x0000, 0x31) == 0xD4C1 && FeedWord(0xD4C1, 0x32) == 0x4594 && FeedWord(0x4594, 0x33) == 0xBA04
  {}

  lemma DigitsTo6()
    ensures FeedWord(0xBA04, 0x34) == 0x14BA && FeedWord(0x14BA, 0x35) == 0xA455 && FeedWord(0xA455, 0x36) == 0x29E4
  {}

  lemma DigitsTo9()
    ensures FeedWord(0x29E4, 0x37) == 0x9D68 && FeedWord(0x9D68, 0x38) == 0x3C9D && FeedWord(0x3C9D, 0x39) == 0xBB3D
  {}

  /** CRC-16/ARC of "123456789" is 0xBB3D. */
  lemma CheckValue()
    ensures CrcOf(Zeros(16), [0x31, 0x32, 0x33, 0x34, 0x35, 0x36, 0x37, 0x38, 0x39]) == WordBits(0xBB3D)
  {
    hide FeedWord, WordBits, CrcOf;
    DigitsTo3();
    DigitsTo6();
    DigitsTo9();
    NothingFed();
    OneMoreByte([], 0x31, 0x0000, 0xD4C1);
    OneMoreByte([] + [0x31 as bv8], 0x32, 0xD4C1, 0x4594);
    OneMoreByte([] + [0x31 as bv8] + [0x32], 0x33, 0x4594, 0xBA04);
    OneMoreByte([] + [0x31 as bv8] + [0x32] + [0x33], 0x34, 0xBA04, 0x14BA);
    OneMoreByte([] + [0x31 as bv8] + [0x32] + [0x33] + [0x34], 0x35, 0x14BA, 0xA455);
    OneMoreByte([] + [0x31 as bv8] + [0x32] + [0x33] + [0x34] + [0x35], 0x36, 0xA455, 0x29E4);
    OneMoreByte([] + [0x31 as bv8] + [0x32] + [0x33] + [0x34] + [0x35] + [0x36], 0x37, 0x29E4, 0x9D68);
    OneMoreByte([] + [0x31 as bv8] + [0x32] + [0x33] + [0x34] + [0x35] + [0x36] + [0x37], 0x38, 0x9D68, 0x3C9D);
    OneMoreByte([] + [0x31 as bv8] + [0x32] + [0x33] + [0x34] + [0x35] + [0x36] + [0x37] + [0x38], 0x39, 0x3C9D, 0xBB3D);
    assert [] + [0x31 as bv8] + [0x32] + [0x33] + [0x34] + [0x35] + [0x36] + [0x37] + [0x38] + [0x39]
      == [0x31, 0x32, 0x33, 0x34, 0x35, 0x36, 0x37, 0x38, 0x39];
  }

  lemma NothingFed()
    ensures WordBits(0) == CrcOf(Zeros(16), [])
  {
    ZeroWord();
  }
}
