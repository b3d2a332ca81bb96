/**
  The look-up table of the table CRC tool (tools/tblCRCTool/cfe_ts_crc.c), and
  the proof that entry `i` holds what eight zero bit-steps make of a register
  holding `i`.
 */
module CrcTable {
  import opened Folds
  import opened Crc

  /** The 256 constants, sixteen to a row. */
  function Row(h: nat): seq<bv16> {
    if h == 0 then
      [0x0000, 0xC0C1, 0xC181, 0x0140, 0xC301, 0x03C0, 0x0280, 0xC241,
       0xC601, 0x06C0, 0x0780, 0xC741, 0x0500, 0xC5C1, 0xC481, 0x0440]
    else if h == 1 then
      [0xCC01, 0x0CC0, 0x0D80, 0xCD41, 0x0F00, 0xCFC1, 0xCE81, 0x0E40,
       0x0A00, 0xCAC1, 0xCB81, 0x0B40, 0xC901, 0x09C0, 0x0880, 0xC841]
    else if h == 2 then
      [0xD801, 0x18C0, 0x1980, 0xD941, 0x1B00, 0xDBC1, 0xDA81, 0x1A40,
       0x1E00, 0xDEC1, 0xDF81, 0x1F40, 0xDD01, 0x1DC0, 0x1C80, 0xDC41]
    else if h == 3 then
      [0x1400, 0xD4C1, 0xD581, 0x1540, 0xD701, 0x17C0, 0x1680, 0xD641,
       0xD201, 0x12C0, 0x1380, 0xD341, 0x1100, 0xD1C1, 0xD081, 0x1040]
    else if h == 4 then
      [0xF001, 0x30C0, 0x3180, 0xF141, 0x3300, 0xF3C1, 0xF281, 0x3240,
       0x3600, 0xF6C1, 0xF781, 0x3740, 0xF501, 0x35C0, 0x3480, 0xF441]
    else if h == 5 then
      [0x3C00, 0xFCC1, 0xFD81, 0x3D40, 0xFF01, 0x3FC0, 0x3E80, 0xFE41,
       0xFA01, 0x3AC0, 0x3B80, 0xFB41, 0x3900, 0xF9C1, 0xF881, 0x3840]
    else if h == 6 then
      [0x2800, 0xE8C1, 0xE981, 0x2940, 0xEB01, 0x2BC0, 0x2A80, 0xEA41,
       0xEE01, 0x2EC0, 0x2F80, 0xEF41, 0x2D00, 0xEDC1, 0xEC81, 0x2C40]
    else if h == 7 then
      [0xE401, 0x24C0, 0x2580, 0xE541, 0x2700, 0xE7C1, 0xE681, 0x2640,
       0x2200, 0xE2C1, 0xE381, 0x2340, 0xE101, 0x21C0, 0x2080, 0xE041]
    else if h == 8 then
      [0xA001, 0x60C0, 0x6180, 0xA141, 0x6300, 0xA3C1, 0xA281, 0x6240,
       0x6600, 0xA6C1, 0xA781, 0x6740, 0xA501, 0x65C0, 0x6480, 0xA441]
    else if h == 9 then
      [0x6C00, 0xACC1, 0xAD81, 0x6D40, 0xAF01, 0x6FC0, 0x6E80, 0xAE41,
       0xAA01, 0x6AC0, 0x6B80, 0xAB41, 0x6900, 0xA9C1, 0xA881, 0x6840]
    else if h == 10 then
      [0x7800, 0xB8C1, 0xB981, 0x7940, 0xBB01, 0x7BC0, 0x7A80, 0xBA41,
       0xBE01, 0x7EC0, 0x7F80, 0xBF41, 0x7D00, 0xBDC1, 0xBC81, 0x7C40]
    else if h == 11 then
      [0xB401, 0x74C0, 0x7580, 0xB541, 0x7700, 0xB7C1, 0xB681, 0x7640,
       0x7200, 0xB2C1, 0xB381, 0x7340, 0xB101, 0x71C0, 0x7080, 0xB041]
    else if h == 12 then
      [0x5000, 0x90C1, 0x9181, 0x5140, 0x9301, 0x53C0, 0x5280, 0x9241,
       0x9601, 0x56C0, 0x5780, 0x9741, 0x5500, 0x95C1, 0x9481, 0x5440]
    else if h == 13 then
      [0x9C01, 0x5CC0, 0x5D80, 0x9D41, 0x5F00, 0x9FC1, 0x9E81, 0x5E40,
       0x5A00, 0x9AC1, 0x9B81, 0x5B40, 0x9901, 0x59C0, 0x5880, 0x9841]
    else if h == 14 then
      [0x8801, 0x48C0, 0x4980, 0x8941, 0x4B00, 0x8BC1, 0x8A81, 0x4A40,
       0x4E00, 0x8EC1, 0x8F81, 0x4F40, 0x8D01, 0x4DC0, 0x4C80, 0x8C41]
    else
      [0x4400, 0x84C1, 0x8581, 0x4540, 0x8701, 0x47C0, 0x4680, 0x8641,
       0x8201, 0x42C0, 0x4380, 0x8341, 0x4100, 0x81C1, 0x8081, 0x4040]
  }

  function Rows(n: nat): seq<bv16> {
    if n == 0 then [] else Rows(n - 1) + Row(n - 1)
  }

  /** As many rows as there are entries in one. */
  function Table(): seq<bv16> {
    Rows(|Row(0)|)
  }

  // ----- A bv16 seen as a register

  /** Bit `k` of a 16-bit word, counting from the least significant. */
  predicate WordBit(c: bv16, k: nat) {
    if k == 0 then c & 1 != 0 else if k == 1 then c & 2 != 0
    else if k == 2 then c & 4 != 0 else if k == 3 then c & 8 != 0
    else if k == 4 then c & 0x10 != 0 else if k == 5 then c & 0x20 != 0
    else if k == 6 then c & 0x40 != 0 else if k == 7 then c & 0x80 != 0
    else if k == 8 then c & 0x100 != 0 else if k == 9 then c & 0x200 != 0
    else if k == 10 then c & 0x400 != 0 else if k == 11 then c & 0x800 != 0
    else if k == 12 then c & 0x1000 != 0 else if k == 13 then c & 0x2000 != 0
    else if k == 14 then c & 0x4000 != 0 else k == 15 && c & 0x8000 != 0
  }

  function WordBits(c: bv16): Register {
    Spread(WordBit, 16, c)
  }

  function XorWord(a: bv16, b: bv16): bv16 {
    a ^ b
  }

  lemma WordBitXor(a: bv16, b: bv16, k: nat)
    ensures WordBit(XorWord(a, b), k) == (WordBit(a, k) != WordBit(b, k))
  {
    if k == 0 {} else if k == 1 {} else if k == 2 {} else if k == 3 {} else if k == 4 {}
    else if k == 5 {} else if k == 6 {} else if k == 7 {} else if k == 8 {} else if k == 9 {}
    else if k == 10 {} else if k == 11 {} else if k == 12 {} else if k == 13 {} else if k == 14 {}
    else if k == 15 {} else {}
  }

  lemma WordBitIsBitwise()
    ensures Bitwise(WordBit, XorWord, XorBit)
  {
    forall x, y, k: nat
      ensures WordBit(XorWord(x, y), k) == XorBit(WordBit(x, k), WordBit(y, k))
    {
      WordBitXor(x, y, k);
    }
  }

  lemma WordBitsXor(a: bv16, b: bv16, c: bv16)
    requires c == XorWord(a, b)
    ensures WordBits(c) == Xor(WordBits(a), WordBits(b))
  {
    WordBitIsBitwise();
    SpreadZip(WordBit, 16, XorWord, XorBit, a, b);
  }

  lemma WordBitShift(c: bv16, h: bv16, k: nat)
    requires h == c >> 1
    ensures WordBit(h, k) == WordBit(c, k + 1)
  {
    if k == 0 {} else if k == 1 {} else if k == 2 {} else if k == 3 {} else if k == 4 {}
    else if k == 5 {} else if k == 6 {} else if k == 7 {} else if k == 8 {} else if k == 9 {}
    else if k == 10 {} else if k == 11 {} else if k == 12 {} else if k == 13 {} else if k == 14 {}
    else if k == 15 {} else {}
  }

  lemma HalfBits(c: bv16, h: bv16)
    requires h == c >> 1
    ensures WordBits(h) == WordBits(c)[1..] + [false]
  {
    forall k | 0 <= k < 16
      ensures WordBits(h)[k] == (WordBits(c)[1..] + [false])[k]
    {
      WordBitShift(c, h, k);
    }
  }

  lemma TapWordBit(k: nat)
    ensures WordBit(0xA001, k) == Tap(k)
  {
    if k == 0 {} else if k == 1 {} else if k == 2 {} else if k == 3 {} else if k == 4 {}
    else if k == 5 {} else if k == 6 {} else if k == 7 {} else if k == 8 {} else if k == 9 {}
    else if k == 10 {} else if k == 11 {} else if k == 12 {} else if k == 13 {} else if k == 14 {}
    else if k == 15 {} else {}
  }

  lemma TapWord()
    ensures WordBits(0xA001) == Taps()
  {
    forall k: nat
      ensures WordBit(0xA001, k) == Tap(k)
    {
      TapWordBit(k);
    }
  }

  lemma ShiftWordSteps(c: bv16, h: bv16, r: bv16)
    requires h == c >> 1
    requires c & 1 != 0 ==> r == XorWord(h, 0xA001)
    requires c & 1 == 0 ==> r == h
    ensures WordBits(r) == Step(WordBits(c))
  {
    HalfBits(c, h);
    assert WordBits(c)[0] == WordBit(c, 0);
    if c & 1 != 0 {
      WordBitsXor(h, 0xA001, r);
      TapWord();
    }
  }

  // ----- The table

  /** What eight zero bit-steps make of a register holding the byte `i`. */
  function ByteSteps(i: bv8): Register {
    Iterate<Register>(Step, Pad(BitsOf(i)), |BitsOf(i)|)
  }

  ghost predicate EntryOk(i: bv8, x: bv16) {
    WordBits(x) == ByteSteps(i)
  }

  lemma PadXor(s: Bits, t: Bits)
    requires |s| == |t| <= 16
    ensures Pad(XorBits(s, t)) == Xor(Pad(s), Pad(t))
  {}

  lemma ByteStepsXor(i: bv8, j: bv8, k: bv8)
    requires k == Xor8(i, j)
    ensures ByteSteps(k) == Xor(ByteSteps(i), ByteSteps(j))
  {
    BitsOfDistributes();
    assert BitsOf(k) == XorBits(BitsOf(i), BitsOf(j));
    PadXor(BitsOf(i), BitsOf(j));
    FeedIsLinear();
    assert Neutral<Register, bool>(Feed, Step, false);
    IterateLinear<Register, bool>(Step, Feed, Xor, XorBit, false, Pad(BitsOf(i)), Pad(BitsOf(j)), |BitsOf(i)|);
  }

  // Entries combine by xor, like their indices.
  ghost predicate XorClosed(ok: (bv8, bv16) -> bool) {
    forall i, j, x, y {:trigger ok(Xor8(i, j), XorWord(x, y))} ::
      ok(i, x) && ok(j, y) ==> ok(Xor8(i, j), XorWord(x, y))
  }

  lemma EntryXor(ok: (bv8, bv16) -> bool, i: bv8, j: bv8, k: bv8, x: bv16, y: bv16, z: bv16)
    requires XorClosed(ok) && ok(i, x) && ok(j, y) && k == Xor8(i, j) && z == XorWord(x, y)
    ensures ok(k, z)
  {
    assert ok(Xor8(i, j), XorWord(x, y));
  }

  lemma EntryOkClosed()
    ensures XorClosed(EntryOk)
  {
    forall i, j, x, y | EntryOk(i, x) && EntryOk(j, y)
      ensures EntryOk(Xor8(i, j), XorWord(x, y))
    {
      ByteStepsXor(i, j, Xor8(i, j));
      WordBitsXor(x, y, XorWord(x, y));
    }
  }

  // The entry of a single bit is one step on from the entry of the next bit up.
  lemma {:induction false} StepsOfUnit(n: nat, m: nat)
    requires n <= 15
    ensures Iterate<Register>(Step, Zeros(n) + [true] + Zeros(15 - n), m + n + 1) == Iterate<Register>(Step, Taps(), m)
    decreases n
  {
    hide Step, Taps;
    var u := Zeros(n) + [true] + Zeros(15 - n);
    IterateFirst<Register>(Step, u, m + n);
    StepOfUnit(n, u);
    if n > 0 {
      StepsOfUnit(n - 1, m);
    }
  }

  lemma StepOfUnit(n: nat, u: Register)
    requires n <= 15 && u == Zeros(n) + [true] + Zeros(15 - n)
    ensures Step(u) == if n == 0 then Taps() else Zeros(n - 1) + [true] + Zeros(16 - n)
  {}

  lemma UnitByte(i: bv8, n: nat)
    requires n <= 7 && forall k: nat :: k < 8 ==> TestBit(i, k) == (k == n)
    ensures ByteSteps(i) == Iterate<Register>(Step, Taps(), 7 - n)
  {
    assert Pad(BitsOf(i)) == Zeros(n) + [true] + Zeros(15 - n);
    StepsOfUnit(n, 7 - n);
  }

  lemma UnitChain(i: bv8, j: bv8, n: nat, x: bv16, y: bv16)
    requires n < 7 && (forall k: nat :: k < 8 ==> TestBit(i, k) == (k == n))
    requires forall k: nat :: k < 8 ==> TestBit(j, k) == (k == n + 1)
    requires EntryOk(j, y)
    requires y & 1 != 0 ==> x == XorWord(y >> 1, 0xA001)
    requires y & 1 == 0 ==> x == y >> 1
    ensures EntryOk(i, x)
  {
    UnitByte(i, n);
    UnitByte(j, n + 1);
    ShiftWordSteps(y, y >> 1, x);
  }

  lemma TopUnit()
    ensures EntryOk(0x80, 0xA001)
  {
    UnitByte(0x80, 7);
    TapWord();
  }

  // The eight single-bit entries, and the zero entry.
  ghost predicate UnitsOk(ok: (bv8, bv16) -> bool) {
    && ok(0, 0)
    && ok(0x01, 0xC0C1) && ok(0x02, 0xC181)
    && ok(0x04, 0xC301) && ok(0x08, 0xC601)
    && ok(0x10, 0xCC01) && ok(0x20, 0xD801)
    && ok(0x40, 0xF001) && ok(0x80, 0xA001)
  }

  lemma Units()
    ensures UnitsOk(EntryOk) && XorClosed(EntryOk)
  {
    EntryOkClosed();
    TopUnit();
    UnitChain(0x40, 0x80, 6, 0xF001, 0xA001);
    UnitChain(0x20, 0x40, 5, 0xD801, 0xF001);
    UnitChain(0x10, 0x20, 4, 0xCC01, 0xD801);
    UnitChain(0x08, 0x10, 3, 0xC601, 0xCC01);
    UnitChain(0x04, 0x08, 2, 0xC301, 0xC601);
    UnitChain(0x02, 0x04, 1, 0xC181, 0xC301);
    UnitChain(0x01, 0x02, 0, 0xC0C1, 0xC181);
    EntryXor(EntryOk, 0x80, 0x80, 0, 0xA001, 0xA001, 0);
  }

  // The first row, and the first entry of every row.
  lemma LowNibbles(ok: (bv8, bv16) -> bool)
    requires XorClosed(ok) && UnitsOk(ok)
    ensures ok(0x00, 0x0000)
    ensures ok(0x01, 0xC0C1)
    ensures ok(0x02, 0xC181)
    ensures ok(0x03, 0x0140)
    ensures ok(0x04, 0xC301)
    ensures ok(0x05, 0x03C0)
    ensures ok(0x06, 0x0280)
    ensures ok(0x07, 0xC241)
    ensures ok(0x08, 0xC601)
    ensures ok(0x09, 0x06C0)
    ensures ok(0x0A, 0x0780)
    ensures ok(0x0B, 0xC741)
    ensures ok(0x0C, 0x0500)
    ensures ok(0x0D, 0xC5C1)
    ensures ok(0x0E, 0xC481)
    ensures ok(0x0F, 0x0440)
  {
    EntryXor(ok, 0x02, 0x01, 0x03, 0xC181, 0xC0C1, 0x0140);
    EntryXor(ok, 0x04, 0x01, 0x05, 0xC301, 0xC0C1, 0x03C0);
    EntryXor(ok, 0x04, 0x02, 0x06, 0xC301, 0xC181, 0x0280);
    EntryXor(ok, 0x04, 0x03, 0x07, 0xC301, 0x0140, 0xC241);
    EntryXor(ok, 0x08, 0x01, 0x09, 0xC601, 0xC0C1, 0x06C0);
    EntryXor(ok, 0x08, 0x02, 0x0A, 0xC601, 0xC181, 0x0780);
    EntryXor(ok, 0x08, 0x03, 0x0B, 0xC601, 0x0140, 0xC741);
    EntryXor(ok, 0x08, 0x04, 0x0C, 0xC601, 0xC301, 0x0500);
    EntryXor(ok, 0x08, 0x05, 0x0D, 0xC601, 0x03C0, 0xC5C1);
    EntryXor(ok, 0x08, 0x06, 0x0E, 0xC601, 0x0280, 0xC481);
    EntryXor(ok, 0x08, 0x07, 0x0F, 0xC601, 0xC241, 0x0440);
  }

  lemma HighNibbles(ok: (bv8, bv16) -> bool)
    requires XorClosed(ok) && UnitsOk(ok)
    ensures ok(0x00, 0x0000)
    ensures ok(0x10, 0xCC01)
    ensures ok(0x20, 0xD801)
    ensures ok(0x30, 0x1400)
    ensures ok(0x40, 0xF001)
    ensures ok(0x50, 0x3C00)
    ensures ok(0x60, 0x2800)
    ensures ok(0x70, 0xE401)
    ensures ok(0x80, 0xA001)
    ensures ok(0x90, 0x6C00)
    ensures ok(0xA0, 0x7800)
    ensures ok(0xB0, 0xB401)
    ensures ok(0xC0, 0x5000)
    ensures ok(0xD0, 0x9C01)
    ensures ok(0xE0, 0x8801)
    ensures ok(0xF0, 0x4400)
  {
    EntryXor(ok, 0x20, 0x10, 0x30, 0xD801, 0xCC01, 0x1400);
    EntryXor(ok, 0x40, 0x10, 0x50, 0xF001, 0xCC01, 0x3C00);
    EntryXor(ok, 0x40, 0x20, 0x60, 0xF001, 0xD801, 0x2800);
    EntryXor(ok, 0x40, 0x30, 0x70, 0xF001, 0x1400, 0xE401);
    EntryXor(ok, 0x80, 0x10, 0x90, 0xA001, 0xCC01, 0x6C00);
    EntryXor(ok, 0x80, 0x20, 0xA0, 0xA001, 0xD801, 0x7800);
    EntryXor(ok, 0x80, 0x30, 0xB0, 0xA001, 0x1400, 0xB401);
    EntryXor(ok, 0x80, 0x40, 0xC0, 0xA001, 0xF001, 0x5000);
    EntryXor(ok, 0x80, 0x50, 0xD0, 0xA001, 0x3C00, 0x9C01);
    EntryXor(ok, 0x80, 0x60, 0xE0, 0xA001, 0x2800, 0x8801);
    EntryXor(ok, 0x80, 0x70, 0xF0, 0xA001, 0xE401, 0x4400);
  }

  ghost predicate FirstRowOk(ok: (bv8, bv16) -> bool, row: seq<bv16>) {
    && |row| == 16
    && ok(0, row[0]) && ok(1, row[1])
    && ok(2, row[2]) && ok(3, row[3])
    && ok(4, row[4]) && ok(5, row[5])
    && ok(6, row[6]) && ok(7, row[7])
    && ok(8, row[8]) && ok(9, row[9])
    && ok(10, row[10]) && ok(11, row[11])
    && ok(12, row[12]) && ok(13, row[13])
    && ok(14, row[14]) && ok(15, row[15])
  }

  // Every row is the first row xor its own first entry.
  ghost predicate IsShifted(row: seq<bv16>, first: seq<bv16>) {
    && |row| == |first| == 16
    && row[1] == XorWord(row[0], first[1]) && row[2] == XorWord(row[0], first[2]) && row[3] == XorWord(row[0], first[3])
    && row[4] == XorWord(row[0], first[4]) && row[5] == XorWord(row[0], first[5]) && row[6] == XorWord(row[0], first[6])
    && row[7] == XorWord(row[0], first[7]) && row[8] == XorWord(row[0], first[8]) && row[9] == XorWord(row[0], first[9])
    && row[10] == XorWord(row[0], first[10]) && row[11] == XorWord(row[0], first[11]) && row[12] == XorWord(row[0], first[12])
    && row[13] == XorWord(row[0], first[13]) && row[14] == XorWord(row[0], first[14]) && row[15] == XorWord(row[0], first[15])
  }

  lemma FirstRow(ok: (bv8, bv16) -> bool)
    requires XorClosed(ok) && UnitsOk(ok)
    ensures FirstRowOk(ok, Row(0))
  {
    LowNibbles(ok);
  }

  lemma FirstEntry(ok: (bv8, bv16) -> bool, first: seq<bv16>, l: bv8, n: nat)
    requires FirstRowOk(ok, first) && l < 16 && n == l as int
    ensures ok(l, first[n])
  {}

  lemma ShiftedAt(row: seq<bv16>, first: seq<bv16>, n: nat)
    requires IsShifted(row, first) && 1 <= n < 16
    ensures row[n] == XorWord(row[0], first[n])
  {}

  lemma RowOk(ok: (bv8, bv16) -> bool, h: bv8, row: seq<bv16>, first: seq<bv16>, l: bv8, n: nat, i: bv8)
    requires XorClosed(ok) && FirstRowOk(ok, first) && IsShifted(row, first) && ok(h, row[0])
    requires l < 16 && n == l as int && i == Xor8(h, l)
    ensures ok(i, row[n])
  {
    if n == 0 {
      assert i == h;
    } else {
      FirstEntry(ok, first, l, n);
      ShiftedAt(row, first, n);
      EntryXor(ok, h, l, i, row[0], first[n], row[n]);
    }
  }

  lemma RowShifted0To3(h: nat)
    requires 0 <= h < 4
    ensures IsShifted(Row(h), Row(0))
  {
    if h == 0 {} else if h == 1 {} else if h == 2 {} else {}
  }

  lemma RowShifted4To7(h: nat)
    requires 4 <= h < 8
    ensures IsShifted(Row(h), Row(0))
  {
    if h == 4 {} else if h == 5 {} else if h == 6 {} else {}
  }

  lemma RowShifted8To11(h: nat)
    requires 8 <= h < 12
    ensures IsShifted(Row(h), Row(0))
  {
    if h == 8 {} else if h == 9 {} else if h == 10 {} else {}
  }

  lemma RowShifted12To15(h: nat)
    requires 12 <= h < 16
    ensures IsShifted(Row(h), Row(0))
  {
    if h == 12 {} else if h == 13 {} else if h == 14 {} else {}
  }

  lemma RowShifted(h: nat)
    requires h < 16
    ensures IsShifted(Row(h), Row(0))
  {
    hide Row, IsShifted;
    if h < 4 {
      RowShifted0To3(h);
    } else if h < 8 {
      RowShifted4To7(h);
    } else if h < 12 {
      RowShifted8To11(h);
    } else {
      RowShifted12To15(h);
    }
  }

  lemma RowHead(m: nat)
    requires m < 16
    ensures |Row(m)| == 16 && Row(m)[0] == Head(m)
  {
    if m == 0 {} else if m == 1 {} else if m == 2 {} else if m == 3 {}
    else if m == 4 {} else if m == 5 {} else if m == 6 {} else if m == 7 {}
    else if m == 8 {} else if m == 9 {} else if m == 10 {} else if m == 11 {}
    else if m == 12 {} else if m == 13 {} else if m == 14 {} else {}
  }

  // The first entry of row `m`.
  function Head(m: nat): bv16 {
    if m == 0 then 0x0000 else if m == 1 then 0xCC01 else if m == 2 then 0xD801 else if m == 3 then 0x1400
    else if m == 4 then 0xF001 else if m == 5 then 0x3C00 else if m == 6 then 0x2800 else if m == 7 then 0xE401
    else if m == 8 then 0xA001 else if m == 9 then 0x6C00 else if m == 10 then 0x7800 else if m == 11 then 0xB401
    else if m == 12 then 0x5000 else if m == 13 then 0x9C01 else if m == 14 then 0x8801 else 0x4400
  }

  lemma HeadOk(ok: (bv8, bv16) -> bool, g: bv8, h: bv8, m: nat)
    requires XorClosed(ok) && UnitsOk(ok)
    requires h == g << 4 && m == g as int && m < 16
    ensures ok(h, Head(m))
  {
    HighNibbles(ok);
    HighNibbleValues(g, h, m);
  }

  lemma {:induction false} RowsSize(n: nat)
    requires n <= 16
    ensures |Rows(n)| == 16 * n
    decreases n
  {
    hide Row;
    if n > 0 {
      RowsSize(n - 1);
      RowHead(n - 1);
    }
  }

  lemma {:induction false} RowsAt(n: nat, m: nat, k: nat)
    requires m < n <= 16 && k < 16
    ensures |Rows(n)| == 16 * n && |Row(m)| == 16 && Rows(n)[16 * m + k] == Row(m)[k]
    decreases n
  {
    hide Row;
    RowHead(m);
    RowsSize(n - 1);
    RowsSize(n);
    if m < n - 1 {
      RowsAt(n - 1, m, k);
    }
  }

  lemma TableAt(m: nat, k: nat)
    requires m < 16 && k < 16
    ensures |Table()| == 256 && |Row(m)| == 16 && Table()[16 * m + k] == Row(m)[k]
  {
    hide Row, Rows;
    RowHead(0);
    RowsAt(|Row(0)|, m, k);
  }

  lemma Nibbles(i: bv8, h: bv8, l: bv8)
    requires h == i & 0xF0 && l == i & 0xF
    ensures i == Xor8(h, l) && l < 16
    ensures i as int == 16 * ((i >> 4) as int) + (l as int) && (i >> 4) as int < 16
    ensures h == (i >> 4) << 4
  {}

  lemma HighNibbleValues(g: bv8, h: bv8, m: nat)
    requires h == g << 4 && m == g as int && m < 16
    ensures m == 0 ==> h == 0
    ensures m == 1 ==> h == 0x10
    ensures m == 2 ==> h == 0x20
    ensures m == 3 ==> h == 0x30
    ensures m == 4 ==> h == 0x40
    ensures m == 5 ==> h == 0x50
    ensures m == 6 ==> h == 0x60
    ensures m == 7 ==> h == 0x70
    ensures m == 8 ==> h == 0x80
    ensures m == 9 ==> h == 0x90
    ensures m == 10 ==> h == 0xA0
    ensures m == 11 ==> h == 0xB0
    ensures m == 12 ==> h == 0xC0
    ensures m == 13 ==> h == 0xD0
    ensures m == 14 ==> h == 0xE0
    ensures m == 15 ==> h == 0xF0
  {}

  lemma TableEntryOk(ok: (bv8, bv16) -> bool, i: bv8)
    requires XorClosed(ok) && UnitsOk(ok)
    ensures |Table()| == 256 && ok(i, Table()[i as int])
  {
    hide Row, Table, Head, UnitsOk;
    var h, l, m := i & 0xF0, i & 0xF, (i >> 4) as int;
    Nibbles(i, h, l);
    HeadOk(ok, i >> 4, h, m);
    RowHead(m);
    FirstRow(ok);
    RowShifted(m);
    RowOk(ok, h, Row(m), Row(0), l, l as int, i);
    TableAt(m, l as int);
  }

  /** The table lemma: entry `i` is eight zero bit-steps of `i`. */
  lemma TableEntry(i: bv8)
    ensures |Table()| == 256 && WordBits(Table()[i as int]) == ByteSteps(i)
  {
    Units();
    TableEntryOk(EntryOk, i);
    assert EntryOk(i, Table()[i as int]);
  }
}
