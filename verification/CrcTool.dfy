/**
  The table CRC tool (tools/tblCRCTool/cfe_ts_crc.c): the table-driven loop over
  a buffer, and the program's loop that skips the table file's header and reads
  the rest in pieces.
 */
module CrcTool {
  import opened Bytes
  import opened Folds
  import opened Crc
  import opened CrcTable

  // ----- C integers

  /** An `int16` promoted to `int`. */
  function SignExtend(c: bv16): bv32 {
    if c & 0x8000 != 0 then (c as bv32) | 0xFFFF0000 else c as bv32
  }

  /** What is left of an `int` in an `int16`. */
  function Low16(x: bv32): bv16 {
    (x & 0xFFFF) as bv16
  }

  /** `x >> 8` on a negative-capable `int`: the sign is shifted in. */
  function ShiftRight8(x: bv32): bv32 {
    (x >> 8) | (if x & 0x80000000 != 0 then 0xFF000000 else 0)
  }

  function LowByte(c: bv16): bv8 {
    (c & 0xFF) as bv8
  }

  lemma LowOfNegative(c: bv16, x: bv32)
    requires x == (c as bv32) | 0xFFFF0000
    ensures Low16(x) == c
  {}

  lemma LowOfPositive(c: bv16, x: bv32)
    requires x == c as bv32
    ensures Low16(x) == c
  {}

  /** The mask at the top of the next call undoes the sign extension. */
  lemma SignExtendKeepsLow(c: bv16)
    ensures Low16(SignExtend(c)) == c
  {
    if c & 0x8000 != 0 {
      LowOfNegative(c, SignExtend(c));
    } else {
      LowOfPositive(c, SignExtend(c));
    }
  }

  // The index computed on promoted operands is the low byte of the register
  // xor the message byte.
  lemma IndexIsByte(c: bv16, b: bv8, i: bv8)
    requires i == Xor8(LowByte(c), b)
    ensures (SignExtend(c) ^ (b as bv32)) & 0xFF == i as bv32
  {}

  lemma IndexAsInt(x: bv32, i: bv8)
    requires x == i as bv32
    ensures x as int == i as int && x as int < 256
  {}

  // So is the shifted register: the mask drops whatever sign was shifted in.
  lemma ShiftDropsSign(c: bv16)
    ensures ShiftRight8(SignExtend(c)) & 0xFF == (c >> 8) as bv32
  {}

  lemma XorTruncates(h: bv16, t: bv16)
    ensures Low16((h as bv32) ^ (t as bv32)) == XorWord(h, t)
  {}

  // ----- One byte of the loop, as register steps

  lemma LowByteBit(c: bv16, k: nat)
    requires k < 8
    ensures TestBit(LowByte(c), k) == WordBit(c, k)
  {
    if k == 0 {} else if k == 1 {} else if k == 2 {} else if k == 3 {}
    else if k == 4 {} else if k == 5 {} else if k == 6 {} else {}
  }

  lemma HighByteBit(c: bv16, h: bv16, k: nat)
    requires h == c >> 8 && k < 16
    ensures WordBit(h, k) == (k < 8 && WordBit(c, k + 8))
  {
    if k == 0 {} else if k == 1 {} else if k == 2 {} else if k == 3 {}
    else if k == 4 {} else if k == 5 {} else if k == 6 {} else if k == 7 {}
    else if k == 8 {} else if k == 9 {} else if k == 10 {} else if k == 11 {}
    else if k == 12 {} else if k == 13 {} else if k == 14 {} else {}
  }

  lemma LowByteBits(c: bv16)
    ensures BitsOf(LowByte(c)) == WordBits(c)[..8]
  {
    forall k: nat | k < 8
      ensures BitsOf(LowByte(c))[k] == WordBits(c)[..8][k]
    {
      LowByteBit(c, k);
    }
  }

  lemma HighByteBits(c: bv16, h: bv16)
    requires h == c >> 8
    ensures WordBits(h) == WordBits(c)[8..] + Zeros(8)
  {
    forall k: nat | k < 16
      ensures WordBits(h)[k] == (WordBits(c)[8..] + Zeros(8))[k]
    {
      HighByteBit(c, h, k);
    }
  }

  // Steps with zeros below the register's ones only shift.
  lemma {:induction false} StepsShift(n: nat, h: Bits, m: nat)
    requires n + |h| + m == 16
    ensures Iterate<Register>(Step, Zeros(n) + h + Zeros(m), n) == h + Zeros(n + m)
    decreases n
  {
    var u := Zeros(n) + h + Zeros(m);
    if n == 0 {
      assert u == h + Zeros(m);
    } else {
      IterateFirst<Register>(Step, u, n - 1);
      assert Step(u) == Zeros(n - 1) + h + Zeros(m + 1);
      StepsShift(n - 1, h, m + 1);
    }
  }

  /** Feeding `n` bits moves the rest of the register down by `n` and xors in
      `n` zero-steps of the register's low `n` bits xor the bits fed. */
  lemma FeedPiece(c: Register, w: Bits, x: Bits, n: nat)
    requires n == |w| <= 16 && x == XorBits(c[..n], w)
    ensures FeedBits(c, w) == Xor(c[n..] + Zeros(n), Iterate<Register>(Step, Pad(x), n))
  {
    var high := Zeros(n) + c[n..];
    FeedWindow(c, w);
    assert Xor(c, Pad(w)) == Xor(high, Pad(x));
    FeedIsLinear();
    assert Neutral<Register, bool>(Feed, Step, false);
    IterateLinear<Register, bool>(Step, Feed, Xor, XorBit, false, high, Pad(x), n);
    assert high == Zeros(n) + c[n..] + Zeros(0);
    StepsShift(n, c[n..], 0);
  }

  lemma TableStep(c: bv16, b: bv8, i: bv8, h: bv16, r: bv16)
    requires i == Xor8(LowByte(c), b) && h == c >> 8
    requires |Table()| == 256 && r == XorWord(h, Table()[i as int])
    ensures WordBits(r) == FeedBits(WordBits(c), BitsOf(b))
  {
    var x := BitsOf(i);
    BitsOfDistributes();
    LowByteBits(c);
    assert x == XorBits(WordBits(c)[..8], BitsOf(b));
    FeedPiece(WordBits(c), BitsOf(b), x, |x|);
    HighByteBits(c, h);
    TableEntry(i);
    WordBitsXor(h, Table()[i as int], r);
  }

  // ----- CalculateCRC

  function Raw(bytes: ByteString): (msg: Message)
    ensures |msg| == |bytes|
  {
    seq(|bytes|, i requires 0 <= i < |bytes| => bytes[i] as bv8)
  }

  lemma RawSnoc(s: ByteString, b: Byte, c: Register)
    ensures CrcOf(c, Raw(s + [b])) == FeedBits(CrcOf(c, Raw(s)), BitsOf(b as bv8))
  {
    assert Raw(s + [b]) == Raw(s) + [b as bv8];
    CrcConcat(c, Raw(s), [b as bv8]);
    assert [b as bv8][..0] == [];
    assert FlatMap(BitsOf, [b as bv8]) == BitsOf(b as bv8);
  }

  lemma RawConcat(s: ByteString, t: ByteString)
    ensures Raw(s + t) == Raw(s) + Raw(t)
  {}

  lemma IndexInTable(crc: bv16, b: bv8, index: bv32)
    requires index == (SignExtend(crc) ^ (b as bv32)) & 0x00FF
    ensures index as int < |Table()| == 256
  {
    var j := Xor8(LowByte(crc), b);
    IndexIsByte(crc, b, j);
    IndexAsInt(index, j);
    TableEntry(j);
  }

  // The loop body's next word is the register fed one byte.
  lemma NextWord(crc: bv16, b: bv8, index: bv32, entry: bv16, next: bv16)
    requires index == (SignExtend(crc) ^ (b as bv32)) & 0x00FF
    requires index as int < |Table()| == 256 && entry == Table()[index as int]
    requires next == Low16((ShiftRight8(SignExtend(crc)) & 0x00FF) ^ (entry as bv32))
    ensures WordBits(next) == FeedBits(WordBits(crc), BitsOf(b))
  {
    hide SignExtend, ShiftRight8, Low16, LowByte, WordBits, FeedBits, BitsOf, Table, Xor8;
    var j := Xor8(LowByte(crc), b);
    IndexIsByte(crc, b, j);
    IndexAsInt(index, j);
    NextIsXor(crc, entry, next);
    TableStep(crc, b, j, crc >> 8, next);
  }

  lemma NextIsXor(crc: bv16, entry: bv16, next: bv16)
    requires next == Low16((ShiftRight8(SignExtend(crc)) & 0x00FF) ^ (entry as bv32))
    ensures next == XorWord(crc >> 8, entry)
  {
    ShiftDropsSign(crc);
    XorTruncates(crc >> 8, entry);
  }

  lemma NextPrefix(s: ByteString, d: Byte, t: ByteString, c0: Register, crc: bv16, next: bv16)
    requires t == s + [d]
    requires WordBits(crc) == CrcOf(c0, Raw(s))
    requires WordBits(next) == FeedBits(WordBits(crc), BitsOf(d as bv8))
    ensures WordBits(next) == CrcOf(c0, Raw(t))
  {
    RawSnoc(s, d, c0);
  }

  /** The lower half of `r` is the register, every bit of the upper half its top bit. */
  ghost predicate Holds(r: bv32, c: Register) {
    && WordBits((r & 0xFFFF) as bv16) == c
    && (c[15] ==> r & 0xFFFF0000 == 0xFFFF0000)
    && (!c[15] ==> r & 0xFFFF0000 == 0)
  }

  lemma LowHalf(crc: bv16, low: bv16, r: bv32)
    requires r == SignExtend(crc) && low == (r & 0xFFFF) as bv16
    ensures low == crc
  {
    if crc & 0x8000 != 0 {
      LowOfNegative(crc, r);
    } else {
      LowOfPositive(crc, r);
    }
  }

  lemma UpperHalf(crc: bv16, r: bv32)
    requires r == SignExtend(crc)
    ensures crc & 0x8000 != 0 ==> r & 0xFFFF0000 == 0xFFFF0000
    ensures crc & 0x8000 == 0 ==> r & 0xFFFF0000 == 0
  {}

  lemma TopBit(crc: bv16)
    ensures WordBits(crc)[15] <==> crc & 0x8000 != 0
  {
    hide WordBits;
    assert WordBits(crc)[15] == WordBit(crc, 15) by { BitOfWord(crc, 15); }
  }

  lemma BitOfWord(crc: bv16, k: nat)
    requires k < 16
    ensures WordBits(crc)[k] == WordBit(crc, k)
  {
    hide WordBit;
  }

  lemma HoldsIf(r: bv32, low: bv16, c: Register, upper: bv32)
    requires low == (r & 0xFFFF) as bv16 && WordBits(low) == c
    requires upper == r & 0xFFFF0000 && (c[15] ==> upper == 0xFFFF0000) && (!c[15] ==> upper == 0)
    ensures Holds(r, c)
  {
    hide WordBits;
  }

  lemma ExtensionHolds(crc: bv16, low: bv16, r: bv32, upper: bv32)
    requires r == SignExtend(crc) && low == (r & 0xFFFF) as bv16 && upper == r & 0xFFFF0000
    ensures Holds(r, WordBits(crc))
  {
    hide SignExtend, WordBits, Holds;
    LowHalf(crc, low, r);
    UpperHalf(crc, r);
    TopBit(crc);
    HoldsIf(r, low, WordBits(crc), upper);
  }

  /** The body of the loop: one table look-up on promoted operands. */
  method NextCrc(crc: bv16, data: Byte) returns (next: bv16)
    ensures WordBits(next) == FeedBits(WordBits(crc), BitsOf(data as bv8))
  {
    var b := data as bv8;
    var index := (SignExtend(crc) ^ (b as bv32)) & 0x00FF;
    IndexInTable(crc, b, index);
    var entry := Table()[index as int];
    next := Low16((ShiftRight8(SignExtend(crc)) & 0x00FF) ^ (entry as bv32));
    NextWord(crc, b, index, entry, next);
  }

  method CalculateCRC(data: array<Byte>, len: nat, input: bv32) returns (r: bv32)
    requires len <= data.Length && len < 0x8000_0000
    ensures Holds(r, CrcOf(WordBits((input & 0xFFFF) as bv16), Raw(data[..len])))
  {
    hide Holds;
    var crc := Low16(input);
    ghost var c0 := WordBits(crc);
    var i := 0;
    assert CrcOf(c0, Raw(data[..0])) == c0;
    while i < len
      invariant 0 <= i <= len
      invariant WordBits(crc) == CrcOf(c0, Raw(data[..i]))
    {
      var next := NextCrc(crc, data[i]);
      NextPrefix(data[..i], data[i], data[..i + 1], c0, crc, next);
      crc := next;
      i := i + 1;
    }
    r := SignExtend(crc);
    ExtensionHolds(crc, (r & 0xFFFF) as bv16, r, r & 0xFFFF0000);
  }

  // ----- The program's read loop

  /** The table file's two headers, which the program skips: eight words and a
      32-byte description, then three words and a 40-byte table name. */
  const SKIP_SIZE: nat := (8 * 4 + 32) + (3 * 4 + 40)

  const BUFFER_SIZE: nat := 100

  datatype Report = Failure | Report(size: nat, crc: bv32)

  /** What is left of `file` at offset `pos`, which may lie past the end. */
  function From(file: ByteString, pos: nat): ByteString {
    if pos <= |file| then file[pos..] else []
  }

  /** `read`: short of the end of the file it may deliver any positive number of
      the bytes asked for; it may fail only where `mayFail` allows. */
  method Read(file: ByteString, pos: nat, buffer: array<Byte>, mayFail: bool) returns (n: int)
    requires buffer.Length == BUFFER_SIZE
    modifies buffer
    ensures n < 0 ==> mayFail
    ensures -1 <= n <= BUFFER_SIZE && n <= |From(file, pos)|
    ensures n == 0 ==> From(file, pos) == []
    ensures n > 0 ==> buffer[..n] == From(file, pos)[..n]
  {
    var rest := From(file, pos);
    n :| -1 <= n <= BUFFER_SIZE && n <= |rest| && (n == 0 ==> rest == []) && (n < 0 ==> mayFail);
    if n < 0 {
      return;
    }
    var i := 0;
    while i < n
      invariant 0 <= i <= n
      invariant buffer[..i] == rest[..i]
    {
      buffer[i] := rest[i];
      i := i + 1;
    }
  }

  lemma PieceLaw(file: ByteString, pos: nat, n: nat, c: Register)
    requires n <= |From(file, pos)|
    ensures CrcOf(CrcOf(c, Raw(From(file, pos)[..n])), Raw(From(file, pos + n))) == CrcOf(c, Raw(From(file, pos)))
  {
    var rest := From(file, pos);
    assert rest == rest[..n] + rest[n..];
    assert From(file, pos + n) == rest[n..];
    RawConcat(rest[..n], rest[n..]);
    CrcConcat(c, Raw(rest[..n]), Raw(rest[n..]));
  }

  /** Feeding the register `c` what is left of `file` from `pos` on gives `total`. */
  ghost predicate Leads(file: ByteString, pos: nat, c: Register, total: Register) {
    CrcOf(c, Raw(From(file, pos))) == total
  }

  /** One turn of the loop: read a piece and feed it.  What the CRC of the rest
      of the file would be does not change. */
  method ReadAndFeed(
      file: ByteString, pos: nat, buffer: array<Byte>, mayFail: bool, crc: bv32, ghost c: Register, ghost total: Register)
    returns (n: int, next: bv32, ghost d: Register)
    requires buffer.Length == BUFFER_SIZE && Holds(crc, c) && Leads(file, pos, c, total)
    modifies buffer
    ensures -1 <= n <= |From(file, pos)|
    ensures n < 0 ==> mayFail
    ensures n == 0 ==> From(file, pos) == []
    ensures n >= 0 ==> Holds(next, d) && Leads(file, pos + n, d, total)
  {
    next, d := crc, c;
    n := Read(file, pos, buffer, mayFail);
    if n >= 0 {
      ghost var piece := From(file, pos)[..n];
      assert buffer[..n] == piece;
      PieceLaw(file, pos, n, c);
      next := CalculateCRC(buffer, n, crc);
      d := CrcOf(c, Raw(piece));
    }
  }

  /** The program, from the opened file to the report.  Whatever the pattern of
      short reads, the report is that of one pass over everything after the
      header. */
  method Program(file: ByteString, seekOk: bool, readMayFail: bool) returns (report: Report)
    ensures seekOk && !readMayFail ==> report.Report?
    ensures report.Report? ==> seekOk && report.size == |From(file, SKIP_SIZE)|
    ensures report.Report? ==> Holds(report.crc, CrcOf(Zeros(16), Raw(From(file, SKIP_SIZE))))
  {
    hide Holds, CrcOf, Raw;
    if !seekOk {
      return Failure;
    }
    var buffer := new Byte[BUFFER_SIZE];
    var fileSize, fileCRC: bv32 := 0, 0;
    var offset, more := SKIP_SIZE, true;
    ghost var register: Register := Zeros(16);
    ghost var total: Register := CrcOf(register, Raw(From(file, offset)));
    ZeroHolds();
    while more
      invariant offset == SKIP_SIZE + fileSize && fileSize <= |From(file, SKIP_SIZE)|
      invariant Holds(fileCRC, register) && Leads(file, offset, register, total)
      invariant !more ==> From(file, offset) == []
      decreases |From(file, SKIP_SIZE)| - fileSize, more
    {
      var readSize, next, d := ReadAndFeed(file, offset, buffer, readMayFail, fileCRC, register, total);
      if readSize < 0 {
        return Failure;
      }
      fileCRC, register := next, d;
      offset, fileSize, more := offset + readSize, fileSize + readSize, readSize > 0;
    }
    Finished(file, offset, register, total);
    report := Report(fileSize, fileCRC);
  }

  lemma Finished(file: ByteString, pos: nat, c: Register, total: Register)
    requires Leads(file, pos, c, total) && From(file, pos) == []
    ensures c == total
  {
    assert CrcOf(c, Raw([])) == c;
  }

  lemma ZeroBit(k: nat)
    ensures !WordBit(0, k)
  {
    if k == 0 {} else if k == 1 {} else if k == 2 {} else if k == 3 {}
    else if k == 4 {} else if k == 5 {} else if k == 6 {} else if k == 7 {}
    else if k == 8 {} else if k == 9 {} else if k == 10 {} else if k == 11 {}
    else if k == 12 {} else if k == 13 {} else if k == 14 {} else {}
  }

  lemma ZeroHolds()
    ensures Holds(0, Zeros(16))
  {
    forall k: nat
      ensures !WordBit(0, k)
    {
      ZeroBit(k);
    }
    assert WordBits(0) == Zeros(16);
  }
}
