/**
  The converter itself (tools/elf2cfetbl/elf2cfetbl.c): a program that keeps its
  state in globals and a file cursor, reads each record into memory in the file's
  byte order, swaps it in place when the host's order differs, and goes on in
  stages that leave indices, offsets and the cursor for the next.
 */
module Converter {
  import opened Bytes
  import opened Endian
  import opened Records
  import opened ElfRecords
  import opened Elf
  import opened Table

  const SUCCESS: int := 0
  const FAILED: int := 1

  // ----- What a host reads after the swap

  lemma SwappedEhdr(a: ByteString, b: ByteString, is32: bool, little: bool)
    requires SwappedRecord(a, b, EhdrLayout(is32), EhdrSize(is32))
    ensures DecodeEhdr(b, is32, little) == DecodeEhdr(a, is32, !little)
  {}

  lemma SwappedShdr(a: ByteString, b: ByteString, is32: bool, little: bool)
    requires SwappedRecord(a, b, ShdrLayout(is32), ShdrSize(is32))
    ensures DecodeShdr(b, is32, little) == DecodeShdr(a, is32, !little)
  {}

  lemma SwappedSym(a: ByteString, b: ByteString, is32: bool, little: bool)
    requires SwappedRecord(a, b, SymLayout(is32), SymSize(is32))
    ensures DecodeSym(b, is32, little) == DecodeSym(a, is32, !little)
  {}

  /** The definition record as a host of the given order sees it in memory. */
  function InMemoryDef(s: ByteString, little: bool): FileDef
    requires |s| == DEF_SIZE
  {
    FileDef(TextAt(s[..64], 0), TextAt(s[64..104], 0), TextAt(s[104..136], 0), Value(s[156..160], little))
  }

  lemma TerminatorIs(s: ByteString, at: nat, end: nat)
    requires at <= end < |s| && s[end] == 0 && forall k :: at <= k < end ==> s[k] != 0
    ensures Terminator(s, at) == end
  {}

  lemma TerminatorOfPrefix(s: ByteString, n: nat, at: nat)
    requires at <= n < |s| && s[n] == 0
    ensures Terminator(s, at) == Terminator(s[..n], at)
  {
    var e := Terminator(s[..n], at);
    assert forall k :: at <= k < e ==> s[k] == s[..n][k];
    if e < n {
      assert s[e] == s[..n][e];
    }
    TerminatorIs(s, at, e);
  }

  /** Forcing the last byte to zero makes the array's text what it was before it. */
  lemma ForcedText(a: ByteString, b: ByteString)
    requires |a| == |b| > 0 && b[|b| - 1] == 0 && b[..|b| - 1] == a[..|a| - 1]
    ensures TextAt(b, 0) == ArrayText(a)
  {
    var n := |b| - 1;
    TerminatorOfPrefix(b, n, 0);
    assert b[..Terminator(b, 0)] == b[..n][..Terminator(b, 0)];
  }

  /** `b` is `a` with the last byte of each character array set to zero. */
  ghost predicate Forced(a: ByteString, b: ByteString) {
    && |a| == |b| == DEF_SIZE
    && b == a[63 := 0][103 := 0][135 := 0][155 := 0]
  }

  lemma ForcedDef(a: ByteString, b: ByteString, little: bool)
    requires Forced(a, b)
    ensures InMemoryDef(b, little) == DecodeDef(a, little)
  {
    ForcedText(a[..64], b[..64]);
    ForcedText(a[64..104], b[64..104]);
    ForcedText(a[104..136], b[104..136]);
    assert b[156..160] == a[156..160];
  }

  lemma SwappedDef(b: ByteString, c: ByteString, little: bool)
    requires |b| == DEF_SIZE && Flipped(b, c, 156, 4)
    ensures InMemoryDef(c, little) == InMemoryDef(b, !little)
  {
    assert c[..64] == b[..64] && c[64..104] == b[64..104] && c[104..136] == b[104..136];
    FlippedSlice(b, c, 156, 4);
    ValueOfReversed(b[156..160], little);
  }

  lemma FullPrefix<T>(s: seq<T>, n: nat)
    requires n == |s|
    ensures s[..n] == s
  {}

  // The header comes in two reads: the identification, then the rest.
  lemma HeaderInTwoReads(src: ByteString, ident: ByteString, rest: Option<ByteString>, n: nat)
    requires n >= IDENT_SIZE && ReadAt(src, 0, IDENT_SIZE) == Some(ident)
    requires rest == ReadAt(src, IDENT_SIZE, n - IDENT_SIZE)
    ensures ReadAt(src, 0, n) == if rest.Some? then Some(ident + rest.value) else None
  {
    if n <= |src| {
      assert src[0..n] == src[0..IDENT_SIZE] + src[IDENT_SIZE..n];
    }
  }

  lemma ImageInTwoReads(src: ByteString, ident: ByteString, rest: Option<ByteString>, is32: bool, little: bool)
    requires ReadAt(src, 0, IDENT_SIZE) == Some(ident) && IdentOk(ident)
    requires is32 == (ident[4] == 1) && little == (ident[5] == 1)
    requires rest == ReadAt(src, IDENT_SIZE, EhdrSize(is32) - IDENT_SIZE)
    ensures rest.None? ==> ReadImage(src).None?
    ensures rest.Some? ==>
      var h := DecodeEhdr(ident + rest.value, is32, little);
      ReadImage(src) == if HeaderOk(h) then Some(Image(is32, little, h)) else None
  {
    HeaderInTwoReads(src, ident, rest, EhdrSize(is32));
  }

  // One unreadable section header stops the scan.
  lemma {:induction false} SectionsStop(src: ByteString, img: Image, names: int, i: nat, k: nat)
    requires i < k && ReadSection(src, img, names, i).None?
    ensures ReadSections(src, img, names, k).None?
    decreases k
  {
    hide ReadSection;
    if i < k - 1 {
      SectionsStop(src, img, names, i, k - 1);
    }
  }

  lemma SectionsGoOn(src: ByteString, img: Image, names: int, i: nat, before: seq<Section>, section: Section)
    requires ReadSections(src, img, names, i) == Some(before)
    requires ReadSection(src, img, names, i) == Some(section)
    ensures ReadSections(src, img, names, i + 1) == Some(before + [section]) && |before| == i
  {}

  lemma SectionsStart(src: ByteString, img: Image, names: int)
    ensures ReadSections(src, img, names, 0) == Some([]) && ScanOf([], img) == Scan(0, 0, 0, 0)
  {}

  // What the domain says of the section about to be read.
  lemma SectionInDomain(src: ByteString, img: Image, names: int, i: nat)
    requires HeaderInDomain(img) && SectionsInDomain(src, img) && NamesOffset(src, img) == Some(names)
    requires i < img.header.shnum && ReadSections(src, img, names, i).Some?
    ensures SeekInRange(img, i)
    ensures var h := ReadShdr(src, img, i);
      h.Some? && Named(names, h.value) ==> TextFits(src, names + h.value.name)
  {}

  lemma ScanSnoc(sections: seq<Section>, s: Section, img: Image)
    ensures ScanOf(sections + [s], img) == ScanStep(ScanOf(sections, img), |sections|, s, img)
  {
    assert (sections + [s])[..|sections|] == sections;
  }

  // The same for symbols.
  lemma {:induction false} SymbolsStop(src: ByteString, img: Image, scan: Scan, i: nat, k: nat)
    requires i < k && ReadSymbol(src, img, scan, i).None?
    ensures ReadSymbols(src, img, scan, k).None?
    decreases k
  {
    hide ReadSymbol;
    if i < k - 1 {
      SymbolsStop(src, img, scan, i, k - 1);
    }
  }

  lemma SymbolsStart(src: ByteString, img: Image, scan: Scan)
    ensures ReadSymbols(src, img, scan, 0) == Some([]) && DefIndex(NamesOf([]), 0) == -1
  {}

  lemma SymbolsGoOn(src: ByteString, img: Image, scan: Scan, i: nat, before: seq<Symbol>, symbol: Symbol)
    requires ReadSymbols(src, img, scan, i) == Some(before) && |before| == i
    requires ReadSymbol(src, img, scan, i) == Some(symbol)
    ensures ReadSymbols(src, img, scan, i + 1) == Some(before + [symbol])
    ensures DefIndex(NamesOf(before + [symbol]), i + 1) ==
      if NamesDef(symbol.name) then i else DefIndex(NamesOf(before), i)
  {
    hide ReadSymbol, NamesDef;
    assert NamesOf(before + [symbol]) == NamesOf(before) + [symbol.name];
    DefIndexPrefix(NamesOf(before), [symbol.name], i);
  }

  lemma {:induction false} DefIndexPrefix(before: seq<ByteString>, after: seq<ByteString>, k: nat)
    requires k <= |before|
    ensures DefIndex(before + after, k) == DefIndex(before, k)
    decreases k
  {
    if k > 0 {
      DefIndexPrefix(before, after, k - 1);
    }
  }

  lemma SymbolInDomain(src: ByteString, img: Image, scan: Scan, i: nat)
    requires SymbolsInDomain(src, img, scan) && i < scan.numSyms && ReadSymbols(src, img, scan, i).Some?
    ensures var s := ReadSym(src, img, scan, i);
      s.Some? ==> scan.strOff + s.value.name < TWO_31 && TextFits(src, scan.strOff + s.value.name)
  {}

  // What the domain says of the two symbols used.
  lemma DomainOfObject(src: ByteString, obj: Object)
    requires InDomain(src) && ReadObject(src) == Some(obj)
    ensures SelectionInDomain(src, obj)
  {
    hide HeaderInDomain, SectionsInDomain, SymbolsInDomain, SelectionInDomain;
    hide ReadImage, ReadSymbols, ScanOf, ReadAllSections;
  }

  lemma DomainOfUse(src: ByteString, obj: Object, def: FileDef)
    requires SelectionInDomain(src, obj) && DefOf(src, obj) == Some(def)
    ensures ObjectInDomain(src, obj, def)
  {
    hide ObjectInDomain, DefIndex, DataOffset;
  }

  lemma ReadDefBounds(src: ByteString, obj: Object, s: Sym)
    ensures var def := ReadDef(src, obj, s);
      def.Some? ==>
        |def.value.tableName| < 40 && |def.value.description| < 32 && def.value.objectSize < TWO_32
  {}

  function WithSize(s: Symbol, v: nat): Symbol {
    s.(entry := s.entry.(size := v))
  }

  /** `isprint` in the C locale. */
  predicate IsPrint(c: Byte) {
    0x20 <= c <= 0x7E
  }

  /** Where a cursor that started at `start` is after `i` calls of `fgetc`. */
  ghost function CursorAfter(src: ByteString, start: nat, i: nat): nat {
    if start + i <= |src| then start + i else if start <= |src| then |src| else start
  }

  lemma OneMore(d: ByteString, data: ByteString, i: nat)
    requires i < |data|
    ensures (d + data[..i]) + [data[i]] == d + data[..i + 1]
  {}

  // ----- The program

  class Converter {
    const src: ByteString
    const hostIsLittle: bool
    const options: Options
    const verbose: bool

    // the two files
    var pos: nat
    var dst: ByteString

    var byteSwapRequired: bool
    var targetIs32: bool
    var elfHeader: Ehdr
    var sectionNamesOffset: int
    var sections: seq<Section>
    var stringTableOffset: nat
    var symbolTableOffset: int
    var symbolEntrySize: nat
    var numSymbols: nat
    var symbols: seq<Symbol>
    var tblDefSymbolIndex: int
    var tblFileDef: FileDef
    var userObjSymbolIndex: nat
    var tableDataIsAllZeros: bool

    constructor (src: ByteString, hostIsLittle: bool, options: Options, verbose: bool)
      ensures this.src == src && this.hostIsLittle == hostIsLittle
      ensures this.options == options && this.verbose == verbose
      ensures pos == 0 && dst == [] && sections == [] && symbols == [] && sectionNamesOffset == 0
      ensures ScanNow() == Scan(0, 0, 0, 0) && tblDefSymbolIndex == -1
      ensures !byteSwapRequired && !tableDataIsAllZeros
    {
      this.src, this.hostIsLittle, this.options, this.verbose := src, hostIsLittle, options, verbose;
      pos, dst, sections, symbols, sectionNamesOffset := 0, [], [], [], 0;
      stringTableOffset, symbolTableOffset, symbolEntrySize, numSymbols := 0, 0, 0, 0;
      tblDefSymbolIndex, userObjSymbolIndex := -1, 0;
      byteSwapRequired, targetIs32, tableDataIsAllZeros := false, true, false;
    }

    /** The file's header and format, as the globals have it. */
    ghost function ImageNow(): Image
      reads this`byteSwapRequired, this`targetIs32, this`elfHeader
    {
      Image(targetIs32, hostIsLittle != byteSwapRequired, elfHeader)
    }

    ghost function ScanNow(): Scan
      reads this`stringTableOffset, this`symbolTableOffset, this`symbolEntrySize, this`numSymbols
    {
      Scan(stringTableOffset, symbolTableOffset, symbolEntrySize, numSymbols)
    }

    ghost function ObjectNow(): Object
      reads this`byteSwapRequired, this`targetIs32, this`elfHeader, this`sections, this`symbols
      reads this`stringTableOffset, this`symbolTableOffset, this`symbolEntrySize, this`numSymbols
    {
      Object(ImageNow(), sections, ScanNow(), symbols)
    }

    // ----- The C library's file functions

    method Fseek(offset: int) returns (ok: bool)
      modifies this`pos
      ensures ok <==> 0 <= offset
      ensures pos == if ok then offset else old(pos)
    {
      ok := 0 <= offset;
      if ok {
        pos := offset;
      }
    }

    /** One item as long as the buffer. */
    method Fread(buffer: array<Byte>) returns (items: nat)
      modifies this`pos, buffer
      ensures items == if ReadAt(src, old(pos), buffer.Length).Some? then 1 else 0
      ensures items == 1 ==> ReadAt(src, old(pos), buffer.Length) == Some(buffer[..])
      ensures items == 1 ==> pos == old(pos) + buffer.Length
    {
      var start, n := pos, buffer.Length;
      var i := 0;
      while i < n && start + i < |src|
        invariant 0 <= i <= n && (i == 0 || start + i <= |src|)
        invariant start + i <= |src| ==> buffer[..i] == src[start..start + i]
        modifies buffer
      {
        buffer[i] := src[start + i];
        i := i + 1;
      }
      pos := pos + i;
      items := if i == n && start + n <= |src| then 1 else 0;
      assert buffer[..n] == buffer[..];
    }

    /** The next byte, or the low byte of EOF. */
    method Fgetc() returns (b: Byte)
      modifies this`pos
      ensures b == if old(pos) < |src| then src[old(pos)] else 0xFF
      ensures pos == if old(pos) < |src| then old(pos) + 1 else old(pos)
    {
      if pos < |src| {
        b := src[pos];
        pos := pos + 1;
      } else {
        b := 0xFF;
      }
    }

    method Fwrite(s: ByteString)
      modifies this`dst
      ensures dst == old(dst) + s
    {
      dst := dst + s;
    }

    /** Read characters into a 60-byte scratch array up to a zero byte. */
    method ReadText() returns (text: ByteString)
      requires TextFits(src, pos)
      modifies this`pos
      ensures text == TextAt(src, old(pos))
    {
      var verboseStr := new Byte[MAX_NAME];
      ghost var start, end := pos, Terminator(src, pos);
      var i := 0;
      verboseStr[i] := Fgetc();
      while verboseStr[i] != 0
        invariant 0 <= i <= end - start && pos == start + i + 1
        invariant verboseStr[..i] == src[start..start + i] && verboseStr[i] == src[start + i]
        decreases end - start - i
      {
        i := i + 1;
        verboseStr[i] := Fgetc();
      }
      text := verboseStr[..i];
    }

    // ----- The file header

    method GetElfHeader() returns (status: int)
      requires pos == 0 && !byteSwapRequired
      modifies this`pos, this`byteSwapRequired, this`targetIs32, this`elfHeader
      ensures status == SUCCESS || status == FAILED
      ensures status == SUCCESS <==> ReadImage(src).Some?
      ensures status == SUCCESS ==> ImageNow() == ReadImage(src).value
    {
      var ident := new Byte[IDENT_SIZE];
      var read := Fread(ident);
      if read != 1 || !IdentOk(ident[..]) {
        return FAILED;
      }
      targetIs32 := ident[4] == 1;
      if (ident[5] == 1) != hostIsLittle {
        byteSwapRequired := true;
      }
      status := GetRestOfHeader(ident[..]);
    }

    method GetRestOfHeader(ident: ByteString) returns (status: int)
      requires pos == IDENT_SIZE && ReadAt(src, 0, IDENT_SIZE) == Some(ident) && IdentOk(ident)
      requires targetIs32 == (ident[4] == 1) && (hostIsLittle != byteSwapRequired) == (ident[5] == 1)
      modifies this`pos, this`elfHeader
      ensures status == SUCCESS || status == FAILED
      ensures status == SUCCESS <==> ReadImage(src).Some?
      ensures status == SUCCESS ==> ImageNow() == ReadImage(src).value
    {
      hide ReadImage, DecodeEhdr, HeaderOk;
      ghost var expected := ReadAt(src, IDENT_SIZE, EhdrSize(targetIs32) - IDENT_SIZE);
      ImageInTwoReads(src, ident, expected, targetIs32, hostIsLittle != byteSwapRequired);
      var rest := new Byte[EhdrSize(targetIs32) - IDENT_SIZE];
      var read := Fread(rest);
      if read != 1 {
        return FAILED;
      }
      elfHeader := HostHeader(ident, rest[..]);
      status := if HeaderOk(elfHeader) then SUCCESS else FAILED;
    }

    /** The whole header in memory, swapped if need be. */
    method HostHeader(ident: ByteString, rest: ByteString) returns (h: Ehdr)
      requires |ident| == IDENT_SIZE && |rest| == EhdrSize(targetIs32) - IDENT_SIZE
      ensures h == DecodeEhdr(ident + rest, targetIs32, hostIsLittle != byteSwapRequired)
    {
      var bytes := ident + rest;
      var memory := new Byte[|bytes|](i requires 0 <= i < |bytes| => bytes[i]);
      assert memory[..] == bytes;
      if byteSwapRequired {
        SwapElfHeader(memory, targetIs32);
        SwappedEhdr(bytes, memory[..], targetIs32, hostIsLittle);
      }
      h := DecodeEhdr(memory[..], targetIs32, hostIsLittle);
    }

    // ----- Sections

    /** One section header in memory, swapped if need be. */
    method ReadSectionHeader() returns (status: int, h: Shdr)
      modifies this`pos
      ensures status == SUCCESS || status == FAILED
      ensures status == SUCCESS <==> ReadAt(src, old(pos), ShdrSize(targetIs32)).Some?
      ensures status == SUCCESS ==>
        h == DecodeShdr(ReadAt(src, old(pos), ShdrSize(targetIs32)).value, targetIs32, hostIsLittle != byteSwapRequired)
    {
      h := Shdr(0, 0, 0, 0, 0, 0, 0, 0, 0, 0);
      var memory := new Byte[ShdrSize(targetIs32)];
      var read := Fread(memory);
      if read != 1 {
        return FAILED, h;
      }
      ghost var bytes := memory[..];
      if byteSwapRequired {
        SwapSectionHeader(memory, targetIs32);
        SwappedShdr(bytes, memory[..], targetIs32, hostIsLittle);
      }
      return SUCCESS, DecodeShdr(memory[..], targetIs32, hostIsLittle);
    }

    method SeekSectionHeader(index: nat) returns (status: int, h: Shdr)
      requires SeekInRange(ImageNow(), index)
      modifies this`pos
      ensures status == SUCCESS || status == FAILED
      ensures status == SUCCESS <==> ReadShdr(src, ImageNow(), index).Some?
      ensures status == SUCCESS ==> h == ReadShdr(src, ImageNow(), index).value
    {
      hide DecodeShdr;
      var seekOffset := Int64(elfHeader.shoff);
      if index > 0 {
        seekOffset := seekOffset + index * elfHeader.shentsize;
      }
      assert seekOffset == SectionOffset(ImageNow(), index);
      var ok := Fseek(seekOffset);
      if !ok {
        return FAILED, Shdr(0, 0, 0, 0, 0, 0, 0, 0, 0, 0);
      }
      status, h := ReadSectionHeader();
    }

    method GetSectionHeader(index: nat) returns (status: int, section: Section)
      requires SeekInRange(ImageNow(), index)
      requires var h := ReadShdr(src, ImageNow(), index);
        h.Some? && Named(sectionNamesOffset, h.value) ==> TextFits(src, sectionNamesOffset + h.value.name)
      modifies this`pos, this`stringTableOffset, this`symbolTableOffset, this`symbolEntrySize, this`numSymbols
      ensures status == SUCCESS || status == FAILED
      ensures status == SUCCESS <==> ReadSection(src, ImageNow(), sectionNamesOffset, index).Some?
      ensures status == SUCCESS ==>
        && Some(section) == ReadSection(src, ImageNow(), sectionNamesOffset, index)
        && ScanNow() == ScanStep(old(ScanNow()), index, section, ImageNow())
    {
      hide ReadShdr, TextAt;
      var h: Shdr;
      status, h := SeekSectionHeader(index);
      section := Section(h, None);
      if status != SUCCESS {
        return;
      }
      if sectionNamesOffset != 0 && h.name != 0 {
        var sought := Fseek(sectionNamesOffset + h.name);
        var name := ReadText();
        section := Section(h, Some(name));
        NoteSection(index, h, name);
      }
    }

    /** What the scan keeps of a named section. */
    method NoteSection(index: nat, h: Shdr, name: ByteString)
      modifies this`stringTableOffset, this`symbolTableOffset, this`symbolEntrySize, this`numSymbols
      ensures ScanNow() == ScanStep(old(ScanNow()), index, Section(h, Some(name)), ImageNow())
    {
      if h.kind == SHT_SYMTAB {
        symbolTableOffset := Int32(U64(h.offset + SymSize(targetIs32)));
        symbolEntrySize := h.entsize;
        if symbolEntrySize == 0 {
          numSymbols := 0;
        } else {
          numSymbols := U64(h.size / symbolEntrySize - 1);
        }
      } else if h.kind == SHT_STRTAB {
        if name == Ascii(".strtab") || (stringTableOffset == 0 && index != elfHeader.shstrndx) {
          stringTableOffset := h.offset;
        }
      }
    }

    /** The early read of the section-name table's header.  No names are known yet,
        so it leaves the scan's globals alone. */
    method GetSectionNames() returns (status: int)
      requires SeekInRange(ImageNow(), elfHeader.shstrndx) && sectionNamesOffset == 0
      modifies this`pos, this`sectionNamesOffset
      modifies this`stringTableOffset, this`symbolTableOffset, this`symbolEntrySize, this`numSymbols
      ensures status == SUCCESS || status == FAILED
      ensures status == SUCCESS <==> NamesOffset(src, ImageNow()).Some?
      ensures status == SUCCESS ==> NamesOffset(src, ImageNow()) == Some(sectionNamesOffset)
      ensures status == SUCCESS ==> ScanNow() == old(ScanNow())
    {
      hide ReadShdr;
      var section: Section;
      status, section := GetSectionHeader(elfHeader.shstrndx);
      if status == SUCCESS {
        sectionNamesOffset := Int64(section.header.offset);
      }
    }

    method ScanSections() returns (status: int)
      requires HeaderInDomain(ImageNow()) && SectionsInDomain(src, ImageNow())
      requires NamesOffset(src, ImageNow()) == Some(sectionNamesOffset)
      requires sections == [] && ScanNow() == Scan(0, 0, 0, 0)
      modifies this`pos, this`sections
      modifies this`stringTableOffset, this`symbolTableOffset, this`symbolEntrySize, this`numSymbols
      ensures status == SUCCESS || status == FAILED
      ensures status == SUCCESS <==> ReadSections(src, ImageNow(), sectionNamesOffset, elfHeader.shnum).Some?
      ensures status == SUCCESS ==>
        && ReadSections(src, ImageNow(), sectionNamesOffset, elfHeader.shnum) == Some(sections)
        && ScanNow() == ScanOf(sections, ImageNow())
    {
      hide ReadShdr, ReadSection, ReadSections, ScanStep, ScanOf, SeekInRange, TextFits, NamesOffset;
      hide HeaderInDomain, SectionsInDomain;
      ghost var img := ImageNow();
      SectionsStart(src, img, sectionNamesOffset);
      var i := 0;
      status := SUCCESS;
      while i < elfHeader.shnum
        invariant 0 <= i <= elfHeader.shnum && ImageNow() == img && status == SUCCESS
        invariant ReadSections(src, img, sectionNamesOffset, i) == Some(sections)
        invariant ScanNow() == ScanOf(sections, img)
      {
        var section: Section;
        SectionInDomain(src, img, sectionNamesOffset, i);
        status, section := GetSectionHeader(i);
        if status != SUCCESS {
          SectionsStop(src, img, sectionNamesOffset, i, elfHeader.shnum);
          return;
        }
        SectionsGoOn(src, img, sectionNamesOffset, i, sections, section);
        ScanSnoc(sections, section, img);
        sections := sections + [section];
        i := i + 1;
      }
    }

    /** From the section-name table's header to the last section. */
    method GetSections() returns (status: int)
      requires HeaderInDomain(ImageNow()) && SectionsInDomain(src, ImageNow())
      requires sectionNamesOffset == 0 && sections == [] && ScanNow() == Scan(0, 0, 0, 0)
      modifies this`pos, this`sections, this`sectionNamesOffset
      modifies this`stringTableOffset, this`symbolTableOffset, this`symbolEntrySize, this`numSymbols
      ensures status == SUCCESS || status == FAILED
      ensures status == SUCCESS <==> ReadAllSections(src, ImageNow()).Some?
      ensures status == SUCCESS ==>
        ReadAllSections(src, ImageNow()) == Some(sections) && ScanNow() == ScanOf(sections, ImageNow())
    {
      hide NamesOffset, ReadSections, SeekInRange;
      status := GetSectionNames();
      if status != SUCCESS {
        return;
      }
      if elfHeader.shnum == 0 {
        return FAILED;
      }
      status := ScanSections();
    }

    // ----- Symbols

    method ReadSymbolEntry() returns (status: int, entry: Sym)
      modifies this`pos
      ensures status == SUCCESS || status == FAILED
      ensures status == SUCCESS <==> ReadAt(src, old(pos), SymSize(targetIs32)).Some?
      ensures status == SUCCESS ==>
        entry == DecodeSym(ReadAt(src, old(pos), SymSize(targetIs32)).value, targetIs32, hostIsLittle != byteSwapRequired)
    {
      entry := Sym(0, 0, 0, 0, 0, 0);
      var memory := new Byte[SymSize(targetIs32)];
      var read := Fread(memory);
      if read != 1 {
        return FAILED, entry;
      }
      ghost var bytes := memory[..];
      if byteSwapRequired {
        SwapSymbol(memory, targetIs32);
        SwappedSym(bytes, memory[..], targetIs32, hostIsLittle);
      }
      return SUCCESS, DecodeSym(memory[..], targetIs32, hostIsLittle);
    }

    method SeekSymbol(index: nat) returns (status: int, entry: Sym)
      modifies this`pos
      ensures status == SUCCESS || status == FAILED
      ensures status == SUCCESS <==> ReadSym(src, ImageNow(), ScanNow(), index).Some?
      ensures status == SUCCESS ==> ReadSym(src, ImageNow(), ScanNow(), index) == Some(entry)
    {
      hide DecodeSym, Int32, U64;
      entry := Sym(0, 0, 0, 0, 0, 0);
      var calculated := U64(symbolTableOffset + U64(index * symbolEntrySize));
      assert calculated == SymbolOffset(ScanNow(), index);
      var seekOffset := Int32(calculated);
      if U64(seekOffset) != calculated {
        return FAILED, entry;
      }
      var ok := Fseek(seekOffset);
      if !ok {
        return FAILED, entry;
      }
      status, entry := ReadSymbolEntry();
    }

    method GetSymbol(index: nat) returns (status: int, symbol: Symbol)
      requires var s := ReadSym(src, ImageNow(), ScanNow(), index);
        s.Some? ==> stringTableOffset + s.value.name < TWO_31 && TextFits(src, stringTableOffset + s.value.name)
      modifies this`pos, this`tblDefSymbolIndex
      ensures status == SUCCESS || status == FAILED
      ensures status == SUCCESS <==> ReadSymbol(src, ImageNow(), ScanNow(), index).Some?
      ensures status == SUCCESS ==> ReadSymbol(src, ImageNow(), ScanNow(), index) == Some(symbol)
      ensures tblDefSymbolIndex ==
        if status == SUCCESS && NamesDef(symbol.name) then index else old(tblDefSymbolIndex)
    {
      hide ReadSym, TextAt, NamesDef;
      var entry: Sym;
      status, entry := SeekSymbol(index);
      symbol := Symbol(entry, []);
      if status != SUCCESS {
        return;
      }
      var sought := Fseek(stringTableOffset + entry.name);
      var name := ReadText();
      symbol := Symbol(entry, name);
      if NamesDef(name) {
        tblDefSymbolIndex := index;
      }
    }

    /** Every symbol but the null one, each once. */
    method GetSymbols() returns (status: int)
      requires SymbolsInDomain(src, ImageNow(), ScanNow())
      requires symbols == [] && tblDefSymbolIndex == -1
      modifies this`pos, this`symbols, this`tblDefSymbolIndex
      ensures status == SUCCESS || status == FAILED
      ensures status == SUCCESS <==> ReadSymbols(src, ImageNow(), ScanNow(), numSymbols).Some?
      ensures status == SUCCESS ==>
        && ReadSymbols(src, ImageNow(), ScanNow(), numSymbols) == Some(symbols)
        && tblDefSymbolIndex == DefIndex(NamesOf(symbols), |symbols|)
    {
      hide ReadSym, ReadSymbol, ReadSymbols, SymbolsInDomain, TextFits, NamesDef, DefIndex;
      ghost var img, scan := ImageNow(), ScanNow();
      SymbolsStart(src, img, scan);
      var i := 0;
      status := SUCCESS;
      while i < numSymbols
        invariant 0 <= i <= numSymbols && ImageNow() == img && ScanNow() == scan && status == SUCCESS
        invariant ReadSymbols(src, img, scan, i) == Some(symbols)
        invariant |symbols| == i && tblDefSymbolIndex == DefIndex(NamesOf(symbols), i)
      {
        var symbol: Symbol;
        SymbolInDomain(src, img, scan, i);
        status, symbol := GetSymbol(i);
        if status != SUCCESS {
          SymbolsStop(src, img, scan, i, numSymbols);
          return;
        }
        SymbolsGoOn(src, img, scan, i, symbols, symbol);
        symbols := symbols + [symbol];
        i := i + 1;
      }
    }

    // ----- The definition record

    method GetTblDefInfo() returns (status: int)
      requires 0 <= tblDefSymbolIndex < |symbols|
      requires var s := symbols[tblDefSymbolIndex].entry; s.size in {0, DEF_SIZE} ==> s.shndx < |sections|
      modifies this`pos, this`tblFileDef
      ensures status == SUCCESS || status == FAILED
      ensures status == SUCCESS <==> ReadDef(src, ObjectNow(), symbols[tblDefSymbolIndex].entry).Some?
      ensures status == SUCCESS ==> ReadDef(src, ObjectNow(), symbols[tblDefSymbolIndex].entry) == Some(tblFileDef)
    {
      hide U64, DecodeDef, ScanNow;
      var s := symbols[tblDefSymbolIndex].entry;
      if s.size != DEF_SIZE && s.size != 0 {
        return FAILED;
      }
      var calculated := U64(sections[s.shndx].header.offset + s.value);
      var seekOffset := calculated % TWO_32;
      status := if seekOffset != calculated then FAILED else SUCCESS;
      var sought := Fseek(seekOffset);
      var defsRead, def := ReadDefRecord();
      tblFileDef := def;
      if !defsRead {
        status := FAILED;
      }
    }

    method ReadDefRecord() returns (ok: bool, def: FileDef)
      modifies this`pos
      ensures ok <==> ReadAt(src, old(pos), DEF_SIZE).Some?
      ensures ok ==> def == DecodeDef(ReadAt(src, old(pos), DEF_SIZE).value, hostIsLittle != byteSwapRequired)
    {
      hide DecodeDef, InMemoryDef;
      var memory := new Byte[DEF_SIZE];
      var read := Fread(memory);
      ghost var a := memory[..];
      memory[63] := 0;
      memory[103] := 0;
      memory[135] := 0;
      memory[155] := 0;
      ghost var b := memory[..];
      ForcedDef(a, b, hostIsLittle != byteSwapRequired);
      if byteSwapRequired {
        SwapUInt32(memory, 156);
        SwappedDef(b, memory[..], hostIsLittle);
      }
      return read == 1, InMemoryDef(memory[..], hostIsLittle);
    }

    // ----- The user object

    /** The search loop. */
    method FindObject(wanted: ByteString) returns (i: nat)
      requires numSymbols == |symbols|
      ensures i == ObjectIndex(NamesOf(symbols), wanted, 0)
    {
      i := 0;
      while i < numSymbols
        invariant 0 <= i <= numSymbols
        invariant ObjectIndex(NamesOf(symbols), wanted, 0) == ObjectIndex(NamesOf(symbols), wanted, i)
      {
        var name := symbols[i].name;
        if wanted <= name {
          if |name| - |wanted| == 1 {
            // The character tested is the one after the name, its terminator.
            if !IsPrint((name + [0])[|name|]) {
              break;
            }
          } else if |name| - |wanted| == 0 {
            break;
          }
        }
        i := i + 1;
      }
    }

    /** What the search stage leaves for the output stage: the located symbol's
        size, the all-zeros flag and the source file's cursor. */
    ghost predicate Staged(data: ByteString)
      reads this`pos, this`symbols, this`userObjSymbolIndex, this`tableDataIsAllZeros
    {
      && userObjSymbolIndex < |symbols|
      && |data| == symbols[userObjSymbolIndex].entry.size
      && data == if tableDataIsAllZeros then Repeat(0, |data|) else BytesFrom(src, pos, |data|)
    }

    method LocateAndReadUserObject() returns (status: int)
      requires numSymbols == |symbols| && !tableDataIsAllZeros && tblFileDef.objectSize < TWO_32
      requires ObjectInDomain(src, ObjectNow(), tblFileDef)
      modifies this`pos, this`symbols, this`userObjSymbolIndex, this`tableDataIsAllZeros
      ensures status == SUCCESS || status == FAILED
      ensures status == SUCCESS <==> UserData(src, old(ObjectNow()), tblFileDef).Some?
      ensures status == SUCCESS ==>
        && Staged(UserData(src, old(ObjectNow()), tblFileDef).value)
        && userObjSymbolIndex == ObjectIndex(NamesOf(old(symbols)), tblFileDef.objectName, 0)
    {
      hide ObjectIndex, U64, ScanNow;
      var i := FindObject(tblFileDef.objectName);
      if i == numSymbols {
        return FAILED;
      }
      userObjSymbolIndex := i;
      var s := symbols[i].entry;
      if sections[s.shndx].name == Some(Ascii(".bss")) {
        tableDataIsAllZeros := true;
        return SUCCESS;
      }
      var calculated := U64(sections[s.shndx].header.offset + s.value);
      var seekOffset := calculated % TWO_32;
      status := if seekOffset != calculated then FAILED else SUCCESS;
      var sought := Fseek(seekOffset);
      ReconcileSize();
      if verbose {
        DumpObject();
        sought := Fseek(seekOffset);
      }
    }

    /** The store into the symbol's size field, 32 bits wide in a 32-bit object. */
    method SetSize(v: nat)
      requires userObjSymbolIndex < |symbols| && v < TWO_32
      modifies this`symbols
      ensures symbols == old(symbols)[userObjSymbolIndex := WithSize(old(symbols[userObjSymbolIndex]), v)]
    {
      var stored := if targetIs32 then v % TWO_32 else v;
      symbols := symbols[userObjSymbolIndex := WithSize(symbols[userObjSymbolIndex], stored)];
    }

    method ReconcileSize()
      requires userObjSymbolIndex < |symbols| && tblFileDef.objectSize < TWO_32
      modifies this`symbols
      ensures var s := old(symbols[userObjSymbolIndex]);
        symbols == old(symbols)[userObjSymbolIndex := WithSize(s, AgreedSize(s.entry.size, tblFileDef.objectSize))]
    {
      var size := symbols[userObjSymbolIndex].entry.size;
      if size != 0 {
        if size != tblFileDef.objectSize {
          if tblFileDef.objectSize < size {
            SetSize(tblFileDef.objectSize);
          }
        }
      } else {
        SetSize(tblFileDef.objectSize);
      }
    }

    // The verbose dump moves the cursor.
    method DumpObject()
      requires userObjSymbolIndex < |symbols|
      modifies this`pos
    {
      var i := 0;
      while i < symbols[userObjSymbolIndex].entry.size {
        var aByte := Fgetc();
        i := i + 1;
      }
    }

    // ----- Output

    /** A 32-bit header field: kept in the host's order, swapped on a little-endian
        host, written.  `w` is what has been written since `d`. */
    method PutUInt32(v: nat, ghost d: ByteString, ghost w: ByteString) returns (ghost next: ByteString)
      requires dst == d + w
      modifies this`dst
      ensures next == w + Big32(v) && dst == d + next
    {
      var bytes := Encode(v, 4, hostIsLittle);
      var memory := new Byte[4](i requires 0 <= i < 4 => bytes[i]);
      assert memory[..] == bytes;
      if hostIsLittle {
        SwapUInt32(memory, 0);
        FlippedSlice(bytes, memory[..], 0, 4);
        assert memory[..] == memory[..][0..4] && bytes == bytes[0..4];
        EncodeReversed(v, 4, true);
      }
      next := PutBytes(memory[..], d, w);
    }

    method PutBytes(s: ByteString, ghost d: ByteString, ghost w: ByteString) returns (ghost next: ByteString)
      requires dst == d + w
      modifies this`dst
      ensures next == w + s && dst == d + next
    {
      Fwrite(s);
      next := w + s;
      assert (d + w) + s == d + (w + s);
    }

    method PutFileHeader(ghost d: ByteString) returns (ghost w: ByteString)
      requires ValidOptions(options) && |tblFileDef.description| < 32 && dst == d + []
      modifies this`dst
      ensures w == Table.FileHeader(options, OrElse(options.description, tblFileDef.description))
      ensures dst == d + w
    {
      hide Big32, Padded;
      w := PutUInt32(CONTENT_TYPE, d, []);
      assert w == Big32(CONTENT_TYPE);
      w := PutUInt32(SUBTYPE_TABLE, d, w);
      w := PutUInt32(FILE_HEADER_SIZE, d, w);
      w := PutUInt32(OrElse(options.spacecraftId, 0), d, w);
      w := PutUInt32(OrElse(options.processorId, 0), d, w);
      w := PutUInt32(OrElse(options.applicationId, 0), d, w);
      w := PutUInt32(if options.timeTag then options.sourceTime % TWO_32 else 0, d, w);
      w := PutUInt32(0, d, w);
      w := PutBytes(Padded(OrElse(options.description, tblFileDef.description), 32), d, w);
    }

    method PutTableHeader(numBytes: nat, ghost d: ByteString) returns (ghost w: ByteString)
      requires ValidOptions(options) && |tblFileDef.tableName| < 40 && dst == d + []
      modifies this`dst
      ensures w == Table.TableHeader(numBytes, OrElse(options.tableName, tblFileDef.tableName))
      ensures dst == d + w
    {
      hide Big32, Padded;
      w := PutUInt32(0, d, []);
      assert w == Big32(0);
      w := PutUInt32(0, d, w);
      w := PutUInt32(numBytes, d, w);
      w := PutBytes(Padded(OrElse(options.tableName, tblFileDef.tableName), 40), d, w);
    }

    /** Byte `i` of the data, from a cursor that started at `start`. */
    method NextByte(ghost data: ByteString, ghost start: nat, ghost i: nat) returns (aByte: Byte)
      requires i < |data| && (tableDataIsAllZeros || pos == CursorAfter(src, start, i))
      requires data == if tableDataIsAllZeros then Repeat(0, |data|) else BytesFrom(src, start, |data|)
      modifies this`pos
      ensures aByte == data[i] && (tableDataIsAllZeros || pos == CursorAfter(src, start, i + 1))
    {
      aByte := 0;
      if !tableDataIsAllZeros {
        aByte := Fgetc();
      }
    }

    /** The output stage's copy loop reads on from wherever the cursor is. */
    method PutData(ghost data: ByteString, ghost d: ByteString)
      requires Staged(data) && dst == d
      modifies this`dst, this`pos
      ensures dst == d + data
    {
      hide BytesFrom, Repeat;
      ghost var start := pos;
      var size := symbols[userObjSymbolIndex].entry.size;
      var i := 0;
      while i < size
        invariant 0 <= i <= size && dst == d + data[..i]
        invariant tableDataIsAllZeros || pos == CursorAfter(src, start, i)
      {
        var aByte := NextByte(data, start, i);
        Fwrite([aByte]);
        OneMore(d, data, i);
        i := i + 1;
      }
      FullPrefix(data, i);
    }

    method OutputDataToTargetFile(ghost data: ByteString)
      requires Staged(data) && ValidOptions(options) && dst == []
      requires |tblFileDef.description| < 32 && |tblFileDef.tableName| < 40
      modifies this`dst, this`pos
      ensures dst == TableFile(options, tblFileDef, data)
    {
      hide Table.FileHeader, Table.TableHeader;
      ghost var h := PutFileHeader(dst);
      ghost var t := PutTableHeader(symbols[userObjSymbolIndex].entry.size, dst);
      PutData(data, dst);
    }

    // ----- The pipeline

    /** Everything up to and including the symbols. */
    method ReadObjectFile() returns (status: int)
      requires pos == 0 && !byteSwapRequired && sectionNamesOffset == 0 && sections == [] && symbols == []
      requires ScanNow() == Scan(0, 0, 0, 0) && tblDefSymbolIndex == -1
      requires InDomain(src)
      modifies this`pos, this`byteSwapRequired, this`targetIs32, this`elfHeader
      modifies this`sections, this`sectionNamesOffset, this`symbols, this`tblDefSymbolIndex
      modifies this`stringTableOffset, this`symbolTableOffset, this`symbolEntrySize, this`numSymbols
      ensures status == SUCCESS || status == FAILED
      ensures status == SUCCESS <==> ReadObject(src).Some?
      ensures status == SUCCESS ==> ReadObject(src) == Some(ObjectNow())
      ensures status == SUCCESS ==>
        numSymbols == |symbols| && tblDefSymbolIndex == DefIndex(NamesOf(symbols), |symbols|)
    {
      hide ReadImage, ReadAllSections, ScanOf, ReadSymbols, DefIndex;
      hide HeaderInDomain, SectionsInDomain, SymbolsInDomain, SelectionInDomain;
      status := GetElfHeader();
      if status != SUCCESS {
        return;
      }
      status := GetSections();
      if status != SUCCESS {
        return;
      }
      if stringTableOffset == 0 {
        return FAILED;
      }
      if numSymbols == 0 {
        return FAILED;
      }
      status := GetSymbols();
    }

    method Convert() returns (status: int)
      requires pos == 0 && !byteSwapRequired && sectionNamesOffset == 0 && sections == [] && symbols == []
      requires ScanNow() == Scan(0, 0, 0, 0) && tblDefSymbolIndex == -1 && !tableDataIsAllZeros && dst == []
      requires InDomain(src) && ValidOptions(options)
      modifies this
      ensures status == SUCCESS || status == FAILED
      ensures status == SUCCESS <==> Converted(options, src).Some?
      ensures dst == if status == SUCCESS then Converted(options, src).value else []
    {
      hide ReadObject, DefIndex, ReadDef, UserData, Staged, TableFile, ObjectInDomain, ValidOptions;
      status := ReadObjectFile();
      if status != SUCCESS {
        return;
      }
      ghost var obj := ObjectNow();
      DomainOfObject(src, obj);
      if tblDefSymbolIndex == -1 {
        return FAILED;
      }
      status := GetTblDefInfo();
      if status != SUCCESS {
        return;
      }
      assert DefOf(src, obj) == Some(tblFileDef);
      DomainOfUse(src, obj, tblFileDef);
      ReadDefBounds(src, obj, symbols[tblDefSymbolIndex].entry);
      status := LocateAndReadUserObject();
      if status != SUCCESS {
        return;
      }
      OutputDataToTargetFile(UserData(src, obj, tblFileDef).value);
    }
  }

  /** One run of the program: its exit status and the file it leaves.  Neither the
      host's byte order nor verbose mode has a say in either. */
  method ConvertFile(src: ByteString, hostIsLittle: bool, options: Options, verbose: bool)
    returns (status: int, output: ByteString)
    requires InDomain(src) && ValidOptions(options)
    ensures status == SUCCESS || status == FAILED
    ensures status == SUCCESS <==> Converted(options, src).Some?
    ensures output == if status == SUCCESS then Converted(options, src).value else []
  {
    var converter := new Converter(src, hostIsLittle, options, verbose);
    status := converter.Convert();
    output := converter.dst;
  }
}
