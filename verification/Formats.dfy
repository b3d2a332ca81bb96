/**
  One object, four formats.  An object is assembled into an ELF file of either word
  size and byte order, which reads back as that object and renders it; whatever the
  format, the converter makes the same of it.
 */
module Formats {
  import opened Bytes
  import opened Endian
  import opened ElfRecords
  import opened Elf
  import opened Table
  import opened Pieces
  import opened ElfEncode
  import opened SectionFiles
  import opened ScanLaws
  import opened TableLaws
  import opened Objects
  import opened Renderings
  import opened Converter

  // ----- Objects that can be written

  predicate ValidSection(s: AbsSection) {
    && NoZero(s.name) && |s.name| < MAX_NAME && s.kind < TWO_32
    && s.kind != SHT_SYMTAB && !(s.kind == SHT_STRTAB && s.name == Ascii(".strtab"))
    && ValidContent(s.content)
  }

  predicate ValidSymbol(s: AbsSymbol, sections: nat) {
    && NoZero(s.name) && |s.name| < MAX_NAME && s.info < 0x100 && s.other < 0x100
    && match s.home
       case User(section) => section < sections
       case Special(index) => index < 0x1_0000
  }

  predicate Valid(obj: AbsObject): (r: bool)
    ensures r ==> WellFormed(obj)
  {
    && obj.etype <= 4 && KnownMachine(obj.machine)
    && |obj.sections| + 4 < 0x1_0000 && obj.symbols != []
    && (forall i :: 0 <= i < |obj.sections| ==> ValidSection(obj.sections[i]))
    && (forall i :: 0 <= i < |obj.symbols| ==> ValidSymbol(obj.symbols[i], |obj.sections|))
  }

  /** A word size in which every symbol's value and size can be written. */
  predicate FitsIn(obj: AbsObject, is32: bool) {
    forall i :: 0 <= i < |obj.symbols| ==> obj.symbols[i].value < Word(is32) && obj.symbols[i].size < Word(is32)
  }

  // ----- Forms

  /** How a file is written: its word size and byte order; whether the section header
      table comes right after the file header or at the end, and after how many bytes
      of padding; and how many of the object's sections have an index before the three
      that every file has, the names, the strings and the symbols. */
  datatype Form = Form(format: Format, tableFirst: bool, gap: nat, before: nat)

  function Before(obj: AbsObject, f: Form): (b: nat)
    ensures b <= |obj.sections|
  {
    if f.before <= |obj.sections| then f.before else |obj.sections|
  }

  /** What section `i` of the file is: 0 the null section, 1 the names, 2 the strings,
      3 the symbols, and from 4 on the object's. */
  function Logical(obj: AbsObject, f: Form, i: nat): (l: nat)
    requires i < Shnum(obj)
    ensures l < Shnum(obj) && (l == 0 <==> i == 0) && Index(obj, f, l) == i
  {
    var b := Before(obj, f);
    if i == 0 then 0 else if i <= b then i + 3 else if i <= b + 3 then i - b else i
  }

  /** Which section of the file that is. */
  function Index(obj: AbsObject, f: Form, l: nat): (i: nat)
    ensures l < Shnum(obj) ==> i < Shnum(obj)
  {
    var b := Before(obj, f);
    if l == 0 then 0 else if l <= 3 then l + b else if l <= b + 3 then l - 3 else l
  }

  lemma LogicalOfIndex(obj: AbsObject, f: Form, l: nat)
    requires l < Shnum(obj)
    ensures Logical(obj, f, Index(obj, f, l)) == l
  {}

  // ----- Assembling

  function Contents(obj: AbsObject, little: bool): (r: seq<ByteString>)
    requires Valid(obj)
    ensures |r| == |obj.sections|
  {
    seq(|obj.sections|, i requires 0 <= i < |obj.sections| =>
      assert ValidSection(obj.sections[i]); ContentBytes(obj.sections[i].content, little))
  }

  /** The names of sections 1 and up; section 0 is the null section. */
  function SectionNames(obj: AbsObject): (r: seq<ByteString>)
    ensures |r| == |obj.sections| + 3
  {
    [Ascii(".shstrtab"), Ascii(".strtab"), Ascii(".symtab")]
    + seq(|obj.sections|, i requires 0 <= i < |obj.sections| => obj.sections[i].name)
  }

  function Shnum(obj: AbsObject): nat {
    |obj.sections| + 4
  }

  function SectionIndex(obj: AbsObject, f: Form, home: Home): nat {
    match home
    case User(section) => Index(obj, f, section + 4)
    case Special(index) => index
  }

  function SymbolEntry(obj: AbsObject, f: Form, i: nat): Sym
    requires i < |obj.symbols|
  {
    var s := obj.symbols[i];
    Sym(NameOffset(SymbolNames(obj), i), s.value, s.size, s.info, s.other, SectionIndex(obj, f, s.home))
  }

  /** Entry 0 is the null symbol. */
  function EntryBytes(obj: AbsObject, f: Form): (r: seq<ByteString>)
    ensures |r| == |obj.symbols| + 1 && forall k :: 0 <= k < |r| ==> |r[k]| == SymSize(f.format.is32)
  {
    seq(|obj.symbols| + 1, k requires 0 <= k <= |obj.symbols| =>
      if k == 0 then EncodeSym(Sym(0, 0, 0, 0, 0, 0), f.format) else EncodeSym(SymbolEntry(obj, f, k - 1), f.format))
  }

  // Where everything stands: file header, section names, symbol names, symbols,
  // contents; the section headers before the names or after the contents.
  function NamesAt(obj: AbsObject, f: Form): nat {
    EhdrSize(f.format.is32) + if f.tableFirst then f.gap + Shnum(obj) * ShdrSize(f.format.is32) else 0
  }

  function StringsAt(obj: AbsObject, f: Form): nat {
    NamesAt(obj, f) + |StringTable(SectionNames(obj))|
  }

  function SymbolsAt(obj: AbsObject, f: Form): nat {
    StringsAt(obj, f) + |StringTable(SymbolNames(obj))|
  }

  function ContentsAt(obj: AbsObject, f: Form): nat {
    SymbolsAt(obj, f) + |Concat(EntryBytes(obj, f))|
  }

  function HeadersAt(obj: AbsObject, f: Form): nat
    requires Valid(obj)
  {
    f.gap + if f.tableFirst then EhdrSize(f.format.is32)
            else ContentsAt(obj, f) + |Concat(Contents(obj, f.format.little))|
  }

  const NULL_SHDR: Shdr := Shdr(0, 0, 0, 0, 0, 0, 0, 0, 0, 0)

  /** The header of the section that is `i`. */
  function HeaderOf(obj: AbsObject, f: Form, i: nat): Shdr
    requires Valid(obj) && i < Shnum(obj)
  {
    if i == 0 then
      NULL_SHDR
    else
      var h := NULL_SHDR.(name := NameOffset(SectionNames(obj), i - 1));
      if i == 1 then
        h.(kind := SHT_STRTAB, offset := NamesAt(obj, f), size := |StringTable(SectionNames(obj))|)
      else if i == 2 then
        h.(kind := SHT_STRTAB, offset := StringsAt(obj, f), size := |StringTable(SymbolNames(obj))|)
      else if i == 3 then
        h.(kind := SHT_SYMTAB, offset := SymbolsAt(obj, f), size := (|obj.symbols| + 1) * SymSize(f.format.is32),
           link := Index(obj, f, 2), entsize := SymSize(f.format.is32))
      else
        h.(kind := obj.sections[i - 4].kind,
           offset := ContentsAt(obj, f) + Start(Contents(obj, f.format.little), i - 4),
           size := |Contents(obj, f.format.little)[i - 4]|)
  }

  function HeaderBytes(obj: AbsObject, f: Form): (r: seq<ByteString>)
    requires Valid(obj)
    ensures |r| == Shnum(obj) && forall i :: 0 <= i < |r| ==> |r[i]| == ShdrSize(f.format.is32)
  {
    seq(Shnum(obj), i requires 0 <= i < Shnum(obj) => EncodeShdr(HeaderOf(obj, f, Logical(obj, f, i)), f.format))
  }

  function FileHeaderOf(obj: AbsObject, f: Form): Ehdr
    requires Valid(obj)
  {
    Ehdr(obj.etype, obj.machine, 1, 0, 0, HeadersAt(obj, f), 0, EhdrSize(f.format.is32), 0, 0,
         ShdrSize(f.format.is32), Shnum(obj), Index(obj, f, 1))
  }

  /** Padding and the section header table. */
  function TableBytes(obj: AbsObject, f: Form): ByteString
    requires Valid(obj)
  {
    Repeat(0, f.gap) + Concat(HeaderBytes(obj, f))
  }

  function Assemble(obj: AbsObject, f: Form): ByteString
    requires Valid(obj)
  {
    EncodeEhdr(FileHeaderOf(obj, f), f.format)
    + (if f.tableFirst then TableBytes(obj, f) else [])
    + StringTable(SectionNames(obj))
    + StringTable(SymbolNames(obj))
    + Concat(EntryBytes(obj, f))
    + Concat(Contents(obj, f.format.little))
    + (if f.tableFirst then [] else TableBytes(obj, f))
  }

  // ----- The pieces are where the headers say

  lemma SevenPieces(a: ByteString, b: ByteString, c: ByteString, d: ByteString, e: ByteString, g: ByteString, h: ByteString)
    ensures var s := a + b + c + d + e + g + h;
      && At(s, 0, a) && At(s, |a|, b) && At(s, |a| + |b|, c) && At(s, |a| + |b| + |c|, d)
      && At(s, |a| + |b| + |c| + |d|, e) && At(s, |a| + |b| + |c| + |d| + |e|, g)
      && At(s, |a| + |b| + |c| + |d| + |e| + |g|, h)
  {}

  ghost predicate Placed(file: ByteString, obj: AbsObject, f: Form)
    requires Valid(obj)
  {
    && At(file, 0, EncodeEhdr(FileHeaderOf(obj, f), f.format))
    && At(file, HeadersAt(obj, f), Concat(HeaderBytes(obj, f)))
    && At(file, NamesAt(obj, f), StringTable(SectionNames(obj)))
    && At(file, StringsAt(obj, f), StringTable(SymbolNames(obj)))
    && At(file, SymbolsAt(obj, f), Concat(EntryBytes(obj, f)))
    && At(file, ContentsAt(obj, f), Concat(Contents(obj, f.format.little)))
  }

  lemma AssembledPieces(obj: AbsObject, f: Form)
    requires Valid(obj)
    ensures Placed(Assemble(obj, f), obj, f)
  {
    hide At, StringTable, EncodeEhdr, HeaderBytes, EntryBytes, Contents, Concat, Valid, TableBytes;
    var table := TableBytes(obj, f);
    TableInside(obj, f);
    SevenPieces(EncodeEhdr(FileHeaderOf(obj, f), f.format), if f.tableFirst then table else [],
                StringTable(SectionNames(obj)), StringTable(SymbolNames(obj)), Concat(EntryBytes(obj, f)),
                Concat(Contents(obj, f.format.little)), if f.tableFirst then [] else table);
    AtInside(Assemble(obj, f), HeadersAt(obj, f) - f.gap, table, f.gap, Concat(HeaderBytes(obj, f)));
  }

  lemma TableInside(obj: AbsObject, f: Form)
    requires Valid(obj)
    ensures At(TableBytes(obj, f), f.gap, Concat(HeaderBytes(obj, f)))
    ensures |TableBytes(obj, f)| == f.gap + Shnum(obj) * ShdrSize(f.format.is32)
  {
    hide HeaderBytes, Concat, Valid;
    UniformLength(HeaderBytes(obj, f), ShdrSize(f.format.is32));
  }

  lemma UniformLength(parts: seq<ByteString>, w: nat)
    requires forall j :: 0 <= j < |parts| ==> |parts[j]| == w
    ensures |Concat(parts)| == |parts| * w
  {
    UniformStart(parts, w, |parts|);
    assert parts[..|parts|] == parts;
  }

  // ----- Reading an assembled file

  /** `file` is the object in format `f`, small enough for the converter's offsets. */
  ghost predicate IsFile(file: ByteString, obj: AbsObject, f: Form): (ok: bool)
    ensures ok ==> Valid(obj)
  {
    Valid(obj) && FitsIn(obj, f.format.is32) && Placed(file, obj, f) && |file| < TWO_31
  }

  function ImageOf(obj: AbsObject, f: Form): Image
    requires Valid(obj)
  {
    Image(f.format.is32, f.format.little, FileHeaderOf(obj, f))
  }

  lemma HeadersBelow(file: ByteString, obj: AbsObject, f: Form)
    requires IsFile(file, obj, f)
    ensures HeadersAt(obj, f) < TWO_31 && At(file, HeadersAt(obj, f), Concat(HeaderBytes(obj, f)))
  {
    hide HeadersAt, Concat, HeaderBytes, StringTable, EncodeEhdr;
  }

  lemma ImageRead(file: ByteString, obj: AbsObject, f: Form)
    requires IsFile(file, obj, f)
    ensures ReadImage(file) == Some(ImageOf(obj, f))
  {
    hide EncodeEhdr, Concat, StringTable, HeadersAt;
    HeadersBelow(file, obj, f);
    HeaderStands(file, FileHeaderOf(obj, f), f.format);
  }

  // ----- Section headers

  lemma HeaderFits(file: ByteString, obj: AbsObject, f: Form, i: nat)
    requires IsFile(file, obj, f) && i < Shnum(obj)
    ensures ShdrFits(HeaderOf(obj, f, i), f.format.is32)
    ensures HeaderOf(obj, f, i).offset < TWO_31 && HeaderOf(obj, f, i).size < TWO_31
  {
    hide Concat, StringTable, NamesAt, StringsAt, SymbolsAt, ContentsAt, SectionNames, EntryBytes, Contents;
    if i > 0 {
      NameOffsetBelow(file, NamesAt(obj, f), SectionNames(obj), i - 1);
    }
    if i == 3 {
      UniformLength(EntryBytes(obj, f), SymSize(f.format.is32));
    } else if i > 3 {
      ContentPlaced(file, obj, f, i - 4);
    }
  }

  lemma ContentPlaced(file: ByteString, obj: AbsObject, f: Form, k: nat)
    requires IsFile(file, obj, f) && k < |obj.sections|
    ensures At(file, ContentsAt(obj, f) + Start(Contents(obj, f.format.little), k), Contents(obj, f.format.little)[k])
    ensures ValidSection(obj.sections[k])
  {
    hide Concat, StringTable, NamesAt, StringsAt, SymbolsAt, ContentsAt, SectionNames, EntryBytes, Contents, HeaderBytes;
    StandsBelow(file, ContentsAt(obj, f), Contents(obj, f.format.little), k);
  }

  lemma HeaderRead(file: ByteString, obj: AbsObject, f: Form, i: nat)
    requires IsFile(file, obj, f) && i < Shnum(obj)
    ensures ReadShdr(file, ImageOf(obj, f), i) == Some(HeaderOf(obj, f, Logical(obj, f, i)))
  {
    hide Concat, StringTable, HeadersAt, HeaderOf, EncodeShdr, Logical, ReadShdr, Placed, Valid, FitsIn;
    HeadersBelow(file, obj, f);
    HeaderFits(file, obj, f, Logical(obj, f, i));
    ShdrStands(file, ImageOf(obj, f), f.format, HeaderBytes(obj, f), i, HeaderOf(obj, f, Logical(obj, f, i)));
  }

  lemma NamesRead(file: ByteString, obj: AbsObject, f: Form)
    requires IsFile(file, obj, f)
    ensures NamesOffset(file, ImageOf(obj, f)) == Some(NamesAt(obj, f)) && NamesAt(obj, f) < TWO_31
  {
    hide Placed, ReadShdr, StringTable, NamesAt, Index, Logical;
    LogicalOfIndex(obj, f, 1);
    HeaderFits(file, obj, f, 1);
    HeaderRead(file, obj, f, Index(obj, f, 1));
  }

  // ----- Sections

  function SectionOf(obj: AbsObject, f: Form, i: nat): Section
    requires Valid(obj) && i < Shnum(obj)
  {
    Section(HeaderOf(obj, f, i), if i == 0 then None else Some(SectionNames(obj)[i - 1]))
  }

  function SectionsOf(obj: AbsObject, f: Form): (r: seq<Section>)
    requires Valid(obj)
    ensures |r| == Shnum(obj)
  {
    seq(Shnum(obj), i requires 0 <= i < Shnum(obj) => SectionOf(obj, f, Logical(obj, f, i)))
  }

  lemma SectionNamesFit(obj: AbsObject)
    requires Valid(obj)
    ensures Names(SectionNames(obj))
  {
    var names := SectionNames(obj);
    forall i | 0 <= i < |names|
      ensures NoZero(names[i]) && |names[i]| < MAX_NAME
    {
      if i >= 3 {
        assert names[i] == obj.sections[i - 3].name;
        assert ValidSection(obj.sections[i - 3]);
      } else {
        StandardNames(i);
      }
    }
  }

  lemma StandardNames(i: nat)
    requires i < 3
    ensures var name := [Ascii(".shstrtab"), Ascii(".strtab"), Ascii(".symtab")][i]; NoZero(name) && |name| < MAX_NAME
  {
    if i == 0 {
      assert |".shstrtab"| == 9;
    } else if i == 1 {
      assert |".strtab"| == 7;
    } else {
      assert |".symtab"| == 7;
    }
  }

  lemma HeaderName(obj: AbsObject, f: Form, i: nat)
    requires Valid(obj) && i < Shnum(obj)
    ensures HeaderOf(obj, f, i).name == if i == 0 then 0 else NameOffset(SectionNames(obj), i - 1)
  {
    hide NameOffset, SectionNames, NamesAt, StringsAt, SymbolsAt, ContentsAt, Contents, Start;
  }

  lemma StringTablesPlaced(file: ByteString, obj: AbsObject, f: Form)
    requires IsFile(file, obj, f)
    ensures At(file, NamesAt(obj, f), StringTable(SectionNames(obj))) && NamesAt(obj, f) > 0
    ensures At(file, StringsAt(obj, f), StringTable(SymbolNames(obj))) && StringsAt(obj, f) > 0
    ensures |file| < TWO_31
  {
    hide StringTable, Concat;
  }

  lemma SectionRead(file: ByteString, obj: AbsObject, f: Form, i: nat)
    requires IsFile(file, obj, f) && i < Shnum(obj)
    ensures ReadSection(file, ImageOf(obj, f), NamesAt(obj, f), i) == Some(SectionOf(obj, f, Logical(obj, f, i)))
    ensures var h := HeaderOf(obj, f, Logical(obj, f, i));
      Named(NamesAt(obj, f), h) ==> TextFits(file, NamesAt(obj, f) + h.name)
  {
    hide ReadShdr, TextAt, TextFits, StringTable, SectionNames, HeaderOf, Placed, NamesAt, NameOffset, Logical;
    var l := Logical(obj, f, i);
    HeaderRead(file, obj, f, i);
    HeaderName(obj, f, l);
    StringTablesPlaced(file, obj, f);
    if l > 0 {
      SectionNamesFit(obj);
      NameInTable(file, NamesAt(obj, f), SectionNames(obj), l - 1);
    }
  }

  lemma SectionsRead(file: ByteString, obj: AbsObject, f: Form)
    requires IsFile(file, obj, f)
    ensures ReadAllSections(file, ImageOf(obj, f)) == Some(SectionsOf(obj, f))
  {
    hide ReadSection, SectionOf, NamesAt, NamesOffset, Placed, Logical;
    var img, names := ImageOf(obj, f), NamesAt(obj, f);
    NamesRead(file, obj, f);
    forall i: nat | i < Shnum(obj)
      ensures ReadSection(file, img, names, i) == Some(SectionsOf(obj, f)[i])
    {
      SectionRead(file, obj, f, i);
    }
    SectionsEach(file, img, names, Shnum(obj), SectionsOf(obj, f));
  }

  // ----- The scan

  function ScanResult(obj: AbsObject, f: Form): Scan {
    Scan(StringsAt(obj, f), SymbolsAt(obj, f) + SymSize(f.format.is32), SymSize(f.format.is32), |obj.symbols|)
  }

  // The section that is `l`.
  lemma SectionIs(obj: AbsObject, f: Form, l: nat)
    requires Valid(obj) && l < Shnum(obj)
    ensures SectionsOf(obj, f)[Index(obj, f, l)] == SectionOf(obj, f, l)
  {
    hide SectionOf, Valid;
    LogicalOfIndex(obj, f, l);
  }

  lemma StandardKinds(obj: AbsObject, f: Form)
    requires Valid(obj)
    ensures var strings, symbols := SectionsOf(obj, f)[Index(obj, f, 2)], SectionsOf(obj, f)[Index(obj, f, 3)];
      && IsStrtab(strings) && strings.header.offset == StringsAt(obj, f)
      && IsSymbolTable(symbols)
      && symbols.header.offset == SymbolsAt(obj, f) && symbols.header.entsize == SymSize(f.format.is32)
      && symbols.header.size == (|obj.symbols| + 1) * SymSize(f.format.is32)
  {
    hide NameOffset, NamesAt, StringsAt, SymbolsAt, ContentsAt, Contents, Start, StringTable, Index, SectionsOf;
    SectionIs(obj, f, 2);
    SectionIs(obj, f, 3);
  }

  lemma OtherKinds(obj: AbsObject, f: Form, i: nat)
    requires Valid(obj) && Index(obj, f, 3) <= i < Shnum(obj)
    ensures !IsStrtab(SectionsOf(obj, f)[i])
    ensures i > Index(obj, f, 3) ==> !IsSymbolTable(SectionsOf(obj, f)[i])
  {
    hide NameOffset, NamesAt, StringsAt, SymbolsAt, ContentsAt, Contents, Start, StringTable;
    if i > Index(obj, f, 3) {
      assert Logical(obj, f, i) == i > 3;
      assert ValidSection(obj.sections[i - 4]);
      assert SectionNames(obj)[i - 1] == obj.sections[i - 4].name;
    }
  }

  lemma SymbolsBelow(file: ByteString, obj: AbsObject, f: Form)
    requires IsFile(file, obj, f)
    ensures StringsAt(obj, f) > 0 && SymbolsAt(obj, f) + (|obj.symbols| + 1) * SymSize(f.format.is32) < TWO_31
  {
    hide StringTable, Concat, EntryBytes;
    UniformLength(EntryBytes(obj, f), SymSize(f.format.is32));
  }

  // The scan of sections of which `s` is the last ".strtab" and `s + 1` the last
  // symbol table.
  lemma ScanSettles(r: seq<Section>, img: Image, s: nat)
    requires s + 1 < |r| && IsStrtab(r[s]) && r[s].header.offset != 0 && IsSymbolTable(r[s + 1])
    requires forall i: nat :: s < i < |r| ==> !IsStrtab(r[i]) && (i > s + 1 ==> !IsSymbolTable(r[i]))
    ensures ScanOf(r, img).strOff == r[s].header.offset && Announces(ScanOf(r, img), r[s + 1].header, img.is32)
  {
    hide ScanOf, IsStrtab, IsFallback, IsSymbolTable, Announces;
    var g := FallbackAfter(r, img, s, s + 1);
    StringTableChoice(r, img, s, g);
    SymbolTableChoice(r, img, s + 1);
  }

  lemma ScanIs(file: ByteString, obj: AbsObject, f: Form)
    requires IsFile(file, obj, f)
    ensures ScanOf(SectionsOf(obj, f), ImageOf(obj, f)) == ScanResult(obj, f)
    ensures var h := SectionsOf(obj, f)[Index(obj, f, 3)].header;
      Announces(ScanResult(obj, f), h, f.format.is32) && WellFormedTable(h, f.format.is32, |obj.symbols| + 1)
  {
    var r, img, s, t := SectionsOf(obj, f), ImageOf(obj, f), Index(obj, f, 2), Index(obj, f, 3);
    assert t == s + 1 && img.is32 == f.format.is32;
    hide SectionsOf, ImageOf, IsStrtab, IsSymbolTable, StringsAt, SymbolsAt, ScanOf, IsFile, Announces, Index, WellFormedTable;
    StandardKinds(obj, f);
    forall i: nat | s < i < |r|
      ensures !IsStrtab(r[i]) && (i > t ==> !IsSymbolTable(r[i]))
    {
      OtherKinds(obj, f, i);
    }
    SymbolsBelow(file, obj, f);
    ScanSettles(r, img, s);
    ScanNumbers(ScanOf(r, img), r[t].header, f.format.is32, |obj.symbols| + 1);
  }

  lemma ScanNumbers(scan: Scan, h: Shdr, is32: bool, n: nat)
    requires Announces(scan, h, is32) && h.entsize == SymSize(is32) && h.size == n * SymSize(is32) && n > 0
    requires h.offset + h.size < TWO_31
    ensures scan.symOff == h.offset + SymSize(is32) && scan.entSize == SymSize(is32) && scan.numSyms == n - 1
    ensures WellFormedTable(h, is32, n)
  {
    EveryEntryOnce(scan, h, is32, n, 0);
    assert h.size >= SymSize(is32);
    Below31(h.offset + SymSize(is32));
  }

  // ----- Symbols

  function SymbolOf(obj: AbsObject, f: Form, i: nat): Symbol
    requires i < |obj.symbols|
  {
    Symbol(SymbolEntry(obj, f, i), obj.symbols[i].name)
  }

  function SymbolsOf(obj: AbsObject, f: Form): (r: seq<Symbol>)
    ensures |r| == |obj.symbols|
  {
    seq(|obj.symbols|, i requires 0 <= i < |obj.symbols| => SymbolOf(obj, f, i))
  }

  lemma SymbolNamesFit(obj: AbsObject)
    requires Valid(obj)
    ensures Names(SymbolNames(obj))
  {
    forall i | 0 <= i < |obj.symbols|
      ensures NoZero(SymbolNames(obj)[i]) && |SymbolNames(obj)[i]| < MAX_NAME
    {
      assert ValidSymbol(obj.symbols[i], |obj.sections|);
    }
  }

  lemma EntryFits(file: ByteString, obj: AbsObject, f: Form, i: nat)
    requires IsFile(file, obj, f) && i < |obj.symbols|
    ensures SymFits(SymbolEntry(obj, f, i), f.format.is32)
    ensures ValidSymbol(obj.symbols[i], |obj.sections|)
  {
    hide StringTable, Concat, EntryBytes, StringsAt, NameOffset;
    StringTablesPlaced(file, obj, f);
    NameOffsetBelow(file, StringsAt(obj, f), SymbolNames(obj), i);
    assert ValidSymbol(obj.symbols[i], |obj.sections|);
    assert obj.symbols[i].value < Word(f.format.is32);
  }

  lemma EntryPlaced(file: ByteString, obj: AbsObject, f: Form, k: nat)
    requires IsFile(file, obj, f) && k <= |obj.symbols|
    ensures At(file, SymbolsAt(obj, f) + k * SymSize(f.format.is32), EntryBytes(obj, f)[k])
  {
    hide Concat, StringTable, SymbolsAt, EntryBytes;
    StandsBelow(file, SymbolsAt(obj, f), EntryBytes(obj, f), k);
    UniformStart(EntryBytes(obj, f), SymSize(f.format.is32), k);
  }

  lemma SymbolRead(file: ByteString, obj: AbsObject, f: Form, i: nat)
    requires IsFile(file, obj, f) && i < |obj.symbols|
    ensures ReadSymbol(file, ImageOf(obj, f), ScanResult(obj, f), i) == Some(SymbolOf(obj, f, i))
    ensures ReadSym(file, ImageOf(obj, f), ScanResult(obj, f), i) == Some(SymbolEntry(obj, f, i))
    ensures var at := StringsAt(obj, f) + SymbolEntry(obj, f, i).name; at < TWO_31 && TextFits(file, at)
  {
    hide Placed, StringTable, SymbolsAt, StringsAt, SectionsOf, Announces, WellFormedTable, TextAt, DecodeSym, EncodeSym;
    hide ReadSym, NameOffset, Valid, FitsIn, SymFits, IsFile, Index, HeadersAt;
    var h := SectionsOf(obj, f)[Index(obj, f, 3)].header;
    ScanIs(file, obj, f);
    StandardKinds(obj, f);
    ReadSymIsEntry(file, ImageOf(obj, f), ScanResult(obj, f), h, |obj.symbols| + 1, i);
    EntryPlaced(file, obj, f, i + 1);
    AtReads(file, SymbolsAt(obj, f) + (i + 1) * SymSize(f.format.is32), EntryBytes(obj, f)[i + 1]);
    EntryFits(file, obj, f, i);
    SymRoundTrip(SymbolEntry(obj, f, i), f.format);
    SymbolNamesFit(obj);
    StringTablesPlaced(file, obj, f);
    NameInTable(file, StringsAt(obj, f), SymbolNames(obj), i);
  }

  function ObjectOf(obj: AbsObject, f: Form): Object
    requires Valid(obj)
  {
    Object(ImageOf(obj, f), SectionsOf(obj, f), ScanResult(obj, f), SymbolsOf(obj, f))
  }

  /** An assembled file reads back as the object it was assembled from. */
  lemma ObjectRead(file: ByteString, obj: AbsObject, f: Form)
    requires IsFile(file, obj, f)
    ensures ReadObject(file) == Some(ObjectOf(obj, f))
  {
    hide Placed, ReadImage, ReadAllSections, ReadSymbols, ReadSymbol, SectionsOf, SymbolOf, StringsAt, SymbolsAt, ScanOf;
    hide Announces, WellFormedTable;
    var img, scan := ImageOf(obj, f), ScanResult(obj, f);
    ImageRead(file, obj, f);
    SectionsRead(file, obj, f);
    ScanIs(file, obj, f);
    StringTablesPlaced(file, obj, f);
    forall i: nat | i < |obj.symbols|
      ensures ReadSymbol(file, img, scan, i) == Some(SymbolsOf(obj, f)[i])
    {
      SymbolRead(file, obj, f, i);
    }
    SymbolsEach(file, img, scan, |obj.symbols|, SymbolsOf(obj, f));
  }

  // ----- An assembled file renders its object

  lemma UserSection(file: ByteString, obj: AbsObject, f: Form, k: nat)
    requires IsFile(file, obj, f) && k < |obj.sections|
    ensures SectionRendered(file, ObjectOf(obj, f), obj.sections[k], Index(obj, f, k + 4))
  {
    hide NameOffset, NamesAt, StringsAt, SymbolsAt, ContentsAt, Start, Placed, At, ContentBytes, Index, SectionsOf;
    hide ImageOf, ScanResult, SymbolsOf;
    ContentPlaced(file, obj, f, k);
    SectionIs(obj, f, k + 4);
    assert ImageOf(obj, f).little == f.format.little by { ImageLittle(obj, f); }
    assert SectionNames(obj)[k + 3] == obj.sections[k].name;
  }

  lemma ImageLittle(obj: AbsObject, f: Form)
    requires Valid(obj)
    ensures ImageOf(obj, f).little == f.format.little
  {}

  function Places(obj: AbsObject, f: Form): (r: seq<nat>)
    ensures |r| == |obj.sections| && forall k :: 0 <= k < |r| ==> r[k] == Index(obj, f, k + 4)
  {
    seq(|obj.sections|, k requires 0 <= k < |obj.sections| => Index(obj, f, k + 4))
  }

  lemma AssembledRenders(file: ByteString, obj: AbsObject, f: Form)
    requires IsFile(file, obj, f)
    ensures Renders(file, ObjectOf(obj, f), obj, Places(obj, f))
  {
    hide SectionsOf, ImageOf, ScanResult, Placed, SectionRendered, NameOffset, Index;
    var place := Places(obj, f);
    forall k | 0 <= k < |obj.sections|
      ensures SectionRendered(file, ObjectOf(obj, f), obj.sections[k], place[k])
    {
      UserSection(file, obj, f, k);
    }
    forall i | 0 <= i < |obj.symbols|
      ensures SymbolRendered(SymbolsOf(obj, f)[i], obj.symbols[i], place)
    {
      EntryFits(file, obj, f, i);
    }
  }

  lemma AssembledIsRendering(file: ByteString, obj: AbsObject, f: Form)
    requires IsFile(file, obj, f)
    ensures IsRendering(file, obj)
  {
    hide Renders, ReadObject, ObjectOf, Placed;
    ObjectRead(file, obj, f);
    AssembledRenders(file, obj, f);
  }

  // ----- Assembled files lie in the source program's domain

  lemma HeadersInRange(file: ByteString, obj: AbsObject, f: Form)
    requires IsFile(file, obj, f)
    ensures HeaderInDomain(ImageOf(obj, f))
  {
    hide IsFile, HeadersAt, Index;
    HeadersBelow(file, obj, f);
    ValidCount(obj);
    forall i: nat | i < Shnum(obj)
      ensures SeekInRange(ImageOf(obj, f), i)
    {
      assert i * ShdrSize(f.format.is32) < 0x1_0000 * 64;
    }
    assert SeekInRange(ImageOf(obj, f), Index(obj, f, 1));
  }

  lemma ValidCount(obj: AbsObject)
    requires Valid(obj)
    ensures Shnum(obj) < 0x1_0000
  {}

  lemma SectionsAllInDomain(file: ByteString, obj: AbsObject, f: Form)
    requires IsFile(file, obj, f)
    ensures SectionsInDomain(file, ImageOf(obj, f))
  {
    hide IsFile, Placed, ReadShdr, HeaderOf, TextFits, NamesAt, ReadSections, Named, NamesOffset, SectionOf, ReadSection;
    hide Logical, Index, HeadersAt, Valid;
    var img := ImageOf(obj, f);
    NamesRead(file, obj, f);
    forall i: nat | i < img.header.shnum
      ensures ReadShdr(file, img, i) == Some(HeaderOf(obj, f, Logical(obj, f, i)))
      ensures Named(NamesAt(obj, f), HeaderOf(obj, f, Logical(obj, f, i))) ==>
        TextFits(file, NamesAt(obj, f) + HeaderOf(obj, f, Logical(obj, f, i)).name)
    {
      HeaderRead(file, obj, f, i);
      SectionRead(file, obj, f, i);
    }
  }

  lemma SymbolsAllInDomain(file: ByteString, obj: AbsObject, f: Form)
    requires IsFile(file, obj, f)
    ensures SymbolsInDomain(file, ImageOf(obj, f), ScanResult(obj, f))
  {
    hide IsFile, ReadSym, ReadSymbols, SymbolEntry, TextFits, StringsAt, SymbolsAt, ReadSymbol, SymbolOf, ImageOf;
    SymbolsBelow(file, obj, f);
    forall i: nat | i < |obj.symbols|
      ensures ReadSym(file, ImageOf(obj, f), ScanResult(obj, f), i) == Some(SymbolEntry(obj, f, i))
      ensures StringsAt(obj, f) + SymbolEntry(obj, f, i).name < TWO_31
      ensures TextFits(file, StringsAt(obj, f) + SymbolEntry(obj, f, i).name)
    {
      SymbolRead(file, obj, f, i);
    }
  }

  lemma FileInDomain(file: ByteString, obj: AbsObject, f: Form)
    requires IsFile(file, obj, f) && SelectionInDomain(file, ObjectOf(obj, f))
    ensures InDomain(file)
  {
    hide Placed, ReadImage, ReadAllSections, ReadObject, HeaderInDomain, SectionsInDomain, SymbolsInDomain;
    hide SelectionInDomain, ScanOf, SectionsOf, ScanResult, ImageOf, SymbolsOf;
    ImageRead(file, obj, f);
    HeadersInRange(file, obj, f);
    SectionsAllInDomain(file, obj, f);
    SectionsRead(file, obj, f);
    ScanIs(file, obj, f);
    SymbolsAllInDomain(file, obj, f);
    ObjectRead(file, obj, f);
  }

  lemma AssembledInDomain(file: ByteString, obj: AbsObject, f: Form)
    requires IsFile(file, obj, f) && Closed(obj)
    ensures InDomain(file)
  {
    hide Placed, Valid, FitsIn, Closed, SelectionInDomain, ObjectOf, Renders;
    AssembledRenders(file, obj, f);
    SelectionStands(file, ObjectOf(obj, f), obj, Places(obj, f));
    FileInDomain(file, obj, f);
  }

  // ----- The theorem, and the program

  /** The object can be written in a format, within the converter's 2^31 limit on
      offsets. */
  predicate Expressible(obj: AbsObject, f: Form): (ok: bool)
    ensures ok ==> Valid(obj)
  {
    Valid(obj) && FitsIn(obj, f.format.is32) && |Assemble(obj, f)| < TWO_31
  }

  lemma AssembledIsFile(obj: AbsObject, f: Form)
    requires Expressible(obj, f)
    ensures IsFile(Assemble(obj, f), obj, f)
  {
    AssembledPieces(obj, f);
  }

  /** The same object in any two formats converts to the same table file, or in
      both to none. */
  lemma FormatIndependence(o: Options, obj: AbsObject, f: Form, g: Form)
    requires Expressible(obj, f) && Expressible(obj, g) && Closed(obj) && ValidOptions(o)
    ensures Converted(o, Assemble(obj, f)) == Converted(o, Assemble(obj, g)) == TableOf(o, obj)
  {
    hide Assemble, Converted, TableOf, Closed, Valid, FitsIn, Placed, IsRendering;
    AssembledIsFile(obj, f);
    AssembledIsFile(obj, g);
    AssembledIsRendering(Assemble(obj, f), obj, f);
    AssembledIsRendering(Assemble(obj, g), obj, g);
    LayoutIndependence(o, Assemble(obj, f), Assemble(obj, g), obj);
  }

  /** The converter run on an assembled object: the outcome depends on the object
      and the options only, not on the word size, the byte order, the host or
      verbose mode. */
  method ConvertAssembled(obj: AbsObject, f: Form, hostIsLittle: bool, o: Options, verbose: bool)
    returns (status: int, output: ByteString)
    requires Expressible(obj, f) && Closed(obj) && ValidOptions(o)
    ensures status == SUCCESS <==> TableOf(o, obj).Some?
    ensures output == if status == SUCCESS then TableOf(o, obj).value else []
  {
    hide TableOf, Closed, InDomain, Valid, FitsIn, Placed, IsRendering;
    var file := Assemble(obj, f);
    AssembledIsFile(obj, f);
    AssembledInDomain(file, obj, f);
    AssembledIsRendering(file, obj, f);
    status, output := ConvertRendering(file, obj, hostIsLittle, o, verbose);
  }
}
