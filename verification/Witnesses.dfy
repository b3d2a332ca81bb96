/**
  Object files on which the converter does not do what its comments, or a symbol's
  section and value, say.
 */
module Witnesses {
  import opened Bytes
  import opened Endian
  import opened ElfRecords
  import opened Elf
  import opened Table
  import opened Pieces
  import opened ElfEncode
  import opened SectionFiles
  import opened ScanLaws
  import opened TableLaws
  import opened Objects
  import opened Renderings
  import opened Formats
  import opened MacroTable

  // ----- A ".strtab" without an offset

  function ThreeNames(): (r: seq<ByteString>)
    ensures |r| == 3
  {
    [Ascii(".shstrtab"), Ascii(".strtab"), Ascii(".dynstr")]
  }

  function StringHeader(i: nat, offset: nat): Shdr
    requires i < 3
  {
    NULL_SHDR.(name := NameOffset(ThreeNames(), i), kind := SHT_STRTAB, offset := offset)
  }

  function FourHeaders(f: Format, other: nat): (r: seq<Shdr>)
    ensures |r| == 4
  {
    [NULL_SHDR, StringHeader(0, EhdrSize(f.is32) + 4 * ShdrSize(f.is32)), StringHeader(1, 0), StringHeader(2, other)]
  }

  function FourParts(f: Format, other: nat): (r: seq<ByteString>)
    ensures |r| == 4 && forall i :: 0 <= i < 4 ==> |r[i]| == ShdrSize(f.is32)
  {
    var hs := FourHeaders(f, other);
    seq(4, i requires 0 <= i < 4 => EncodeShdr(hs[i], f))
  }

  function SmallHeader(f: Format): Ehdr {
    Ehdr(1, 62, 1, 0, 0, EhdrSize(f.is32), 0, EhdrSize(f.is32), 0, 0, ShdrSize(f.is32), 4, 1)
  }

  /** A file of four sections: the null section, the section names, a ".strtab" that
      claims offset zero, and another string table at `other`. */
  function ZeroStrtab(f: Format, other: nat): ByteString {
    EncodeEhdr(SmallHeader(f), f) + Concat(FourParts(f, other)) + StringTable(ThreeNames())
  }

  lemma ThreePieces(a: ByteString, b: ByteString, c: ByteString)
    ensures At(a + b + c, 0, a) && At(a + b + c, |a|, b) && At(a + b + c, |a| + |b|, c)
  {}

  lemma ThreeNamesFit()
    ensures Names(ThreeNames()) && ThreeNames()[1] == Ascii(".strtab") && ThreeNames()[2] != Ascii(".strtab")
  {
    var a, b, c := ".shstrtab", ".strtab", ".dynstr";
    assert |a| == 9 && |b| == |c| == 7;
    assert b[1] == 's' && c[1] == 'd';
    assert Ascii(b)[1] == 's' as int && Ascii(c)[1] == 'd' as int;
  }

  lemma FourHeadersFit(f: Format, other: nat, i: nat)
    requires other < Word(f.is32) && i < 4
    ensures ShdrFits(FourHeaders(f, other)[i], f.is32)
  {
    hide Ascii, Start;
    SmallOffsets();
  }

  lemma SmallOffsets()
    ensures forall i: nat :: i < 3 ==> NameOffset(ThreeNames(), i) < 1000
  {
    hide Ascii, StringTable;
    ThreeNamesFit();
    var names := ThreeNames();
    StringTableBound(names);
    var table := StringTable(names);
    assert At(table, 0, table);
    forall i: nat | i < 3
      ensures NameOffset(names, i) < 1000
    {
      NameOffsetBelow(table, 0, names, i);
    }
  }

  function FourSections(f: Format, other: nat): (r: seq<Section>)
    ensures |r| == 4
  {
    seq(4, i requires 0 <= i < 4 =>
      Section(FourHeaders(f, other)[i], if i == 0 then None else Some(ThreeNames()[i - 1])))
  }

  function SmallImage(f: Format): Image {
    Image(f.is32, f.little, SmallHeader(f))
  }

  lemma ZeroStrtabReads(f: Format, other: nat)
    requires other < Word(f.is32)
    ensures ReadImage(ZeroStrtab(f, other)) == Some(SmallImage(f))
    ensures ReadAllSections(ZeroStrtab(f, other), SmallImage(f)) == Some(FourSections(f, other))
  {
    hide EncodeEhdr, EncodeShdr, Concat, StringTable, Ascii, TextAt, ReadImage, ReadShdr, ShdrFits, NameOffset;
    var src, img, hs := ZeroStrtab(f, other), SmallImage(f), FourHeaders(f, other);
    var parts, names := FourParts(f, other), EhdrSize(f.is32) + 4 * ShdrSize(f.is32);
    ThreePieces(EncodeEhdr(SmallHeader(f), f), Concat(parts), StringTable(ThreeNames()));
    UniformLength(parts, ShdrSize(f.is32));
    HeaderStands(src, SmallHeader(f), f);
    ThreeNamesFit();
    forall i: nat | i < 4
      ensures ReadShdr(src, img, i) == Some(hs[i])
      ensures ReadSection(src, img, names, i) == Some(FourSections(f, other)[i])
    {
      FourHeadersFit(f, other, i);
      ShdrStands(src, img, f, parts, i, hs[i]);
      if i > 0 {
        NameInTable(src, names, ThreeNames(), i - 1);
      }
    }
    SectionsEach(src, img, names, 4, FourSections(f, other));
  }

  /** In each format there are files whose ".strtab" the converter passes over, for
      a string table that the commented rule does not name. */
  lemma StrtabWithoutOffset(f: Format, other: nat)
    requires 0 < other < Word(f.is32)
    ensures ReadImage(ZeroStrtab(f, other)) == Some(SmallImage(f))
    ensures ReadAllSections(ZeroStrtab(f, other), SmallImage(f)) == Some(FourSections(f, other))
    ensures CommentNames(FourSections(f, other), SmallImage(f), 2)
    ensures ScanOf(FourSections(f, other), SmallImage(f)).strOff == other
    ensures FourSections(f, other)[2].header.offset == 0
  {
    hide ReadImage, ReadAllSections, ScanOf, Ascii, NameOffset;
    var img, sections := SmallImage(f), FourSections(f, other);
    ZeroStrtabReads(f, other);
    ThreeNamesFit();
    assert sections[2].header == StringHeader(1, 0) && sections[3].header == StringHeader(2, other);
    assert LastStrtab(sections, 2);
    assert FirstFallback(sections, img, 2, 3);
    StringTableChoice(sections, img, 2, 3);
  }

  // ----- Data found elsewhere than meant

  // Data found at an offset are the file's bytes from there on.
  lemma DataAtOffset(src: ByteString, obj: Object, def: FileDef, u: nat, n: nat, at: nat)
    requires u == ObjectIndex(NamesOf(obj.symbols), def.objectName, 0) < |obj.symbols| && n < TWO_31
    requires var s := obj.symbols[u].entry;
      && s.size == n == def.objectSize && DataOffset(obj, s) == Some(at)
      && s.shndx < |obj.sections| && obj.sections[s.shndx].name.Some? && !InBss(obj.sections[s.shndx])
    ensures UserData(src, obj, def) == Some(BytesFrom(src, at, n)) && ObjectInDomain(src, obj, def)
  {
    hide DataOffset, InBss, ObjectIndex;
  }

  /** An assembled object that marks a definition, and whose data are found somehow. */
  lemma ConvertsTo(o: Options, obj: AbsObject, f: Form, d: nat, r: Record, data: ByteString)
    requires Expressible(obj, f) && Marks(obj, d, r) && ValidRecord(r) && ValidOptions(o)
    requires var src, read := Assemble(obj, f), ObjectOf(obj, f);
      UserData(src, read, MeaningOf(r)) == Some(data) && ObjectInDomain(src, read, MeaningOf(r))
    ensures var src := Assemble(obj, f);
      && InDomain(src) && ReadObject(src) == Some(ObjectOf(obj, f))
      && Converted(o, src) == Some(TableFile(o, MeaningOf(r), data))
  {
    hide Valid, FitsIn, Placed, Assemble, ReadObject, ObjectOf, Renders, Marks, DefOf, DefClosed, AbsDef, UserData;
    hide ObjectInDomain, SelectionInDomain, InDomain, TableFile, MeaningOf;
    var src := Assemble(obj, f);
    AssembledIsFile(obj, f);
    ObjectRead(src, obj, f);
    AssembledRenders(src, obj, f);
    MarkFound(obj, d, r);
    SameDefinition(src, ObjectOf(obj, f), obj, Places(obj, f));
    DefinitionStands(src, ObjectOf(obj, f), obj, Places(obj, f));
    FileInDomain(src, obj, f);
  }

  // Section `k` of the object in the file.
  lemma SectionThere(obj: AbsObject, f: Form, k: nat)
    requires Valid(obj) && k < |obj.sections|
    ensures var s := SectionsOf(obj, f)[Index(obj, f, k + 4)];
      && s.name == Some(obj.sections[k].name) && s.header.kind == obj.sections[k].kind
      && s.header.offset == ContentsAt(obj, f) + Start(Contents(obj, f.format.little), k)
  {
    hide Valid, NameOffset, ContentsAt, Start, NamesAt, StringsAt, SymbolsAt, StringTable, Index, SectionsOf;
    SectionIs(obj, f, k + 4);
    assert SectionNames(obj)[k + 3] == obj.sections[k].name;
  }

  // ----- A symbol whose place wraps

  /** Where section `k`'s contents start. */
  function SectionStart(obj: AbsObject, f: Form, k: nat): nat
    requires Valid(obj) && k < |obj.sections|
  {
    ContentsAt(obj, f) + Start(Contents(obj, f.format.little), k)
  }

  /** A compiled table small enough for a 64-bit file. */
  ghost predicate FitsFile(w: Surroundings, r: Record, data: ByteString, f: Form): (ok: bool)
    ensures ok ==> Harmless(w, r, data)
  {
    Harmless(w, r, data) && !f.format.is32 && Expressible(CompiledAt(w, r, data, 0), f)
  }

  lemma SameParts(w: Surroundings, r: Record, data: ByteString, f: Form, value: nat)
    requires FitsFile(w, r, data, f) && value < TWO_64
    ensures var a, b := CompiledAt(w, r, data, 0), CompiledAt(w, r, data, value);
      && Valid(b) && FitsIn(b, false) && a.sections == b.sections && |a.symbols| == |b.symbols|
      && SymbolNames(a) == SymbolNames(b) && Contents(a, f.format.little) == Contents(b, f.format.little)
  {
    hide Ascii, MarkName, ArrayText, Assemble, DotData, Fixed, ValidSection, Harmless;
    var a, b := CompiledAt(w, r, data, 0), CompiledAt(w, r, data, value);
    SymbolsDiffer(w, r, data, value);
    forall i | 0 <= i < |b.symbols|
      ensures ValidSymbol(b.symbols[i], |b.sections|) && b.symbols[i].value < TWO_64 && b.symbols[i].size < TWO_64
    {
      assert ValidSymbol(a.symbols[i], |a.sections|);
      assert a.symbols[i].value < Word(false) && a.symbols[i].size < Word(false);
    }
  }

  // Only the value of the data's symbol differs.
  lemma SymbolsDiffer(w: Surroundings, r: Record, data: ByteString, value: nat)
    requires ValidAround(w) && Describes(r, data)
    ensures var a, b := CompiledAt(w, r, data, 0), CompiledAt(w, r, data, value);
      && a.sections == b.sections && |a.symbols| == |b.symbols| && SymbolNames(a) == SymbolNames(b)
      && forall i :: 0 <= i < |b.symbols| ==> b.symbols[i] == a.symbols[i] || b.symbols[i] == a.symbols[i].(value := value)
  {
    hide Ascii, MarkName, ArrayText, DotData, Fixed;
  }

  lemma SameSize(w: Surroundings, r: Record, data: ByteString, f: Form, value: nat)
    requires FitsFile(w, r, data, f) && value < TWO_64
    ensures var a, b, k := CompiledAt(w, r, data, 0), CompiledAt(w, r, data, value), |w.sectionsBefore|;
      && Valid(a) && k < |a.sections| && Expressible(b, f)
      && 0 < SectionStart(a, f, k) == SectionStart(b, f, k) < TWO_31
  {
    hide Ascii, MarkName, ArrayText, StringTable, Valid, FitsIn, EncodeEhdr, Harmless, Concat, CompiledAt, WellFormed;
    var a, b := CompiledAt(w, r, data, 0), CompiledAt(w, r, data, value);
    SameParts(w, r, data, f, value);
    TwoSymbols(w, r, data, 0);
    UniformLength(HeaderBytes(a, f), ShdrSize(f.format.is32));
    UniformLength(HeaderBytes(b, f), ShdrSize(f.format.is32));
    UniformLength(EntryBytes(a, f), SymSize(f.format.is32));
    UniformLength(EntryBytes(b, f), SymSize(f.format.is32));
    AssembledIsFile(a, f);
    ContentPlaced(Assemble(a, f), a, f, |w.sectionsBefore|);
  }

  /** The value that, added to the offset of the section, makes 2^64. */
  function WrappingValue(w: Surroundings, r: Record, data: ByteString, f: Form): (v: nat)
    requires FitsFile(w, r, data, f)
    ensures v < TWO_64
  {
    SameSize(w, r, data, f, 0);
    TWO_64 - SectionStart(CompiledAt(w, r, data, 0), f, |w.sectionsBefore|)
  }

  function WrappedObject(w: Surroundings, r: Record, data: ByteString, f: Form): (obj: AbsObject)
    requires FitsFile(w, r, data, f)
    ensures Expressible(obj, f)
  {
    SameSize(w, r, data, f, WrappingValue(w, r, data, f));
    CompiledAt(w, r, data, WrappingValue(w, r, data, f))
  }

  lemma WrappedIs(w: Surroundings, r: Record, data: ByteString, f: Form)
    requires FitsFile(w, r, data, f)
    ensures WrappedObject(w, r, data, f) == CompiledAt(w, r, data, WrappingValue(w, r, data, f))
  {
    hide CompiledAt, Expressible, SectionStart;
  }

  /** The place of its data symbol is 2^64, which the sum takes for 0. */
  lemma WrappedPlace(w: Surroundings, r: Record, data: ByteString, f: Form)
    requires FitsFile(w, r, data, f)
    ensures var obj := WrappedObject(w, r, data, f);
      var read, s := ObjectOf(obj, f), SymbolEntry(obj, f, DataIndex(w));
      && s.size == |data| && s.shndx < |read.sections| && PlaceOf(read, s) == TWO_64
      && read.sections[s.shndx].name == Some(Ascii(".data"))
  {
    hide Ascii, Expressible, Harmless, NameOffset, SectionsOf, ImageOf, ScanResult, CompiledAt, WrappedObject;
    hide ContentsAt, Start, Contents, WrappingValue, DataIndex, RecordPlace, Content, Valid, WellFormed, ArrayText;
    var value, k := WrappingValue(w, r, data, f), |w.sectionsBefore|;
    WrappedIs(w, r, data, f);
    WrappedSum(w, r, data, f);
    TwoSymbols(w, r, data, value);
    SectionThere(WrappedObject(w, r, data, f), f, k);
  }

  lemma WrappedSum(w: Surroundings, r: Record, data: ByteString, f: Form)
    requires FitsFile(w, r, data, f)
    ensures var obj := WrappedObject(w, r, data, f);
      && |w.sectionsBefore| < |obj.sections|
      && SectionStart(obj, f, |w.sectionsBefore|) + WrappingValue(w, r, data, f) == TWO_64
  {
    hide Expressible, Harmless, CompiledAt, WrappedObject, SectionStart;
    WrappedIs(w, r, data, f);
    SameSize(w, r, data, f, 0);
    SameSize(w, r, data, f, WrappingValue(w, r, data, f));
    TwoSymbols(w, r, data, WrappingValue(w, r, data, f));
  }

  // The object's symbol is the first match, whatever its value.
  lemma NameFound(w: Surroundings, r: Record, data: ByteString, value: nat)
    requires Harmless(w, r, data)
    ensures ObjectOfNames(CompiledAt(w, r, data, value), MeaningOf(r).objectName) == DataIndex(w)
    ensures DataIndex(w) < |CompiledAt(w, r, data, value).symbols|
  {
    hide Ascii, ArrayText, MarkName, RecordPlace, MarkIndex, DataIndex, CompiledAt, Content, NamesDef;
    TwoSymbols(w, r, data, value);
    var names := SymbolNames(CompiledAt(w, r, data, value));
    ObjectIndexIsFirst(names, ArrayText(r.objectName), 0, DataIndex(w));
  }

  // The file starts with its magic number and is longer than the data it holds.
  lemma SourceBytes(w: Surroundings, r: Record, data: ByteString, f: Form)
    requires FitsFile(w, r, data, f)
    ensures var src := Assemble(WrappedObject(w, r, data, f), f);
      |data| <= |src| < TWO_31 && 0 < |src| && src[0] == 0x7F && BytesFrom(src, 0, |data|) == src[..|data|]
  {
    hide FitsIn, Ascii, Concat, StringTable, EncodeEhdr, Content, DataLie, AllFixed, FixedBytes, ContentBytes;
    hide Assemble, WrappedObject, CompiledAt, Harmless, RecordAt, WellFormed, RecordPlace, DataPlace, ArrayText;
    var obj, k := WrappedObject(w, r, data, f), |w.sectionsBefore|;
    var src := Assemble(obj, f);
    AssembledIsFile(obj, f);
    HeaderFirst(src, obj, f);
    WrappedIs(w, r, data, f);
    TwoSymbols(w, r, data, WrappingValue(w, r, data, f));
    UserSection(src, obj, f, k);
    ContentShape(w, r, data);
    LieIsFixed(Content(w, r, data), DataPlace(w, r), data);
    DataIsNotBss();
    BytesAt(src, SectionsOf(obj, f)[Index(obj, f, k + 4)].header.offset, Content(w, r, data), f.format.little, DataPlace(w, r), |data|);
  }

  lemma HeaderFirst(src: ByteString, obj: AbsObject, f: Form)
    requires IsFile(src, obj, f)
    ensures 0 < |src| && src[0] == 0x7F
  {
    hide Valid, FitsIn, Concat, StringTable, EncodeEhdr;
    var bytes := EncodeEhdr(FileHeaderOf(obj, f), f.format);
    IdentFirst(FileHeaderOf(obj, f), f.format);
    AtInside(src, 0, bytes, 0, Ident(f.format));
    assert src[0] == src[0..IDENT_SIZE][0];
  }

  lemma PlaceWraps(read: Object, s: Sym)
    requires s.shndx < |read.sections| && PlaceOf(read, s) == TWO_64
    ensures DataOffset(read, s) == Some(0)
  {}

  /** For every record and data there is a 64-bit object file, one the converter
      accepts, whose data symbol points beyond all files, and for which the table file
      holds the object file's own first bytes, from 0x7F on, instead of any data. */
  lemma WrappedOutput(o: Options, w: Surroundings, r: Record, data: ByteString, f: Form)
    requires FitsFile(w, r, data, f) && ValidOptions(o)
    ensures var obj := WrappedObject(w, r, data, f);
      var src := Assemble(obj, f);
      && InDomain(src) && |data| <= |src| && src[0] == 0x7F
      && ReadObject(src) == Some(ObjectOf(obj, f))
      && Converted(o, src) == Some(TableFile(o, MeaningOf(r), src[..|data|]))
  {
    hide Ascii, Expressible, Harmless, SectionsOf, ImageOf, ScanResult, WrappedObject, CompiledAt, Marks, WellFormed;
    hide Assemble, UserData, ObjectInDomain, InDomain, ReadObject, Converted, TableFile, ArrayText, BytesFrom;
    hide DataOffset, ObjectIndex, SymbolEntry, PlaceOf, WrappingValue;
    var obj := WrappedObject(w, r, data, f);
    var src, read, u := Assemble(obj, f), ObjectOf(obj, f), DataIndex(w);
    WrappedPlace(w, r, data, f);
    SourceBytes(w, r, data, f);
    WrappedIs(w, r, data, f);
    NameFound(w, r, data, WrappingValue(w, r, data, f));
    CompiledMarks(w, r, data, WrappingValue(w, r, data, f));
    DataIsNotBss();
    PlaceWraps(read, SymbolEntry(obj, f, u));
    assert NamesOf(read.symbols) == SymbolNames(obj);
    assert read.symbols[u].entry == SymbolEntry(obj, f, u);
    DataAtOffset(src, read, MeaningOf(r), u, |data|, 0);
    ConvertsTo(o, obj, f, MarkIndex(w), r, src[..|data|]);
  }

  // ----- A section without bytes that is not called ".bss"

  /** The table's object is in ".bss.Tbl", which has no bytes in the file; ".data",
      with some bytes and the definition record, comes next. */
  function Uninitialised(r: Record, bytes: ByteString): AbsObject
    requires Describes(r, bytes)
  {
    AbsObject(1, 62,
      [AbsSection(Ascii(".bss.Tbl"), SHT_NOBITS, []),
       AbsSection(Ascii(".data"), SHT_PROGBITS, [Plain(bytes), Definition(r)])],
      [AbsSymbol(ArrayText(r.objectName), User(0), 0, |bytes|, 1, 0),
       AbsSymbol(DefName(), User(1), |bytes|, DEF_SIZE, 1, 0)])
  }

  lemma UninitialisedMarks(r: Record, bytes: ByteString)
    requires Describes(r, bytes) && WellFormed(Uninitialised(r, bytes))
    ensures Marks(Uninitialised(r, bytes), 1, r)
    ensures DataLie([Plain(bytes), Definition(r)], 0, bytes)
  {
    hide Ascii, ArrayText, Fixed, RecordAt;
    var plain := [Plain(bytes)];
    FixedOne(Plain(bytes));
    RecordIn(plain, r, []);
    assert plain + [Definition(r)] + [] == [Plain(bytes), Definition(r)];
    LiesFirst(bytes, [Definition(r)]);
    assert [] + plain + [Definition(r)] == [Plain(bytes), Definition(r)];
  }

  lemma LiesFirst(data: ByteString, rest: seq<Chunk>)
    requires ValidContent(rest)
    ensures ValidContent([] + [Plain(data)] + rest) && DataLie([] + [Plain(data)] + rest, 0, data)
  {
    DataIn([], data, rest);
  }

  // An empty section starts where the next one does.
  lemma EmptyFirst(obj: AbsObject, f: Form)
    requires Valid(obj) && |obj.sections| > 1 && obj.sections[0].content == []
    ensures SectionStart(obj, f, 0) == SectionStart(obj, f, 1)
  {
    hide Valid, ContentsAt;
    var parts: seq<ByteString> := Contents(obj, f.format.little);
    assert parts[..1][..0] == parts[..0];
    assert Concat(parts[..1]) == Concat(parts[..0]) + parts[0];
  }

  lemma BytesOfNext(src: ByteString, r: Record, bytes: ByteString, f: Form)
    requires Describes(r, bytes) && IsFile(src, Uninitialised(r, bytes), f)
    ensures var obj := Uninitialised(r, bytes);
      BytesFrom(src, SectionStart(obj, f, 0), |bytes|) == bytes && SectionStart(obj, f, 0) + |bytes| < TWO_31
  {
    hide Ascii, ArrayText, DefName, Valid, FitsIn, Placed, At, ContentBytes, Fixed, AllFixed, FixedBytes, DataLie;
    hide SectionsOf, SectionStart, WellFormed;
    var obj := Uninitialised(r, bytes);
    EmptyFirst(obj, f);
    UninitialisedMarks(r, bytes);
    LieIsFixed([Plain(bytes), Definition(r)], 0, bytes);
    UserSection(src, obj, f, 1);
    DataIsNotBss();
    SectionIsAt(obj, f, 1);
    BytesAt(src, SectionStart(obj, f, 1), [Plain(bytes), Definition(r)], f.format.little, 0, |bytes|);
  }

  lemma SectionIsAt(obj: AbsObject, f: Form, k: nat)
    requires Valid(obj) && k < |obj.sections|
    ensures SectionsOf(obj, f)[Index(obj, f, k + 4)].header.offset == SectionStart(obj, f, k)
  {
    SectionThere(obj, f, k);
  }

  lemma LongName()
    ensures Ascii(".bss.Tbl") != Ascii(".bss")
  {
    assert |".bss.Tbl"| == 8 && |".bss"| == 4;
  }

  // What the file says of the object.
  lemma NobitsPlace(r: Record, bytes: ByteString, f: Form)
    requires Describes(r, bytes) && Expressible(Uninitialised(r, bytes), f)
    ensures var obj := Uninitialised(r, bytes);
      var read, s := ObjectOf(obj, f), SymbolEntry(obj, f, 0);
      && NamesOf(read.symbols) == SymbolNames(obj) && read.symbols[0].entry == s && s.size == |bytes|
      && s.shndx < |read.sections| && DataOffset(read, s) == Some(SectionStart(obj, f, 0))
      && read.sections[s.shndx].header.kind == SHT_NOBITS
      && read.sections[s.shndx].name.Some? && !InBss(read.sections[s.shndx])
      && BytesFrom(Assemble(obj, f), SectionStart(obj, f, 0), |bytes|) == bytes && |bytes| < TWO_31
  {
    hide Ascii, ArrayText, DefName, Valid, Expressible, IsFile, Assemble, SectionsOf, ImageOf, ScanResult, WellFormed;
    hide BytesFrom, NameOffset, SectionStart, ContentsAt, Contents, Start, DataOffset;
    var obj := Uninitialised(r, bytes);
    AssembledIsFile(obj, f);
    SectionThere(obj, f, 0);
    SectionIsAt(obj, f, 0);
    BytesOfNext(Assemble(obj, f), r, bytes, f);
    LongName();
    OffsetBelow(ObjectOf(obj, f), SymbolEntry(obj, f, 0));
  }

  /** In each format there are object files, ones the converter accepts, in which the
      table's object is all zeros, and for which the table file holds any other bytes. */
  lemma NobitsOutput(o: Options, r: Record, bytes: ByteString, f: Form)
    requires Describes(r, bytes) && Expressible(Uninitialised(r, bytes), f) && ValidOptions(o)
    ensures var obj := Uninitialised(r, bytes);
      var src, read, s := Assemble(obj, f), ObjectOf(obj, f), SymbolEntry(obj, f, 0);
      && InDomain(src) && ReadObject(src) == Some(read) && s.shndx < |read.sections|
      && ObjectIndex(NamesOf(read.symbols), MeaningOf(r).objectName, 0) == 0 && read.symbols[0].entry == s
      && InitialImage(src, read, s, |bytes|) == Repeat(0, |bytes|)
      && Converted(o, src) == Some(TableFile(o, MeaningOf(r), bytes))
  {
    hide Ascii, ArrayText, DefName, Expressible, Assemble, ObjectOf, Marks, WellFormed, InBss, DataOffset, SymbolEntry;
    hide UserData, ObjectInDomain, InDomain, ReadObject, Converted, TableFile, BytesFrom, NameOffset, SectionStart;
    var obj := Uninitialised(r, bytes);
    var src, read := Assemble(obj, f), ObjectOf(obj, f);
    NobitsPlace(r, bytes, f);
    UninitialisedMarks(r, bytes);
    assert SymbolNames(obj)[0] == ArrayText(r.objectName);
    DataAtOffset(src, read, MeaningOf(r), 0, |bytes|, SectionStart(obj, f, 0));
    ConvertsTo(o, obj, f, 1, r, bytes);
  }
}
