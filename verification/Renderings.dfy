/**
  Object files that say the same.  A file renders an abstract object when its
  sections and symbols, as read, are the object's, wherever in the file they stand
  and among whatever other sections.  All renderings of an object convert alike.
 */
module Renderings {
  import opened Bytes
  import opened Endian
  import opened ElfRecords
  import opened Elf
  import opened Table
  import opened Pieces
  import opened Objects
  import opened Converter

  /** Section `p` of the file is `s`: it goes by that name and, except for an empty
      ".bss", its contents stand at its offset. */
  ghost predicate SectionRendered(file: ByteString, read: Object, s: AbsSection, p: nat) {
    && p < |read.sections| && read.sections[p].name == Some(s.name) && ValidContent(s.content)
    && ((AbsBss(s) && s.content == [])
        || At(file, read.sections[p].header.offset, ContentBytes(s.content, read.image.little)))
  }

  predicate HomeRendered(home: Home, place: seq<nat>, shndx: nat) {
    match home
    case User(k) => k < |place| && shndx == place[k]
    case Special(index) => shndx == index
  }

  predicate SymbolRendered(e: Symbol, s: AbsSymbol, place: seq<nat>) {
    && e.name == s.name && e.entry.value == s.value && e.entry.size == s.size
    && HomeRendered(s.home, place, e.entry.shndx)
  }

  /** Section `k` of the object is section `place[k]` of the file, and the symbols
      are the same, in the same order. */
  ghost predicate Renders(file: ByteString, read: Object, obj: AbsObject, place: seq<nat>) {
    && |place| == |obj.sections| && |read.symbols| == |obj.symbols|
    && (forall k :: 0 <= k < |place| ==> SectionRendered(file, read, obj.sections[k], place[k]))
    && (forall i :: 0 <= i < |obj.symbols| ==> SymbolRendered(read.symbols[i], obj.symbols[i], place))
  }

  ghost predicate IsRendering(file: ByteString, obj: AbsObject) {
    && |file| < TWO_32 && ReadObject(file).Some?
    && exists place :: Renders(file, ReadObject(file).value, obj, place)
  }

  lemma SameNames(file: ByteString, read: Object, obj: AbsObject, place: seq<nat>)
    requires Renders(file, read, obj, place)
    ensures NamesOf(read.symbols) == SymbolNames(obj)
  {
    hide SectionRendered, HomeRendered;
    var names := NamesOf(read.symbols);
    forall i | 0 <= i < |names|
      ensures names[i] == SymbolNames(obj)[i]
    {
      assert SymbolRendered(read.symbols[i], obj.symbols[i], place);
    }
  }

  /** Where symbol `i` leads. */
  lemma SymbolLeads(file: ByteString, read: Object, obj: AbsObject, place: seq<nat>, i: nat)
    requires Renders(file, read, obj, place) && WellFormed(obj)
    requires i < |obj.symbols| && obj.symbols[i].home.User?
    ensures var e := read.symbols[i].entry;
      && e.value == obj.symbols[i].value && e.size == obj.symbols[i].size
      && SectionRendered(file, read, HomeOf(obj, i), e.shndx)
  {
    hide SectionRendered;
    assert SymbolRendered(read.symbols[i], obj.symbols[i], place);
  }

  lemma OffsetBelow(read: Object, s: Sym)
    requires s.shndx < |read.sections| && read.sections[s.shndx].header.offset + s.value < TWO_32
    ensures DataOffset(read, s) == Some(read.sections[s.shndx].header.offset + s.value)
  {}

  lemma DefinitionReads(file: ByteString, at: nat, content: seq<Chunk>, value: nat, little: bool)
    requires ValidContent(content) && At(file, at, ContentBytes(content, little)) && RecordAt(content, value).Some?
    ensures at + value < |file|
    ensures var bytes := ReadAt(file, at + value, DEF_SIZE);
      bytes.Some? && DecodeDef(bytes.value, little) == MeaningOf(RecordAt(content, value).value)
  {
    hide DecodeDef, RecordBytes, MeaningOf, RecordAt, ContentBytes;
    var r := RecordAt(content, value).value;
    RecordStands(content, value, little);
    AtInside(file, at, ContentBytes(content, little), value, RecordBytes(r, little));
    AtReads(file, at + value, RecordBytes(r, little));
    RecordReads(r, little);
  }

  lemma SameDefinition(file: ByteString, read: Object, obj: AbsObject, place: seq<nat>)
    requires Renders(file, read, obj, place) && WellFormed(obj) && DefClosed(obj) && |file| < TWO_32
    ensures DefOf(file, read) == AbsDef(obj)
  {
    hide Renders, DataOffset, DecodeDef, MeaningOf, RecordAt, At, ContentBytes, WellFormed, HomeOf;
    SameNames(file, read, obj, place);
    SymbolsAsMany(file, read, obj, place);
    var d := DefOfNames(obj);
    if d >= 0 {
      SymbolSame(file, read, obj, place, d);
      if DefSized(obj.symbols[d]) {
        SymbolLeads(file, read, obj, place, d);
        DefinitionFound(file, read, HomeOf(obj, d), read.symbols[d].entry);
      }
    }
  }

  lemma SymbolsAsMany(file: ByteString, read: Object, obj: AbsObject, place: seq<nat>)
    requires Renders(file, read, obj, place)
    ensures |read.symbols| == |obj.symbols|
  {}

  lemma SymbolSame(file: ByteString, read: Object, obj: AbsObject, place: seq<nat>, i: nat)
    requires Renders(file, read, obj, place) && i < |obj.symbols|
    ensures SymbolRendered(read.symbols[i], obj.symbols[i], place)
  {
    hide SectionRendered, SymbolRendered;
  }

  lemma DefinitionFound(file: ByteString, read: Object, section: AbsSection, s: Sym)
    requires SectionRendered(file, read, section, s.shndx) && RecordAt(section.content, s.value).Some?
    requires |file| < TWO_32 && (s.size == DEF_SIZE || s.size == 0)
    ensures ReadDef(file, read, s) == Some(MeaningOf(RecordAt(section.content, s.value).value))
  {
    hide DataOffset, DecodeDef, MeaningOf, At, ContentBytes;
    DefinitionReads(file, read.sections[s.shndx].header.offset, section.content, s.value, read.image.little);
    OffsetBelow(read, s);
  }

  lemma BytesAt(file: ByteString, at: nat, content: seq<Chunk>, little: bool, value: nat, n: nat)
    requires ValidContent(content) && At(file, at, ContentBytes(content, little)) && AllFixed(content, value, n)
    ensures BytesFrom(file, at + value, n) == FixedBytes(content, value, n)
    ensures at + value + n <= |file|
  {
    hide ContentBytes, Fixed;
    var piece := ContentBytes(content, little);
    FixedIs(content, little);
    var got, wanted := BytesFrom(file, at + value, n), FixedBytes(content, value, n);
    forall k | 0 <= k < n
      ensures got[k] == wanted[k]
    {
      assert file[at..at + |piece|][value + k] == piece[value + k];
      assert Fixed(content)[value + k].Some?;
    }
  }

  lemma SameData(file: ByteString, read: Object, obj: AbsObject, place: seq<nat>, def: FileDef)
    requires Renders(file, read, obj, place) && WellFormed(obj) && ObjectClosed(obj, def) && |file| < TWO_32
    ensures UserData(file, read, def) == AbsData(obj, def)
  {
    hide Renders, DataOf, ObjectIndex, AgreedSize, AllFixed, FixedBytes, WellFormed, HomeOf, SectionRendered, AbsBss;
    SameNames(file, read, obj, place);
    SymbolsAsMany(file, read, obj, place);
    var u := ObjectOfNames(obj, def.objectName);
    if u < |obj.symbols| {
      SymbolLeads(file, read, obj, place, u);
      DataFound(file, read, HomeOf(obj, u), def, read.symbols[u].entry);
    }
  }

  lemma DataFound(file: ByteString, read: Object, section: AbsSection, def: FileDef, s: Sym)
    requires SectionRendered(file, read, section, s.shndx) && |file| < TWO_32
    requires !AbsBss(section) ==> AllFixed(section.content, s.value, AgreedSize(s.size, def.objectSize))
    ensures DataOf(file, read, def, s) == Some(
      if AbsBss(section) then Repeat(0, s.size)
      else FixedBytes(section.content, s.value, AgreedSize(s.size, def.objectSize)))
  {
    hide DataOffset, At, ContentBytes, AgreedSize, AllFixed, FixedBytes, BytesFrom;
    if !AbsBss(section) {
      BytesAt(file, read.sections[s.shndx].header.offset, section.content, read.image.little, s.value,
              AgreedSize(s.size, def.objectSize));
      OffsetBelow(read, s);
    }
  }

  // ----- The two symbols used lie in the source program's domain

  lemma UserStands(file: ByteString, read: Object, obj: AbsObject, place: seq<nat>, def: FileDef)
    requires Renders(file, read, obj, place) && WellFormed(obj) && ObjectClosed(obj, def) && |file| < TWO_31
    ensures ObjectInDomain(file, read, def)
  {
    hide Renders, DataOf, ObjectIndex, AgreedSize, AllFixed, FixedBytes, WellFormed, HomeOf, SectionRendered, AbsBss;
    SameNames(file, read, obj, place);
    SymbolsAsMany(file, read, obj, place);
    var u := ObjectOfNames(obj, def.objectName);
    if u < |obj.symbols| {
      SymbolLeads(file, read, obj, place, u);
      SectionStands(file, read, HomeOf(obj, u), def, read.symbols[u].entry);
      DataFound(file, read, HomeOf(obj, u), def, read.symbols[u].entry);
    }
  }

  lemma SectionStands(file: ByteString, read: Object, section: AbsSection, def: FileDef, s: Sym)
    requires SectionRendered(file, read, section, s.shndx)
    requires !AbsBss(section) ==> AllFixed(section.content, s.value, AgreedSize(s.size, def.objectSize))
    ensures s.shndx < |read.sections| && read.sections[s.shndx].name.Some?
    ensures !AbsBss(section) ==> AgreedSize(s.size, def.objectSize) <= |file|
  {
    hide At, ContentBytes, AgreedSize, AllFixed;
    if !AbsBss(section) {
      BytesAt(file, read.sections[s.shndx].header.offset, section.content, read.image.little, s.value,
              AgreedSize(s.size, def.objectSize));
    }
  }

  lemma DefinitionStands(file: ByteString, read: Object, obj: AbsObject, place: seq<nat>)
    requires Renders(file, read, obj, place) && WellFormed(obj) && DefClosed(obj) && |file| < TWO_32
    requires AbsDef(obj).Some? ==> ObjectInDomain(file, read, AbsDef(obj).value)
    ensures SelectionInDomain(file, read)
  {
    hide Renders, ObjectInDomain, RecordAt, WellFormed, HomeOf, DefOf, AbsDef;
    SameNames(file, read, obj, place);
    SymbolsAsMany(file, read, obj, place);
    SameDefinition(file, read, obj, place);
    var d := DefOfNames(obj);
    if d >= 0 {
      SymbolSame(file, read, obj, place, d);
      if DefSized(obj.symbols[d]) {
        SymbolLeads(file, read, obj, place, d);
      }
    }
  }

  lemma SelectionStands(file: ByteString, read: Object, obj: AbsObject, place: seq<nat>)
    requires Renders(file, read, obj, place) && WellFormed(obj) && Closed(obj) && |file| < TWO_31
    ensures SelectionInDomain(file, read)
  {
    hide Renders, ObjectInDomain, WellFormed, DefClosed, AbsDef, ObjectClosed, SelectionInDomain;
    if AbsDef(obj).Some? {
      UserStands(file, read, obj, place, AbsDef(obj).value);
    }
    DefinitionStands(file, read, obj, place);
  }

  // ----- The theorem, and the program

  /** Whatever the layout and the format, the converter makes the object's table of
      a rendering of it. */
  lemma AnyLayout(o: Options, file: ByteString, obj: AbsObject)
    requires WellFormed(obj) && IsRendering(file, obj) && Closed(obj) && ValidOptions(o)
    ensures Converted(o, file) == TableOf(o, obj)
  {
    hide ReadObject, Renders, WellFormed, DefOf, DefClosed, AbsDef, UserData, AbsData, TableFile, ObjectClosed;
    var read := ReadObject(file).value;
    var place :| Renders(file, read, obj, place);
    SameDefinition(file, read, obj, place);
    var def := AbsDef(obj);
    if def.Some? {
      SameData(file, read, obj, place, def.value);
    }
  }

  /** Any two renderings of an object convert to the same table file, or both to none. */
  lemma LayoutIndependence(o: Options, file: ByteString, file': ByteString, obj: AbsObject)
    requires WellFormed(obj) && IsRendering(file, obj) && IsRendering(file', obj) && Closed(obj) && ValidOptions(o)
    ensures Converted(o, file) == Converted(o, file') == TableOf(o, obj)
  {
    hide IsRendering, WellFormed, Closed, Converted, TableOf;
    AnyLayout(o, file, obj);
    AnyLayout(o, file', obj);
  }

  /** The converter run on a rendering: the outcome depends on the object and the
      options only, not on the layout, the word size, the byte order, the host or
      verbose mode. */
  method ConvertRendering(file: ByteString, ghost obj: AbsObject, hostIsLittle: bool, o: Options, verbose: bool)
    returns (status: int, output: ByteString)
    requires WellFormed(obj) && IsRendering(file, obj) && Closed(obj) && ValidOptions(o) && InDomain(file)
    ensures status == SUCCESS <==> TableOf(o, obj).Some?
    ensures output == if status == SUCCESS then TableOf(o, obj).value else []
  {
    hide WellFormed, IsRendering, Closed, Converted, TableOf, InDomain;
    AnyLayout(o, file, obj);
    status, output := ConvertFile(file, hostIsLittle, o, verbose);
  }
}
