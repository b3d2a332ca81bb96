/**
  The case the converter is for: an object and the record that the table definition
  macro declares for it (cfe/modules/core_api/fsw/inc/cfe_tbl_filedef.h), compiled
  for any target, become the table file of that record and the object's bytes.
 */
module MacroTable {
  import opened Bytes
  import opened Elf
  import opened Table
  import opened TableLaws
  import opened Objects
  import opened Renderings
  import opened Converter
  import opened Formats

  // ----- Declared tables

  /** How data lie in contents. */
  ghost predicate DataLie(content: seq<Chunk>, at: nat, data: ByteString)
    requires ValidContent(content)
  {
    var fixed := Fixed(content);
    at + |data| <= |fixed| && forall k :: 0 <= k < |data| ==> fixed[at + k] == Some(data[k])
  }

  /** Symbol `d` is the last definition symbol, and marks the record. */
  ghost predicate Marks(obj: AbsObject, d: nat, r: Record)
    requires WellFormed(obj)
  {
    var names := SymbolNames(obj);
    && d < |names| && NamesDef(names[d]) && (forall j :: d < j < |names| ==> !NamesDef(names[j]))
    && DefSized(obj.symbols[d]) && obj.symbols[d].home.User?
    && RecordAt(HomeOf(obj, d).content, obj.symbols[d].value) == Some(r)
  }

  /** Symbol `u` is the first that the record's object name fits, and has the data. */
  ghost predicate Carries(obj: AbsObject, u: nat, r: Record, data: ByteString)
    requires WellFormed(obj) && ValidRecord(r)
  {
    var names, wanted := SymbolNames(obj), ArrayText(r.objectName);
    && u < |names| && Matches(names[u], wanted) && (forall j :: 0 <= j < u ==> !Matches(names[j], wanted))
    && AgreedSize(obj.symbols[u].size, r.objectSize) == |data| && obj.symbols[u].home.User?
    && !AbsBss(HomeOf(obj, u)) && DataLie(HomeOf(obj, u).content, obj.symbols[u].value, data)
  }

  lemma LieIsFixed(content: seq<Chunk>, at: nat, data: ByteString)
    requires ValidContent(content) && DataLie(content, at, data)
    ensures AllFixed(content, at, |data|) && FixedBytes(content, at, |data|) == data
  {
    hide Fixed;
    var fixed := Fixed(content);
    forall k | at <= k < at + |data|
      ensures fixed[k] == Some(data[k - at])
    {
      assert fixed[at + (k - at)] == Some(data[k - at]);
    }
  }

  lemma MarkFound(obj: AbsObject, d: nat, r: Record)
    requires WellFormed(obj) && Marks(obj, d, r)
    ensures DefOfNames(obj) == d && DefClosed(obj) && ValidRecord(r) && AbsDef(obj) == Some(MeaningOf(r))
  {
    hide WellFormed, HomeOf, RecordAt, NamesDef, MeaningOf, ValidRecord;
    DefIndexIsLast(SymbolNames(obj), |obj.symbols|, d);
  }

  lemma CarrierFound(obj: AbsObject, u: nat, r: Record, data: ByteString)
    requires WellFormed(obj) && ValidRecord(r) && Carries(obj, u, r, data)
    ensures ObjectOfNames(obj, MeaningOf(r).objectName) == u
    ensures ObjectClosed(obj, MeaningOf(r)) && AbsData(obj, MeaningOf(r)) == Some(data)
  {
    hide WellFormed, HomeOf, Matches, ArrayText, DataLie, AllFixed, FixedBytes, AbsBss;
    ObjectIndexIsFirst(SymbolNames(obj), ArrayText(r.objectName), 0, u);
    LieIsFixed(HomeOf(obj, u).content, obj.symbols[u].value, data);
  }

  /** Such an object stands for the table file of record and data. */
  lemma DeclaredTable(o: Options, obj: AbsObject, d: nat, u: nat, r: Record, data: ByteString)
    requires WellFormed(obj) && Marks(obj, d, r) && ValidRecord(r) && Carries(obj, u, r, data) && ValidOptions(o)
    ensures Closed(obj) && TableOf(o, obj) == Some(TableFile(o, MeaningOf(r), data))
  {
    hide WellFormed, Marks, Carries, DefClosed, AbsDef, ObjectClosed, AbsData, MeaningOf, TableFile;
    MarkFound(obj, d, r);
    CarrierFound(obj, u, r, data);
  }

  /** For every object file that renders an object with a declared table, whatever
      its layout, word size and byte order, whatever sections and symbols it has
      beside, on every host, verbose or not: the converter succeeds and writes the
      record's headers, with the command line's say, followed by the data. */
  method ConvertDeclared(
      file: ByteString, ghost obj: AbsObject, ghost d: nat, ghost u: nat, r: Record, data: ByteString,
      hostIsLittle: bool, o: Options, verbose: bool)
    returns (status: int, output: ByteString)
    requires WellFormed(obj) && IsRendering(file, obj) && InDomain(file) && ValidOptions(o)
    requires Marks(obj, d, r) && ValidRecord(r) && Carries(obj, u, r, data)
    ensures status == SUCCESS && output == TableFile(o, MeaningOf(r), data)
  {
    hide WellFormed, IsRendering, InDomain, Marks, Carries, Closed, TableOf, TableFile, MeaningOf;
    DeclaredTable(o, obj, d, u, r, data);
    status, output := ConvertRendering(file, obj, hostIsLittle, o, verbose);
  }

  // ----- A compiled macro

  const SHT_PROGBITS: nat := 1

  /** What a compiler makes of the source file around the table: what it puts in front
      of the definition's name, other sections, what stands in ".data" before, between
      and after record and data, which of the two comes first, and the same for the
      symbols. */
  datatype Surroundings = Surroundings(
    machine: nat, prefix: Option<Byte>, sectionsBefore: seq<AbsSection>, sectionsAfter: seq<AbsSection>,
    before: seq<Chunk>, between: seq<Chunk>, after: seq<Chunk>, recordFirst: bool,
    symbolsBefore: seq<AbsSymbol>, symbolsBetween: seq<AbsSymbol>, symbolsAfter: seq<AbsSymbol>, markFirst: bool)

  /** The definition symbol's name. */
  function MarkName(w: Surroundings): ByteString {
    if w.prefix.Some? then [w.prefix.value] + DefName() else DefName()
  }

  lemma MarkNames(w: Surroundings)
    ensures NamesDef(MarkName(w))
  {
    NamesDefIs(MarkName(w));
  }

  predicate ValidAround(w: Surroundings) {
    ValidContent(w.before) && ValidContent(w.between) && ValidContent(w.after)
  }

  /** A record for `data`: the object's size is the record's, and its name is short
      enough to be a symbol's. */
  predicate Describes(r: Record, data: ByteString) {
    ValidRecord(r) && |ArrayText(r.objectName)| < MAX_NAME && r.objectSize == |data|
  }

  function BeforeRecord(w: Surroundings, data: ByteString): seq<Chunk> {
    if w.recordFirst then w.before else w.before + [Plain(data)] + w.between
  }

  function AfterRecord(w: Surroundings, data: ByteString): seq<Chunk> {
    if w.recordFirst then w.between + [Plain(data)] + w.after else w.after
  }

  function BeforeData(w: Surroundings, r: Record): seq<Chunk> {
    if w.recordFirst then w.before + [Definition(r)] + w.between else w.before
  }

  function AfterData(w: Surroundings, r: Record): seq<Chunk> {
    if w.recordFirst then w.after else w.between + [Definition(r)] + w.after
  }

  function Content(w: Surroundings, r: Record, data: ByteString): seq<Chunk> {
    BeforeRecord(w, data) + [Definition(r)] + AfterRecord(w, data)
  }

  function DotData(w: Surroundings, r: Record, data: ByteString): AbsSection {
    AbsSection(Ascii(".data"), SHT_PROGBITS, Content(w, r, data))
  }

  lemma AroundValid(w: Surroundings, r: Record, data: ByteString)
    requires ValidAround(w) && ValidRecord(r)
    ensures ValidContent(BeforeRecord(w, data)) && ValidContent(AfterRecord(w, data))
    ensures ValidContent(BeforeData(w, r)) && ValidContent(AfterData(w, r)) && ValidContent(Content(w, r, data))
    ensures Content(w, r, data) == BeforeData(w, r) + [Plain(data)] + AfterData(w, r)
  {
    hide ValidRecord;
  }

  function RecordPlace(w: Surroundings, r: Record, data: ByteString): nat
    requires ValidAround(w) && ValidRecord(r)
  {
    AroundValid(w, r, data);
    |Fixed(BeforeRecord(w, data))|
  }

  function DataPlace(w: Surroundings, r: Record): nat
    requires ValidAround(w) && ValidRecord(r)
  {
    AroundValid(w, r, []);
    |Fixed(BeforeData(w, r))|
  }

  function MarkIndex(w: Surroundings): nat {
    |w.symbolsBefore| + if w.markFirst then 0 else 1 + |w.symbolsBetween|
  }

  function DataIndex(w: Surroundings): nat {
    |w.symbolsBefore| + if w.markFirst then 1 + |w.symbolsBetween| else 0
  }

  /** The object file's content, with any value for the data's symbol. */
  function CompiledAt(w: Surroundings, r: Record, data: ByteString, value: nat): AbsObject
    requires ValidAround(w) && Describes(r, data)
  {
    var home := User(|w.sectionsBefore|);
    var mark := AbsSymbol(MarkName(w), home, RecordPlace(w, r, data), DEF_SIZE, 1, 0);
    var tbl := AbsSymbol(ArrayText(r.objectName), home, value, |data|, 1, 0);
    AbsObject(1, w.machine,
      w.sectionsBefore + [DotData(w, r, data)] + w.sectionsAfter,
      w.symbolsBefore + [if w.markFirst then mark else tbl]
      + w.symbolsBetween + [if w.markFirst then tbl else mark] + w.symbolsAfter)
  }

  function Compiled(w: Surroundings, r: Record, data: ByteString): AbsObject
    requires ValidAround(w) && Describes(r, data)
  {
    CompiledAt(w, r, data, DataPlace(w, r))
  }

  /** No symbol before the object's is taken for it, and none after the definition's
      for the definition. */
  ghost predicate Harmless(w: Surroundings, r: Record, data: ByteString): (ok: bool)
    ensures ok ==> ValidAround(w) && Describes(r, data)
  {
    && ValidAround(w) && Describes(r, data)
    && var names := SymbolNames(Compiled(w, r, data));
       && (forall j :: 0 <= j < DataIndex(w) ==> !Matches(names[j], ArrayText(r.objectName)))
       && (forall j :: MarkIndex(w) < j < |names| ==> !NamesDef(names[j]))
  }

  // ----- What stands where in the section

  lemma {:induction false} FixedConcat(a: seq<Chunk>, b: seq<Chunk>)
    requires ValidContent(a) && ValidContent(b)
    ensures ValidContent(a + b) && Fixed(a + b) == Fixed(a) + Fixed(b)
    decreases |b|
  {
    hide FixedChunk;
    if b == [] {
      assert a + b == a;
    } else {
      assert (a + b)[..|a + b| - 1] == a + b[..|b| - 1];
      FixedConcat(a, b[..|b| - 1]);
    }
  }

  lemma FixedOne(c: Chunk)
    requires ValidChunk(c)
    ensures ValidContent([c]) && Fixed([c]) == FixedChunk(c)
  {
    hide FixedChunk;
    assert [c][..0] == [];
  }

  /** A record is found where what precedes it ends. */
  lemma {:induction false} RecordIn(a: seq<Chunk>, r: Record, b: seq<Chunk>)
    requires ValidContent(a) && ValidRecord(r) && ValidContent(b) && ValidContent(a + [Definition(r)] + b)
    ensures RecordAt(a + [Definition(r)] + b, |Fixed(a)|) == Some(r)
    decreases |b|
  {
    hide FixedChunk, Fixed, ValidRecord;
    var c := [Definition(r)];
    if b == [] {
      assert a + c + b == a + c && (a + c)[..|a|] == a;
    } else {
      var b' := b[..|b| - 1];
      assert (a + c + b)[..|a + c + b| - 1] == a + c + b';
      RecordIn(a, r, b');
      RecordLengthens(a, r, b');
    }
  }

  lemma RecordLengthens(a: seq<Chunk>, r: Record, b: seq<Chunk>)
    requires ValidContent(a) && ValidRecord(r) && ValidContent(b)
    ensures ValidContent(a + [Definition(r)] + b) && |Fixed(a + [Definition(r)] + b)| > |Fixed(a)|
  {
    hide Fixed, RecordTexts;
    FixedOne(Definition(r));
    FixedConcat(a, [Definition(r)]);
    FixedConcat(a + [Definition(r)], b);
  }

  lemma DataIn(a: seq<Chunk>, data: ByteString, b: seq<Chunk>)
    requires ValidContent(a) && ValidContent(b)
    ensures ValidContent(a + [Plain(data)] + b) && DataLie(a + [Plain(data)] + b, |Fixed(a)|, data)
  {
    hide Fixed;
    FixedOne(Plain(data));
    FixedConcat(a, [Plain(data)]);
    FixedConcat(a + [Plain(data)], b);
  }

  /** The record is found at its place, and the data lie at theirs. */
  lemma ContentShape(w: Surroundings, r: Record, data: ByteString)
    requires ValidAround(w) && ValidRecord(r)
    ensures var content := Content(w, r, data);
      && ValidContent(content) && RecordAt(content, RecordPlace(w, r, data)) == Some(r)
      && DataLie(content, DataPlace(w, r), data)
  {
    hide Fixed, RecordAt, DataLie, ValidAround, ValidRecord, ValidContent;
    hide BeforeRecord, AfterRecord, BeforeData, AfterData;
    AroundValid(w, r, data);
    RecordIn(BeforeRecord(w, data), r, AfterRecord(w, data));
    DataIn(BeforeData(w, r), data, AfterData(w, r));
  }

  lemma DataIsNotBss()
    ensures Ascii(".data") != Ascii(".bss")
  {
    assert |".data"| == 5 && |".bss"| == 4;
  }

  // ----- The two symbols

  lemma TwoSymbols(w: Surroundings, r: Record, data: ByteString, value: nat)
    requires ValidAround(w) && Describes(r, data)
    ensures var obj, home := CompiledAt(w, r, data, value), User(|w.sectionsBefore|);
      && DataIndex(w) < |obj.symbols| && MarkIndex(w) < |obj.symbols| && |w.sectionsBefore| < |obj.sections|
      && obj.symbols[DataIndex(w)] == AbsSymbol(ArrayText(r.objectName), home, value, |data|, 1, 0)
      && obj.symbols[MarkIndex(w)] == AbsSymbol(MarkName(w), home, RecordPlace(w, r, data), DEF_SIZE, 1, 0)
      && obj.sections[|w.sectionsBefore|] == DotData(w, r, data)
      && SymbolNames(obj) == SymbolNames(Compiled(w, r, data))
  {
    hide ArrayText, MarkName, Fixed, DotData;
  }

  lemma CompiledMarks(w: Surroundings, r: Record, data: ByteString, value: nat)
    requires Harmless(w, r, data) && WellFormed(CompiledAt(w, r, data, value))
    ensures Marks(CompiledAt(w, r, data, value), MarkIndex(w), r)
  {
    hide ArrayText, MarkName, RecordAt, WellFormed, DataLie, RecordPlace, MarkIndex, DataIndex, CompiledAt, Content;
    hide Matches, NamesDef;
    MarkNames(w);
    TwoSymbols(w, r, data, value);
    ContentShape(w, r, data);
  }

  lemma CompiledCarries(w: Surroundings, r: Record, data: ByteString)
    requires Harmless(w, r, data) && WellFormed(Compiled(w, r, data))
    ensures Carries(Compiled(w, r, data), DataIndex(w), r, data)
  {
    hide Ascii, ArrayText, MarkName, RecordAt, WellFormed, DataLie, RecordPlace, MarkIndex, DataIndex, CompiledAt, Content;
    hide NamesDef, DataPlace;
    TwoSymbols(w, r, data, DataPlace(w, r));
    ContentShape(w, r, data);
    DataIsNotBss();
  }

  /** The compiled object stands for the table file of record and data. */
  lemma CompiledTable(o: Options, w: Surroundings, r: Record, data: ByteString)
    requires Harmless(w, r, data) && WellFormed(Compiled(w, r, data)) && ValidOptions(o)
    ensures Closed(Compiled(w, r, data))
    ensures TableOf(o, Compiled(w, r, data)) == Some(TableFile(o, MeaningOf(r), data))
  {
    hide WellFormed, CompiledAt, Marks, Carries, Closed, TableOf, TableFile, MeaningOf, DataPlace, ArrayText;
    CompiledMarks(w, r, data, DataPlace(w, r));
    CompiledCarries(w, r, data);
    DeclaredTable(o, Compiled(w, r, data), MarkIndex(w), DataIndex(w), r, data);
  }

  /** For every record and data, whatever surrounds them in sections, section and
      symbols, in every word size and byte order in which the file can be written, on
      every host, verbose or not: the converter succeeds. */
  method ConvertCompiled(
      w: Surroundings, r: Record, data: ByteString, f: Form, hostIsLittle: bool, o: Options, verbose: bool)
    returns (status: int, output: ByteString)
    requires Harmless(w, r, data) && Expressible(Compiled(w, r, data), f) && ValidOptions(o)
    ensures status == SUCCESS && output == TableFile(o, MeaningOf(r), data)
  {
    hide CompiledAt, Closed, TableOf, TableFile, MeaningOf, Assemble, FitsIn, Valid, WellFormed, DataPlace, ArrayText;
    hide Matches, NamesDef;
    CompiledTable(o, w, r, data);
    status, output := ConvertAssembled(Compiled(w, r, data), f, hostIsLittle, o, verbose);
  }
}
