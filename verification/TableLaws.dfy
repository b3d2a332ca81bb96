/**
  What the converter selects and what it writes: which symbols are found, how
  the search compares with its commented intent, and the bytes of the table file.
 */
module TableLaws {
  import opened Bytes
  import opened Endian
  import opened ElfRecords
  import opened Elf
  import opened Table
  import opened Converter
  import opened ScanLaws

  // ----- Reading everything is reading each

  lemma {:induction false} SectionsEach(src: ByteString, img: Image, names: int, k: nat, r: seq<Section>)
    ensures ReadSections(src, img, names, k) == Some(r)
      <==> |r| == k && forall i: nat :: i < k ==> ReadSection(src, img, names, i) == Some(r[i])
    decreases k
  {
    hide ReadSection;
    if k > 0 && |r| == k {
      SectionsEach(src, img, names, k - 1, r[..k - 1]);
      assert r == r[..k - 1] + [r[k - 1]];
    }
  }

  lemma {:induction false} SymbolsEach(src: ByteString, img: Image, scan: Scan, k: nat, r: seq<Symbol>)
    ensures ReadSymbols(src, img, scan, k) == Some(r)
      <==> |r| == k && forall i: nat :: i < k ==> ReadSymbol(src, img, scan, i) == Some(r[i])
    decreases k
  {
    hide ReadSymbol;
    if k > 0 && |r| == k {
      SymbolsEach(src, img, scan, k - 1, r[..k - 1]);
      assert r == r[..k - 1] + [r[k - 1]];
    }
  }

  /** Entry `k` of the symbol table as the ELF format has it. */
  function EntryAt(src: ByteString, img: Image, h: Shdr, k: nat): Option<Sym> {
    var bytes :- ReadAt(src, h.offset + k * h.entsize, SymSize(img.is32));
    Some(DecodeSym(bytes, img.is32, img.little))
  }

  /** The object's last named symbol table is section `t`, and it holds `n` whole
      entries. */
  ghost predicate HasTable(obj: Object, t: nat, n: nat) {
    && t < |obj.sections| && IsSymbolTable(obj.sections[t])
    && (forall j :: t < j < |obj.sections| ==> !IsSymbolTable(obj.sections[j]))
    && WellFormedTable(obj.sections[t].header, obj.image.is32, n)
  }

  lemma ReadSymIsEntry(src: ByteString, img: Image, scan: Scan, h: Shdr, n: nat, i: nat)
    requires Announces(scan, h, img.is32) && WellFormedTable(h, img.is32, n) && i < scan.numSyms
    ensures ReadSym(src, img, scan, i) == EntryAt(src, img, h, i + 1)
  {
    hide DecodeSym, Announces;
    EveryEntryOnce(scan, h, img.is32, n, i);
    GuardAccepts(SymbolOffset(scan, i));
    Below31(SymbolOffset(scan, i));
  }

  /** The symbols of a well-formed object are its symbol table's entries after the
      null one, in order, as decoded from the file. */
  lemma SymbolsAreEntries(src: ByteString, obj: Object, t: nat, n: nat)
    requires ReadObject(src) == Some(obj) && HasTable(obj, t, n)
    ensures |obj.symbols| == n - 1
    ensures forall i: nat :: i < |obj.symbols| ==>
      EntryAt(src, obj.image, obj.sections[t].header, i + 1) == Some(obj.symbols[i].entry)
  {
    hide ReadImage, ReadAllSections, ReadSymbols, ReadSym, EntryAt, ScanOf, Announces, WellFormedTable;
    var h, scan := obj.sections[t].header, obj.scan;
    SymbolTableChoice(obj.sections, obj.image, t);
    EveryEntryOnce(scan, h, obj.image.is32, n, 0);
    SymbolsEach(src, obj.image, scan, scan.numSyms, obj.symbols);
    forall i: nat | i < |obj.symbols|
      ensures EntryAt(src, obj.image, h, i + 1) == Some(obj.symbols[i].entry)
    {
      assert ReadSymbol(src, obj.image, scan, i) == Some(obj.symbols[i]);
      ReadSymIsEntry(src, obj.image, scan, h, n, i);
    }
  }

  lemma Below31(at: nat)
    requires at < TWO_31
    ensures Int32(at) == at
  {}

  // ----- The definition symbol

  /** A name is the definition's as it stands in the source file, or after any one
      character, such as the underscore some compilers put in front. */
  lemma NamesDefIs(name: ByteString)
    ensures NamesDef(name) <==>
      || name == Ascii("CFE_TBL_FileDef")
      || exists c: Byte :: name == [c] + Ascii("CFE_TBL_FileDef")
  {
    if NamesDef(name) && name != DefName() {
      assert name == [name[0]] + name[1..];
    }
    forall c: Byte | name == [c] + Ascii("CFE_TBL_FileDef")
      ensures name[1..] == DefName()
    {
      assert name[1..] == Ascii("CFE_TBL_FileDef");
    }
  }

  /** It is the last of its name. */
  lemma {:induction false} DefIndexIsLast(names: seq<ByteString>, k: nat, d: int)
    requires k <= |names| && -1 <= d < k
    ensures DefIndex(names, k) == d
      <==> (d >= 0 ==> NamesDef(names[d])) && forall j: nat :: d < j < k ==> !NamesDef(names[j])
    decreases k
  {
    hide NamesDef;
    if k > 0 {
      if !NamesDef(names[k - 1]) && d < k - 1 {
        DefIndexIsLast(names, k - 1, d);
      }
    }
  }

  // ----- The object search

  /** It is the first match. */
  lemma {:induction false} ObjectIndexIsFirst(names: seq<ByteString>, wanted: ByteString, i: nat, u: nat)
    requires i <= u <= |names|
    ensures ObjectIndex(names, wanted, i) == u
      <==> (u < |names| ==> Matches(names[u], wanted))
           && forall j: nat :: i <= j < u ==> !Matches(names[j], wanted)
    decreases |names| - i
  {
    hide Matches;
    if i < |names| && !Matches(names[i], wanted) && i < u {
      ObjectIndexIsFirst(names, wanted, i + 1, u);
    }
  }

  /** A match is the wanted name, or that name with one character more. */
  lemma MatchesIs(name: ByteString, wanted: ByteString)
    ensures Matches(name, wanted) <==> name == wanted || exists c: Byte :: name == wanted + [c]
  {
    if Matches(name, wanted) && name != wanted {
      var c := name[|wanted|];
      assert name == wanted + [c];
    }
  }

  /** The source's commented intent: an exact match, or one extra character that
      cannot be printed. */
  predicate Intended(name: ByteString, wanted: ByteString) {
    || name == wanted
    || (|name| == |wanted| + 1 && name[..|wanted|] == wanted && !IsPrint(name[|wanted|]))
  }

  function IntendedIndex(names: seq<ByteString>, wanted: ByteString, i: nat): (r: nat)
    requires i <= |names|
    ensures i <= r <= |names|
    decreases |names| - i
  {
    if i == |names| || Intended(names[i], wanted) then i else IntendedIndex(names, wanted, i + 1)
  }

  predicate PrintableExtension(name: ByteString, wanted: ByteString) {
    |name| == |wanted| + 1 && name[..|wanted|] == wanted && IsPrint(name[|wanted|])
  }

  lemma IntendedOrExtension(name: ByteString, wanted: ByteString)
    ensures Matches(name, wanted) <==> Intended(name, wanted) || PrintableExtension(name, wanted)
    ensures !(Intended(name, wanted) && PrintableExtension(name, wanted))
  {
    if wanted <= name {
      assert name[..|wanted|] == wanted;
    }
  }

  /** Every printable extension of the wanted name comes after a symbol that was
      meant. */
  ghost predicate ExtensionsComeLater(names: seq<ByteString>, wanted: ByteString, i: nat) {
    forall j: nat :: i <= j < |names| && PrintableExtension(names[j], wanted) ==>
      exists k: nat :: i <= k < j && Intended(names[k], wanted)
  }

  /** The search meets that intent exactly when no printable extension of the
      wanted name stands before the first symbol meant. */
  lemma {:induction false} SearchMeetsIntent(names: seq<ByteString>, wanted: ByteString, i: nat)
    requires i <= |names|
    ensures ObjectIndex(names, wanted, i) == IntendedIndex(names, wanted, i)
      <==> ExtensionsComeLater(names, wanted, i)
    decreases |names| - i
  {
    hide Matches, Intended, PrintableExtension;
    if i < |names| {
      var name := names[i];
      IntendedOrExtension(name, wanted);
      if Matches(name, wanted) {
        if Intended(name, wanted) {
          assert ExtensionsComeLater(names, wanted, i);
        } else {
          assert PrintableExtension(names[i], wanted);
        }
      } else {
        SearchMeetsIntent(names, wanted, i + 1);
        SkipOther(names, wanted, i);
      }
    }
  }

  lemma SkipOther(names: seq<ByteString>, wanted: ByteString, i: nat)
    requires i < |names|
    requires !Intended(names[i], wanted) && !PrintableExtension(names[i], wanted)
    ensures ExtensionsComeLater(names, wanted, i) <==> ExtensionsComeLater(names, wanted, i + 1)
  {
    hide Intended, PrintableExtension;
    if ExtensionsComeLater(names, wanted, i) {
      forall j: nat | i + 1 <= j < |names| && PrintableExtension(names[j], wanted)
        ensures exists k: nat :: i + 1 <= k < j && Intended(names[k], wanted)
      {
        var k: nat :| i <= k < j && Intended(names[k], wanted);
        assert k != i;
      }
    }
  }

  /** An object whose name has a longer neighbour in front of it is missed. */
  lemma SearchTakesNeighbour()
    ensures var names := [Ascii("Tbl2"), Ascii("Tbl")];
      ObjectIndex(names, Ascii("Tbl"), 0) == 0 && IntendedIndex(names, Ascii("Tbl"), 0) == 1
  {
    var a, b := Ascii("Tbl2"), Ascii("Tbl");
    assert |a| == 4 && |b| == 3 && a[..3] == b;
    assert a[3] == '2' as int;
    IntendedOrExtension(a, b);
    assert PrintableExtension(a, b);
  }

  // ----- The table file

  lemma TableFileParts(o: Options, def: FileDef, data: ByteString)
    requires ValidOptions(o) && |def.tableName| < 40 && |def.description| < 32
    ensures var out := TableFile(o, def, data);
      && out[HEADER_SIZE..] == data
      && out[72..76] == Big32(|data|)
      && out[8..12] == Big32(FILE_HEADER_SIZE)
  {
    hide Big32, Padded;
    var f, t := FileHeader(o, OrElse(o.description, def.description)),
                TableHeader(|data|, OrElse(o.tableName, def.tableName));
    assert (f + t + data)[72..76] == t[8..12];
    assert (f + t + data)[8..12] == f[8..12];
  }

  /** The header's byte count is the number of bytes that follow the header, and
      the first header's length field is that header's length. */
  lemma NumBytesIsDataLength(o: Options, def: FileDef, data: ByteString)
    requires ValidOptions(o) && |def.tableName| < 40 && |def.description| < 32 && |data| < TWO_32
    ensures var out := TableFile(o, def, data);
      && Value(out[72..76], false) == |data| == |out| - HEADER_SIZE
      && Value(out[8..12], false) == FILE_HEADER_SIZE
  {
    TableFileParts(o, def, data);
    Pow256Values();
    ValueOfEncode(|data|, 4, false);
    ValueOfEncode(FILE_HEADER_SIZE, 4, false);
  }

  /** How many bytes of data there are: what the symbol and the definition agree
      on, or for a ".bss" object what the symbol says. */
  function DataLength(obj: Object, def: FileDef, s: Sym): nat
    requires s.shndx < |obj.sections|
  {
    if InBss(obj.sections[s.shndx]) then s.size
    else if s.size == 0 then def.objectSize
    else if s.size <= def.objectSize then s.size else def.objectSize
  }

  /** Byte `k` of section data from `at` on. */
  function DataByte(src: ByteString, section: Section, at: nat, k: nat): Byte {
    if InBss(section) then 0 else if at + k < |src| then src[at + k] else 0xFF
  }

  // ----- Past the end of the file

  /** The bytes written are all bytes of the source file exactly when their range
      lies within it, or is empty; beyond its end they are 0xFF. */
  lemma SourceBytesOnly(src: ByteString, at: nat, n: nat)
    ensures (forall k :: 0 <= k < n ==> at + k < |src| && BytesFrom(src, at, n)[k] == src[at + k])
      <==> at + n <= |src| || n == 0
    ensures forall k :: 0 <= k < n && at + k >= |src| ==> BytesFrom(src, at, n)[k] == 0xFF
  {
    if n > 0 && at + n > |src| {
      assert BytesFrom(src, at, n)[n - 1] == 0xFF && at + (n - 1) >= |src|;
    }
  }

  // ----- Where the data are

  /** A symbol's place in the file: its section's offset plus its value. */
  function PlaceOf(obj: Object, s: Sym): nat
    requires s.shndx < |obj.sections|
  {
    obj.sections[s.shndx].header.offset + s.value
  }

  predicate FitsWord(obj: Object, s: Sym) {
    && s.shndx < |obj.sections|
    && obj.sections[s.shndx].header.offset < Word(obj.image.is32) && s.value < Word(obj.image.is32)
  }

  /** In every object read, both summands fit the file's word size. */
  lemma ReadFitsWord(src: ByteString, obj: Object, i: nat)
    requires ReadObject(src) == Some(obj) && i < |obj.symbols| && obj.symbols[i].entry.shndx < |obj.sections|
    ensures FitsWord(obj, obj.symbols[i].entry)
  {
    hide ReadImage, NamesOffset, ReadSections, ReadSymbols, ScanOf, DecodeShdr, DecodeSym, TextAt, Word, ReadAt, Int32, U64;
    var img, k := obj.image, obj.symbols[i].entry.shndx;
    var names := NamesOffset(src, img).value;
    SectionsEach(src, img, names, img.header.shnum, obj.sections);
    SymbolsEach(src, img, obj.scan, obj.scan.numSyms, obj.symbols);
    assert ReadSection(src, img, names, k) == Some(obj.sections[k]);
    assert ReadSymbol(src, img, obj.scan, i) == Some(obj.symbols[i]);
    ShdrOffsetBound(ReadAt(src, SectionOffset(img, k), ShdrSize(img.is32)).value, img.is32, img.little);
    SymValueBound(ReadAt(src, Int32(SymbolOffset(obj.scan, i)), SymSize(img.is32)).value, img.is32, img.little);
  }

  /** The offset sought is the symbol's place exactly when that is below 2^32. */
  lemma DataOffsetExact(obj: Object, s: Sym)
    requires FitsWord(obj, s)
    ensures DataOffset(obj, s) == Some(PlaceOf(obj, s)) <==> PlaceOf(obj, s) < TWO_32
  {}

  /** Whatever offset the guard lets through is the symbol's place, exactly when
      that place is not one that the 64-bit sum turns into a small number. */
  lemma DataOffsetTrue(obj: Object, s: Sym)
    requires FitsWord(obj, s)
    ensures (DataOffset(obj, s).Some? ==> DataOffset(obj, s) == Some(PlaceOf(obj, s)))
      <==> !(TWO_64 <= PlaceOf(obj, s) < TWO_64 + TWO_32)
  {}

  /** A 32-bit object has no such places. */
  lemma DataOffsetOf32(obj: Object, s: Sym)
    requires FitsWord(obj, s) && obj.image.is32
    ensures DataOffset(obj, s) == if PlaceOf(obj, s) < TWO_32 then Some(PlaceOf(obj, s)) else None
  {}

  // ----- What the data should be

  const SHT_NOBITS: nat := 8

  /** The object as its program starts out with: `n` zeros in a section without
      bytes in the file, else the file's bytes at the symbol's place. */
  function InitialImage(src: ByteString, obj: Object, s: Sym, n: nat): ByteString
    requires s.shndx < |obj.sections|
  {
    if obj.sections[s.shndx].header.kind == SHT_NOBITS then Repeat(0, n) else BytesFrom(src, PlaceOf(obj, s), n)
  }

  predicate ZerosAt(src: ByteString, at: nat, n: nat) {
    n == 0 || (at + n <= |src| && forall k :: at <= k < at + n ==> src[k] == 0)
  }

  /** The converter decides by the section's name.  Its data are the initial image
      exactly when the name ".bss" and the section's kind say the same, or the file
      happens to have zeros there. */
  lemma DataIsImage(src: ByteString, obj: Object, def: FileDef, s: Sym, data: ByteString)
    requires s.shndx < |obj.sections| && PlaceOf(obj, s) < TWO_32 && DataOf(src, obj, def, s) == Some(data)
    ensures data == InitialImage(src, obj, s, |data|)
      <==> (InBss(obj.sections[s.shndx]) <==> obj.sections[s.shndx].header.kind == SHT_NOBITS)
           || ZerosAt(src, PlaceOf(obj, s), |data|)
  {
    hide InBss, AgreedSize;
    ZerosRead(src, PlaceOf(obj, s), |data|);
  }

  lemma ZeroRead(src: ByteString, at: nat, n: nat, k: nat)
    requires at <= k < at + n
    ensures BytesFrom(src, at, n)[k - at] == 0 <==> k < |src| && src[k] == 0
  {}

  lemma ZerosRead(src: ByteString, at: nat, n: nat)
    ensures BytesFrom(src, at, n) == Repeat(0, n) <==> ZerosAt(src, at, n)
  {
    hide BytesFrom;
    var got, zeros := BytesFrom(src, at, n), Repeat(0, n);
    if got == zeros && n > 0 {
      ZeroRead(src, at, n, at + n - 1);
      assert got[n - 1] == zeros[n - 1];
      forall k | at <= k < at + n
        ensures src[k] == 0
      {
        ZeroRead(src, at, n, k);
        assert got[k - at] == zeros[k - at];
      }
    }
    if ZerosAt(src, at, n) {
      forall j | 0 <= j < n
        ensures got[j] == zeros[j]
      {
        ZeroRead(src, at, n, at + j);
      }
    }
  }

  /** `out` is 116 bytes of header, whose byte count is right, and symbol `u`'s
      data: zeros in ".bss", else the file's bytes at the symbol's place, which lies
      below 2^32, or less than that beyond 2^64 and then 2^64 too far. */
  ghost predicate HoldsObject(out: ByteString, src: ByteString, obj: Object, def: FileDef, u: nat)
    requires u < |obj.symbols| && obj.symbols[u].entry.shndx < |obj.sections|
  {
    var s := obj.symbols[u].entry;
    var section, n, place := obj.sections[s.shndx], DataLength(obj, def, s), PlaceOf(obj, s);
    var at := if place < TWO_64 then place else place - TWO_64;
    && |out| == HEADER_SIZE + n
    && Value(out[72..76], false) == n
    && (InBss(section) || place < TWO_32 || TWO_64 <= place < TWO_64 + TWO_32)
    && forall k: nat :: HEADER_SIZE <= k < |out| ==> out[k] == DataByte(src, section, at, k - HEADER_SIZE)
  }

  /** The main statement about one conversion: if a file comes out, it holds the
      object located. */
  lemma OutputIsObject(o: Options, src: ByteString)
    requires InDomain(src) && ValidOptions(o)
    ensures var out := Converted(o, src);
      out.Some? ==>
        && ReadObject(src).Some? && DefOf(src, ReadObject(src).value).Some?
        && var obj := ReadObject(src).value;
           var def := DefOf(src, obj).value;
           var u := ObjectIndex(NamesOf(obj.symbols), def.objectName, 0);
           u < |obj.symbols| && obj.symbols[u].entry.shndx < |obj.sections| && HoldsObject(out.value, src, obj, def, u)
  {
    if Converted(o, src).Some? {
      ConvertedIsObject(o, src, Converted(o, src).value);
    }
  }

  lemma ConvertedIsObject(o: Options, src: ByteString, out: ByteString)
    requires InDomain(src) && ValidOptions(o) && Converted(o, src) == Some(out)
    ensures ReadObject(src).Some? && DefOf(src, ReadObject(src).value).Some?
    ensures var obj := ReadObject(src).value;
      var def := DefOf(src, obj).value;
      var u := ObjectIndex(NamesOf(obj.symbols), def.objectName, 0);
      u < |obj.symbols| && obj.symbols[u].entry.shndx < |obj.sections| && HoldsObject(out, src, obj, def, u)
  {
    hide ReadObject, DefOf, TableFile, SelectionInDomain, InDomain, ObjectIndex, U64, HoldsObject;
    var obj := ReadObject(src).value;
    var def := DefOf(src, obj).value;
    DomainOfObject(src, obj);
    DomainOfUse(src, obj, def);
    var u := ObjectIndex(NamesOf(obj.symbols), def.objectName, 0);
    ReadFitsWord(src, obj, u);
    DataHolds(o, src, obj, def, u, UserData(src, obj, def).value);
  }

  lemma DataHolds(o: Options, src: ByteString, obj: Object, def: FileDef, u: nat, data: ByteString)
    requires u < |obj.symbols| && FitsWord(obj, obj.symbols[u].entry)
    requires DataOf(src, obj, def, obj.symbols[u].entry) == Some(data) && |data| < TWO_31
    requires ValidOptions(o) && |def.tableName| < 40 && |def.description| < 32
    ensures HoldsObject(TableFile(o, def, data), src, obj, def, u)
  {
    hide TableFile, U64;
    var out, place := TableFile(o, def, data), PlaceOf(obj, obj.symbols[u].entry);
    WrappedSum(place);
    NumBytesIsDataLength(o, def, data);
    TableFileParts(o, def, data);
    forall k: nat | HEADER_SIZE <= k < |out|
      ensures out[k] == data[k - HEADER_SIZE]
    {
      assert out[k] == out[HEADER_SIZE..][k - HEADER_SIZE];
    }
  }

  lemma WrappedSum(place: nat)
    requires place < TWO_64 + TWO_64
    ensures U64(place) == if place < TWO_64 then place else place - TWO_64
  {}
}
