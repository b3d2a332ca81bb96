/**
  What the converter makes of an object: which symbol defines the table, which
  one holds its data, how many bytes there are, and the table file written.
 */
module Table {
  import opened Bytes
  import opened Endian
  import opened ElfRecords
  import opened Elf

  // ----- The definition record

  datatype FileDef = FileDef(
    objectName: ByteString, tableName: ByteString, description: ByteString, objectSize: nat)

  const DEF_SIZE: nat := 64 + 40 + 32 + 20 + 4

  /** The text in a character array whose last byte is forced to zero. */
  function ArrayText(s: ByteString): (r: ByteString)
    requires |s| > 0
    ensures |r| < |s|
    ensures forall k :: 0 <= k < |r| ==> r[k] != 0
  {
    TextAt(s[..|s| - 1], 0)
  }

  function DecodeDef(s: ByteString, little: bool): (r: FileDef)
    requires |s| == DEF_SIZE
    ensures |r.objectName| < 64 && |r.tableName| < 40 && |r.description| < 32 && r.objectSize < TWO_32
  {
    Pow256Values();
    ValueBound(s[156..160], little);
    FileDef(ArrayText(s[..64]), ArrayText(s[64..104]), ArrayText(s[104..136]), Value(s[156..160], little))
  }

  function DefName(): ByteString {
    Ascii("CFE_TBL_FileDef")
  }

  /** The definition symbol's name, as it is or after one leading character. */
  predicate NamesDef(name: ByteString) {
    name == DefName() || (|name| > 0 && name[1..] == DefName())
  }

  /** The names of symbols, in their order. */
  function NamesOf(symbols: seq<Symbol>): (r: seq<ByteString>)
    ensures |r| == |symbols| && forall i :: 0 <= i < |r| ==> r[i] == symbols[i].name
  {
    seq(|symbols|, i requires 0 <= i < |symbols| => symbols[i].name)
  }

  /** The last definition symbol's among the first `k` names; -1 if there is none. */
  function DefIndex(names: seq<ByteString>, k: nat): (r: int)
    requires k <= |names|
    ensures -1 <= r < k
  {
    if k == 0 then -1
    else if NamesDef(names[k - 1]) then k - 1
    else DefIndex(names, k - 1)
  }

  /** The guards of the two seeks into section data: the sum wraps at 64 bits and
      must then fit in 32. */
  function DataOffset(obj: Object, s: Sym): Option<nat> {
    if s.shndx >= |obj.sections| then None else
    var at := U64(obj.sections[s.shndx].header.offset + s.value);
    if at < TWO_32 then Some(at) else None
  }

  function ReadDef(src: ByteString, obj: Object, s: Sym): Option<FileDef> {
    if s.size != DEF_SIZE && s.size != 0 then None else
    var at :- DataOffset(obj, s);
    var bytes :- ReadAt(src, at, DEF_SIZE);
    Some(DecodeDef(bytes, obj.image.little))
  }

  // ----- The user object

  /** The search stops at the object's name itself and at that name with any one
      character more: the test for a non-printable character looks at the
      terminator, which never is printable. */
  predicate Matches(name: ByteString, wanted: ByteString) {
    wanted <= name && |name| <= |wanted| + 1
  }

  /** The first match from `i` on; the number of names if there is none. */
  function ObjectIndex(names: seq<ByteString>, wanted: ByteString, i: nat): (r: nat)
    requires i <= |names|
    ensures i <= r <= |names|
    decreases |names| - i
  {
    if i == |names| || Matches(names[i], wanted) then i else ObjectIndex(names, wanted, i + 1)
  }

  /** The number of bytes agreed on by the symbol and the definition record. */
  function AgreedSize(symbolSize: nat, defSize: nat): nat {
    if symbolSize == 0 || defSize < symbolSize then defSize else symbolSize
  }

  predicate InBss(s: Section) {
    s.name == Some(Ascii(".bss"))
  }

  function DataOf(src: ByteString, obj: Object, def: FileDef, s: Sym): Option<ByteString> {
    if s.shndx < |obj.sections| && InBss(obj.sections[s.shndx]) then
      Some(Repeat(0, s.size))
    else
      var at :- DataOffset(obj, s);
      Some(BytesFrom(src, at, AgreedSize(s.size, def.objectSize)))
  }

  // ----- The table file

  /** The command line's say in the two headers. */
  datatype Options = Options(
    spacecraftId: Option<nat>, processorId: Option<nat>, applicationId: Option<nat>,
    timeTag: bool, sourceTime: int,
    tableName: Option<ByteString>, description: Option<ByteString>)

  predicate IsText(s: ByteString, size: nat) {
    |s| < size && forall k :: 0 <= k < |s| ==> s[k] != 0
  }

  /** Identifiers are 32-bit numbers; the two overriding texts are terminated
      within their 38- and 32-byte arrays. */
  predicate ValidOptions(o: Options) {
    && (o.spacecraftId.Some? ==> o.spacecraftId.value < TWO_32)
    && (o.processorId.Some? ==> o.processorId.value < TWO_32)
    && (o.applicationId.Some? ==> o.applicationId.value < TWO_32)
    && (o.tableName.Some? ==> IsText(o.tableName.value, 38))
    && (o.description.Some? ==> IsText(o.description.value, 32))
  }

  function OrElse<T>(o: Option<T>, t: T): T {
    if o.Some? then o.value else t
  }

  function Big32(v: nat): (r: ByteString)
    ensures |r| == 4
  {
    Encode(v, 4, false)
  }

  /** A text in an array of `n` bytes cleared beforehand. */
  function Padded(s: ByteString, n: nat): (r: ByteString)
    requires |s| <= n
    ensures |r| == n
  {
    s + Repeat(0, n - |s|)
  }

  const CONTENT_TYPE: nat := 0x63464531
  const SUBTYPE_TABLE: nat := 8
  const FILE_HEADER_SIZE: nat := 64
  const HEADER_SIZE: nat := FILE_HEADER_SIZE + 52

  function FileHeader(o: Options, description: ByteString): (r: ByteString)
    requires |description| <= 32
    ensures |r| == FILE_HEADER_SIZE
  {
    Big32(CONTENT_TYPE) + Big32(SUBTYPE_TABLE) + Big32(FILE_HEADER_SIZE)
    + Big32(OrElse(o.spacecraftId, 0)) + Big32(OrElse(o.processorId, 0)) + Big32(OrElse(o.applicationId, 0))
    + Big32(if o.timeTag then o.sourceTime % TWO_32 else 0) + Big32(0)
    + Padded(description, 32)
  }

  function TableHeader(numBytes: nat, name: ByteString): (r: ByteString)
    requires |name| <= 40
    ensures |r| == HEADER_SIZE - FILE_HEADER_SIZE
  {
    Big32(0) + Big32(0) + Big32(numBytes) + Padded(name, 40)
  }

  function TableFile(o: Options, def: FileDef, data: ByteString): (r: ByteString)
    requires ValidOptions(o) && |def.tableName| < 40 && |def.description| < 32
    ensures |r| == HEADER_SIZE + |data|
  {
    FileHeader(o, OrElse(o.description, def.description))
    + TableHeader(|data|, OrElse(o.tableName, def.tableName))
    + data
  }

  // ----- Everything together

  datatype Plan = Plan(def: FileDef, data: ByteString)

  function DefOf(src: ByteString, obj: Object): (r: Option<FileDef>)
    ensures r.Some? ==> |r.value.tableName| < 40 && |r.value.description| < 32
  {
    var d := DefIndex(NamesOf(obj.symbols), |obj.symbols|);
    if d < 0 then None else ReadDef(src, obj, obj.symbols[d].entry)
  }

  function UserData(src: ByteString, obj: Object, def: FileDef): Option<ByteString> {
    var u := ObjectIndex(NamesOf(obj.symbols), def.objectName, 0);
    if u == |obj.symbols| then None else DataOf(src, obj, def, obj.symbols[u].entry)
  }

  function PlanOf(src: ByteString): (r: Option<Plan>)
    ensures r.Some? ==> |r.value.def.tableName| < 40 && |r.value.def.description| < 32
  {
    var obj :- ReadObject(src);
    var def :- DefOf(src, obj);
    var data :- UserData(src, obj, def);
    Some(Plan(def, data))
  }

  /** The table file for an object file; nothing if the converter gives up. */
  function Converted(o: Options, src: ByteString): Option<ByteString>
    requires ValidOptions(o)
  {
    var plan :- PlanOf(src);
    Some(TableFile(o, plan.def, plan.data))
  }

  // ----- Where the source program's behaviour is defined

  /** The offset of section header `i` is an `int32` product added to an `int64`. */
  predicate SeekInRange(img: Image, i: nat) {
    i * img.header.shentsize < TWO_31 && SectionOffset(img, i) < TWO_63
  }

  predicate HeaderInDomain(img: Image) {
    && SeekInRange(img, img.header.shstrndx)
    && forall i: nat :: i < img.header.shnum ==> SeekInRange(img, i)
  }

  /** Every section name looked up is terminated in the file within 60 bytes. */
  ghost predicate SectionsInDomain(src: ByteString, img: Image) {
    var names := NamesOffset(src, img);
    names.Some? ==>
      forall i: nat :: i < img.header.shnum && ReadSections(src, img, names.value, i).Some? ==>
        var h := ReadShdr(src, img, i);
        h.Some? && Named(names.value, h.value) ==> TextFits(src, names.value + h.value.name)
  }

  /** So is every symbol name, at an offset that fits in an `int32`; the symbol
      count does, too. */
  ghost predicate SymbolsInDomain(src: ByteString, img: Image, scan: Scan) {
    && scan.numSyms < TWO_31
    && forall i: nat :: i < scan.numSyms && ReadSymbols(src, img, scan, i).Some? ==>
        var s := ReadSym(src, img, scan, i);
        s.Some? ==> scan.strOff + s.value.name < TWO_31 && TextFits(src, scan.strOff + s.value.name)
  }

  /** The two symbols used name a section, the object's one a section with a name,
      and no more than an `int32` counts is written. */
  predicate SelectionInDomain(src: ByteString, obj: Object) {
    var d := DefIndex(NamesOf(obj.symbols), |obj.symbols|);
    d >= 0 && obj.symbols[d].entry.size in {0, DEF_SIZE} ==>
      && obj.symbols[d].entry.shndx < |obj.sections|
      && var def := DefOf(src, obj);
         def.Some? ==> ObjectInDomain(src, obj, def.value)
  }

  predicate ObjectInDomain(src: ByteString, obj: Object, def: FileDef) {
    var u := ObjectIndex(NamesOf(obj.symbols), def.objectName, 0);
    u < |obj.symbols| ==>
      var s := obj.symbols[u].entry;
      && s.shndx < |obj.sections|
      && obj.sections[s.shndx].name.Some?
      && var data := DataOf(src, obj, def, s);
         data.Some? ==> |data.value| < TWO_31
  }

  ghost predicate ObjectReadInDomain(src: ByteString, img: Image, sections: seq<Section>) {
    var scan := ScanOf(sections, img);
    && (scan.strOff != 0 ==> SymbolsInDomain(src, img, scan))
    && var obj := ReadObject(src);
       (obj.Some? ==> SelectionInDomain(src, obj.value))
  }

  ghost predicate InDomain(src: ByteString) {
    var img := ReadImage(src);
    img.Some? ==>
      && HeaderInDomain(img.value)
      && SectionsInDomain(src, img.value)
      && var sections := ReadAllSections(src, img.value);
         (sections.Some? ==> ObjectReadInDomain(src, img.value, sections.value))
  }
}
