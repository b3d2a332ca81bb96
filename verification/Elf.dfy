/**
  What an object file says: its header, sections and symbols, read in the file's
  own byte order.  No host, no cursor and no byte swap appears here; Converter
  is proved to compute these functions on either kind of host.
 */
module Elf {
  import opened Bytes
  import opened Endian
  import opened ElfRecords

  datatype Option<+T> = None | Some(value: T) {
    predicate IsFailure() {
      None?
    }

    function PropagateFailure<U>(): Option<U>
      requires None?
    {
      None
    }

    function Extract(): T
      requires Some?
    {
      value
    }
  }

  // ----- C integers

  function U64(v: int): (r: nat)
    ensures r < TWO_64
  {
    v % TWO_64
  }

  function Int64(v: nat): int {
    if v < TWO_63 then v else v - TWO_64
  }

  /** What is left of a number in an `int32`. */
  function Int32(v: nat): (r: int)
    ensures -0x8000_0000 <= r < 0x8000_0000
  {
    var w: int := v % TWO_32;
    if w < TWO_31 then w else w - TWO_32
  }

  // ----- Pieces of a file

  /** One item of `n` bytes at offset `at`, if all of it is there. */
  function ReadAt(src: ByteString, at: int, n: nat): (r: Option<ByteString>)
    ensures r.Some? <==> 0 <= at && at + n <= |src|
    ensures r.Some? ==> |r.value| == n
  {
    if 0 <= at && at + n <= |src| then Some(src[at..at + n]) else None
  }

  /** The first zero byte from `at` on, or the end. */
  function Terminator(s: ByteString, at: nat): (r: nat)
    requires at <= |s|
    ensures at <= r <= |s|
    ensures forall k :: at <= k < r ==> s[k] != 0
    ensures r < |s| ==> s[r] == 0
    decreases |s| - at
  {
    if at == |s| || s[at] == 0 then at else Terminator(s, at + 1)
  }

  /** The C string at offset `at`. */
  function TextAt(s: ByteString, at: int): (r: ByteString)
    ensures forall k :: 0 <= k < |r| ==> r[k] != 0
  {
    if 0 <= at <= |s| then s[at..Terminator(s, at)] else []
  }

  const MAX_NAME: nat := 60

  /** A terminated string that fits the converter's 60-byte scratch buffer. */
  predicate TextFits(s: ByteString, at: int) {
    0 <= at < |s| && Terminator(s, at) < |s| && |TextAt(s, at)| < MAX_NAME
  }

  /** `n` bytes from `at` on as `fgetc` delivers them: past the end of the file
      it returns EOF, whose low byte is 0xFF. */
  function BytesFrom(src: ByteString, at: nat, n: nat): (r: ByteString)
    ensures |r| == n
  {
    seq(n, k requires 0 <= k < n => if at + k < |src| then src[at + k] else 0xFF)
  }

  function Ascii(s: string): (r: ByteString)
    ensures |r| == |s|
  {
    seq(|s|, k requires 0 <= k < |s| => s[k] as int % 0x100)
  }

  // ----- The file header

  datatype Image = Image(is32: bool, little: bool, header: Ehdr)

  predicate IdentOk(ident: ByteString)
    requires |ident| == IDENT_SIZE
  {
    && ident[0] == 0x7F && ident[1] == 0x45 && ident[2] == 0x4C && ident[3] == 0x46
    && (ident[4] == 1 || ident[4] == 2)
    && (ident[5] == 1 || ident[5] == 2)
    && ident[6] == 1
  }

  /** The machine codes the converter's table lists. */
  predicate KnownMachine(m: nat) {
    || m <= 5 || 7 <= m <= 10 || m == 15 || 17 <= m <= 23 || 36 <= m <= 120 || 131 <= m <= 144
    || 160 <= m <= 171 || 173 <= m <= 181 || m == 183 || 185 <= m <= 224 || m == 243
  }

  predicate HeaderOk(h: Ehdr) {
    h.etype <= 4 && KnownMachine(h.machine) && h.version == 1
  }

  function ReadImage(src: ByteString): Option<Image> {
    var ident :- ReadAt(src, 0, IDENT_SIZE);
    if !IdentOk(ident) then None else
    var is32, little := ident[4] == 1, ident[5] == 1;
    var bytes :- ReadAt(src, 0, EhdrSize(is32));
    var header := DecodeEhdr(bytes, is32, little);
    if HeaderOk(header) then Some(Image(is32, little, header)) else None
  }

  // ----- Sections

  const SHT_SYMTAB: nat := 2
  const SHT_STRTAB: nat := 3

  /** A section header and its name; a name is looked up only where there is a
      section-name table and the header's name offset is not zero. */
  datatype Section = Section(header: Shdr, name: Option<ByteString>)

  function SectionOffset(img: Image, i: nat): int {
    Int64(img.header.shoff) + i * img.header.shentsize
  }

  function ReadShdr(src: ByteString, img: Image, i: nat): Option<Shdr> {
    var bytes :- ReadAt(src, SectionOffset(img, i), ShdrSize(img.is32));
    Some(DecodeShdr(bytes, img.is32, img.little))
  }

  predicate Named(names: int, h: Shdr) {
    names != 0 && h.name != 0
  }

  function NameOf(src: ByteString, names: int, h: Shdr): Option<ByteString> {
    if Named(names, h) then Some(TextAt(src, names + h.name)) else None
  }

  function ReadSection(src: ByteString, img: Image, names: int, i: nat): Option<Section> {
    var h :- ReadShdr(src, img, i);
    Some(Section(h, NameOf(src, names, h)))
  }

  /** The first `k` sections. */
  function ReadSections(src: ByteString, img: Image, names: int, k: nat): (r: Option<seq<Section>>)
    ensures r.Some? ==> |r.value| == k
  {
    if k == 0 then Some([]) else
    var before :- ReadSections(src, img, names, k - 1);
    var section :- ReadSection(src, img, names, k - 1);
    Some(before + [section])
  }

  // ----- What the section scan leaves behind

  /** The converter's four globals that the scan assigns. */
  datatype Scan = Scan(strOff: nat, symOff: int, entSize: nat, numSyms: nat)

  /** The number of symbols without the null symbol, in unsigned 64-bit arithmetic. */
  function SymbolCount(size: nat, entSize: nat): nat {
    if entSize == 0 then 0 else U64(size / entSize - 1)
  }

  function ScanStep(scan: Scan, i: nat, s: Section, img: Image): Scan {
    if s.name.None? then
      scan
    else if s.header.kind == SHT_SYMTAB then
      scan.(symOff := Int32(U64(s.header.offset + SymSize(img.is32))), entSize := s.header.entsize,
            numSyms := SymbolCount(s.header.size, s.header.entsize))
    else if s.header.kind == SHT_STRTAB
            && (s.name.value == Ascii(".strtab") || (scan.strOff == 0 && i != img.header.shstrndx)) then
      scan.(strOff := s.header.offset)
    else
      scan
  }

  function ScanOf(sections: seq<Section>, img: Image): Scan {
    if sections == [] then
      Scan(0, 0, 0, 0)
    else
      var n := |sections| - 1;
      ScanStep(ScanOf(sections[..n], img), n, sections[n], img)
  }

  // ----- Symbols

  datatype Symbol = Symbol(entry: Sym, name: ByteString)

  /** Where the converter looks for its symbol `i`, as an unsigned 64-bit number. */
  function SymbolOffset(scan: Scan, i: nat): nat {
    U64(scan.symOff + U64(i * scan.entSize))
  }

  /** The entry is read only if its offset survives the passage through `int32`;
      an offset that becomes negative there cannot be sought. */
  function ReadSym(src: ByteString, img: Image, scan: Scan, i: nat): Option<Sym> {
    var at := SymbolOffset(scan, i);
    if U64(Int32(at)) != at then None else
    var bytes :- ReadAt(src, Int32(at), SymSize(img.is32));
    Some(DecodeSym(bytes, img.is32, img.little))
  }

  function ReadSymbol(src: ByteString, img: Image, scan: Scan, i: nat): Option<Symbol> {
    var entry :- ReadSym(src, img, scan, i);
    Some(Symbol(entry, TextAt(src, scan.strOff + entry.name)))
  }

  function ReadSymbols(src: ByteString, img: Image, scan: Scan, k: nat): (r: Option<seq<Symbol>>)
    ensures r.Some? ==> |r.value| == k
  {
    if k == 0 then Some([]) else
    var before :- ReadSymbols(src, img, scan, k - 1);
    var symbol :- ReadSymbol(src, img, scan, k - 1);
    Some(before + [symbol])
  }

  // ----- The whole object

  datatype Object = Object(image: Image, sections: seq<Section>, scan: Scan, symbols: seq<Symbol>)

  /** Where section names are kept. */
  function NamesOffset(src: ByteString, img: Image): Option<int> {
    var h :- ReadShdr(src, img, img.header.shstrndx);
    Some(Int64(h.offset))
  }

  function ReadAllSections(src: ByteString, img: Image): Option<seq<Section>> {
    var names :- NamesOffset(src, img);
    if img.header.shnum == 0 then None else ReadSections(src, img, names, img.header.shnum)
  }

  function ReadObject(src: ByteString): Option<Object> {
    var img :- ReadImage(src);
    var sections :- ReadAllSections(src, img);
    var scan := ScanOf(sections, img);
    if scan.strOff == 0 || scan.numSyms == 0 then None else
    var symbols :- ReadSymbols(src, img, scan, scan.numSyms);
    Some(Object(img, sections, scan, symbols))
  }
}
