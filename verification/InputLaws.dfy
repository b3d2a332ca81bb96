/**
  The object file byte by byte, at the offsets the ELF format gives: which file
  headers are accepted, where the section headers stand and what their fields are,
  and where names are looked up.
 */
module InputLaws {
  import opened Bytes
  import opened Endian
  import opened Records
  import opened ElfRecords
  import opened Elf
  import opened TableLaws

  // ----- Fields at their offsets

  /** The number in the `w` bytes `at` bytes after `p`. */
  function Number(src: ByteString, p: nat, at: nat, w: nat, little: bool): nat {
    if p + at + w <= |src| then Value(src[p + at..p + at + w], little) else 0
  }

  /** Field `i` of a record of `size` bytes that stands in `src` at `p`. */
  lemma FieldAt(src: ByteString, p: nat, size: nat, layout: Layout, i: nat, little: bool)
    requires p + size <= |src| && i < |layout|
    requires forall f :: f in layout ==> f.at + f.width <= size
    ensures Values(src[p..p + size], layout, little)[i] == Number(src, p, layout[i].at, layout[i].width, little)
  {
    hide Value;
    var f := layout[i];
    var a, b := src[p..p + size][f.at..f.at + f.width], src[p + f.at..p + f.at + f.width];
    forall k | 0 <= k < |a|
      ensures a[k] == b[k]
    {
      assert a[k] == src[p..p + size][f.at + k] == src[p + (f.at + k)];
      assert b[k] == src[(p + f.at) + k];
    }
    assert a == b;
  }

  /** The file header that stands in a file at `p`. */
  ghost predicate EhdrAt(src: ByteString, p: nat, h: Ehdr, is32: bool, little: bool) {
    if is32 then
      && p + 52 <= |src|
      && h.etype == Number(src, p, 16, 2, little) && h.machine == Number(src, p, 18, 2, little)
      && h.version == Number(src, p, 20, 4, little) && h.entry == Number(src, p, 24, 4, little)
      && h.phoff == Number(src, p, 28, 4, little) && h.shoff == Number(src, p, 32, 4, little)
      && h.flags == Number(src, p, 36, 4, little) && h.ehsize == Number(src, p, 40, 2, little)
      && h.phentsize == Number(src, p, 42, 2, little) && h.phnum == Number(src, p, 44, 2, little)
      && h.shentsize == Number(src, p, 46, 2, little) && h.shnum == Number(src, p, 48, 2, little)
      && h.shstrndx == Number(src, p, 50, 2, little)
    else
      && p + 64 <= |src|
      && h.etype == Number(src, p, 16, 2, little) && h.machine == Number(src, p, 18, 2, little)
      && h.version == Number(src, p, 20, 4, little) && h.entry == Number(src, p, 24, 8, little)
      && h.phoff == Number(src, p, 32, 8, little) && h.shoff == Number(src, p, 40, 8, little)
      && h.flags == Number(src, p, 48, 4, little) && h.ehsize == Number(src, p, 52, 2, little)
      && h.phentsize == Number(src, p, 54, 2, little) && h.phnum == Number(src, p, 56, 2, little)
      && h.shentsize == Number(src, p, 58, 2, little) && h.shnum == Number(src, p, 60, 2, little)
      && h.shstrndx == Number(src, p, 62, 2, little)
  }

  /** The section header that stands in a file at `p`. */
  ghost predicate ShdrAt(src: ByteString, p: nat, h: Shdr, is32: bool, little: bool) {
    if is32 then
      && p + 40 <= |src|
      && h.name == Number(src, p, 0, 4, little) && h.kind == Number(src, p, 4, 4, little)
      && h.flags == Number(src, p, 8, 4, little) && h.addr == Number(src, p, 12, 4, little)
      && h.offset == Number(src, p, 16, 4, little) && h.size == Number(src, p, 20, 4, little)
      && h.link == Number(src, p, 24, 4, little) && h.info == Number(src, p, 28, 4, little)
      && h.addralign == Number(src, p, 32, 4, little) && h.entsize == Number(src, p, 36, 4, little)
    else
      && p + 64 <= |src|
      && h.name == Number(src, p, 0, 4, little) && h.kind == Number(src, p, 4, 4, little)
      && h.flags == Number(src, p, 8, 8, little) && h.addr == Number(src, p, 16, 8, little)
      && h.offset == Number(src, p, 24, 8, little) && h.size == Number(src, p, 32, 8, little)
      && h.link == Number(src, p, 40, 4, little) && h.info == Number(src, p, 44, 4, little)
      && h.addralign == Number(src, p, 48, 8, little) && h.entsize == Number(src, p, 56, 8, little)
  }

  /** The symbol that stands in a file at `p`. */
  ghost predicate SymAt(src: ByteString, p: nat, s: Sym, is32: bool, little: bool) {
    if is32 then
      && p + 16 <= |src|
      && s.name == Number(src, p, 0, 4, little) && s.value == Number(src, p, 4, 4, little)
      && s.size == Number(src, p, 8, 4, little) && s.info == Number(src, p, 12, 1, little)
      && s.other == Number(src, p, 13, 1, little) && s.shndx == Number(src, p, 14, 2, little)
    else
      && p + 24 <= |src|
      && s.name == Number(src, p, 0, 4, little) && s.info == Number(src, p, 4, 1, little)
      && s.other == Number(src, p, 5, 1, little) && s.shndx == Number(src, p, 6, 2, little)
      && s.value == Number(src, p, 8, 8, little) && s.size == Number(src, p, 16, 8, little)
  }

  /** `v` are the numbers in the fields of a record that stands in a file at `p`. */
  ghost predicate AreFields(v: seq<nat>, src: ByteString, p: nat, layout: Layout, little: bool) {
    && |v| == |layout|
    && forall i {:trigger v[i]} :: 0 <= i < |v| ==> v[i] == Number(src, p, layout[i].at, layout[i].width, little)
  }

  lemma ValuesAreFields(src: ByteString, p: nat, size: nat, layout: Layout, little: bool)
    requires p + size <= |src| && forall f :: f in layout ==> f.at + f.width <= size
    ensures AreFields(Values(src[p..p + size], layout, little), src, p, layout, little)
  {
    hide Number, Values;
    var v := Values(src[p..p + size], layout, little);
    forall i: nat {:trigger v[i]} | i < |layout|
      ensures v[i] == Number(src, p, layout[i].at, layout[i].width, little)
    {
      FieldAt(src, p, size, layout, i, little);
    }
  }

  lemma EhdrFields(v: seq<nat>, src: ByteString, p: nat, is32: bool, little: bool)
    requires p + EhdrSize(is32) <= |src| && AreFields(v, src, p, EhdrLayout(is32), little) && |v| == 13
    ensures EhdrAt(src, p, EhdrOf(v), is32, little)
  {
    hide Number;
    if is32 {} else {}
  }

  lemma DecodedEhdr(src: ByteString, p: nat, is32: bool, little: bool)
    requires p + EhdrSize(is32) <= |src|
    ensures EhdrAt(src, p, DecodeEhdr(src[p..p + EhdrSize(is32)], is32, little), is32, little)
  {
    hide Values, AreFields, EhdrAt, EhdrOf;
    EhdrContiguous(is32);
    ValuesAreFields(src, p, EhdrSize(is32), EhdrLayout(is32), little);
    EhdrFields(Values(src[p..p + EhdrSize(is32)], EhdrLayout(is32), little), src, p, is32, little);
  }

  lemma ShdrFields(v: seq<nat>, src: ByteString, p: nat, is32: bool, little: bool)
    requires p + ShdrSize(is32) <= |src| && AreFields(v, src, p, ShdrLayout(is32), little) && |v| == 10
    ensures ShdrAt(src, p, ShdrOf(v), is32, little)
  {
    hide Number;
    if is32 {} else {}
  }

  lemma DecodedShdr(src: ByteString, p: nat, is32: bool, little: bool)
    requires p + ShdrSize(is32) <= |src|
    ensures ShdrAt(src, p, DecodeShdr(src[p..p + ShdrSize(is32)], is32, little), is32, little)
  {
    hide Values, AreFields, ShdrAt, ShdrOf;
    ShdrContiguous(is32);
    ValuesAreFields(src, p, ShdrSize(is32), ShdrLayout(is32), little);
    ShdrFields(Values(src[p..p + ShdrSize(is32)], ShdrLayout(is32), little), src, p, is32, little);
  }

  lemma SymFields(v: seq<nat>, src: ByteString, p: nat, is32: bool, little: bool)
    requires p + SymSize(is32) <= |src| && AreFields(v, src, p, SymLayout(is32), little) && |v| == 6
    ensures SymAt(src, p, SymOf(v, is32), is32, little)
  {
    hide Number;
    if is32 {} else {}
  }

  lemma DecodedSym(src: ByteString, p: nat, is32: bool, little: bool)
    requires p + SymSize(is32) <= |src|
    ensures SymAt(src, p, DecodeSym(src[p..p + SymSize(is32)], is32, little), is32, little)
  {
    hide Values, AreFields, SymAt, SymOf;
    SymContiguous(is32);
    ValuesAreFields(src, p, SymSize(is32), SymLayout(is32), little);
    SymFields(Values(src[p..p + SymSize(is32)], SymLayout(is32), little), src, p, is32, little);
  }

  // ----- Which files are accepted

  /** The machine codes from 0 to 243 but those that the converter's table leaves out. */
  predicate AssignedMachine(m: nat) {
    && m <= 243
    && m != 6 && !(11 <= m <= 14) && m != 16 && !(24 <= m <= 35) && !(121 <= m <= 130) && !(145 <= m <= 159)
    && m != 172 && m != 182 && m != 184 && !(225 <= m <= 242)
  }

  predicate Accepted(src: ByteString) {
    && 52 <= |src| && src[0..4] == [0x7F, 0x45, 0x4C, 0x46]
    && (src[4] == 1 || (src[4] == 2 && 64 <= |src|)) && (src[5] == 1 || src[5] == 2) && src[6] == 1
    && Number(src, 0, 16, 2, src[5] == 1) <= 4
    && AssignedMachine(Number(src, 0, 18, 2, src[5] == 1))
    && Number(src, 0, 20, 4, src[5] == 1) == 1
  }

  /** What a file's first bytes make of its image. */
  lemma ImageIs(src: ByteString)
    ensures ReadImage(src).Some? <==> Accepted(src)
    ensures ReadImage(src).Some? ==>
      var img := ReadImage(src).value;
      img.is32 == (src[4] == 1) && img.little == (src[5] == 1) && EhdrAt(src, 0, img.header, img.is32, img.little)
  {
    hide Number, DecodeEhdr;
    if |src| >= 16 {
      var ident := src[0..16];
      assert ident[0] == src[0] && ident[1] == src[1] && ident[2] == src[2] && ident[3] == src[3];
      assert ident[4] == src[4] && ident[5] == src[5] && ident[6] == src[6];
      assert src[0..4] == [src[0], src[1], src[2], src[3]];
      var is32, little := src[4] == 1, src[5] == 1;
      if EhdrSize(is32) <= |src| {
        DecodedEhdr(src, 0, is32, little);
      }
    }
  }

  // ----- Where the section headers stand

  /** Section header `i` is read exactly where the file header's e_shoff and e_shentsize
      put it, if all of it is there. */
  lemma SectionHeaderIs(src: ByteString, img: Image, i: nat)
    requires img.header.shoff < TWO_63
    ensures var p := img.header.shoff + i * img.header.shentsize;
      && (ReadShdr(src, img, i).Some? <==> p + ShdrSize(img.is32) <= |src|)
      && (ReadShdr(src, img, i).Some? ==> ShdrAt(src, p, ReadShdr(src, img, i).value, img.is32, img.little))
  {
    hide DecodeShdr, ShdrAt;
    var p := img.header.shoff + i * img.header.shentsize;
    if p + ShdrSize(img.is32) <= |src| {
      DecodedShdr(src, p, img.is32, img.little);
    }
  }

  // ----- Names

  /** A name the program can read into its 60-byte array: some zero byte comes within
      60 bytes. */
  lemma NameFits(src: ByteString, at: nat)
    ensures TextFits(src, at) <==> exists k: nat :: at <= k < at + 60 && k < |src| && src[k] == 0
  {
    if at < |src| {
      var t := Terminator(src, at);
      if TextFits(src, at) {
        assert at <= t < at + 60 && t < |src| && src[t] == 0;
      }
      if k: nat :| at <= k < at + 60 && k < |src| && src[k] == 0 {
        assert t <= k;
      }
    }
  }

  /** The sections read are the file header's e_shnum, and their names stand in the
      section that e_shstrndx gives, of which the offset is not zero. */
  lemma SectionsAreNamed(src: ByteString, obj: Object, names: Shdr)
    requires ReadObject(src) == Some(obj) && ReadShdr(src, obj.image, obj.image.header.shstrndx) == Some(names)
    requires names.offset < TWO_63
    ensures |obj.sections| == obj.image.header.shnum > 0
    ensures forall i: nat :: i < |obj.sections| ==>
      && ReadShdr(src, obj.image, i) == Some(obj.sections[i].header)
      && obj.sections[i].name ==
          if names.offset != 0 && obj.sections[i].header.name != 0
          then Some(TextAt(src, names.offset + obj.sections[i].header.name)) else None
  {
    hide ReadImage, ReadShdr, ReadSections, ReadSymbols, ScanOf, TextAt;
    var img := obj.image;
    SectionsEach(src, img, names.offset, img.header.shnum, obj.sections);
    forall i: nat | i < |obj.sections|
      ensures ReadShdr(src, img, i) == Some(obj.sections[i].header)
      ensures obj.sections[i].name == NameOf(src, names.offset, obj.sections[i].header)
    {
      assert ReadSection(src, img, names.offset, i) == Some(obj.sections[i]);
    }
  }

  /** An object that is read has its section names' header, a string table with an
      offset, and as many symbols as the symbol table announces, at least one, with
      names from that string table. */
  lemma SymbolsAreNamed(src: ByteString, obj: Object)
    requires ReadObject(src) == Some(obj)
    ensures ReadShdr(src, obj.image, obj.image.header.shstrndx).Some?
    ensures obj.scan.strOff > 0 && |obj.symbols| == obj.scan.numSyms > 0
    ensures forall i: nat :: i < |obj.symbols| ==>
      obj.symbols[i].name == TextAt(src, obj.scan.strOff + obj.symbols[i].entry.name)
  {
    hide ReadImage, ReadShdr, ReadSections, ReadSymbols, ScanOf, TextAt, ReadSym;
    SymbolsEach(src, obj.image, obj.scan, obj.scan.numSyms, obj.symbols);
    forall i: nat | i < |obj.symbols|
      ensures obj.symbols[i].name == TextAt(src, obj.scan.strOff + obj.symbols[i].entry.name)
    {
      assert ReadSymbol(src, obj.image, obj.scan, i) == Some(obj.symbols[i]);
    }
  }

  /** Symbol `i` of a well-formed object stands in the last named symbol table, one
      entry size after another, behind the null symbol. */
  lemma SymbolStands(src: ByteString, obj: Object, t: nat, n: nat, i: nat, p: nat)
    requires ReadObject(src) == Some(obj) && HasTable(obj, t, n) && i < |obj.symbols|
    requires p == obj.sections[t].header.offset + (i + 1) * obj.sections[t].header.entsize
    ensures SymAt(src, p, obj.symbols[i].entry, obj.image.is32, obj.image.little)
  {
    hide ReadObject, SymAt, DecodeSym;
    SymbolsAreEntries(src, obj, t, n);
    assert EntryAt(src, obj.image, obj.sections[t].header, i + 1) == Some(obj.symbols[i].entry);
    DecodedSym(src, p, obj.image.is32, obj.image.little);
  }
}
