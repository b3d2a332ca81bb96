/**
  Writing the records of an object file in either word size and byte order, and
  that they read back.
 */
module ElfEncode {
  import opened Bytes
  import opened Endian
  import opened Records
  import opened ElfRecords

  datatype Format = Format(is32: bool, little: bool)

  function EhdrValues(h: Ehdr): (vs: seq<nat>)
    ensures |vs| == 13 && EhdrOf(vs) == h
  {
    [h.etype, h.machine, h.version, h.entry, h.phoff, h.shoff, h.flags,
     h.ehsize, h.phentsize, h.phnum, h.shentsize, h.shnum, h.shstrndx]
  }

  function ShdrValues(h: Shdr): (vs: seq<nat>)
    ensures |vs| == 10 && ShdrOf(vs) == h
  {
    [h.name, h.kind, h.flags, h.addr, h.offset, h.size, h.link, h.info, h.addralign, h.entsize]
  }

  function SymValues(s: Sym, is32: bool): (vs: seq<nat>)
    ensures |vs| == 6 && SymOf(vs, is32) == s
  {
    if is32 then [s.name, s.value, s.size, s.info, s.other, s.shndx]
    else [s.name, s.info, s.other, s.shndx, s.value, s.size]
  }

  predicate EhdrFits(h: Ehdr, is32: bool) {
    && h.etype < 0x1_0000 && h.machine < 0x1_0000 && h.version < TWO_32 && h.flags < TWO_32
    && h.entry < Word(is32) && h.phoff < Word(is32) && h.shoff < Word(is32)
    && h.ehsize < 0x1_0000 && h.phentsize < 0x1_0000 && h.phnum < 0x1_0000
    && h.shentsize < 0x1_0000 && h.shnum < 0x1_0000 && h.shstrndx < 0x1_0000
  }

  predicate ShdrFits(h: Shdr, is32: bool) {
    && h.name < TWO_32 && h.kind < TWO_32 && h.link < TWO_32 && h.info < TWO_32
    && h.flags < Word(is32) && h.addr < Word(is32) && h.offset < Word(is32)
    && h.size < Word(is32) && h.addralign < Word(is32) && h.entsize < Word(is32)
  }

  predicate SymFits(s: Sym, is32: bool) {
    && s.name < TWO_32 && s.info < 0x100 && s.other < 0x100 && s.shndx < 0x1_0000
    && s.value < Word(is32) && s.size < Word(is32)
  }

  function Ident(f: Format): (r: ByteString)
    ensures |r| == IDENT_SIZE
  {
    [0x7F, 0x45, 0x4C, 0x46, if f.is32 then 1 else 2, if f.little then 1 else 2, 1] + Repeat(0, 9)
  }

  function EncodeEhdr(h: Ehdr, f: Format): (r: ByteString)
    ensures |r| == EhdrSize(f.is32)
  {
    EhdrContiguous(f.is32);
    EncodeFieldsLength(EhdrValues(h), EhdrLayout(f.is32), IDENT_SIZE, EhdrSize(f.is32), f.little);
    Ident(f) + EncodeFields(EhdrValues(h), EhdrLayout(f.is32), f.little)
  }

  function EncodeShdr(h: Shdr, f: Format): (r: ByteString)
    ensures |r| == ShdrSize(f.is32)
  {
    ShdrContiguous(f.is32);
    EncodeFieldsLength(ShdrValues(h), ShdrLayout(f.is32), 0, ShdrSize(f.is32), f.little);
    EncodeFields(ShdrValues(h), ShdrLayout(f.is32), f.little)
  }

  function EncodeSym(s: Sym, f: Format): (r: ByteString)
    ensures |r| == SymSize(f.is32)
  {
    SymContiguous(f.is32);
    EncodeFieldsLength(SymValues(s, f.is32), SymLayout(f.is32), 0, SymSize(f.is32), f.little);
    EncodeFields(SymValues(s, f.is32), SymLayout(f.is32), f.little)
  }

  lemma EhdrValuesFit(h: Ehdr, is32: bool)
    requires EhdrFits(h, is32)
    ensures Fit(EhdrValues(h), EhdrLayout(is32))
  {
    hide Pow256;
    Pow256Values();
  }

  lemma ShdrValuesFit(h: Shdr, is32: bool)
    requires ShdrFits(h, is32)
    ensures Fit(ShdrValues(h), ShdrLayout(is32))
  {
    hide Pow256;
    Pow256Values();
  }

  lemma SymValuesFit(s: Sym, is32: bool)
    requires SymFits(s, is32)
    ensures Fit(SymValues(s, is32), SymLayout(is32))
  {
    hide Pow256;
    Pow256Values();
  }

  lemma EhdrRoundTrip(h: Ehdr, f: Format)
    requires EhdrFits(h, f.is32)
    ensures DecodeEhdr(EncodeEhdr(h, f), f.is32, f.little) == h
  {
    hide EhdrLayout, EncodeFields, Ident, EhdrFits, EhdrValues, EhdrOf;
    var s := EncodeEhdr(h, f);
    EhdrValuesFit(h, f.is32);
    EhdrContiguous(f.is32);
    assert s[IDENT_SIZE..EhdrSize(f.is32)] == EncodeFields(EhdrValues(h), EhdrLayout(f.is32), f.little);
    ReadBack(s, EhdrValues(h), EhdrLayout(f.is32), IDENT_SIZE, EhdrSize(f.is32), f.little);
  }

  lemma ShdrRoundTrip(h: Shdr, f: Format)
    requires ShdrFits(h, f.is32)
    ensures DecodeShdr(EncodeShdr(h, f), f.is32, f.little) == h
  {
    hide ShdrLayout, EncodeFields, ShdrFits, ShdrValues, ShdrOf;
    var s := EncodeShdr(h, f);
    ShdrValuesFit(h, f.is32);
    ShdrContiguous(f.is32);
    assert s[0..ShdrSize(f.is32)] == s;
    ReadBack(s, ShdrValues(h), ShdrLayout(f.is32), 0, ShdrSize(f.is32), f.little);
  }

  lemma SymRoundTrip(s: Sym, f: Format)
    requires SymFits(s, f.is32)
    ensures DecodeSym(EncodeSym(s, f), f.is32, f.little) == s
  {
    hide SymLayout, EncodeFields, SymFits, SymValues, SymOf;
    var t := EncodeSym(s, f);
    SymValuesFit(s, f.is32);
    SymContiguous(f.is32);
    assert t[0..SymSize(f.is32)] == t;
    ReadBack(t, SymValues(s, f.is32), SymLayout(f.is32), 0, SymSize(f.is32), f.little);
  }
}
