/**
  Reading back a file header and a table of section headers that stand where the
  file header says.
 */
module SectionFiles {
  import opened Bytes
  import opened Endian
  import opened ElfRecords
  import opened Elf
  import opened Pieces
  import opened ElfEncode

  lemma HeaderStands(file: ByteString, h: Ehdr, f: Format)
    requires At(file, 0, EncodeEhdr(h, f)) && EhdrFits(h, f.is32) && HeaderOk(h)
    ensures ReadImage(file) == Some(Image(f.is32, f.little, h))
  {
    hide EncodeEhdr, DecodeEhdr, HeaderOk, EhdrFits;
    var bytes := EncodeEhdr(h, f);
    AtReads(file, 0, bytes);
    IdentFirst(h, f);
    AtInside(file, 0, bytes, 0, Ident(f));
    AtReads(file, 0, Ident(f));
    EhdrRoundTrip(h, f);
  }

  lemma IdentFirst(h: Ehdr, f: Format)
    ensures At(EncodeEhdr(h, f), 0, Ident(f))
  {}

  /** Wherever the file header puts the section header table, and however far apart
      its entries are, a header encoded there is the one read. */
  lemma HeaderAt(file: ByteString, img: Image, f: Format, i: nat, h: Shdr)
    requires img.is32 == f.is32 && img.little == f.little && img.header.shoff < TWO_63
    requires At(file, img.header.shoff + i * img.header.shentsize, EncodeShdr(h, f)) && ShdrFits(h, f.is32)
    ensures ReadShdr(file, img, i) == Some(h)
  {
    hide DecodeShdr, EncodeShdr, ShdrFits;
    ShdrRoundTrip(h, f);
    AtReads(file, img.header.shoff + i * img.header.shentsize, EncodeShdr(h, f));
  }

  /** A table of section headers without gaps stands where the file header says. */
  ghost predicate TableStands(file: ByteString, img: Image, f: Format, parts: seq<ByteString>) {
    && img.is32 == f.is32 && img.little == f.little && img.header.shoff < TWO_63
    && img.header.shentsize == ShdrSize(f.is32)
    && (forall j :: 0 <= j < |parts| ==> |parts[j]| == ShdrSize(f.is32))
    && At(file, img.header.shoff, Concat(parts))
  }

  lemma ShdrStands(file: ByteString, img: Image, f: Format, parts: seq<ByteString>, i: nat, h: Shdr)
    requires TableStands(file, img, f, parts) && i < |parts|
    requires parts[i] == EncodeShdr(h, f) && ShdrFits(h, f.is32)
    ensures ReadShdr(file, img, i) == Some(h)
  {
    hide Concat, EncodeShdr, ShdrFits, ReadShdr;
    StandsBelow(file, img.header.shoff, parts, i);
    UniformStart(parts, ShdrSize(f.is32), i);
    HeaderAt(file, img, f, i, h);
  }
}
