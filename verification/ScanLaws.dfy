/**
  What the section scan and the symbol loop amount to: which string table is
  used, and which entries of the symbol table are read.
 */
module ScanLaws {
  import opened Bytes
  import opened Endian
  import opened ElfRecords
  import opened Elf

  // ----- The string table

  predicate IsStringTable(s: Section) {
    s.name.Some? && s.header.kind == SHT_STRTAB
  }

  predicate IsStrtab(s: Section) {
    IsStringTable(s) && s.name.value == Ascii(".strtab")
  }

  /** A string table the scan falls back on while it has no offset yet. */
  predicate IsFallback(s: Section, i: nat, img: Image) {
    IsStringTable(s) && i != img.header.shstrndx && s.header.offset != 0
  }

  /** The last section called ".strtab"; -1 if there is none. */
  ghost predicate LastStrtab(sections: seq<Section>, l: int) {
    && -1 <= l < |sections|
    && (l >= 0 ==> IsStrtab(sections[l]))
    && forall j :: l < j < |sections| ==> !IsStrtab(sections[j])
  }

  /** The first fallback after section `l`; the number of sections if there is none. */
  ghost predicate FirstFallback(sections: seq<Section>, img: Image, l: int, f: nat) {
    && -1 <= l < f <= |sections|
    && (f < |sections| ==> IsFallback(sections[f], f, img))
    && forall j: nat :: l < j < f ==> !IsFallback(sections[j], j, img)
  }

  lemma StrtabStep(scan: Scan, n: nat, s: Section, img: Image)
    ensures ScanStep(scan, n, s, img).strOff ==
      if IsStrtab(s) then s.header.offset
      else if scan.strOff == 0 && IsFallback(s, n, img) then s.header.offset
      else scan.strOff
  {}

  /** The last ".strtab" wins; if there is none, or it claims offset zero, the
      first other named string table after it with an offset does. */
  lemma {:induction false} StringTableChoice(sections: seq<Section>, img: Image, l: int, f: nat)
    requires LastStrtab(sections, l) && FirstFallback(sections, img, l, f)
    ensures ScanOf(sections, img).strOff ==
      if l >= 0 && sections[l].header.offset != 0 then sections[l].header.offset
      else if f < |sections| then sections[f].header.offset
      else 0
    decreases |sections|
  {
    hide ScanStep, IsStrtab;
    if sections != [] {
      var n := |sections| - 1;
      StrtabStep(ScanOf(sections[..n], img), n, sections[n], img);
      if l < n {
        StringTableChoice(sections[..n], img, l, if f <= n then f else n);
      }
    }
  }

  /** The section the source's comment names: the last ".strtab", or, if there is
      none, the first string table that is not the section names'. */
  ghost predicate CommentNames(sections: seq<Section>, img: Image, c: nat) {
    && c < |sections|
    && (LastStrtab(sections, c)
        || (&& LastStrtab(sections, -1) && IsStringTable(sections[c]) && c != img.header.shstrndx
            && forall j: nat :: j < c && IsStringTable(sections[j]) ==> j == img.header.shstrndx))
  }

  /** The scan follows that comment exactly when the section it names has an offset,
      or no fallback comes after it. */
  lemma CommentedRule(sections: seq<Section>, img: Image, c: nat)
    requires CommentNames(sections, img, c)
    ensures ScanOf(sections, img).strOff == sections[c].header.offset
      <==> sections[c].header.offset != 0
           || forall j: nat :: c < j < |sections| ==> !IsFallback(sections[j], j, img)
  {
    hide ScanOf;
    var l := if LastStrtab(sections, c) then c else -1;
    var f := if l == -1 && sections[c].header.offset != 0 then c else FallbackAfter(sections, img, l, c + 1);
    StringTableChoice(sections, img, l, f);
  }

  ghost function FallbackAfter(sections: seq<Section>, img: Image, l: int, i: nat): (f: nat)
    requires -1 <= l < i <= |sections|
    requires forall j: nat :: l < j < i ==> !IsFallback(sections[j], j, img)
    ensures FirstFallback(sections, img, l, f)
    decreases |sections| - i
  {
    if i == |sections| || IsFallback(sections[i], i, img) then i else FallbackAfter(sections, img, l, i + 1)
  }

  // ----- The symbol table

  predicate IsSymbolTable(s: Section) {
    s.name.Some? && s.header.kind == SHT_SYMTAB
  }

  /** What a symbol table's header makes of the scan. */
  predicate Announces(scan: Scan, h: Shdr, is32: bool) {
    && scan.symOff == Int32(U64(h.offset + SymSize(is32)))
    && scan.entSize == h.entsize
    && scan.numSyms == SymbolCount(h.size, h.entsize)
  }

  /** The last named symbol table is the one that counts. */
  lemma {:induction false} SymbolTableChoice(sections: seq<Section>, img: Image, t: nat)
    requires t < |sections| && IsSymbolTable(sections[t])
    requires forall j :: t < j < |sections| ==> !IsSymbolTable(sections[j])
    ensures Announces(ScanOf(sections, img), sections[t].header, img.is32)
    decreases |sections|
  {
    hide Int32, U64, SymbolCount;
    var n := |sections| - 1;
    if t < n {
      SymbolTableChoice(sections[..n], img, t);
    }
  }

  lemma {:induction false} NoSymbolTable(sections: seq<Section>, img: Image)
    requires forall j :: 0 <= j < |sections| ==> !IsSymbolTable(sections[j])
    ensures ScanOf(sections, img).numSyms == 0
    decreases |sections|
  {
    if sections != [] {
      var n := |sections| - 1;
      NoSymbolTable(sections[..n], img);
    }
  }

  // ----- The entries read

  /** The guard accepts the offsets an `int32` holds, its negative ones as the
      numbers just below 2^64. */
  lemma GuardAccepts(at: nat)
    requires at < TWO_64
    ensures U64(Int32(at)) == at <==> at < TWO_31 || at >= TWO_64 - TWO_31
  {
    hide Int32;
    KeptByInt32(at);
    BackFromInt32(Int32(at));
  }

  lemma KeptByInt32(at: nat)
    requires at < TWO_64
    ensures at < TWO_31 ==> Int32(at) == at
    ensures at >= TWO_64 - TWO_31 ==> Int32(at) == at - TWO_64
  {}

  lemma BackFromInt32(r: int)
    requires -0x8000_0000 <= r < 0x8000_0000
    ensures U64(r) == if r >= 0 then r else r + TWO_64
  {}

  /** The negative ones cannot be sought, so an entry is read only at an offset
      below 2^31. */
  lemma EntryReadBelow(src: ByteString, img: Image, scan: Scan, i: nat)
    ensures ReadSym(src, img, scan, i).Some? ==>
      && SymbolOffset(scan, i) + SymSize(img.is32) <= |src|
      && SymbolOffset(scan, i) < TWO_31
  {
    hide DecodeSym;
    GuardAccepts(SymbolOffset(scan, i));
  }

  /** Where the symbol table's header says the converter's entry `i` is. */
  function TrueOffset(h: Shdr, is32: bool, i: nat): nat {
    h.offset + SymSize(is32) + i * h.entsize
  }

  /** The converter looks there, and its guard lets it, exactly when the offset
      fits in an `int32`. */
  lemma OffsetExact(scan: Scan, h: Shdr, is32: bool, i: nat)
    requires Announces(scan, h, is32) && TrueOffset(h, is32, i) < TWO_63
    ensures SymbolOffset(scan, i) == TrueOffset(h, is32, i) && U64(Int32(SymbolOffset(scan, i))) == SymbolOffset(scan, i)
      <==> TrueOffset(h, is32, i) < TWO_31
  {
    GuardAccepts(SymbolOffset(scan, i));
    OffsetSum(h.offset + SymSize(is32), i * h.entsize, SymbolOffset(scan, i));
  }

  lemma OffsetSum(base: nat, step: nat, at: nat)
    requires base + step < TWO_63 && at == U64(Int32(U64(base)) + U64(step))
    ensures at == base + step && (at < TWO_31 || at >= TWO_64 - TWO_31) <==> base + step < TWO_31
  {
    assert U64(base) == base && U64(step) == step;
    if base < TWO_31 {
      assert Int32(base) == base;
      assert U64(base + step) == base + step;
    }
  }

  /** Whatever offset below 2^31 comes out is the true one, exactly when the table's
      first entry stands below 2^31 or the base that is left of its offset in an
      `int32` does not lead there. */
  lemma ReadOffsetsTrue(scan: Scan, h: Shdr, is32: bool, i: nat)
    requires Announces(scan, h, is32) && TrueOffset(h, is32, i) < TWO_63
    ensures (SymbolOffset(scan, i) < TWO_31 ==> SymbolOffset(scan, i) == TrueOffset(h, is32, i))
      <==> || h.offset + SymSize(is32) < TWO_31
           || !(0 <= Int32(h.offset + SymSize(is32)) + i * h.entsize < TWO_31)
  {
    CutOffset(h.offset + SymSize(is32), i * h.entsize, SymbolOffset(scan, i));
  }

  lemma CutOffset(base: nat, step: nat, at: nat)
    requires base + step < TWO_63 && at == U64(Int32(U64(base)) + U64(step))
    ensures (at < TWO_31 ==> at == base + step) <==> base < TWO_31 || !(0 <= Int32(base) + step < TWO_31)
  {
    assert U64(base) == base && U64(step) == step;
    if base < TWO_31 {
      assert Int32(base) == base;
      assert U64(base + step) == base + step;
    }
  }

  /** The base offset is cut down to 32 bits before the guard sees it: a 64-bit
      table at 2^32 is looked for at the start of the file. */
  lemma OffsetCutDown(scan: Scan, h: Shdr, is32: bool)
    requires Announces(scan, h, is32) && !is32 && h.offset == TWO_32
    ensures SymbolOffset(scan, 0) == SymSize(is32) && U64(Int32(SymbolOffset(scan, 0))) == SymbolOffset(scan, 0)
    ensures SymbolOffset(scan, 0) != TrueOffset(h, is32, 0)
  {
    var size := SymSize(is32);
    assert (TWO_32 + size) % TWO_32 == size;
    assert scan.symOff == size;
    assert U64(0) == 0 && U64(size) == size;
  }

  /** The converter's symbol `i` is entry `i + 1` of the table, for any and all
      `i`, exactly when the entry size is that of the record it reads. */
  lemma EntryIsNext(h: Shdr, is32: bool, i: nat)
    ensures TrueOffset(h, is32, i) == h.offset + (i + 1) * h.entsize <==> h.entsize == SymSize(is32)
  {
    assert (i + 1) * h.entsize == i * h.entsize + h.entsize;
  }

  /** A symbol table of `n` whole entries, all within reach of an `int32`. */
  predicate WellFormedTable(h: Shdr, is32: bool, n: nat) {
    h.entsize == SymSize(is32) && h.size == n * h.entsize && n > 0 && h.offset + h.size < TWO_31
  }

  /** In a well-formed table the loop reads every entry but the null one, each
      once, all within the section: entry `k` of `1 .. n` is read as symbol
      `k - 1`, there are no others, and none reaches past the section's end. */
  lemma EveryEntryOnce(scan: Scan, h: Shdr, is32: bool, n: nat, i: nat)
    requires Announces(scan, h, is32) && WellFormedTable(h, is32, n)
    ensures scan.numSyms == n - 1
    ensures i < scan.numSyms ==>
      && SymbolOffset(scan, i) == h.offset + (i + 1) * h.entsize
      && h.offset + h.entsize <= SymbolOffset(scan, i)
      && SymbolOffset(scan, i) + SymSize(is32) <= h.offset + h.size
  {
    hide SymbolOffset, SymbolCount, Int32, U64;
    WholeEntries(h, is32, n);
    if i < scan.numSyms {
      assert (i + 1) * h.entsize == i * h.entsize + h.entsize;
      Monotone(i + 2, n, h.entsize);
      assert (i + 2) * h.entsize == i * h.entsize + 2 * h.entsize;
      OffsetExact(scan, h, is32, i);
    }
  }

  lemma WholeEntries(h: Shdr, is32: bool, n: nat)
    requires WellFormedTable(h, is32, n)
    ensures SymbolCount(h.size, h.entsize) == n - 1
  {
    if is32 {
      assert n * 16 / 16 == n;
    } else {
      assert n * 24 / 24 == n;
    }
    Monotone(1, n, h.entsize);
  }

  lemma Monotone(a: nat, b: nat, d: nat)
    requires a <= b
    ensures a * d <= b * d
  {}
}
