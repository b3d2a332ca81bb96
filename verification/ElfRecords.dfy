/**
  The ELF file header, section header and symbol table entry in both word sizes
  (tools/elf2cfetbl/ELF_Structures.h), and the converter's whole-record swaps.
 */
module ElfRecords {
  import opened Bytes
  import opened Endian
  import opened Records

  // ----- Layouts

  const IDENT_SIZE: nat := 16

  function EhdrSize(is32: bool): nat {
    if is32 then 52 else 64
  }

  function ShdrSize(is32: bool): nat {
    if is32 then 40 else 64
  }

  function SymSize(is32: bool): nat {
    if is32 then 16 else 24
  }

  // type, machine, version, entry, phoff, shoff, flags, ehsize, phentsize,
  // phnum, shentsize, shnum, shstrndx; e_ident stands before them.
  function EhdrLayout(is32: bool): Layout {
    if is32 then
      [Field(16, 2), Field(18, 2), Field(20, 4), Field(24, 4), Field(28, 4), Field(32, 4), Field(36, 4),
       Field(40, 2), Field(42, 2), Field(44, 2), Field(46, 2), Field(48, 2), Field(50, 2)]
    else
      [Field(16, 2), Field(18, 2), Field(20, 4), Field(24, 8), Field(32, 8), Field(40, 8), Field(48, 4),
       Field(52, 2), Field(54, 2), Field(56, 2), Field(58, 2), Field(60, 2), Field(62, 2)]
  }

  // name, type, flags, addr, offset, size, link, info, addralign, entsize
  function ShdrLayout(is32: bool): Layout {
    if is32 then
      [Field(0, 4), Field(4, 4), Field(8, 4), Field(12, 4), Field(16, 4),
       Field(20, 4), Field(24, 4), Field(28, 4), Field(32, 4), Field(36, 4)]
    else
      [Field(0, 4), Field(4, 4), Field(8, 8), Field(16, 8), Field(24, 8),
       Field(32, 8), Field(40, 4), Field(44, 4), Field(48, 8), Field(56, 8)]
  }

  // 32 bit: name, value, size, info, other, shndx
  // 64 bit: name, info, other, shndx, value, size
  function SymLayout(is32: bool): Layout {
    if is32 then
      [Field(0, 4), Field(4, 4), Field(8, 4), Field(12, 1), Field(13, 1), Field(14, 2)]
    else
      [Field(0, 4), Field(4, 1), Field(5, 1), Field(6, 2), Field(8, 8), Field(16, 8)]
  }

  lemma EhdrContiguous(is32: bool)
    ensures Contiguous(EhdrLayout(is32), IDENT_SIZE, EhdrSize(is32)) && Packed(EhdrLayout(is32), EhdrSize(is32))
  {
    ContiguousPacked(EhdrLayout(is32), IDENT_SIZE, EhdrSize(is32));
  }

  lemma ShdrContiguous(is32: bool)
    ensures Contiguous(ShdrLayout(is32), 0, ShdrSize(is32)) && Packed(ShdrLayout(is32), ShdrSize(is32))
  {
    ContiguousPacked(ShdrLayout(is32), 0, ShdrSize(is32));
  }

  lemma SymContiguous(is32: bool)
    ensures Contiguous(SymLayout(is32), 0, SymSize(is32)) && Packed(SymLayout(is32), SymSize(is32))
  {
    ContiguousPacked(SymLayout(is32), 0, SymSize(is32));
  }

  // ----- Reading

  datatype Ehdr = Ehdr(
    etype: nat, machine: nat, version: nat, entry: nat, phoff: nat, shoff: nat, flags: nat,
    ehsize: nat, phentsize: nat, phnum: nat, shentsize: nat, shnum: nat, shstrndx: nat)

  datatype Shdr = Shdr(
    name: nat, kind: nat, flags: nat, addr: nat, offset: nat, size: nat,
    link: nat, info: nat, addralign: nat, entsize: nat)

  datatype Sym = Sym(name: nat, value: nat, size: nat, info: nat, other: nat, shndx: nat)

  function EhdrOf(v: seq<nat>): Ehdr
    requires |v| == 13
  {
    Ehdr(v[0], v[1], v[2], v[3], v[4], v[5], v[6], v[7], v[8], v[9], v[10], v[11], v[12])
  }

  function ShdrOf(v: seq<nat>): Shdr
    requires |v| == 10
  {
    Shdr(v[0], v[1], v[2], v[3], v[4], v[5], v[6], v[7], v[8], v[9])
  }

  function SymOf(v: seq<nat>, is32: bool): Sym
    requires |v| == 6
  {
    if is32 then Sym(v[0], v[1], v[2], v[3], v[4], v[5]) else Sym(v[0], v[4], v[5], v[1], v[2], v[3])
  }

  function DecodeEhdr(s: ByteString, is32: bool, little: bool): Ehdr
    requires |s| >= EhdrSize(is32)
  {
    EhdrContiguous(is32);
    EhdrOf(Values(s, EhdrLayout(is32), little))
  }

  function DecodeShdr(s: ByteString, is32: bool, little: bool): Shdr
    requires |s| >= ShdrSize(is32)
  {
    ShdrContiguous(is32);
    ShdrOf(Values(s, ShdrLayout(is32), little))
  }

  function DecodeSym(s: ByteString, is32: bool, little: bool): Sym
    requires |s| >= SymSize(is32)
  {
    SymContiguous(is32);
    SymOf(Values(s, SymLayout(is32), little), is32)
  }

  /** What an address, an offset or a size stays below. */
  function Word(is32: bool): nat {
    if is32 then TWO_32 else TWO_64
  }

  lemma ShdrOffsetBound(s: ByteString, is32: bool, little: bool)
    requires |s| >= ShdrSize(is32)
    ensures DecodeShdr(s, is32, little).offset < Word(is32)
  {
    hide Value, Pow256;
    ShdrContiguous(is32);
    ValueBound(Slice(s, ShdrLayout(is32)[4]), little);
    Pow256Values();
  }

  lemma SymValueBound(s: ByteString, is32: bool, little: bool)
    requires |s| >= SymSize(is32)
    ensures DecodeSym(s, is32, little).value < Word(is32)
  {
    hide Value, Pow256;
    SymContiguous(is32);
    ValueBound(Slice(s, SymLayout(is32)[if is32 then 1 else 4]), little);
    Pow256Values();
  }

  // ----- Swapping a whole record

  predicate Wide(f: Field) {
    f.width == 2 || f.width == 4 || f.width == 8
  }

  predicate Swappable(layout: Layout, i: nat, size: nat) {
    i < |layout| && Wide(layout[i]) && layout[i].at + layout[i].width <= size
  }

  /** Swap field `i`, of two, four or eight bytes, after those of `order`. */
  method SwapField(p: array<Byte>, layout: Layout, i: nat, ghost a: ByteString, ghost order: seq<nat>)
    returns (ghost next: seq<nat>)
    requires Swappable(layout, i, p.Length) && p[..] == FlipAll(a, layout, order)
    modifies p
    ensures next == order + [i] && p[..] == FlipAll(a, layout, next)
  {
    ghost var b := p[..];
    if layout[i].width == 2 {
      SwapUInt16(p, layout[i].at);
    } else if layout[i].width == 4 {
      SwapUInt32(p, layout[i].at);
    } else {
      SwapUInt64(p, layout[i].at);
    }
    FlippedIsFlipAt(b, p[..], layout[i]);
    FlipAllSnoc(a, layout, order, i);
    next := order + [i];
  }

  /** Four fields, one after the other. */
  method SwapFields(p: array<Byte>, layout: Layout, i: nat, j: nat, k: nat, l: nat,
                    ghost a: ByteString, ghost order: seq<nat>)
    returns (ghost next: seq<nat>)
    requires Swappable(layout, i, p.Length) && Swappable(layout, j, p.Length)
    requires Swappable(layout, k, p.Length) && Swappable(layout, l, p.Length)
    requires p[..] == FlipAll(a, layout, order)
    modifies p
    ensures next == order + [i] + [j] + [k] + [l] && p[..] == FlipAll(a, layout, next)
  {
    next := SwapField(p, layout, i, a, order);
    next := SwapField(p, layout, j, a, next);
    next := SwapField(p, layout, k, a, next);
    next := SwapField(p, layout, l, a, next);
  }

  lemma ThirteenComplete(layout: Layout, order: seq<nat>)
    requires |layout| == 13
    requires order == [] + [0] + [1] + [2] + [3] + [4] + [5] + [6] + [7] + [8] + [9] + [10] + [11] + [12]
    ensures Complete(layout, order)
  {
    assert order == [0, 1, 2, 3, 4, 5, 6, 7, 8, 9, 10, 11, 12];
    InOrder(layout, order);
  }

  lemma InOrder(layout: Layout, order: seq<nat>)
    requires |layout| == |order| && forall i :: 0 <= i < |order| ==> order[i] == i
    ensures Complete(layout, order)
  {
    forall i: nat | i < |layout|
      ensures i in order
    {
      assert order[i] == i;
    }
  }

  method SwapElfHeader(p: array<Byte>, is32: bool)
    requires p.Length >= EhdrSize(is32)
    modifies p
    ensures SwappedRecord(old(p[..]), p[..], EhdrLayout(is32), EhdrSize(is32))
  {
    EhdrContiguous(is32);
    SwapThirteen(p, EhdrLayout(is32), EhdrSize(is32));
  }

  method SwapThirteen(p: array<Byte>, layout: Layout, ghost size: nat)
    requires |layout| == 13 && size <= p.Length && Packed(layout, size)
    requires forall i: nat :: i < 13 ==> Swappable(layout, i, p.Length)
    modifies p
    ensures SwappedRecord(old(p[..]), p[..], layout, size)
  {
    ghost var a, order: seq<nat> := p[..], [];
    order := SwapFields(p, layout, 0, 1, 2, 3, a, order);
    order := SwapFields(p, layout, 4, 5, 6, 7, a, order);
    order := SwapFields(p, layout, 8, 9, 10, 11, a, order);
    order := SwapField(p, layout, 12, a, order);
    ThirteenComplete(layout, order);
    CompleteSwaps(a, layout, size, order);
  }

  method SwapSectionHeader(p: array<Byte>, is32: bool)
    requires p.Length >= ShdrSize(is32)
    modifies p
    ensures SwappedRecord(old(p[..]), p[..], ShdrLayout(is32), ShdrSize(is32))
  {
    ShdrContiguous(is32);
    SwapTen(p, ShdrLayout(is32), ShdrSize(is32));
  }

  lemma TenComplete(layout: Layout, order: seq<nat>)
    requires |layout| == 10
    requires order == [] + [0] + [1] + [2] + [3] + [4] + [5] + [8] + [9] + [6] + [7]
    ensures Complete(layout, order)
  {
    assert order == [0, 1, 2, 3, 4, 5, 8, 9, 6, 7];
    forall i: nat | i < |layout|
      ensures i in order
    {
      assert order[if i < 6 then i else if i < 8 then i + 2 else i - 2] == i;
    }
  }

  // The source swaps sh_addralign and sh_entsize before sh_link and sh_info.
  method SwapTen(p: array<Byte>, layout: Layout, ghost size: nat)
    requires |layout| == 10 && size <= p.Length && Packed(layout, size)
    requires forall i: nat :: i < 10 ==> Swappable(layout, i, p.Length)
    modifies p
    ensures SwappedRecord(old(p[..]), p[..], layout, size)
  {
    ghost var a, order: seq<nat> := p[..], [];
    order := SwapFields(p, layout, 0, 1, 2, 3, a, order);
    order := SwapFields(p, layout, 4, 5, 8, 9, a, order);
    order := SwapField(p, layout, 6, a, order);
    order := SwapField(p, layout, 7, a, order);
    TenComplete(layout, order);
    CompleteSwaps(a, layout, size, order);
  }

  lemma FourComplete(is32: bool, layout: Layout, order: seq<nat>)
    requires layout == SymLayout(is32) && order == if is32 then [0, 1, 2, 5] else [0, 4, 5, 3]
    ensures Complete(layout, order)
  {}

  method SwapSymbol(p: array<Byte>, is32: bool)
    requires p.Length >= SymSize(is32)
    modifies p
    ensures SwappedRecord(old(p[..]), p[..], SymLayout(is32), SymSize(is32))
  {
    SymContiguous(is32);
    var layout := SymLayout(is32);
    ghost var a, order: seq<nat> := p[..], [];
    if is32 {
      order := SwapFields(p, layout, 0, 1, 2, 5, a, order);
    } else {
      order := SwapFields(p, layout, 0, 4, 5, 3, a, order);
    }
    FourComplete(is32, layout, order);
    CompleteSwaps(a, layout, SymSize(is32), order);
  }
}
