/**
  Unsigned numbers in either byte order, and the converter's in-place byte
  swaps (tools/elf2cfetbl/elf2cfetbl.c:2187-2239).
 */
module Endian {
  import opened Bytes

  const TWO_31: nat := 0x8000_0000
  const TWO_32: nat := 0x1_0000_0000
  const TWO_63: nat := 0x8000_0000_0000_0000
  const TWO_64: nat := 0x1_0000_0000_0000_0000

  function Pow256(w: nat): nat
    decreases w
  {
    if w == 0 then 1 else 0x100 * Pow256(w - 1)
  }

  lemma Pow256Values()
    ensures Pow256(1) == 0x100 && Pow256(2) == 0x1_0000 && Pow256(4) == TWO_32 && Pow256(8) == TWO_64
  {
    assert Pow256(3) == 0x100_0000 && Pow256(4) == TWO_32;
    assert Pow256(5) == 0x100 * TWO_32 && Pow256(6) == 0x1_0000 * TWO_32;
    assert Pow256(7) == 0x100_0000 * TWO_32;
  }

  /** The number the bytes of `s` stand for. */
  function Value(s: ByteString, little: bool): nat
    decreases |s|
  {
    if s == [] then
      0
    else
      var low: int := if little then s[0] else s[|s| - 1];
      low + 0x100 * Value(if little then s[1..] else s[..|s| - 1], little)
  }

  /** Four bytes in either order. */
  lemma ValueOfFour(a: Byte, b: Byte, c: Byte, d: Byte)
    ensures Value([a, b, c, d], true) == a + 0x100 * b + 0x1_0000 * c + 0x100_0000 * d
    ensures Value([a, b, c, d], false) == d + 0x100 * c + 0x1_0000 * b + 0x100_0000 * a
  {
    assert [a, b, c, d][1..] == [b, c, d] && [b, c, d][1..] == [c, d] && [c, d][1..] == [d] && [d][1..] == [];
    assert [a, b, c, d][..3] == [a, b, c] && [a, b, c][..2] == [a, b] && [a, b][..1] == [a] && [a][..0] == [];
    assert Value([c, d], true) == c + 0x100 * Value([d], true);
    assert Value([a, b], false) == b + 0x100 * Value([a], false);
  }

  /** The `w` bytes that stand for `v`. */
  function Encode(v: nat, w: nat, little: bool): (s: ByteString)
    ensures |s| == w
    decreases w
  {
    if w == 0 then []
    else if little then [v % 0x100] + Encode(v / 0x100, w - 1, little)
    else Encode(v / 0x100, w - 1, little) + [v % 0x100]
  }

  function Reversed(s: ByteString): (r: ByteString)
    ensures |r| == |s|
  {
    seq(|s|, k requires 0 <= k < |s| => s[|s| - 1 - k])
  }

  lemma {:induction false} ValueBound(s: ByteString, little: bool)
    ensures Value(s, little) < Pow256(|s|)
    decreases |s|
  {
    if s != [] {
      ValueBound(if little then s[1..] else s[..|s| - 1], little);
    }
  }

  /** Reading back what was written. */
  lemma {:induction false} ValueOfEncode(v: nat, w: nat, little: bool)
    requires v < Pow256(w)
    ensures Value(Encode(v, w, little), little) == v
    decreases w
  {
    if w > 0 {
      ValueOfEncode(v / 0x100, w - 1, little);
      var s, tail := Encode(v, w, little), Encode(v / 0x100, w - 1, little);
      assert (if little then s[1..] else s[..|s| - 1]) == tail;
    }
  }

  /** Reversed bytes read in one order are the bytes read in the other. */
  lemma {:induction false} ValueOfReversed(s: ByteString, little: bool)
    ensures Value(Reversed(s), little) == Value(s, !little)
    decreases |s|
  {
    if s != [] {
      var n, r := |s| - 1, Reversed(s);
      if little {
        assert r[1..] == Reversed(s[..n]);
        ValueOfReversed(s[..n], little);
      } else {
        assert r[..n] == Reversed(s[1..]);
        ValueOfReversed(s[1..], little);
      }
    }
  }

  lemma {:induction false} EncodeReversed(v: nat, w: nat, little: bool)
    ensures Reversed(Encode(v, w, little)) == Encode(v, w, !little)
    decreases w
  {
    if w > 0 {
      EncodeReversed(v / 0x100, w - 1, little);
    }
  }

  // ----- Swapping in place

  /** `b` is `a` with the `w` bytes from `at` on in reverse order. */
  ghost predicate Flipped(a: ByteString, b: ByteString, at: nat, w: nat) {
    && at + w <= |a| == |b|
    && (forall k :: 0 <= k < |a| && !(at <= k < at + w) ==> b[k] == a[k])
    && (forall k :: at <= k < at + w ==> b[k] == a[2 * at + w - 1 - k])
  }

  /** Swapping twice restores the bytes. */
  lemma FlipTwice(a: ByteString, b: ByteString, c: ByteString, at: nat, w: nat)
    requires Flipped(a, b, at, w) && Flipped(b, c, at, w)
    ensures a == c
  {}

  lemma FlippedSlice(a: ByteString, b: ByteString, at: nat, w: nat)
    requires Flipped(a, b, at, w)
    ensures b[at..at + w] == Reversed(a[at..at + w])
  {}

  // The three-line exchange the source repeats for each pair of bytes.
  method Exchange(p: array<Byte>, i: nat, j: nat)
    requires i < p.Length && j < p.Length
    modifies p
    ensures p[..] == old(p[..])[i := old(p[j])][j := old(p[i])]
  {
    var tempByte := p[j];
    p[j] := p[i];
    p[i] := tempByte;
  }

  method SwapUInt16(p: array<Byte>, at: nat)
    requires at + 2 <= p.Length
    modifies p
    ensures Flipped(old(p[..]), p[..], at, 2)
  {
    Exchange(p, at, at + 1);
  }

  method SwapUInt32(p: array<Byte>, at: nat)
    requires at + 4 <= p.Length
    modifies p
    ensures Flipped(old(p[..]), p[..], at, 4)
  {
    Exchange(p, at, at + 3);
    Exchange(p, at + 1, at + 2);
  }

  method SwapUInt64(p: array<Byte>, at: nat)
    requires at + 8 <= p.Length
    modifies p
    ensures Flipped(old(p[..]), p[..], at, 8)
  {
    Exchange(p, at, at + 7);
    Exchange(p, at + 1, at + 6);
    Exchange(p, at + 2, at + 5);
    Exchange(p, at + 3, at + 4);
  }
}
