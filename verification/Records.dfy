/**
  Fixed-layout records: a list of fields, each with an offset and a width.
  Reading, writing and swapping a record are done field by field; the laws here
  hold for every layout.
 */
module Records {
  import opened Bytes
  import opened Endian

  datatype Field = Field(at: nat, width: nat)

  type Layout = seq<Field>

  /** Fields stand in order, one after the other, within `size` bytes. */
  ghost predicate Packed(layout: Layout, size: nat) {
    && (forall i :: 0 <= i < |layout| ==> layout[i].at + layout[i].width <= size)
    && (forall i, j :: 0 <= i < j < |layout| ==> layout[i].at + layout[i].width <= layout[j].at)
  }

  function Slice(s: ByteString, f: Field): (r: ByteString)
    requires f.at + f.width <= |s|
    ensures |r| == f.width
  {
    s[f.at..f.at + f.width]
  }

  /** The value of every field. */
  function Values(s: ByteString, layout: Layout, little: bool): (vs: seq<nat>)
    requires forall f :: f in layout ==> f.at + f.width <= |s|
    ensures |vs| == |layout|
  {
    seq(|layout|, i requires 0 <= i < |layout| => Value(Slice(s, layout[i]), little))
  }

  /** After swapping the fields in `done`, those are reversed and the others
      untouched. */
  ghost predicate SwappedIn(a: ByteString, b: ByteString, layout: Layout, size: nat, done: seq<nat>) {
    && size <= |a| == |b| && Packed(layout, size)
    && forall i: nat :: i < |layout| ==>
        Slice(b, layout[i]) == if i in done then Reversed(Slice(a, layout[i])) else Slice(a, layout[i])
  }

  lemma PackedApart(layout: Layout, size: nat, i: nat, j: nat)
    requires Packed(layout, size) && i < |layout| && j < |layout| && i != j
    ensures layout[i].at + layout[i].width <= layout[j].at || layout[j].at + layout[j].width <= layout[i].at
  {
    if i < j {
      assert layout[i].at + layout[i].width <= layout[j].at;
    }
  }

  lemma FlipElsewhere(b: ByteString, c: ByteString, f: Field, g: Field)
    requires Flipped(b, c, f.at, f.width) && g.at + g.width <= |b|
    requires f.at + f.width <= g.at || g.at + g.width <= f.at
    ensures Slice(c, g) == Slice(b, g)
  {}

  lemma SwapOne(a: ByteString, b: ByteString, c: ByteString, layout: Layout, size: nat, done: seq<nat>, i: nat)
    requires SwappedIn(a, b, layout, size, done) && i < |layout| && i !in done
    requires Flipped(b, c, layout[i].at, layout[i].width)
    ensures SwappedIn(a, c, layout, size, done + [i])
  {
    forall j: nat | j < |layout|
      ensures Slice(c, layout[j]) ==
        if j in done + [i] then Reversed(Slice(a, layout[j])) else Slice(a, layout[j])
    {
      if j == i {
        FlippedSlice(b, c, layout[i].at, layout[i].width);
      } else {
        PackedApart(layout, size, i, j);
        FlipElsewhere(b, c, layout[i], layout[j]);
      }
    }
  }

  /** Once every field wider than a byte is swapped, the record reads in one byte
      order as it read in the other. */
  lemma AllSwapped(a: ByteString, b: ByteString, layout: Layout, size: nat, done: seq<nat>, little: bool)
    requires SwappedIn(a, b, layout, size, done)
    requires forall i: nat :: i < |layout| && layout[i].width != 1 ==> i in done
    ensures Values(b, layout, little) == Values(a, layout, !little)
  {
    forall i: nat | i < |layout|
      ensures Values(b, layout, little)[i] == Values(a, layout, !little)[i]
    {
      var s := Slice(a, layout[i]);
      ValueOfReversed(s, little);
      if i !in done {
        assert Reversed(s) == s;
      }
    }
  }

  /** `s` with one field reversed; a field that does not lie within `s` leaves it alone. */
  function FlipAt(s: ByteString, f: Field): (r: ByteString)
    ensures |r| == |s|
  {
    if f.at + f.width <= |s| then s[..f.at] + Reversed(Slice(s, f)) + s[f.at + f.width..] else s
  }

  lemma FlippedIsFlipAt(a: ByteString, b: ByteString, f: Field)
    requires f.at + f.width <= |a| == |b|
    ensures Flipped(a, b, f.at, f.width) <==> b == FlipAt(a, f)
  {
    forall k | f.at <= k < f.at + f.width
      ensures FlipAt(a, f)[k] == a[2 * f.at + f.width - 1 - k]
    {}
  }

  function FieldOf(layout: Layout, i: nat): Field {
    if i < |layout| then layout[i] else Field(0, 0)
  }

  /** The record with the fields of `order` swapped one after the other. */
  ghost function FlipAll(s: ByteString, layout: Layout, order: seq<nat>): (r: ByteString)
    ensures |r| == |s|
  {
    if order == [] then s
    else FlipAt(FlipAll(s, layout, order[..|order| - 1]), FieldOf(layout, order[|order| - 1]))
  }

  lemma FlipAllSnoc(s: ByteString, layout: Layout, order: seq<nat>, i: nat)
    ensures FlipAll(s, layout, order + [i]) == FlipAt(FlipAll(s, layout, order), FieldOf(layout, i))
  {
    assert (order + [i])[..|order|] == order;
  }

  ghost predicate Distinct(order: seq<nat>) {
    forall j, k :: 0 <= j < k < |order| ==> order[j] != order[k]
  }

  lemma DistinctInit(order: seq<nat>, n: nat)
    requires Distinct(order) && |order| == n + 1
    ensures Distinct(order[..n]) && order[n] !in order[..n] && order == order[..n] + [order[n]]
  {}

  /** Each field is swapped at most once, and every field wider than a byte is. */
  ghost predicate Complete(layout: Layout, order: seq<nat>) {
    && (forall k :: 0 <= k < |order| ==> order[k] < |layout|)
    && Distinct(order)
    && (forall i: nat :: i < |layout| && layout[i].width != 1 ==> i in order)
  }

  lemma {:induction false} FlipAllSwaps(s: ByteString, layout: Layout, size: nat, order: seq<nat>)
    requires size <= |s| && Packed(layout, size)
    requires forall k :: 0 <= k < |order| ==> order[k] < |layout|
    requires Distinct(order)
    ensures SwappedIn(s, FlipAll(s, layout, order), layout, size, order)
    decreases |order|
  {
    if order != [] {
      var n := |order| - 1;
      var init, i := order[..n], order[n];
      DistinctInit(order, n);
      FlipAllSwaps(s, layout, size, init);
      FlipOneMore(s, FlipAll(s, layout, init), layout, size, init, i);
    }
  }

  lemma FlipOneMore(a: ByteString, b: ByteString, layout: Layout, size: nat, done: seq<nat>, i: nat)
    requires SwappedIn(a, b, layout, size, done) && i < |layout| && i !in done
    ensures layout[i].at + layout[i].width <= |b|
    ensures SwappedIn(a, FlipAt(b, layout[i]), layout, size, done + [i])
  {
    FlippedIsFlipAt(b, FlipAt(b, layout[i]), layout[i]);
    SwapOne(a, b, FlipAt(b, layout[i]), layout, size, done, i);
  }

  /** Read in either byte order, `b` is what `a` is in the other. */
  ghost predicate SwappedRecord(a: ByteString, b: ByteString, layout: Layout, size: nat) {
    && size <= |a| == |b| && Packed(layout, size)
    && forall little :: Values(b, layout, little) == Values(a, layout, !little)
  }

  lemma CompleteSwaps(s: ByteString, layout: Layout, size: nat, order: seq<nat>)
    requires size <= |s| && Packed(layout, size) && Complete(layout, order)
    ensures SwappedRecord(s, FlipAll(s, layout, order), layout, size)
  {
    FlipAllSwaps(s, layout, size, order);
    AllSwapped(s, FlipAll(s, layout, order), layout, size, order, true);
    AllSwapped(s, FlipAll(s, layout, order), layout, size, order, false);
  }

  // ----- Writing

  /** The fields' encodings, one after the other. */
  function EncodeFields(vs: seq<nat>, layout: Layout, little: bool): ByteString
    requires |vs| == |layout|
  {
    if layout == [] then []
    else
      var n := |layout| - 1;
      EncodeFields(vs[..n], layout[..n], little) + Encode(vs[n], layout[n].width, little)
  }

  /** Fields without gaps, the first at `base`. */
  ghost predicate Contiguous(layout: Layout, base: nat, size: nat) {
    && (|layout| > 0 ==> layout[0].at == base)
    && (forall i :: 0 <= i < |layout| - 1 ==> layout[i + 1].at == layout[i].at + layout[i].width)
    && size == if layout == [] then base else layout[|layout| - 1].at + layout[|layout| - 1].width
  }

  ghost predicate Fit(vs: seq<nat>, layout: Layout) {
    |vs| == |layout| && forall i :: 0 <= i < |vs| ==> vs[i] < Pow256(layout[i].width)
  }

  lemma {:induction false} ContiguousPacked(layout: Layout, base: nat, size: nat)
    requires Contiguous(layout, base, size)
    ensures Packed(layout, size) && base <= size
    ensures forall i :: 0 <= i < |layout| ==> base <= layout[i].at
    decreases |layout|
  {
    if layout != [] {
      var n := |layout| - 1;
      ContiguousPacked(layout[..n], base, layout[n].at);
      forall i, j | 0 <= i < j < |layout|
        ensures layout[i].at + layout[i].width <= layout[j].at
      {
        if j < n {
          assert layout[..n][i].at + layout[..n][i].width <= layout[..n][j].at;
        } else {
          assert layout[..n][i].at + layout[..n][i].width <= layout[n].at;
        }
      }
      forall i | 0 <= i < |layout|
        ensures layout[i].at + layout[i].width <= size && base <= layout[i].at
      {
        if i < n {
          assert layout[..n][i].at + layout[..n][i].width <= layout[n].at && base <= layout[..n][i].at;
        }
      }
    }
  }

  lemma {:induction false} EncodeFieldsLength(vs: seq<nat>, layout: Layout, base: nat, size: nat, little: bool)
    requires Contiguous(layout, base, size) && |vs| == |layout|
    ensures base + |EncodeFields(vs, layout, little)| == size
    decreases |layout|
  {
    if layout != [] {
      var n := |layout| - 1;
      EncodeFieldsLength(vs[..n], layout[..n], base, layout[n].at, little);
    }
  }

  // The bytes of an encoded record split into all fields but the last, and the last.
  lemma SplitLast(s: ByteString, t: ByteString, u: ByteString, base: nat, mid: nat, size: nat)
    requires base <= mid <= size <= |s| && s[base..size] == t + u && |t| == mid - base
    ensures s[base..mid] == t && s[mid..size] == u
  {
    assert s[base..mid] == s[base..size][..mid - base];
    assert s[mid..size] == s[base..size][mid - base..];
  }

  lemma ContiguousInit(layout: Layout, base: nat, size: nat)
    requires Contiguous(layout, base, size) && layout != []
    ensures var n := |layout| - 1;
      Contiguous(layout[..n], base, layout[n].at) && layout[n].at + layout[n].width == size
  {}

  lemma {:induction false} FieldsInPlace(
      s: ByteString, vs: seq<nat>, layout: Layout, base: nat, size: nat, little: bool, i: nat)
    requires Contiguous(layout, base, size) && |vs| == |layout| && i < |layout|
    requires base <= size <= |s| && s[base..size] == EncodeFields(vs, layout, little)
    ensures layout[i].at + layout[i].width <= |s| && Slice(s, layout[i]) == Encode(vs[i], layout[i].width, little)
    decreases |layout|
  {
    hide Contiguous;
    var n := |layout| - 1;
    var mid := layout[n].at;
    ContiguousInit(layout, base, size);
    EncodeFieldsLength(vs[..n], layout[..n], base, mid, little);
    SplitLast(s, EncodeFields(vs[..n], layout[..n], little), Encode(vs[n], layout[n].width, little), base, mid, size);
    if i < n {
      FieldsInPlace(s, vs[..n], layout[..n], base, mid, little, i);
    }
  }

  /** What was written reads back. */
  lemma ReadBack(s: ByteString, vs: seq<nat>, layout: Layout, base: nat, size: nat, little: bool)
    requires Contiguous(layout, base, size) && Fit(vs, layout)
    requires base <= size <= |s| && s[base..size] == EncodeFields(vs, layout, little)
    ensures Packed(layout, size) && Values(s, layout, little) == vs
  {
    ContiguousPacked(layout, base, size);
    forall i | 0 <= i < |layout|
      ensures Values(s, layout, little)[i] == vs[i]
    {
      FieldsInPlace(s, vs, layout, base, size, little, i);
      ValueOfEncode(vs[i], layout[i].width, little);
    }
  }
}
