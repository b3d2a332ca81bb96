/**
  Files put together from pieces: where each piece of a concatenation stands,
  and how strings are found in a string table.
 */
module Pieces {
  import opened Bytes
  import opened Elf

  /** `piece` stands in `s` at `at`. */
  predicate At(s: ByteString, at: int, piece: ByteString) {
    0 <= at && at + |piece| <= |s| && s[at..at + |piece|] == piece
  }

  lemma AtReads(s: ByteString, at: int, piece: ByteString)
    requires At(s, at, piece)
    ensures ReadAt(s, at, |piece|) == Some(piece)
  {}

  lemma AtInside(s: ByteString, a: nat, t: ByteString, b: nat, u: ByteString)
    requires At(s, a, t) && At(t, b, u)
    ensures At(s, a + b, u)
  {
    forall k | 0 <= k < |u|
      ensures s[a + b..a + b + |u|][k] == u[k]
    {
      assert s[a..a + |t|][b + k] == t[b + k] == t[b..b + |u|][k];
    }
  }

  lemma AtEnd(s: ByteString, piece: ByteString)
    ensures At(s + piece, |s|, piece)
  {}

  lemma AtPrefix(s: ByteString, more: ByteString, at: nat, piece: ByteString)
    requires At(s, at, piece)
    ensures At(s + more, at, piece)
  {
    assert At(s + more, 0, s);
    AtInside(s + more, 0, s, at, piece);
  }

  // ----- Concatenations

  function Concat(parts: seq<ByteString>): ByteString {
    if parts == [] then [] else Concat(parts[..|parts| - 1]) + parts[|parts| - 1]
  }

  /** Where part `i` starts. */
  function Start(parts: seq<ByteString>, i: nat): nat
    requires i <= |parts|
  {
    |Concat(parts[..i])|
  }

  lemma {:induction false} PartAt(parts: seq<ByteString>, i: nat)
    requires i < |parts|
    ensures At(Concat(parts), Start(parts, i), parts[i])
    decreases |parts|
  {
    var n := |parts| - 1;
    if i < n {
      PartAt(parts[..n], i);
      assert parts[..n][..i] == parts[..i];
      var s := Concat(parts[..n]);
      assert At(s + parts[n], 0, s);
      AtInside(Concat(parts), 0, s, Start(parts, i), parts[i]);
    }
  }

  lemma {:induction false} UniformStart(parts: seq<ByteString>, w: nat, i: nat)
    requires i <= |parts| && forall j :: 0 <= j < |parts| ==> |parts[j]| == w
    ensures Start(parts, i) == i * w
    decreases i
  {
    if i > 0 {
      assert parts[..i][..i - 1] == parts[..i - 1];
      UniformStart(parts, w, i - 1);
      assert i * w == (i - 1) * w + w;
    }
  }

  lemma StartInside(parts: seq<ByteString>, i: nat)
    requires i < |parts|
    ensures Start(parts, i) + |parts[i]| <= |Concat(parts)|
  {
    PartAt(parts, i);
  }

  lemma StandsBelow(file: ByteString, at: nat, parts: seq<ByteString>, i: nat)
    requires At(file, at, Concat(parts)) && i < |parts|
    ensures At(file, at + Start(parts, i), parts[i])
  {
    hide Concat;
    PartAt(parts, i);
    AtInside(file, at, Concat(parts), Start(parts, i), parts[i]);
  }

  // ----- String tables

  predicate NoZero(s: ByteString) {
    forall k :: 0 <= k < |s| ==> s[k] != 0
  }

  predicate Names(names: seq<ByteString>) {
    forall i :: 0 <= i < |names| ==> NoZero(names[i]) && |names[i]| < MAX_NAME
  }

  function Terminated(names: seq<ByteString>): (r: seq<ByteString>)
    ensures |r| == |names| && forall i :: 0 <= i < |r| ==> r[i] == names[i] + [0]
  {
    seq(|names|, i requires 0 <= i < |names| => names[i] + [0])
  }

  /** A zero byte, then every name with its terminator. */
  function StringTable(names: seq<ByteString>): ByteString {
    [0] + Concat(Terminated(names))
  }

  function NameOffset(names: seq<ByteString>, i: nat): (r: nat)
    requires i < |names|
    ensures r > 0
  {
    1 + Start(Terminated(names), i)
  }

  lemma TextInPlace(s: ByteString, at: nat, name: ByteString)
    requires At(s, at, name + [0]) && NoZero(name)
    ensures Terminator(s, at) == at + |name| < |s| && TextAt(s, at) == name
  {
    var piece := name + [0];
    forall k | at <= k < at + |piece|
      ensures s[k] == piece[k - at]
    {
      assert s[k] == s[at..at + |piece|][k - at];
    }
    assert s[at + |name|] == piece[|name|] == 0;
    forall k | at <= k < at + |name|
      ensures s[k] == name[k - at]
    {
      assert piece[k - at] == name[k - at];
    }
    assert s[at..at + |name|] == name;
  }

  /** Every name is found at its offset. */
  lemma NameInTable(s: ByteString, at: nat, names: seq<ByteString>, i: nat)
    requires At(s, at, StringTable(names)) && Names(names) && i < |names|
    ensures TextAt(s, at + NameOffset(names, i)) == names[i] && TextFits(s, at + NameOffset(names, i))
  {
    hide Concat, TextAt, Terminator, Start;
    var parts := Terminated(names);
    PartAt(parts, i);
    var table := StringTable(names);
    assert table[1..1 + |Concat(parts)|] == Concat(parts);
    AtInside(table, 1, Concat(parts), Start(parts, i), parts[i]);
    AtInside(s, at, table, NameOffset(names, i), parts[i]);
    TextInPlace(s, at + NameOffset(names, i), names[i]);
  }

  lemma NameOffsetBelow(file: ByteString, at: nat, names: seq<ByteString>, i: nat)
    requires At(file, at, StringTable(names)) && i < |names|
    ensures NameOffset(names, i) < |file|
  {
    hide Concat;
    StartInside(Terminated(names), i);
  }

  lemma {:induction false} ConcatBound(parts: seq<ByteString>, w: nat)
    requires forall i :: 0 <= i < |parts| ==> |parts[i]| <= w
    ensures |Concat(parts)| <= |parts| * w
    decreases |parts|
  {
    if parts != [] {
      var n := |parts| - 1;
      ConcatBound(parts[..n], w);
      assert (n + 1) * w == n * w + w;
    }
  }

  lemma StringTableBound(names: seq<ByteString>)
    requires Names(names)
    ensures |StringTable(names)| <= 1 + |names| * MAX_NAME
  {
    ConcatBound(Terminated(names), MAX_NAME);
  }
}
