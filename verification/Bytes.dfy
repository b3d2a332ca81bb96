/**
  Bytes and the two ways of reading a run of them as an unsigned number.
  Everything read from an object file, and everything written to a table file,
  is a sequence of these.
 */
module Bytes {

  type Byte = x: int | 0 <= x < 256

  type ByteString = seq<Byte>

  /** `n` copies of `b`. */
  function Repeat(b: Byte, n: nat): (s: ByteString)
    ensures |s| == n && forall k :: 0 <= k < n ==> s[k] == b
  {
    seq(n, _ => b)
  }
}
