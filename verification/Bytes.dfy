/** Fixed-width machine integers as subset types of `int`.
  * An expression assigned to one of these types carries the proof obligation that it does not
  * overflow; wherever the C code relies on wrap-around or truncation the reduction is written out.
  * Masks and shifts by constants are division and remainder: `b & 0x3F` is `b % 64`, `b >> 3` is
  * `b / 8`, and an OR of disjoint bit ranges is a sum.
  */
module Bytes {
  type byte = b: int | 0 <= b < 0x100
  type uint32 = x: int | 0 <= x < 0x1_0000_0000
  type int32 = x: int | -0x8000_0000 <= x < 0x8000_0000
  type int64 = x: int | -0x8000_0000_0000_0000 <= x < 0x8000_0000_0000_0000
  type uint64 = x: int | 0 <= x < 0x1_0000_0000_0000_0000

  const INT_MAX: int := 0x7FFF_FFFF
  const INT32_MAX: int := 0x7FFF_FFFF
  const INT64_MAX: int := 0x7FFF_FFFF_FFFF_FFFF

  /** The bytes of an ASCII or Latin-1 text. */
  function Ascii(t: string): (s: seq<byte>)
    requires forall k :: 0 <= k < |t| ==> t[k] as int < 0x100
    ensures |s| == |t| && forall k :: 0 <= k < |t| ==> s[k] == t[k] as int
  {
    seq(|t|, k requires 0 <= k < |t| => t[k] as int)
  }

  /** Concatenation of a list of byte strings. */
  function Flatten(parts: seq<seq<byte>>): (s: seq<byte>) {
    if parts == [] then [] else parts[0] + Flatten(parts[1..])
  }

  /** A slice of a slice. */
  lemma SliceOfSlice(s: seq<byte>, a: nat, m: nat, i: nat, j: nat)
    requires a + j <= m <= |s| && i <= j
    ensures s[a..m][i..j] == s[a + i..a + j]
  {
    var p, r := s[a..m], s[a + i..a + j];
    forall k | 0 <= k < j - i
      ensures p[i..j][k] == r[k]
    {
      assert p[i..j][k] == p[i + k] == s[a + (i + k)];
    }
  }

  /** Adjacent slices. */
  lemma SliceJoin(s: seq<byte>, a: nat, b: nat, c: nat)
    requires a <= b <= c <= |s|
    ensures s[a..c] == s[a..b] + s[b..c]
  {
  }

  /** The parts of a suffix that is a concatenation. */
  lemma SuffixSplits(s: seq<byte>, off: nat, a: seq<byte>, b: seq<byte>)
    requires off <= |s| && s[off..] == a + b
    ensures off + |a| <= |s| && s[off..off + |a|] == a && s[off + |a|..] == b
  {
    assert s[off..off + |a|] == s[off..][..|a|] && s[off + |a|..] == s[off..][|a|..];
  }

  lemma ConcatFour<T>(a: seq<T>, b: seq<T>, c: seq<T>, d: seq<T>)
    ensures a + (b + (c + d)) == a + b + c + d
  {
  }

  lemma ConcatThree<T>(a: seq<T>, b: seq<T>, c: seq<T>)
    ensures a + (b + c) == a + b + c
  {
  }

  /** The named bounds are those of the types. */
  lemma Largest(x: int32, y: int64)
    ensures x <= INT32_MAX == INT_MAX && y <= INT64_MAX
    ensures INT32_MAX + 1 == 0x8000_0000 && INT64_MAX + 1 == 0x8000_0000 * 0x1_0000_0000
  {
  }
}
