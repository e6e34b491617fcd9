/** Columnar bitmap kernels: bit writes, unaligned copies, conjunction and gather. */
module Bitmap {
  import opened Bytes
  import opened Bits

  lemma OneByteWritten(s: seq<byte>, t: seq<byte>, k: nat, v: bit)
    requires k < 8 * |s| && t == s[k / 8 := SetBit(s[k / 8], k % 8, v)]
    ensures forall j :: 0 <= j < 8 * |s| ==> BitAt(t, j) == if j == k then v else BitAt(s, j)
  {
  }

  method WriteBit(b: array<byte>, k: nat, v: bit)
    requires k < 8 * b.Length
    modifies b
    ensures forall j :: 0 <= j < 8 * b.Length ==> BitAt(b[..], j) == if j == k then v else old(BitAt(b[..], j))
  {
    hide Bit, WithBit;
    ghost var before := b[..];
    b[k / 8] := SetBit(b[k / 8], k % 8, v);
    OneByteWritten(before, b[..], k, v);
  }

  method CountBits(buf: seq<byte>, off: nat, n: nat) returns (t: nat)
    requires off + n <= 8 * |buf|
    ensures t == PopCount(buf, off, n)
  {
    t := 0;
    var k := 0;
    while k < n
      invariant 0 <= k <= n
      invariant t == PopCount(buf, off, k)
    {
      t := t + BitAt(buf, off + k);
      k := k + 1;
    }
  }

  /** dst after its bits [doff, doff + n) have been replaced by bits [soff, soff + n) of src. */
  ghost predicate Copied(after: seq<byte>, before: seq<byte>, doff: nat, src: seq<byte>, soff: nat, n: nat)
    requires |after| == |before| && doff + n <= 8 * |after| && soff + n <= 8 * |src|
  {
    forall j :: 0 <= j < 8 * |after| ==>
      BitAt(after, j) == if doff <= j < doff + n then BitAt(src, soff + (j - doff)) else BitAt(before, j)
  }

  lemma CopiedCounts(after: seq<byte>, before: seq<byte>, doff: nat, src: seq<byte>, soff: nat, n: nat)
    requires |after| == |before| && doff + n <= 8 * |after| && soff + n <= 8 * |src|
    requires Copied(after, before, doff, src, soff, n)
    ensures PopCount(after, 0, doff) == PopCount(before, 0, doff)
    ensures PopCount(after, doff, n) == PopCount(src, soff, n)
    ensures var tail := 8 * |after| - doff - n; PopCount(after, doff + n, tail) == PopCount(before, doff + n, tail)
  {
    hide Bit, BitAt, PopCount;
    PopCountSame(after, 0, before, 0, doff);
    PopCountSame(after, doff, src, soff, n);
    PopCountSame(after, doff + n, before, doff + n, 8 * |after| - doff - n);
  }

  /** The total changes by exactly what the target range gains. */
  lemma CopyConserves(after: seq<byte>, before: seq<byte>, doff: nat, src: seq<byte>, soff: nat, n: nat)
    requires |after| == |before| && doff + n <= 8 * |after| && soff + n <= 8 * |src|
    requires Copied(after, before, doff, src, soff, n)
    ensures PopCount(after, 0, 8 * |after|) ==
            PopCount(before, 0, 8 * |before|) + PopCount(src, soff, n) - PopCount(before, doff, n)
  {
    hide *;
    var tail := 8 * |after| - doff - n;
    PopCountSplit(after, 0, doff, n + tail);
    PopCountSplit(after, doff, n, tail);
    PopCountSplit(before, 0, doff, n + tail);
    PopCountSplit(before, doff, n, tail);
    CopiedCounts(after, before, doff, src, soff, n);
  }

  /** Bit copy between two buffers that do not overlap, at any two bit offsets. */
  method CopyBits(dst: array<byte>, doff: nat, src: array<byte>, soff: nat, n: nat)
    requires dst != src && doff + n <= 8 * dst.Length && soff + n <= 8 * src.Length
    modifies dst
    ensures Copied(dst[..], old(dst[..]), doff, src[..], soff, n)
    ensures PopCount(dst[..], 0, 8 * dst.Length) ==
            old(PopCount(dst[..], 0, 8 * dst.Length)) + PopCount(src[..], soff, n) - old(PopCount(dst[..], doff, n))
  {
    hide Bit, BitAt, PopCount;
    var k := 0;
    while k < n
      invariant 0 <= k <= n
      invariant Copied(dst[..], old(dst[..]), doff, src[..], soff, k)
    {
      var v := BitAt(src[..], soff + k);
      WriteBit(dst, doff + k, v);
      k := k + 1;
    }
    CopyConserves(dst[..], old(dst[..]), doff, src[..], soff, n);
  }

  /** Bytes that hold n bits. */
  function BytesFor(n: nat): nat {
    (n + 7) / 8
  }

  method ZeroBytes(dst: array<byte>, n: nat)
    requires n <= dst.Length
    modifies dst
    ensures forall i :: 0 <= i < n ==> dst[i] == 0
    ensures dst[n..] == old(dst[n..])
  {
    var i := 0;
    while i < n
      invariant 0 <= i <= n
      invariant forall k :: 0 <= k < i ==> dst[k] == 0
      invariant forall k :: i <= k < dst.Length ==> dst[k] == old(dst[k])
    {
      dst[i] := 0;
      i := i + 1;
    }
  }

  /** The bits a kernel writes, given as a sequence, followed by zeros up to the end of the last byte. */
  ghost predicate HoldsBits(s: seq<byte>, bits: seq<bit>) {
    && |bits| <= 8 * |s|
    && forall j :: 0 <= j < 8 * |s| ==> BitAt(s, j) == if j < |bits| then bits[j] else 0
  }

  function Sum(bits: seq<bit>): nat {
    if bits == [] then 0 else Sum(bits[..|bits| - 1]) + bits[|bits| - 1]
  }

  /** The sum of the bits written is the population count of the bitmap. */
  lemma {:induction false} SumIsPopCount(s: seq<byte>, bits: seq<bit>)
    requires |bits| <= 8 * |s| && forall j :: 0 <= j < |bits| ==> BitAt(s, j) == bits[j]
    ensures Sum(bits) == PopCount(s, 0, |bits|)
  {
    hide Bit, BitAt;
    if bits != [] {
      SumIsPopCount(s, bits[..|bits| - 1]);
    }
  }

  lemma {:induction false} NoBits(s: seq<byte>, from: nat, n: nat)
    requires from + n <= 8 * |s| && forall j :: from <= j < from + n ==> BitAt(s, j) == 0
    ensures PopCount(s, from, n) == 0
  {
    if n > 0 {
      NoBits(s, from, n - 1);
    }
  }

  lemma TrailingZeros(s: seq<byte>, bits: seq<bit>)
    requires HoldsBits(s, bits)
    ensures PopCount(s, 0, 8 * |s|) == Sum(bits)
  {
    hide Bit, BitAt;
    SumIsPopCount(s, bits);
    PopCountSplit(s, 0, |bits|, 8 * |s| - |bits|);
    NoBits(s, |bits|, 8 * |s| - |bits|);
  }

  /** Conjunction of two bit ranges. */
  function AndOf(a: seq<byte>, aoff: nat, b: seq<byte>, boff: nat, n: nat): seq<bit>
    requires aoff + n <= 8 * |a| && boff + n <= 8 * |b|
  {
    seq(n, k requires 0 <= k < n => if BitAt(a, aoff + k) == 1 && BitAt(b, boff + k) == 1 then 1 else 0)
  }

  /** The bits of src named by idx. */
  function GatherOf(src: seq<byte>, soff: nat, idx: seq<int64>): seq<bit>
    requires forall k :: 0 <= k < |idx| ==> 0 <= idx[k] && soff + idx[k] < 8 * |src|
  {
    seq(|idx|, k requires 0 <= k < |idx| => BitAt(src, soff + idx[k]))
  }

  /** Appends bit k of `bits` to a bitmap that already holds the ones before it. */
  method AppendBit(dst: array<byte>, k: nat, v: bit, ghost bits: seq<bit>)
    requires k < |bits| && bits[k] == v && BytesFor(|bits|) <= dst.Length
    requires HoldsBits(dst[..BytesFor(|bits|)], bits[..k])
    modifies dst
    ensures HoldsBits(dst[..BytesFor(|bits|)], bits[..k + 1])
    ensures dst[BytesFor(|bits|)..] == old(dst[BytesFor(|bits|)..])
  {
    hide Bit, WithBit;
    ghost var m := BytesFor(|bits|);
    ghost var before := dst[..m];
    dst[k / 8] := SetBit(dst[k / 8], k % 8, v);
    assert dst[..m] == before[k / 8 := SetBit(before[k / 8], k % 8, v)];
    OneByteWritten(before, dst[..m], k, v);
    hide BitAt;
  }

  lemma ZerosHoldNothing(s: seq<byte>)
    requires forall i :: 0 <= i < |s| ==> s[i] == 0
    ensures HoldsBits(s, [])
  {
    forall j | 0 <= j < 8 * |s|
      ensures BitAt(s, j) == 0
    {
      BitOfZero(j % 8);
    }
  }

  lemma SumStep(bits: seq<bit>, k: nat)
    requires k < |bits|
    ensures Sum(bits[..k + 1]) == Sum(bits[..k]) + bits[k]
  {
    assert bits[..k + 1][..k] == bits[..k];
  }

  method AndBits(dst: array<byte>, a: array<byte>, aoff: nat, b: array<byte>, boff: nat, n: nat) returns (t: nat)
    requires dst != a && dst != b && BytesFor(n) <= dst.Length
    requires aoff + n <= 8 * a.Length && boff + n <= 8 * b.Length
    modifies dst
    ensures HoldsBits(dst[..BytesFor(n)], AndOf(a[..], aoff, b[..], boff, n))
    ensures dst[BytesFor(n)..] == old(dst[BytesFor(n)..])
    ensures t == PopCount(dst[..BytesFor(n)], 0, 8 * BytesFor(n))
  {
    hide Bit, BitAt;
    ghost var bits := AndOf(a[..], aoff, b[..], boff, n);
    t := 0;
    ZeroBytes(dst, BytesFor(n));
    ZerosHoldNothing(dst[..BytesFor(n)]);
    var k := 0;
    while k < n
      invariant 0 <= k <= n
      invariant HoldsBits(dst[..BytesFor(n)], bits[..k])
      invariant t == Sum(bits[..k])
      invariant dst[BytesFor(n)..] == old(dst[BytesFor(n)..])
    {
      var v: bit := if BitAt(a[..], aoff + k) == 1 && BitAt(b[..], boff + k) == 1 then 1 else 0;
      AppendBit(dst, k, v, bits);
      SumStep(bits, k);
      t := t + v;
      k := k + 1;
    }
    assert bits[..n] == bits;
    TrailingZeros(dst[..BytesFor(n)], bits);
  }

  method GatherBits(dst: array<byte>, src: array<byte>, soff: nat, idx: seq<int64>) returns (t: nat)
    requires dst != src && BytesFor(|idx|) <= dst.Length
    requires forall k :: 0 <= k < |idx| ==> 0 <= idx[k] && soff + idx[k] < 8 * src.Length
    modifies dst
    ensures HoldsBits(dst[..BytesFor(|idx|)], GatherOf(src[..], soff, idx))
    ensures dst[BytesFor(|idx|)..] == old(dst[BytesFor(|idx|)..])
    ensures t == PopCount(dst[..BytesFor(|idx|)], 0, 8 * BytesFor(|idx|))
  {
    hide Bit, BitAt;
    var n := |idx|;
    ghost var bits := GatherOf(src[..], soff, idx);
    t := 0;
    ZeroBytes(dst, BytesFor(n));
    ZerosHoldNothing(dst[..BytesFor(n)]);
    var k := 0;
    while k < n
      invariant 0 <= k <= n
      invariant HoldsBits(dst[..BytesFor(n)], bits[..k])
      invariant t == Sum(bits[..k])
      invariant dst[BytesFor(n)..] == old(dst[BytesFor(n)..])
    {
      var v := BitAt(src[..], soff + idx[k]);
      AppendBit(dst, k, v, bits);
      SumStep(bits, k);
      t := t + v;
      k := k + 1;
    }
    assert bits[..n] == bits;
    TrailingZeros(dst[..BytesFor(n)], bits);
  }

  // ---- What the kernels keep ----

  /** The bytes of n bits: enough, and one fewer would not do. */
  lemma BytesForIsLeast(n: nat)
    ensures n <= 8 * BytesFor(n) && (n > 0 ==> 8 * (BytesFor(n) - 1) < n) && BytesFor(0) == 0
  {
  }

  lemma AndBit(s: seq<byte>, a: seq<byte>, aoff: nat, b: seq<byte>, boff: nat, n: nat, j: nat)
    requires aoff + n <= 8 * |a| && boff + n <= 8 * |b| && HoldsBits(s, AndOf(a, aoff, b, boff, n)) && j < 8 * |s|
    ensures BitAt(s, j) == 1 <==> j < n && BitAt(a, aoff + j) == 1 && BitAt(b, boff + j) == 1
  {
    hide Bit, BitAt;
  }

  lemma AndSize(s: seq<byte>, a: seq<byte>, aoff: nat, b: seq<byte>, boff: nat, n: nat)
    requires aoff + n <= 8 * |a| && boff + n <= 8 * |b| && HoldsBits(s, AndOf(a, aoff, b, boff, n))
    ensures n <= 8 * |s|
  {
  }

  /** A conjunction has exactly the bits that both ranges have, */
  lemma AndIsContained(s: seq<byte>, a: seq<byte>, aoff: nat, b: seq<byte>, boff: nat, n: nat)
    requires aoff + n <= 8 * |a| && boff + n <= 8 * |b| && HoldsBits(s, AndOf(a, aoff, b, boff, n))
    ensures forall j :: 0 <= j < 8 * |s| ==>
              (BitAt(s, j) == 1 <==> j < n && BitAt(a, aoff + j) == 1 && BitAt(b, boff + j) == 1)
  {
    hide *;
    forall j | 0 <= j < 8 * |s|
      ensures BitAt(s, j) == 1 <==> j < n && BitAt(a, aoff + j) == 1 && BitAt(b, boff + j) == 1
    {
      AndBit(s, a, aoff, b, boff, n, j);
    }
  }

  lemma CountStep(s: seq<byte>, from: nat, n: nat)
    requires from + n <= 8 * |s|
    ensures PopCount(s, from, n) == if n == 0 then 0 else PopCount(s, from, n - 1) + BitAt(s, from + n - 1)
  {
  }

  /** so among its first m never more than either. */
  lemma {:induction false} AndCounts(s: seq<byte>, a: seq<byte>, aoff: nat, b: seq<byte>, boff: nat, n: nat, m: nat)
    requires aoff + n <= 8 * |a| && boff + n <= 8 * |b| && HoldsBits(s, AndOf(a, aoff, b, boff, n)) && m <= n
    ensures m <= 8 * |s|
    ensures PopCount(s, 0, m) <= PopCount(a, aoff, m) && PopCount(s, 0, m) <= PopCount(b, boff, m)
    decreases m
  {
    hide *;
    AndSize(s, a, aoff, b, boff, n);
    CountStep(s, 0, m);
    CountStep(a, aoff, m);
    CountStep(b, boff, m);
    if m > 0 {
      AndCounts(s, a, aoff, b, boff, n, m - 1);
      AndBit(s, a, aoff, b, boff, n, m - 1);
    }
  }

  /** The bitmap is the range [off, off + n) of src and zeros. */
  ghost predicate IsRange(s: seq<byte>, src: seq<byte>, off: nat, n: nat) {
    n <= 8 * |s| && off + n <= 8 * |src| && Copied(s, seq(|s|, _ => 0), 0, src, off, n)
  }

  lemma RangeOf(s: seq<byte>, src: seq<byte>, off: nat, bits: seq<bit>)
    requires HoldsBits(s, bits) && off + |bits| <= 8 * |src|
    requires forall k :: 0 <= k < |bits| ==> bits[k] == BitAt(src, off + k)
    ensures IsRange(s, src, off, |bits|)
  {
    ZerosHoldNothing(seq(|s|, _ => 0));
    hide Bit, BitAt;
  }

  /** A range and itself make a copy of the range; */
  lemma AndWithItself(s: seq<byte>, a: seq<byte>, off: nat, n: nat)
    requires off + n <= 8 * |a| && HoldsBits(s, AndOf(a, off, a, off, n))
    ensures IsRange(s, a, off, n)
  {
    hide Bit, BitAt, HoldsBits, IsRange;
    RangeOf(s, a, off, AndOf(a, off, a, off, n));
  }

  /** and so does gathering consecutive positions. */
  lemma GatherConsecutive(s: seq<byte>, src: seq<byte>, soff: nat, idx: seq<int64>, first: nat)
    requires forall k :: 0 <= k < |idx| ==> idx[k] == first + k
    requires soff + first + |idx| <= 8 * |src| && HoldsBits(s, GatherOf(src, soff, idx))
    ensures IsRange(s, src, soff + first, |idx|)
  {
    hide Bit, BitAt, HoldsBits, IsRange;
    RangeOf(s, src, soff + first, GatherOf(src, soff, idx));
  }

  /** Gathering from a gathered bitmap is gathering the composed positions from the source. */
  lemma GatherTwice(s: seq<byte>, src: seq<byte>, soff: nat, idx: seq<int64>, jdx: seq<int64>)
    requires forall k :: 0 <= k < |idx| ==> 0 <= idx[k] && soff + idx[k] < 8 * |src|
    requires forall k :: 0 <= k < |jdx| ==> 0 <= jdx[k] < |idx|
    requires HoldsBits(s, GatherOf(src, soff, idx))
    ensures GatherOf(s, 0, jdx) == GatherOf(src, soff, seq(|jdx|, k requires 0 <= k < |jdx| => idx[jdx[k]]))
  {
    hide Bit, BitAt;
    var g := GatherOf(src, soff, idx);
    forall k | 0 <= k < |jdx|
      ensures BitAt(s, jdx[k]) == BitAt(src, soff + idx[jdx[k]])
    {
      assert g[jdx[k]] == BitAt(src, soff + idx[jdx[k]]);
    }
  }
}
