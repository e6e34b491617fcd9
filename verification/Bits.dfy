/** Single bits of machine words. A shift by j is j halvings, so the bit functions recurse on j. */
module Bits {
  import opened Bytes

  type bit = b: int | 0 <= b < 2

  function Pow2(n: nat): (p: nat)
    ensures p > 0
  {
    if n == 0 then 1 else 2 * Pow2(n - 1)
  }

  /** `x >> j`. */
  function Shr(x: nat, j: nat): nat {
    if j == 0 then x else Shr(x / 2, j - 1)
  }

  /** `(x >> j) & 1`. */
  function Bit(x: nat, j: nat): bit {
    if j == 0 then x % 2 else Bit(x / 2, j - 1)
  }

  lemma {:induction false} ShrBit(x: nat, j: nat)
    ensures Bit(x, j) == Shr(x, j) % 2 && Shr(x, j + 1) == Shr(x, j) / 2
  {
    if j > 0 {
      ShrBit(x / 2, j - 1);
    }
  }

  /** `(x & ~(1 << j)) | (v << j)`. */
  function WithBit(x: nat, j: nat, v: bit): nat {
    if j == 0 then x / 2 * 2 + v else WithBit(x / 2, j - 1, v) * 2 + x % 2
  }

  /** Writing one bit changes that bit and no other. */
  lemma {:induction false} BitOfWithBit(x: nat, j: nat, v: bit, i: nat)
    ensures Bit(WithBit(x, j, v), i) == if i == j then v else Bit(x, i)
    decreases j
  {
    if j == 0 {
      assert WithBit(x, 0, v) / 2 == x / 2;
    } else {
      var y := WithBit(x / 2, j - 1, v);
      assert WithBit(x, j, v) / 2 == y && WithBit(x, j, v) % 2 == x % 2;
      if i > 0 {
        BitOfWithBit(x / 2, j - 1, v, i - 1);
      }
    }
  }

  /** A word of n bits stays a word of n bits. */
  lemma {:induction false} WithBitFits(x: nat, j: nat, v: bit, n: nat)
    requires x < Pow2(n) && j < n
    ensures WithBit(x, j, v) < Pow2(n)
  {
    if j > 0 {
      WithBitFits(x / 2, j - 1, v, n - 1);
    }
  }

  /** Words of n bits with equal bits are equal. */
  lemma {:induction false} EqualBits(x: nat, y: nat, n: nat)
    requires x < Pow2(n) && y < Pow2(n)
    requires forall j :: 0 <= j < n ==> Bit(x, j) == Bit(y, j)
    ensures x == y
  {
    if n > 0 {
      forall j | 0 <= j < n - 1
        ensures Bit(x / 2, j) == Bit(y / 2, j)
      {
        assert Bit(x, j + 1) == Bit(y, j + 1);
      }
      EqualBits(x / 2, y / 2, n - 1);
      assert Bit(x, 0) == Bit(y, 0);
    }
  }

  lemma {:induction false} BitOfZero(j: nat)
    ensures Bit(0, j) == 0
  {
    if j > 0 {
      BitOfZero(j - 1);
    }
  }

  lemma Pow2At8()
    ensures Pow2(8) == 256 && Pow2(6) == 64
  {
  }

  /** Writing a bit of a byte. */
  function SetBit(b: byte, j: nat, v: bit): (r: byte)
    requires j < 8
    ensures forall i :: 0 <= i < 8 ==> Bit(r, i) == if i == j then v else Bit(b, i)
  {
    Pow2At8();
    WithBitFits(b, j, v, 8);
    assert forall i :: 0 <= i < 8 ==> Bit(WithBit(b, j, v), i) == if i == j then v else Bit(b, i) by {
      forall i | 0 <= i < 8
        ensures Bit(WithBit(b, j, v), i) == if i == j then v else Bit(b, i)
      {
        BitOfWithBit(b, j, v, i);
      }
    }
    WithBit(b, j, v)
  }

  lemma EqualBytes(a: byte, b: byte)
    requires forall j :: 0 <= j < 8 ==> Bit(a, j) == Bit(b, j)
    ensures a == b
  {
    Pow2At8();
    EqualBits(a, b, 8);
  }

  // ---- Bitmaps, least significant bit first ----

  /** Bit k of a bitmap: `(buf[k >> 3] >> (k & 7)) & 1`. */
  function BitAt(s: seq<byte>, k: nat): bit
    requires k < 8 * |s|
  {
    Bit(s[k / 8], k % 8)
  }

  /** Set bits among [from, from + n). */
  function PopCount(s: seq<byte>, from: nat, n: nat): nat
    requires from + n <= 8 * |s|
  {
    if n == 0 then 0 else PopCount(s, from, n - 1) + BitAt(s, from + n - 1)
  }

  lemma {:induction false} PopCountSame(s: seq<byte>, from: nat, t: seq<byte>, from': nat, n: nat)
    requires from + n <= 8 * |s| && from' + n <= 8 * |t|
    requires forall j :: from <= j < from + n ==> BitAt(s, j) == BitAt(t, from' + (j - from))
    ensures PopCount(s, from, n) == PopCount(t, from', n)
  {
    if n > 0 {
      PopCountSame(s, from, t, from', n - 1);
    }
  }

  lemma {:induction false} PopCountSplit(s: seq<byte>, from: nat, m: nat, n: nat)
    requires from + m + n <= 8 * |s|
    ensures PopCount(s, from, m + n) == PopCount(s, from, m) + PopCount(s, from + m, n)
  {
    if n > 0 {
      PopCountSplit(s, from, m, n - 1);
    }
  }

  /** Set positions among [from, from + n). */
  ghost function Positions(s: seq<byte>, from: nat, n: nat): set<nat>
    requires from + n <= 8 * |s|
  {
    set k: nat | from <= k < from + n && BitAt(s, k) == 1
  }

  /** The count is the number of set positions. */
  lemma {:induction false} PopCountIsSize(s: seq<byte>, from: nat, n: nat)
    requires from + n <= 8 * |s|
    ensures PopCount(s, from, n) == |Positions(s, from, n)|
  {
    hide BitAt;
    if n == 0 {
      assert Positions(s, from, 0) == {};
    } else {
      PopCountIsSize(s, from, n - 1);
      var k := from + n - 1;
      assert Positions(s, from, n) == Positions(s, from, n - 1) + if BitAt(s, k) == 1 then {k} else {};
    }
  }
}
