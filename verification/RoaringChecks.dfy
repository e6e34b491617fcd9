/** The two Roaring drivers: array containers of any order searched raw, sorted and as a bitset, and
  * bitsets decoded both ways. Their postconditions say that no input makes a comparison fail.
  */
module RoaringChecks {
  import opened Bytes
  import opened Bits
  import opened Roaring
  import Kernels = RoaringKernels

  /** Sorts the lows in place. */
  method SortLows(a: array<uint16>)
    modifies a
    ensures Kernels.Sorted(a[..]) && multiset(a[..]) == multiset(old(a[..]))
  {
    var i := 0;
    while i < a.Length
      invariant 0 <= i <= a.Length
      invariant forall p, q :: 0 <= p < q < i ==> a[p] <= a[q]
      invariant multiset(a[..]) == multiset(old(a[..]))
    {
      var j := i;
      while j > 0 && a[j - 1] > a[j]
        invariant 0 <= j <= i
        invariant forall p, q :: 0 <= p < q <= i && q != j ==> a[p] <= a[q]
        invariant multiset(a[..]) == multiset(old(a[..]))
      {
        a[j - 1], a[j] := a[j], a[j - 1];
        j := j - 1;
      }
      i := i + 1;
    }
  }

  /** The lows as little-endian bytes. */
  method EncodeArray(lows: seq<uint16>) returns (src: seq<byte>)
    ensures |src| == 2 * |lows| && Lows(src, |lows|) == lows
  {
    src := [];
    var i := 0;
    while i < |lows|
      invariant 0 <= i <= |lows| && |src| == 2 * i
      invariant forall k :: 0 <= k < i ==> Low(src, k) == lows[k]
    {
      ghost var before := src;
      src := src + [lows[i] % 256, lows[i] / 256];
      assert forall k :: 0 <= k < i ==> Low(src, k) == Low(before, k);
      i := i + 1;
    }
  }

  /** The values of an array container are found by every search, whatever is looked for. */
  method CheckArray(src: seq<byte>, kind: int, needles: seq<uint16>) returns (ok: bool)
    requires kind != 1
    ensures ok
  {
    hide Low, BitAt, Kernels.LinearHit;
    var card := |src| / 2;
    var i := 0;
    while i < |needles| {
      var got := Kernels.Contains(kind, src, card, needles[i]);
      var member := ArrayMember(src, card, needles[i]);
      if got && !member {
        return false;
      }
      i := i + 1;
    }
    var lows := new uint16[card](k requires 0 <= k < card => Low(src, k));
    SortLows(lows);
    ghost var values := lows[..];
    var sorted := EncodeArray(lows[..]);
    i := 0;
    while i < card
      invariant lows[..] == values
    {
      if Low(sorted, i) != lows[i] {
        return false;
      }
      i := i + 1;
    }
    assert ArrayOf(sorted, card) == values;
    var bits := new byte[BITSET_BYTES];
    BuildBitset(lows[..], bits);
    var image := bits[..];
    i := 0;
    while i < |needles|
      invariant lows[..] == values
    {
      var member := ArrayMember(sorted, card, needles[i]);
      var got := Kernels.Contains(kind, sorted, card, needles[i]);
      var inBits := Kernels.Contains(1, image, 0, needles[i]);
      if got != member || inBits != member {
        return false;
      }
      i := i + 1;
    }
    i := 0;
    while i < card
      invariant 0 <= i <= card && lows[..] == values
    {
      var got := Kernels.Contains(0, sorted, card, lows[i]);
      assert values[i] in values;
      if !got || !BitsetMember(image, lows[i]) {
        return false;
      }
      i := i + 1;
    }
    return true;
  }

  lemma {:induction false} PopCountBound(s: seq<byte>, n: nat)
    requires n <= 8 * |s|
    ensures PopCount(s, 0, n) <= n
  {
    if n > 0 {
      PopCountBound(s, n - 1);
    }
  }

  /** Both decoders and both membership tests agree on every bitset. */
  method CheckBitset(src: seq<byte>, hi: uint32) returns (ok: bool)
    requires |src| == BITSET_BYTES
    ensures ok
  {
    hide BitAt, PopCount, MembersBelow, TagAll;
    PopCountBound(src, 0x1_0000);
    var want := new int32[0x1_0000](_ => 0);
    var n := DecodeBitset(src, hi, want);
    var dst := new int32[n](_ => 0);
    var m := Kernels.DecodeBitset(src, hi, dst);
    if m != n || dst[..n] != want[..n] {
      return false;
    }
    var v := 0;
    while v < 0x1_0000
      invariant 0 <= v <= 0x1_0000
    {
      var got := Kernels.Contains(1, src, 0, v);
      if got != BitsetMember(src, v) {
        return false;
      }
      v := v + 1;
    }
    return true;
  }
}
