/** Roaring containers: a set of 16-bit values as an array of little-endian words or as a bitset. */
module Roaring {
  import opened Bytes
  import opened Bits

  type uint16 = v: int | 0 <= v < 0x1_0000

  const BITSET_BYTES: nat := 8192

  /** `(int32_t)((hi << 16) | low)`: the shift drops the high half of hi, the cast is two's complement. */
  function Tag(hi: uint32, low: uint16): (x: int32) {
    var u := hi % 0x1_0000 * 0x1_0000 + low;
    if u < 0x8000_0000 then u else u - 0x1_0000_0000
  }

  /** Tagging with one high half keeps the order of the low halves. */
  lemma TagMonotone(hi: uint32, a: uint16, b: uint16)
    requires a < b
    ensures Tag(hi, a) < Tag(hi, b)
  {
  }

  /** Both halves of an entry can be read off it: the low half is the member, the high half the key of
    * the container. */
  lemma TagHalves(hi: uint32, low: uint16)
    ensures Tag(hi, low) % 0x1_0000 == low && Tag(hi, low) / 0x1_0000 % 0x1_0000 == hi % 0x1_0000
  {
  }

  function TagAll(hi: uint32, lows: seq<uint16>): (t: seq<int32>)
    ensures |t| == |lows| && forall i :: 0 <= i < |lows| ==> t[i] == Tag(hi, lows[i])
  {
    seq(|lows|, i requires 0 <= i < |lows| => Tag(hi, lows[i]))
  }

  /** The entries written for the members `lows` of the container with key hi, half by half. */
  ghost predicate Entries(t: seq<int32>, hi: uint32, lows: seq<uint16>) {
    |t| == |lows| &&
    forall i :: 0 <= i < |t| ==> t[i] % 0x1_0000 == lows[i] && t[i] / 0x1_0000 % 0x1_0000 == hi % 0x1_0000
  }

  lemma TaggedEntries(hi: uint32, lows: seq<uint16>)
    ensures Entries(TagAll(hi, lows), hi, lows)
  {
    hide Tag;
    forall i | 0 <= i < |lows|
      ensures TagAll(hi, lows)[i] % 0x1_0000 == lows[i]
      ensures TagAll(hi, lows)[i] / 0x1_0000 % 0x1_0000 == hi % 0x1_0000
    {
      TagHalves(hi, lows[i]);
    }
  }

  lemma SameHalves(x: int32, y: int32)
    requires x % 0x1_0000 == y % 0x1_0000 && x / 0x1_0000 % 0x1_0000 == y / 0x1_0000 % 0x1_0000
    ensures x == y
  {
  }

  /** A 32-bit entry is determined by its halves. */
  lemma EntriesDetermined(t: seq<int32>, u: seq<int32>, hi: uint32, lows: seq<uint16>)
    requires Entries(t, hi, lows) && Entries(u, hi, lows)
    ensures t == u
  {
    forall i | 0 <= i < |t|
      ensures t[i] == u[i]
    {
      SameHalves(t[i], u[i]);
    }
  }

  // ---- Array containers ----

  function Low(src: seq<byte>, i: nat): uint16
    requires 2 * i + 1 < |src|
  {
    src[2 * i] as int + src[2 * i + 1] as int * 256
  }

  /** The low byte comes first. */
  lemma LowBytes(src: seq<byte>, i: nat)
    requires 2 * i + 1 < |src|
    ensures Low(src, i) % 0x100 == src[2 * i] && Low(src, i) / 0x100 == src[2 * i + 1]
  {
  }

  /** The values of an array container of the given cardinality. */
  function Lows(src: seq<byte>, card: nat): (lows: seq<uint16>)
    requires 2 * card <= |src|
    ensures |lows| == card && forall i :: 0 <= i < card ==> lows[i] == Low(src, i)
  {
    seq(card, i requires 0 <= i < card => Low(src, i))
  }

  /** A container of cardinality zero or less is empty. */
  function ArrayOf(src: seq<byte>, card: int): (lows: seq<uint16>)
    requires 2 * card <= |src|
  {
    if card <= 0 then [] else Lows(src, card)
  }

  lemma BelowKey(q: int, low: uint16)
    ensures var x := q * 0x1_0000 + low; x % 0x100 == low % 0x100 && x / 0x100 % 0x100 == low / 0x100
  {
    var x := q * 0x1_0000 + low;
    assert x == (q * 0x100 + low / 0x100) * 0x100 + low % 0x100;
    assert x / 0x100 == q * 0x100 + low / 0x100;
  }

  lemma BytesOfEntry(x: int32, hi: uint32, low: uint16)
    requires x == Tag(hi, low)
    ensures x % 0x100 == low % 0x100 && x / 0x100 % 0x100 == low / 0x100
  {
    TagHalves(hi, low);
    hide *;
    BelowKey(x / 0x1_0000, low);
  }

  method DecodeArray(src: seq<byte>, card: int, hi: uint32, dst: array<int32>)
    requires 2 * card <= |src| && card <= dst.Length
    modifies dst
    ensures var n := |ArrayOf(src, card)|;
            dst[..n] == TagAll(hi, ArrayOf(src, card)) && dst[n..] == old(dst[n..])
    ensures Entries(dst[..|ArrayOf(src, card)|], hi, ArrayOf(src, card))
    ensures forall k :: 0 <= k < card ==> dst[k] % 0x100 == src[2 * k] && dst[k] / 0x100 % 0x100 == src[2 * k + 1]
  {
    hide Tag, Low;
    var i := 0;
    while i < card
      invariant 0 <= i <= |ArrayOf(src, card)|
      invariant forall k :: 0 <= k < i ==> dst[k] == Tag(hi, Low(src, k))
      invariant forall k :: i <= k < dst.Length ==> dst[k] == old(dst[k])
    {
      dst[i] := Tag(hi, Low(src, i));
      i := i + 1;
    }
    TaggedEntries(hi, ArrayOf(src, card));
    forall k | 0 <= k < card
      ensures dst[k] % 0x100 == src[2 * k] && dst[k] / 0x100 % 0x100 == src[2 * k + 1]
    {
      LowBytes(src, k);
      BytesOfEntry(dst[k], hi, Low(src, k));
    }
  }

  method ArrayMember(src: seq<byte>, card: int, v: uint16) returns (r: bool)
    requires 2 * card <= |src|
    ensures r <==> v in ArrayOf(src, card)
  {
    var i := 0;
    while i < card
      invariant 0 <= i <= |ArrayOf(src, card)|
      invariant forall k :: 0 <= k < i ==> Low(src, k) != v
    {
      if Low(src, i) == v {
        assert ArrayOf(src, card)[i] == v;
        return true;
      }
      i := i + 1;
    }
    return false;
  }

  // ---- Bitset containers ----

  predicate BitsetMember(src: seq<byte>, v: uint16)
    requires |src| == BITSET_BYTES
  {
    BitAt(src, v) == 1
  }

  /** The image is the bitset of the listed values. */
  ghost predicate BitsetOf(img: seq<byte>, lows: seq<uint16>) {
    |img| == BITSET_BYTES && forall v: uint16 :: BitsetMember(img, v) <==> v in lows
  }

  lemma EmptyBitset(img: seq<byte>)
    requires |img| == BITSET_BYTES && forall k :: 0 <= k < |img| ==> img[k] == 0
    ensures BitsetOf(img, [])
  {
    forall v: uint16
      ensures !BitsetMember(img, v)
    {
      BitOfZero(v % 8);
    }
  }

  lemma BitsetAdd(before: seq<byte>, after: seq<byte>, lows: seq<uint16>, v: uint16)
    requires BitsetOf(before, lows) && after == before[v / 8 := SetBit(before[v / 8], v % 8, 1)]
    ensures BitsetOf(after, lows + [v])
  {
  }

  /** Sets bit v for every listed value; any order, duplicates allowed. */
  method BuildBitset(lows: seq<uint16>, img: array<byte>)
    requires img.Length == BITSET_BYTES
    modifies img
    ensures BitsetOf(img[..], lows)
  {
    hide Bit, WithBit;
    var i := 0;
    while i < BITSET_BYTES
      invariant 0 <= i <= BITSET_BYTES
      invariant forall k :: 0 <= k < i ==> img[k] == 0
    {
      img[i] := 0;
      i := i + 1;
    }
    EmptyBitset(img[..]);
    i := 0;
    while i < |lows|
      invariant 0 <= i <= |lows|
      invariant BitsetOf(img[..], lows[..i])
    {
      var v := lows[i];
      ghost var before := img[..];
      img[v / 8] := SetBit(img[v / 8], v % 8, 1);
      BitsetAdd(before, img[..], lows[..i], v);
      assert lows[..i + 1] == lows[..i] + [v];
      i := i + 1;
    }
    assert lows[..|lows|] == lows;
  }

  /** The members below b, ascending. */
  function MembersBelow(src: seq<byte>, b: nat): (m: seq<uint16>)
    requires |src| == BITSET_BYTES && b <= 0x1_0000
  {
    if b == 0 then []
    else MembersBelow(src, b - 1) + if BitAt(src, b - 1) == 1 then [b - 1] else []
  }

  lemma MembersStart(src: seq<byte>, hi: uint32)
    requires |src| == BITSET_BYTES
    ensures PopCount(src, 0, 0) == 0 && TagAll(hi, MembersBelow(src, 0)) == []
  {
  }

  lemma MembersStep(src: seq<byte>, hi: uint32, b: nat)
    requires |src| == BITSET_BYTES && b < 0x1_0000
    ensures PopCount(src, 0, b + 1) == PopCount(src, 0, b) + BitAt(src, b)
    ensures PopCount(src, 0, b + 1) <= PopCount(src, 0, 0x1_0000)
    ensures TagAll(hi, MembersBelow(src, b + 1)) ==
            TagAll(hi, MembersBelow(src, b)) + if BitAt(src, b) == 1 then [Tag(hi, b)] else []
  {
    hide BitAt;
    PopCountSplit(src, 0, b + 1, 0x1_0000 - (b + 1));
  }

  method DecodeBitset(src: seq<byte>, hi: uint32, dst: array<int32>) returns (n: nat)
    requires |src| == BITSET_BYTES && PopCount(src, 0, 0x1_0000) <= dst.Length
    modifies dst
    ensures n == PopCount(src, 0, 0x1_0000)
    ensures dst[..n] == TagAll(hi, MembersBelow(src, 0x1_0000)) && dst[n..] == old(dst[n..])
    ensures Entries(dst[..n], hi, MembersBelow(src, 0x1_0000))
  {
    hide Bit, BitAt, PopCount, MembersBelow, TagAll, Entries;
    n := 0;
    MembersStart(src, hi);
    var b := 0;
    while b < 0x1_0000
      invariant 0 <= b <= 0x1_0000
      invariant n == PopCount(src, 0, b) && n <= dst.Length
      invariant dst[..n] == TagAll(hi, MembersBelow(src, b))
      invariant forall k :: n <= k < dst.Length ==> dst[k] == old(dst[k])
    {
      MembersStep(src, hi, b);
      ghost var before := dst[..n];
      if BitAt(src, b) == 1 {
        dst[n] := Tag(hi, b);
        n := n + 1;
        assert dst[..n] == before + [Tag(hi, b)];
      }
      b := b + 1;
    }
    TaggedEntries(hi, MembersBelow(src, 0x1_0000));
  }

  // ---- Both forms hold the same set ----

  ghost predicate Ascending(s: seq<int>) {
    forall i, j :: 0 <= i < j < |s| ==> s[i] < s[j]
  }

  lemma {:induction false} MembersAre(src: seq<byte>, b: nat)
    requires |src| == BITSET_BYTES && b <= 0x1_0000
    ensures Ascending(MembersBelow(src, b))
    ensures forall v: uint16 :: v in MembersBelow(src, b) <==> v < b && BitsetMember(src, v)
  {
    if b > 0 {
      MembersAre(src, b - 1);
      hide BitAt;
      var m := MembersBelow(src, b - 1);
      forall i | 0 <= i < |m|
        ensures m[i] < b - 1
      {
        assert m[i] in m;
      }
    }
  }

  lemma {:induction false} AscendingCount(s: seq<int>)
    requires Ascending(s)
    ensures |s| == |set x | x in s|
  {
    if s != [] {
      var m := |s| - 1;
      AscendingCount(s[..m]);
      assert (set x | x in s) == (set x | x in s[..m]) + {s[m]};
      assert s[m] !in s[..m];
    }
  }

  lemma SameLength(s: seq<int>, t: seq<int>)
    requires Ascending(s) && Ascending(t) && forall x :: x in s <==> x in t
    ensures |s| == |t|
  {
    AscendingCount(s);
    AscendingCount(t);
    hide Ascending;
    assert (set x | x in s) == (set x | x in t);
  }

  lemma SameLast(s: seq<int>, t: seq<int>)
    requires Ascending(s) && Ascending(t) && |s| == |t| > 0 && forall x :: x in s <==> x in t
    ensures s[|s| - 1] == t[|t| - 1]
  {
    var m := |s| - 1;
    assert s[m] in t && t[m] in s;
    var i :| 0 <= i <= m && t[i] == s[m];
    var j :| 0 <= j <= m && s[j] == t[m];
  }

  lemma AscendingPrefix(s: seq<int>, n: nat)
    requires Ascending(s) && n <= |s|
    ensures Ascending(s[..n])
  {
  }

  lemma DropLast(s: seq<int>, x: int)
    requires s != [] && Ascending(s)
    ensures x in s[..|s| - 1] <==> x in s && x != s[|s| - 1]
  {
  }

  /** Strictly ascending lists of the same values are equal. */
  lemma {:induction false} AscendingUnique(s: seq<int>, t: seq<int>)
    requires Ascending(s) && Ascending(t) && forall x :: x in s <==> x in t
    ensures s == t
    decreases |s|
  {
    SameLength(s, t);
    if s != [] {
      var m := |s| - 1;
      SameLast(s, t);
      hide Ascending;
      forall x
        ensures x in s[..m] <==> x in t[..m]
      {
        DropLast(s, x);
        DropLast(t, x);
      }
      AscendingPrefix(s, m);
      AscendingPrefix(t, m);
      AscendingUnique(s[..m], t[..m]);
      assert s == s[..m] + [s[m]] && t == t[..m] + [t[m]];
    }
  }

  lemma {:induction false} MembersCounted(src: seq<byte>, b: nat)
    requires |src| == BITSET_BYTES && b <= 0x1_0000
    ensures |MembersBelow(src, b)| == PopCount(src, 0, b)
  {
    if b > 0 {
      MembersCounted(src, b - 1);
    }
  }

  /** Tagging an ascending list of distinct values keeps order and members. */
  lemma TaggedMembers(m: seq<uint16>, hi: uint32)
    requires Ascending(m)
    ensures Ascending(TagAll(hi, m))
    ensures forall x :: x in TagAll(hi, m) <==> exists v: uint16 :: v in m && x == Tag(hi, v)
  {
    var out := TagAll(hi, m);
    forall i, j | 0 <= i < j < |out|
      ensures out[i] < out[j]
    {
      TagMonotone(hi, m[i], m[j]);
    }
    hide Tag, TagAll;
    forall x
      ensures x in out <==> exists v: uint16 :: v in m && x == Tag(hi, v)
    {
      if x in out {
        var i :| 0 <= i < |out| && out[i] == x;
        assert m[i] in m;
      }
      if v: uint16 :| v in m && x == Tag(hi, v) {
        var i :| 0 <= i < |m| && m[i] == v;
        assert out[i] == x;
      }
    }
  }

  /** Decoding the bitset of any list, in any order and with duplicates, yields a strictly ascending
    * list of exactly the listed values tagged with the high half, each once. */
  lemma BitsetRoundTrip(img: seq<byte>, lows: seq<uint16>, hi: uint32)
    requires BitsetOf(img, lows)
    ensures var out := TagAll(hi, MembersBelow(img, 0x1_0000));
            && Ascending(out) && Entries(out, hi, MembersBelow(img, 0x1_0000))
            && (forall v: uint16 :: v in lows <==> v in MembersBelow(img, 0x1_0000))
            && (forall x :: x in out <==> exists v: uint16 :: v in lows && x == Tag(hi, v))
            && |out| == |set v | v in lows|
            && PopCount(img, 0, 0x1_0000) == |set v | v in lows|
  {
    var m := MembersBelow(img, 0x1_0000);
    MembersAre(img, 0x1_0000);
    MembersCounted(img, 0x1_0000);
    assert forall v: uint16 :: v in m <==> v in lows;
    hide *;
    TaggedEntries(hi, m);
    TaggedMembers(m, hi);
    AscendingCount(m);
    assert (set x | x in m) == (set v | v in lows);
  }

  /** A sorted array container without duplicates and the bitset built from it decode to the same list. */
  lemma DecodersAgree(src: seq<byte>, card: nat, img: seq<byte>, hi: uint32)
    requires 2 * card <= |src| && Ascending(Lows(src, card)) && BitsetOf(img, Lows(src, card))
    ensures TagAll(hi, Lows(src, card)) == TagAll(hi, MembersBelow(img, 0x1_0000))
  {
    var lows, m := Lows(src, card), MembersBelow(img, 0x1_0000);
    MembersAre(img, 0x1_0000);
    hide MembersBelow, BitsetMember, Lows;
    forall x
      ensures x in lows <==> x in m
    {
      if 0 <= x < 0x1_0000 {
        assert x in m <==> BitsetMember(img, x);
      }
    }
    AscendingUnique(lows, m);
  }

  /** A bitset container has one bit for each 16-bit member. */
  lemma BitsetSize()
    ensures 8 * BITSET_BYTES == 0x1_0000
  {
  }
}
