/** The fast forms of the Roaring operations: bitset decoding by lowest set bits of 64-bit words, and
  * membership by word lookup, blocked linear search and binary search.
  */
module RoaringKernels {
  import opened Bytes
  import opened Bits
  import opened Words
  import opened Roaring

  // ---- Words of a bitset ----

  /** Eight bytes from byte k on as a little-endian word. */
  function Load64(src: seq<byte>, k: nat): nat
    requires k + 8 <= |src|
  {
    Word(src[k..k + 8])
  }

  lemma {:induction false} BitOfShifted(x: nat, j: nat, i: nat)
    ensures Bit(x, i + j) == Bit(Shr(x, j), i)
    decreases j
  {
    if j > 0 {
      BitOfShifted(x / 2, j - 1, i);
    }
  }

  lemma {:induction false} BitOfLow(low: nat, high: nat, n: nat, i: nat)
    requires i < n
    ensures Bit(Joined(low, high, n), i) == Bit(low, i)
    decreases n
  {
    JoinedHalf(low, high, n);
    hide Joined;
    if i > 0 {
      BitOfLow(low / 2, high, n - 1, i - 1);
    }
  }

  /** Bit k of a word is bit k % 8 of its byte k / 8. */
  lemma BitOfWord(s: seq<byte>, k: nat)
    requires k < 8 * |s|
    ensures Bit(Word(s), k) == BitAt(s, k)
  {
    hide Bit, Word;
    BitOfShifted(Word(s), 8 * (k / 8), k % 8);
    WordSplit(s, k / 8);
    WordHead(s[k / 8..]);
    BitOfLow(s[k / 8], Word(s[k / 8..][1..]), 8, k % 8);
  }

  lemma BitOfLoad(src: seq<byte>, word: nat, k: nat)
    requires 8 * word + 8 <= |src| && k < 64
    ensures Bit(Load64(src, 8 * word), k) == BitAt(src, 64 * word + k)
  {
    var s := src[8 * word..8 * word + 8];
    hide Word;
    BitOfWord(s, k);
    assert s[k / 8] == src[8 * word + k / 8];
    assert (64 * word + k) / 8 == 8 * word + k / 8 && (64 * word + k) % 8 == k % 8;
  }

  /** `(x >> j) & 1`. */
  lemma BitIsShift(x: nat, j: nat)
    ensures Bit(x, j) == And(Shr(x, j), 1)
  {
    BitOfShifted(x, j, 0);
    AndOnes(Shr(x, j), 1);
    assert Ones(1) == 1 && Pow2(1) == 2;
  }

  // ---- Decoding by lowest set bits ----

  /** The lowest set bit is the one the trailing zeros end at. */
  lemma {:induction false} LowestBit(x: nat)
    requires x > 0
    ensures Bit(x, Ctz(x)) == 1 && forall i :: 0 <= i < Ctz(x) ==> Bit(x, i) == 0
  {
    if x % 2 == 0 {
      LowestBit(x / 2);
      forall i | 0 <= i < Ctz(x)
        ensures Bit(x, i) == 0
      {
        if i > 0 {
          assert Bit(x, i) == Bit(x / 2, i - 1);
        }
      }
    }
  }

  lemma {:induction false} AndSelf(x: nat)
    ensures And(x, x) == x
  {
    if x > 0 {
      AndSelf(x / 2);
    }
  }

  /** `x & (x - 1)` clears the lowest set bit and nothing else. */
  lemma {:induction false} ClearLowest(x: nat)
    requires x > 0
    ensures And(x, x - 1) == WithBit(x, Ctz(x), 0)
  {
    if x % 2 == 1 {
      assert (x - 1) / 2 == x / 2;
      AndSelf(x / 2);
    } else {
      ClearLowest(x / 2);
      assert (x - 1) / 2 == x / 2 - 1;
    }
  }

  /** w holds the bits of the given word of src from bit b on. */
  ghost predicate Remaining(src: seq<byte>, word: nat, w: nat, b: nat)
    requires 64 * word + 64 <= 8 * |src|
  {
    b <= 64 && w < Pow2(64) && forall i :: 0 <= i < 64 ==> Bit(w, i) == if i < b then 0 else BitAt(src, 64 * word + i)
  }

  lemma WholeWord(src: seq<byte>, word: nat)
    requires |src| == BITSET_BYTES && word < 1024
    ensures Remaining(src, word, Load64(src, 8 * word), 0)
  {
    hide Bit, BitAt, Word, Pow2;
    WordFits(src[8 * word..8 * word + 8]);
    forall i | 0 <= i < 64
      ensures Bit(Load64(src, 8 * word), i) == BitAt(src, 64 * word + i)
    {
      BitOfLoad(src, word, i);
    }
  }

  /** No member between two positions. */
  lemma {:induction false} NoMembers(src: seq<byte>, a: nat, b: nat)
    requires |src| == BITSET_BYTES && a <= b <= 0x1_0000
    requires forall k :: a <= k < b ==> BitAt(src, k) == 0
    ensures MembersBelow(src, b) == MembersBelow(src, a)
    decreases b
  {
    if a < b {
      hide BitAt;
      NoMembers(src, a, b - 1);
    }
  }

  lemma RemainingAt(src: seq<byte>, word: nat, w: nat, b: nat, i: nat)
    requires |src| == BITSET_BYTES && word < 1024 && Remaining(src, word, w, b) && i < 64
    ensures Bit(w, i) == if i < b then 0 else BitAt(src, 64 * word + i)
  {
  }

  /** The lowest set bit of a 64-bit word is among its 64 bits. */
  lemma SomeBit(w: nat, c: nat)
    requires 0 < w && w < Pow2(64) && (forall i :: 0 <= i < c ==> Bit(w, i) == 0)
    ensures c < 64
  {
    if c >= 64 {
      hide Pow2, Bit;
      forall i | 0 <= i < 64
        ensures Bit(w, i) == Bit(0, i)
      {
        BitOfZero(i);
      }
      EqualBits(w, 0, 64);
    }
  }

  lemma RemainingFits(src: seq<byte>, word: nat, w: nat, b: nat)
    requires |src| == BITSET_BYTES && word < 1024 && Remaining(src, word, w, b)
    ensures w < Pow2(64) && b <= 64
  {
  }

  /** The lowest bit left is the next member. */
  lemma LowestIsNext(src: seq<byte>, word: nat, w: nat, b: nat)
    requires |src| == BITSET_BYTES && word < 1024 && w > 0 && Remaining(src, word, w, b)
    ensures var c, base := Ctz(w), 64 * word;
            && b <= c < 64 && BitAt(src, base + c) == 1
            && forall k :: base + b <= k < base + c ==> BitAt(src, k) == 0
  {
    hide Ctz, Bit, BitAt, Remaining, Pow2;
    var c, base := Ctz(w), 64 * word;
    RemainingFits(src, word, w, b);
    LowestBit(w);
    SomeBit(w, c);
    RemainingAt(src, word, w, b, c);
    forall k | base + b <= k < base + c
      ensures BitAt(src, k) == 0
    {
      RemainingAt(src, word, w, b, k - base);
    }
  }

  lemma RemainingIntro(src: seq<byte>, word: nat, w: nat, b: nat)
    requires |src| == BITSET_BYTES && word < 1024 && b <= 64 && w < Pow2(64)
    requires forall i :: 0 <= i < 64 ==> Bit(w, i) == if i < b then 0 else BitAt(src, 64 * word + i)
    ensures Remaining(src, word, w, b)
  {
  }

  lemma ClearedFits(w: nat, c: nat)
    requires 0 < w && w < Pow2(64) && c < 64 && And(w, w - 1) == WithBit(w, c, 0)
    ensures And(w, w - 1) < Pow2(64)
  {
    hide *;
    WithBitFits(w, c, 0, 64);
  }

  /** Clearing the lowest bit leaves the bits after it. */
  lemma ClearedRemain(src: seq<byte>, word: nat, w: nat, b: nat)
    requires |src| == BITSET_BYTES && word < 1024 && w > 0 && Remaining(src, word, w, b)
    requires b <= Ctz(w) < 64
    ensures Remaining(src, word, And(w, w - 1), Ctz(w) + 1)
  {
    var c, x := Ctz(w), And(w, w - 1);
    LowestBit(w);
    ClearLowest(w);
    ClearedFits(w, c);
    hide *;
    forall i | 0 <= i < 64
      ensures Bit(x, i) == if i < c + 1 then 0 else BitAt(src, 64 * word + i)
    {
      BitOfWithBit(w, c, 0, i);
      RemainingAt(src, word, w, b, i);
    }
    RemainingIntro(src, word, x, c + 1);
  }

  /** One turn of the inner loop. */
  lemma NextMember(src: seq<byte>, word: nat, w: nat, b: nat)
    requires |src| == BITSET_BYTES && word < 1024 && w > 0 && Remaining(src, word, w, b)
    ensures var c, base := Ctz(w), 64 * word;
            && b <= c < 64
            && MembersBelow(src, base + c + 1) == MembersBelow(src, base + b) + [base + c]
            && Remaining(src, word, And(w, w - 1), c + 1)
  {
    hide BitAt, Remaining, And, Ctz;
    LowestIsNext(src, word, w, b);
    ClearedRemain(src, word, w, b);
    NoMembers(src, 64 * word + b, 64 * word + Ctz(w));
  }

  /** When no bit is left the word is done. */
  lemma WordDone(src: seq<byte>, word: nat, b: nat)
    requires |src| == BITSET_BYTES && word < 1024 && Remaining(src, word, 0, b)
    ensures MembersBelow(src, 64 * word + 64) == MembersBelow(src, 64 * word + b)
  {
    hide BitAt, MembersBelow, Bit;
    forall k | 64 * word + b <= k < 64 * word + 64
      ensures BitAt(src, k) == 0
    {
      RemainingAt(src, word, 0, b, k - 64 * word);
      BitOfZero(k - 64 * word);
    }
    NoMembers(src, 64 * word + b, 64 * word + 64);
  }

  lemma MembersFit(src: seq<byte>, b: nat)
    requires |src| == BITSET_BYTES && b <= 0x1_0000
    ensures |MembersBelow(src, b)| <= PopCount(src, 0, 0x1_0000)
  {
    MembersCounted(src, b);
    PopCountSplit(src, 0, b, 0x1_0000 - b);
  }

  lemma TagAppend(hi: uint32, lows: seq<uint16>, v: uint16)
    ensures TagAll(hi, lows + [v]) == TagAll(hi, lows) + [Tag(hi, v)]
  {
  }

  method DecodeBitset(src: seq<byte>, hi: uint32, dst: array<int32>) returns (n: nat)
    requires |src| == BITSET_BYTES && PopCount(src, 0, 0x1_0000) <= dst.Length
    modifies dst
    ensures n == PopCount(src, 0, 0x1_0000)
    ensures dst[..n] == TagAll(hi, MembersBelow(src, 0x1_0000)) && dst[n..] == old(dst[n..])
    ensures Entries(dst[..n], hi, MembersBelow(src, 0x1_0000))
  {
    hide Bit, BitAt, PopCount, MembersBelow, TagAll, Remaining, Word, And, Ctz, Entries;
    n := 0;
    MembersStart(src, hi);
    var word := 0;
    while word < 1024
      invariant 0 <= word <= 1024 && n <= dst.Length
      invariant dst[..n] == TagAll(hi, MembersBelow(src, 64 * word))
      invariant forall k :: n <= k < dst.Length ==> dst[k] == old(dst[k])
    {
      var w := Load64(src, word * 8);
      ghost var b := 0;
      WholeWord(src, word);
      while w != 0
        invariant Remaining(src, word, w, b) && b <= 64 && n <= dst.Length
        invariant dst[..n] == TagAll(hi, MembersBelow(src, 64 * word + b))
        invariant forall k :: n <= k < dst.Length ==> dst[k] == old(dst[k])
        decreases 64 - b
      {
        var bit := Ctz(w);
        NextMember(src, word, w, b);
        MembersFit(src, 64 * word + bit + 1);
        TagAppend(hi, MembersBelow(src, 64 * word + b), 64 * word + bit);
        ghost var before := dst[..n];
        dst[n] := Tag(hi, 64 * word + bit);
        assert dst[..n + 1] == before + [Tag(hi, 64 * word + bit)];
        n := n + 1;
        w := And(w, w - 1);
        b := bit + 1;
      }
      WordDone(src, word, b);
      word := word + 1;
    }
    MembersCounted(src, 0x1_0000);
    TaggedEntries(hi, MembersBelow(src, 0x1_0000));
  }

  // ---- Membership ----

  /** Ascending, duplicates allowed. */
  ghost predicate Sorted(s: seq<uint16>) {
    forall i, j :: 0 <= i < j < |s| ==> s[i] <= s[j]
  }

  /** When the linear search reports v: a value that lies in a block of eight is always found, one in
    * the rest only if no greater value of the rest precedes it. */
  ghost predicate LinearHit(lows: seq<uint16>, v: uint16) {
    exists i :: 0 <= i < |lows| && lows[i] == v && forall k :: |lows| / 8 * 8 <= k < i ==> lows[k] <= v
  }

  lemma SortedHit(lows: seq<uint16>, v: uint16)
    requires Sorted(lows)
    ensures LinearHit(lows, v) <==> v in lows
  {
    if v in lows {
      var i :| 0 <= i < |lows| && lows[i] == v;
    }
  }

  /** On an unsorted array membership can be missed. */
  lemma UnsortedMiss()
    ensures var lows: seq<uint16> := [2, 1]; 1 in lows && !LinearHit(lows, 1)
  {
    var lows: seq<uint16> := [2, 1];
    assert lows[0] == 2 && lows[1] == 1;
  }

  lemma HitAt(lows: seq<uint16>, v: uint16, i: nat)
    requires i < |lows| && lows[i] == v && forall k :: |lows| / 8 * 8 <= k < i ==> lows[k] <= v
    ensures LinearHit(lows, v) && v in lows
  {
  }

  lemma NoHit(lows: seq<uint16>, v: uint16, i: nat)
    requires |lows| / 8 * 8 <= i <= |lows| && forall k :: 0 <= k < i ==> lows[k] != v
    requires i < |lows| ==> lows[i] > v
    ensures !LinearHit(lows, v)
  {
  }

  /** A block of eight values at i. */
  predicate BlockHas(src: seq<byte>, i: nat, v: uint16)
    requires 2 * (i + 8) <= |src|
  {
    exists k :: i <= k < i + 8 && Low(src, k) == v
  }

  /** The full blocks of eight values, each compared at once; stops at the first that holds v. */
  method SearchBlocks(src: seq<byte>, card: int, v: uint16) returns (r: bool, i: nat)
    requires 2 * card <= |src|
    ensures var lows := ArrayOf(src, card);
            if r then LinearHit(lows, v) && v in lows
            else i == |lows| / 8 * 8 && forall k :: 0 <= k < i ==> lows[k] != v
  {
    hide LinearHit, Low;
    ghost var lows := ArrayOf(src, card);
    i := 0;
    while i + 8 <= card
      invariant i % 8 == 0 && i <= |lows|
      invariant forall k :: 0 <= k < i ==> lows[k] != v
    {
      if BlockHas(src, i, v) {
        ghost var k :| i <= k < i + 8 && Low(src, k) == v;
        assert i + 8 <= |lows| / 8 * 8;
        HitAt(lows, v, k);
        return true, i;
      }
      i := i + 8;
    }
    return false, i;
  }

  /** Blocks of eight values, then the rest one by one up to the first greater value. */
  method LinearSearch(src: seq<byte>, card: int, v: uint16) returns (r: bool)
    requires 2 * card <= |src|
    ensures r <==> LinearHit(ArrayOf(src, card), v)
    ensures r ==> v in ArrayOf(src, card)
  {
    hide LinearHit, Low;
    ghost var lows := ArrayOf(src, card);
    var i;
    r, i := SearchBlocks(src, card, v);
    if r {
      return;
    }
    while i < card
      invariant |lows| / 8 * 8 <= i <= |lows|
      invariant forall k :: 0 <= k < i ==> lows[k] != v
      invariant forall k :: |lows| / 8 * 8 <= k < i ==> lows[k] <= v
    {
      if Low(src, i) == v {
        HitAt(lows, v, i);
        return true;
      }
      if Low(src, i) > v {
        NoHit(lows, v, i);
        return false;
      }
      i := i + 1;
    }
    NoHit(lows, v, i);
    return false;
  }

  method BinarySearch(src: seq<byte>, card: int, v: uint16) returns (r: bool)
    requires 64 < card && 2 * card <= |src|
    ensures r ==> v in ArrayOf(src, card)
    ensures Sorted(ArrayOf(src, card)) ==> (r <==> v in ArrayOf(src, card))
  {
    ghost var lows := ArrayOf(src, card);
    var lo, hi := 0, card - 1;
    while lo <= hi
      invariant 0 <= lo <= hi + 1 <= card
      invariant Sorted(lows) ==> forall k :: 0 <= k < lo || hi < k < card ==> lows[k] != v
      decreases hi - lo
    {
      var mid := lo + (hi - lo) / 2;
      if Low(src, mid) == v {
        assert lows[mid] == v;
        return true;
      }
      if Low(src, mid) < v {
        lo := mid + 1;
      } else {
        hi := mid - 1;
      }
    }
    return false;
  }

  /** kind 1 is a bitset, anything else an array. An unsorted array can only make the search miss. */
  method Contains(kind: int, src: seq<byte>, card: int, v: uint16) returns (r: bool)
    requires if kind == 1 then |src| == BITSET_BYTES else 2 * card <= |src|
    ensures kind == 1 ==> (r <==> BitsetMember(src, v))
    ensures kind != 1 && r ==> v in ArrayOf(src, card)
    ensures kind != 1 && Sorted(ArrayOf(src, card)) ==> (r <==> v in ArrayOf(src, card))
    ensures kind != 1 && card <= 64 ==> (r <==> LinearHit(ArrayOf(src, card), v))
  {
    hide LinearHit, Word, And, Shr, Bit;
    if kind == 1 {
      var word := v / 64;
      var w := Load64(src, word * 8);
      BitOfLoad(src, word, v % 64);
      BitIsShift(w, v % 64);
      return And(Shr(w, v % 64), 1) == 1;
    }
    if card <= 64 {
      r := LinearSearch(src, card, v);
      if Sorted(ArrayOf(src, card)) {
        SortedHit(ArrayOf(src, card), v);
      }
    } else {
      r := BinarySearch(src, card, v);
    }
  }
}
