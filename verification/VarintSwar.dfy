/** The branch-free varint decoder: one 64-bit load, the terminator found with a trailing-zero count
  * and the seven-bit groups pushed together with masks and shifts.
  */
module VarintSwar {
  import opened Bytes
  import opened Bits
  import opened Words
  import opened Varint

  /** The top bit of every byte. */
  const HIGHS: uint64 := 0x8080_8080_8080_8080
  const ALL: uint64 := 0xFFFF_FFFF_FFFF_FFFF

  /** Group i of a word of seven-bit bytes, moved next to the groups below it. */
  function Group(x: nat, i: nat): nat {
    And(Shr(x, i), Shl(0x7F, 7 * i))
  }

  function Compacted(x: nat): nat {
    Or(Or(Or(Or(Or(Or(Or(Group(x, 0), Group(x, 1)), Group(x, 2)), Group(x, 3)),
                Group(x, 4)), Group(x, 5)), Group(x, 6)), Group(x, 7))
  }

  // ---- Where the varint ends ----

  /** First byte from i on without a continuation bit, or the length. */
  function Terminator(bs: seq<byte>, i: nat): (j: nat)
    requires i <= |bs|
    ensures i <= j <= |bs| && (j < |bs| ==> bs[j] < 128) && forall k :: i <= k < j ==> bs[k] >= 128
    decreases |bs| - i
  {
    if i == |bs| || bs[i] < 128 then i else Terminator(bs, i + 1)
  }

  /** The decoder's answer in terms of the eight bytes it loads. */
  lemma Window(buf: seq<byte>, off: nat)
    requires off + 8 <= |buf|
    ensures var bs := buf[off..off + 8];
            var j := Terminator(bs, 0);
            if j < 8 then
              && VarintLen(buf, off) == j + 1
              && VarintValue(buf, off) == Value(bs[..j + 1])
            else VarintLen(buf, off) == 0 || VarintLen(buf, off) > 8
  {
    hide Value, LenFrom, Pow128;
    var bs := buf[off..off + 8];
    var j := Terminator(bs, 0);
    forall k | off <= k < off + 8
      ensures buf[k] == bs[k - off]
    {
    }
    hide Terminator;
    if j < 8 {
      LenFromIs(buf, off, 0, j + 1);
      SliceOfSlice(buf, off, off + 8, 0, j + 1);
      ValueBound(bs[..j + 1]);
      Pow128At9();
      Pow128Monotone(j + 1, 9);
      NoWrap(Value(bs[..j + 1]));
    } else {
      forall k | off <= k < off + 8
        ensures buf[k] >= 128
      {
        assert buf[k] == bs[k - off];
      }
    }
  }

  lemma Masks()
    ensures Shl(Ones(1), 7) == 0x80 && Ones(7) == 0x7F && Pow2(7) == 128
  {
    assert Pow2(7) == 128;
  }

  lemma ByteOnly(b: byte, rest: nat)
    ensures (b + 256 * rest) % 128 == b % 128 && (b + 256 * rest) / 128 % 2 == b / 128
  {
    assert (b + 256 * rest) / 128 == b / 128 + 2 * rest;
  }

  lemma ShiftBySeven(x: nat)
    ensures Shr(x, 7) == x / 128 && Shl(x, 7) == x * 128 && Pow2(1) == 2
  {
    Masks();
    ShrIsQuotient(x, 7);
    assert Pow2(1) == 2;
    hide Pow2, Shr;
  }

  /** What the two masks make of a word, of which only the lowest byte matters. */
  lemma LowByteMasks(b: byte, rest: nat)
    ensures And(b + 256 * rest, 0x7F) == b % 128
    ensures And(b + 256 * rest, 0x80) == b / 128 * 128
  {
    hide *;
    var x := b + 256 * rest;
    Masks();
    AndOnes(x, 7);
    AndField(x, 1, 7);
    ShiftBySeven(x);
    ByteOnly(b, rest);
    ShiftBySeven(b / 128);
  }

  lemma FirstByte(bs: seq<byte>)
    requires |bs| == 8
    ensures And(Word(bs), 0x80) == 0 <==> Terminator(bs, 0) == 0
    ensures Terminator(bs, 0) == 0 ==> And(Word(bs), 0x7F) == Value(bs[..1])
  {
    LowByteMasks(bs[0], Word(bs[1..]));
    hide And;
    assert bs[..1][1..] == [];
  }

  /** The terminator mask byte by byte. */
  function MaskBytes(bs: seq<byte>): (ts: seq<byte>)
    ensures |ts| == |bs| && forall i :: 0 <= i < |bs| ==> ts[i] == if bs[i] < 128 then 128 else 0
  {
    seq(|bs|, i requires 0 <= i < |bs| => if bs[i] < 128 then 128 else 0)
  }

  lemma TopBit(b: byte)
    ensures Pow2(7) == 128 && Xor(b / 128, 1) == 1 - b / 128
    ensures b == Joined(b % 128, b / 128, 7) && 0x80 == Joined(0, 1, 7)
    ensures Joined(b % 128, 1 - b / 128, 7) == if b < 128 then b + 128 else b - 128
  {
    Masks();
    hide Pow2;
  }

  /** Flipping the top bit of a byte and then keeping only that bit. */
  lemma FlipByte(b: byte)
    ensures var x := if b < 128 then b + 128 else b - 128;
            Xor(b, 0x80) == x && And(x, 0x80) == if b < 128 then 128 else 0
  {
    hide *;
    LowByteMasks(if b < 128 then b + 128 else b - 128, 0);
    TopBit(b);
    var low, high := b % 128, b / 128;
    XorJoined(low, high, 0, 1, 7);
    XorZero(low);
  }

  function FlippedBytes(bs: seq<byte>): (xs: seq<byte>)
    ensures |xs| == |bs| && forall i :: 0 <= i < |bs| ==> xs[i] == if bs[i] < 128 then bs[i] + 128 else bs[i] - 128
  {
    seq(|bs|, i requires 0 <= i < |bs| => if bs[i] < 128 then bs[i] + 128 else bs[i] - 128)
  }

  /** A byte repeated. */
  function Repeat(b: byte, n: nat): (s: seq<byte>)
    ensures |s| == n && forall i :: 0 <= i < n ==> s[i] == b
  {
    if n == 0 then [] else [b] + Repeat(b, n - 1)
  }

  function Lanes(n: nat): nat {
    if n == 0 then 0 else 1 + 256 * Lanes(n - 1)
  }

  lemma {:induction false} WordOfRepeat(b: byte, n: nat)
    ensures Word(Repeat(b, n)) == b * Lanes(n)
  {
    if n > 0 {
      WordOfRepeat(b, n - 1);
      assert Repeat(b, n)[1..] == Repeat(b, n - 1);
      Associate(b, 256, Lanes(n - 1));
    }
  }

  /** The constants as words of equal bytes. */
  lemma Constants()
    ensures HIGHS == Word(Repeat(0x80, 8)) && ALL == Word(Repeat(0xFF, 8))
  {
    WordOfRepeat(0x80, 8);
    WordOfRepeat(0xFF, 8);
    assert Lanes(8) == 0x0101_0101_0101_0101;
  }

  /** Bytewise form of the terminator mask. */
  lemma MaskIsBytewise(bs: seq<byte>)
    requires |bs| == 8
    ensures And(Xor(Word(bs), HIGHS), HIGHS) == Word(MaskBytes(bs))
  {
    var highs, xs, ts := Repeat(0x80, 8), FlippedBytes(bs), MaskBytes(bs);
    hide *;
    Constants();
    forall i | 0 <= i < 8
      ensures xs[i] == Xor(bs[i], highs[i]) && ts[i] == And(xs[i], highs[i])
    {
      FlipByte(bs[i]);
    }
    XorBytes(bs, highs, xs);
    AndBytes(xs, highs, ts);
  }

  lemma CtzTopBit(rest: nat)
    ensures Ctz(128 + 256 * rest) == 7
  {
    assert Ctz(1 + 2 * rest) == 0;
    hide Ctz;
    Masks();
    CtzShift(1 + 2 * rest, 7);
  }

  lemma CtzNextByte(rest: nat)
    requires rest > 0
    ensures Ctz(256 * rest) == 8 + Ctz(rest)
  {
    hide Ctz;
    Pow2At8();
    CtzShift(rest, 8);
  }

  /** The lowest set bit of a word of bytes that are 0 or 128 is the top bit of the first 128. */
  lemma {:induction false} CtzOfMask(ts: seq<byte>, j: nat)
    requires j <= |ts| && (forall k :: 0 <= k < j ==> ts[k] == 0) && (j < |ts| ==> ts[j] == 128)
    ensures if j < |ts| then Word(ts) > 0 && Ctz(Word(ts)) == 8 * j + 7 else Word(ts) == 0
  {
    hide Ctz;
    if ts != [] {
      if j == 0 {
        CtzTopBit(Word(ts[1..]));
      } else {
        CtzOfMask(ts[1..], j - 1);
        if j < |ts| {
          CtzNextByte(Word(ts[1..]));
        }
      }
    }
  }

  lemma TerminatorMask(bs: seq<byte>)
    requires |bs| == 8
    ensures var t, j := And(Xor(Word(bs), HIGHS), HIGHS), Terminator(bs, 0);
            if j < 8 then t > 0 && Ctz(t) == 8 * j + 7 else t == 0
  {
    hide *;
    MaskIsBytewise(bs);
    CtzOfMask(MaskBytes(bs), Terminator(bs, 0));
  }

  // ---- Masking and compaction ----

  lemma Pow2Of64()
    ensures Pow2(64) == TWO64
  {
    assert TWO64 == 0x1_0000_0000 * 0x1_0000_0000;
    hide *;
    Pow2At8();
    PowersAdd(8, 8);
    PowersAdd(16, 16);
    PowersAdd(32, 32);
  }

  lemma AllOnes()
    ensures ALL == Ones(64)
  {
    hide Pow2;
    Pow2Of64();
  }

  lemma UpToTerminator(bs: seq<byte>, j: nat)
    requires |bs| == 8 && j < 8
    ensures And(Word(bs), if 8 * j + 7 < 63 then Ones(8 * j + 8) else ALL) == Word(bs[..j + 1])
  {
    hide *;
    AllOnes();
    AndOnes(Word(bs), 8 * (j + 1));
    WordSplit(bs, j + 1);
  }

  lemma EightGroupsFit(s: seq<byte>)
    requires |s| <= 8
    ensures Value(s) < TWO64
  {
    hide Value, Pow128;
    ValueBound(s);
    Pow128At9();
    Pow128Monotone(|s|, 9);
  }

  /** The payload groups of the varint, followed by zeros. */
  function Stripped(bs: seq<byte>, j: nat): (gs: seq<byte>)
    requires |bs| == 8 && j < 8
    ensures |gs| == 8 && forall i :: 0 <= i < 8 ==> gs[i] == if i <= j then bs[i] % 128 else 0
  {
    seq(8, i requires 0 <= i < 8 => if i <= j then bs[i] % 128 else 0)
  }

  /** The bytes of the varint, followed by zeros. */
  function Kept(bs: seq<byte>, j: nat): (ms: seq<byte>)
    requires |bs| == 8 && j < 8
    ensures |ms| == 8 && forall i :: 0 <= i < 8 ==> ms[i] == if i <= j then bs[i] else 0
    ensures ms[..j + 1] == bs[..j + 1]
  {
    seq(8, i requires 0 <= i < 8 => if i <= j then bs[i] else 0)
  }

  lemma LowsMask()
    ensures Xor(ALL, HIGHS) == Word(Repeat(0x7F, 8))
  {
    hide *;
    Constants();
    FlipByte(0xFF);
    XorBytes(Repeat(0xFF, 8), Repeat(0x80, 8), Repeat(0x7F, 8));
  }

  /** Zero bytes above a word add nothing. */
  lemma {:induction false} ZerosAbove(s: seq<byte>, t: seq<byte>)
    requires |s| <= |t| && t[..|s|] == s && forall i :: |s| <= i < |t| ==> t[i] == 0
    ensures Word(t) == Word(s)
    decreases |t|
  {
    if t != [] {
      if s == [] {
        ZerosAbove([], t[1..]);
      } else {
        assert s[0] == t[0] && t[1..][..|s| - 1] == s[1..];
        ZerosAbove(s[1..], t[1..]);
      }
    }
  }

  lemma StripWord(bs: seq<byte>, j: nat)
    requires |bs| == 8 && j < 8
    ensures And(Word(bs[..j + 1]), Xor(ALL, HIGHS)) == Word(Stripped(bs, j))
  {
    hide *;
    var gs, lows, ms := Stripped(bs, j), Repeat(0x7F, 8), Kept(bs, j);
    LowsMask();
    ZerosAbove(bs[..j + 1], ms);
    forall i | 0 <= i < 8
      ensures gs[i] == And(ms[i], lows[i])
    {
      LowByteMasks(ms[i], 0);
    }
    AndBytes(ms, lows, gs);
  }

  /** The first i groups OR-ed together. */
  function CompactedTo(x: nat, i: nat): nat {
    if i == 0 then 0 else Or(CompactedTo(x, i - 1), Group(x, i - 1))
  }

  lemma CompactedNext(x: nat, i: nat)
    ensures CompactedTo(x, i + 1) == Or(CompactedTo(x, i), Group(x, i))
  {
  }

  lemma CompactedUnrolled(x: nat)
    ensures Compacted(x) == CompactedTo(x, 8)
  {
    assert CompactedTo(x, 0) == 0;
    hide Or, Group, CompactedTo;
    OrZero(Group(x, 0));
    CompactedNext(x, 0);
    CompactedNext(x, 1);
    CompactedNext(x, 2);
    CompactedNext(x, 3);
    CompactedNext(x, 4);
    CompactedNext(x, 5);
    CompactedNext(x, 6);
    CompactedNext(x, 7);
  }

  lemma GroupShift(g: byte, i: nat)
    requires g < 128
    ensures Shl(g, 7 * i) == Shifted(g, i)
  {
    Pow128Is(i);
  }

  lemma LowSeven(b: byte, rest: nat)
    requires b < 128
    ensures (b + 256 * rest) % 128 == b
  {
  }

  lemma ByteOfWord(gs: seq<byte>, i: nat)
    requires i < |gs| && gs[i] < 128
    ensures Shr(Word(gs), 8 * i) % 128 == gs[i]
  {
    WordSplit(gs, i);
    var rest := Word(gs[i..][1..]);
    assert Word(gs[i..]) == gs[i] + 256 * rest;
    hide *;
    LowSeven(gs[i], rest);
  }

  /** Byte i of the word lands in group i. */
  lemma GroupIs(gs: seq<byte>, i: nat)
    requires |gs| == 8 && i < 8 && gs[i] < 128
    ensures Group(Word(gs), i) == Shifted(gs[i], i)
  {
    var x := Word(gs);
    Masks();
    GroupShift(gs[i], i);
    ByteOfWord(gs, i);
    assert Group(x, i) == And(Shr(x, i), Shl(0x7F, 7 * i));
    hide *;
    AndField(Shr(x, i), 7, 7 * i);
    ShrTwice(x, i, 7 * i);
  }

  lemma CompactStep(gs: seq<byte>, i: nat)
    requires |gs| == 8 && i < 8 && forall k :: 0 <= k < 8 ==> gs[k] < 128
    ensures Or(Value(gs[..i]), Group(Word(gs), i)) == Value(gs[..i + 1])
  {
    GroupIs(gs, i);
    assert gs[..i + 1] == gs[..i] + [gs[i]];
    hide *;
    ValueAppend(gs[..i], gs[i]);
    ValueBound(gs[..i]);
    OrGroup(Value(gs[..i]), gs[i], i);
  }

  lemma {:induction false} CompactedValue(gs: seq<byte>, i: nat)
    requires |gs| == 8 && i <= 8 && forall k :: 0 <= k < 8 ==> gs[k] < 128
    ensures CompactedTo(Word(gs), i) == Value(gs[..i])
  {
    if i > 0 {
      CompactedValue(gs, i - 1);
      hide Or, Group, Value, Word;
      CompactStep(gs, i - 1);
    }
  }

  lemma CompactWord(gs: seq<byte>)
    requires |gs| == 8 && forall i :: 0 <= i < 8 ==> gs[i] < 128
    ensures Compacted(Word(gs)) == Value(gs)
  {
    hide *;
    CompactedUnrolled(Word(gs));
    CompactedValue(gs, 8);
    assert gs[..8] == gs;
  }

  /** The stripped groups denote what the varint denotes. */
  lemma {:induction false} SameValue(s: seq<byte>, gs: seq<byte>)
    requires |s| <= |gs|
    requires forall i :: 0 <= i < |gs| ==> gs[i] == if i < |s| then s[i] % 128 else 0
    ensures Value(gs) == Value(s)
    decreases |gs|
  {
    if gs != [] {
      if s == [] {
        SameValue([], gs[1..]);
      } else {
        SameValue(s[1..], gs[1..]);
      }
    }
  }

  lemma GroupsOf(bs: seq<byte>, j: nat)
    requires |bs| == 8 && j < 8
    ensures Compacted(And(Word(bs[..j + 1]), Xor(ALL, HIGHS))) == Value(bs[..j + 1])
    ensures Value(bs[..j + 1]) < TWO64
  {
    hide *;
    StripWord(bs, j);
    CompactWord(Stripped(bs, j));
    SameValue(bs[..j + 1], Stripped(bs, j));
    EightGroupsFit(bs[..j + 1]);
  }

  // ---- The decoder ----

  /** Needs eight readable bytes. A varint that ends among them is decoded as the byte-at-a-time decoder
    * does; for a longer or malformed one the result is 0 and the caller falls back to that decoder. */
  method Decode(buf: seq<byte>, off: nat) returns (n: nat, value: uint64)
    requires off + 8 <= |buf|
    ensures n == if VarintLen(buf, off) <= 8 then VarintLen(buf, off) else 0
    ensures n > 0 ==> value == VarintValue(buf, off)
  {
    hide *;
    ghost var bs := buf[off..off + 8];
    ghost var j := Terminator(bs, 0);
    Window(buf, off);
    var word := Word(buf[off..off + 8]);
    FirstByte(bs);
    if And(word, 0x80) == 0 {
      return 1, And(word, 0x7F);
    }
    var flipped := Xor(word, HIGHS);
    var termMask := And(flipped, HIGHS);
    TerminatorMask(bs);
    if termMask == 0 {
      return 0, 0;
    }
    var tagBits := Ctz(termMask);
    var mask := if tagBits < 63 then Ones(tagBits + 1) else ALL;
    var masked := And(word, mask);
    UpToTerminator(bs, j);
    var stripped := And(masked, Xor(ALL, HIGHS));
    GroupsOf(bs, j);
    value := Compacted(stripped);
    return tagBits / 8 + 1, value;
  }
}
