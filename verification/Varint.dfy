/** Protobuf base-128 varints over 64-bit values. */
module Varint {
  import opened Bytes
  import opened Bits
  import opened Words

  const TWO63: int := 0x8000_0000_0000_0000
  const TWO64: int := 0x1_0000_0000_0000_0000

  function Pow128(k: nat): (p: nat)
    ensures p > 0
  {
    if k == 0 then 1 else 128 * Pow128(k - 1)
  }

  lemma Pow128At9()
    ensures Pow128(9) == TWO63
  {
  }

  lemma {:induction false} Pow128Monotone(j: nat, k: nat)
    requires j <= k
    ensures Pow128(j) <= Pow128(k)
    decreases k - j
  {
    if j < k {
      Pow128Monotone(j, k - 1);
    }
  }

  // ---- What a varint denotes ----

  /** Seven payload bits per byte, least significant group first; unbounded. */
  function Value(s: seq<byte>): nat {
    if s == [] then 0 else s[0] % 128 + 128 * Value(s[1..])
  }

  /** The shortest encoding of v. */
  function Encoded(v: nat): (s: seq<byte>)
    ensures s != []
  {
    if v < 128 then [v] else [128 + v % 128] + Encoded(v / 128)
  }

  function LenFrom(s: seq<byte>, off: nat, k: nat): (n: nat)
    ensures n > 0 ==> k < n <= 10 && off + n <= |s| && s[off + n - 1] < 128
    ensures n > 0 ==> forall j :: off + k <= j < off + n - 1 ==> s[j] >= 128
    ensures n == 0 ==> forall j :: off + k <= j < off + 10 && j < |s| ==> s[j] >= 128
    decreases 10 - k
  {
    if k >= 10 || off + k >= |s| then 0
    else if s[off + k] < 128 then k + 1
    else LenFrom(s, off, k + 1)
  }

  /** Number of bytes of the varint at off, 0 when it does not end within the buffer or within ten bytes. */
  function VarintLen(s: seq<byte>, off: nat): nat {
    LenFrom(s, off, 0)
  }

  /** Its value: bits beyond 2^64 are dropped. */
  function VarintValue(s: seq<byte>, off: nat): uint64
    requires VarintLen(s, off) > 0
  {
    Value(s[off..off + VarintLen(s, off)]) % TWO64
  }

  /** `(b & 0x7F) << (7 * k)`, before truncation to 64 bits. */
  function Shifted(b: byte, k: nat): nat {
    b % 128 * Pow128(k)
  }

  lemma Distribute(a: nat, b: nat, p: nat)
    ensures 128 * (a + b * p) == 128 * a + b * (128 * p)
  {
  }

  lemma {:induction false} ValueAppend(s: seq<byte>, b: byte)
    ensures Value(s + [b]) == Value(s) + Shifted(b, |s|)
  {
    if s == [] {
      assert [b][1..] == [];
      assert Value([b]) == b % 128;
    } else {
      ValueAppend(s[1..], b);
      assert (s + [b])[1..] == s[1..] + [b];
      Distribute(Value(s[1..]), b % 128, Pow128(|s| - 1));
    }
  }

  lemma {:induction false} ValueBound(s: seq<byte>)
    ensures Value(s) < Pow128(|s|)
  {
    if s != [] {
      ValueBound(s[1..]);
    }
  }

  // ---- Decoding ----

  lemma {:induction false} Pow128Is(k: nat)
    ensures Pow128(k) == Pow2(7 * k)
  {
    if k > 0 {
      Pow128Is(k - 1);
      PowersAdd(7, 7 * (k - 1));
      assert Pow2(7) == 128;
    }
  }

  lemma OrGroup(acc: nat, b: byte, k: nat)
    requires acc < Pow128(k)
    ensures Or(acc, Shifted(b, k)) == acc + Shifted(b, k)
  {
    Pow128Is(k);
    OrDisjoint(acc, b % 128, 7 * k);
  }

  lemma NoWrap(x: nat)
    requires x < TWO64
    ensures x % TWO64 == x
  {
  }

  lemma Below(acc: nat, g: nat, p: nat)
    requires acc < p && g < 128
    ensures acc + g * p < 128 * p
  {
  }

  lemma LowGroup(acc: nat, b: byte, k: nat)
    requires k < 9 && acc < Pow128(k)
    ensures acc + Shifted(b, k) < TWO64
  {
    Pow128At9();
    Pow128Monotone(k + 1, 9);
    var g, p := b % 128, Pow128(k);
    assert Pow128(k + 1) == 128 * p && TWO63 < TWO64;
    hide *;
    Below(acc, g, p);
  }

  lemma TopShift(b: byte)
    ensures Shifted(b, 9) == b % 2 * TWO63 + b % 128 / 2 * TWO64
  {
    Pow128At9();
    assert b % 128 == b % 128 / 2 * 2 + b % 2;
    hide Pow128;
  }

  lemma TopBits(r: nat, q: nat, acc: nat)
    requires r < 2 && acc < TWO63
    ensures (r * TWO63 + q * TWO64) % TWO64 == r * TWO63
    ensures (acc + (r * TWO63 + q * TWO64)) % TWO64 == acc + r * TWO63
  {
    RemainderIs(r * TWO63 + q * TWO64, TWO64, q, r * TWO63);
    RemainderIs(acc + (r * TWO63 + q * TWO64), TWO64, q, acc + r * TWO63);
  }

  lemma ShiftTo63(r: nat)
    ensures Shl(r, 63) == r * TWO63 && Pow2(63) == TWO63
  {
    Pow128At9();
    Pow128Is(9);
  }

  /** Only the lowest bit of the tenth group survives. */
  lemma TopGroup(acc: nat, b: byte)
    requires acc < Pow128(9)
    ensures Or(acc, Shifted(b, 9) % TWO64) == (acc + Shifted(b, 9)) % TWO64
  {
    hide *;
    Pow128At9();
    TopShift(b);
    TopBits(b % 2, b % 128 / 2, acc);
    ShiftTo63(b % 2);
    OrDisjoint(acc, b % 2, 63);
  }

  /** OR-ing one group into the accumulator in 64-bit arithmetic adds it modulo 2^64, because the group
    * is shifted past every bit set so far. */
  lemma AccumulateGroup(acc: nat, b: byte, k: nat)
    requires k < 10 && acc < Pow128(k)
    ensures Or(acc, Shifted(b, k) % TWO64) == (acc + Shifted(b, k)) % TWO64
    ensures k < 9 ==> acc + Shifted(b, k) < TWO64
  {
    hide *;
    if k < 9 {
      LowGroup(acc, b, k);
      OrGroup(acc, b, k);
      NoWrap(Shifted(b, k));
      NoWrap(acc + Shifted(b, k));
    } else {
      TopGroup(acc, b);
    }
  }

  /** v is the value of the first k groups. */
  ghost predicate Groups(buf: seq<byte>, off: nat, k: nat, v: nat) {
    if k == 0 then v == 0 else off + k <= |buf| && v == Value(buf[off..off + k])
  }

  lemma GroupsEmpty(buf: seq<byte>, off: nat)
    ensures Groups(buf, off, 0, 0)
  {
  }

  /** Appending a byte to the groups read so far. */
  lemma GroupsValue(buf: seq<byte>, off: nat, k: nat, v: uint64)
    requires off + k < |buf| && Groups(buf, off, k, v)
    ensures v < Pow128(k)
    ensures Value(buf[off..off + k + 1]) == v + Shifted(buf[off + k], k)
  {
    hide Shifted, Pow128;
    var group, b := buf[off..off + k], buf[off + k];
    if k == 0 {
      assert group == [];
    }
    ValueAppend(group, b);
    ValueBound(group);
    assert buf[off..off + k + 1] == group + [b];
  }

  lemma GroupsIntro(buf: seq<byte>, off: nat, k: nat, v: nat)
    requires 0 < k && off + k <= |buf|
    ensures Groups(buf, off, k, v) <==> v == Value(buf[off..off + k])
    ensures 0 <= v % TWO64 < TWO64
    ensures v < TWO64 ==> v % TWO64 == v
  {
  }

  lemma GroupsStep(buf: seq<byte>, off: nat, k: nat, v: uint64)
    requires k < 10 && off + k < |buf| && Groups(buf, off, k, v)
    ensures var v' := Or(v, Shifted(buf[off + k], k) % TWO64);
            && 0 <= v' < TWO64
            && v' == Value(buf[off..off + k + 1]) % TWO64
            && (k < 9 ==> Groups(buf, off, k + 1, v'))
  {
    hide Value, Pow128, Shifted, Groups, Or;
    GroupsValue(buf, off, k, v);
    AccumulateGroup(v, buf[off + k], k);
    GroupsIntro(buf, off, k + 1, Or(v, Shifted(buf[off + k], k) % TWO64));
  }

  /** n == 0 reports an unterminated varint; value is meaningful only when n > 0. */
  method DecodeVarint(buf: seq<byte>, off: nat) returns (n: nat, value: uint64)
    ensures n == VarintLen(buf, off)
    ensures n > 0 ==> value == VarintValue(buf, off)
  {
    hide Pow128, Value, Shifted, Or;
    var v: uint64 := 0;
    var k := 0;
    GroupsEmpty(buf, off);
    while k < 10
      invariant 0 <= k <= 10
      invariant VarintLen(buf, off) == LenFrom(buf, off, k)
      invariant k < 10 ==> Groups(buf, off, k, v)
    {
      if off + k >= |buf| {
        return 0, 0;
      }
      var b := buf[off + k];
      GroupsStep(buf, off, k, v);
      v := Or(v, Shifted(b, k) % TWO64);
      if b < 128 {
        return k + 1, v;
      }
      k := k + 1;
    }
    return 0, 0;
  }

  /** The length alone. */
  method SkipVarint(buf: seq<byte>, off: nat) returns (n: nat)
    ensures n == VarintLen(buf, off)
  {
    var v;
    n, v := DecodeVarint(buf, off);
  }

  // ---- Encoding ----

  /** The byte written for the lowest group, and the groups after it. */
  lemma EncodedStep(v: nat, done: seq<byte>)
    ensures var c: byte := v % 128 + if v / 128 != 0 then 128 else 0;
            done + Encoded(v) == done + [c] + if v / 128 != 0 then Encoded(v / 128) else []
  {
  }

  method EncodeVarint(o: array<byte>, value: uint64) returns (n: nat)
    requires |Encoded(value)| <= o.Length
    modifies o
    ensures n == |Encoded(value)| && o[..n] == Encoded(value)
    ensures o[n..] == old(o[n..])
  {
    hide Encoded;
    var v := value;
    var more := true;
    n := 0;
    while more
      invariant n <= o.Length
      invariant more ==> o[..n] + Encoded(v) == Encoded(value)
      invariant !more ==> o[..n] == Encoded(value)
      invariant o[n..] == old(o[n..])
      decreases more, v
    {
      ghost var done := o[..n];
      EncodedStep(v, done);
      var b := v % 128;
      v := v / 128;
      var c: byte := b + if v != 0 then 128 else 0;
      assert done + [c] + (if v != 0 then Encoded(v) else []) == Encoded(value);
      assert done + [c] + [] == done + [c];
      o[n] := c;
      n := n + 1;
      assert o[..n] == done + [c];
      more := v != 0;
    }
  }

  method VarintSize(value: uint64) returns (n: nat)
    ensures n == |Encoded(value)|
  {
    var v := value;
    n := 1;
    while v >= 0x80
      invariant n - 1 + |Encoded(v)| == |Encoded(value)|
    {
      v := v / 128;
      n := n + 1;
    }
  }

  // ---- Round trip and minimality ----

  lemma {:induction false} EncodedValue(v: nat)
    ensures Value(Encoded(v)) == v
  {
    if v >= 128 {
      EncodedValue(v / 128);
      assert Encoded(v)[1..] == Encoded(v / 128);
    }
  }

  /** Every byte but the last carries the continuation bit. */
  lemma {:induction false} EncodedShape(v: nat)
    ensures var s := Encoded(v);
            s[|s| - 1] < 128 && forall k :: 0 <= k < |s| - 1 ==> s[k] >= 128
  {
    if v >= 128 {
      EncodedShape(v / 128);
    }
  }

  lemma {:induction false} EncodedSize(v: nat, n: nat)
    requires 1 <= n && v < Pow128(n)
    ensures |Encoded(v)| <= n
  {
    if v >= 128 {
      assert n >= 2 by { assert Pow128(1) == 128 * Pow128(0); }
      EncodedSize(v / 128, n - 1);
    }
  }

  lemma EncodedFits(v: uint64)
    ensures |Encoded(v)| <= 10
  {
    Pow128At9();
    assert Pow128(10) == 128 * Pow128(9);
    EncodedSize(v, 10);
  }

  lemma LenFromIs(s: seq<byte>, off: nat, k: nat, n: nat)
    requires k < n <= 10 && off + n <= |s| && s[off + n - 1] < 128
    requires forall j :: off + k <= j < off + n - 1 ==> s[j] >= 128
    ensures LenFrom(s, off, k) == n
  {
  }

  /** Decoding at the start of an encoded 64-bit value returns it, whatever comes before and after. */
  lemma DecodeEncoded(s: seq<byte>, off: nat, v: uint64)
    requires off + |Encoded(v)| <= |s| && s[off..off + |Encoded(v)|] == Encoded(v)
    ensures VarintLen(s, off) == |Encoded(v)| && VarintValue(s, off) == v
  {
    hide Encoded, Value, Pow128, LenFrom;
    var e := Encoded(v);
    EncodedShape(v);
    EncodedFits(v);
    EncodedValue(v);
    forall j | off <= j < off + |e|
      ensures s[j] == e[j - off]
    {
      assert s[j] == s[off..off + |e|][j - off];
    }
    LenFromIs(s, off, 0, |e|);
  }

  /** No byte string that decodes to v is shorter than its encoding. */
  lemma EncodedIsShortest(t: seq<byte>)
    requires t != [] && VarintLen(t, 0) == |t|
    ensures |Encoded(VarintValue(t, 0))| <= |t|
  {
    var v := VarintValue(t, 0);
    assert t[0..|t|] == t;
    if |t| < 10 {
      ValueBound(t);
      Pow128At9();
      Pow128Monotone(|t|, 9);
      EncodedSize(v, |t|);
    } else {
      EncodedFits(v);
    }
  }

  // ---- Varints in bits ----

  /** A varint is the bytes up to and including the first one below 0x80, at most ten. */
  lemma VarintLenIs(s: seq<byte>, off: nat, n: nat)
    requires n > 0
    ensures VarintLen(s, off) == n <==>
            && n <= 10 && off + n <= |s| && s[off + n - 1] < 0x80
            && forall j :: off <= j < off + n - 1 ==> s[j] >= 0x80
  {
    hide LenFrom;
    if n <= 10 && off + n <= |s| && s[off + n - 1] < 0x80 && forall j :: off <= j < off + n - 1 ==> s[j] >= 0x80 {
      LenFromIs(s, off, 0, n);
    }
  }

  lemma ValueJoined(t: seq<byte>)
    requires t != []
    ensures Value(t) == Joined(t[0] % 128, Value(t[1..]), 7) && t[0] % 128 < Pow2(7) && Pow2(7) == 128
  {
    assert Pow2(3) == 8 && Pow2(7) == 16 * Pow2(3);
  }

  /** Byte i holds bits 7 * i to 7 * i + 6 of the value. */
  lemma {:induction false} ValueBit(t: seq<byte>, i: nat, j: nat)
    requires i < |t| && j < 7
    ensures Bit(Value(t), 7 * i + j) == Bit(t[i], j)
  {
    hide *;
    ValueJoined(t);
    JoinedBit(t[0] % 128, Value(t[1..]), 7, 7 * i + j);
    if i > 0 {
      ValueBit(t[1..], i - 1, j);
    } else {
      RemainderBit(t[0], 7, j);
    }
  }

  lemma {:induction false} ValueEnds(t: seq<byte>, j: nat)
    requires 7 * |t| <= j
    ensures Bit(Value(t), j) == 0
  {
    if t == [] {
      BitOfZero(j);
    } else {
      hide *;
      ValueJoined(t);
      JoinedBit(t[0] % 128, Value(t[1..]), 7, j);
      ValueEnds(t[1..], j - 7);
    }
  }

  /** The decoded value bit by bit: seven bits from each byte, the first byte lowest, and nothing from bit 64 on. */
  lemma DecodedBit(s: seq<byte>, off: nat, i: nat, j: nat)
    requires var n := VarintLen(s, off); 0 < n && i < 10 && j < 7
    ensures var n := VarintLen(s, off);
            Bit(VarintValue(s, off), 7 * i + j) == if i < n && 7 * i + j < 64 then Bit(s[off + i], j) else 0
  {
    hide LenFrom, Value, Bit;
    var n := VarintLen(s, off);
    var t := s[off..off + n];
    assert Pow2(64) == TWO64 by {
      ShiftTo63(0);
    }
    hide Pow2;
    RemainderBit(Value(t), 64, 7 * i + j);
    if i < n {
      ValueBit(t, i, j);
    } else {
      ValueEnds(t, 7 * i + j);
    }
  }
}
