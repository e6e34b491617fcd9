/** Base64 (RFC 4648 section 4): the bit-serial encoder, the strict bit-serial decoder, and the proof
  * that they undo each other.
  */
module Base64 {
  import opened Bytes
  import opened Bits
  import opened Words

  type sextet = v: int | 0 <= v < 64

  const PAD: byte := 0x3D

  // ---- Alphabet ----

  /** A-Z a-z 0-9 + / */
  function Alpha(v: sextet): byte {
    if v < 26 then 0x41 + v
    else if v < 52 then 0x61 + (v - 26)
    else if v < 62 then 0x30 + (v - 52)
    else if v == 62 then 0x2B
    else 0x2F
  }

  predicate InAlphabet(c: byte) {
    0x41 <= c <= 0x5A || 0x61 <= c <= 0x7A || 0x30 <= c <= 0x39 || c == 0x2B || c == 0x2F
  }

  /** The sextet a character stands for. */
  function ValueOf(c: byte): (v: sextet)
    requires InAlphabet(c)
    ensures Alpha(v) == c
  {
    if 0x41 <= c <= 0x5A then c - 0x41
    else if 0x61 <= c <= 0x7A then c - 0x61 + 26
    else if 0x30 <= c <= 0x39 then c - 0x30 + 52
    else if c == 0x2B then 62
    else 63
  }

  lemma AlphaInjective(v: sextet)
    ensures InAlphabet(Alpha(v)) && ValueOf(Alpha(v)) == v && Alpha(v) != PAD
  {
  }

  const UPPER: string := "ABCDEFGHIJKLMNOPQRSTUVWXYZ"
  const LOWER: string := "abcdefghijklmnopqrstuvwxyz"
  const REST: string := "0123456789+/"

  /** The alphabet as RFC 4648 prints it: the three texts one after the other. */
  function Letter(v: sextet): char {
    if v < 26 then UPPER[v] else if v < 52 then LOWER[v - 26] else REST[v - 52]
  }

  lemma UpperAt(i: nat)
    requires i < 26
    ensures UPPER[i] as int == 0x41 + i
  {
  }

  lemma LowerAt(i: nat)
    requires i < 26
    ensures LOWER[i] as int == 0x61 + i
  {
  }

  lemma RestAt(i: nat)
    requires i < 12
    ensures REST[i] as int == if i < 10 then 0x30 + i else if i == 10 then 0x2B else 0x2F
  {
  }

  /** Which character stands for which sextet. */
  lemma AlphabetIs(v: sextet)
    ensures Alpha(v) == Letter(v) as int
    ensures InAlphabet(Letter(v) as int) && ValueOf(Letter(v) as int) == v
    ensures Letter(v) != '=' && PAD == '=' as int
  {
    if v < 26 {
      UpperAt(v);
    } else if v < 52 {
      LowerAt(v - 26);
    } else {
      RestAt(v - 52);
    }
    AlphaInjective(v);
    hide ValueOf, InAlphabet;
  }

  /** Search of the 64-character table; -1 when c is not in it. */
  method LookUp(c: byte) returns (r: int)
    ensures r == -1 <==> !InAlphabet(c)
    ensures r != -1 ==> r == ValueOf(c)
  {
    if c == 0 {
      return -1;
    }
    var p := 0;
    while p < 64
      invariant 0 <= p <= 64
      invariant InAlphabet(c) ==> p <= ValueOf(c)
    {
      if Alpha(p) == c {
        AlphaInjective(p);
        return p;
      }
      p := p + 1;
    }
    return -1;
  }

  // ---- Bit streams, most significant bit first ----

  function BitsOfBytes(s: seq<byte>): (bits: seq<bit>)
    ensures |bits| == 8 * |s|
  {
    seq(8 * |s|, i requires 0 <= i < 8 * |s| => Bit(s[i / 8], 7 - i % 8))
  }

  function BitsOfSextets(vs: seq<sextet>): (bits: seq<bit>)
    ensures |bits| == 6 * |vs|
  {
    seq(6 * |vs|, i requires 0 <= i < 6 * |vs| => Bit(vs[i / 6], 5 - i % 6))
  }

  /** Bit i of a stream that is zero beyond its end. */
  function StreamBit(bits: seq<bit>, i: nat): bit {
    if i < |bits| then bits[i] else 0
  }

  /** The number written by the n bits from position b on. */
  function Fold(bits: seq<bit>, b: nat, n: nat): (v: nat)
    ensures v < Pow2(n)
  {
    if n == 0 then 0 else 2 * Fold(bits, b, n - 1) + StreamBit(bits, b + n - 1)
  }

  /** Bit j of the number, counted from its most significant bit, is bit b + j of the stream. */
  lemma {:induction false} BitOfFold(bits: seq<bit>, b: nat, n: nat, j: nat)
    requires j < n
    ensures Bit(Fold(bits, b, n), n - 1 - j) == StreamBit(bits, b + j)
    decreases n
  {
    var x, y := Fold(bits, b, n - 1), StreamBit(bits, b + n - 1);
    assert Fold(bits, b, n) == 2 * x + y;
    assert (2 * x + y) / 2 == x && (2 * x + y) % 2 == y;
    if j < n - 1 {
      BitOfFold(bits, b, n - 1, j);
    }
  }

  lemma {:induction false} FoldSame(bits: seq<bit>, b: nat, bits': seq<bit>, b': nat, n: nat)
    requires forall i :: b <= i < b + n ==> StreamBit(bits, i) == StreamBit(bits', b' + (i - b))
    ensures Fold(bits, b, n) == Fold(bits', b', n)
  {
    if n > 0 {
      FoldSame(bits, b, bits', b', n - 1);
    }
  }

  /** The stream cut into sextets, the last one completed with zeros. */
  function SextetAt(bits: seq<bit>, k: nat): sextet {
    Pow2At8();
    Fold(bits, 6 * k, 6)
  }

  function SextetCount(nbits: nat): nat {
    (nbits + 5) / 6
  }

  function Sextets(bits: seq<bit>): (vs: seq<sextet>)
    ensures |vs| == SextetCount(|bits|)
  {
    seq(SextetCount(|bits|), k requires 0 <= k => SextetAt(bits, k))
  }

  /** The stream cut into bytes, an incomplete last byte dropped. */
  function ByteOfStream(bits: seq<bit>, i: nat): byte {
    Pow2At8();
    Fold(bits, 8 * i, 8)
  }

  function BytesOfBits(bits: seq<bit>): (s: seq<byte>)
    ensures |s| == |bits| / 8
  {
    seq(|bits| / 8, i requires 0 <= i => ByteOfStream(bits, i))
  }

  // ---- What the codec computes ----

  function AlphaAll(vs: seq<sextet>): (t: seq<byte>)
    ensures |t| == |vs| && forall k :: 0 <= k < |vs| ==> t[k] == Alpha(vs[k])
  {
    seq(|vs|, k requires 0 <= k < |vs| => Alpha(vs[k]))
  }

  function Padding(n: nat): (t: seq<byte>)
    ensures |t| == n && forall k :: 0 <= k < n ==> t[k] == PAD
  {
    seq(n, _ => PAD)
  }

  /** Characters for the sextets of the input's bits, then "=" up to a multiple of four. */
  function EncodedText(s: seq<byte>): seq<byte> {
    var vs := Sextets(BitsOfBytes(s));
    AlphaAll(vs) + Padding((4 - |vs| % 4) % 4)
  }

  function EncodedLength(n: int): int {
    if n < 0 then 0 else (n + 2) / 3 * 4
  }

  /** Four characters for every three bytes, the last one or two included; a negative length counts as none. */
  lemma EncodedLengthIs(n: int)
    ensures var len := EncodedLength(n);
            if n <= 0 then len == 0 else len % 4 == 0 && len / 4 * 3 - 3 < n <= len / 4 * 3
  {
  }

  /** Number of final "=" the decoder treats as padding. */
  function PadOf(t: seq<byte>): (pad: nat)
    requires |t| % 4 == 0
    ensures pad <= 2 && pad <= |t|
  {
    if t == [] || t[|t| - 1] != PAD then 0 else if t[|t| - 2] == PAD then 2 else 1
  }

  ghost predicate PaddedBy(t: seq<byte>, pad: nat)
    requires pad <= |t|
  {
    && (forall k :: |t| - pad <= k < |t| ==> t[k] == PAD)
    && forall k :: 0 <= k < |t| - pad ==> InAlphabet(t[k])
  }

  /** A text is accepted when its length is divisible by four and all its bytes are in the alphabet
    * apart from at most two final "=". */
  ghost predicate Accepted(t: seq<byte>) {
    |t| % 4 == 0 &&
    exists pad: nat :: pad <= 2 && pad <= |t| && PaddedBy(t, pad)
  }

  lemma PadUnique(t: seq<byte>, pad: nat)
    requires |t| % 4 == 0 && pad <= 2 && pad <= |t| && PaddedBy(t, pad)
    ensures pad == PadOf(t)
  {
  }

  /** The padding is determined by the last two bytes. */
  lemma AcceptedPad(t: seq<byte>)
    requires |t| % 4 == 0
    ensures Accepted(t) <==> forall k :: 0 <= k < |t| - PadOf(t) ==> InAlphabet(t[k])
    ensures Accepted(t) ==> PaddedBy(t, PadOf(t))
  {
    if forall k :: 0 <= k < |t| - PadOf(t) ==> InAlphabet(t[k]) {
      assert PaddedBy(t, PadOf(t));
    }
    if Accepted(t) {
      var pad: nat :| pad <= 2 && pad <= |t| && PaddedBy(t, pad);
      PadUnique(t, pad);
    }
  }

  function ValuesOf(t: seq<byte>, m: nat): (vs: seq<sextet>)
    requires m <= |t| && forall k :: 0 <= k < m ==> InAlphabet(t[k])
    ensures |vs| == m && forall k :: 0 <= k < m ==> vs[k] == ValueOf(t[k])
  {
    seq(m, k requires 0 <= k < m => ValueOf(t[k]))
  }

  ghost function DecodedText(t: seq<byte>): seq<byte>
    requires Accepted(t)
  {
    AcceptedPad(t);
    BytesOfBits(BitsOfSextets(ValuesOf(t, |t| - PadOf(t))))
  }

  // ---- The encoder ----

  /** The first multiple of four at or after n. */
  function QuartetEnd(n: nat): (end: nat)
    ensures n <= end && end % 4 == 0
  {
    n + (4 - n % 4) % 4
  }

  lemma QuartetEndIs(n: nat)
    ensures QuartetEnd(n) == n + (4 - n % 4) % 4
  {
  }

  lemma QuartetReached(n: nat, o: nat)
    requires n <= o <= QuartetEnd(n)
    ensures o % 4 == 0 <==> o == QuartetEnd(n)
  {
  }

  lemma PaddedOut(before: seq<byte>, after: seq<byte>, from: nat, end: nat)
    requires from <= end <= |before| == |after|
    requires forall k :: 0 <= k < from || end <= k < |after| ==> after[k] == before[k]
    requires forall k :: from <= k < end ==> after[k] == PAD
    ensures after[..end] == before[..from] + Padding(end - from) && after[end..] == before[end..]
  {
    hide *;
    assert after[..from] == before[..from] && after[from..end] == Padding(end - from);
    assert after[..end] == after[..from] + after[from..end];
  }

  /** Appends "=" until the length is a multiple of four. */
  method PadToQuartet(out: array<byte>, from: nat) returns (o: nat)
    requires from + (4 - from % 4) % 4 <= out.Length
    modifies out
    ensures o == from + (4 - from % 4) % 4
    ensures out[..o] == old(out[..from]) + Padding((4 - from % 4) % 4) && out[o..] == old(out[o..])
  {
    hide *;
    o := from;
    ghost var end := QuartetEnd(from);
    QuartetEndIs(from);
    QuartetReached(from, o);
    while o % 4 != 0
      invariant from <= o <= end <= out.Length
      invariant o % 4 == 0 <==> o == end
      invariant forall k :: 0 <= k < from || o <= k < out.Length ==> out[k] == old(out[k])
      invariant forall k :: from <= k < o ==> out[k] == PAD
      decreases end - o
    {
      out[o] := PAD;
      o := o + 1;
      QuartetReached(from, o);
    }
    PaddedOut(old(out[..]), out[..], from, end);
  }

  lemma EncodedTextIs(s: seq<byte>)
    ensures var vs := Sextets(BitsOfBytes(s)); EncodedText(s) == AlphaAll(vs) + Padding((4 - |vs| % 4) % 4)
  {
  }

  lemma SextetsFit(n: nat)
    ensures var m := SextetCount(8 * n);
            m + (4 - m % 4) % 4 == EncodedLength(n) && 8 * n <= 6 * m < 8 * n + 6
  {
  }

  lemma FoldStep(bits: seq<bit>, b: nat, k: nat)
    ensures Fold(bits, b, 0) == 0
    ensures Fold(bits, b, k + 1) == 2 * Fold(bits, b, k) + StreamBit(bits, b + k)
  {
  }

  /** The bit the encoder reads; zero beyond the input. */
  lemma InputBit(input: seq<byte>, i: nat)
    ensures StreamBit(BitsOfBytes(input), i) == if i < |input| * 8 then Bit(input[i / 8], 7 - i % 8) else 0
  {
    hide Bit;
  }

  lemma SixFolded(bits: seq<bit>, b: nat)
    requires b % 6 == 0
    ensures SextetAt(bits, b / 6) == Fold(bits, b, 6) < 64
  {
    Pow2At8();
    hide Fold;
  }

  /** Six bits from position b on, shifted in one at a time; zero beyond the input. */
  method EncodeSextet(input: seq<byte>, b: nat) returns (v: sextet)
    requires b % 6 == 0
    ensures v == SextetAt(BitsOfBytes(input), b / 6)
  {
    hide *;
    ghost var bits := BitsOfBytes(input);
    var nbits := |input| * 8;
    var acc: nat := 0;
    var k := 0;
    FoldStep(bits, b, 0);
    while k < 6
      invariant 0 <= k <= 6
      invariant acc == Fold(bits, b, k)
    {
      var i := b + k;
      InputBit(input, i);
      FoldStep(bits, b, k);
      var x := if i < nbits then Bit(input[i / 8], 7 - i % 8) else 0;
      acc := 2 * acc + x;
      k := k + 1;
    }
    SixFolded(bits, b);
    return acc;
  }

  lemma SextetsAt(bits: seq<bit>, k: nat)
    requires k < SextetCount(|bits|)
    ensures Sextets(bits)[k] == SextetAt(bits, k)
  {
  }

  method Encode(input: seq<byte>, out: array<byte>) returns (o: nat)
    requires EncodedLength(|input|) <= out.Length
    modifies out
    ensures o == EncodedLength(|input|) && out[..o] == EncodedText(input)
    ensures out[o..] == old(out[o..])
  {
    hide *;
    var nbits := |input| * 8;
    ghost var bits := BitsOfBytes(input);
    ghost var vs := Sextets(bits);
    SextetsFit(|input|);
    o := 0;
    var b := 0;
    while b < nbits
      invariant b == 6 * o && o <= |vs|
      invariant out[..o] == AlphaAll(vs)[..o]
      invariant forall k :: o <= k < out.Length ==> out[k] == old(out[k])
      decreases nbits - b
    {
      var v := EncodeSextet(input, b);
      SextetsAt(bits, o);
      ghost var done := out[..o];
      out[o] := Alpha(v);
      assert AlphaAll(vs)[..o + 1] == AlphaAll(vs)[..o] + [Alpha(vs[o])];
      o := o + 1;
      assert out[..o] == done + [Alpha(v)];
      b := b + 6;
    }
    assert o == |vs| && AlphaAll(vs)[..o] == AlphaAll(vs);
    EncodedTextIs(input);
    ghost var chars := out[..o];
    o := PadToQuartet(out, o);
    assert out[..o] == chars + Padding((4 - |vs| % 4) % 4);
  }

  // ---- The decoder ----

  lemma NotMultiple(text: seq<byte>, n: int)
    requires n <= |text| && (n < 0 || n % 4 != 0)
    ensures n < 0 || !Accepted(text[..n])
  {
  }

  lemma PadFound(t: seq<byte>, pad: nat)
    requires |t| % 4 == 0 && t != []
    requires pad == if t[|t| - 1] != PAD then 0 else if t[|t| - 2] == PAD then 2 else 1
    ensures pad == PadOf(t)
  {
  }

  lemma DecodedBits(t: seq<byte>)
    requires |t| % 4 == 0 && forall k :: 0 <= k < |t| - PadOf(t) ==> InAlphabet(t[k])
    ensures Accepted(t)
    ensures var chars := t[..|t| - PadOf(t)];
            DecodedText(t) == BytesOfBits(BitsOfSextets(ValuesOf(chars, |chars|)))
  {
    AcceptedPad(t);
    var m := |t| - PadOf(t);
    assert ValuesOf(t, m) == ValuesOf(t[..m], m);
  }

  /** Where the bits of sextet k lie in the stream. */
  lemma SextetBits(vs: seq<sextet>, k: nat)
    requires k < |vs|
    ensures forall i :: 6 * k <= i < 6 * k + 6 ==> BitsOfSextets(vs)[i] == Bit(vs[k], 5 - (i - 6 * k))
  {
  }

  method ClearBytes(out: array<byte>, n: nat)
    requires n <= out.Length
    modifies out
    ensures forall k :: 0 <= k < n ==> out[k] == 0
    ensures out[n..] == old(out[n..])
  {
    var i := 0;
    while i < n
      invariant 0 <= i <= n
      invariant forall k :: 0 <= k < i ==> out[k] == 0
      invariant forall k :: i <= k < out.Length ==> out[k] == old(out[k])
    {
      out[i] := 0;
      i := i + 1;
    }
  }

  /** The output holds the first p bits of the stream and zeros after them. */
  ghost predicate Written(out: seq<byte>, bits: seq<bit>, p: nat) {
    && |out| == |bits| / 8
    && forall i :: 0 <= i < 8 * |out| ==> Bit(out[i / 8], 7 - i % 8) == if i < p then bits[i] else 0
  }

  lemma ZerosWritten(out: seq<byte>, bits: seq<bit>)
    requires |out| == |bits| / 8 && forall k :: 0 <= k < |out| ==> out[k] == 0
    ensures Written(out, bits, 0)
  {
    hide Bit;
    forall i | 0 <= i < 8 * |out|
      ensures Bit(out[i / 8], 7 - i % 8) == 0
    {
      BitOfZero(7 - i % 8);
    }
  }

  lemma WrittenPast(out: seq<byte>, bits: seq<bit>, p: nat, q: nat)
    requires Written(out, bits, p) && p <= q <= |bits| && p / 8 >= |out|
    ensures Written(out, bits, q)
  {
  }

  lemma WrittenStep(before: seq<byte>, after: seq<byte>, bits: seq<bit>, p: nat)
    requires p < |bits| && p / 8 < |before| && Written(before, bits, p)
    requires after == if bits[p] == 1 then before[p / 8 := SetBit(before[p / 8], 7 - p % 8, 1)] else before
    ensures Written(after, bits, p + 1)
  {
  }

  /** One sextet: bit 5 - k of v is OR-ed in as stream bit 6 * s + k, bits past the output are dropped. */
  method OrSextet(out: array<byte>, outn: nat, s: nat, v: sextet, ghost bits: seq<bit>)
    requires outn <= out.Length && outn == |bits| / 8 && 6 * s + 6 <= |bits|
    requires forall i :: 6 * s <= i < 6 * s + 6 ==> bits[i] == Bit(v, 5 - (i - 6 * s))
    requires Written(out[..outn], bits, 6 * s)
    modifies out
    ensures Written(out[..outn], bits, 6 * s + 6)
    ensures out[outn..] == old(out[outn..])
  {
    hide *;
    var k := 0;
    while k < 6
      invariant 0 <= k <= 6
      invariant Written(out[..outn], bits, 6 * s + k)
      invariant out[outn..] == old(out[outn..])
    {
      var i := 6 * s + k;
      if i / 8 >= outn {
        WrittenPast(out[..outn], bits, i, 6 * s + 6);
        break;
      }
      ghost var before := out[..outn];
      assert bits[i] == Bit(v, 5 - k);
      if Bit(v, 5 - k) == 1 {
        out[i / 8] := SetBit(out[i / 8], 7 - i % 8, 1);
        assert out[..outn] == before[i / 8 := SetBit(before[i / 8], 7 - i % 8, 1)];
      }
      WrittenStep(before, out[..outn], bits, i);
      k := k + 1;
    }
  }

  /** Output that holds every whole byte of the stream is the stream's bytes. */
  lemma WrittenAll(out: seq<byte>, bits: seq<bit>)
    requires Written(out, bits, |bits|)
    ensures out == BytesOfBits(bits)
  {
    hide Bit, Fold;
    forall i | 0 <= i < |out|
      ensures out[i] == ByteOfStream(bits, i)
    {
      forall j | 0 <= j < 8
        ensures Bit(out[i], j) == Bit(ByteOfStream(bits, i), j)
      {
        var q := 8 * i + (7 - j);
        BitOfFold(bits, 8 * i, 8, 7 - j);
        assert Bit(out[q / 8], 7 - q % 8) == bits[q];
        assert q / 8 == i && 7 - q % 8 == j;
      }
      EqualBytes(out[i], ByteOfStream(bits, i));
    }
  }

  /** The second half of the decoder: zero the output, then OR in the bits of each sextet. */
  method DecodeSextets(chars: seq<byte>, out: array<byte>) returns (outn: nat)
    requires forall k :: 0 <= k < |chars| ==> InAlphabet(chars[k])
    requires |chars| * 6 / 8 <= out.Length
    modifies out
    ensures outn == |chars| * 6 / 8
    ensures out[..outn] == BytesOfBits(BitsOfSextets(ValuesOf(chars, |chars|)))
    ensures out[outn..] == old(out[outn..])
  {
    hide *;
    var nsext := |chars|;
    outn := nsext * 6 / 8;
    ghost var vs := ValuesOf(chars, nsext);
    ghost var bits := BitsOfSextets(vs);
    ClearBytes(out, outn);
    ZerosWritten(out[..outn], bits);
    var s := 0;
    while s < nsext
      invariant 0 <= s <= nsext
      invariant Written(out[..outn], bits, 6 * s)
      invariant out[outn..] == old(out[outn..])
    {
      var v := LookUp(chars[s]);
      SextetBits(vs, s);
      OrSextet(out, outn, s, v, bits);
      s := s + 1;
    }
    WrittenAll(out[..outn], bits);
  }

  lemma NoBytes(t: seq<byte>)
    requires t == []
    ensures Accepted(t) && DecodedText(t) == []
  {
    AcceptedPad(t);
  }

  /** Validates the whole text, then ORs its bits into zeroed output; -1 on malformed text. */
  method Decode(text: seq<byte>, n: int, out: array<byte>) returns (r: int)
    requires n <= |text| && (0 <= n ==> n / 4 * 3 <= out.Length)
    modifies out
    ensures r == -1 <==> n < 0 || !Accepted(text[..n])
    ensures r != -1 ==> 0 <= r <= out.Length && out[..r] == DecodedText(text[..n]) && out[r..] == old(out[r..])
    ensures r == -1 ==> out[..] == old(out[..])
  {
    hide *;
    if n < 0 || n % 4 != 0 {
      NotMultiple(text, n);
      return -1;
    }
    ghost var t := text[..n];
    AcceptedPad(t);
    if n == 0 {
      NoBytes(t);
      return 0;
    }
    var pad := 0;
    if text[n - 1] == PAD {
      pad := if text[n - 2] == PAD then 2 else 1;
    }
    PadFound(t, pad);
    var i := 0;
    while i < n - pad
      invariant 0 <= i <= n - pad
      invariant forall k :: 0 <= k < i ==> InAlphabet(t[k])
      invariant out[..] == old(out[..])
    {
      var v := LookUp(text[i]);
      if v < 0 {
        return -1;
      }
      i := i + 1;
    }
    DecodedBits(t);
    assert t[..n - pad] == text[..n - pad];
    r := DecodeSextets(text[..n - pad], out);
  }

  // ---- Round trips ----

  /** Cutting bytes into bits and back is the identity on whole bytes. */
  lemma BytesOfTheirBits(s: seq<byte>, bits: seq<bit>)
    requires 8 * |s| <= |bits| < 8 * |s| + 8 && bits[..8 * |s|] == BitsOfBytes(s)
    ensures BytesOfBits(bits) == s
  {
    hide Bit;
    forall i | 0 <= i < 8 * |s|
      ensures Bit(s[i / 8], 7 - i % 8) == bits[i]
    {
      assert bits[i] == BitsOfBytes(s)[i];
    }
    assert Written(s, bits, |bits|);
    WrittenAll(s, bits);
  }

  /** The bits of the bytes of a stream are the stream, up to its last whole byte. */
  lemma BitsOfItsBytes(bits: seq<bit>)
    ensures BitsOfBytes(BytesOfBits(bits)) == bits[..|bits| / 8 * 8]
  {
    hide Bit, Fold;
    var s := BytesOfBits(bits);
    forall i | 0 <= i < 8 * |s|
      ensures BitsOfBytes(s)[i] == bits[i]
    {
      BitOfFold(bits, 8 * (i / 8), 8, i % 8);
    }
  }

  /** The bits of the sextets of a stream are the stream completed with zeros. */
  lemma BitsOfItsSextets(bits: seq<bit>)
    ensures var z := BitsOfSextets(Sextets(bits));
            |bits| <= |z| < |bits| + 6 && z[..|bits|] == bits
  {
    hide Bit, Fold;
    var z := BitsOfSextets(Sextets(bits));
    forall i | 0 <= i < |bits|
      ensures z[i] == bits[i]
    {
      BitOfFold(bits, 6 * (i / 6), 6, i % 6);
    }
  }

  /** Characters of sextets followed by completing padding: the decoder reads the sextets back. */
  lemma EncodedPad(vs: seq<sextet>, t: seq<byte>)
    requires |vs| % 4 != 1 && t == AlphaAll(vs) + Padding((4 - |vs| % 4) % 4)
    ensures Accepted(t) && PadOf(t) == (4 - |vs| % 4) % 4
    ensures ValuesOf(t, |t| - PadOf(t)) == vs
  {
    hide Alpha, InAlphabet, ValueOf;
    forall k | 0 <= k < |vs|
      ensures InAlphabet(t[k]) && ValueOf(t[k]) == vs[k] && t[k] != PAD
    {
      AlphaInjective(vs[k]);
    }
    assert PaddedBy(t, (4 - |vs| % 4) % 4);
    AcceptedPad(t);
  }

  /** Every encoding is accepted and decodes to the bytes it was made from. */
  lemma DecodeEncoded(s: seq<byte>)
    ensures |EncodedText(s)| == EncodedLength(|s|)
    ensures Accepted(EncodedText(s)) && DecodedText(EncodedText(s)) == s
  {
    hide Bit, Fold, Alpha, InAlphabet, ValueOf, SextetAt;
    var bits := BitsOfBytes(s);
    var vs := Sextets(bits);
    var t := EncodedText(s);
    SextetsFit(|s|);
    EncodedPad(vs, t);
    BitsOfItsSextets(bits);
    BytesOfTheirBits(s, BitsOfSextets(vs));
  }

  // ---- Re-encoding an accepted text ----

  /** Clears the bits of the last sextet that no output byte uses. */
  function ClearUnused(v: sextet, pad: nat): sextet {
    if pad == 1 then v / 4 * 4 else if pad == 2 then v / 16 * 16 else v
  }

  ghost function Canonical(t: seq<byte>): (c: seq<byte>)
    requires Accepted(t)
    ensures |c| == |t|
  {
    AcceptedPad(t);
    var pad := PadOf(t);
    if pad == 0 then t else
      var last := |t| - pad - 1;
      t[last := Alpha(ClearUnused(ValueOf(t[last]), pad))]
  }

  lemma ShrTwo(x: nat, m: nat)
    ensures Shr(x, m + 2) == Shr(x, m) / 4
  {
    ShrBit(x, m);
    ShrBit(x, m + 1);
  }

  lemma ShrAll(v: sextet)
    ensures Shr(v, 6) == 0 && Shr(v, 4) == v / 16 && Shr(v, 2) == v / 4
  {
    ShrTwo(v, 0);
    ShrTwo(v, 2);
    ShrTwo(v, 4);
    assert Shr(v, 0) == v;
  }

  /** The first j bits of a sextet's place in the stream write its j high bits. */
  lemma {:induction false} FoldSextet(vs: seq<sextet>, k: nat, j: nat)
    requires k < |vs| && j <= 6
    ensures Fold(BitsOfSextets(vs), 6 * k, j) == Shr(vs[k], 6 - j)
  {
    if j == 0 {
      ShrAll(vs[k]);
    } else {
      FoldSextet(vs, k, j - 1);
      ShrBit(vs[k], 6 - j);
      SextetBits(vs, k);
      hide Bit, BitsOfSextets, Shr;
    }
  }

  lemma DoubleProduct(x: nat, p: nat)
    ensures 2 * (x * p) == x * (2 * p)
  {
  }

  /** Zeros after the end of a stream double the number written so far. */
  lemma {:induction false} FoldZeros(bits: seq<bit>, b: nat, j: nat, n: nat)
    requires j <= n && |bits| <= b + j
    ensures Fold(bits, b, n) == Fold(bits, b, j) * Pow2(n - j)
  {
    if j < n {
      FoldZeros(bits, b, j, n - 1);
      DoubleProduct(Fold(bits, b, j), Pow2(n - 1 - j));
    }
  }

  lemma TruncatedLength(m: nat, pad: nat)
    requires pad <= 2 && (m + pad) % 4 == 0
    ensures 6 * m / 8 * 8 == 6 * m - 2 * pad || (m == 0 && pad == 0)
    ensures SextetCount(6 * m / 8 * 8) == m
  {
    var g := (m + pad) / 4;
    assert m == 4 * g - pad;
    assert 6 * m == 8 * (3 * g - pad) + 2 * pad;
    assert 6 * m / 8 == 3 * g - pad;
    assert 6 * m / 8 * 8 + 5 == 6 * m + (5 - 2 * pad);
  }

  /** Sextet k of the first 8 * (6 * |vs| / 8) bits of vs: vs[k], with the bits that were dropped cleared. */
  lemma SextetOfTruncated(vs: seq<sextet>, k: nat, pad: nat)
    requires k < |vs| && pad <= 2 && (|vs| + pad) % 4 == 0
    ensures var bits := BitsOfSextets(vs)[..6 * |vs| / 8 * 8];
            SextetAt(bits, k) == if k == |vs| - 1 then ClearUnused(vs[k], pad) else vs[k]
  {
    var all := BitsOfSextets(vs);
    var bits := all[..6 * |vs| / 8 * 8];
    TruncatedLength(|vs|, pad);
    hide Bit, BitsOfSextets;
    var j := if k == |vs| - 1 then 6 - 2 * pad else 6;
    FoldSame(bits, 6 * k, all, 6 * k, j);
    FoldSextet(vs, k, j);
    ShrAll(vs[k]);
    if j < 6 {
      FoldZeros(bits, 6 * k, j, 6);
      assert Pow2(2) == 4 && Pow2(4) == 16;
    }
  }

  lemma ReencodedSextet(vs: seq<sextet>, bits: seq<bit>, k: nat, pad: nat)
    requires k < |vs| && pad <= 2 && (|vs| + pad) % 4 == 0
    requires bits == BitsOfSextets(vs)[..6 * |vs| / 8 * 8] && SextetCount(|bits|) == |vs|
    ensures Sextets(bits)[k] == if k == |vs| - 1 then ClearUnused(vs[k], pad) else vs[k]
  {
    hide *;
    SextetOfTruncated(vs, k, pad);
    SextetsAt(bits, k);
  }

  lemma PadCounts(t: seq<byte>)
    requires Accepted(t)
    ensures var pad := PadOf(t); (|t| - pad + pad) % 4 == 0 && (t == [] ==> pad == 0) && pad <= |t|
  {
  }

  lemma BitsOfDecoded(t: seq<byte>)
    requires Accepted(t)
    requires forall k :: 0 <= k < |t| - PadOf(t) ==> InAlphabet(t[k])
    ensures var m := |t| - PadOf(t);
            BitsOfBytes(DecodedText(t)) == BitsOfSextets(ValuesOf(t, m))[..6 * m / 8 * 8]
  {
    hide BitsOfSextets, BitsOfBytes, BytesOfBits, ValuesOf;
    BitsOfItsBytes(BitsOfSextets(ValuesOf(t, |t| - PadOf(t))));
  }

  lemma AlphaOfValue(c: byte)
    requires InAlphabet(c)
    ensures Alpha(ValueOf(c)) == c
  {
  }

  lemma CanonicalAt(t: seq<byte>, k: nat)
    requires Accepted(t) && k < |t| && |t| % 4 == 0
    ensures var m, pad := |t| - PadOf(t), PadOf(t);
            && (k < m ==> InAlphabet(t[k]))
            && Canonical(t)[k] ==
                 if k < m - 1 then t[k]
                 else if k == m - 1 then Alpha(ClearUnused(ValueOf(t[k]), pad))
                 else PAD
  {
    AcceptedPad(t);
    hide ValueOf, InAlphabet;
    if k == |t| - PadOf(t) - 1 {
      AlphaOfValue(t[k]);
    }
  }

  lemma PadRange(t: seq<byte>)
    requires |t| % 4 == 0
    ensures PadOf(t) <= 2 && (PadOf(t) <= |t| ==> (4 - (|t| - PadOf(t)) % 4) % 4 == PadOf(t))
  {
  }

  lemma CanonicalIs(t: seq<byte>, ws: seq<sextet>)
    requires Accepted(t) && ws == Sextets(BitsOfBytes(DecodedText(t))) && |t| % 4 == 0 && |ws| == |t| - PadOf(t)
    requires forall k :: 0 <= k < |ws| ==> InAlphabet(t[k])
    requires forall k :: 0 <= k < |ws| ==>
      ws[k] == if k == |ws| - 1 then ClearUnused(ValueOf(t[k]), PadOf(t)) else ValueOf(t[k])
    ensures EncodedText(DecodedText(t)) == Canonical(t)
  {
    hide *;
    EncodedTextIs(DecodedText(t));
    PadRange(t);
    var m, pad := |ws|, PadOf(t);
    var e, c := AlphaAll(ws) + Padding(pad), Canonical(t);
    forall k | 0 <= k < |t|
      ensures e[k] == c[k]
    {
      CanonicalAt(t, k);
      if k < m {
        AlphaOfValue(t[k]);
      }
    }
    assert e == c;
  }

  lemma TruncatedBits(vs: seq<sextet>)
    ensures 6 * |vs| / 8 * 8 <= |BitsOfSextets(vs)|
  {
  }

  lemma SextetsCounted(bits: seq<bit>)
    ensures |Sextets(bits)| == SextetCount(|bits|)
  {
  }

  /** The sextets of the decoded bytes are those of the text, the last one with its unused bits cleared. */
  lemma ReencodedSextets(t: seq<byte>)
    requires Accepted(t)
    requires forall k :: 0 <= k < |t| - PadOf(t) ==> InAlphabet(t[k])
    ensures var ws, pad := Sextets(BitsOfBytes(DecodedText(t))), PadOf(t);
            && |ws| == |t| - pad
            && forall k :: 0 <= k < |ws| ==>
                 ws[k] == if k == |ws| - 1 then ClearUnused(ValueOf(t[k]), pad) else ValueOf(t[k])
  {
    hide *;
    PadCounts(t);
    var pad := PadOf(t);
    var m := |t| - pad;
    var vs := ValuesOf(t, m);
    TruncatedLength(m, pad);
    BitsOfDecoded(t);
    var bits := BitsOfBytes(DecodedText(t));
    TruncatedBits(vs);
    SextetsCounted(bits);
    forall k | 0 <= k < m
      ensures Sextets(bits)[k] == if k == m - 1 then ClearUnused(ValueOf(t[k]), pad) else ValueOf(t[k])
    {
      ReencodedSextet(vs, bits, k, pad);
    }
  }

  lemma AcceptedAlphabet(t: seq<byte>)
    requires Accepted(t)
    ensures |t| % 4 == 0 && PadOf(t) <= |t| && forall k :: 0 <= k < |t| - PadOf(t) ==> InAlphabet(t[k])
  {
    AcceptedPad(t);
  }

  lemma EncodedTextLength(s: seq<byte>)
    ensures |EncodedText(s)| == EncodedLength(|s|)
  {
    SextetsFit(|s|);
    hide SextetAt;
  }

  /** Re-encoding the decoding of an accepted text gives a text of the same length: the same text
    * with the unused low bits of its last sextet cleared. */
  lemma EncodeDecoded(t: seq<byte>)
    requires Accepted(t)
    ensures EncodedText(DecodedText(t)) == Canonical(t)
    ensures |t| == EncodedLength(|DecodedText(t)|)
  {
    hide *;
    AcceptedAlphabet(t);
    ReencodedSextets(t);
    CanonicalIs(t, Sextets(BitsOfBytes(DecodedText(t))));
    EncodedTextLength(DecodedText(t));
  }

  ghost function LastSextet(t: seq<byte>): sextet
    requires Accepted(t) && PadOf(t) > 0
  {
    AcceptedPad(t);
    ValueOf(t[|t| - PadOf(t) - 1])
  }

  lemma CanonicalLast(t: seq<byte>)
    requires Accepted(t) && PadOf(t) > 0
    ensures var last, pad := |t| - PadOf(t) - 1, PadOf(t);
            && 0 <= last && t[last] == Alpha(LastSextet(t))
            && Canonical(t) == t[last := Alpha(ClearUnused(LastSextet(t), pad))]
  {
  }

  lemma CanonicalUnpadded(t: seq<byte>)
    requires Accepted(t) && PadOf(t) == 0
    ensures Canonical(t) == t
  {
  }

  lemma UpdateSame(t: seq<byte>, i: nat, x: byte)
    requires i < |t|
    ensures t[i := x] == t <==> x == t[i]
  {
  }

  lemma UnusedZero(v: sextet, pad: nat)
    requires pad == 1 || pad == 2
    ensures ClearUnused(v, pad) == v <==> v % (if pad == 1 then 4 else 16) == 0
  {
  }

  /** The encoder inverts the decoder exactly on the texts whose unused bits are zero. */
  lemma CanonicalIff(t: seq<byte>)
    requires Accepted(t)
    ensures EncodedText(DecodedText(t)) == t <==>
            PadOf(t) == 0 || (var v := LastSextet(t); v % (if PadOf(t) == 1 then 4 else 16) == 0)
  {
    hide *;
    EncodeDecoded(t);
    AcceptedAlphabet(t);
    var pad := PadOf(t);
    if pad > 0 {
      CanonicalLast(t);
      var v := LastSextet(t);
      AlphaInjective(v);
      AlphaInjective(ClearUnused(v, pad));
      UnusedZero(v, pad);
      UpdateSame(t, |t| - pad - 1, Alpha(ClearUnused(v, pad)));
    } else {
      CanonicalUnpadded(t);
    }
  }

  /** The chain decode, encode, decode: the second decode returns what the first did. */
  lemma DecodeIsStable(t: seq<byte>)
    requires Accepted(t)
    ensures Accepted(Canonical(t)) && DecodedText(Canonical(t)) == DecodedText(t)
  {
    EncodeDecoded(t);
    DecodeEncoded(DecodedText(t));
  }

  // ---- Letters and bytes ----

  /** Byte i of the input, zero beyond its end. */
  function ByteAt(s: seq<byte>, i: nat): byte {
    if i < |s| then s[i] else 0
  }

  lemma {:induction false} FoldJoin(bits: seq<bit>, b: nat, m: nat, n: nat)
    ensures Fold(bits, b, m + n) == Fold(bits, b, m) * Pow2(n) + Fold(bits, b + m, n)
  {
    if n > 0 {
      FoldJoin(bits, b, m, n - 1);
      DoubleProduct(Fold(bits, b, m), Pow2(n - 1));
    }
  }

  /** The stream holds the w bits of x from position b on. */
  ghost predicate HoldsWord(bits: seq<bit>, b: nat, x: nat, w: nat) {
    forall i :: b <= i < b + w ==> StreamBit(bits, i) == Bit(x, w - 1 - (i - b))
  }

  lemma WordBit(bits: seq<bit>, b: nat, x: nat, w: nat, j: nat)
    requires HoldsWord(bits, b, x, w) && j < w
    ensures StreamBit(bits, b + j) == Bit(x, w - 1 - j)
  {
  }

  /** n bits inside a word of w bits, read from its most significant end. */
  lemma {:induction false} FoldInWord(bits: seq<bit>, b: nat, x: nat, w: nat, j: nat, n: nat)
    requires j + n <= w && HoldsWord(bits, b, x, w)
    ensures Fold(bits, b + j, n) == Shr(x, w - j - n) % Pow2(n)
  {
    if n > 0 {
      FoldStep(bits, b + j, n - 1);
      assert Pow2(n) == 2 * Pow2(n - 1);
      hide *;
      var m := w - j - n;
      FoldInWord(bits, b, x, w, j, n - 1);
      WordBit(bits, b, x, w, j + n - 1);
      ShrBit(x, m);
      HalfRemainder(Shr(x, m), Pow2(n - 1));
    }
  }

  lemma SmallPowers()
    ensures Pow2(2) == 4 && Pow2(4) == 16 && Pow2(6) == 64 && Pow2(8) == 256
  {
    Pow2At8();
    assert Pow2(2) == 4 && Pow2(4) == 16;
  }

  /** Ten-, eight- and six-bit numbers in two parts. */
  lemma JoinParts(bits: seq<bit>, b: nat, m: nat, n: nat)
    requires n == 2 || n == 4 || n == 6
    ensures Fold(bits, b, m + n) == Fold(bits, b, m) * (if n == 2 then 4 else if n == 4 then 16 else 64)
                                    + Fold(bits, b + m, n)
  {
    hide *;
    FoldJoin(bits, b, m, n);
    SmallPowers();
  }

  /** The parts of a byte that a sextet takes. */
  lemma PartsOfByte(x: byte)
    ensures Shr(x, 2) % Pow2(6) == x / 4 && Shr(x, 4) % Pow2(4) == x / 16 && Shr(x, 6) % Pow2(2) == x / 64
    ensures Shr(x, 0) % Pow2(2) == x % 4 && Shr(x, 0) % Pow2(4) == x % 16 && Shr(x, 0) % Pow2(6) == x % 64
  {
    SmallPowers();
    assert Shr(x, 0) == x;
    ShrIsQuotient(x, 2);
    ShrIsQuotient(x, 4);
    ShrIsQuotient(x, 6);
    hide Shr, Pow2;
  }

  /** The bits of a byte of the input, zero beyond its end. */
  lemma ByteHeld(s: seq<byte>, i: nat)
    ensures HoldsWord(BitsOfBytes(s), 8 * i, ByteAt(s, i), 8)
  {
    hide Bit, BitsOfBytes;
    forall k | 8 * i <= k < 8 * i + 8
      ensures StreamBit(BitsOfBytes(s), k) == Bit(ByteAt(s, i), 8 - 1 - (k - 8 * i))
    {
      InputBit(s, k);
      BitOfZero(7 - (k - 8 * i));
    }
  }

  lemma FoldInByte(s: seq<byte>, i: nat, j: nat, n: nat)
    requires j + n <= 8
    ensures Fold(BitsOfBytes(s), 8 * i + j, n) == Shr(ByteAt(s, i), 8 - j - n) % Pow2(n)
  {
    hide *;
    ByteHeld(s, i);
    FoldInWord(BitsOfBytes(s), 8 * i, ByteAt(s, i), 8, j, n);
  }

  lemma SixAt(bits: seq<bit>, k: nat)
    ensures SextetAt(bits, k) == Fold(bits, 6 * k, 6)
  {
    hide Fold;
  }

  /** The four sextets of three bytes, the missing ones taken as zero. */
  lemma FirstSextet(s: seq<byte>, g: nat)
    ensures SextetAt(BitsOfBytes(s), 4 * g) == ByteAt(s, 3 * g) / 4
  {
    hide *;
    SixAt(BitsOfBytes(s), 4 * g);
    FoldInByte(s, 3 * g, 0, 6);
    PartsOfByte(ByteAt(s, 3 * g));
  }

  lemma SecondSextet(s: seq<byte>, g: nat)
    ensures SextetAt(BitsOfBytes(s), 4 * g + 1) == ByteAt(s, 3 * g) % 4 * 16 + ByteAt(s, 3 * g + 1) / 16
  {
    hide *;
    SixAt(BitsOfBytes(s), 4 * g + 1);
    FoldInByte(s, 3 * g, 6, 2);
    FoldInByte(s, 3 * g + 1, 0, 4);
    JoinParts(BitsOfBytes(s), 24 * g + 6, 2, 4);
    PartsOfByte(ByteAt(s, 3 * g));
    PartsOfByte(ByteAt(s, 3 * g + 1));
  }

  lemma ThirdSextet(s: seq<byte>, g: nat)
    ensures SextetAt(BitsOfBytes(s), 4 * g + 2) == ByteAt(s, 3 * g + 1) % 16 * 4 + ByteAt(s, 3 * g + 2) / 64
  {
    hide *;
    SixAt(BitsOfBytes(s), 4 * g + 2);
    FoldInByte(s, 3 * g + 1, 4, 4);
    FoldInByte(s, 3 * g + 2, 0, 2);
    JoinParts(BitsOfBytes(s), 24 * g + 12, 4, 2);
    PartsOfByte(ByteAt(s, 3 * g + 1));
    PartsOfByte(ByteAt(s, 3 * g + 2));
  }

  lemma FourthSextet(s: seq<byte>, g: nat)
    ensures SextetAt(BitsOfBytes(s), 4 * g + 3) == ByteAt(s, 3 * g + 2) % 64
  {
    hide *;
    SixAt(BitsOfBytes(s), 4 * g + 3);
    FoldInByte(s, 3 * g + 2, 2, 6);
    PartsOfByte(ByteAt(s, 3 * g + 2));
  }

  lemma EncodedCharacter(s: seq<byte>, k: nat)
    ensures |EncodedText(s)| == EncodedLength(|s|)
    ensures k < |EncodedText(s)| ==>
      EncodedText(s)[k] == (if k < SextetCount(8 * |s|) then Letter(SextetAt(BitsOfBytes(s), k)) else '=') as int
  {
    hide SextetAt, Alpha, Letter;
    EncodedTextIs(s);
    SextetsFit(|s|);
    if k < SextetCount(8 * |s|) {
      AlphabetIs(SextetAt(BitsOfBytes(s), k));
      SextetsAt(BitsOfBytes(s), k);
    } else {
      AlphabetIs(0);
    }
  }

  lemma QuartetSize(n: nat, g: nat)
    requires 3 * g < n
    ensures 4 * g + 3 < EncodedLength(n) && 4 * g + 1 < SextetCount(8 * n)
    ensures 4 * g + 2 < SextetCount(8 * n) <==> 3 * g + 1 < n
    ensures 4 * g + 3 < SextetCount(8 * n) <==> 3 * g + 2 < n
  {
  }

  lemma FirstLetters(s: seq<byte>, g: nat)
    requires 3 * g < |s|
    ensures var t, a, b := EncodedText(s), ByteAt(s, 3 * g), ByteAt(s, 3 * g + 1);
            && 4 * g + 3 < |t|
            && t[4 * g] == Letter(a / 4) as int && t[4 * g + 1] == Letter(a % 4 * 16 + b / 16) as int
  {
    hide *;
    QuartetSize(|s|, g);
    EncodedCharacter(s, 4 * g);
    EncodedCharacter(s, 4 * g + 1);
    FirstSextet(s, g);
    SecondSextet(s, g);
  }

  lemma ThirdLetter(s: seq<byte>, g: nat)
    requires 3 * g < |s|
    ensures var t, b, c := EncodedText(s), ByteAt(s, 3 * g + 1), ByteAt(s, 3 * g + 2);
            && 4 * g + 2 < |t|
            && t[4 * g + 2] == (if 3 * g + 1 < |s| then Letter(b % 16 * 4 + c / 64) else '=') as int
  {
    hide *;
    QuartetSize(|s|, g);
    EncodedCharacter(s, 4 * g + 2);
    ThirdSextet(s, g);
  }

  lemma FourthLetter(s: seq<byte>, g: nat)
    requires 3 * g < |s|
    ensures var t, c := EncodedText(s), ByteAt(s, 3 * g + 2);
            4 * g + 3 < |t| && t[4 * g + 3] == (if 3 * g + 2 < |s| then Letter(c % 64) else '=') as int
  {
    hide *;
    QuartetSize(|s|, g);
    EncodedCharacter(s, 4 * g + 3);
    FourthSextet(s, g);
  }

  /** What the encoder writes for the g-th three bytes, or for the one or two that are left. */
  lemma EncodedQuartet(s: seq<byte>, g: nat)
    requires 3 * g < |s|
    ensures var t, a, b, c := EncodedText(s), s[3 * g], ByteAt(s, 3 * g + 1), ByteAt(s, 3 * g + 2);
            && 4 * g + 3 < |t|
            && t[4 * g] == Letter(a / 4) as int
            && t[4 * g + 1] == Letter(a % 4 * 16 + b / 16) as int
            && t[4 * g + 2] == (if 3 * g + 1 < |s| then Letter(b % 16 * 4 + c / 64) else '=') as int
            && t[4 * g + 3] == (if 3 * g + 2 < |s| then Letter(c % 64) else '=') as int
  {
    assert ByteAt(s, 3 * g) == s[3 * g];
    hide *;
    FirstLetters(s, g);
    ThirdLetter(s, g);
    FourthLetter(s, g);
  }

  lemma SextetHeld(vs: seq<sextet>, k: nat)
    requires k < |vs|
    ensures HoldsWord(BitsOfSextets(vs), 6 * k, vs[k], 6)
  {
    SextetBits(vs, k);
    hide Bit, BitsOfSextets;
  }

  lemma FoldInSextet(vs: seq<sextet>, k: nat, j: nat, n: nat)
    requires k < |vs| && j + n <= 6
    ensures Fold(BitsOfSextets(vs), 6 * k + j, n) == Shr(vs[k], 6 - j - n) % Pow2(n)
  {
    hide *;
    SextetHeld(vs, k);
    FoldInWord(BitsOfSextets(vs), 6 * k, vs[k], 6, j, n);
  }

  /** The parts of a sextet that a byte takes. */
  lemma PartsOfSextet(v: sextet)
    ensures Shr(v, 0) % Pow2(6) == v && Shr(v, 4) % Pow2(2) == v / 16 && Shr(v, 2) % Pow2(4) == v / 4
    ensures Shr(v, 0) % Pow2(2) == v % 4 && Shr(v, 0) % Pow2(4) == v % 16
  {
    PartsOfByte(v);
    SmallPowers();
    ShrAll(v);
    hide Shr, Pow2;
  }

  lemma FirstByte(vs: seq<sextet>, g: nat)
    requires 4 * g + 1 < |vs|
    ensures Fold(BitsOfSextets(vs), 8 * (3 * g), 8) == vs[4 * g] as int * 4 + vs[4 * g + 1] as int / 16
  {
    hide *;
    JoinParts(BitsOfSextets(vs), 24 * g, 6, 2);
    FoldInSextet(vs, 4 * g, 0, 6);
    FoldInSextet(vs, 4 * g + 1, 0, 2);
    PartsOfSextet(vs[4 * g]);
    PartsOfSextet(vs[4 * g + 1]);
  }

  lemma SecondByte(vs: seq<sextet>, g: nat)
    requires 4 * g + 2 < |vs|
    ensures Fold(BitsOfSextets(vs), 8 * (3 * g + 1), 8) == vs[4 * g + 1] as int % 16 * 16 + vs[4 * g + 2] as int / 4
  {
    hide *;
    JoinParts(BitsOfSextets(vs), 24 * g + 8, 4, 4);
    FoldInSextet(vs, 4 * g + 1, 2, 4);
    FoldInSextet(vs, 4 * g + 2, 0, 4);
    PartsOfSextet(vs[4 * g + 1]);
    PartsOfSextet(vs[4 * g + 2]);
  }

  lemma ThirdByte(vs: seq<sextet>, g: nat)
    requires 4 * g + 3 < |vs|
    ensures Fold(BitsOfSextets(vs), 8 * (3 * g + 2), 8) == vs[4 * g + 2] as int % 4 * 64 + vs[4 * g + 3] as int
  {
    hide *;
    JoinParts(BitsOfSextets(vs), 24 * g + 16, 2, 6);
    FoldInSextet(vs, 4 * g + 2, 4, 2);
    FoldInSextet(vs, 4 * g + 3, 0, 6);
    PartsOfSextet(vs[4 * g + 2]);
    PartsOfSextet(vs[4 * g + 3]);
  }

  lemma DecodedByte(t: seq<byte>, m: nat, i: nat)
    requires Accepted(t) && m + PadOf(t) == |t| && forall k :: 0 <= k < m ==> InAlphabet(t[k])
    ensures |DecodedText(t)| == 6 * m / 8
    ensures i < |DecodedText(t)| ==> DecodedText(t)[i] == Fold(BitsOfSextets(ValuesOf(t, m)), 8 * i, 8)
  {
    hide Fold, ValuesOf, InAlphabet;
  }

  /** A character of the text that is a letter stands before the padding, with the letter's value. */
  lemma LetterValue(t: seq<byte>, m: nat, k: nat, v: sextet)
    requires Accepted(t) && m + PadOf(t) == |t| && forall i :: 0 <= i < m ==> InAlphabet(t[i])
    requires k < |t| && t[k] == Letter(v) as int
    ensures k < m && ValuesOf(t, m)[k] == v
  {
    AlphabetIs(v);
    AcceptedPad(t);
    hide Letter, ValueOf, InAlphabet;
  }

  /** What the decoder makes of the g-th four characters, whether or not the last ones are padding. */
  lemma DecodedTriple(t: seq<byte>, g: nat, v0: sextet, v1: sextet, v2: sextet, v3: sextet)
    requires Accepted(t) && 4 * g + 3 < |t|
    requires t[4 * g] == Letter(v0) as int && t[4 * g + 1] == Letter(v1) as int
    ensures var d := DecodedText(t);
            && 3 * g < |d| && d[3 * g] == v0 as int * 4 + v1 as int / 16
            && (t[4 * g + 2] == Letter(v2) as int ==>
                  && 3 * g + 1 < |d| && d[3 * g + 1] == v1 as int % 16 * 16 + v2 as int / 4
                  && (t[4 * g + 3] == Letter(v3) as int ==>
                        3 * g + 2 < |d| && d[3 * g + 2] == v2 as int % 4 * 64 + v3 as int))
  {
    hide *;
    AcceptedAlphabet(t);
    var m := |t| - PadOf(t);
    var vs := ValuesOf(t, m);
    LetterValue(t, m, 4 * g, v0);
    LetterValue(t, m, 4 * g + 1, v1);
    DecodedByte(t, m, 3 * g);
    FirstByte(vs, g);
    if t[4 * g + 2] == Letter(v2) as int {
      LetterValue(t, m, 4 * g + 2, v2);
      DecodedByte(t, m, 3 * g + 1);
      SecondByte(vs, g);
      if t[4 * g + 3] == Letter(v3) as int {
        LetterValue(t, m, 4 * g + 3, v3);
        DecodedByte(t, m, 3 * g + 2);
        ThirdByte(vs, g);
      }
    }
  }

  lemma LetterIff(c: byte)
    ensures InAlphabet(c) <==> c as char in UPPER || c as char in LOWER || c as char in REST
  {
    if InAlphabet(c) {
      var v := ValueOf(c);
      AlphabetIs(v);
      hide InAlphabet, ValueOf, Alpha;
      assert Letter(v) == c as char;
    } else if i: nat :| i < |UPPER| && UPPER[i] == c as char {
      AlphabetIs(i);
    } else if i: nat :| i < |LOWER| && LOWER[i] == c as char {
      AlphabetIs(26 + i);
    } else if i: nat :| i < |REST| && REST[i] == c as char {
      AlphabetIs(52 + i);
    }
  }

  /** Letters of the alphabet followed by this many "=". */
  ghost predicate LettersThenPadding(t: seq<byte>, pad: nat)
    requires pad <= |t|
  {
    forall k :: 0 <= k < |t| ==>
      var c := t[k] as char;
      if k < |t| - pad then c in UPPER || c in LOWER || c in REST else c == '='
  }

  lemma PaddedIs(t: seq<byte>, pad: nat)
    requires pad <= |t|
    ensures PaddedBy(t, pad) <==> LettersThenPadding(t, pad)
  {
    assert PAD == '=' as int;
    forall k | 0 <= k < |t|
      ensures InAlphabet(t[k]) <==> t[k] as char in UPPER || t[k] as char in LOWER || t[k] as char in REST
    {
      LetterIff(t[k]);
    }
    hide InAlphabet;
  }

  /** A text is accepted when it is four characters at a time of the alphabet with at most two "=" at the
    * end, */
  lemma AcceptedInCharacters(t: seq<byte>)
    ensures Accepted(t) <==> |t| % 4 == 0 && exists pad: nat :: pad <= 2 && pad <= |t| && LettersThenPadding(t, pad)
  {
    hide PaddedBy, LettersThenPadding;
    forall pad: nat | pad <= |t|
      ensures PaddedBy(t, pad) <==> LettersThenPadding(t, pad)
    {
      PaddedIs(t, pad);
    }
  }

  /** and it decodes to three bytes for each four characters, less one for each "=". */
  lemma DecodedLength(t: seq<byte>, pad: nat)
    requires |t| % 4 == 0 && pad <= 2 && pad <= |t| && LettersThenPadding(t, pad)
    ensures Accepted(t) && |DecodedText(t)| == |t| / 4 * 3 - pad
  {
    hide LettersThenPadding;
    AcceptedInCharacters(t);
    PaddedIs(t, pad);
    PadUnique(t, pad);
  }
}
