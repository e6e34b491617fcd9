/** Percent-decoding and percent-encoding (RFC 3986 section 2.1), with the form variant in which "+"
  * stands for a space.
  */
module UrlCodec {
  import opened Bytes

  const PERCENT: byte := 0x25
  const PLUS: byte := 0x2B
  const SPACE: byte := 0x20

  // ---- Hex digits ----

  const DIGITS: seq<byte> :=
    [0x30, 0x31, 0x32, 0x33, 0x34, 0x35, 0x36, 0x37, 0x38, 0x39, 0x61, 0x62, 0x63, 0x64, 0x65, 0x66]

  /** Value of a hex digit of either case, -1 for any other byte. */
  function Hex(c: byte): (h: int)
    ensures -1 <= h < 16
  {
    if 0x30 <= c <= 0x39 then c - 0x30
    else if 0x61 <= c <= 0x66 then c - 0x61 + 10
    else if 0x41 <= c <= 0x46 then c - 0x41 + 10
    else -1
  }

  /** Lowercases the byte and looks it up in the digit table. */
  method LookUpHex(c: byte) returns (h: int)
    ensures h == Hex(c)
  {
    var l := if 0x41 <= c <= 0x5A then c + 32 else c;
    var k := 0;
    while k < 16
      invariant 0 <= k <= 16
      invariant Hex(c) == -1 || Hex(c) >= k
    {
      assert DIGITS[k] == if k < 10 then 0x30 + k else 0x61 + (k - 10);
      if DIGITS[k] == l {
        return k;
      }
      k := k + 1;
    }
    return -1;
  }

  /** The digit for h in either case. */
  function HexDigit(h: nat, lower: bool): (c: byte)
    requires h < 16
    ensures Hex(c) == h
  {
    if h < 10 then 0x30 + h else if lower then 0x61 + (h - 10) else 0x41 + (h - 10)
  }

  // ---- Decoding ----

  /** The two errors are reported in input order. */
  datatype Decoding = Truncated | BadHex | Decoded(bytes: seq<byte>)

  function Prepend(b: seq<byte>, d: Decoding): Decoding {
    if d.Decoded? then Decoded(b + d.bytes) else d
  }

  /** The escape or plain byte at i: its value and the number of bytes it takes. */
  datatype Unit = Cut | NotHex | Byte(value: byte, width: nat)

  function UnitAt(s: seq<byte>, i: nat, plus: bool): (u: Unit)
    requires i < |s|
    ensures u.Byte? ==> 1 <= u.width <= 3 && i + u.width <= |s|
  {
    if s[i] == PERCENT then
      if i + 1 >= |s| then Cut
      else if Hex(s[i + 1]) < 0 then NotHex
      else if i + 2 >= |s| then Cut
      else if Hex(s[i + 2]) < 0 then NotHex
      else Byte(Hex(s[i + 1]) * 16 + Hex(s[i + 2]), 3)
    else if plus && s[i] == PLUS then Byte(SPACE, 1)
    else Byte(s[i], 1)
  }

  function DecodedFrom(s: seq<byte>, i: nat, plus: bool): Decoding
    decreases |s| - i
  {
    if i >= |s| then Decoded([]) else
      match UnitAt(s, i, plus)
      case Cut => Truncated
      case NotHex => BadHex
      case Byte(v, w) => Prepend([v], DecodedFrom(s, i + w, plus))
  }

  /** What the C function returns. */
  function ReturnCode(d: Decoding): int {
    match d
    case Truncated => -1
    case BadHex => -2
    case Decoded(bytes) => |bytes|
  }

  /** Reads the escape or plain byte at i of the text s that starts at src[so]. The return code is that
    * of the error, or 0. */
  method ReadUnit(src: array<byte>, so: nat, n: nat, i: nat, plus: bool, ghost s: seq<byte>)
    returns (code: int, v: byte, w: nat)
    requires i < n == |s| && so + n <= src.Length && forall k :: i <= k < n ==> src[so + k] == s[k]
    ensures match UnitAt(s, i, plus)
            case Cut => code == -1
            case NotHex => code == -2
            case Byte(value, width) => code == 0 && v == value && w == width
  {
    hide Hex;
    var c := src[so + i];
    assert c == s[i];
    if c == PERCENT {
      if i + 1 >= n {
        return -1, 0, 0;
      }
      assert src[so + i + 1] == src[so + (i + 1)] == s[i + 1];
      var hi := LookUpHex(src[so + i + 1]);
      if hi < 0 {
        return -2, 0, 0;
      }
      if i + 2 >= n {
        return -1, 0, 0;
      }
      assert src[so + i + 2] == src[so + (i + 2)] == s[i + 2];
      var lo := LookUpHex(src[so + i + 2]);
      if lo < 0 {
        return -2, 0, 0;
      }
      return 0, hi * 16 + lo, 3;
    } else if plus && c == PLUS {
      return 0, SPACE, 1;
    }
    return 0, c, 1;
  }

  /** Appends one byte to the output written so far. */
  method Put(dst: array<byte>, d0: nat, o: nat, v: byte, ghost done: seq<byte>)
    requires o == |done| && d0 + o < dst.Length && dst[d0..d0 + o] == done
    modifies dst
    ensures dst[d0..d0 + o + 1] == done + [v]
    ensures forall k :: 0 <= k < dst.Length && k != d0 + o ==> dst[k] == old(dst[k])
  {
    dst[d0 + o] := v;
    assert dst[d0..d0 + o + 1] == dst[d0..d0 + o] + [v];
  }

  /** Room for the n bytes of the input, or at least for what they decode to. */
  predicate HasRoom(d: Decoding, n: nat, room: int) {
    n <= room || (d.Decoded? && |d.bytes| <= room)
  }

  lemma EnoughRoom(d: Decoding, n: nat, room: int)
    requires n <= room || (d.Decoded? && |d.bytes| <= room)
    ensures HasRoom(d, n, room)
  {
  }

  /** A part of the output fits. */
  lemma Fits(d: Decoding, part: nat, n: nat, room: int)
    requires HasRoom(d, n, room) && part <= n && (d.Decoded? ==> part <= |d.bytes|)
    ensures part <= room
  {
  }

  lemma JoinNothing(d: Decoding)
    ensures Prepend([], d) == d
  {
  }

  lemma DecodeEnd(s: seq<byte>, i: nat, plus: bool, done: seq<byte>)
    requires i >= |s|
    ensures Prepend(done, DecodedFrom(s, i, plus)) == Decoded(done) && ReturnCode(Decoded(done)) == |done|
  {
  }

  lemma RoomLeft(done: seq<byte>, d: Decoding)
    ensures Prepend(done, d).Decoded? ==> |Prepend(done, d).bytes| >= |done|
  {
  }

  lemma PrependTwice(a: seq<byte>, b: seq<byte>, d: Decoding)
    ensures Prepend(a, Prepend(b, d)) == Prepend(a + b, d)
  {
    if d.Decoded? {
      assert a + (b + d.bytes) == a + b + d.bytes;
    }
  }

  /** One turn of the decoding loop. */
  lemma UnitStep(s: seq<byte>, i: nat, plus: bool, done: seq<byte>)
    requires i < |s|
    ensures ReturnCode(Truncated) == -1 && ReturnCode(BadHex) == -2
    ensures var d := Prepend(done, DecodedFrom(s, i, plus));
            match UnitAt(s, i, plus)
            case Cut => d == Truncated
            case NotHex => d == BadHex
            case Byte(v, w) => 1 <= w <= 3 && i + w <= |s| && d == Prepend(done + [v], DecodedFrom(s, i + w, plus))
  {
    var u := UnitAt(s, i, plus);
    hide UnitAt;
    if u.Byte? {
      PrependTwice(done, [u.value], DecodedFrom(s, i + u.width, plus));
    }
  }

  /** Decodes src[so .. so + n) into dst from d0 on. The buffers are distinct, or the output starts at
    * or before the input of the same buffer; the write cursor never passes the read cursor. dst needs
    * n bytes of room, or only the decoded length when the text is known to be valid. */
  method Decode(src: array<byte>, so: nat, n: nat, dst: array<byte>, d0: nat, plus: bool) returns (r: int)
    requires so + n <= src.Length && d0 <= dst.Length && (src == dst ==> d0 <= so)
    requires HasRoom(DecodedFrom(src[so..so + n], 0, plus), n, dst.Length - d0)
    modifies dst
    ensures var d := old(DecodedFrom(src[so..so + n], 0, plus));
            && r == ReturnCode(d) && r <= n
            && (r >= 0 ==> d0 + r <= dst.Length && dst[d0..d0 + r] == d.bytes && dst[d0 + r..] == old(dst[d0 + r..]))
    ensures forall k :: 0 <= k < d0 || d0 + n <= k < dst.Length ==> dst[k] == old(dst[k])
  {
    hide *;
    ghost var s := src[so..so + n];
    ghost var done: seq<byte> := [];
    var o, i := 0, 0;
    JoinNothing(DecodedFrom(s, 0, plus));
    while i < n
      invariant o <= i <= n && d0 + o <= dst.Length && |done| == o
      invariant forall k :: i <= k < n ==> src[so + k] == s[k]
      invariant dst[d0..d0 + o] == done
      invariant DecodedFrom(s, 0, plus) == Prepend(done, DecodedFrom(s, i, plus))
      invariant forall k :: 0 <= k < d0 || d0 + o <= k < dst.Length ==> dst[k] == old(dst[k])
    {
      var code, v, w := ReadUnit(src, so, n, i, plus, s);
      UnitStep(s, i, plus, done);
      if code < 0 {
        return code;
      }
      RoomLeft(done + [v], DecodedFrom(s, i + w, plus));
      Fits(DecodedFrom(s, 0, plus), o + 1, n, dst.Length - d0);
      Put(dst, d0, o, v, done);
      done := done + [v];
      o, i := o + 1, i + w;
    }
    DecodeEnd(s, i, plus, done);
    return o;
  }

  // ---- Splitting at the first special byte ----

  predicate IsSpecial(b: byte, plus: bool) {
    b == PERCENT || (plus && b == PLUS)
  }

  method ScanSpecial(src: array<byte>, len: nat, plus: bool) returns (r: nat)
    requires len <= src.Length
    ensures r <= len && forall k :: 0 <= k < r ==> !IsSpecial(src[k], plus)
    ensures r < len ==> IsSpecial(src[r], plus)
  {
    var i := 0;
    while i < len
      invariant 0 <= i <= len
      invariant forall k :: 0 <= k < i ==> !IsSpecial(src[k], plus)
    {
      if IsSpecial(src[i], plus) {
        return i;
      }
      i := i + 1;
    }
    return len;
  }

  lemma PlainUnit(s: seq<byte>, i: nat, plus: bool)
    requires i < |s| && !IsSpecial(s[i], plus)
    ensures UnitAt(s, i, plus) == Byte(s[i], 1)
  {
  }

  lemma DecodedUnfold(s: seq<byte>, i: nat, plus: bool)
    requires i < |s| && UnitAt(s, i, plus).Byte?
    ensures var u := UnitAt(s, i, plus);
            DecodedFrom(s, i, plus) == Prepend([u.value], DecodedFrom(s, i + u.width, plus))
  {
    hide UnitAt, Prepend;
  }

  /** A prefix without special bytes decodes to itself. */
  lemma {:induction false} CleanPrefix(s: seq<byte>, i: nat, first: nat, plus: bool)
    requires i <= first <= |s| && forall k :: i <= k < first ==> !IsSpecial(s[k], plus)
    ensures DecodedFrom(s, i, plus) == Prepend(s[i..first], DecodedFrom(s, first, plus))
    decreases first - i
  {
    hide *;
    if i == first {
      assert s[i..first] == [];
      JoinNothing(DecodedFrom(s, first, plus));
    } else {
      CleanPrefix(s, i + 1, first, plus);
      PlainUnit(s, i, plus);
      DecodedUnfold(s, i, plus);
      PrependTwice([s[i]], s[i + 1..first], DecodedFrom(s, first, plus));
      assert s[i..first] == [s[i]] + s[i + 1..first];
    }
  }

  /** A unit is determined by the bytes from its start to the end of the text. */
  lemma SameUnit(s: seq<byte>, i: nat, t: seq<byte>, j: nat, plus: bool)
    requires i < |s| && j < |t| && s[i..] == t[j..]
    ensures UnitAt(s, i, plus) == UnitAt(t, j, plus)
  {
    assert |s| - i == |t| - j;
    assert s[i] == s[i..][0] == t[j..][0] == t[j];
    if i + 1 < |s| {
      assert s[i + 1] == s[i..][1] == t[j..][1] == t[j + 1];
    }
    if i + 2 < |s| {
      assert s[i + 2] == s[i..][2] == t[j..][2] == t[j + 2];
    }
  }

  /** What follows a position does not depend on what precedes it. */
  lemma {:induction false} DecodedSuffix(s: seq<byte>, from: nat, i: nat, plus: bool)
    requires from <= i <= |s|
    ensures DecodedFrom(s, i, plus) == DecodedFrom(s[from..], i - from, plus)
    decreases |s| - i
  {
    if i < |s| {
      var t := s[from..];
      assert s[i..] == t[i - from..];
      SameUnit(s, i, t, i - from, plus);
      var u := UnitAt(s, i, plus);
      hide UnitAt, Prepend;
      if u.Byte? {
        DecodedSuffix(s, from, i + u.width, plus);
      }
    }
  }

  /** Bytes added at the end do not change a unit that is complete. */
  lemma UnitExtends(a: seq<byte>, b: seq<byte>, i: nat, plus: bool)
    requires i < |a| && UnitAt(a, i, plus).Byte?
    ensures UnitAt(a + b, i, plus) == UnitAt(a, i, plus)
  {
  }

  lemma DecodedStarts(s: seq<byte>, i: nat, plus: bool)
    requires i <= |s| && DecodedFrom(s, i, plus).Decoded?
    ensures i < |s| ==> UnitAt(s, i, plus).Byte? && DecodedFrom(s, i + UnitAt(s, i, plus).width, plus).Decoded?
    ensures i == |s| ==> DecodedFrom(s, i, plus) == Decoded([])
  {
    hide UnitAt;
  }

  lemma PrependDecoded(a: seq<byte>, d: Decoding)
    requires d.Decoded?
    ensures Prepend(a, d) == Decoded(a + d.bytes)
  {
  }

  /** Decoding a text that is valid up to a point goes on from there: the result of the first part is
    * kept, and the rest decides. */
  lemma {:induction false} DecodeConcat(a: seq<byte>, b: seq<byte>, i: nat, plus: bool)
    requires i <= |a| && DecodedFrom(a, i, plus).Decoded?
    ensures DecodedFrom(a + b, i, plus) == Prepend(DecodedFrom(a, i, plus).bytes, DecodedFrom(b, 0, plus))
    decreases |a| - i
  {
    hide *;
    DecodedStarts(a, i, plus);
    if i == |a| {
      DecodedSuffix(a + b, |a|, |a|, plus);
      assert (a + b)[|a|..] == b;
      JoinNothing(DecodedFrom(b, 0, plus));
    } else {
      var u := UnitAt(a, i, plus);
      UnitExtends(a, b, i, plus);
      DecodedUnfold(a, i, plus);
      DecodedUnfold(a + b, i, plus);
      DecodeConcat(a, b, i + u.width, plus);
      var rest := DecodedFrom(a, i + u.width, plus);
      PrependTwice([u.value], rest.bytes, DecodedFrom(b, 0, plus));
      PrependDecoded([u.value], rest);
    }
  }

  /** Everything before p is valid, and the escape at p is cut off or has a bad digit. */
  ghost predicate FailsAt(t: seq<byte>, p: nat, u: Unit, plus: bool) {
    p < |t| && DecodedFrom(t[..p], 0, plus).Decoded? && UnitAt(t, p, plus) == u
  }

  lemma PrependKeepsError(a: seq<byte>, d: Decoding)
    ensures Prepend(a, d).Decoded? <==> d.Decoded?
    ensures !d.Decoded? ==> Prepend(a, d) == d
  {
  }

  lemma OneUnit(t: seq<byte>, i: nat, b: seq<byte>, plus: bool)
    requires i < |t| && UnitAt(t, i, plus).Byte? && b == t[i..i + UnitAt(t, i, plus).width]
    ensures DecodedFrom(b, 0, plus).Decoded?
  {
    assert b[0] == t[i];
    if |b| == 3 {
      assert b[1] == t[i + 1] && b[2] == t[i + 2];
    }
    assert UnitAt(b, 0, plus) == UnitAt(t, i, plus);
    hide UnitAt;
    assert DecodedFrom(b, |b|, plus) == Decoded([]);
  }

  /** A valid prefix followed by a complete unit is a valid prefix. */
  lemma OneMoreUnit(t: seq<byte>, i: nat, plus: bool)
    requires i < |t| && DecodedFrom(t[..i], 0, plus).Decoded? && UnitAt(t, i, plus).Byte?
    ensures DecodedFrom(t[..i + UnitAt(t, i, plus).width], 0, plus).Decoded?
  {
    var j := i + UnitAt(t, i, plus).width;
    var b := t[i..j];
    OneUnit(t, i, b, plus);
    hide *;
    assert t[..j] == t[..i] + b;
    DecodeConcat(t[..i], b, 0, plus);
    PrependKeepsError(DecodedFrom(t[..i], 0, plus).bytes, DecodedFrom(b, 0, plus));
  }

  lemma {:induction false} LocateError(t: seq<byte>, i: nat, plus: bool) returns (p: nat)
    requires i <= |t| && DecodedFrom(t[..i], 0, plus).Decoded? && !DecodedFrom(t, i, plus).Decoded?
    ensures FailsAt(t, p, if DecodedFrom(t, i, plus) == Truncated then Cut else NotHex, plus)
    decreases |t| - i
  {
    hide UnitAt, Prepend;
    var u := UnitAt(t, i, plus);
    if u.Byte? {
      UnitStep(t, i, plus, []);
      JoinNothing(DecodedFrom(t, i, plus));
      PrependKeepsError([u.value], DecodedFrom(t, i + u.width, plus));
      OneMoreUnit(t, i, plus);
      p := LocateError(t, i + u.width, plus);
    } else {
      p := i;
    }
  }

  /** The error reported is that of the first bad escape. */
  lemma FirstErrorReported(t: seq<byte>, plus: bool)
    ensures DecodedFrom(t, 0, plus) == Truncated <==> exists p :: FailsAt(t, p, Cut, plus)
    ensures DecodedFrom(t, 0, plus) == BadHex <==> exists p :: FailsAt(t, p, NotHex, plus)
  {
    hide UnitAt;
    forall p: nat, u | FailsAt(t, p, u, plus)
      ensures u == Cut ==> DecodedFrom(t, 0, plus) == Truncated
      ensures u == NotHex ==> DecodedFrom(t, 0, plus) == BadHex
    {
      assert t == t[..p] + t[p..];
      DecodeConcat(t[..p], t[p..], 0, plus);
      DecodedSuffix(t, p, p, plus);
    }
    if !DecodedFrom(t, 0, plus).Decoded? {
      assert t[..0] == [];
      var p := LocateError(t, 0, plus);
    }
  }

  method CopyPrefix(src: array<byte>, dst: array<byte>, n: nat)
    requires src != dst && n <= src.Length && n <= dst.Length
    modifies dst
    ensures dst[..n] == src[..n]
  {
    var i := 0;
    while i < n
      invariant 0 <= i <= n
      invariant forall k :: 0 <= k < i ==> dst[k] == src[k]
    {
      dst[i] := src[i];
      i := i + 1;
    }
  }

  lemma NothingToDecode(s: seq<byte>, plus: bool)
    requires s == []
    ensures DecodedFrom(s, 0, plus) == Decoded([])
  {
  }

  lemma Codes(d: Decoding, prefix: seq<byte>)
    ensures ReturnCode(d) == -1 <==> d == Truncated
    ensures ReturnCode(d) == -2 <==> d == BadHex
    ensures ReturnCode(d) >= 0 <==> d.Decoded?
    ensures Prepend(prefix, d) == if d.Decoded? then Decoded(prefix + d.bytes) else d
  {
  }

  // ---- Encoding ----

  /** Bit 0 of the choice byte asks for an escape that is not needed, bit 1 for lower-case digits. */
  function EncodedByte(c: byte, plus: bool, choice: byte): (t: seq<byte>)
    ensures 1 <= |t| <= 3
  {
    if IsSpecial(c, plus) || choice % 2 == 1 then
      [PERCENT, HexDigit(c / 16, choice / 2 % 2 == 1), HexDigit(c % 16, choice / 2 % 2 == 1)]
    else if plus && c == SPACE then [PLUS]
    else [c]
  }

  /** The choice bytes are cycled over the input; without any, no optional escape is made. */
  function ChoiceAt(choices: seq<byte>, i: nat): byte {
    if choices == [] then 0 else choices[i % |choices|]
  }

  function EncodedFrom(s: seq<byte>, i: nat, plus: bool, choices: seq<byte>): seq<byte>
    decreases |s| - i
  {
    if i >= |s| then [] else EncodedByte(s[i], plus, ChoiceAt(choices, i)) + EncodedFrom(s, i + 1, plus, choices)
  }

  lemma {:induction false} EncodedBounds(s: seq<byte>, i: nat, plus: bool, choices: seq<byte>)
    requires i <= |s|
    ensures |s| - i <= |EncodedFrom(s, i, plus, choices)| <= 3 * (|s| - i)
    decreases |s| - i
  {
    if i < |s| {
      EncodedBounds(s, i + 1, plus, choices);
    }
  }

  /** Writes the encoding of one byte at the cursor. */
  method EncodeOne(dst: array<byte>, o: nat, c: byte, plus: bool, ch: byte) returns (o': nat)
    requires o + 3 <= dst.Length
    modifies dst
    ensures o < o' <= o + 3 && dst[..o'] == old(dst[..o]) + EncodedByte(c, plus, ch)
    ensures forall k :: o' <= k < dst.Length ==> dst[k] == old(dst[k])
  {
    hide HexDigit, IsSpecial;
    if IsSpecial(c, plus) || ch % 2 == 1 {
      var lower := ch / 2 % 2 == 1;
      dst[o] := PERCENT;
      dst[o + 1] := HexDigit(c / 16, lower);
      dst[o + 2] := HexDigit(c % 16, lower);
      o' := o + 3;
    } else if plus && c == SPACE {
      dst[o] := PLUS;
      o' := o + 1;
    } else {
      dst[o] := c;
      o' := o + 1;
    }
  }

  lemma EncodeStep(s: seq<byte>, i: nat, plus: bool, choices: seq<byte>, done: seq<byte>)
    requires i < |s|
    ensures done + EncodedFrom(s, i, plus, choices)
         == done + EncodedByte(s[i], plus, ChoiceAt(choices, i)) + EncodedFrom(s, i + 1, plus, choices)
  {
  }

  lemma EncodeEnd(s: seq<byte>, plus: bool, choices: seq<byte>)
    ensures EncodedFrom(s, |s|, plus, choices) == []
  {
  }

  method Encode(src: seq<byte>, dst: array<byte>, plus: bool, choices: seq<byte>) returns (o: nat)
    requires 3 * |src| <= dst.Length
    modifies dst
    ensures o <= dst.Length && dst[..o] == EncodedFrom(src, 0, plus, choices)
    ensures |src| <= o <= 3 * |src|
    ensures dst[o..] == old(dst[o..])
  {
    hide *;
    EncodedBounds(src, 0, plus, choices);
    o := 0;
    var i := 0;
    while i < |src|
      invariant 0 <= i <= |src| && o <= 3 * i
      invariant dst[..o] + EncodedFrom(src, i, plus, choices) == EncodedFrom(src, 0, plus, choices)
      invariant forall k :: o <= k < dst.Length ==> dst[k] == old(dst[k])
    {
      EncodeStep(src, i, plus, choices, dst[..o]);
      o := EncodeOne(dst, o, src[i], plus, ChoiceAt(choices, i));
      i := i + 1;
    }
    EncodeEnd(src, plus, choices);
    assert dst[..o] + [] == dst[..o];
  }

  lemma SuffixParts(t: seq<byte>, pos: nat, e: seq<byte>, rest: seq<byte>)
    requires pos <= |t| && t[pos..] == [] + e + rest
    ensures pos + |e| <= |t| && t[pos + |e|..] == rest && forall k :: 0 <= k < |e| ==> t[pos + k] == e[k]
  {
    assert t[pos..] == e + rest;
    assert t[pos + |e|..] == t[pos..][|e|..];
    forall k | 0 <= k < |e|
      ensures t[pos + k] == e[k]
    {
      assert t[pos + k] == t[pos..][k];
    }
  }

  lemma ByteDecodes(t: seq<byte>, pos: nat, c: byte, plus: bool, choice: byte)
    requires var e := EncodedByte(c, plus, choice);
             pos + |e| <= |t| && forall k :: 0 <= k < |e| ==> t[pos + k] == e[k]
    ensures UnitAt(t, pos, plus) == Byte(c, |EncodedByte(c, plus, choice)|)
  {
    var e := EncodedByte(c, plus, choice);
    assert t[pos + 0] == e[0];
    if |e| == 3 {
      assert t[pos + 1] == e[1] && t[pos + 2] == e[2];
    }
  }

  /** Whatever was chosen, decoding returns the original bytes. */
  lemma {:induction false} DecodeEncoded(s: seq<byte>, i: nat, t: seq<byte>, pos: nat, plus: bool, choices: seq<byte>)
    requires i <= |s| && pos <= |t| && t[pos..] == EncodedFrom(s, i, plus, choices)
    ensures DecodedFrom(t, pos, plus) == Decoded(s[i..])
    decreases |s| - i
  {
    hide *;
    if i == |s| {
      EncodeEnd(s, plus, choices);
      assert pos == |t| && s[i..] == [];
      DecodeEnd(t, pos, plus, []);
      JoinNothing(DecodedFrom(t, pos, plus));
    } else {
      var e, rest := EncodedByte(s[i], plus, ChoiceAt(choices, i)), EncodedFrom(s, i + 1, plus, choices);
      EncodeStep(s, i, plus, choices, []);
      SuffixParts(t, pos, e, rest);
      ByteDecodes(t, pos, s[i], plus, ChoiceAt(choices, i));
      DecodedUnfold(t, pos, plus);
      DecodeEncoded(s, i + 1, t, pos + |e|, plus, choices);
      PrependDecoded([s[i]], DecodedFrom(t, pos + |e|, plus));
      assert s[i..] == [s[i]] + s[i + 1..];
    }
  }

  // ---- In characters ----

  const SMALL_DIGITS: string := "0123456789abcdef"
  const CAPITAL_DIGITS: string := "0123456789ABCDEF"

  lemma MarksInCharacters()
    ensures [PERCENT, PLUS, SPACE] == Ascii("%+ ")
    ensures forall b: byte, plus :: IsSpecial(b, plus) <==> b as char == '%' || (plus && b as char == '+')
  {
  }

  /** The digit characters and their values. */
  lemma HexInCharacters(c: byte)
    ensures Hex(c) >= 0 <==> c as char in SMALL_DIGITS || c as char in CAPITAL_DIGITS
    ensures Hex(c) >= 0 ==> c as char == SMALL_DIGITS[Hex(c)] || c as char == CAPITAL_DIGITS[Hex(c)]
  {
  }

  lemma DigitInCharacters(h: nat, lower: bool)
    requires h < 16
    ensures HexDigit(h, lower) == (if lower then SMALL_DIGITS else CAPITAL_DIGITS)[h] as int
  {
  }

  lemma {:induction false} PlainTextFrom(s: seq<byte>, i: nat, plus: bool)
    requires i <= |s| && forall k :: 0 <= k < |s| ==> s[k] as char != '%'
    ensures var t := seq(|s|, k requires 0 <= k < |s| => if plus && s[k] as char == '+' then ' ' as int else s[k]);
            DecodedFrom(s, i, plus) == Decoded(t[i..])
    decreases |s| - i
  {
    if i < |s| {
      PlainTextFrom(s, i + 1, plus);
    }
  }

  /** Without "%" every byte stands for itself, except that a form's "+" is a space. */
  lemma PlainTextDecodes(s: seq<byte>, plus: bool)
    requires forall k :: 0 <= k < |s| ==> s[k] as char != '%'
    ensures DecodedFrom(s, 0, plus) ==
            Decoded(seq(|s|, i requires 0 <= i < |s| => if plus && s[i] as char == '+' then ' ' as int else s[i]))
  {
    PlainTextFrom(s, 0, plus);
  }

  lemma SpelledDigit(h: nat, d: byte)
    requires h < 16 && (d as char == SMALL_DIGITS[h] || d as char == CAPITAL_DIGITS[h])
    ensures Hex(d) == h
  {
  }

  /** An escape is the byte its two digits spell, in either case, and decoding goes on after it. */
  lemma EscapeDecodes(hi: nat, lo: nat, d: byte, e: byte, rest: seq<byte>, plus: bool)
    requires hi < 16 && lo < 16
    requires d as char == SMALL_DIGITS[hi] || d as char == CAPITAL_DIGITS[hi]
    requires e as char == SMALL_DIGITS[lo] || e as char == CAPITAL_DIGITS[lo]
    ensures DecodedFrom(Ascii("%") + [d, e] + rest, 0, plus) ==
            match DecodedFrom(rest, 0, plus)
            case Decoded(bytes) => Decoded([hi * 16 + lo] + bytes)
            case error => error
  {
    SpelledDigit(hi, d);
    SpelledDigit(lo, e);
    var t := Ascii("%") + [d, e] + rest;
    assert t[0] == 0x25 && t[1] == d && t[2] == e && t[3..] == rest;
    hide Hex;
    assert UnitAt(t, 0, plus) == Byte(hi * 16 + lo, 3);
    DecodedUnfold(t, 0, plus);
    DecodedSuffix(t, 3, 3, plus);
  }

  /** What is wrong with a text that starts with a bad escape: it is cut off when every character of the
    * escape that is there is a digit, and malformed otherwise. */
  lemma BadEscapes(s: seq<byte>, plus: bool)
    requires s != [] && s[0] as char == '%'
    ensures var digits := SMALL_DIGITS + CAPITAL_DIGITS;
            if |s| > 1 && s[1] as char !in digits then DecodedFrom(s, 0, plus) == BadHex
            else if |s| < 3 then DecodedFrom(s, 0, plus) == Truncated
            else s[2] as char !in digits ==> DecodedFrom(s, 0, plus) == BadHex
  {
    if |s| > 1 {
      HexInCharacters(s[1]);
    }
    if |s| > 2 {
      HexInCharacters(s[2]);
    }
    hide Hex;
  }

  /** What one byte becomes: "%", a form's "+" and any byte so chosen are escaped, a form's space is "+". */
  function Written(c: byte, plus: bool, choice: byte): seq<byte> {
    var digits := if choice / 2 % 2 == 1 then SMALL_DIGITS else CAPITAL_DIGITS;
    if c as char == '%' || (plus && c as char == '+') || choice % 2 == 1 then
      ['%' as int, digits[c / 16] as int, digits[c % 16] as int]
    else if plus && c as char == ' ' then ['+' as int]
    else [c]
  }

  lemma WrittenIs(c: byte, plus: bool, choice: byte)
    ensures EncodedByte(c, plus, choice) == Written(c, plus, choice)
  {
    DigitInCharacters(c / 16, choice / 2 % 2 == 1);
    DigitInCharacters(c % 16, choice / 2 % 2 == 1);
    hide HexDigit;
  }

  lemma {:induction false} EncodedParts(s: seq<byte>, i: nat, plus: bool, choices: seq<byte>)
    requires i <= |s|
    ensures EncodedFrom(s, i, plus, choices) ==
            Flatten(seq(|s|, k requires 0 <= k < |s| => Written(s[k], plus, ChoiceAt(choices, k)))[i..])
    decreases |s| - i
  {
    var parts := seq(|s|, k requires 0 <= k < |s| => Written(s[k], plus, ChoiceAt(choices, k)));
    hide Written, EncodedByte;
    if i < |s| {
      EncodedParts(s, i + 1, plus, choices);
      WrittenIs(s[i], plus, ChoiceAt(choices, i));
      assert parts[i..][0] == parts[i] && parts[i..][1..] == parts[i + 1..];
    } else {
      assert parts[i..] == [];
    }
  }

  /** The encoding byte by byte, the choices taken in turn. */
  lemma EncodedInCharacters(s: seq<byte>, plus: bool, choices: seq<byte>)
    ensures EncodedFrom(s, 0, plus, choices) ==
            Flatten(seq(|s|, i requires 0 <= i < |s| =>
              Written(s[i], plus, if choices == [] then 0 else choices[i % |choices|])))
  {
    hide Written, EncodedFrom;
    var parts := seq(|s|, k requires 0 <= k < |s| => Written(s[k], plus, ChoiceAt(choices, k)));
    EncodedParts(s, 0, plus, choices);
    assert parts[0..] == parts;
    assert parts == seq(|s|, i requires 0 <= i < |s| =>
                      Written(s[i], plus, if choices == [] then 0 else choices[i % |choices|]));
  }

  lemma WrittenPlainly(c: byte, plus: bool)
    ensures Written(c, plus, 0) ==
            if c as char == '%' then Ascii("%25")
            else if plus && c as char == '+' then Ascii("%2B")
            else if plus && c as char == ' ' then Ascii("+")
            else [c]
  {
  }

  /** Without choices only what must be escaped is, with capital digits. */
  lemma EncodedWithoutChoices(s: seq<byte>, plus: bool)
    ensures EncodedFrom(s, 0, plus, []) ==
            Flatten(seq(|s|, i requires 0 <= i < |s| =>
              if s[i] as char == '%' then Ascii("%25")
              else if plus && s[i] as char == '+' then Ascii("%2B")
              else if plus && s[i] as char == ' ' then Ascii("+")
              else [s[i]]))
  {
    hide Written, EncodedFrom;
    EncodedParts(s, 0, plus, []);
    var parts := seq(|s|, k requires 0 <= k < |s| => Written(s[k], plus, ChoiceAt([], k)));
    var plain := seq(|s|, i requires 0 <= i < |s| =>
                   if s[i] as char == '%' then Ascii("%25")
                   else if plus && s[i] as char == '+' then Ascii("%2B")
                   else if plus && s[i] as char == ' ' then Ascii("+")
                   else [s[i]]);
    forall i | 0 <= i < |s|
      ensures parts[i] == plain[i]
    {
      WrittenPlainly(s[i], plus);
    }
    assert parts[0..] == parts == plain;
  }
}
