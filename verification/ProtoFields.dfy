/** Protobuf field framing: skipping a payload of a given wire type, and walking a message by
  * alternating tag decode and skip.
  */
module ProtoFields {
  import opened Bytes
  import opened Varint

  // ---- Skipping ----

  /** Offset just past the payload of wire type wt at off, or -1. */
  function SkipTo(s: seq<byte>, off: nat, wt: int): (r: int)
    requires off <= |s|
  {
    var room := |s| - off;
    match wt
    case 0 => if VarintLen(s, off) > 0 then off + VarintLen(s, off) else -1
    case 1 => if room >= 8 then off + 8 else -1
    case 5 => if room >= 4 then off + 4 else -1
    case 2 =>
      var n := VarintLen(s, off);
      if n == 0 || VarintValue(s, off) > room - n then -1 else off + n + VarintValue(s, off)
    case _ => -1
  }

  lemma LenInside(s: seq<byte>, off: nat)
    requires off <= |s|
    ensures off + VarintLen(s, off) <= |s|
  {
  }

  /** Offsets are C ints; the assignments to `next` carry the proof that none overflows. */
  method SkipField(buf: seq<byte>, off: nat, wt: int) returns (r: int)
    requires off <= |buf| <= INT_MAX
    ensures r == SkipTo(buf, off, wt)
  {
    hide VarintLen, VarintValue;
    var room := |buf| - off;
    var next: int32;
    match wt {
    case 0 =>
      var n := SkipVarint(buf, off);
      LenInside(buf, off);
      next := if n != 0 then off + n else -1;
    case 1 =>
      next := if room >= 8 then off + 8 else -1;
    case 5 =>
      next := if room >= 4 then off + 4 else -1;
    case 2 =>
      var n, v := DecodeVarint(buf, off);
      LenInside(buf, off);
      if n == 0 {
        return -1;
      }
      if v > room - n {
        return -1;
      }
      next := off + n + v;
    case _ =>
      next := -1;
    }
    return next;
  }

  /** On arbitrary bytes a skip fails or strictly advances within the buffer. */
  lemma SkipAdvances(s: seq<byte>, off: nat, wt: int)
    requires off <= |s|
    ensures SkipTo(s, off, wt) == -1 || off < SkipTo(s, off, wt) <= |s|
  {
  }

  /** A varint inside a slice of the buffer is the same varint; one that the slice cuts off is
    * unterminated. */
  lemma {:induction false} LenFromSlice(s: seq<byte>, a: nat, m: nat, q: nat, k: nat)
    requires a + q + k <= m <= |s|
    ensures var n := LenFrom(s, a + q, k);
            LenFrom(s[a..m], q, k) == if a + q + n <= m then n else 0
    decreases 10 - k
  {
    if k < 10 && a + q + k < m && s[a + q + k] >= 128 {
      LenFromSlice(s, a, m, q, k + 1);
    }
  }

  lemma ValueAt(s: seq<byte>, off: nat, n: nat)
    requires 0 < n == VarintLen(s, off) && off + n <= |s|
    ensures VarintValue(s, off) == Value(s[off..off + n]) % TWO64
  {
    hide LenFrom, Value;
  }

  lemma ValueOfSlice(s: seq<byte>, a: nat, m: nat, q: nat)
    requires a + q <= m <= |s| && 0 < VarintLen(s[a..m], q) == VarintLen(s, a + q)
    ensures VarintValue(s[a..m], q) == VarintValue(s, a + q)
  {
    hide *;
    var p, n := s[a..m], VarintLen(s, a + q);
    LenInside(p, q);
    SliceOfSlice(s, a, m, q, q + n);
    ValueAt(p, q, n);
    ValueAt(s, a + q, n);
  }

  lemma VarintSlice(s: seq<byte>, a: nat, m: nat, q: nat)
    requires a + q <= m <= |s|
    ensures var n := VarintLen(s, a + q);
            VarintLen(s[a..m], q) == if a + q + n <= m then n else 0
    ensures VarintLen(s[a..m], q) > 0 ==> VarintValue(s[a..m], q) == VarintValue(s, a + q)
  {
    LenFromSlice(s, a, m, q, 0);
    hide LenFrom, VarintValue;
    if VarintLen(s[a..m], q) > 0 {
      ValueOfSlice(s, a, m, q);
    }
  }

  /** A payload inside a slice is skipped as in the whole buffer; one that the slice cuts off fails. */
  lemma SkipSlice(s: seq<byte>, a: nat, m: nat, q: nat, wt: int)
    requires a + q <= m <= |s|
    ensures var e := SkipTo(s, a + q, wt);
            SkipTo(s[a..m], q, wt) == if e != -1 && e <= m then e - a else -1
  {
    VarintSlice(s, a, m, q);
    hide VarintLen, VarintValue;
  }

  /** The bytes of the payload decide: cutting the buffer anywhere inside the payload makes the skip
    * fail, and bytes after the payload are never looked at. */
  lemma SkipNeedsWholePayload(s: seq<byte>, off: nat, wt: int, m: nat)
    requires off <= m <= |s| && SkipTo(s, off, wt) != -1
    ensures SkipTo(s[..m], off, wt) == if m < SkipTo(s, off, wt) then -1 else SkipTo(s, off, wt)
  {
    hide SkipTo;
    SkipSlice(s, 0, m, off, wt);
    assert s[0..m] == s[..m];
  }

  // ---- Whole messages ----

  datatype Payload =
    | VarintPayload(v: uint64)
    | Fixed64(bytes: seq<byte>)
    | LengthDelimited(bytes: seq<byte>)
    | Fixed32(bytes: seq<byte>)

  datatype Field = Field(number: nat, payload: Payload)

  function WireType(p: Payload): (wt: nat)
    ensures wt < 8
  {
    match p
    case VarintPayload(_) => 0
    case Fixed64(_) => 1
    case LengthDelimited(_) => 2
    case Fixed32(_) => 5
  }

  /** The tag must fit 64 bits, fixed payloads have their width, and a length fits its varint. */
  predicate ValidField(f: Field) {
    && f.number < 0x2000_0000_0000_0000
    && (f.payload.Fixed64? ==> |f.payload.bytes| == 8)
    && (f.payload.Fixed32? ==> |f.payload.bytes| == 4)
    && (f.payload.LengthDelimited? ==> |f.payload.bytes| < TWO64)
  }

  function Tag(f: Field): uint64
    requires ValidField(f)
  {
    f.number * 8 + WireType(f.payload)
  }

  function SerializedPayload(p: Payload): seq<byte> {
    match p
    case VarintPayload(v) => Encoded(v)
    case Fixed64(bytes) => bytes
    case LengthDelimited(bytes) => Encoded(|bytes|) + bytes
    case Fixed32(bytes) => bytes
  }

  function Serialized(f: Field): (s: seq<byte>)
    requires ValidField(f)
    ensures s != []
  {
    Encoded(Tag(f)) + SerializedPayload(f.payload)
  }

  ghost predicate AllValid(fs: seq<Field>) {
    forall k :: 0 <= k < |fs| ==> ValidField(fs[k])
  }

  function SerializedAll(fs: seq<Field>): seq<byte>
    requires AllValid(fs)
  {
    if fs == [] then [] else Serialized(fs[0]) + SerializedAll(fs[1..])
  }

  /** Where each field ends when the first one starts at off. */
  function FieldEnds(fs: seq<Field>, off: nat): seq<nat>
    requires AllValid(fs)
  {
    if fs == [] then [] else
      var e := off + |Serialized(fs[0])|;
      [e] + FieldEnds(fs[1..], e)
  }

  /** What a reader of s sees from off on: the offset after each field, or a framing error. */
  datatype Walk = Broken | Ends(ends: seq<nat>)

  /** End of the field whose tag is at off, or -1. */
  function FieldTo(s: seq<byte>, off: nat): (e: int)
    requires off <= |s|
    ensures e == -1 || off < e <= |s|
  {
    LenInside(s, off);
    var n := VarintLen(s, off);
    if n == 0 then -1 else
      SkipAdvances(s, off + n, VarintValue(s, off) % 8);
      SkipTo(s, off + n, VarintValue(s, off) % 8)
  }

  function WalkFrom(s: seq<byte>, off: nat): Walk
    requires off <= |s|
    decreases |s| - off
  {
    if off == |s| then Ends([]) else
      var e := FieldTo(s, off);
      if e == -1 then Broken else
        match WalkFrom(s, e)
        case Broken => Broken
        case Ends(rest) => Ends([e] + rest)
  }

  /** The reader's loop: decode a tag, skip the payload its low three bits announce, repeat. */
  method WalkFields(buf: seq<byte>) returns (ok: bool, ends: seq<nat>)
    requires |buf| <= INT_MAX
    ensures ok <==> WalkFrom(buf, 0).Ends?
    ensures ok ==> WalkFrom(buf, 0) == Ends(ends)
  {
    hide VarintLen, VarintValue, SkipTo;
    var off := 0;
    ends := [];
    while off < |buf|
      invariant 0 <= off <= |buf|
      invariant WalkFrom(buf, 0) ==
        match WalkFrom(buf, off) { case Broken => Broken case Ends(rest) => Ends(ends + rest) }
      decreases |buf| - off
    {
      var n, tag := DecodeVarint(buf, off);
      if n == 0 {
        return false, ends;
      }
      LenInside(buf, off);
      var e := SkipField(buf, off + n, tag % 8);
      SkipAdvances(buf, off + n, tag % 8);
      if e == -1 {
        return false, ends;
      }
      if WalkFrom(buf, e).Ends? {
        var rest := WalkFrom(buf, e).ends;
        assert ends + ([e as nat] + rest) == ends + [e] + rest;
      }
      ends := ends + [e];
      off := e;
    }
    assert ends + [] == ends;
    return true, ends;
  }

  /** Skipping a serialised payload lands exactly on its end. */
  lemma SkipSerialized(s: seq<byte>, off: nat, p: Payload)
    requires var n := |SerializedPayload(p)|;
             off + n <= |s| && s[off..off + n] == SerializedPayload(p)
    requires p.Fixed64? ==> |p.bytes| == 8
    requires p.Fixed32? ==> |p.bytes| == 4
    requires p.LengthDelimited? ==> |p.bytes| < TWO64
    ensures SkipTo(s, off, WireType(p)) == off + |SerializedPayload(p)|
  {
    hide VarintLen, VarintValue, Encoded;
    match p
    case VarintPayload(v) =>
      DecodeEncoded(s, off, v);
    case LengthDelimited(bytes) =>
      var e := Encoded(|bytes|);
      assert s[off..off + |e|] == s[off..off + |e| + |bytes|][..|e|] == e;
      DecodeEncoded(s, off, |bytes|);
    case Fixed64(_) =>
    case Fixed32(_) =>
  }

  /** Dropping one byte or more of a serialised payload makes its skip fail. */
  lemma SkipTruncated(s: seq<byte>, off: nat, p: Payload, m: nat)
    requires var n := |SerializedPayload(p)|;
             off + n <= |s| && s[off..off + n] == SerializedPayload(p) && off <= m < off + n
    requires p.Fixed64? ==> |p.bytes| == 8
    requires p.Fixed32? ==> |p.bytes| == 4
    requires p.LengthDelimited? ==> |p.bytes| < TWO64
    ensures SkipTo(s[..m], off, WireType(p)) == -1
  {
    hide SkipTo, SerializedPayload;
    SkipSerialized(s, off, p);
    SkipNeedsWholePayload(s, off, WireType(p), m);
  }

  lemma FieldReads(s: seq<byte>, off: nat, f: Field)
    requires ValidField(f) && off + |Serialized(f)| <= |s| && s[off..off + |Serialized(f)|] == Serialized(f)
    ensures var n := VarintLen(s, off);
            && n > 0 && off + n <= |s|
            && SkipTo(s, off + n, VarintValue(s, off) % 8) == off + |Serialized(f)|
  {
    hide VarintLen, VarintValue, Encoded, SkipTo, SerializedPayload;
    var e, p := Encoded(Tag(f)), SerializedPayload(f.payload);
    var t := s[off..off + |e| + |p|];
    assert t[..|e|] == e && t[|e|..] == p;
    assert s[off..off + |e|] == t[..|e|] && s[off + |e|..off + |e| + |p|] == t[|e|..];
    DecodeEncoded(s, off, Tag(f));
    SkipSerialized(s, off + |e|, f.payload);
  }

  /** The reader visits exactly the boundaries of the fields a message was serialised from. */
  lemma {:induction false} WalkVisitsBoundaries(s: seq<byte>, off: nat, fs: seq<Field>)
    requires AllValid(fs) && off <= |s| && s[off..] == SerializedAll(fs)
    ensures WalkFrom(s, off) == Ends(FieldEnds(fs, off))
    decreases |fs|
  {
    hide VarintLen, VarintValue, Encoded, SkipTo, Serialized, Tag;
    if fs != [] {
      var f, rest := fs[0], SerializedAll(fs[1..]);
      var e := off + |Serialized(f)|;
      SuffixSplits(s, off, Serialized(f), rest);
      FieldReads(s, off, f);
      WalkVisitsBoundaries(s, e, fs[1..]);
    }
  }

  /** The last boundary is the end of the message. */
  lemma {:induction false} EndsAtEnd(fs: seq<Field>, off: nat)
    requires AllValid(fs) && fs != []
    ensures var ends := FieldEnds(fs, off);
            |ends| == |fs| && ends[|ends| - 1] == off + |SerializedAll(fs)|
    decreases |fs|
  {
    hide Serialized;
    if |fs| > 1 {
      EndsAtEnd(fs[1..], off + |Serialized(fs[0])|);
    } else {
      assert fs[1..] == [];
    }
  }

  // ---- Arbitrary bytes ----

  /** One field and nothing else: the payload the tag announces ends with the bytes. */
  predicate CompleteField(p: seq<byte>) {
    FieldTo(p, 0) == |p|
  }

  ghost predicate AllComplete(pieces: seq<seq<byte>>) {
    forall k :: 0 <= k < |pieces| ==> CompleteField(pieces[k])
  }

  /** Where each piece ends when the first one starts at off. */
  function PieceEnds(pieces: seq<seq<byte>>, off: nat): seq<nat> {
    if pieces == [] then [] else
      var e := off + |pieces[0]|;
      [e] + PieceEnds(pieces[1..], e)
  }

  /** A field of the buffer is complete in itself, and bytes that are a complete field are read as one. */
  lemma FieldIsComplete(s: seq<byte>, off: nat, e: nat)
    requires off < e <= |s|
    ensures FieldTo(s, off) == e <==> CompleteField(s[off..e])
  {
    hide VarintLen, VarintValue, SkipTo;
    VarintSlice(s, off, e, 0);
    var n := VarintLen(s[off..e], 0);
    if n > 0 {
      LenInside(s[off..e], 0);
      SkipSlice(s, off, e, n, VarintValue(s, off) % 8);
    } else if VarintLen(s, off) > 0 {
      LenInside(s, off);
      SkipAdvances(s, off + VarintLen(s, off), VarintValue(s, off) % 8);
    }
  }

  /** The walk goes through a concatenation of complete fields, one after the other. */
  lemma {:induction false} WalkPieces(s: seq<byte>, off: nat, pieces: seq<seq<byte>>)
    requires off <= |s| && AllComplete(pieces) && s[off..] == Flatten(pieces)
    ensures WalkFrom(s, off) == Ends(PieceEnds(pieces, off))
    decreases |pieces|
  {
    hide FieldTo;
    if pieces != [] {
      var p := pieces[0];
      var e := off + |p|;
      assert FieldTo(p, 0) == |p| && p != [];
      SuffixSplits(s, off, p, Flatten(pieces[1..]));
      FieldIsComplete(s, off, e);
      WalkPieces(s, e, pieces[1..]);
    }
  }

  /** What a walk that reaches the end went through. */
  lemma {:induction false} WalkedPieces(s: seq<byte>, off: nat) returns (pieces: seq<seq<byte>>)
    requires off <= |s| && WalkFrom(s, off).Ends?
    ensures AllComplete(pieces) && s[off..] == Flatten(pieces) && WalkFrom(s, off) == Ends(PieceEnds(pieces, off))
    decreases |s| - off
  {
    hide FieldTo;
    pieces := [];
    if off < |s| {
      var e := FieldTo(s, off);
      var rest := WalkedPieces(s, e);
      FieldIsComplete(s, off, e);
      pieces := [s[off..e]] + rest;
      assert s[off..] == s[off..e] + s[e..];
    }
  }

  /** On arbitrary bytes: the walk reaches the end, reporting the given ends, exactly when the bytes are
    * complete fields one after the other with those ends. */
  lemma WalkIffPieces(s: seq<byte>, ends: seq<nat>)
    ensures WalkFrom(s, 0) == Ends(ends) <==>
            exists pieces :: AllComplete(pieces) && Flatten(pieces) == s && PieceEnds(pieces, 0) == ends
  {
    hide WalkFrom, AllComplete, PieceEnds, Flatten;
    assert s[0..] == s;
    if WalkFrom(s, 0) == Ends(ends) {
      var pieces := WalkedPieces(s, 0);
    }
    if pieces :| AllComplete(pieces) && Flatten(pieces) == s && PieceEnds(pieces, 0) == ends {
      WalkPieces(s, 0, pieces);
    }
  }

  // ---- Fields in bytes ----

  /** At most ten bytes of which the last, and only the last, is below 0x80. */
  ghost predicate IsVarint(t: seq<byte>) {
    1 <= |t| <= 10 && t[|t| - 1] < 0x80 && forall k :: 0 <= k < |t| - 1 ==> t[k] >= 0x80
  }

  /** The low 64 bits of the groups of seven. */
  function Number(t: seq<byte>): nat {
    Value(t) % 0x1_0000_0000_0000_0000
  }

  /** The payloads of a wire type: a varint, eight bytes, a varint and as many bytes as it says, or
    * four bytes. There are no others. */
  ghost predicate IsPayload(wt: int, q: seq<byte>) {
    match wt
    case 0 => IsVarint(q)
    case 1 => |q| == 8
    case 2 => exists n | 0 <= n <= |q| :: IsVarint(q[..n]) && |q| == n + Number(q[..n])
    case 5 => |q| == 4
    case _ => false
  }

  lemma VarintLenIff(s: seq<byte>, off: nat, n: nat)
    requires off + n <= |s|
    ensures n > 0 && VarintLen(s, off) == n <==> IsVarint(s[off..off + n])
  {
    hide LenFrom;
    var t := s[off..off + n];
    assert forall k :: 0 <= k < n ==> t[k] == s[off + k];
    if IsVarint(t) {
      assert forall j :: off <= j < off + n - 1 ==> s[j] == t[j - off];
      LenFromIs(s, off, 0, n);
    }
  }

  lemma NumberIs(s: seq<byte>, off: nat, n: nat)
    requires 0 < n == VarintLen(s, off) && off + n <= |s|
    ensures VarintValue(s, off) == Number(s[off..off + n])
  {
    hide Value, LenFrom;
  }

  /** A varint at the start of the rest of the buffer. */
  lemma VarintHead(s: seq<byte>, off: nat, n: nat)
    requires off + n <= |s|
    ensures s[off..][..n] == s[off..off + n]
    ensures n > 0 && VarintLen(s, off) == n <==> IsVarint(s[off..][..n])
    ensures n > 0 && VarintLen(s, off) == n ==> VarintValue(s, off) == Number(s[off..][..n])
  {
    assert s[off..][..n] == s[off..off + n];
    hide *;
    VarintLenIff(s, off, n);
    if n > 0 && VarintLen(s, off) == n {
      NumberIs(s, off, n);
    }
  }

  /** A skip ends where the payload of that wire type ends. */
  lemma SkipIff(s: seq<byte>, off: nat, wt: int)
    requires off <= |s|
    ensures SkipTo(s, off, wt) == |s| <==> IsPayload(wt, s[off..])
  {
    hide VarintLen, VarintValue, IsVarint, Number;
    var q, n := s[off..], VarintLen(s, off);
    LenInside(s, off);
    VarintHead(s, off, n);
    VarintHead(s, off, |q|);
    assert q[..|q|] == q;
    forall m | 0 <= m <= |q| && IsVarint(q[..m])
      ensures n == m
    {
      VarintHead(s, off, m);
    }
  }

  /** One complete field: the varint of a tag, and a payload of the wire type in its low three bits. */
  lemma CompleteFieldIff(p: seq<byte>)
    ensures CompleteField(p) <==>
            exists n | 0 <= n <= |p| :: IsVarint(p[..n]) && IsPayload(Number(p[..n]) % 8, p[n..])
  {
    hide VarintLen, VarintValue, IsVarint, Number, IsPayload, SkipTo;
    assert p[0..] == p;
    var n := VarintLen(p, 0);
    LenInside(p, 0);
    VarintHead(p, 0, n);
    if n > 0 {
      SkipIff(p, n, VarintValue(p, 0) % 8);
    }
    forall m | 0 <= m <= |p| && IsVarint(p[..m])
      ensures n == m
    {
      VarintHead(p, 0, m);
    }
  }

  lemma UnknownIsSkipped(s: seq<byte>, off: nat, wt: int)
    requires off <= |s| && wt !in {0, 1, 2, 5}
    ensures SkipTo(s, off, wt) == -1
  {
  }

  lemma UnknownIsBroken(s: seq<byte>, off: nat, n: nat)
    requires off + n <= |s| && IsVarint(s[off..][..n]) && Number(s[off..][..n]) % 8 !in {0, 1, 2, 5}
    ensures WalkFrom(s, off) == Broken
  {
    VarintHead(s, off, n);
    assert n > 0;
    hide VarintLen, VarintValue, IsVarint, Number, SkipTo;
    UnknownIsSkipped(s, off + n, VarintValue(s, off) % 8);
  }

  lemma BrokenStep(s: seq<byte>, off: nat, e: nat)
    requires off < e <= |s| && FieldTo(s, off) == e && WalkFrom(s, e) == Broken
    ensures WalkFrom(s, off) == Broken
  {
    hide FieldTo;
  }

  lemma NoPieces()
    ensures Flatten([]) == []
  {
  }

  lemma FirstPiece(pieces: seq<seq<byte>>, rest: seq<byte>)
    requires AllComplete(pieces) && pieces != []
    ensures Flatten(pieces) + rest == pieces[0] + (Flatten(pieces[1..]) + rest)
    ensures AllComplete(pieces[1..]) && CompleteField(pieces[0]) && pieces[0] != []
  {
    hide FieldTo;
    assert FieldTo(pieces[0], 0) == |pieces[0]|;
  }

  /** A walk that meets, after any number of complete fields, a tag of a wire type that is none of the four
    * is broken. */
  lemma {:induction false} UnknownTagBreaks(s: seq<byte>, off: nat, pieces: seq<seq<byte>>, rest: seq<byte>, n: nat)
    requires off <= |s| && AllComplete(pieces) && s[off..] == Flatten(pieces) + rest
    requires n <= |rest| && IsVarint(rest[..n]) && Number(rest[..n]) % 8 !in {0, 1, 2, 5}
    ensures WalkFrom(s, off) == Broken
    decreases |pieces|
  {
    hide *;
    if pieces == [] {
      NoPieces();
      assert s[off..] == rest;
      UnknownIsBroken(s, off, n);
    } else {
      FirstPiece(pieces, rest);
      var p, others := pieces[0], Flatten(pieces[1..]) + rest;
      SuffixSplits(s, off, p, others);
      FieldIsComplete(s, off, off + |p|);
      UnknownTagBreaks(s, off + |p|, pieces[1..], rest, n);
      BrokenStep(s, off, off + |p|);
    }
  }

  /** Fields whose tag fits 64 bits, fixed payloads have their width, and lengths fit their varint. */
  lemma ValidIff(f: Field)
    ensures ValidField(f) <==>
            && f.number * 8 + 7 <= 0xFFFF_FFFF_FFFF_FFFF
            && (f.payload.Fixed64? ==> |f.payload.bytes| == 8)
            && (f.payload.Fixed32? ==> |f.payload.bytes| == 4)
            && (f.payload.LengthDelimited? ==> |f.payload.bytes| <= 0xFFFF_FFFF_FFFF_FFFF)
  {
  }

  /** The tag of a field: its number above the three bits of its wire type. */
  lemma TagIs(f: Field)
    requires ValidField(f)
    ensures Tag(f) / 8 == f.number
    ensures Tag(f) % 8 == if f.payload.VarintPayload? then 0 else if f.payload.Fixed64? then 1 else
                          if f.payload.LengthDelimited? then 2 else 5
  {
  }
}
