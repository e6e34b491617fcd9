/** HTML escaping: the chunked loop driven by a stop-byte scanner, the byte-at-a-time escaper and the
  * unescaper, with the driver that compares them.
  */
module HtmlEscape {
  import opened Bytes

  datatype Class = Text | Dq | Sq | DqOnly | SqOnly | Unq | Gt | TextEsc | AttrEsc | TagName

  const LT: byte := 0x3C
  const GT: byte := 0x3E
  const AMP: byte := 0x26
  const QUOT: byte := 0x22

  /** The scanner classes a byte belongs to. */
  function Classes(b: byte): set<Class> {
    (if b == LT || b == AMP || b == 0x00 || b == 0x0D then {Text} else {})
    + (if b == QUOT || b == AMP then {Dq} else {})
    + (if b == 0x27 || b == AMP then {Sq} else {})
    + (if b == QUOT then {DqOnly} else {})
    + (if b == 0x27 then {SqOnly} else {})
    + (if b == GT || b == AMP || b == 0x20 || b == 0x09 || b == 0x0A || b == 0x0D || b == 0x0C then {Unq} else {})
    + (if b == GT then {Gt} else {})
    + (if b == LT || b == GT || b == AMP then {TextEsc} else {})
    + (if b == QUOT || b == AMP || b == LT || b == GT then {AttrEsc} else {})
    + (if 0x61 <= b <= 0x7A || 0x41 <= b <= 0x5A || 0x30 <= b <= 0x39
          || b == 0x2D || b == 0x5F || b == 0x3A || b == 0x2E || b == LT then {TagName} else {})
  }

  /** First index in [off, end) whose byte is in the class, else end. */
  method Find(buf: seq<byte>, off: nat, end: nat, cls: Class) returns (r: nat)
    requires off <= end <= |buf|
    ensures off <= r <= end && forall k :: off <= k < r ==> cls !in Classes(buf[k])
    ensures r < end ==> cls in Classes(buf[r])
  {
    hide Classes;
    r := off;
    while r < end
      invariant off <= r <= end
      invariant forall k :: off <= k < r ==> cls !in Classes(buf[k])
    {
      if cls in Classes(buf[r]) {
        return;
      }
      r := r + 1;
    }
  }

  /** The entity for a byte; the empty string stands for the null pointer. */
  function Entity(b: byte): seq<byte> {
    if b == LT then [AMP, 0x6C, 0x74, 0x3B]
    else if b == GT then [AMP, 0x67, 0x74, 0x3B]
    else if b == AMP then [AMP, 0x61, 0x6D, 0x70, 0x3B]
    else if b == QUOT then [AMP, 0x71, 0x75, 0x6F, 0x74, 0x3B]
    else []
  }

  /** The class of bytes to escape in attribute values and in text. */
  function EscapeClass(attr: bool): Class {
    if attr then AttrEsc else TextEsc
  }

  predicate MustEscape(b: byte, attr: bool) {
    b == LT || b == GT || b == AMP || (attr && b == QUOT)
  }

  lemma ClassIsMustEscape(b: byte, attr: bool)
    ensures EscapeClass(attr) in Classes(b) <==> MustEscape(b, attr)
    ensures MustEscape(b, attr) ==> Entity(b) != []
  {
  }

  function EscapedByte(b: byte, attr: bool): (t: seq<byte>)
    ensures t != []
  {
    if MustEscape(b, attr) then Entity(b) else [b]
  }

  function EscapedFrom(s: seq<byte>, i: nat, attr: bool): seq<byte>
    decreases |s| - i
  {
    if i >= |s| then [] else EscapedByte(s[i], attr) + EscapedFrom(s, i + 1, attr)
  }

  // ---- The two escapers ----

  lemma EscapeEnd(s: seq<byte>, attr: bool)
    ensures EscapedFrom(s, |s|, attr) == []
  {
  }

  lemma EscapedUnfold(s: seq<byte>, i: nat, attr: bool, done: seq<byte>)
    requires i < |s|
    ensures done + EscapedFrom(s, i, attr) == done + EscapedByte(s[i], attr) + EscapedFrom(s, i + 1, attr)
  {
  }

  lemma EscapedByteIs(b: byte, attr: bool)
    ensures var e := if EscapeClass(attr) in Classes(b) then Entity(b) else [];
            EscapedByte(b, attr) == if e != [] then e else [b]
    ensures EscapeClass(attr) in Classes(b) ==> EscapedByte(b, attr) == Entity(b)
    ensures EscapeClass(attr) !in Classes(b) ==> EscapedByte(b, attr) == [b]
  {
  }

  lemma EscapeStop(s: seq<byte>, i: nat, attr: bool, done: seq<byte>)
    requires i < |s| && EscapeClass(attr) in Classes(s[i])
    ensures done + EscapedFrom(s, i, attr) == done + Entity(s[i]) + EscapedFrom(s, i + 1, attr)
  {
    hide *;
    EscapedByteIs(s[i], attr);
    EscapedUnfold(s, i, attr, done);
  }

  /** A run without stop bytes is copied as it is. */
  lemma {:induction false} CleanRun(s: seq<byte>, off: nat, pos: nat, attr: bool, done: seq<byte>)
    requires off <= pos <= |s| && forall k :: off <= k < pos ==> EscapeClass(attr) !in Classes(s[k])
    ensures done + EscapedFrom(s, off, attr) == done + s[off..pos] + EscapedFrom(s, pos, attr)
    decreases pos - off
  {
    hide *;
    if off == pos {
      assert s[off..pos] == [];
      assert done + [] == done;
    } else {
      EscapedByteIs(s[off], attr);
      EscapedUnfold(s, off, attr, done);
      CleanRun(s, off + 1, pos, attr, done + [s[off]]);
      assert s[off..pos] == [s[off]] + s[off + 1..pos];
      assert done + [s[off]] + s[off + 1..pos] == done + s[off..pos];
    }
  }

  method EscapeChunked(buf: seq<byte>, attr: bool) returns (got: seq<byte>)
    ensures got == EscapedFrom(buf, 0, attr)
  {
    hide *;
    got := [];
    var len := |buf|;
    var off := 0;
    EscapeEnd(buf, attr);
    while off < len
      invariant off <= len
      invariant got + EscapedFrom(buf, off, attr) == EscapedFrom(buf, 0, attr)
    {
      var pos := Find(buf, off, len, EscapeClass(attr));
      CleanRun(buf, off, pos, attr, got);
      if pos >= len {
        got := got + buf[off..len];
        off := len;
        break;
      }
      got := got + buf[off..pos];
      EscapeStop(buf, pos, attr, got);
      got := got + Entity(buf[pos]);
      off := pos + 1;
    }
    assert got + [] == got;
  }

  lemma EscapeUnit(s: seq<byte>, i: nat, attr: bool, done: seq<byte>)
    requires i < |s|
    ensures var e := if EscapeClass(attr) in Classes(s[i]) then Entity(s[i]) else [];
            done + EscapedFrom(s, i, attr) == done + (if e != [] then e else [s[i]]) + EscapedFrom(s, i + 1, attr)
  {
    hide *;
    EscapedByteIs(s[i], attr);
    EscapedUnfold(s, i, attr, done);
  }

  method EscapeBytewise(buf: seq<byte>, attr: bool) returns (want: seq<byte>)
    ensures want == EscapedFrom(buf, 0, attr)
  {
    hide *;
    want := [];
    EscapeEnd(buf, attr);
    var i := 0;
    while i < |buf|
      invariant 0 <= i <= |buf|
      invariant want + EscapedFrom(buf, i, attr) == EscapedFrom(buf, 0, attr)
    {
      EscapeUnit(buf, i, attr, want);
      var e := if EscapeClass(attr) in Classes(buf[i]) then Entity(buf[i]) else [];
      want := want + if e != [] then e else [buf[i]];
      i := i + 1;
    }
    assert want + [] == want;
  }

  // ---- Unescaping ----

  datatype Unescaping = Stray | Plain(bytes: seq<byte>)

  function Prepend(b: seq<byte>, u: Unescaping): Unescaping {
    if u.Plain? then Plain(b + u.bytes) else u
  }

  const RAW: seq<byte> := [LT, GT, AMP, QUOT]

  predicate EntityAt(t: seq<byte>, i: nat, b: byte) {
    Entity(b) != [] && i + |Entity(b)| <= |t| && t[i..i + |Entity(b)|] == Entity(b)
  }

  /** The byte whose entity starts at i, trying the four in table order. */
  function NamedAt(t: seq<byte>, i: nat): (r: int)
    ensures r >= 0 ==> r < 256 && EntityAt(t, i, r)
    ensures r < 0 ==> forall b: byte :: !EntityAt(t, i, b)
  {
    if EntityAt(t, i, LT) then LT
    else if EntityAt(t, i, GT) then GT
    else if EntityAt(t, i, AMP) then AMP
    else if EntityAt(t, i, QUOT) then QUOT
    else -1
  }

  /** "&" must open one of the four entities, and no other byte of the class may appear. */
  function UnescapedFrom(t: seq<byte>, i: nat, attr: bool): Unescaping
    decreases |t| - i
  {
    if i >= |t| then Plain([])
    else if t[i] == AMP then
      var b := NamedAt(t, i);
      if b < 0 then Stray else Prepend([b], UnescapedFrom(t, i + |Entity(b)|, attr))
    else if MustEscape(t[i], attr) then Stray
    else Prepend([t[i]], UnescapedFrom(t, i + 1, attr))
  }

  /** None of the first k entities of the table starts at i. */
  ghost predicate NamedAfter(t: seq<byte>, i: nat, k: nat) {
    forall j :: 0 <= j < k && j < |RAW| ==> !EntityAt(t, i, RAW[j])
  }

  lemma TableSize()
    ensures |RAW| == 4 && forall t, i: nat :: NamedAfter(t, i, 0)
  {
  }

  lemma TableStep(t: seq<byte>, i: nat, k: nat)
    requires k < 4 && NamedAfter(t, i, k) && i <= |t|
    ensures |RAW| == 4
    ensures var e := Entity(RAW[k]);
            if |t| - i >= |e| && t[i..i + |e|] == e then NamedAt(t, i) == RAW[k] else NamedAfter(t, i, k + 1)
  {
    assert RAW[0] == LT && RAW[1] == GT && RAW[2] == AMP && RAW[3] == QUOT;
    assert k > 0 ==> !EntityAt(t, i, RAW[0]);
    assert k > 1 ==> !EntityAt(t, i, RAW[1]);
    assert k > 2 ==> !EntityAt(t, i, RAW[2]);
  }

  lemma TableEnd(t: seq<byte>, i: nat)
    ensures NamedAfter(t, i, 4) ==> NamedAt(t, i) == -1
  {
    assert RAW[0] == LT && RAW[1] == GT && RAW[2] == AMP && RAW[3] == QUOT;
    if NamedAfter(t, i, 4) {
      assert !EntityAt(t, i, RAW[0]) && !EntityAt(t, i, RAW[1]) && !EntityAt(t, i, RAW[2]) && !EntityAt(t, i, RAW[3]);
    }
  }

  lemma PrependNothing(u: Unescaping)
    ensures Prepend([], u) == u
  {
  }

  lemma UnescapeEnd(t: seq<byte>, i: nat, attr: bool, done: seq<byte>)
    requires i >= |t|
    ensures Prepend(done, UnescapedFrom(t, i, attr)) == Plain(done)
  {
  }

  lemma PrependTwice(a: seq<byte>, b: seq<byte>, u: Unescaping)
    ensures Prepend(a, Prepend(b, u)) == Prepend(a + b, u)
  {
  }

  lemma UnescapeStep(t: seq<byte>, i: nat, attr: bool, done: seq<byte>)
    requires i < |t|
    ensures var u := Prepend(done, UnescapedFrom(t, i, attr));
            if t[i] == AMP then
              var b := NamedAt(t, i);
              if b < 0 then u == Stray
              else
                && b < 256 && i + |Entity(b)| <= |t| && 0 < |Entity(b)|
                && u == Prepend(done + [b], UnescapedFrom(t, i + |Entity(b)|, attr))
            else if EscapeClass(attr) in Classes(t[i]) then u == Stray
            else u == Prepend(done + [t[i]], UnescapedFrom(t, i + 1, attr))
  {
    ClassIsMustEscape(t[i], attr);
    hide Classes;
    if t[i] == AMP && NamedAt(t, i) >= 0 {
      PrependTwice(done, [NamedAt(t, i)], UnescapedFrom(t, i + |Entity(NamedAt(t, i))|, attr));
    } else if t[i] != AMP && !MustEscape(t[i], attr) {
      PrependTwice(done, [t[i]], UnescapedFrom(t, i + 1, attr));
    }
  }

  method Unescape(t: seq<byte>, attr: bool) returns (r: Unescaping)
    ensures r == UnescapedFrom(t, 0, attr)
  {
    hide *;
    var back: seq<byte> := [];
    var i := 0;
    PrependNothing(UnescapedFrom(t, 0, attr));
    while i < |t|
      invariant 0 <= i <= |t|
      invariant UnescapedFrom(t, 0, attr) == Prepend(back, UnescapedFrom(t, i, attr))
    {
      var b := t[i];
      UnescapeStep(t, i, attr, back);
      if b == AMP {
        var k := 0;
        var found: int := -1;
        TableSize();
        while k < 4
          invariant 0 <= k <= 4
          invariant if found < 0 then NamedAfter(t, i, k) else found == NamedAt(t, i)
          decreases if found < 0 then 4 - k else -1
        {
          TableStep(t, i, k);
          var e := Entity(RAW[k]);
          if |t| - i >= |e| && t[i..i + |e|] == e {
            found := RAW[k];
            break;
          }
          k := k + 1;
        }
        TableEnd(t, i);
        if found < 0 {
          return Stray;
        }
        back := back + [found];
        i := i + |Entity(found)|;
      } else {
        if EscapeClass(attr) in Classes(b) {
          return Stray;
        }
        back := back + [b];
        i := i + 1;
      }
    }
    UnescapeEnd(t, i, attr, back);
    return Plain(back);
  }

  // ---- Round trip ----

  lemma NothingEscaped(s: seq<byte>, t: seq<byte>, pos: nat, attr: bool)
    requires pos <= |t| && t[pos..] == EscapedFrom(s, |s|, attr)
    ensures UnescapedFrom(t, pos, attr) == Plain([])
  {
  }

  lemma PrependPlain(a: seq<byte>, b: seq<byte>)
    ensures Prepend(a, Plain(b)) == Plain(a + b)
  {
  }

  /** The escaped form of the first byte, and what follows it. */
  lemma EscapedHead(s: seq<byte>, i: nat, t: seq<byte>, pos: nat, attr: bool)
    requires i < |s| && pos <= |t| && t[pos..] == EscapedFrom(s, i, attr)
    ensures var e := EscapedByte(s[i], attr);
            pos + |e| <= |t| && t[pos..pos + |e|] == e && t[pos + |e|..] == EscapedFrom(s, i + 1, attr)
  {
  }

  lemma EscapedByteStart(b: byte, attr: bool)
    ensures EscapedByte(b, attr)[0] == if MustEscape(b, attr) then AMP else b
    ensures b == AMP ==> MustEscape(b, attr)
  {
  }

  lemma IsEntityAt(t: seq<byte>, pos: nat, b: byte, attr: bool)
    requires MustEscape(b, attr)
    requires var e := EscapedByte(b, attr); pos + |e| <= |t| && t[pos..pos + |e|] == e
    ensures EntityAt(t, pos, b)
  {
  }

  /** No entity is a prefix of another. */
  lemma NamedUnique(t: seq<byte>, i: nat, b: byte)
    requires EntityAt(t, i, b)
    ensures NamedAt(t, i) == b
  {
    assert t[i + 1] == t[i..i + |Entity(b)|][1] == Entity(b)[1];
    var r := NamedAt(t, i);
    assert t[i + 1] == t[i..i + |Entity(r)|][1] == Entity(r)[1];
  }

  lemma UnescapeUnit(t: seq<byte>, pos: nat, b: byte, attr: bool)
    requires var e := EscapedByte(b, attr); pos + |e| <= |t| && t[pos..pos + |e|] == e
    ensures UnescapedFrom(t, pos, attr) == Prepend([b], UnescapedFrom(t, pos + |EscapedByte(b, attr)|, attr))
  {
    hide *;
    var e := EscapedByte(b, attr);
    EscapedByteStart(b, attr);
    assert t[pos] == t[pos..pos + |e|][0] == e[0];
    UnescapeStep(t, pos, attr, []);
    PrependNothing(UnescapedFrom(t, pos, attr));
    assert [] + [b] == [b];
    EscapedByteIs(b, attr);
    ClassIsMustEscape(b, attr);
    if MustEscape(b, attr) {
      IsEntityAt(t, pos, b, attr);
      NamedUnique(t, pos, b);
    }
  }

  /** Unescaping the escaped text returns the original bytes. */
  lemma {:induction false} UnescapeEscaped(s: seq<byte>, i: nat, t: seq<byte>, pos: nat, attr: bool)
    requires i <= |s| && pos <= |t| && t[pos..] == EscapedFrom(s, i, attr)
    ensures UnescapedFrom(t, pos, attr) == Plain(s[i..])
    decreases |s| - i
  {
    hide *;
    if i == |s| {
      NothingEscaped(s, t, pos, attr);
      assert s[i..] == [];
    } else {
      EscapedHead(s, i, t, pos, attr);
      var e := EscapedByte(s[i], attr);
      UnescapeEscaped(s, i + 1, t, pos + |e|, attr);
      UnescapeUnit(t, pos, s[i], attr);
      PrependPlain([s[i]], s[i + 1..]);
      assert s[i..] == [s[i]] + s[i + 1..];
    }
  }

  /** Escaped text contains no raw stop byte: every "<", ">", quote of the class is gone, and every "&"
    * opens an entity. */
  lemma {:induction false} NoRawStops(s: seq<byte>, i: nat, t: seq<byte>, pos: nat, attr: bool, k: nat)
    requires i <= |s| && pos <= k < |t| && t[pos..] == EscapedFrom(s, i, attr)
    requires MustEscape(t[k], attr)
    ensures t[k] == AMP && exists b :: MustEscape(b, attr) && EntityAt(t, k, b)
    decreases |s| - i
  {
    if i < |s| {
      EscapedHead(s, i, t, pos, attr);
      hide EscapedFrom;
      var e := EscapedByte(s[i], attr);
      if k < pos + |e| {
        assert t[k] == t[pos..pos + |e|][k - pos] == e[k - pos];
        if MustEscape(s[i], attr) {
          assert k == pos;
          assert EntityAt(t, k, s[i]);
        }
      } else {
        NoRawStops(s, i + 1, t, pos + |e|, attr, k);
      }
    }
  }

  // ---- Which texts are escapings ----

  /** What precedes a position does not matter to what follows it. */
  lemma {:induction false} EscapedShift(b: byte, rest: seq<byte>, i: nat, attr: bool)
    requires i <= |rest|
    ensures EscapedFrom([b] + rest, i + 1, attr) == EscapedFrom(rest, i, attr)
    decreases |rest| - i
  {
    hide *;
    var s := [b] + rest;
    if i < |rest| {
      EscapedShift(b, rest, i + 1, attr);
      EscapedUnfold(s, i + 1, attr, []);
      EscapedUnfold(rest, i, attr, []);
      assert s[i + 1] == rest[i];
      assert EscapedFrom(s, i + 1, attr) == [] + EscapedFrom(s, i + 1, attr);
      assert EscapedFrom(rest, i, attr) == [] + EscapedFrom(rest, i, attr);
    } else {
      EscapeEnd(s, attr);
      EscapeEnd(rest, attr);
    }
  }

  /** Escaping one byte and the rest after it. */
  lemma EscapedCons(b: byte, rest: seq<byte>, attr: bool)
    ensures EscapedFrom([b] + rest, 0, attr) == EscapedByte(b, attr) + EscapedFrom(rest, 0, attr)
  {
    hide *;
    var s := [b] + rest;
    EscapedUnfold(s, 0, attr, []);
    EscapedShift(b, rest, 0, attr);
    assert EscapedFrom(s, 0, attr) == [] + EscapedFrom(s, 0, attr);
    assert [] + EscapedByte(b, attr) == EscapedByte(b, attr);
  }

  lemma EntityEscapes(t: seq<byte>, i: nat, b: byte, attr: bool)
    requires EntityAt(t, i, b) && (attr || !EntityAt(t, i, QUOT))
    ensures EscapedByte(b, attr) == Entity(b) && i + |Entity(b)| <= |t| && t[i..i + |Entity(b)|] == Entity(b)
  {
  }

  lemma PrependIsPlain(a: seq<byte>, u: Unescaping)
    ensures Prepend(a, u).Plain? <==> u.Plain?
    ensures u.Plain? ==> Prepend(a, u).bytes == a + u.bytes
  {
  }

  /** What the unescaper consumed for its first byte is the escaped form of that byte, except for a
    * quote entity in text. */
  lemma UnescapedHead(t: seq<byte>, i: nat, attr: bool) returns (b: byte)
    requires i < |t| && UnescapedFrom(t, i, attr).Plain? && (attr || !EntityAt(t, i, QUOT))
    ensures var e := EscapedByte(b, attr);
            && i + |e| <= |t| && t[i..i + |e|] == e
            && UnescapedFrom(t, i + |e|, attr).Plain?
            && UnescapedFrom(t, i, attr).bytes == [b] + UnescapedFrom(t, i + |e|, attr).bytes
  {
    hide *;
    UnescapeStep(t, i, attr, []);
    PrependNothing(UnescapedFrom(t, i, attr));
    if t[i] == AMP {
      b := NamedAt(t, i);
      EntityEscapes(t, i, b, attr);
    } else {
      b := t[i];
      EscapedByteIs(b, attr);
      assert t[i..i + 1] == [b];
    }
    assert [] + [b] == [b];
    PrependIsPlain([b], UnescapedFrom(t, i + |EscapedByte(b, attr)|, attr));
  }

  /** A text that unescapes is the escaped form of what it unescapes to, unless it writes a quote as an
    * entity where that is not needed. */
  lemma {:induction false} EscapeUnescaped(t: seq<byte>, i: nat, attr: bool)
    requires i <= |t| && UnescapedFrom(t, i, attr).Plain?
    requires attr || forall k :: i <= k < |t| ==> !EntityAt(t, k, QUOT)
    ensures t[i..] == EscapedFrom(UnescapedFrom(t, i, attr).bytes, 0, attr)
    decreases |t| - i
  {
    hide *;
    if i == |t| {
      UnescapeEnd(t, i, attr, []);
      PrependNothing(UnescapedFrom(t, i, attr));
      EscapeEnd([], attr);
    } else {
      var b := UnescapedHead(t, i, attr);
      var e := EscapedByte(b, attr);
      EscapeUnescaped(t, i + |e|, attr);
      EscapedCons(b, UnescapedFrom(t, i + |e|, attr).bytes, attr);
      assert t[i..] == t[i..i + |e|] + t[i + |e|..];
    }
  }

  /** Escaped text has no quote entity. */
  lemma NoQuotEntity(s: seq<byte>, t: seq<byte>, k: nat)
    requires t == EscapedFrom(s, 0, false) && k < |t|
    ensures !EntityAt(t, k, QUOT)
  {
    if EntityAt(t, k, QUOT) {
      assert t[k] == t[k..k + |Entity(QUOT)|][0] == AMP;
      assert t[0..] == t;
      NoRawStops(s, 0, t, 0, false, k);
      var b :| MustEscape(b, false) && EntityAt(t, k, b);
      hide EntityAt, NamedAt;
      NamedUnique(t, k, b);
      NamedUnique(t, k, QUOT);
    }
  }

  /** The escaped texts are exactly those that unescape, in text mode without quote entities. */
  lemma EscapedIff(t: seq<byte>, s: seq<byte>, attr: bool)
    ensures t == EscapedFrom(s, 0, attr) <==>
            UnescapedFrom(t, 0, attr) == Plain(s) && (attr || forall k :: 0 <= k < |t| ==> !EntityAt(t, k, QUOT))
  {
    hide *;
    assert t[0..] == t && s[0..] == s;
    if t == EscapedFrom(s, 0, attr) {
      UnescapeEscaped(s, 0, t, 0, attr);
      if !attr {
        forall k | 0 <= k < |t|
          ensures !EntityAt(t, k, QUOT)
        {
          NoQuotEntity(s, t, k);
        }
      }
    }
    if UnescapedFrom(t, 0, attr) == Plain(s) && (attr || forall k :: 0 <= k < |t| ==> !EntityAt(t, k, QUOT)) {
      EscapeUnescaped(t, 0, attr);
    }
  }

  /** In text mode a quote entity unescapes but is not what the escapers write. */
  lemma QuotEntityInText()
    ensures var t := Entity(QUOT);
            UnescapedFrom(t, 0, false) == Plain([QUOT]) && EscapedFrom([QUOT], 0, false) == [QUOT] != t
  {
    var t := Entity(QUOT);
    assert t[0] == AMP && t[0..0 + |t|] == t;
    NamedUnique(t, 0, QUOT);
    hide NamedAt;
    assert UnescapedFrom(t, |t|, false) == Plain([]);
  }

  // ---- In characters ----

  /** The scanner classes in characters: those the escapers and the unescaper stop at. */
  lemma EscapeClassesInCharacters(b: byte)
    ensures TextEsc in Classes(b) <==> b as char in "<>&"
    ensures AttrEsc in Classes(b) <==> b as char in "\"&<>"
    ensures Gt in Classes(b) <==> b as char == '>'
    ensures DqOnly in Classes(b) <==> b as char == '"'
    ensures SqOnly in Classes(b) <==> b as char == '\''
  {
  }

  /** The others. */
  lemma OtherClassesInCharacters(b: byte)
    ensures Text in Classes(b) <==> b as char in "<&\0\r"
    ensures Dq in Classes(b) <==> b as char in "\"&"
    ensures Sq in Classes(b) <==> b as char in "'&"
    ensures Unq in Classes(b) <==> b as char in ">& \t\n\r" || b == 0x0C
  {
  }

  lemma TagNamesInCharacters(b: byte)
    ensures TagName in Classes(b) <==> b as char in "-_:.<" || 'a' <= b as char <= 'z'
                                       || 'A' <= b as char <= 'Z' || '0' <= b as char <= '9'
  {
  }

  /** What one byte becomes in text or, with the quote too, in an attribute value. */
  function EscapedForm(b: byte, attr: bool): seq<byte> {
    match b as char
    case '<' => Ascii("&lt;")
    case '>' => Ascii("&gt;")
    case '&' => Ascii("&amp;")
    case '"' => if attr then Ascii("&quot;") else [b]
    case _ => [b]
  }

  lemma EntitiesInCharacters()
    ensures Entity('<' as int) == Ascii("&lt;") && Entity('>' as int) == Ascii("&gt;")
    ensures Entity('&' as int) == Ascii("&amp;") && Entity('"' as int) == Ascii("&quot;")
    ensures [LT, GT, AMP, QUOT] == Ascii("<>&\"")
  {
  }

  lemma EscapedByteInCharacters(b: byte, attr: bool)
    ensures EscapedByte(b, attr) == EscapedForm(b, attr)
  {
    EntitiesInCharacters();
    hide Entity;
  }

  lemma {:induction false} EscapedParts(s: seq<byte>, i: nat, attr: bool)
    requires i <= |s|
    ensures EscapedFrom(s, i, attr) == Flatten(seq(|s|, k requires 0 <= k < |s| => EscapedForm(s[k], attr))[i..])
    decreases |s| - i
  {
    var parts := seq(|s|, k requires 0 <= k < |s| => EscapedForm(s[k], attr));
    hide EscapedForm, EscapedByte;
    if i < |s| {
      EscapedParts(s, i + 1, attr);
      EscapedByteInCharacters(s[i], attr);
      assert parts[i..][0] == parts[i] && parts[i..][1..] == parts[i + 1..];
    } else {
      assert parts[i..] == [];
    }
  }

  /** The escaped text is the escaped forms of the bytes, one after the other. */
  lemma EscapedInCharacters(s: seq<byte>, attr: bool)
    ensures EscapedFrom(s, 0, attr) == Flatten(seq(|s|, k requires 0 <= k < |s| => EscapedForm(s[k], attr)))
  {
    hide EscapedForm;
    EscapedParts(s, 0, attr);
    var parts := seq(|s|, k requires 0 <= k < |s| => EscapedForm(s[k], attr));
    assert parts[0..] == parts;
  }

  /** The escaped form of one of the four characters stands at i. */
  ghost predicate FormAt(t: seq<byte>, i: nat, b: byte) {
    var e := EscapedForm(b, true);
    b as char in "<>&\"" && i + |e| <= |t| && t[i..i + |e|] == e
  }

  lemma EntityForm(b: byte)
    ensures Entity(b) == (if b as char in "<>&\"" then EscapedForm(b, true) else [])
    ensures Entity(b) != [] <==> b as char in "<>&\""
  {
    EntitiesInCharacters();
  }

  lemma FormIsEntity(t: seq<byte>, i: nat, b: byte)
    ensures FormAt(t, i, b) <==> EntityAt(t, i, b)
    ensures FormAt(t, i, b) ==> EscapedForm(b, true) == Entity(b) && Entity(b) != []
  {
    EntityForm(b);
    hide Entity, EscapedForm;
  }

  lemma EntityStart(t: seq<byte>, i: nat, b: byte)
    requires EntityAt(t, i, b)
    ensures i < |t| && t[i] == AMP
  {
    assert t[i] == t[i..i + |Entity(b)|][0] == Entity(b)[0];
  }

  lemma UnescapedStart(t: seq<byte>, i: nat, attr: bool)
    requires i < |t|
    ensures var b := NamedAt(t, i);
            UnescapedFrom(t, i, attr) ==
            if t[i] == AMP && b >= 0 then Prepend([b], UnescapedFrom(t, i + |Entity(b)|, attr))
            else if t[i] == AMP || MustEscape(t[i], attr) then Stray
            else Prepend([t[i]], UnescapedFrom(t, i + 1, attr))
  {
    hide EntityAt, Entity, NamedAt, MustEscape, Prepend;
  }

  lemma StraysInCharacters(b: byte, attr: bool)
    ensures b == AMP || MustEscape(b, attr) <==> b as char in "<>&" || (attr && b as char == '"')
  {
  }

  /** How the unescaper reads on from i: an entity stands for its character, */
  lemma UnescapedEntity(t: seq<byte>, i: nat, attr: bool, b: byte)
    requires FormAt(t, i, b)
    ensures UnescapedFrom(t, i, attr) == Prepend([b], UnescapedFrom(t, i + |EscapedForm(b, true)|, attr))
  {
    hide *;
    FormIsEntity(t, i, b);
    EntityStart(t, i, b);
    NamedUnique(t, i, b);
    UnescapedStart(t, i, attr);
  }

  /** no other "&" and no other character of the mode's class may occur, and everything else stands
    * for itself. */
  lemma UnescapedOther(t: seq<byte>, i: nat, attr: bool)
    requires i < |t| && forall b: byte :: !FormAt(t, i, b)
    ensures UnescapedFrom(t, i, attr) ==
            if t[i] as char in "<>&" || (attr && t[i] as char == '"') then Stray
            else Prepend([t[i]], UnescapedFrom(t, i + 1, attr))
  {
    hide *;
    UnescapedStart(t, i, attr);
    StraysInCharacters(t[i], attr);
    if NamedAt(t, i) >= 0 {
      FormIsEntity(t, i, NamedAt(t, i));
      assert false;
    }
  }

  // ---- The driver ----

  /** Escapes both ways, compares, unescapes and compares with the input: 0 when all agree, else the
    * number of the failed check. No input makes it fail. */
  method CheckEscape(attr: bool, buf: seq<byte>) returns (rc: int)
    ensures rc == 0
  {
    hide *;
    var got := EscapeChunked(buf, attr);
    var want := EscapeBytewise(buf, attr);
    if got != want {
      return 1;
    }
    var back := Unescape(got, attr);
    assert got[0..] == got;
    UnescapeEscaped(buf, 0, got, 0, attr);
    assert buf[0..] == buf;
    if back == Stray {
      return 2;
    }
    if back.bytes != buf {
      return 3;
    }
    return 0;
  }
}
