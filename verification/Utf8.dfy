/** Strict UTF-8 (RFC 3629 sections 3 and 4): the generic encoder, the two independently written
  * validators, and the proof that both accept exactly the concatenations of encoded scalar values.
  */
module Utf8 {
  import opened Bytes

  /** Unicode scalar values: every code point up to U+10FFFF except the surrogates. */
  predicate IsScalar(cp: int) {
    0 <= cp <= 0x10FFFF && !(0xD800 <= cp <= 0xDFFF)
  }

  /** `(b & 0xC0) == 0x80`. */
  predicate IsContinuation(b: byte) {
    b / 64 == 2
  }

  /** The generic UTF-8 bit layout of any 21-bit value. */
  function Encoded(cp: nat): (s: seq<byte>)
    requires cp < 0x20_0000
    ensures 1 <= |s| <= 4
  {
    if cp < 0x80 then [cp]
    else if cp < 0x800 then [0xC0 + cp / 64, 0x80 + cp % 64]
    else if cp < 0x1_0000 then [0xE0 + cp / 4096, 0x80 + cp / 64 % 64, 0x80 + cp % 64]
    else [0xF0 + cp / 262144, 0x80 + cp / 4096 % 64, 0x80 + cp / 64 % 64, 0x80 + cp % 64]
  }

  ghost predicate AllScalar(cps: seq<nat>) {
    forall i :: 0 <= i < |cps| ==> IsScalar(cps[i])
  }

  function EncodedAll(cps: seq<nat>): (s: seq<byte>)
    requires AllScalar(cps)
  {
    if cps == [] then [] else Encoded(cps[0]) + EncodedAll(cps[1..])
  }

  /** A byte string is well-formed UTF-8 when it encodes some list of scalar values. */
  ghost predicate WellFormed(s: seq<byte>) {
    exists cps: seq<nat> :: AllScalar(cps) && EncodedAll(cps) == s
  }

  // ---- Reading one code point off the front of a byte string ----

  /** Sequence length announced by a lead byte, 0 for a byte that cannot lead. */
  function LeadLength(b: byte): (n: nat)
    ensures n <= 4
  {
    if b < 0x80 then 1 else if b / 32 == 6 then 2 else if b / 16 == 14 then 3 else if b / 8 == 30 then 4 else 0
  }

  /** Smallest code point that needs a sequence of n bytes. */
  function MinFor(n: nat): nat {
    if n <= 1 then 0 else if n == 2 then 0x80 else if n == 3 then 0x800 else 0x1_0000
  }

  /** t starts with a lead byte followed by all the continuation bytes it announces. */
  predicate HasShape(t: seq<byte>) {
    t != [] && 0 < LeadLength(t[0]) <= |t| && forall k :: 1 <= k < LeadLength(t[0]) ==> IsContinuation(t[k])
  }

  /** `(c << 6) | (b & 0x3F)`. */
  function Append6(c: nat, b: byte): (r: nat)
    ensures r / 64 == c && r % 64 == b % 64
  {
    c * 64 + b % 64
  }

  /** The payload bits of the sequence at the front of t, whatever their value. */
  function HeadBits(t: seq<byte>): (cp: nat)
    requires t != [] && 0 < LeadLength(t[0]) <= |t|
    ensures cp < 0x20_0000
  {
    var n, b: int := LeadLength(t[0]), t[0];
    if n == 1 then b
    else if n == 2 then Append6(b % 32, t[1])
    else if n == 3 then Append6(Append6(b % 16, t[1]), t[2])
    else Append6(Append6(Append6(b % 8, t[1]), t[2]), t[3])
  }

  /** t starts with the shortest encoding of a scalar value. */
  predicate HasScalarHead(t: seq<byte>) {
    HasShape(t) && MinFor(LeadLength(t[0])) <= HeadBits(t) && IsScalar(HeadBits(t))
  }

  lemma SplitSixes(c: nat, x: byte, y: byte)
    ensures var r := Append6(Append6(c, x), y);
            r / 4096 == c && r / 64 % 64 == x % 64 && r % 64 == y % 64
  {
  }

  lemma SplitDeepSix(c: nat, x: byte, y: byte, z: byte)
    ensures var r := Append6(Append6(Append6(c, x), y), z);
            r / 262144 == c && r / 4096 % 64 == x % 64
  {
    var head := Append6(c, x);
    SplitSixes(head, y, z);
    var r := Append6(Append6(head, y), z);
    hide Append6;
    assert r / 4096 / 64 == r / 262144;
  }

  lemma HeadIsEncoded3(t: seq<byte>)
    requires HasScalarHead(t) && LeadLength(t[0]) == 3
    ensures Encoded(HeadBits(t)) == t[..3]
  {
    assert IsContinuation(t[1]) && IsContinuation(t[2]);
    SplitSixes(t[0] % 16, t[1], t[2]);
    hide Append6;
  }

  lemma HeadIsEncoded4(t: seq<byte>)
    requires HasScalarHead(t) && LeadLength(t[0]) == 4
    ensures Encoded(HeadBits(t)) == t[..4]
  {
    assert IsContinuation(t[1]) && IsContinuation(t[2]) && IsContinuation(t[3]);
    SplitSixes(Append6(t[0] % 8, t[1]), t[2], t[3]);
    SplitDeepSix(t[0] % 8, t[1], t[2], t[3]);
    hide Append6;
  }

  lemma HeadIsEncoded(t: seq<byte>)
    requires HasScalarHead(t)
    ensures Encoded(HeadBits(t)) == t[..LeadLength(t[0])]
  {
    var n := LeadLength(t[0]);
    if n == 2 {
      assert IsContinuation(t[1]);
    } else if n == 3 {
      HeadIsEncoded3(t);
    } else if n == 4 {
      HeadIsEncoded4(t);
    }
  }

  lemma EncodedIsHead2(cp: nat, t: seq<byte>)
    requires 0x80 <= cp < 0x800 && Encoded(cp) <= t
    ensures HasShape(t) && HeadBits(t) == cp && LeadLength(t[0]) == 2
  {
  }

  lemma LastSix(cp: nat)
    ensures cp == Append6(cp / 64, 0x80 + cp % 64)
  {
  }

  lemma Reassemble3(cp: nat)
    requires cp < 0x1_0000
    ensures cp == Append6(Append6(cp / 4096, 0x80 + cp / 64 % 64), 0x80 + cp % 64)
  {
    hide Append6;
    LastSix(cp);
    LastSix(cp / 64);
    assert cp / 64 / 64 == cp / 4096;
  }

  lemma EncodedIsHead3(cp: nat, t: seq<byte>)
    requires 0x800 <= cp < 0x1_0000 && Encoded(cp) <= t
    ensures HasShape(t) && HeadBits(t) == cp && LeadLength(t[0]) == 3
  {
    var e := Encoded(cp);
    assert t[0] == e[0] && t[1] == e[1] && t[2] == e[2];
    Reassemble3(cp);
  }

  lemma Reassemble4(cp: nat)
    requires cp < 0x20_0000
    ensures cp == Append6(Append6(Append6(cp / 262144, 0x80 + cp / 4096 % 64), 0x80 + cp / 64 % 64), 0x80 + cp % 64)
  {
    hide Append6;
    LastSix(cp);
    LastSix(cp / 64);
    LastSix(cp / 4096);
    assert cp / 64 / 64 == cp / 4096 && cp / 4096 / 64 == cp / 262144;
  }

  lemma EncodedIsHead4(cp: nat, t: seq<byte>)
    requires 0x1_0000 <= cp < 0x20_0000 && Encoded(cp) <= t
    ensures HasShape(t) && HeadBits(t) == cp && LeadLength(t[0]) == 4
  {
    var e := Encoded(cp);
    assert t[0] == e[0] && t[1] == e[1] && t[2] == e[2] && t[3] == e[3];
    Reassemble4(cp);
  }

  lemma EncodedIsHead(cp: nat, t: seq<byte>)
    requires IsScalar(cp) && Encoded(cp) <= t
    ensures HasScalarHead(t) && HeadBits(t) == cp && LeadLength(t[0]) == |Encoded(cp)|
  {
    if cp < 0x80 {
      assert t[0] == Encoded(cp)[0];
    } else if cp < 0x800 {
      EncodedIsHead2(cp, t);
    } else if cp < 0x1_0000 {
      EncodedIsHead3(cp, t);
    } else {
      EncodedIsHead4(cp, t);
    }
  }

  /** Peeling one encoded scalar value off the front does not change well-formedness. */
  lemma WellFormedStep(cp: nat, t: seq<byte>)
    requires IsScalar(cp) && Encoded(cp) <= t
    ensures WellFormed(t) <==> WellFormed(t[|Encoded(cp)|..])
  {
    var e := Encoded(cp);
    var rest := t[|e|..];
    assert t == e + rest;
    if WellFormed(rest) {
      var cps: seq<nat> :| AllScalar(cps) && EncodedAll(cps) == rest;
      var all := [cp] + cps;
      assert all[1..] == cps;
      assert AllScalar(all) && EncodedAll(all) == t;
    }
    if WellFormed(t) {
      var cps: seq<nat> :| AllScalar(cps) && EncodedAll(cps) == t;
      assert Encoded(cps[0]) <= t;
      EncodedIsHead(cps[0], t);
      EncodedIsHead(cp, t);
      assert AllScalar(cps[1..]) && EncodedAll(cps[1..]) == rest;
    }
  }

  lemma WellFormedEmpty()
    ensures WellFormed([])
  {
    assert AllScalar([]) && EncodedAll([]) == [];
  }

  /** What one iteration of a validator may conclude. */
  lemma WellFormedHead(t: seq<byte>)
    requires t != []
    ensures HasScalarHead(t) ==> (WellFormed(t) <==> WellFormed(t[LeadLength(t[0])..]))
    ensures !HasScalarHead(t) ==> !WellFormed(t)
  {
    if HasScalarHead(t) {
      HeadIsEncoded(t);
      WellFormedStep(HeadBits(t), t);
    } else if WellFormed(t) {
      var cps: seq<nat> :| AllScalar(cps) && EncodedAll(cps) == t;
      EncodedIsHead(cps[0], t);
    }
  }

  lemma EncodedHeadBits(cp: nat)
    requires cp < 0x20_0000
    ensures HasShape(Encoded(cp)) && HeadBits(Encoded(cp)) == cp
  {
    if 0x80 <= cp < 0x800 {
      EncodedIsHead2(cp, Encoded(cp));
    } else if 0x800 <= cp < 0x1_0000 {
      EncodedIsHead3(cp, Encoded(cp));
    } else if cp >= 0x1_0000 {
      EncodedIsHead4(cp, Encoded(cp));
    }
  }

  /** Among all 21-bit values the encoder produces valid UTF-8 exactly for the scalar values. */
  lemma EncodedWellFormedIff(cp: nat)
    requires cp < 0x20_0000
    ensures WellFormed(Encoded(cp)) <==> cp <= 0xD7FF || 0xE000 <= cp <= 0x10FFFF
  {
    var e := Encoded(cp);
    if IsScalar(cp) {
      WellFormedStep(cp, e);
      assert e[|e|..] == [];
      WellFormedEmpty();
    } else {
      EncodedHeadBits(cp);
      WellFormedHead(e);
    }
  }

  /** The decomposition into scalar values is unique. */
  lemma {:induction false} DecompositionUnique(cps: seq<nat>, cps': seq<nat>)
    requires AllScalar(cps) && AllScalar(cps') && EncodedAll(cps) == EncodedAll(cps')
    ensures cps == cps'
  {
    if cps != [] && cps' != [] {
      var s := EncodedAll(cps);
      EncodedIsHead(cps[0], s);
      EncodedIsHead(cps'[0], s);
      assert EncodedAll(cps[1..]) == s[|Encoded(cps[0])|..] == EncodedAll(cps'[1..]);
      DecompositionUnique(cps[1..], cps'[1..]);
    }
  }

  // ---- The encoder ----

  method Encode(cp: nat, o: array<byte>) returns (n: nat)
    requires cp < 0x20_0000 && |Encoded(cp)| <= o.Length
    modifies o
    ensures n == |Encoded(cp)| && o[..n] == Encoded(cp)
    ensures o[n..] == old(o[n..])
  {
    if cp < 0x80 {
      o[0] := cp;
      return 1;
    }
    if cp < 0x800 {
      o[0] := 0xC0 + cp / 64;
      o[1] := 0x80 + cp % 64;
      return 2;
    }
    if cp < 0x1_0000 {
      o[0] := 0xE0 + cp / 4096;
      o[1] := 0x80 + cp / 64 % 64;
      o[2] := 0x80 + cp % 64;
      return 3;
    }
    o[0] := 0xF0 + cp / 262144;
    o[1] := 0x80 + cp / 4096 % 64;
    o[2] := 0x80 + cp / 64 % 64;
    o[3] := 0x80 + cp % 64;
    return 4;
  }

  // ---- The two validators ----

  /** One iteration: what the code point at index i says about the text from i on. */
  lemma WellFormedAt(s: seq<byte>, i: nat)
    requires i < |s|
    ensures HasScalarHead(s[i..]) ==> i + LeadLength(s[i]) <= |s|
                                      && (WellFormed(s[i..]) <==> WellFormed(s[i + LeadLength(s[i])..]))
    ensures !HasScalarHead(s[i..]) ==> !WellFormed(s[i..])
  {
    var t, n := s[i..], LeadLength(s[i]);
    WellFormedHead(t);
    if HasScalarHead(t) {
      assert t[n..] == s[i + n..];
    }
  }

  /** The n - 1 bytes after index i are continuation bytes. */
  predicate TailShape(s: seq<byte>, i: nat, n: nat)
    requires i + n <= |s|
  {
    forall j :: i < j < i + n ==> IsContinuation(s[j])
  }

  /** The accumulator after folding in the n - 1 bytes that follow index i. */
  function TailBits(s: seq<byte>, i: nat, n: nat, lead: nat): (c: nat)
    requires 1 <= n && i + n <= |s|
  {
    if n == 1 then lead else Append6(TailBits(s, i, n - 1, lead), s[i + n - 1])
  }

  lemma HeadAt(s: seq<byte>, i: nat, n: nat, lead: nat)
    requires i < |s| && n == LeadLength(s[i]) && 2 <= n && i + n <= |s|
    requires lead == if n == 2 then s[i] % 32 else if n == 3 then s[i] % 16 else s[i] % 8
    ensures HasScalarHead(s[i..]) <==>
            TailShape(s, i, n) && MinFor(n) <= TailBits(s, i, n, lead) && IsScalar(TailBits(s, i, n, lead))
    ensures TailBits(s, i, n, lead) < 0x20_0000
  {
    var t := s[i..];
    assert forall k :: 0 <= k < n ==> t[k] == s[i + k];
    assert TailShape(s, i, n) ==> HasShape(t);
    if HasShape(t) {
      forall j | i < j < i + n
        ensures IsContinuation(s[j])
      {
        assert IsContinuation(t[j - i]);
      }
    }
    assert TailBits(s, i, 2, lead) == Append6(lead, s[i + 1]);
    if n >= 3 {
      assert TailBits(s, i, 3, lead) == Append6(TailBits(s, i, 2, lead), s[i + 2]);
    }
    assert HeadBits(t) == TailBits(s, i, n, lead);
  }

  lemma TailBitsBound(s: seq<byte>, i: nat, n: nat, lead: nat)
    requires 1 <= n <= 4 && i + n <= |s| && lead < 32
    ensures TailBits(s, i, n, lead) < 0x80_0000
  {
    if n >= 2 { assert TailBits(s, i, 2, lead) < 0x800; }
    if n >= 3 { assert TailBits(s, i, 3, lead) < 0x2_0000; }
  }

  /** Folds the continuation bytes announced by the lead byte at index i into the accumulator. */
  method DecodeTail(s: seq<byte>, i: nat, len: nat, lead: uint32) returns (ok: bool, c: uint32)
    requires 2 <= len <= 4 && i + len <= |s| && lead < 32
    ensures ok <==> TailShape(s, i, len)
    ensures ok ==> c == TailBits(s, i, len, lead)
  {
    c := lead;
    var k := 1;
    while k < len
      invariant 1 <= k <= len
      invariant TailShape(s, i, k)
      invariant c == TailBits(s, i, k, lead)
    {
      if s[i + k] / 64 != 2 {
        return false, c;
      }
      TailBitsBound(s, i, k + 1, lead);
      c := Append6(c, s[i + k]);
      k := k + 1;
    }
    return true, c;
  }

  /** Decodes each code point into a 32-bit accumulator and then checks its range. */
  method ValidByDecoding(s: seq<byte>) returns (ok: bool)
    ensures ok <==> WellFormed(s)
  {
    var n := |s|;
    var i := 0;
    assert s[0..] == s;
    while i < n
      invariant 0 <= i <= n
      invariant WellFormed(s) <==> WellFormed(s[i..])
    {
      WellFormedAt(s, i);
      var c: uint32 := s[i];
      var len, min;
      if c < 0x80 {
        i := i + 1;
        continue;
      } else if c / 32 == 6 {
        len, c, min := 2, c % 32, 0x80;
      } else if c / 16 == 14 {
        len, c, min := 3, c % 16, 0x800;
      } else if c / 8 == 30 {
        len, c, min := 4, c % 8, 0x1_0000;
      } else {
        return false;
      }
      if n - i < len {
        return false;
      }
      HeadAt(s, i, len, c);
      var tail;
      tail, c := DecodeTail(s, i, len, c);
      if !tail {
        return false;
      }
      if c < min || c > 0x10FFFF || (c >= 0xD800 && c <= 0xDFFF) {
        return false;
      }
      i := i + len;
    }
    assert s[i..] == [];
    WellFormedEmpty();
    return true;
  }

  /** Unicode table 3-7: sequence length and range of the second byte for each lead byte. */
  function TableRow(lead: byte): (nat, byte, byte) {
    if 0xC2 <= lead <= 0xDF then (2, 0x80, 0xBF)
    else if lead == 0xE0 then (3, 0xA0, 0xBF)
    else if 0xE1 <= lead <= 0xEC || 0xEE <= lead <= 0xEF then (3, 0x80, 0xBF)
    else if lead == 0xED then (3, 0x80, 0x9F)
    else if lead == 0xF0 then (4, 0x90, 0xBF)
    else if 0xF1 <= lead <= 0xF3 then (4, 0x80, 0xBF)
    else if lead == 0xF4 then (4, 0x80, 0x8F)
    else (0, 0, 0)
  }

  /** Among sequences of the right shape the second byte tells whether the value is in range. */
  lemma SecondByte(t: seq<byte>, n: nat, lo: byte, hi: byte)
    requires t != [] && 2 <= n == LeadLength(t[0]) <= |t| && IsContinuation(t[1])
    requires (n, lo, hi) == TableRow(t[0])
    ensures MinFor(n) <= HeadBits(t) && IsScalar(HeadBits(t)) <==> lo <= t[1] <= hi
  {
  }

  /** The byte ranges of Unicode table 3-7 pick out exactly the shortest encodings of scalar values. */
  lemma TableRows(t: seq<byte>, n: nat, lo: byte, hi: byte)
    requires t != [] && 2 <= n <= |t|
    requires (n, lo, hi) == TableRow(t[0])
    ensures n == LeadLength(t[0])
    ensures HasScalarHead(t) <==> lo <= t[1] <= hi && forall k :: 2 <= k < n ==> 0x80 <= t[k] <= 0xBF
  {
    assert HasShape(t) <==> forall k :: 1 <= k < n ==> IsContinuation(t[k]);
    if HasShape(t) {
      assert IsContinuation(t[1]);
      SecondByte(t, n, lo, hi);
      hide HeadBits, HasShape;
      assert forall k :: 2 <= k < n ==> IsContinuation(t[k]);
    }
  }

  /** Lead bytes outside the table, and one-byte code points. */
  lemma LeadRows(t: seq<byte>)
    requires t != []
    ensures t[0] <= 0x7F ==> HasScalarHead(t) && LeadLength(t[0]) == 1
    ensures 0x7F < t[0] < 0xC2 || t[0] > 0xF4 ==> !HasScalarHead(t)
    ensures |t| < LeadLength(t[0]) ==> !HasScalarHead(t)
    ensures 0xC2 <= t[0] <= 0xDF ==> LeadLength(t[0]) == 2
    ensures 0xE0 <= t[0] <= 0xEF ==> LeadLength(t[0]) == 3
    ensures 0xF0 <= t[0] <= 0xF4 ==> LeadLength(t[0]) == 4
  {
  }

  /** Compares bytes with the ranges of Unicode table 3-7, without decoding. */
  method ValidByRanges(s: seq<byte>) returns (ok: bool)
    ensures ok <==> WellFormed(s)
  {
    hide WellFormed, HasScalarHead, LeadLength;
    var len := |s|;
    var i := 0;
    assert s[0..] == s;
    while i < len
      invariant 0 <= i <= len
      invariant WellFormed(s) <==> WellFormed(s[i..])
    {
      ghost var t := s[i..];
      WellFormedAt(s, i);
      LeadRows(t);
      var a := s[i];
      var n;
      var lo: byte, hi: byte := 0x80, 0xBF;
      if a <= 0x7F {
        i := i + 1;
        continue;
      } else if a >= 0xC2 && a <= 0xDF {
        n := 2;
      } else if a == 0xE0 {
        n, lo := 3, 0xA0;
      } else if a >= 0xE1 && a <= 0xEC {
        n := 3;
      } else if a == 0xED {
        n, hi := 3, 0x9F;
      } else if a >= 0xEE && a <= 0xEF {
        n := 3;
      } else if a == 0xF0 {
        n, lo := 4, 0x90;
      } else if a >= 0xF1 && a <= 0xF3 {
        n := 4;
      } else if a == 0xF4 {
        n, hi := 4, 0x8F;
      } else {
        return false;
      }
      if len - i < n {
        return false;
      }
      TableRows(t, n, lo, hi);
      assert t[1] == s[i + 1];
      if s[i + 1] < lo || s[i + 1] > hi {
        return false;
      }
      var k := 2;
      while k < n
        invariant 2 <= k <= n
        invariant forall j :: 2 <= j < k ==> 0x80 <= t[j] <= 0xBF
      {
        assert t[k] == s[i + k];
        if s[i + k] < 0x80 || s[i + k] > 0xBF {
          return false;
        }
        k := k + 1;
      }
      i := i + n;
    }
    assert s[i..] == [];
    WellFormedEmpty();
    return true;
  }

  // ---- Cutting well-formed text ----

  /** Appending bytes does not change the code point at the front. */
  lemma HeadOfConcat(a: seq<byte>, b: seq<byte>)
    requires HasScalarHead(a)
    ensures var n := LeadLength(a[0]);
            && (a + b)[n..] == a[n..] + b
            && (WellFormed(a) <==> WellFormed(a[n..]))
            && (WellFormed(a + b) <==> WellFormed(a[n..] + b))
  {
    var n := LeadLength(a[0]);
    HeadIsEncoded(a);
    assert (a + b)[n..] == a[n..] + b;
    assert Encoded(HeadBits(a)) <= a + b;
    WellFormedStep(HeadBits(a), a);
    WellFormedStep(HeadBits(a), a + b);
  }

  lemma {:induction false} WellFormedConcat(a: seq<byte>, b: seq<byte>)
    requires WellFormed(a) && WellFormed(b)
    ensures WellFormed(a + b)
    decreases |a|
  {
    if a == [] {
      assert a + b == b;
    } else {
      WellFormedHead(a);
      HeadOfConcat(a, b);
      WellFormedConcat(a[LeadLength(a[0])..], b);
    }
  }

  /** A well-formed prefix can be cancelled. */
  lemma {:induction false} WellFormedCancel(a: seq<byte>, b: seq<byte>)
    requires WellFormed(a) && WellFormed(a + b)
    ensures WellFormed(b)
    decreases |a|
  {
    if a == [] {
      assert a + b == b;
    } else {
      WellFormedHead(a);
      HeadOfConcat(a, b);
      WellFormedCancel(a[LeadLength(a[0])..], b);
    }
  }

  lemma HeadOfShorter(a: seq<byte>, b: seq<byte>)
    requires a != [] && HasScalarHead(a + b) && LeadLength(a[0]) <= |a|
    ensures HasScalarHead(a)
  {
    var s := a + b;
    assert forall k :: 0 <= k < |a| ==> a[k] == s[k];
    assert HeadBits(a) == HeadBits(s);
  }

  lemma StartsCodePoint(s: seq<byte>)
    requires WellFormed(s)
    ensures s != [] ==> !IsContinuation(s[0])
  {
  }

  /** Well-formed text may be cut into two well-formed parts exactly at its two ends and in front
    * of the bytes that are not continuation bytes: those are the code point starts. */
  lemma {:induction false} CutPoints(a: seq<byte>, b: seq<byte>)
    requires WellFormed(a + b)
    ensures (a == [] || b == [] || !IsContinuation(b[0])) <==> WellFormed(a) && WellFormed(b)
    decreases |a|
  {
    WellFormedEmpty();
    if a == [] {
      assert a + b == b;
    } else if b == [] {
      assert a + b == a;
    } else {
      var s := a + b;
      WellFormedHead(s);
      var n := LeadLength(s[0]);
      if |a| < n {
        assert IsContinuation(s[|a|]);
        WellFormedHead(b);
      } else {
        HeadOfShorter(a, b);
        HeadOfConcat(a, b);
        CutPoints(a[n..], b);
        if WellFormed(b) {
          StartsCodePoint(b);
        }
      }
    }
  }

  // ---- The layout in numbers ----

  /** The number of bytes is the least whose payload bits hold the code point, */
  lemma EncodedLength(cp: nat)
    requires cp < 0x20_0000
    ensures |Encoded(cp)| == if cp <= 0x7F then 1 else if cp <= 0x7FF then 2 else if cp <= 0xFFFF then 3 else 4
  {
  }

  lemma Sixes(cp: nat)
    ensures cp == cp / 64 * 0x40 + cp % 64
    ensures cp == cp / 4096 * 0x1000 + cp / 64 % 64 * 0x40 + cp % 64
  {
    assert cp / 4096 == cp / 64 / 64;
  }

  lemma DeepSixes(cp: nat)
    ensures cp == cp / 262144 * 0x4_0000 + cp / 4096 % 64 * 0x1000 + cp / 64 % 64 * 0x40 + cp % 64
  {
    Sixes(cp);
    assert cp / 4096 == cp / 262144 * 64 + cp / 4096 % 64;
  }

  /** and the code point is their payload bits, most significant first. */
  lemma EncodedPayload(cp: nat)
    requires cp < 0x20_0000
    ensures var s: seq<int> := Encoded(cp);
            cp == if |s| == 1 then s[0]
                  else if |s| == 2 then (s[0] - 0xC0) * 0x40 + (s[1] - 0x80)
                  else if |s| == 3 then (s[0] - 0xE0) * 0x1000 + (s[1] - 0x80) * 0x40 + (s[2] - 0x80)
                  else (s[0] - 0xF0) * 0x4_0000 + (s[1] - 0x80) * 0x1000 + (s[2] - 0x80) * 0x40 + (s[3] - 0x80)
    ensures var s := Encoded(cp); forall k :: 1 <= k < |s| ==> 0x80 <= s[k] <= 0xBF
  {
    Sixes(cp);
    DeepSixes(cp);
  }

  lemma ContinuationRange(b: byte)
    ensures IsContinuation(b) <==> 0x80 <= b <= 0xBF
  {
  }
}
