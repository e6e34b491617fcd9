/** HTTP/1.1 header blocks (RFC 9112 section 5): the scanner-driven parser and the byte-at-a-time
  * parser, each optionally lowercasing field names in place while it goes.
  */
module Http1Headers {
  import opened Bytes
  import opened Http1Bytes

  const MAX_FIELDS: nat := 256

  datatype Status = Ok | BadName | BadValue

  /** Name [ns, ne) and value [vs, ve), optional whitespace trimmed on both sides. */
  datatype Field = Field(ns: nat, ne: nat, vs: nat, ve: nat)

  /** Parser output: the status, the number of fields, and the first 256 of them. */
  class Fields {
    var status: Status
    var nfields: nat
    const f: array<Field>

    constructor ()
      ensures f.Length == MAX_FIELDS && fresh(f)
    {
      status, nfields := Ok, 0;
      f := new Field[MAX_FIELDS](_ => Field(0, 0, 0, 0));
    }

    /** The object holds this status and this field list. */
    ghost predicate Holds(st: Status, fields: seq<Field>)
      reads this, f
    {
      && status == st && nfields == |fields|
      && f.Length == 256
      && forall k :: 0 <= k < |fields| && k < 256 ==> f[k] == fields[k]
    }

    method Clear()
      requires f.Length == MAX_FIELDS
      modifies this
      ensures Holds(Ok, [])
    {
      status, nfields := Ok, 0;
    }

    method Add(field: Field, ghost before: seq<Field>)
      requires Holds(Ok, before)
      modifies this, f
      ensures Holds(Ok, before + [field])
    {
      if nfields < MAX_FIELDS {
        f[nfields] := field;
      }
      nfields := nfields + 1;
    }

    method Fail(st: Status, ghost before: seq<Field>)
      requires Holds(Ok, before)
      modifies this
      ensures Holds(st, before)
    {
      status := st;
    }
  }

  // ---- What one line means ----

  datatype LineParse = Parsed(field: Field, next: nat) | Rejected(status: Status)

  /** End of the value [vs, ve) once trailing whitespace is dropped. */
  function TrimEnd(s: seq<byte>, vs: nat, ve: nat): (r: nat)
    requires vs <= ve <= |s|
    ensures vs <= r <= ve
    ensures forall k :: r <= k < ve ==> IsOws(s[k])
    ensures r > vs ==> !IsOws(s[r - 1])
    decreases ve
  {
    if ve > vs && IsOws(s[ve - 1]) then TrimEnd(s, vs, ve - 1) else ve
  }

  predicate CrlfAt(s: seq<byte>, k: nat) {
    k + 1 < |s| && s[k] == CR && s[k + 1] == LF
  }

  /** The line that starts at off, taken apart from the left. */
  function ParseLine(s: seq<byte>, off: nat): (r: LineParse)
    requires off < |s|
    ensures r.Parsed? ==> r.field.ns == off && r.field.ne == FindFrom(ScanNonToken, s, off)
                          && off < r.field.ne < r.next <= |s|
    ensures r.Rejected? ==> r.status != Ok
  {
    var ne := FindFrom(ScanNonToken, s, off);
    if ne == off || ne >= |s| || s[ne] != COLON then Rejected(BadName)
    else
      var vs := FindFrom(ScanNonOws, s, ne + 1);
      var end := FindFrom(ScanNonFieldValue, s, vs);
      if end < |s| && !CrlfAt(s, end) then Rejected(BadValue)
      else Parsed(Field(off, ne, vs, TrimEnd(s, vs, end)), if end < |s| then end + 2 else |s|)
  }

  /** The same, refusing a folded line first. */
  function ParseFieldLine(s: seq<byte>, off: nat): (r: LineParse)
    requires off < |s|
    ensures r.Parsed? ==> off < r.next <= |s|
    ensures r.Rejected? ==> r.status != Ok
  {
    if IsOws(s[off]) then Rejected(BadValue) else ParseLine(s, off)
  }

  lemma FieldLineIs(s: seq<byte>, off: nat)
    requires off < |s|
    ensures ParseFieldLine(s, off) == if IsOws(s[off]) then Rejected(BadValue) else ParseLine(s, off)
  {
  }

  // ---- What a block means ----

  /** Fields read before the end of the block or the first bad line, and how the block ended. */
  function BlockFields(s: seq<byte>, off: nat): seq<Field>
    decreases |s| - off
  {
    if off >= |s| then [] else
      match ParseFieldLine(s, off)
      case Rejected(_) => []
      case Parsed(field, next) => [field] + BlockFields(s, next)
  }

  function BlockStatus(s: seq<byte>, off: nat): Status
    decreases |s| - off
  {
    if off >= |s| then Ok else
      match ParseFieldLine(s, off)
      case Rejected(status) => status
      case Parsed(_, next) => BlockStatus(s, next)
  }

  /** The bytes from off on after every name the parser reaches has been lowercased, the token at
    * the start of the first bad line included. */
  function LoweredFrom(s: seq<byte>, off: nat): (t: seq<byte>)
    requires off <= |s|
    ensures |t| == |s| - off
    decreases |s| - off
  {
    if off >= |s| then [] else
    if IsOws(s[off]) then s[off..] else
      var ne := FindFrom(ScanNonToken, s, off);
      LowerAll(s[off..ne]) +
      match ParseFieldLine(s, off)
      case Rejected(_) => s[ne..]
      case Parsed(field, next) => s[ne..next] + LoweredFrom(s, next)
  }

  /** The whole buffer after a parse in the given mode. */
  function FinalBytes(s: seq<byte>, lower: bool): (t: seq<byte>)
    ensures |t| == |s|
  {
    if lower then LoweredFrom(s, 0) else s
  }

  // The three ways a line can come out, for parsers that find the pieces themselves.

  lemma LineBadName(s: seq<byte>, off: nat, ne: nat)
    requires off < |s| && ne == FindFrom(ScanNonToken, s, off)
    requires ne == off || ne == |s| || s[ne] != COLON
    ensures ParseLine(s, off) == Rejected(BadName)
  {
  }

  lemma LineBadValue(s: seq<byte>, off: nat, ne: nat, vs: nat, end: nat)
    requires off < |s| && ne == FindFrom(ScanNonToken, s, off) && ne != off && ne < |s| && s[ne] == COLON
    requires vs == FindFrom(ScanNonOws, s, ne + 1) && end == FindFrom(ScanNonFieldValue, s, vs)
    requires end < |s| && !CrlfAt(s, end)
    ensures ParseLine(s, off) == Rejected(BadValue)
  {
    hide FindFrom, Stops;
  }

  lemma LineGood(s: seq<byte>, off: nat, ne: nat, vs: nat, end: nat)
    requires off < |s| && ne == FindFrom(ScanNonToken, s, off) && ne != off && ne < |s| && s[ne] == COLON
    requires vs == FindFrom(ScanNonOws, s, ne + 1) && end == FindFrom(ScanNonFieldValue, s, vs)
    requires end == |s| || CrlfAt(s, end)
    ensures ParseLine(s, off) == Parsed(Field(off, ne, vs, TrimEnd(s, vs, end)), if end < |s| then end + 2 else |s|)
  {
    hide FindFrom, Stops;
  }

  /** Lowercasing the token at the start of a line leaves the token boundary where it was. */
  lemma TokenLowered(s: seq<byte>, t: seq<byte>, off: nat)
    requires off <= |s| == |t|
    requires var ne := FindFrom(ScanNonToken, s, off);
             t[off..ne] == LowerAll(s[off..ne]) && forall k :: ne <= k < |s| ==> t[k] == s[k]
    ensures FindFrom(ScanNonToken, t, off) == FindFrom(ScanNonToken, s, off)
  {
    hide FindFrom, IsTchar, LowerAll;
    var ne := FindFrom(ScanNonToken, s, off);
    forall k | off <= k < ne
      ensures !Stops(ScanNonToken, t[k])
    {
      assert t[k] == t[off..ne][k - off] == Lower(s[k]);
      assert !Stops(ScanNonToken, s[k]);
      LowerKeepsTokens(s[k]);
    }
    FindIs(ScanNonToken, t, off, ne);
  }

  lemma TrimEndSame(s: seq<byte>, t: seq<byte>, vs: nat, ve: nat)
    requires vs <= ve <= |s| == |t| && forall k :: vs <= k < ve ==> s[k] == t[k]
    ensures TrimEnd(s, vs, ve) == TrimEnd(t, vs, ve)
  {
  }

  lemma RestOfLine(s: seq<byte>, t: seq<byte>, n: nat)
    requires n <= |s| == |t| && forall k :: n <= k < |s| ==> s[k] == t[k]
    ensures var vs := FindFrom(ScanNonOws, s, n);
            var end := FindFrom(ScanNonFieldValue, s, vs);
            && vs == FindFrom(ScanNonOws, t, n)
            && end == FindFrom(ScanNonFieldValue, t, vs)
            && (CrlfAt(s, end) <==> CrlfAt(t, end))
            && TrimEnd(s, vs, end) == TrimEnd(t, vs, end)
  {
    assert s[n..] == t[n..];
    FindSuffix(ScanNonOws, s, t, n);
    var vs := FindFrom(ScanNonOws, s, n);
    assert s[vs..] == t[vs..];
    FindSuffix(ScanNonFieldValue, s, t, vs);
    TrimEndSame(s, t, vs, FindFrom(ScanNonFieldValue, s, vs));
  }

  /** Hence the line parses the same before and after. */
  lemma ParseLineLowered(s: seq<byte>, t: seq<byte>, off: nat)
    requires off < |s| == |t|
    requires FindFrom(ScanNonToken, t, off) == FindFrom(ScanNonToken, s, off)
    requires var ne := FindFrom(ScanNonToken, s, off); forall k :: ne <= k < |s| ==> s[k] == t[k]
    ensures ParseLine(t, off) == ParseLine(s, off)
  {
    var ne := FindFrom(ScanNonToken, s, off);
    if off < ne < |s| && s[ne] == COLON {
      RestOfLine(s, t, ne + 1);
    }
  }

  // ---- Progress through a block ----

  /** A token as the parser leaves it. */
  function Token(s: seq<byte>, from: nat, to: nat, lower: bool): (t: seq<byte>)
    requires from <= to <= |s|
    ensures |t| == to - from
  {
    if lower then LowerAll(s[from..to]) else s[from..to]
  }

  function RestFrom(s: seq<byte>, off: nat, lower: bool): (t: seq<byte>)
    requires off <= |s|
    ensures |t| == |s| - off
  {
    if lower then LoweredFrom(s, off) else s[off..]
  }

  lemma Split3(s: seq<byte>, a: nat, b: nat, c: nat)
    requires a <= b <= c <= |s|
    ensures s[a..] == s[a..b] + s[b..] == s[a..b] + (s[b..c] + s[c..])
  {
  }

  lemma LoweredStep(s: seq<byte>, off: nat)
    requires off < |s| && !IsOws(s[off])
    ensures var ne := FindFrom(ScanNonToken, s, off);
            LoweredFrom(s, off) == LowerAll(s[off..ne]) +
              match ParseLine(s, off)
              case Rejected(_) => s[ne..]
              case Parsed(field, next) => s[ne..next] + LoweredFrom(s, next)
  {
  }

  lemma RestStep(s: seq<byte>, off: nat, lower: bool)
    requires off < |s| && !IsOws(s[off])
    ensures var ne := FindFrom(ScanNonToken, s, off);
            RestFrom(s, off, lower) == Token(s, off, ne, lower) +
              match ParseLine(s, off)
              case Rejected(_) => s[ne..]
              case Parsed(field, next) => s[ne..next] + RestFrom(s, next, lower)
  {
    hide ParseLine, FindFrom, LowerAll, Stops, IsOws;
    var ne := FindFrom(ScanNonToken, s, off);
    if lower {
      LoweredStep(s, off);
    } else {
      match ParseLine(s, off)
      case Rejected(_) =>
        Split3(s, off, ne, ne);
      case Parsed(field, next) =>
        Split3(s, off, ne, next);
    }
  }

  /** Loop invariant of both parsers: lines before off are done, the buffer holds `done` followed
    * by untouched input, and the answer for the whole block is what was found so far plus the
    * answer for the rest. */
  ghost predicate Reached(s: seq<byte>, buf: seq<byte>, off: nat, lower: bool, done: seq<byte>, fields: seq<Field>) {
    && off <= |s| && |done| == off
    && buf == done + s[off..]
    && done + RestFrom(s, off, lower) == FinalBytes(s, lower)
    && fields + BlockFields(s, off) == BlockFields(s, 0)
    && BlockStatus(s, off) == BlockStatus(s, 0)
  }

  lemma ReachedStart(s: seq<byte>, lower: bool)
    ensures Reached(s, s, 0, lower, [], [])
  {
  }

  lemma ReachedEnd(s: seq<byte>, buf: seq<byte>, lower: bool, done: seq<byte>, fields: seq<Field>)
    requires Reached(s, buf, |s|, lower, done, fields)
    ensures buf == FinalBytes(s, lower) && fields == BlockFields(s, 0) && BlockStatus(s, 0) == Ok
  {
  }

  lemma ReachedFold(s: seq<byte>, buf: seq<byte>, off: nat, lower: bool, done: seq<byte>, fields: seq<Field>)
    requires Reached(s, buf, off, lower, done, fields) && off < |s| && IsOws(s[off])
    ensures buf == FinalBytes(s, lower) && fields == BlockFields(s, 0) && BlockStatus(s, 0) == BadValue
  {
    assert fields + [] == fields;
  }

  /** The buffer once the token at the start of the line has been passed. */
  function AfterToken(s: seq<byte>, off: nat, ne: nat, lower: bool, done: seq<byte>): (t: seq<byte>)
    requires off <= ne <= |s| && |done| == off
    ensures |t| == |s|
    ensures forall k :: ne <= k < |s| ==> t[k] == s[k]
    ensures t[off..ne] == Token(s, off, ne, lower)
  {
    done + Token(s, off, ne, lower) + s[ne..]
  }

  lemma ReachedBuffer(s: seq<byte>, buf: seq<byte>, off: nat, lower: bool, done: seq<byte>, fields: seq<Field>)
    requires Reached(s, buf, off, lower, done, fields) && off < |s|
    ensures |buf| == |s| && |done| == off && buf == done + s[off..] && buf[off] == s[off]
    ensures buf == AfterToken(s, off, FindFrom(ScanNonToken, s, off), false, done)
  {
    hide ParseLine, FindFrom, Stops, BlockFields, BlockStatus, FinalBytes, RestFrom;
    var ne := FindFrom(ScanNonToken, s, off);
    Split3(s, off, ne, ne);
    assert done + (s[off..ne] + s[ne..]) == done + s[off..ne] + s[ne..];
  }

  lemma ParseAfterToken(s: seq<byte>, off: nat, lower: bool, done: seq<byte>)
    requires off < |s| && |done| == off
    ensures ParseLine(AfterToken(s, off, FindFrom(ScanNonToken, s, off), lower, done), off) == ParseLine(s, off)
  {
    hide ParseLine, FindFrom;
    var ne := FindFrom(ScanNonToken, s, off);
    var t := AfterToken(s, off, ne, lower, done);
    if lower {
      TokenLowered(s, t, off);
    } else {
      assert s[off..] == s[off..ne] + s[ne..] == t[off..];
      FindSuffix(ScanNonToken, s, t, off);
    }
    ParseLineLowered(s, t, off);
  }

  lemma ReachedReject(s: seq<byte>, off: nat, lower: bool, done: seq<byte>, fields: seq<Field>)
    requires off < |s| && Reached(s, done + s[off..], off, lower, done, fields)
    requires !IsOws(s[off]) && ParseLine(s, off).Rejected?
    ensures AfterToken(s, off, FindFrom(ScanNonToken, s, off), lower, done) == FinalBytes(s, lower)
    ensures fields == BlockFields(s, 0) && BlockStatus(s, 0) == ParseLine(s, off).status
  {
    hide ParseLine, FindFrom, Token, RestFrom, Stops;
    RestStep(s, off, lower);
    var ne := FindFrom(ScanNonToken, s, off);
    assert done + (Token(s, off, ne, lower) + s[ne..]) == done + Token(s, off, ne, lower) + s[ne..];
    assert fields + [] == fields;
  }

  lemma BlockStep(s: seq<byte>, off: nat)
    requires off < |s| && !IsOws(s[off]) && ParseLine(s, off).Parsed?
    ensures var r := ParseLine(s, off);
            && BlockFields(s, off) == [r.field] + BlockFields(s, r.next)
            && BlockStatus(s, off) == BlockStatus(s, r.next)
  {
  }

  lemma AfterTokenSplits(s: seq<byte>, off: nat, ne: nat, next: nat, lower: bool, done: seq<byte>)
    requires off <= ne <= next <= |s| && |done| == off
    ensures AfterToken(s, off, ne, lower, done) == done + Token(s, off, ne, lower) + s[ne..next] + s[next..]
  {
  }

  /** The bytes done once the line at off has been passed. */
  function DoneAfter(s: seq<byte>, off: nat, lower: bool, done: seq<byte>): (t: seq<byte>)
    requires off < |s| && |done| == off && ParseLine(s, off).Parsed?
    ensures |t| == ParseLine(s, off).next
  {
    var ne := FindFrom(ScanNonToken, s, off);
    done + Token(s, off, ne, lower) + s[ne..ParseLine(s, off).next]
  }

  lemma ReachedParts(s: seq<byte>, buf: seq<byte>, off: nat, lower: bool, done: seq<byte>, fields: seq<Field>)
    requires Reached(s, buf, off, lower, done, fields)
    ensures off <= |s| && |done| == off && buf == done + s[off..]
    ensures done + RestFrom(s, off, lower) == FinalBytes(s, lower)
    ensures fields + BlockFields(s, off) == BlockFields(s, 0) && BlockStatus(s, off) == BlockStatus(s, 0)
  {
    hide RestFrom, BlockFields, BlockStatus, FinalBytes;
  }

  lemma ReachedIntro(s: seq<byte>, buf: seq<byte>, off: nat, lower: bool, done: seq<byte>, fields: seq<Field>)
    requires off <= |s| && |done| == off && buf == done + s[off..]
    requires done + RestFrom(s, off, lower) == FinalBytes(s, lower)
    requires fields + BlockFields(s, off) == BlockFields(s, 0) && BlockStatus(s, off) == BlockStatus(s, 0)
    ensures Reached(s, buf, off, lower, done, fields)
  {
    hide RestFrom, BlockFields, BlockStatus, FinalBytes;
  }

  lemma ReachedNext(s: seq<byte>, off: nat, lower: bool, done: seq<byte>, fields: seq<Field>)
    requires off < |s| && Reached(s, done + s[off..], off, lower, done, fields)
    requires !IsOws(s[off]) && ParseLine(s, off).Parsed?
    ensures var ne, r := FindFrom(ScanNonToken, s, off), ParseLine(s, off);
            Reached(s, AfterToken(s, off, ne, lower, done), r.next, lower,
                    DoneAfter(s, off, lower, done), fields + [r.field])
  {
    var ne, r := FindFrom(ScanNonToken, s, off), ParseLine(s, off);
    var tok, done' := Token(s, off, ne, lower), DoneAfter(s, off, lower, done);
    assert done' == done + tok + s[ne..r.next];
    hide *;
    ReachedParts(s, done + s[off..], off, lower, done, fields);
    RestStep(s, off, lower);
    BlockStep(s, off);
    AfterTokenSplits(s, off, ne, r.next, lower, done);
    ConcatFour(done, tok, s[ne..r.next], RestFrom(s, r.next, lower));
    ConcatThree(fields, [r.field], BlockFields(s, r.next));
    ReachedIntro(s, AfterToken(s, off, ne, lower, done), r.next, lower, done', fields + [r.field]);
  }

  lemma OwsEnd(t: seq<byte>, from: nat, vs: nat)
    requires from <= vs <= |t| && forall k :: from <= k < vs ==> IsOws(t[k])
    requires vs < |t| ==> !IsOws(t[vs])
    ensures FindFrom(ScanNonOws, t, from) == vs
  {
  }

  method SkipOws(raw: array<byte>, from: nat, len: nat) returns (vs: nat)
    requires from <= len <= raw.Length
    ensures vs == FindFrom(ScanNonOws, raw[..len], from)
  {
    ghost var s := raw[..len];
    vs := from;
    while vs < len && IsOws(raw[vs])
      invariant from <= vs <= len
      invariant forall k :: from <= k < vs ==> IsOws(s[k])
    {
      vs := vs + 1;
    }
    OwsEnd(s, from, vs);
  }

  // ---- The scanner-driven parser ----

  method KpTrimOwsEnd(raw: array<byte>, vs: nat, ve0: nat, ghost len: nat) returns (ve: nat)
    requires vs <= ve0 <= len <= raw.Length
    ensures ve == TrimEnd(raw[..len], vs, ve0)
  {
    ve := ve0;
    while ve > vs && IsOws(raw[ve - 1])
      invariant vs <= ve <= ve0
      invariant TrimEnd(raw[..len], vs, ve0) == TrimEnd(raw[..len], vs, ve)
    {
      ve := ve - 1;
    }
  }

  method KpOneHeader(raw: array<byte>, off0: nat, len: nat) returns (r: LineParse)
    requires off0 < len <= raw.Length
    ensures r == ParseLine(raw[..len], off0)
  {
    hide ParseLine, FindFrom, IsTchar, IsFieldValueByte;
    ghost var s := raw[..len];
    var ne := Find(ScanNonToken, raw, off0, len);
    if ne == off0 {
      LineBadName(s, off0, ne);
      return Rejected(BadName);
    }
    if ne >= len || raw[ne] != COLON {
      LineBadName(s, off0, ne);
      return Rejected(BadName);
    }
    var vs := SkipOws(raw, ne + 1, len);
    var ve0 := Find(ScanNonFieldValue, raw, vs, len);
    var next;
    if ve0 >= len {
      next := len;
    } else {
      if raw[ve0] != CR {
        LineBadValue(s, off0, ne, vs, ve0);
        return Rejected(BadValue);
      }
      if ve0 + 1 >= len || raw[ve0 + 1] != LF {
        LineBadValue(s, off0, ne, vs, ve0);
        return Rejected(BadValue);
      }
      next := ve0 + 2;
    }
    LineGood(s, off0, ne, vs, ve0);
    var ve := KpTrimOwsEnd(raw, vs, ve0, len);
    return Parsed(Field(off0, ne, vs, ve), next);
  }

  lemma SliceOfWhole(a: array<byte>, n: nat)
    requires n <= a.Length
    ensures a[..][..n] == a[..n] && a[..][n..] == a[n..]
  {
  }

  lemma LoweredBuffer(before: seq<byte>, after: seq<byte>, off: nat, ne: nat, len: nat, done: seq<byte>, s: seq<byte>)
    requires off <= ne <= len <= |before| && |s| == len && |done| == off
    requires before[..len] == done + s[off..]
    requires after == before[..off] + LowerAll(before[off..ne]) + before[ne..]
    ensures after[..len] == AfterToken(s, off, ne, true, done) && after[len..] == before[len..]
  {
    var head := before[..len];
    assert head[..off] == done && head[off..ne] == s[off..ne] && head[ne..] == s[ne..];
    assert before[..off] == head[..off];
    assert before[off..ne] == head[off..ne];
    assert before[ne..][..len - ne] == head[ne..];
    assert after[..len] == before[..off] + LowerAll(before[off..ne]) + before[ne..][..len - ne];
  }

  /** The lowering step of the scanner-driven parser. */
  method KpLowerName(raw: array<byte>, off: nat, len: nat, ghost done: seq<byte>, ghost s: seq<byte>)
    requires off < len <= raw.Length && |s| == len && |done| == off
    requires raw[..len] == done + s[off..]
    modifies raw
    ensures raw[..len] == AfterToken(s, off, FindFrom(ScanNonToken, s, off), true, done)
    ensures raw[len..] == old(raw[len..])
  {
    hide *;
    var ne := Find(ScanNonToken, raw, off, len);
    ghost var before := raw[..];
    SliceOfWhole(raw, len);
    assert raw[..len][off..] == s[off..];
    FindSuffix(ScanNonToken, raw[..len], s, off);
    if ne - off > 0 {
      ToLowerInPlace(raw, off, ne - off);
    }
    LoweredBuffer(before, raw[..], off, ne, len, done, s);
    SliceOfWhole(raw, len);
    assert before[len..] == old(raw[len..]);
  }

  /** One line, lowering its name first when asked to. */
  method KpLine(raw: array<byte>, off: nat, len: nat, lower: bool, ghost done: seq<byte>, ghost s: seq<byte>)
    returns (r: LineParse)
    requires off < len <= raw.Length && |s| == len && |done| == off
    requires raw[..len] == done + s[off..]
    requires raw[..len] == AfterToken(s, off, FindFrom(ScanNonToken, s, off), false, done)
    modifies raw
    ensures r == ParseLine(s, off)
    ensures raw[..len] == AfterToken(s, off, FindFrom(ScanNonToken, s, off), lower, done)
    ensures raw[len..] == old(raw[len..])
  {
    hide *;
    if lower {
      KpLowerName(raw, off, len, done, s);
    }
    ParseAfterToken(s, off, lower, done);
    r := KpOneHeader(raw, off, len);
  }

  method KpHeaderBlock(raw: array<byte>, len: nat, lower: bool, out: Fields)
    requires len <= raw.Length && out.f.Length == MAX_FIELDS
    modifies raw, out, out.f
    ensures raw[..len] == FinalBytes(old(raw[..len]), lower) && raw[len..] == old(raw[len..])
    ensures out.Holds(BlockStatus(old(raw[..len]), 0), BlockFields(old(raw[..len]), 0))
  {
    hide ParseLine, FindFrom, Stops, DoneAfter, BlockFields, BlockStatus, FinalBytes, Reached, AfterToken;
    ghost var s := raw[..len];
    ghost var done: seq<byte>, fields: seq<Field> := [], [];
    out.Clear();
    ReachedStart(s, lower);
    var off := 0;
    while off < len
      invariant 0 <= off <= len
      invariant Reached(s, raw[..len], off, lower, done, fields)
      invariant out.Holds(Ok, fields)
      invariant raw[len..] == old(raw[len..])
    {
      ReachedBuffer(s, raw[..len], off, lower, done, fields);
      if raw[off] == SP || raw[off] == HTAB {
        ReachedFold(s, raw[..len], off, lower, done, fields);
        out.Fail(BadValue, fields);
        return;
      }
      var r := KpLine(raw, off, len, lower, done, s);
      match r
      case Rejected(status) =>
        ReachedReject(s, off, lower, done, fields);
        out.Fail(status, fields);
        return;
      case Parsed(f, next) =>
        ReachedNext(s, off, lower, done, fields);
        out.Add(f, fields);
        done := DoneAfter(s, off, lower, done);
        fields := fields + [f];
        off := next;
    }
    ReachedEnd(s, raw[..len], lower, done, fields);
  }

  // ---- The byte-at-a-time parser ----

  /** What the loop over the token leaves. */
  lemma PassedToken(t: seq<byte>, off: nat, i: nat, lower: bool, done: seq<byte>, s: seq<byte>)
    requires off <= i <= |s| == |t| && |done| == off
    requires forall k :: 0 <= k < off ==> t[k] == done[k]
    requires forall k :: off <= k < i ==> t[k] == if lower then Lower(s[k]) else s[k]
    requires forall k :: i <= k < |s| ==> t[k] == s[k]
    ensures t == AfterToken(s, off, i, lower, done)
  {
    hide IsTchar;
    assert t[..off] == done && t[off..i] == Token(s, off, i, lower) && t[i..] == s[i..];
    assert t == t[..off] + t[off..i] + t[i..];
  }

  /** Passes the token at off, lowercasing it on the way when asked to. */
  method RpToken(raw: array<byte>, off: nat, len: nat, lower: bool, ghost done: seq<byte>, ghost s: seq<byte>)
    returns (i: nat)
    requires off <= len <= raw.Length && |s| == len && |done| == off
    requires raw[..len] == done + s[off..]
    modifies raw
    ensures i == FindFrom(ScanNonToken, s, off)
    ensures raw[..len] == AfterToken(s, off, i, lower, done)
    ensures raw[len..] == old(raw[len..])
  {
    hide FindFrom, IsTchar;
    i := off;
    forall k | off <= k < len
      ensures raw[k] == s[k]
    {
      assert raw[k] == raw[..len][k] == s[off..][k - off];
    }
    assert forall k :: 0 <= k < off ==> raw[..len][k] == done[k];
    while i < len && IsTchar(raw[i])
      invariant off <= i <= len
      invariant forall k :: off <= k < i ==> !Stops(ScanNonToken, s[k])
      invariant forall k :: 0 <= k < off ==> raw[k] == done[k]
      invariant forall k :: off <= k < i ==> raw[k] == if lower then Lower(s[k]) else s[k]
      invariant forall k :: i <= k < len ==> raw[k] == s[k]
      invariant raw[len..] == old(raw[len..])
    {
      if lower {
        raw[i] := Lower(raw[i]);
      }
      i := i + 1;
    }
    FindIs(ScanNonToken, s, off, i);
    PassedToken(raw[..len], off, i, lower, done, s);
  }

  /** Passes the value at vs; ve is its end without trailing whitespace, i where reading stopped. */
  method RpValue(raw: array<byte>, vs: nat, len: nat) returns (ok: bool, i: nat, ve: nat)
    requires vs <= len <= raw.Length
    ensures i == FindFrom(ScanNonFieldValue, raw[..len], vs)
    ensures ok <==> i == len || CrlfAt(raw[..len], i)
    ensures ve == TrimEnd(raw[..len], vs, i)
  {
    hide FindFrom;
    ghost var s := raw[..len];
    i := vs;
    ve := i;
    while true
      invariant vs <= i <= len
      invariant forall k :: vs <= k < i ==> !Stops(ScanNonFieldValue, s[k])
      invariant ve == TrimEnd(s, vs, i)
      decreases len - i
    {
      if i == len {
        FindIs(ScanNonFieldValue, s, vs, i);
        return true, i, ve;
      }
      var b := raw[i];
      if b == CR {
        FindIs(ScanNonFieldValue, s, vs, i);
        return i + 1 < len && raw[i + 1] == LF, i, ve;
      }
      if !IsFieldValueByte(b) {
        FindIs(ScanNonFieldValue, s, vs, i);
        return false, i, ve;
      }
      i := i + 1;
      if !IsOws(b) {
        ve := i;
      }
    }
  }

  lemma TokenKept(s: seq<byte>, off: nat, lower: bool, done: seq<byte>)
    requires off < |s| && |done| == off
    ensures var ne := FindFrom(ScanNonToken, s, off);
            FindFrom(ScanNonToken, AfterToken(s, off, ne, lower, done), off) == ne
  {
  }

  /** One line of the state machine, from its first byte to its CRLF. */
  method RpLine(raw: array<byte>, ns: nat, len: nat, lower: bool, ghost done: seq<byte>, ghost s: seq<byte>)
    returns (r: LineParse)
    requires ns < len <= raw.Length && |s| == len && |done| == ns
    requires raw[..len] == done + s[ns..]
    modifies raw
    ensures r == ParseLine(s, ns)
    ensures raw[..len] == AfterToken(s, ns, FindFrom(ScanNonToken, s, ns), lower, done)
    ensures raw[len..] == old(raw[len..])
  {
    hide *;
    var ne := RpToken(raw, ns, len, lower, done, s);
    ghost var t := raw[..len];
    ParseAfterToken(s, ns, lower, done);
    TokenKept(s, ns, lower, done);
    if ne == ns || ne == len || raw[ne] != COLON {
      LineBadName(t, ns, ne);
      return Rejected(BadName);
    }
    var vs := SkipOws(raw, ne + 1, len);
    var ok, i, ve := RpValue(raw, vs, len);
    if !ok {
      LineBadValue(t, ns, ne, vs, i);
      return Rejected(BadValue);
    }
    LineGood(t, ns, ne, vs, i);
    return Parsed(Field(ns, ne, vs, ve), if i < len then i + 2 else i);
  }

  method RpHeaderBlock(raw: array<byte>, len: nat, lower: bool, out: Fields)
    requires len <= raw.Length && out.f.Length == MAX_FIELDS
    modifies raw, out, out.f
    ensures raw[..len] == FinalBytes(old(raw[..len]), lower) && raw[len..] == old(raw[len..])
    ensures out.Holds(BlockStatus(old(raw[..len]), 0), BlockFields(old(raw[..len]), 0))
  {
    hide *;
    ghost var s := raw[..len];
    ghost var done: seq<byte>, fields: seq<Field> := [], [];
    out.Clear();
    ReachedStart(s, lower);
    var i := 0;
    while i < len
      invariant 0 <= i <= len
      invariant Reached(s, raw[..len], i, lower, done, fields)
      invariant out.Holds(Ok, fields)
      invariant raw[len..] == old(raw[len..])
    {
      ReachedBuffer(s, raw[..len], i, lower, done, fields);
      if IsOws(raw[i]) {
        ReachedFold(s, raw[..len], i, lower, done, fields);
        out.Fail(BadValue, fields);
        return;
      }
      var r := RpLine(raw, i, len, lower, done, s);
      match r
      case Rejected(status) =>
        ReachedReject(s, i, lower, done, fields);
        out.Fail(status, fields);
        return;
      case Parsed(f, next) =>
        ReachedNext(s, i, lower, done, fields);
        out.Add(f, fields);
        done := DoneAfter(s, i, lower, done);
        fields := fields + [f];
        i := next;
    }
    ReachedEnd(s, raw[..len], lower, done, fields);
  }

  // ---- The check every accepted field must pass ----

  /** 1*tchar ":" OWS value, where only OWS separates the value from the end of its line. */
  ghost predicate FieldWellFormed(s: seq<byte>, f: Field) {
    && f.ns < f.ne < |s| && s[f.ne] == COLON
    && (forall k :: f.ns <= k < f.ne ==> IsTchar(s[k]))
    && f.ne + 1 <= f.vs <= f.ve <= |s|
    && (forall k :: f.ne + 1 <= k < f.vs ==> IsOws(s[k]))
    && (forall k :: f.vs <= k < f.ve ==> IsFieldValueByte(s[k]))
    && (f.ve > f.vs ==> !IsOws(s[f.vs]) && !IsOws(s[f.ve - 1]))
    && var k := FindFrom(ScanNonOws, s, f.ve);
       k == |s| || CrlfAt(s, k)
  }

  method CheckFieldWellFormed(raw: seq<byte>, f: Field) returns (ok: bool)
    ensures ok <==> FieldWellFormed(raw, f)
  {
    hide FindFrom, IsTchar, IsFieldValueByte;
    var len := |raw|;
    if !(f.ns < f.ne && f.ne < len && raw[f.ne] == COLON) {
      return false;
    }
    var k := f.ns;
    while k < f.ne
      invariant f.ns <= k <= f.ne
      invariant forall j :: f.ns <= j < k ==> IsTchar(raw[j])
    {
      if !IsTchar(raw[k]) {
        return false;
      }
      k := k + 1;
    }
    if !(f.ne + 1 <= f.vs && f.vs <= f.ve && f.ve <= len) {
      return false;
    }
    k := f.ne + 1;
    while k < f.vs
      invariant f.ne + 1 <= k <= f.vs
      invariant forall j :: f.ne + 1 <= j < k ==> IsOws(raw[j])
    {
      if !IsOws(raw[k]) {
        return false;
      }
      k := k + 1;
    }
    k := f.vs;
    while k < f.ve
      invariant f.vs <= k <= f.ve
      invariant forall j :: f.vs <= j < k ==> IsFieldValueByte(raw[j])
    {
      if !IsFieldValueByte(raw[k]) {
        return false;
      }
      k := k + 1;
    }
    if f.ve > f.vs && (IsOws(raw[f.vs]) || IsOws(raw[f.ve - 1])) {
      return false;
    }
    k := f.ve;
    while k < len && IsOws(raw[k])
      invariant f.ve <= k <= len
      invariant forall j :: f.ve <= j < k ==> IsOws(raw[j])
    {
      k := k + 1;
    }
    OwsEnd(raw, f.ve, k);
    return k == len || (raw[k] == CR && k + 1 < len && raw[k + 1] == LF);
  }

  /** How a parsed line was found. */
  lemma ParsedPieces(s: seq<byte>, off: nat)
    requires off < |s| && ParseLine(s, off).Parsed?
    ensures var r := ParseLine(s, off);
            var f, end := r.field, FindFrom(ScanNonFieldValue, s, r.field.vs);
            && f.ns == off < f.ne == FindFrom(ScanNonToken, s, off) < |s| && s[f.ne] == COLON
            && f.ne < f.vs == FindFrom(ScanNonOws, s, f.ne + 1) <= end <= |s|
            && f.ve == TrimEnd(s, f.vs, end)
            && (if end < |s| then CrlfAt(s, end) && r.next == end + 2 else r.next == |s|)
  {
    hide FindFrom, Stops, TrimEnd;
  }

  /** A value neither starts nor ends with whitespace, and an empty one has none after it. */
  lemma ValueEdges(s: seq<byte>, ne: nat, vs: nat, ve: nat, end: nat)
    requires ne < |s| && vs == FindFrom(ScanNonOws, s, ne + 1)
    requires vs <= end <= |s| && ve == TrimEnd(s, vs, end)
    ensures vs == ve ==> ve == end
    ensures vs < ve ==> !IsOws(s[vs]) && !IsOws(s[ve - 1])
    ensures forall k :: ve <= k < end ==> IsOws(s[k])
  {
  }

  /** No byte before the one a scan finds stops it. */
  lemma NothingStops(kind: ScanKind, s: seq<byte>, off: nat, to: nat)
    requires to <= FindFrom(kind, s, off)
    ensures forall k :: off <= k < to ==> !Stops(kind, s[k])
  {
  }

  lemma CrIsNotOws(s: seq<byte>, k: nat)
    requires CrlfAt(s, k)
    ensures !IsOws(s[k])
  {
  }

  lemma ParsedIsWellFormed(s: seq<byte>, off: nat)
    requires off < |s| && ParseLine(s, off).Parsed?
    ensures FieldWellFormed(s, ParseLine(s, off).field)
  {
    hide FindFrom, ParseLine, TrimEnd, IsTchar, IsFieldValueByte, IsOws;
    ParsedPieces(s, off);
    var f := ParseLine(s, off).field;
    var end := FindFrom(ScanNonFieldValue, s, f.vs);
    ValueEdges(s, f.ne, f.vs, f.ve, end);
    NothingStops(ScanNonToken, s, f.ns, f.ne);
    NothingStops(ScanNonOws, s, f.ne + 1, f.vs);
    NothingStops(ScanNonFieldValue, s, f.vs, f.ve);
    if end < |s| {
      CrIsNotOws(s, end);
    }
    OwsEnd(s, f.ve, end);
  }

  /** Every field a parser accepts, even from a block it goes on to refuse, is well formed. */
  lemma {:induction false} AcceptedFieldsWellFormed(s: seq<byte>, off: nat)
    ensures forall f <- BlockFields(s, off) :: FieldWellFormed(s, f)
    decreases |s| - off
  {
    hide FieldWellFormed, ParseLine;
    if off < |s| && ParseFieldLine(s, off).Parsed? {
      ParsedIsWellFormed(s, off);
      AcceptedFieldsWellFormed(s, ParseFieldLine(s, off).next);
    }
  }

  // ---- What lowercasing changes ----

  lemma FieldLineParsed(s: seq<byte>, off: nat)
    requires off < |s| && ParseFieldLine(s, off).Parsed?
    ensures !IsOws(s[off]) && ParseLine(s, off) == ParseFieldLine(s, off)
    ensures ParseLine(s, off).field.ns == off
  {
    hide ParseLine, FindFrom;
  }

  /** The three parts of a concatenation, by position. */
  lemma ThreeParts(a: seq<byte>, b: seq<byte>, c: seq<byte>)
    ensures var t := a + (b + c);
            t[..|a|] == a && t[|a|..|a| + |b|] == b && t[|a| + |b|..] == c
  {
  }

  lemma LoweredPieces(s: seq<byte>, off: nat)
    requires off < |s| && ParseFieldLine(s, off).Parsed?
    ensures var r, low := ParseFieldLine(s, off), LoweredFrom(s, off);
            && off == r.field.ns < r.field.ne < r.next <= |s|
            && BlockFields(s, off) == [r.field] + BlockFields(s, r.next)
            && BlockStatus(s, off) == BlockStatus(s, r.next)
            && low[..r.field.ne - off] == LowerAll(s[off..r.field.ne])
            && low[r.field.ne - off..r.next - off] == s[r.field.ne..r.next]
            && low[r.next - off..] == LoweredFrom(s, r.next)
  {
    hide *;
    FieldLineParsed(s, off);
    LoweredStep(s, off);
    BlockStep(s, off);
    var r := ParseLine(s, off);
    var ne := r.field.ne;
    ThreeParts(LowerAll(s[off..ne]), s[ne..r.next], LoweredFrom(s, r.next));
  }

  lemma NoFields(s: seq<byte>, off: nat)
    requires off >= |s| || ParseFieldLine(s, off).Rejected?
    ensures BlockFields(s, off) == []
    ensures off < |s| ==> BlockStatus(s, off) != Ok
    ensures off == |s| ==> LoweredFrom(s, off) == []
  {
  }

  /** In a parsed block the names, and only the names, are lowercased. */
  lemma {:induction false} LoweredNames(s: seq<byte>, off: nat)
    requires off <= |s|
    ensures forall f <- BlockFields(s, off) :: off <= f.ns <= f.ne <= |s| &&
              LoweredFrom(s, off)[f.ns - off..f.ne - off] == LowerAll(s[f.ns..f.ne])
    decreases |s| - off
  {
    hide *;
    if off < |s| && ParseFieldLine(s, off).Parsed? {
      var r := ParseFieldLine(s, off);
      LoweredNames(s, r.next);
      LoweredPieces(s, off);
      var rest, tail := BlockFields(s, r.next), LoweredFrom(s, r.next);
      forall f | f in BlockFields(s, off)
        ensures off <= f.ns <= f.ne <= |s|
        ensures LoweredFrom(s, off)[f.ns - off..f.ne - off] == LowerAll(s[f.ns..f.ne])
      {
        if f in rest {
          assert LoweredFrom(s, off)[f.ns - off..f.ne - off] == tail[f.ns - r.next..f.ne - r.next];
        }
      }
    } else {
      NoFields(s, off);
    }
  }

  lemma {:induction false} OnlyNamesChange(s: seq<byte>, off: nat, k: nat)
    requires off <= k < |s| && BlockStatus(s, off) == Ok
    ensures LoweredFrom(s, off)[k - off] == s[k] || exists f <- BlockFields(s, off) :: f.ns <= k < f.ne
    decreases |s| - off
  {
    hide *;
    if ParseFieldLine(s, off).Parsed? {
      var r, low := ParseFieldLine(s, off), LoweredFrom(s, off);
      LoweredPieces(s, off);
      if k < r.field.ne {
        assert r.field in BlockFields(s, off);
      } else if k < r.next {
        assert low[k - off] == low[r.field.ne - off..r.next - off][k - r.field.ne];
      } else {
        assert low[k - off] == low[r.next - off..][k - r.next];
        OnlyNamesChange(s, r.next, k);
        if f :| f in BlockFields(s, r.next) && f.ns <= k < f.ne {
          assert f in BlockFields(s, off);
        }
      }
    } else {
      NoFields(s, off);
    }
  }
}
