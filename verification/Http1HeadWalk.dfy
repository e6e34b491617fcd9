/** How the two ways of looking at a head fit together: the line walk that stops at an empty line, and
  * the search for CRLFCRLF with a parse of the block before it.
  */
module Http1HeadWalk {
  import opened Bytes
  import opened Http1Bytes
  import opened Http1Lines
  import opened Http1Headers

  /** Complete lines before the scan stops, and how it stops: a negative scan result, or the CR of an empty line. */
  function LineWalk(s: seq<byte>, i: nat): (r: (nat, int))
    decreases |s| - i
  {
    var e := LineEnd(s, i);
    if e < 0 || e == i then (0, e)
    else
      LineEndIsFirstCrlf(s, i);
      var (n, stop) := LineWalk(s, e + 2);
      (n + 1, stop)
  }

  /** Index of the first CRLF at or after i, or the length. */
  function FirstCrlf(s: seq<byte>, i: nat): (r: nat)
    ensures r <= |s|
    decreases |s| - i
  {
    if i >= |s| then |s| else if CrlfAt(s, i) then i else FirstCrlf(s, i + 1)
  }

  /** The header block of a complete head: what lies between the first CRLF and the blank line. */
  function BlockOf(s: seq<byte>, h: nat): seq<byte>
    requires h <= |s|
  {
    var sl := FirstCrlf(s, 0);
    if sl + 2 <= h then s[sl + 2..h] else []
  }

  // ---- The empty line and the terminator ----

  /** No LF of s[i .. n) stands without a CR before it, counting from i. */
  ghost predicate NoBareLf(s: seq<byte>, i: nat, n: nat) {
    forall k :: i <= k < n && k < |s| && s[k] == LF ==> k > i && s[k - 1] == CR
  }

  lemma NoTerminatorInLine(s: seq<byte>, i: nat, e: nat, k: nat)
    requires CrlfAt(s, e) && (forall j :: i <= j < e ==> s[j] != LF) && i <= k < e + 2 && k != e
    ensures !TerminatorAt(s, k)
  {
  }

  lemma EmptyLine(s: seq<byte>, i: nat)
    requires CrlfAt(s, i)
    ensures LineEnd(s, i) == i
  {
    DecidedByLf(s, i, i + 1);
  }

  /** A walk that ends at an empty line after at least one other ends two bytes past the first
    * terminator, and met no bare LF. */
  lemma {:induction false} WalkStops(s: seq<byte>, i: nat)
    requires LineWalk(s, i).1 >= 0
    ensures var (lines, stop) := LineWalk(s, i);
            && i <= stop && CrlfAt(s, stop) && NoBareLf(s, i, stop)
            && (lines == 0 <==> stop == i)
            && (lines > 0 ==> i + 3 <= stop && TerminatorAt(s, stop - 2)
                              && forall k :: i <= k < stop - 2 ==> !TerminatorAt(s, k))
    decreases |s| - i
  {
    hide LineEnd;
    var e := LineEnd(s, i);
    LineEndIsFirstCrlf(s, i);
    if e > i {
      WalkStops(s, e + 2);
      var (lines, stop) := LineWalk(s, e + 2);
      forall k | i <= k < stop - 2
        ensures !TerminatorAt(s, k)
      {
        if k == e {
          if TerminatorAt(s, e) {
            EmptyLine(s, e + 2);
          }
        } else if k < e + 2 {
          NoTerminatorInLine(s, i, e, k);
        }
      }
    }
  }

  /** An empty line before the terminator would be one with the line end before it. */
  lemma NoEmptyLineBefore(s: seq<byte>, i: nat, h: nat)
    requires i <= h && forall k :: 0 <= k < h ==> !TerminatorAt(s, k)
    requires i >= 2 ==> CrlfAt(s, i - 2)
    requires i == 0 || i >= 2
    requires i == 0 ==> !CrlfAt(s, 0)
    ensures !CrlfAt(s, i)
  {
    if i >= 2 {
      assert !TerminatorAt(s, i - 2);
    }
  }

  lemma LaterLines(s: seq<byte>, i: nat, j: nat, h: nat)
    requires i + 2 <= j <= h < |s| && NoBareLf(s, i, h) && s[j - 1] == LF
    ensures NoBareLf(s, j, h)
  {
  }

  /** The line at i ends at or before the terminator, in front of another line or of the empty one. */
  lemma LineBefore(s: seq<byte>, i: nat, h: nat) returns (e: nat)
    requires i <= h && TerminatorAt(s, h) && NoBareLf(s, i, h)
    ensures e == LineEnd(s, i) && i <= e <= h && CrlfAt(s, e) && (e < h ==> e + 2 <= h)
    ensures e < h ==> NoBareLf(s, e + 2, h)
  {
    var lf := FindFrom(ScanLf, s, i);
    hide FindFrom;
    assert Stops(ScanLf, s[h + 1]);
    assert lf <= h + 1;
    assert lf > i && s[lf - 1] == CR;
    e := lf - 1;
    if e < h {
      LaterLines(s, i, e + 2, h);
    }
  }

  /** Conversely, a walk over lines that end in CRLF up to a terminator stops there. */
  lemma {:induction false} WalkReaches(s: seq<byte>, i: nat, h: nat)
    requires i <= h && TerminatorAt(s, h) && NoBareLf(s, i, h)
    requires forall k :: 0 <= k < h ==> !TerminatorAt(s, k)
    requires i >= 2 ==> CrlfAt(s, i - 2)
    requires i == 0 || i >= 2
    requires i == 0 ==> !CrlfAt(s, 0)
    ensures LineWalk(s, i).0 > 0 && LineWalk(s, i).1 == h + 2
    decreases |s| - i
  {
    var e := LineBefore(s, i, h);
    hide LineEnd;
    NoEmptyLineBefore(s, i, h);
    if e == h {
      EmptyLine(s, h + 2);
    } else {
      WalkReaches(s, e + 2, h);
    }
  }

  /** A walk with a line does not start at an empty line. */
  lemma NotEmptyLine(s: seq<byte>)
    requires LineWalk(s, 0).0 > 0
    ensures !CrlfAt(s, 0)
  {
    hide LineEnd;
    if CrlfAt(s, 0) {
      EmptyLine(s, 0);
    }
  }

  /** The line walk ends at an empty line after at least one other exactly when the head has a
    * terminator, no bare LF before it, and does not start with an empty line; both then report the
    * same place. */
  lemma WalkIffTerminator(s: seq<byte>)
    ensures var (lines, stop) := LineWalk(s, 0);
            var h := HeadEnd(s, 0);
            && (lines > 0 && stop >= 0 <==> h >= 0 && NoBareLf(s, 0, h) && !CrlfAt(s, 0))
            && (lines > 0 && stop >= 0 ==> h == stop - 2)
  {
    hide LineWalk, LineEnd, HeadEnd;
    var (lines, stop) := LineWalk(s, 0);
    var h := HeadEnd(s, 0);
    if stop >= 0 {
      WalkStops(s, 0);
      if lines > 0 {
        HeadEndIs(s, 0, stop - 2);
        NotEmptyLine(s);
      }
    }
    if h >= 0 && NoBareLf(s, 0, h) && !CrlfAt(s, 0) {
      WalkReaches(s, 0, h);
    }
  }

  // ---- The block and its lines ----

  /** The parse of a slice that starts at d, for the whole buffer, where the next line starts at next. */
  function Moved(r: LineParse, d: nat, next: nat): LineParse {
    if r.Rejected? then r
    else Parsed(Field(r.field.ns + d, r.field.ne + d, r.field.vs + d, r.field.ve + d), next)
  }

  /** A scan within a slice, when the byte after the slice stops it. */
  lemma FindInSlice(kind: ScanKind, s: seq<byte>, a: nat, m: nat, i: nat)
    requires a <= i <= m <= |s| && (m < |s| ==> Stops(kind, s[m]))
    ensures FindFrom(kind, s, i) <= m && FindFrom(kind, s[a..m], i - a) == FindFrom(kind, s, i) - a
  {
    hide Stops, FindFrom;
    var t, r := s[a..m], FindFrom(kind, s, i);
    forall k | i - a <= k < r - a && k < |t|
      ensures !Stops(kind, t[k])
    {
      assert t[k] == s[a + k];
    }
    FindIs(kind, t, i - a, r - a);
  }

  lemma {:induction false} TrimInSlice(s: seq<byte>, a: nat, m: nat, vs: nat, ve: nat)
    requires a <= vs <= ve <= m <= |s|
    ensures TrimEnd(s[a..m], vs - a, ve - a) == TrimEnd(s, vs, ve) - a
    decreases ve
  {
    if ve > vs && IsOws(s[ve - 1]) {
      TrimInSlice(s, a, m, vs, ve - 1);
    }
  }

  /** A CR stops every scan of a field line. */
  lemma CrStops()
    ensures Stops(ScanNonToken, CR) && Stops(ScanNonOws, CR) && Stops(ScanNonFieldValue, CR) && CR != COLON
  {
  }

  /** The scans after the colon find the same places in the line alone. */
  lemma ValueScans(s: seq<byte>, off: nat, e: nat, n: nat) returns (vs: nat, end: nat)
    requires off <= n <= e <= |s| && (e == |s| || s[e] == CR)
    ensures n <= vs <= end <= e
    ensures FindFrom(ScanNonOws, s, n) == vs && FindFrom(ScanNonOws, s[off..e], n - off) == vs - off
    ensures FindFrom(ScanNonFieldValue, s, vs) == end && FindFrom(ScanNonFieldValue, s[off..e], vs - off) == end - off
  {
    hide *;
    CrStops();
    FindInSlice(ScanNonOws, s, off, e, n);
    vs := FindFrom(ScanNonOws, s, n);
    FindInSlice(ScanNonFieldValue, s, off, e, vs);
    end := FindFrom(ScanNonFieldValue, s, vs);
  }

  lemma ParsedMoved(d: nat, ne: nat, vs: nat, ve: nat, n: nat, next: nat)
    requires d <= ne && d <= vs && d <= ve
    ensures Moved(Parsed(Field(0, ne - d, vs - d, ve - d), n), d, next) == Parsed(Field(d, ne, vs, ve), next)
  {
  }

  /** The part of the line after the colon, when the value runs to the end of the line. */
  lemma GoodValueAlone(s: seq<byte>, off: nat, e: nat, ne: nat, vs: nat)
    requires off < ne < vs <= e <= |s| && (e == |s| || CrlfAt(s, e)) && s[ne] == COLON
    requires ne == FindFrom(ScanNonToken, s, off) && ne - off == FindFrom(ScanNonToken, s[off..e], 0)
    requires vs == FindFrom(ScanNonOws, s, ne + 1) && vs - off == FindFrom(ScanNonOws, s[off..e], ne + 1 - off)
    requires e == FindFrom(ScanNonFieldValue, s, vs) && e - off == FindFrom(ScanNonFieldValue, s[off..e], vs - off)
    requires TrimEnd(s[off..e], vs - off, e - off) == TrimEnd(s, vs, e) - off
    ensures ParseLine(s, off) == Moved(ParseLine(s[off..e], 0), off, if e < |s| then e + 2 else |s|)
    ensures ParseLine(s[off..e], 0).Parsed? && ParseLine(s[off..e], 0).next == e - off
  {
    hide *;
    var t := s[off..e];
    assert t[ne - off] == s[ne];
    LineGood(s, off, ne, vs, e);
    LineGood(t, 0, ne - off, vs - off, e - off);
    ParsedMoved(off, ne, vs, TrimEnd(s, vs, e), |t|, if e < |s| then e + 2 else |s|);
  }

  lemma CrlfInSlice(s: seq<byte>, a: nat, m: nat, k: nat)
    requires a <= k <= m <= |s| && forall j :: a <= j < m ==> !CrlfAt(s, j)
    ensures !CrlfAt(s[a..m], k - a)
  {
    if k + 1 < m {
      assert s[a..m][k - a] == s[k] && s[a..m][k - a + 1] == s[k + 1];
      assert !CrlfAt(s, k);
    }
  }

  /** When the value stops short of it. */
  lemma BadValueAlone(s: seq<byte>, off: nat, e: nat, ne: nat, vs: nat, end: nat)
    requires off < ne < vs <= end < e <= |s| && s[ne] == COLON && forall k :: off <= k < e ==> !CrlfAt(s, k)
    requires ne == FindFrom(ScanNonToken, s, off) && ne - off == FindFrom(ScanNonToken, s[off..e], 0)
    requires vs == FindFrom(ScanNonOws, s, ne + 1) && vs - off == FindFrom(ScanNonOws, s[off..e], ne + 1 - off)
    requires end == FindFrom(ScanNonFieldValue, s, vs) && end - off == FindFrom(ScanNonFieldValue, s[off..e], vs - off)
    ensures ParseLine(s, off) == ParseLine(s[off..e], 0) == Rejected(BadValue)
  {
    hide *;
    var t := s[off..e];
    assert t[ne - off] == s[ne];
    CrlfInSlice(s, off, e, end);
    LineBadValue(s, off, ne, vs, end);
    LineBadValue(t, 0, ne - off, vs - off, end - off);
  }

  lemma RejectedMoved(status: Status, d: nat, next: nat)
    ensures Moved(Rejected(status), d, next) == Rejected(status)
  {
  }

  lemma ValueAlone(s: seq<byte>, off: nat, e: nat, ne: nat)
    requires off < ne < e <= |s| && (e == |s| || CrlfAt(s, e)) && forall k :: off <= k < e ==> !CrlfAt(s, k)
    requires ne == FindFrom(ScanNonToken, s, off) && ne - off == FindFrom(ScanNonToken, s[off..e], 0) && s[ne] == COLON
    ensures ParseLine(s, off) == Moved(ParseLine(s[off..e], 0), off, if e < |s| then e + 2 else |s|)
    ensures ParseLine(s[off..e], 0).Parsed? ==> ParseLine(s[off..e], 0).next == e - off
  {
    assert e < |s| ==> s[e] == CR;
    hide *;
    var vs, end := ValueScans(s, off, e, ne + 1);
    if end < e {
      BadValueAlone(s, off, e, ne, vs, end);
      RejectedMoved(BadValue, off, if e < |s| then e + 2 else |s|);
    } else {
      TrimInSlice(s, off, e, vs, end);
      GoodValueAlone(s, off, e, ne, vs);
    }
  }

  lemma BadNameAlone(s: seq<byte>, off: nat, e: nat, ne: nat)
    requires off < e <= |s| && off <= ne <= e && (ne == off || ne == |s| || s[ne] != COLON)
    requires ne == FindFrom(ScanNonToken, s, off) && ne - off == FindFrom(ScanNonToken, s[off..e], 0)
    ensures ParseLine(s, off) == ParseLine(s[off..e], 0) == Rejected(BadName)
  {
    hide *;
    if ne < e {
      assert s[off..e][ne - off] == s[ne];
    }
    LineBadName(s, off, ne);
    LineBadName(s[off..e], 0, ne - off);
  }

  /** The same without the check for a folded line. */
  lemma NameAlone(s: seq<byte>, off: nat, e: nat)
    requires off < e <= |s| && (e == |s| || CrlfAt(s, e)) && forall k :: off <= k < e ==> !CrlfAt(s, k)
    ensures ParseLine(s, off) == Moved(ParseLine(s[off..e], 0), off, if e < |s| then e + 2 else |s|)
    ensures ParseLine(s[off..e], 0).Parsed? ==> ParseLine(s[off..e], 0).next == e - off
  {
    assert e < |s| ==> s[e] == CR;
    CrStops();
    hide *;
    FindInSlice(ScanNonToken, s, off, e, off);
    var ne := FindFrom(ScanNonToken, s, off);
    if off < ne < e && s[ne] == COLON {
      ValueAlone(s, off, e, ne);
    } else {
      BadNameAlone(s, off, e, ne);
      RejectedMoved(BadName, off, if e < |s| then e + 2 else |s|);
    }
  }

  /** A line of a block parses as it does on its own. */
  lemma LineAlone(s: seq<byte>, off: nat, e: nat)
    requires off < e <= |s| && (e == |s| || CrlfAt(s, e)) && forall k :: off <= k < e ==> !CrlfAt(s, k)
    ensures ParseFieldLine(s, off) == Moved(ParseFieldLine(s[off..e], 0), off, if e < |s| then e + 2 else |s|)
    ensures ParseFieldLine(s[off..e], 0).Parsed? ==> ParseFieldLine(s[off..e], 0).next == e - off
  {
    hide *;
    FieldLineIs(s, off);
    FieldLineIs(s[off..e], 0);
    RejectedMoved(BadValue, off, if e < |s| then e + 2 else |s|);
    NameAlone(s, off, e);
  }

  /** Status of the first line from i on that is refused when parsed on its own. */
  function LinesStatus(s: seq<byte>, i: nat): Status
    decreases |s| - i
  {
    var e := LineEnd(s, i);
    if e < 0 || e == i then Ok
    else
      LineEndIsFirstCrlf(s, i);
      var status := BlockStatus(s[i..e], 0);
      if status != Ok then status else LinesStatus(s, e + 2)
  }

  /** A walk that stops after the terminator is not at the terminator. */
  lemma WalkGoesOn(s: seq<byte>, i: nat, h: nat)
    requires i <= h && TerminatorAt(s, h) && LineWalk(s, i).1 == h + 2
    ensures i < h
  {
    hide LineEnd;
    if i == h {
      EmptyLine(s, h);
    }
  }

  lemma BlockEnd(b: seq<byte>)
    ensures BlockStatus(b, |b|) == Ok && BlockFields(b, |b|) == []
  {
  }

  lemma MovedSame(r: LineParse, d: nat, next: nat)
    ensures r.Parsed? ==> Moved(r, d, next).Parsed? && Moved(r, d, next).next == next
    ensures r.Rejected? ==> Moved(r, d, next) == r
  {
  }

  lemma NoCrlfBefore(s: seq<byte>, bs: nat, h: nat, i: nat, e: nat, k: nat)
    requires bs <= i < e <= h <= |s| && i - bs <= k < e - bs
    requires forall j :: i <= j < e ==> s[j] != LF
    requires e < |s| && s[e] == CR
    ensures !CrlfAt(s[bs..h], k)
  {
    if k + 1 < h - bs {
      assert s[bs..h][k + 1] == s[bs + k + 1];
    }
  }

  /** In the block the line is followed by its CRLF, unless it is the last. */
  lemma LineIsDelimited(s: seq<byte>, bs: nat, h: nat, i: nat, e: nat)
    requires bs <= i < e <= h && h + 2 <= |s| && CrlfAt(s, e) && CrlfAt(s, h)
    requires forall k :: i <= k < e ==> s[k] != LF
    ensures e < h ==> e + 2 <= h && CrlfAt(s[bs..h], e - bs)
    ensures forall k :: i - bs <= k < e - bs ==> !CrlfAt(s[bs..h], k)
  {
    var b := s[bs..h];
    if e < h {
      assert e + 1 != h;
      assert b[e - bs] == s[e] && b[e - bs + 1] == s[e + 1];
    }
    forall k | i - bs <= k < e - bs
      ensures !CrlfAt(b, k)
    {
      NoCrlfBefore(s, bs, h, i, e, k);
    }
  }

  lemma LineThen(b: seq<byte>, off: nat)
    requires off < |b|
    ensures var r := ParseFieldLine(b, off);
            && (r.Rejected? ==> BlockStatus(b, off) == r.status)
            && (r.Parsed? ==> BlockStatus(b, off) == BlockStatus(b, r.next)
                              && |BlockFields(b, off)| == 1 + |BlockFields(b, r.next)|)
  {
    hide ParseFieldLine;
  }

  /** One line of the block: refused as it is on its own, or one field and the rest. */
  lemma BlockLine(s: seq<byte>, bs: nat, h: nat, i: nat, e: nat)
    requires bs <= i < e <= h && h + 2 <= |s| && CrlfAt(s, e) && CrlfAt(s, h)
    requires forall k :: i <= k < e ==> s[k] != LF
    ensures var b, status := s[bs..h], BlockStatus(s[i..e], 0);
            var next := if e < h then e + 2 - bs else |b|;
            && (status != Ok ==> BlockStatus(b, i - bs) == status)
            && (status == Ok ==> BlockStatus(b, i - bs) == BlockStatus(b, next)
                                 && |BlockFields(b, i - bs)| == 1 + |BlockFields(b, next)|)
  {
    hide *;
    var b := s[bs..h];
    SliceOfSlice(s, bs, h, i - bs, e - bs);
    LineIsDelimited(s, bs, h, i, e);
    LineAlone(b, i - bs, e - bs);
    LineThen(b, i - bs);
    LineThen(s[i..e], 0);
    BlockEnd(s[i..e]);
    MovedSame(ParseFieldLine(s[i..e], 0), i - bs, if e - bs < |b| then e - bs + 2 else |b|);
  }

  /** The block from its position off on, against the lines of the walk from i = bs + off on. */
  lemma {:induction false} BlockByLines(s: seq<byte>, bs: nat, h: nat, i: nat)
    requires bs <= i < h && h + 2 <= |s| && LineWalk(s, i).1 == h + 2
    ensures var b := s[bs..h];
            && BlockStatus(b, i - bs) == LinesStatus(s, i)
            && (LinesStatus(s, i) == Ok ==> |BlockFields(b, i - bs)| == LineWalk(s, i).0)
    decreases |s| - i
  {
    hide LineEnd, BlockStatus, BlockFields;
    var e := LineEnd(s, i);
    LineEndIsFirstCrlf(s, i);
    WalkStops(s, i);
    WalkStops(s, e + 2);
    var b := s[bs..h];
    BlockLine(s, bs, h, i, e);
    if e == h {
      EmptyLine(s, h + 2);
      BlockEnd(b);
    } else {
      WalkGoesOn(s, e + 2, h);
      BlockByLines(s, bs, h, e + 2);
    }
  }

  lemma {:induction false} FirstCrlfIs(s: seq<byte>, i: nat, e: nat)
    requires i <= e && CrlfAt(s, e) && forall k :: i <= k < e ==> s[k] != LF
    ensures FirstCrlf(s, i) == e
    decreases e - i
  {
    if i < e {
      FirstCrlfIs(s, i + 1, e);
    }
  }

  /** The header block of a head that the line walk reaches the end of: it is refused with the status
    * of the first line that is refused on its own, and accepted with one field a line otherwise. */
  lemma BlockIsItsLines(s: seq<byte>)
    requires LineWalk(s, 0).0 > 0 && LineWalk(s, 0).1 >= 0
    ensures HeadEnd(s, 0) >= 0
    ensures var b, rest := BlockOf(s, HeadEnd(s, 0)), LineEnd(s, 0) + 2;
            && 2 <= rest
            && BlockStatus(b, 0) == LinesStatus(s, rest)
            && (BlockStatus(b, 0) == Ok ==> |BlockFields(b, 0)| == LineWalk(s, 0).0 - 1)
  {
    hide LineEnd, HeadEnd, BlockStatus, BlockFields;
    var e, h := LineEnd(s, 0), HeadEnd(s, 0);
    WalkIffTerminator(s);
    LineEndIsFirstCrlf(s, 0);
    WalkStops(s, 0);
    WalkStops(s, e + 2);
    FirstCrlfIs(s, 0, e);
    if e == h {
      EmptyLine(s, h + 2);
      BlockEnd([]);
    } else {
      WalkGoesOn(s, e + 2, h);
      BlockByLines(s, e + 2, h, e + 2);
    }
  }
}
