/** The differential driver: runs one buffer through both head implementations and reports the first
  * disagreement. Its postconditions say that no input gives it anything to report.
  */
module Http1HeadDiff {
  import opened Bytes
  import opened Http1Bytes
  import opened Http1Lines
  import opened Http1Headers
  import opened Http1HeadWalk

  datatype Verdict = Agree | Disagree(what: string)

  /** Copies buf[off .. off + len) into a fresh exact-size buffer. */
  method Duplicate(buf: array<byte>, off: nat, len: nat) returns (copy: array<byte>)
    requires off + len <= buf.Length
    ensures fresh(copy) && copy.Length == len && copy[..] == buf[off..off + len]
  {
    copy := new byte[len](i requires 0 <= i < len reads buf => buf[off + i]);
  }

  /** The comparison of two parser outputs: fields count only when both were accepted. */
  method FieldsEqual(a: Fields, b: Fields) returns (equal: bool)
    requires a.f.Length == b.f.Length == MAX_FIELDS
    ensures equal <==>
            && a.status == b.status && a.nfields == b.nfields
            && (a.status == Ok ==> forall k :: 0 <= k < a.nfields && k < 256 ==> a.f[k] == b.f[k])
  {
    if a.status != b.status || a.nfields != b.nfields {
      return false;
    }
    if a.status != Ok {
      return true;
    }
    var n := if a.nfields < MAX_FIELDS then a.nfields else MAX_FIELDS;
    var k := 0;
    while k < n
      invariant 0 <= k <= n
      invariant forall j :: 0 <= j < k ==> a.f[j] == b.f[j]
    {
      if a.f[k] != b.f[k] {
        return false;
      }
      k := k + 1;
    }
    return true;
  }

  lemma LowerAllIdempotent(s: seq<byte>)
    ensures LowerAll(LowerAll(s)) == LowerAll(s)
  {
  }

  /** Checks one accepted field of raw, and its name in the buffer kb that was parsed. */
  method DiffField(raw: seq<byte>, kb: seq<byte>, f: Field, lower: bool) returns (v: Verdict)
    requires |kb| == |raw| && FieldWellFormed(raw, f)
    requires lower ==> kb[f.ns..f.ne] == LowerAll(raw[f.ns..f.ne])
    ensures v == Agree
  {
    hide FindFrom, IsTchar, IsFieldValueByte, Stops;
    var wellFormed := CheckFieldWellFormed(raw, f);
    if !wellFormed {
      return Disagree("accepted field is not well formed");
    }
    if lower {
      var nl := f.ne - f.ns;
      var j := 0;
      while j < nl
        invariant 0 <= j <= nl
      {
        assert kb[f.ns + j] == kb[f.ns..f.ne][j] == LowerAll(raw[f.ns..f.ne])[j];
        if kb[f.ns + j] != Lower(raw[f.ns + j]) {
          return Disagree("name not lowercased");
        }
        j := j + 1;
      }
      LowerAllIdempotent(raw[f.ns..f.ne]);
      var ieq := EqualIgnoringCase(raw[f.ns..f.ne], kb[f.ns..f.ne]);
      if !ieq {
        return Disagree("ieq(name, lower(name)) == 0");
      }
    }
    return Agree;
  }

  lemma FirstFieldAtStart(raw: seq<byte>)
    ensures BlockFields(raw, 0) != [] ==> BlockFields(raw, 0)[0].ns == 0
  {
  }

  /** What the driver relies on about the fields of a block it has parsed. */
  lemma FieldsOfBlock(raw: seq<byte>, lower: bool)
    ensures forall f <- BlockFields(raw, 0) :: FieldWellFormed(raw, f) && f.ns <= f.ne <= |raw| &&
              (lower ==> FinalBytes(raw, lower)[f.ns..f.ne] == LowerAll(raw[f.ns..f.ne]))
    ensures BlockFields(raw, 0) != [] ==> BlockFields(raw, 0)[0].ns == 0
  {
    AcceptedFieldsWellFormed(raw, 0);
    LoweredNames(raw, 0);
    FirstFieldAtStart(raw);
    hide BlockFields, FieldWellFormed, LoweredFrom;
  }

  /** Checks the fields of an accepted block. */
  method DiffFields(raw: seq<byte>, kb: seq<byte>, kf: Fields, lower: bool) returns (v: Verdict)
    requires kf.Holds(Ok, BlockFields(raw, 0)) && kb == FinalBytes(raw, lower)
    ensures v == Agree
  {
    hide BlockStatus, BlockFields, FinalBytes, FieldWellFormed, LowerAll;
    FieldsOfBlock(raw, lower);
    ghost var fields := BlockFields(raw, 0);
    var n := if kf.nfields < MAX_FIELDS then kf.nfields else MAX_FIELDS;
    var k := 0;
    while k < n
      invariant 0 <= k <= n
    {
      assert kf.f[k] == fields[k] && fields[k] in fields;
      v := DiffField(raw, kb, kf.f[k], lower);
      if v != Agree {
        return v;
      }
      k := k + 1;
    }
    if n == kf.nfields && n > 0 && kf.f[0].ns != 0 {
      return Disagree("first field not at block start");
    }
    return Agree;
  }

  /** Runs both parsers on copies of buf[off .. off + len). */
  method ParseBoth(buf: array<byte>, off: nat, len: nat, lower: bool)
    returns (kb: array<byte>, rb: array<byte>, kf: Fields, rf: Fields)
    requires off + len <= buf.Length
    ensures var raw := buf[off..off + len];
            && kb[..] == FinalBytes(raw, lower) && rb[..] == FinalBytes(raw, lower)
            && kf.Holds(BlockStatus(raw, 0), BlockFields(raw, 0)) && rf.Holds(BlockStatus(raw, 0), BlockFields(raw, 0))
  {
    hide BlockStatus, BlockFields, FinalBytes;
    ghost var raw := buf[off..off + len];
    kb := Duplicate(buf, off, len);
    rb := Duplicate(buf, off, len);
    kf := new Fields();
    rf := new Fields();
    assert kb[..len] == kb[..] == raw && rb[..len] == rb[..] == raw;
    KpHeaderBlock(kb, len, lower, kf);
    RpHeaderBlock(rb, len, lower, rf);
    assert kb[..len] == kb[..] && rb[..len] == rb[..];
  }

  /** One case mode of the block comparison. */
  method DiffBlockIn(buf: array<byte>, off: nat, len: nat, lower: bool)
    returns (v: Verdict, status: Status, nfields: nat)
    requires off + len <= buf.Length
    ensures v == Agree
    ensures status == BlockStatus(buf[off..off + len], 0)
    ensures nfields == |BlockFields(buf[off..off + len], 0)|
  {
    hide BlockStatus, BlockFields, FinalBytes, FieldWellFormed, LowerAll;
    var raw := buf[off..off + len];
    var kb, rb, kf, rf := ParseBoth(buf, off, len, lower);
    status, nfields := kf.status, kf.nfields;
    var equal := FieldsEqual(kf, rf);
    if !equal {
      return Disagree("header block: kernel and reference disagree"), status, nfields;
    }
    if kb[..] != rb[..] {
      return Disagree("header block: lowered bytes differ"), status, nfields;
    }
    if kf.status == Ok {
      v := DiffFields(raw, kb[..], kf, lower);
      return v, status, nfields;
    }
    return Agree, status, nfields;
  }

  /** Parses buf[off .. off + len) as a header block both ways, in both case modes; the result is
    * that of the mode that leaves names alone. */
  method DiffBlock(buf: array<byte>, off: nat, len: nat) returns (v: Verdict, status: Status, nfields: nat)
    requires off + len <= buf.Length
    ensures v == Agree
    ensures status == BlockStatus(buf[off..off + len], 0)
    ensures nfields == |BlockFields(buf[off..off + len], 0)|
  {
    v, status, nfields := DiffBlockIn(buf, off, len, false);
    if v != Agree {
      return;
    }
    var lowerStatus, lowerFields;
    v, lowerStatus, lowerFields := DiffBlockIn(buf, off, len, true);
  }

  // ---- Whole heads ----

  /** -1 in the source stands for a part of the head that was not reached. */
  datatype Part<T> = Absent | Present(value: T)

  datatype Summary = Summary(headEnd: int, lines: nat, lineStop: int,
                             reqLine: Part<ReqLine>, blkStatus: Part<Status>, blkFields: nat)

  lemma SameReqLine(s: seq<byte>, a: ReqLine, b: ReqLine)
    requires DecidesReqLine(s, a) && DecidesReqLine(s, b)
    ensures a == b
  {
  }

  /** Line splitting, with a field parse of every line after the first. */
  method DiffLines(buf: array<byte>, len: nat) returns (v: Verdict, firstLineEnd: int, lines: nat, lineStop: int)
    requires len <= buf.Length
    ensures v == Agree
    ensures LineEnd(buf[..len], 0) >= 0 ==> firstLineEnd == LineEnd(buf[..len], 0)
    ensures LineEnd(buf[..len], 0) < 0 ==> firstLineEnd == -1
    ensures (lines, lineStop) == LineWalk(buf[..len], 0)
  {
    hide LineEnd, BlockStatus, BlockFields;
    ghost var s := buf[..len];
    v, firstLineEnd, lines, lineStop := Agree, -1, 0, 0;
    var i := 0;
    while true
      invariant i <= len + 1
      invariant v == Agree
      invariant LineWalk(s, 0) == (lines + LineWalk(s, i).0, LineWalk(s, i).1)
      invariant if i == 0 then firstLineEnd == -1 else firstLineEnd == LineEnd(s, 0) >= 0
      decreases len + 1 - i
    {
      var lk := KpScanLine(buf, i, len);
      var lr := RpScanLine(buf, i, len);
      if lk != lr {
        return Disagree("line scan differs"), firstLineEnd, lines, lineStop;
      }
      if lk < 0 {
        lineStop := lk;
        break;
      }
      LineEndIsFirstCrlf(s, i);
      if firstLineEnd < 0 {
        firstLineEnd := lk;
      }
      if lk == i {
        lineStop := lk;
        break;
      }
      lines := lines + 1;
      if i > 0 {
        var status, nfields;
        v, status, nfields := DiffBlock(buf, i, lk - i);
      }
      i := lk + 2;
    }
  }

  lemma BlockSlice(t: seq<byte>, len: nat, hk: nat, sl: nat, bs: nat)
    requires hk <= len <= |t| && FirstCrlf(t[..len], 0) == sl
    requires bs == if sl + 2 <= hk then sl + 2 else hk
    ensures t[bs..bs + (hk - bs)] == BlockOf(t[..len], hk)
  {
    hide FirstCrlf;
    SliceOfSlice(t, 0, len, bs, hk);
    assert t[0..len] == t[..len];
  }

  /** The block between the first CRLF and the CRLFCRLF at hk. */
  method DiffHeadBlock(buf: array<byte>, len: nat, hk: nat) returns (v: Verdict, status: Status, nfields: nat)
    requires len <= buf.Length && TerminatorAt(buf[..len], hk)
    ensures v == Agree
    ensures status == BlockStatus(BlockOf(buf[..len], hk), 0)
    ensures nfields == |BlockFields(BlockOf(buf[..len], hk), 0)|
  {
    hide BlockStatus, BlockFields;
    ghost var s := buf[..len];
    var sl := 0;
    while !(buf[sl] == CR && buf[sl + 1] == LF)
      invariant sl <= hk
      invariant FirstCrlf(s, 0) == FirstCrlf(s, sl)
      decreases hk - sl
    {
      sl := sl + 1;
    }
    assert FirstCrlf(s, sl) == sl;
    assert s == buf[..][..len];
    var bs := if sl + 2 <= hk then sl + 2 else hk;
    BlockSlice(buf[..], len, hk, sl, bs);
    v, status, nfields := DiffBlock(buf, bs, hk - bs);
  }

  method DiffHead(buf: array<byte>, len: nat) returns (v: Verdict, sum: Summary)
    requires len <= buf.Length
    ensures v == Agree
    ensures var s := buf[..len];
            && sum.headEnd == HeadEnd(s, 0)
            && (sum.lines, sum.lineStop) == LineWalk(s, 0)
            && (sum.reqLine.Present? <==> LineEnd(s, 0) >= 0)
            && (sum.reqLine.Present? ==> DecidesReqLine(s[..LineEnd(s, 0)], sum.reqLine.value))
            && (sum.blkStatus.Present? <==> HeadEnd(s, 0) >= 0)
            && (sum.blkStatus.Present? ==>
                  && sum.blkStatus.value == BlockStatus(BlockOf(s, HeadEnd(s, 0)), 0)
                  && sum.blkFields == |BlockFields(BlockOf(s, HeadEnd(s, 0)), 0)|)
            && (sum.blkStatus.Absent? ==> sum.blkFields == 0)
  {
    hide LineEnd, HeadEnd, IsReqLine, BlockStatus, BlockFields, BlockOf, LineWalk;
    sum := Summary(-1, 0, 0, Absent, Absent, 0);
    v := Agree;
    ghost var s := buf[..len];

    var hk := KpFindHeadEnd(buf, 0, len);
    var hr := RpFindHeadEnd(buf, 0, len);
    if hk != hr {
      return Disagree("head end differs"), sum;
    }
    sum := sum.(headEnd := hk);
    if hk >= 0 {
      var from := if hk > 3 then hk - 3 else 0;
      var again := KpFindHeadEnd(buf, from, len);
      HeadEndIs(s, from, hk);
      if again != hk {
        return Disagree("resumed head end differs"), sum;
      }
    }

    var firstLineEnd, lines, lineStop;
    v, firstLineEnd, lines, lineStop := DiffLines(buf, len);
    sum := sum.(lines := lines, lineStop := lineStop);

    if firstLineEnd >= 0 {
      LineEndIsFirstCrlf(s, 0);
      var line := Duplicate(buf, 0, firstLineEnd);
      var a := KpRequestLine(line, firstLineEnd);
      var b := RpRequestLine(line, firstLineEnd);
      assert line[..firstLineEnd] == line[..] == s[..firstLineEnd];
      SameReqLine(s[..firstLineEnd], a, b);
      if a != b {
        return Disagree("request line differs"), sum;
      }
      sum := sum.(reqLine := Present(a));
    }

    if hk >= 0 {
      var status, nfields;
      v, status, nfields := DiffHeadBlock(buf, len, hk);
      sum := sum.(blkStatus := Present(status), blkFields := nfields);
    }
  }
}
