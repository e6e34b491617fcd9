/** HTTP/1.1 line splitting, head framing and the request line (RFC 9112 sections 2.2 and 3): each
  * operation in its scanner-driven form (`Kp`) and in its byte-at-a-time form (`Rp`).
  */
module Http1Lines {
  import opened Bytes
  import opened Http1Bytes

  // ---- Lines ----

  const NEED_MORE: int := -1
  const BARE_LF: int := -2

  /** The first LF decides: it ends the line when a CR of the same line precedes it, and is an error otherwise. */
  function LineEnd(s: seq<byte>, i: nat): int {
    var lf := FindFrom(ScanLf, s, i);
    if lf >= |s| then NEED_MORE
    else if lf > i && s[lf - 1] == CR then lf - 1
    else BARE_LF
  }

  /** No decision has been made before j: no LF in [i, j), and j is not the LF of a CRLF. */
  ghost predicate Undecided(s: seq<byte>, i: nat, j: nat) {
    && i <= j
    && (forall k :: i <= k < j && k < |s| ==> s[k] != LF)
    && (i < j < |s| && s[j - 1] == CR ==> s[j] != LF)
  }

  lemma DecidedByLf(s: seq<byte>, i: nat, lf: nat)
    requires i <= lf < |s| && s[lf] == LF
    requires forall k :: i <= k < lf ==> s[k] != LF
    ensures LineEnd(s, i) == if lf > i && s[lf - 1] == CR then lf - 1 else BARE_LF
  {
  }

  lemma UndecidedToTheEnd(s: seq<byte>, i: nat)
    requires forall k :: i <= k < |s| ==> s[k] != LF
    ensures LineEnd(s, i) == NEED_MORE
  {
  }

  method KpScanLine(p: array<byte>, i0: nat, avail: nat) returns (r: int)
    requires avail <= p.Length
    ensures r == LineEnd(p[..avail], i0)
  {
    hide LineEnd, FindFrom, IsTchar, IsFieldValueByte;
    ghost var s := p[..avail];
    var i := i0;
    if avail < 2 && i >= avail {
      UndecidedToTheEnd(s, i0);
      return NEED_MORE;
    }
    while i < avail
      invariant Undecided(s, i0, i)
    {
      var cr := Find(ScanCr, p, i, avail);
      var lf := Find(ScanLf, p, i, avail);
      if lf < cr {
        assert lf > i ==> !Stops(ScanCr, s[lf - 1]);
        DecidedByLf(s, i0, lf);
        return BARE_LF;
      }
      assert forall k :: i <= k < cr ==> !Stops(ScanLf, s[k]);
      if cr >= avail {
        UndecidedToTheEnd(s, i0);
        return NEED_MORE;
      }
      if cr + 1 >= avail {
        UndecidedToTheEnd(s, i0);
        return NEED_MORE;
      }
      if p[cr + 1] == LF {
        DecidedByLf(s, i0, cr + 1);
        return cr;
      }
      i := cr + 1;
    }
    UndecidedToTheEnd(s, i0);
    return NEED_MORE;
  }

  method RpScanLine(p: array<byte>, i: nat, avail: nat) returns (r: int)
    requires avail <= p.Length
    ensures r == LineEnd(p[..avail], i)
  {
    ghost var s := p[..avail];
    var j := i;
    while j < avail
      invariant Undecided(s, i, j)
    {
      if p[j] == LF {
        DecidedByLf(s, i, j);
        return BARE_LF;
      }
      if p[j] == CR {
        if j + 1 >= avail {
          UndecidedToTheEnd(s, i);
          return NEED_MORE;
        }
        if p[j + 1] == LF {
          DecidedByLf(s, i, j + 1);
          return j;
        }
      }
      j := j + 1;
    }
    UndecidedToTheEnd(s, i);
    return NEED_MORE;
  }

  /** Once a line has been delimited or refused, no byte that arrives later changes the answer. */
  lemma LineEndStable(s: seq<byte>, more: seq<byte>, i: nat)
    requires LineEnd(s, i) != NEED_MORE
    ensures LineEnd(s + more, i) == LineEnd(s, i)
  {
    var lf := FindFrom(ScanLf, s, i);
    assert forall k :: 0 <= k < |s| ==> (s + more)[k] == s[k];
    assert Stops(ScanLf, s[lf]);
    forall k | i <= k < lf
      ensures (s + more)[k] != LF
    {
      assert !Stops(ScanLf, s[k]);
    }
    DecidedByLf(s + more, i, lf);
  }

  /** A line end is the first CRLF, and no LF precedes it. */
  lemma LineEndIsFirstCrlf(s: seq<byte>, i: nat)
    requires LineEnd(s, i) >= 0
    ensures var j := LineEnd(s, i);
            && i <= j && j + 1 < |s| && s[j] == CR && s[j + 1] == LF
            && forall k :: i <= k < j ==> s[k] != LF
  {
  }

  // ---- Head framing ----

  predicate TerminatorAt(s: seq<byte>, h: nat) {
    h + 4 <= |s| && s[h] == CR && s[h + 1] == LF && s[h + 2] == CR && s[h + 3] == LF
  }

  /** Index of the first CR LF CR LF at or after from, or -1. */
  function HeadEnd(s: seq<byte>, from: nat): (r: int)
    ensures -1 <= r
    ensures r >= 0 ==> from <= r && TerminatorAt(s, r)
    ensures forall k :: from <= k && (r == -1 || k < r) ==> !TerminatorAt(s, k)
    decreases |s| - from
  {
    if from + 4 > |s| then -1 else if TerminatorAt(s, from) then from else HeadEnd(s, from + 1)
  }

  lemma HeadEndIs(s: seq<byte>, from: nat, r: int)
    requires -1 <= r
    requires r >= 0 ==> from <= r && TerminatorAt(s, r)
    requires forall k :: from <= k && (r == -1 || k < r) ==> !TerminatorAt(s, k)
    ensures HeadEnd(s, from) == r
  {
  }

  method KpFindHeadEnd(p: array<byte>, from: nat, avail: nat) returns (r: int)
    requires avail <= p.Length
    ensures r == HeadEnd(p[..avail], from)
  {
    ghost var s := p[..avail];
    if avail < 4 {
      return -1;
    }
    var off := from;
    while off + 4 <= avail
      invariant from <= off
      invariant forall k :: from <= k < off ==> !TerminatorAt(s, k)
    {
      var cr := Find(ScanCr, p, off, avail);
      forall k | off <= k < cr
        ensures !TerminatorAt(s, k)
      {
        assert !Stops(ScanCr, s[k]);
      }
      if cr + 4 > avail {
        HeadEndIs(s, from, -1);
        return -1;
      }
      if p[cr + 1] == LF && p[cr + 2] == CR && p[cr + 3] == LF {
        HeadEndIs(s, from, cr);
        return cr;
      }
      off := cr + 1;
    }
    HeadEndIs(s, from, -1);
    return -1;
  }

  method RpFindHeadEnd(p: array<byte>, from: nat, avail: nat) returns (r: int)
    requires avail <= p.Length
    ensures r == HeadEnd(p[..avail], from)
  {
    ghost var s := p[..avail];
    var i := from;
    while i + 4 <= avail
      invariant from <= i
      invariant forall k :: from <= k < i ==> !TerminatorAt(s, k)
    {
      if p[i] == CR && p[i + 1] == LF && p[i + 2] == CR && p[i + 3] == LF {
        HeadEndIs(s, from, i);
        return i;
      }
      i := i + 1;
    }
    HeadEndIs(s, from, -1);
    return -1;
  }

  /** Bytes that arrive after the terminator do not move it. */
  lemma HeadEndStable(s: seq<byte>, more: seq<byte>, from: nat)
    requires HeadEnd(s, from) >= 0
    ensures HeadEnd(s + more, from) == HeadEnd(s, from)
  {
    var h := HeadEnd(s, from);
    forall k | from <= k < h
      ensures !TerminatorAt(s + more, k)
    {
      assert !TerminatorAt(s, k);
    }
    HeadEndIs(s + more, from, h);
  }

  /** After a miss, backing up three bytes from the old end loses nothing. */
  lemma ResumeAfterMiss(s: seq<byte>, more: seq<byte>)
    requires HeadEnd(s, 0) == -1
    ensures HeadEnd(s + more, if |s| > 3 then |s| - 3 else 0) == HeadEnd(s + more, 0)
  {
    var from := if |s| > 3 then |s| - 3 else 0;
    var r := HeadEnd(s + more, from);
    forall k | 0 <= k < from
      ensures !TerminatorAt(s + more, k)
    {
      assert !TerminatorAt(s, k);
    }
    HeadEndIs(s + more, 0, r);
  }

  // ---- Request line ----

  datatype ReqLine = BadReqLine | ReqLine(methEnd: nat, tgtS: nat, tgtE: nat, verS: nat)

  /** method SP target SP version, with a token for the method and no space in the target. */
  ghost predicate IsReqLine(s: seq<byte>, r: ReqLine) {
    && r.ReqLine?
    && 0 < r.methEnd < |s| && (forall k :: 0 <= k < r.methEnd ==> IsTchar(s[k])) && s[r.methEnd] == SP
    && r.tgtS == r.methEnd + 1
    && r.tgtS < r.tgtE < |s| && (forall k :: r.tgtS <= k < r.tgtE ==> s[k] != SP) && s[r.tgtE] == SP
    && r.verS == r.tgtE + 1
  }

  /** A line can be split in at most one way. */
  lemma ReqLineUnique(s: seq<byte>, q: ReqLine, r: ReqLine)
    requires IsReqLine(s, q) && IsReqLine(s, r)
    ensures q == r
  {
  }

  lemma MethodEnd(s: seq<byte>, q: ReqLine)
    requires IsReqLine(s, q)
    ensures q.methEnd == FindFrom(ScanNonToken, s, 0)
  {
  }

  /** r is the split of the line, or the line has none. */
  ghost predicate DecidesReqLine(s: seq<byte>, r: ReqLine) {
    if r.ReqLine? then IsReqLine(s, r) else forall q :: !IsReqLine(s, q)
  }

  /** The two ways to fail: no token followed by a space, or no non-empty target followed by a space. */
  lemma NoReqLine(s: seq<byte>, me: nat, te: nat)
    requires me == FindFrom(ScanNonToken, s, 0)
    requires || me == 0 || me >= |s| || s[me] != SP
             || (&& me < te <= |s| && (forall k :: me < k < te ==> s[k] != SP)
                 && (te == |s| || (te == me + 1 && s[te] == SP)))
    ensures forall q :: !IsReqLine(s, q)
  {
    forall q | IsReqLine(s, q)
      ensures false
    {
      MethodEnd(s, q);
    }
  }

  method KpRequestLine(p: array<byte>, len: nat) returns (r: ReqLine)
    requires len <= p.Length
    ensures DecidesReqLine(p[..len], r)
  {
    hide FindFrom, IsTchar;
    ghost var s := p[..len];
    var me := Find(ScanNonToken, p, 0, len);
    if me == 0 || me >= len || p[me] != SP {
      NoReqLine(s, me, 0);
      return BadReqLine;
    }
    assert forall k :: 0 <= k < me ==> !Stops(ScanNonToken, s[k]);
    var ts := me + 1;
    var te := ts;
    while te < len && p[te] != SP
      invariant ts <= te <= len
      invariant forall k :: ts <= k < te ==> s[k] != SP
    {
      te := te + 1;
    }
    if te >= len || te == ts {
      NoReqLine(s, me, te);
      return BadReqLine;
    }
    return ReqLine(me, ts, te, te + 1);
  }

  method RpRequestLine(p: array<byte>, len: nat) returns (r: ReqLine)
    requires len <= p.Length
    ensures DecidesReqLine(p[..len], r)
  {
    hide FindFrom, IsTchar;
    ghost var s := p[..len];
    var i := 0;
    while i < len && IsTchar(p[i])
      invariant 0 <= i <= len
      invariant forall k :: 0 <= k < i ==> IsTchar(s[k])
    {
      i := i + 1;
    }
    FindIs(ScanNonToken, s, 0, i);
    if i == 0 || i == len || p[i] != SP {
      NoReqLine(s, i, 0);
      return BadReqLine;
    }
    var ts := i + 1;
    var te := ts;
    while te < len && p[te] != SP
      invariant ts <= te <= len
      invariant forall k :: ts <= k < te ==> s[k] != SP
    {
      te := te + 1;
    }
    if te == len || te == ts {
      NoReqLine(s, i, te);
      return BadReqLine;
    }
    return ReqLine(i, ts, te, te + 1);
  }
}
