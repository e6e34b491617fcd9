/** Variable-length string columns: a data buffer cut into rows by an offsets array. */
module Columns {
  import opened Bytes
  import opened Utf8

  // ---- Offsets ----

  ghost predicate Monotone(offs: seq<int64>) {
    forall i :: 1 <= i < |offs| ==> offs[i - 1] <= offs[i]
  }

  /** What the offsets validator promises: empty, or non-negative, never decreasing and within the limit. */
  ghost predicate ValidOffsets(offs: seq<int64>, limit: int) {
    offs == [] || (0 <= offs[0] && Monotone(offs) && offs[|offs| - 1] <= limit)
  }

  lemma {:induction false} OffsetsOrdered(offs: seq<int64>, i: nat, j: nat)
    requires Monotone(offs) && i <= j < |offs|
    ensures offs[i] <= offs[j]
    decreases j - i
  {
    if i < j {
      OffsetsOrdered(offs, i, j - 1);
    }
  }

  /** offs[i] is the first element that breaks the rules. */
  ghost predicate FirstBadOffset(offs: seq<int64>, limit: int, i: int) {
    0 <= i < |offs| &&
    if i == 0 && offs[0] < 0 then true
    else 0 <= offs[0] && Monotone(offs[..i]) &&
         if 0 < i && offs[i] < offs[i - 1] then true
         else Monotone(offs) && i == |offs| - 1 && offs[i] > limit
  }

  /** The first offset that breaks the rules: valid offsets have none, the others at most one, and unless it
    * is the last one the limit has nothing to do with it. */
  lemma FirstBadOffsetIs(offs: seq<int64>, limit: int, i: int, j: int)
    requires FirstBadOffset(offs, limit, i)
    ensures 0 <= i < |offs| && !ValidOffsets(offs, limit)
    ensures i < |offs| - 1 ==> !ValidOffsets(offs[..i + 1], INT64_MAX)
    ensures FirstBadOffset(offs, limit, j) ==> i == j
  {
  }

  method CheckOffsets(v: seq<int64>, limit: int64) returns (r: int)
    ensures r == -1 <==> ValidOffsets(v, limit)
    ensures r != -1 ==> FirstBadOffset(v, limit, r)
  {
    var n := |v|;
    if n == 0 {
      return -1;
    }
    if v[0] < 0 {
      return 0;
    }
    var i := 1;
    while i < n
      invariant 1 <= i <= n
      invariant forall k :: 1 <= k < i ==> v[k - 1] <= v[k]
    {
      if v[i] < v[i - 1] {
        return i;
      }
      i := i + 1;
    }
    return if v[n - 1] > limit then n - 1 else -1;
  }

  /** An offset strictly inside the data that points at a continuation byte. */
  predicate InsideCodePoint(off: int64, data: seq<byte>) {
    0 <= off < |data| && IsContinuation(data[off])
  }

  /** No offset lies inside a code point. */
  ghost predicate OnBoundaries(offs: seq<int64>, data: seq<byte>) {
    forall i :: 0 <= i < |offs| ==> !InsideCodePoint(offs[i], data)
  }

  method CheckBoundaries(v: seq<int64>, data: seq<byte>) returns (r: int)
    ensures r == -1 <==> OnBoundaries(v, data)
    ensures r != -1 ==> 0 <= r < |v| && InsideCodePoint(v[r], data)
                        && forall i :: 0 <= i < r ==> !InsideCodePoint(v[i], data)
  {
    var i := 0;
    while i < |v|
      invariant 0 <= i <= |v|
      invariant forall k :: 0 <= k < i ==> !InsideCodePoint(v[k], data)
    {
      if v[i] >= 0 && v[i] < |data| && data[v[i]] / 64 == 2 {
        return i;
      }
      i := i + 1;
    }
    return -1;
  }

  // ---- Rows ----

  function Rows(offs: seq<int64>): nat {
    if offs == [] then 0 else |offs| - 1
  }

  ghost function Row(offs: seq<int64>, data: seq<byte>, i: nat): (row: seq<byte>)
    requires ValidOffsets(offs, |data|) && i < Rows(offs)
    ensures |row| == offs[i + 1] as int - offs[i] as int
  {
    OffsetsOrdered(offs, 0, i);
    OffsetsOrdered(offs, i + 1, |offs| - 1);
    data[offs[i]..offs[i + 1]]
  }

  ghost predicate AllRowsWellFormed(offs: seq<int64>, data: seq<byte>)
    requires ValidOffsets(offs, |data|)
  {
    forall i :: 0 <= i < Rows(offs) ==> WellFormed(Row(offs, data, i))
  }

  /** The bytes between row i and row j. */
  ghost function Span(offs: seq<int64>, data: seq<byte>, i: nat, j: nat): (s: seq<byte>)
    requires ValidOffsets(offs, |data|) && i <= j < |offs|
    ensures |s| + offs[i] == offs[j]
  {
    OffsetsOrdered(offs, 0, i);
    OffsetsOrdered(offs, i, j);
    OffsetsOrdered(offs, j, |offs| - 1);
    data[offs[i]..offs[j]]
  }

  /** A span as a slice of the data. */
  lemma SpanIs(offs: seq<int64>, data: seq<byte>, i: nat, j: nat)
    requires ValidOffsets(offs, |data|) && i <= j < |offs|
    ensures 0 <= offs[i] <= offs[j] <= |data| && Span(offs, data, i, j) == data[offs[i]..offs[j]]
    ensures j == i + 1 ==> Row(offs, data, i) == Span(offs, data, i, j)
  {
    OffsetsOrdered(offs, 0, i);
    OffsetsOrdered(offs, i, j);
    OffsetsOrdered(offs, j, |offs| - 1);
  }

  lemma SpanSplits(offs: seq<int64>, data: seq<byte>, i: nat, j: nat, k: nat)
    requires ValidOffsets(offs, |data|) && i <= j <= k < |offs|
    ensures Span(offs, data, i, k) == Span(offs, data, i, j) + Span(offs, data, j, k)
    ensures 0 <= offs[i] <= offs[j] <= offs[k] <= |data|
  {
    hide *;
    SpanIs(offs, data, i, j);
    SpanIs(offs, data, j, k);
    SpanIs(offs, data, i, k);
    assert data[offs[i]..offs[k]] == data[offs[i]..offs[j]] + data[offs[j]..offs[k]];
  }

  /** Well-formed rows make a well-formed span. */
  lemma {:induction false} SpanOfRows(offs: seq<int64>, data: seq<byte>, i: nat, j: nat)
    requires ValidOffsets(offs, |data|) && i <= j < |offs| && AllRowsWellFormed(offs, data)
    ensures WellFormed(Span(offs, data, i, j))
    decreases j - i
  {
    if i == j {
      SpanIs(offs, data, i, j);
      WellFormedEmpty();
    } else {
      assert WellFormed(Row(offs, data, j - 1));
      hide *;
      SpanOfRows(offs, data, i, j - 1);
      SpanIs(offs, data, j - 1, j);
      SpanSplits(offs, data, i, j - 1, j);
      WellFormedConcat(Span(offs, data, i, j - 1), Row(offs, data, j - 1));
    }
  }

  /** Soundness of the boundary check: if a span is well-formed and no offset lies inside a code
    * point, every shorter span that starts with it is well-formed, and so is what remains. */
  lemma SpanCut(offs: seq<int64>, data: seq<byte>, i: nat, j: nat, k: nat)
    requires ValidOffsets(offs, |data|) && i <= j <= k < |offs|
    requires WellFormed(Span(offs, data, i, k)) && !InsideCodePoint(offs[j], data)
    ensures WellFormed(Span(offs, data, i, j)) && WellFormed(Span(offs, data, j, k))
  {
    var a, b := Span(offs, data, i, j), Span(offs, data, j, k);
    SpanSplits(offs, data, i, j, k);
    if b != [] {
      assert b[0] == data[offs[j]];
    }
    CutPoints(a, b);
  }

  lemma RowsSafe(offs: seq<int64>, data: seq<byte>)
    requires offs != [] && ValidOffsets(offs, |data|)
    requires WellFormed(Span(offs, data, 0, |offs| - 1))
    requires OnBoundaries(offs, data)
    ensures AllRowsWellFormed(offs, data)
  {
    forall i | 0 <= i < Rows(offs)
      ensures WellFormed(Row(offs, data, i))
    {
      SpanCut(offs, data, 0, i, |offs| - 1);
      SpanCut(offs, data, i, i + 1, |offs| - 1);
      assert Span(offs, data, i, i + 1) == Row(offs, data, i);
    }
  }

  /** Completeness: with well-formed rows, only an offset equal to the last one can lie inside a code point. */
  lemma RowStartsAreBoundaries(offs: seq<int64>, data: seq<byte>, i: nat)
    requires offs != [] && ValidOffsets(offs, |data|) && AllRowsWellFormed(offs, data)
    requires i < |offs| && offs[i] < offs[|offs| - 1]
    ensures !InsideCodePoint(offs[i], data)
  {
    SpanOfRows(offs, data, i, |offs| - 1);
    var s := Span(offs, data, i, |offs| - 1);
    StartsCodePoint(s);
    OffsetsOrdered(offs, 0, i);
    assert s[0] == data[offs[i]];
  }

  /** The three checks as the column constructor runs them: offsets against the data length, UTF-8
    * over the referenced range only, then character boundaries over the whole data. */
  method AcceptsUtf8Column(offs: seq<int64>, data: seq<byte>) returns (ok: bool)
    requires |data| <= INT64_MAX
    ensures ok <==> offs != [] && ValidOffsets(offs, |data|) && AllRowsWellFormed(offs, data)
                    && !InsideCodePoint(offs[|offs| - 1], data)
  {
    if |offs| == 0 {
      return false;
    }
    var bad := CheckOffsets(offs, |data|);
    if bad >= 0 {
      return false;
    }
    var last := |offs| - 1;
    OffsetsOrdered(offs, 0, last);
    assert Span(offs, data, 0, last) == data[offs[0]..offs[last]];
    var utf8 := ValidByRanges(data[offs[0]..offs[last]]);
    if !utf8 {
      if AllRowsWellFormed(offs, data) {
        SpanOfRows(offs, data, 0, last);
      }
      return false;
    }
    bad := CheckBoundaries(offs, data);
    if bad < 0 {
      RowsSafe(offs, data);
      return true;
    }
    if AllRowsWellFormed(offs, data) {
      OffsetsOrdered(offs, bad, last);
      if offs[bad] < offs[last] {
        RowStartsAreBoundaries(offs, data, bad);
      }
    }
    return false;
  }

  /** The last conjunct above is not implied by the rest: a column whose rows are all well-formed is
    * turned away when the unreferenced byte just past its last row is a continuation byte. */
  lemma TrailingGarbageIsRejected()
    ensures var offs: seq<int64>, data: seq<byte> := [0, 1], [0x41, 0x80];
            ValidOffsets(offs, |data|) && AllRowsWellFormed(offs, data) && InsideCodePoint(offs[1], data)
  {
    var offs: seq<int64>, data: seq<byte> := [0, 1], [0x41, 0x80];
    assert Row(offs, data, 0) == [0x41];
    WellFormedHead([0x41]);
    assert [0x41][1..] == [];
    WellFormedEmpty();
  }

  /** Well-formed data is what precedes the rows, the rows, and what follows them. */
  lemma DataSplits(offs: seq<int64>, data: seq<byte>)
    requires offs != [] && ValidOffsets(offs, |data|)
    ensures var last := |offs| - 1;
            && 0 <= offs[0] <= offs[last] <= |data|
            && data == data[..offs[0]] + (Span(offs, data, 0, last) + data[offs[last]..])
            && (offs[0] < offs[last] ==> Span(offs, data, 0, last) != [])
  {
    OffsetsOrdered(offs, 0, |offs| - 1);
  }

  lemma BoundariesMakeRows(offs: seq<int64>, data: seq<byte>)
    requires offs != [] && ValidOffsets(offs, |data|) && WellFormed(data) && OnBoundaries(offs, data)
    ensures AllRowsWellFormed(offs, data)
  {
    var last := |offs| - 1;
    DataSplits(offs, data);
    var before, span, after := data[..offs[0]], Span(offs, data, 0, last), data[offs[last]..];
    assert !InsideCodePoint(offs[0], data) && !InsideCodePoint(offs[last], data);
    hide WellFormed, ValidOffsets, Span;
    assert offs[0] < |data| ==> (span + after)[0] == data[offs[0]];
    CutPoints(before, span + after);
    assert offs[last] < |data| ==> after[0] == data[offs[last]];
    CutPoints(span, after);
    RowsSafe(offs, data);
  }

  /** What follows well-formed rows in well-formed data starts a code point. */
  lemma RowsEndOnBoundary(offs: seq<int64>, data: seq<byte>)
    requires offs != [] && ValidOffsets(offs, |data|) && WellFormed(data) && AllRowsWellFormed(offs, data)
    requires offs[0] < offs[|offs| - 1]
    ensures !InsideCodePoint(offs[|offs| - 1], data)
  {
    var last := |offs| - 1;
    DataSplits(offs, data);
    var before, span, after := data[..offs[0]], Span(offs, data, 0, last), data[offs[last]..];
    SpanOfRows(offs, data, 0, last);
    RowStartsAreBoundaries(offs, data, 0);
    hide WellFormed, ValidOffsets, AllRowsWellFormed, Span;
    assert (span + after)[0] == data[offs[0]];
    CutPoints(before, span + after);
    WellFormedCancel(span, after);
    StartsCodePoint(after);
    assert offs[last] < |data| ==> after[0] == data[offs[last]];
  }

  lemma RowsMakeBoundaries(offs: seq<int64>, data: seq<byte>)
    requires offs != [] && ValidOffsets(offs, |data|) && WellFormed(data) && AllRowsWellFormed(offs, data)
    requires offs[0] < offs[|offs| - 1] || !InsideCodePoint(offs[0], data)
    ensures OnBoundaries(offs, data)
  {
    var last := |offs| - 1;
    if offs[0] < offs[last] {
      RowsEndOnBoundary(offs, data);
    }
    forall i | 0 <= i < |offs|
      ensures !InsideCodePoint(offs[i], data)
    {
      OffsetsOrdered(offs, 0, i);
      OffsetsOrdered(offs, i, last);
      if offs[i] < offs[last] {
        RowStartsAreBoundaries(offs, data, i);
      }
    }
  }

  /** Over well-formed data the boundary check accepts exactly the columns whose rows are all
    * well-formed, except that a column with no bytes in any row is judged by the byte its offsets
    * point at. */
  lemma BoundariesDecideRows(offs: seq<int64>, data: seq<byte>)
    requires offs != [] && ValidOffsets(offs, |data|) && WellFormed(data)
    ensures OnBoundaries(offs, data) <==>
            AllRowsWellFormed(offs, data)
            && (offs[0] < offs[|offs| - 1] || !InsideCodePoint(offs[0], data))
  {
    if OnBoundaries(offs, data) {
      BoundariesMakeRows(offs, data);
    }
    hide OnBoundaries, AllRowsWellFormed, WellFormed;
    if AllRowsWellFormed(offs, data) && (offs[0] < offs[|offs| - 1] || !InsideCodePoint(offs[0], data)) {
      RowsMakeBoundaries(offs, data);
    }
  }

  /** The exception above is real: over well-formed data, a column without any row has only well-formed
    * rows and still fails the boundary check. */
  lemma RowlessColumnIsRejected()
    ensures var offs: seq<int64>, data: seq<byte> := [1], [0xC3, 0xA9];
            WellFormed(data) && ValidOffsets(offs, |data|) && AllRowsWellFormed(offs, data)
            && InsideCodePoint(offs[0], data)
  {
    assert Encoded(0xE9) == [0xC3, 0xA9];
    EncodedWellFormedIff(0xE9);
  }
}
