/** Two-pass take on a variable-length column: offsets first, bytes second. */
module Take {
  import opened Bytes
  import opened Columns
  import opened Words

  /** Every selected row exists. */
  ghost predicate ValidIndices(offs: seq<int64>, idx: seq<int64>) {
    forall k :: 0 <= k < |idx| ==> 0 <= idx[k] && idx[k] + 1 < |offs|
  }

  function RowLength(offs: seq<int64>, i: nat): int
    requires i + 1 < |offs|
  {
    offs[i + 1] as int - offs[i] as int
  }

  /** Total length of the first n selected rows. */
  function Selected(offs: seq<int64>, idx: seq<int64>, n: nat): int
    requires ValidIndices(offs, idx) && n <= |idx|
  {
    if n == 0 then 0
    else Selected(offs, idx, n - 1) + RowLength(offs, idx[n - 1])
  }

  lemma SelectedStep(offs: seq<int64>, idx: seq<int64>, k: nat)
    requires Monotone(offs) && ValidIndices(offs, idx) && k < |idx|
    ensures Selected(offs, idx, k + 1) == Selected(offs, idx, k) + RowLength(offs, idx[k])
    ensures RowLength(offs, idx[k]) >= 0
  {
  }

  lemma {:induction false} SelectedGrows(offs: seq<int64>, idx: seq<int64>, m: nat, n: nat)
    requires Monotone(offs) && ValidIndices(offs, idx) && m <= n <= |idx|
    ensures Selected(offs, idx, m) <= Selected(offs, idx, n)
    decreases n - m
  {
    if m < n {
      SelectedGrows(offs, idx, m, n - 1);
      SelectedStep(offs, idx, n - 1);
    }
  }

  /** dst[k] is the start of output row k. */
  ghost predicate RunningSums(dst: seq<int64>, offs: seq<int64>, idx: seq<int64>, n: nat)
    requires ValidIndices(offs, idx) && n <= |idx|
  {
    n < |dst| && forall j :: 0 <= j <= n ==> dst[j] == Selected(offs, idx, j)
  }

  lemma SelectedStart(offs: seq<int64>, idx: seq<int64>)
    requires ValidIndices(offs, idx)
    ensures Selected(offs, idx, 0) == 0
  {
  }

  /** First pass. The accumulator is 128 bits wide, so only the comparison with the limit can stop it;
    * lim is the largest value of the offset type. */
  method TakeOffsets(dst: array<int64>, src: seq<int64>, idx: seq<int64>, lim: int64) returns (total: int64)
    requires Monotone(src) && ValidIndices(src, idx) && |idx| < dst.Length && 0 <= lim
    modifies dst
    ensures total == -1 <==> Selected(src, idx, |idx|) > lim
    ensures total != -1 ==> total == Selected(src, idx, |idx|) && RunningSums(dst[..], src, idx, |idx|)
    ensures dst[|idx| + 1..] == old(dst[|idx| + 1..])
  {
    hide Selected;
    SelectedStart(src, idx);
    var acc: int := 0;
    dst[0] := 0;
    var k := 0;
    while k < |idx|
      invariant 0 <= k <= |idx|
      invariant acc == Selected(src, idx, k) && 0 <= acc <= lim
      invariant forall j :: 0 <= j <= k ==> dst[j] == Selected(src, idx, j)
      invariant forall j :: |idx| < j < dst.Length ==> dst[j] == old(dst[j])
    {
      SelectedStep(src, idx, k);
      acc := acc + RowLength(src, idx[k]);
      SelectedGrows(src, idx, k + 1, |idx|);
      if acc > lim {
        return -1;
      }
      dst[k + 1] := acc;
      k := k + 1;
    }
    return acc;
  }

  /** The selected rows' bytes, one after the other. */
  ghost function TakenBytes(offs: seq<int64>, data: seq<byte>, idx: seq<int64>, n: nat): seq<byte>
    requires ValidOffsets(offs, |data|) && ValidIndices(offs, idx) && n <= |idx|
  {
    if n == 0 then [] else TakenBytes(offs, data, idx, n - 1) + Row(offs, data, idx[n - 1])
  }

  lemma {:induction false} TakenLength(offs: seq<int64>, data: seq<byte>, idx: seq<int64>, n: nat)
    requires ValidOffsets(offs, |data|) && ValidIndices(offs, idx) && n <= |idx|
    ensures |TakenBytes(offs, data, idx, n)| == Selected(offs, idx, n)
  {
    if n > 0 {
      TakenLength(offs, data, idx, n - 1);
    }
  }

  lemma {:induction false} TakenPrefix(offs: seq<int64>, data: seq<byte>, idx: seq<int64>, m: nat, n: nat)
    requires ValidOffsets(offs, |data|) && ValidIndices(offs, idx) && m <= n <= |idx|
    ensures TakenBytes(offs, data, idx, m) <= TakenBytes(offs, data, idx, n)
    decreases n - m
  {
    if m < n {
      TakenPrefix(offs, data, idx, m, n - 1);
    }
  }

  lemma TakenNothing(offs: seq<int64>, data: seq<byte>, idx: seq<int64>)
    requires ValidOffsets(offs, |data|) && ValidIndices(offs, idx)
    ensures TakenBytes(offs, data, idx, 0) == []
  {
  }

  /** Row k extends the output and still fits. */
  lemma TakenStep(offs: seq<int64>, data: seq<byte>, idx: seq<int64>, k: nat, room: nat)
    requires ValidOffsets(offs, |data|) && ValidIndices(offs, idx) && k < |idx|
    requires Selected(offs, idx, |idx|) <= room
    ensures var i := idx[k];
            && 0 <= offs[i] <= offs[i + 1] <= |data|
            && TakenBytes(offs, data, idx, k + 1) == TakenBytes(offs, data, idx, k) + data[offs[i]..offs[i + 1]]
            && |TakenBytes(offs, data, idx, k)| + (offs[i + 1] - offs[i]) <= room
  {
    var i: nat := idx[k];
    OffsetsOrdered(offs, 0, i);
    OffsetsOrdered(offs, i, i + 1);
    OffsetsOrdered(offs, i + 1, |offs| - 1);
    SelectedStep(offs, idx, k);
    hide Selected, ValidOffsets;
    TakenLength(offs, data, idx, k);
    SelectedGrows(offs, idx, k + 1, |idx|);
  }

  /** Second pass; returns the number of bytes written. */
  method TakeBytes(dst: array<byte>, offs: seq<int64>, src: seq<byte>, idx: seq<int64>) returns (pos: nat)
    requires ValidOffsets(offs, |src|) && ValidIndices(offs, idx)
    requires Selected(offs, idx, |idx|) <= dst.Length
    modifies dst
    ensures pos == Selected(offs, idx, |idx|) && dst[..pos] == TakenBytes(offs, src, idx, |idx|)
    ensures dst[pos..] == old(dst[pos..])
  {
    hide Selected, TakenBytes, Row;
    pos := 0;
    TakenNothing(offs, src, idx);
    var k := 0;
    while k < |idx|
      invariant 0 <= k <= |idx|
      invariant pos <= dst.Length && dst[..pos] == TakenBytes(offs, src, idx, k)
      invariant forall j :: pos <= j < dst.Length ==> dst[j] == old(dst[j])
    {
      var i := idx[k];
      ghost var before := dst[..pos];
      TakenStep(offs, src, idx, k, dst.Length);
      var j := offs[i];
      while j < offs[i + 1]
        invariant offs[i] <= j <= offs[i + 1]
        invariant pos == |before| + (j - offs[i])
        invariant dst[..pos] == before + src[offs[i]..j]
        invariant forall q :: pos <= q < dst.Length ==> dst[q] == old(dst[q])
      {
        dst[pos] := src[j];
        assert dst[..pos + 1] == dst[..pos] + [src[j]];
        assert src[offs[i]..j + 1] == src[offs[i]..j] + [src[j]];
        pos := pos + 1;
        j := j + 1;
      }
      k := k + 1;
    }
    TakenLength(offs, src, idx, |idx|);
  }

  // ---- What a take means ----

  /** A column holds a list of rows. */
  ghost predicate HasRows(offs: seq<int64>, data: seq<byte>, rows: seq<seq<byte>>) {
    && offs != [] && ValidOffsets(offs, |data|) && |rows| == Rows(offs)
    && forall i :: 0 <= i < |rows| ==> rows[i] == Row(offs, data, i)
  }

  ghost function AllRows(offs: seq<int64>, data: seq<byte>): (rows: seq<seq<byte>>)
    requires offs != [] && ValidOffsets(offs, |data|)
    ensures HasRows(offs, data, rows) && |rows| == Rows(offs)
  {
    seq(Rows(offs), i requires 0 <= i < Rows(offs) => Row(offs, data, i))
  }

  ghost function Pick(rows: seq<seq<byte>>, idx: seq<int64>): seq<seq<byte>>
    requires forall k :: 0 <= k < |idx| ==> 0 <= idx[k] < |rows|
  {
    seq(|idx|, k requires 0 <= k < |idx| => rows[idx[k]])
  }

  lemma TakenNext(offs: seq<int64>, data: seq<byte>, idx: seq<int64>, k: nat)
    requires ValidOffsets(offs, |data|) && ValidIndices(offs, idx) && k < |idx|
    ensures TakenBytes(offs, data, idx, k + 1) == TakenBytes(offs, data, idx, k) + Row(offs, data, idx[k])
  {
    hide Row;
  }

  /** The bytes between two prefixes of the output. */
  lemma BetweenPrefixes(out: seq<byte>, a: seq<byte>, row: seq<byte>)
    requires a <= out && a + row <= out
    ensures out[|a|..|a + row|] == row
  {
    assert out[..|a + row|] == a + row;
  }

  lemma TakenRow(dst: seq<int64>, out: seq<byte>, offs: seq<int64>, data: seq<byte>, idx: seq<int64>, k: nat)
    requires offs != [] && ValidOffsets(offs, |data|) && ValidIndices(offs, idx) && k < |idx|
    requires |dst| == |idx| + 1 && RunningSums(dst, offs, idx, |idx|) && out == TakenBytes(offs, data, idx, |idx|)
    requires ValidOffsets(dst, |out|)
    ensures Row(dst, out, k) == Row(offs, data, idx[k])
  {
    assert dst[k] == Selected(offs, idx, k) && dst[k + 1] == Selected(offs, idx, k + 1);
    SpanIs(dst, out, k, k + 1);
    hide *;
    TakenLength(offs, data, idx, k);
    TakenLength(offs, data, idx, k + 1);
    TakenPrefix(offs, data, idx, k, |idx|);
    TakenPrefix(offs, data, idx, k + 1, |idx|);
    TakenNext(offs, data, idx, k);
    BetweenPrefixes(out, TakenBytes(offs, data, idx, k), Row(offs, data, idx[k]));
  }

  /** The output of the two passes is a valid column whose row k is source row idx[k]. */
  lemma TakenRows(dst: seq<int64>, out: seq<byte>, offs: seq<int64>, data: seq<byte>, idx: seq<int64>)
    requires offs != [] && ValidOffsets(offs, |data|) && ValidIndices(offs, idx)
    requires |dst| == |idx| + 1 && RunningSums(dst, offs, idx, |idx|) && out == TakenBytes(offs, data, idx, |idx|)
    ensures HasRows(dst, out, Pick(AllRows(offs, data), idx)) && dst[|idx|] == |out|
  {
    hide Selected, TakenBytes, Row;
    TakenLength(offs, data, idx, |idx|);
    forall i | 1 <= i < |dst|
      ensures dst[i - 1] <= dst[i]
    {
      SelectedGrows(offs, idx, i - 1, i);
    }
    SelectedStart(offs, idx);
    assert ValidOffsets(dst, |out|);
    var rows := Pick(AllRows(offs, data), idx);
    forall k | 0 <= k < |rows|
      ensures rows[k] == Row(dst, out, k)
    {
      TakenRow(dst, out, offs, data, idx, k);
    }
  }

  // ---- Both passes back to back ----

  datatype Column = Column(offs: seq<int64>, data: seq<byte>)

  datatype TakeResult = TooLong | Taken(col: Column)

  ghost predicate ValidColumn(c: Column) {
    c.offs != [] && ValidOffsets(c.offs, |c.data|)
  }

  lemma RowsCounted(offs: seq<int64>, data: seq<byte>, rows: seq<seq<byte>>)
    requires HasRows(offs, data, rows)
    ensures |offs| == |rows| + 1 && ValidOffsets(offs, |data|) && rows == AllRows(offs, data)
  {
  }

  /** Runs both passes; TooLong when the total exceeds the largest offset. */
  method TakeColumn(c: Column, idx: seq<int64>, lim: int64) returns (r: TakeResult)
    requires ValidColumn(c) && ValidIndices(c.offs, idx) && 0 <= lim
    ensures r == TooLong <==> Selected(c.offs, idx, |idx|) > lim
    ensures r.Taken? ==> HasRows(r.col.offs, r.col.data, Pick(AllRows(c.offs, c.data), idx))
                         && r.col.offs[0] == 0 && r.col.offs[|idx|] == |r.col.data|
  {
    hide Selected, TakenBytes, HasRows, Pick, AllRows;
    var dstOffs := new int64[|idx| + 1];
    var total := TakeOffsets(dstOffs, c.offs, idx, lim);
    if total == -1 {
      return TooLong;
    }
    SelectedGrows(c.offs, idx, 0, |idx|);
    SelectedStart(c.offs, idx);
    var dst := new byte[total];
    var written := TakeBytes(dst, c.offs, c.data, idx);
    assert dst[..] == dst[..written];
    TakenRows(dstOffs[..], dst[..], c.offs, c.data, idx);
    RowsCounted(dstOffs[..], dst[..], Pick(AllRows(c.offs, c.data), idx));
    return Taken(Column(dstOffs[..], dst[..]));
  }

  function Min(a: int, b: int): int {
    if a < b then a else b
  }

  /** The length of row i as the driver reads it from its payload: one byte a row, reduced below 24, or
    * four little-endian bytes a row, moved up by 31 bits for wide offsets. */
  function PayloadLength(p: seq<byte>, i: nat, wide: bool, huge: bool): (d: int64)
    requires if huge then 4 * i + 3 < |p| else i < |p|
    ensures d >= 0
  {
    if huge then
      var d: uint32 := p[4 * i] as int + p[4 * i + 1] as int * 0x100
                       + p[4 * i + 2] as int * 0x1_0000 + p[4 * i + 3] as int * 0x100_0000;
      if wide then d * 0x8000_0000 else d
    else p[i] % 24
  }

  /** The four bytes are a little-endian word. */
  lemma PayloadLengthIs(p: seq<byte>, i: nat, wide: bool, huge: bool)
    requires if huge then 4 * i + 3 < |p| else i < |p|
    ensures PayloadLength(p, i, wide, huge) ==
            if huge then Word(p[4 * i..4 * i + 4]) * (if wide then 0x8000_0000 else 1) else p[i] % 24
  {
    if huge {
      var w := p[4 * i..4 * i + 4];
      assert Word(w[1..]) == w[1] + 256 * Word(w[2..]) by {
        assert w[1..][1..] == w[2..];
      }
      assert Word(w[2..]) == w[2] + 256 * Word(w[3..]) by {
        assert w[2..][1..] == w[3..];
      }
      assert Word(w[3..]) == w[3] + 256 * Word([]) by {
        assert w[3..][1..] == [];
      }
    }
  }

  /** Bytes of the payload that give one row's length. */
  function PerRow(huge: bool): (per: nat)
    ensures per == 1 || per == 4
  {
    if huge then 4 else 1
  }

  /** The rows are clamped to what the payload holds. */
  lemma RowsFit(wanted: nat, n: nat, huge: bool)
    ensures var rows := if wanted * PerRow(huge) > n then n / PerRow(huge) else wanted;
            && rows == Min(wanted, n / PerRow(huge)) && rows * PerRow(huge) <= n
            && if huge then 4 * rows <= n else rows <= n
  {
  }

  /** One index byte per output row, reduced modulo the number of rows. */
  method BuildIndices(p: seq<byte>, from: nat, rows: nat) returns (idx: array<int64>)
    requires from <= |p| && rows > 0
    ensures fresh(idx) && idx.Length == |p| - from
    ensures forall k :: 0 <= k < idx.Length ==> idx[k] == p[from + k] % rows && 0 <= idx[k] < rows
  {
    idx := new int64[|p| - from](k requires 0 <= k < |p| - from => p[from + k] % rows);
  }

  /** One addition of the driver: saturates at the largest 64-bit offset and, for narrow columns, at the
    * largest 32-bit one. */
  function Saturated(off: int64, d: int64, wide: bool): (next: int64)
    requires 0 <= off && 0 <= d
    ensures next == Min(off as int + d as int, if wide then INT64_MAX else INT32_MAX)
  {
    var sum := off as int + d as int;
    var next := if sum > INT64_MAX then INT64_MAX else sum;
    if !wide && next > INT32_MAX then INT32_MAX else next
  }

  /** Offsets that grow by non-negative lengths up to a limit are valid. */
  lemma SumsGrow(offs: seq<int64>, p: seq<byte>, wide: bool, huge: bool)
    requires offs != [] && offs[0] == 0 && if huge then 4 * (|offs| - 1) <= |p| else |offs| - 1 <= |p|
    requires forall k :: 0 <= k < |offs| ==> 0 <= offs[k] <= if wide then INT64_MAX else INT32_MAX
    requires forall k :: 0 <= k < |offs| - 1 ==>
      offs[k + 1] == Min(offs[k] as int + PayloadLength(p, k, wide, huge), if wide then INT64_MAX else INT32_MAX)
    ensures ValidOffsets(offs, if wide then INT64_MAX else INT32_MAX)
  {
    hide PayloadLength;
    forall k | 1 <= k < |offs|
      ensures offs[k - 1] <= offs[k]
    {
      assert offs[k - 1 + 1] == Min(offs[k - 1] as int + PayloadLength(p, k - 1, wide, huge),
                                    if wide then INT64_MAX else INT32_MAX);
    }
  }

  method BuildOffsets(p: seq<byte>, rows: nat, wide: bool, huge: bool) returns (offs: array<int64>)
    requires if huge then 4 * rows <= |p| else rows <= |p|
    ensures fresh(offs) && offs.Length == rows + 1 && offs[0] == 0
    ensures ValidOffsets(offs[..], if wide then INT64_MAX else INT32_MAX)
    ensures forall i :: 0 <= i < rows ==>
      offs[i + 1] == Min(offs[i] as int + PayloadLength(p, i, wide, huge), if wide then INT64_MAX else INT32_MAX)
  {
    hide PayloadLength, Saturated;
    offs := new int64[rows + 1];
    offs[0] := 0;
    var lim := if wide then INT64_MAX else INT32_MAX;
    var i := 0;
    while i < rows
      invariant 0 <= i <= rows && offs[0] == 0
      invariant forall k :: 0 <= k <= i ==> 0 <= offs[k] <= lim
      invariant forall k :: 0 <= k < i ==> offs[k + 1] == Min(offs[k] as int + PayloadLength(p, k, wide, huge), lim)
    {
      offs[i + 1] := Saturated(offs[i], PayloadLength(p, i, wide, huge), wide);
      i := i + 1;
    }
    SumsGrow(offs[..], p, wide, huge);
  }

  /** Cuts a payload into row lengths and indices. Each addition saturates at the largest 64-bit offset
    * and, for narrow columns, at the largest 32-bit one, so the offsets are valid whatever the lengths
    * are, and so are the indices. */
  method BuildColumn(p: seq<byte>, wanted: nat, wide: bool, huge: bool)
    returns (rows: nat, offs: array<int64>, idx: array<int64>)
    ensures rows == Min(wanted, |p| / PerRow(huge)) && rows * PerRow(huge) <= |p|
    ensures rows > 0 ==>
      var lim := if wide then INT64_MAX else INT32_MAX;
      && offs.Length == rows + 1 && offs[0] == 0 && ValidOffsets(offs[..], lim)
      && (forall i :: 0 <= i < rows ==> offs[i + 1] == Min(offs[i] as int + PayloadLength(p, i, wide, huge), lim))
      && idx.Length == |p| - rows * PerRow(huge) && ValidIndices(offs[..], idx[..])
      && (forall k :: 0 <= k < idx.Length ==> idx[k] == p[rows * PerRow(huge) + k] % rows)
  {
    hide PayloadLength, PerRow, ValidOffsets;
    RowsFit(wanted, |p|, huge);
    rows := if wanted * PerRow(huge) > |p| then |p| / PerRow(huge) else wanted;
    if rows == 0 {
      offs, idx := new int64[0], new int64[0];
      return;
    }
    offs := BuildOffsets(p, rows, wide, huge);
    idx := BuildIndices(p, rows * PerRow(huge), rows);
  }

  /** idx2 applied to the rows picked by idx1, as indices into the original column. */
  function Compose(idx1: seq<int64>, idx2: seq<int64>): seq<int64>
    requires forall k :: 0 <= k < |idx2| ==> 0 <= idx2[k] < |idx1|
  {
    seq(|idx2|, k requires 0 <= k < |idx2| => idx1[idx2[k]])
  }

  lemma RowSplits(c: Column, rows: seq<seq<byte>>, i: nat)
    requires HasRows(c.offs, c.data, rows) && i < |rows|
    ensures 0 <= c.offs[i] <= c.offs[i + 1] <= |c.data| && |rows[i]| == c.offs[i + 1] - c.offs[i]
    ensures c.data[..c.offs[i + 1]] == c.data[..c.offs[i]] + rows[i]
  {
    OffsetsOrdered(c.offs, 0, i);
    OffsetsOrdered(c.offs, i, i + 1);
    OffsetsOrdered(c.offs, i + 1, |c.offs| - 1);
    assert rows[i] == Row(c.offs, c.data, i);
  }

  /** A column is determined by its rows once its offsets start at 0 and end at the data length. */
  lemma {:induction false} RowsDetermineOffsets(a: Column, b: Column, rows: seq<seq<byte>>, n: nat)
    requires HasRows(a.offs, a.data, rows) && HasRows(b.offs, b.data, rows) && n <= |rows|
    requires a.offs[0] == b.offs[0] == 0
    ensures a.offs[n] == b.offs[n] && 0 <= a.offs[n] <= |a.data| && a.offs[n] <= |b.data|
    ensures a.data[..a.offs[n]] == b.data[..a.offs[n]]
  {
    if n > 0 {
      RowsDetermineOffsets(a, b, rows, n - 1);
      RowSplits(a, rows, n - 1);
      RowSplits(b, rows, n - 1);
    }
  }

  lemma PickTwice(rows: seq<seq<byte>>, idx1: seq<int64>, idx2: seq<int64>)
    requires forall k :: 0 <= k < |idx1| ==> 0 <= idx1[k] < |rows|
    requires forall k :: 0 <= k < |idx2| ==> 0 <= idx2[k] < |idx1|
    ensures Pick(Pick(rows, idx1), idx2) == Pick(rows, Compose(idx1, idx2))
  {
  }

  /** Taking twice equals taking once with the composed indices, down to the offsets and the bytes. */
  lemma TakeTwice(c: Column, idx1: seq<int64>, once: Column, idx2: seq<int64>, twice: Column, composed: Column)
    requires ValidColumn(c) && ValidIndices(c.offs, idx1)
    requires HasRows(once.offs, once.data, Pick(AllRows(c.offs, c.data), idx1)) && ValidIndices(once.offs, idx2)
    requires HasRows(twice.offs, twice.data, Pick(AllRows(once.offs, once.data), idx2))
    requires twice.offs[0] == 0 && twice.offs[|idx2|] == |twice.data|
    requires HasRows(composed.offs, composed.data, Pick(AllRows(c.offs, c.data), Compose(idx1, idx2)))
    requires composed.offs[0] == 0 && composed.offs[|idx2|] == |composed.data|
    ensures twice == composed
  {
    var rows := Pick(AllRows(c.offs, c.data), Compose(idx1, idx2));
    assert Pick(AllRows(once.offs, once.data), idx2) == rows by {
      PickTwice(AllRows(c.offs, c.data), idx1, idx2);
      RowsCounted(once.offs, once.data, Pick(AllRows(c.offs, c.data), idx1));
    }
    hide Pick, AllRows, Compose;
    RowsDetermineOffsets(twice, composed, rows, |rows|);
    forall n | 0 <= n < |twice.offs|
      ensures twice.offs[n] == composed.offs[n]
    {
      RowsDetermineOffsets(twice, composed, rows, n);
    }
    assert twice.data == twice.data[..|twice.data|] && composed.data == composed.data[..|composed.data|];
  }

  /** The second take overflows exactly when the composed one does. */
  lemma {:induction false} TotalsCompose(c: Column, idx1: seq<int64>, once: Column, idx2: seq<int64>, n: nat)
    requires ValidColumn(c) && ValidIndices(c.offs, idx1) && n <= |idx2|
    requires HasRows(once.offs, once.data, Pick(AllRows(c.offs, c.data), idx1)) && ValidIndices(once.offs, idx2)
    requires ValidIndices(c.offs, Compose(idx1, idx2))
    ensures Selected(once.offs, idx2, n) == Selected(c.offs, Compose(idx1, idx2), n)
  {
    if n > 0 {
      TotalsCompose(c, idx1, once, idx2, n - 1);
      var rows := Pick(AllRows(c.offs, c.data), idx1);
      var j := idx2[n - 1];
      RowSplits(once, rows, j);
      RowSplits(c, AllRows(c.offs, c.data), idx1[j]);
    }
  }

  /** Taking rows of a string column that passed validation yields a column of well-formed rows. */
  lemma TakeKeepsUtf8(c: Column, idx: seq<int64>, out: Column)
    requires ValidColumn(c) && ValidIndices(c.offs, idx) && AllRowsWellFormed(c.offs, c.data)
    requires HasRows(out.offs, out.data, Pick(AllRows(c.offs, c.data), idx))
    ensures AllRowsWellFormed(out.offs, out.data)
  {
  }
}
