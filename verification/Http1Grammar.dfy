/** The header-block grammar as a renderer, and the proof that the parsers accept exactly what can
  * be rendered: field lines separated by CRLF, the last CRLF optional.
  */
module Http1Grammar {
  import opened Bytes
  import opened Http1Bytes
  import opened Http1Headers

  /** name ":" ows1 value ows2 */
  datatype FieldLine = FieldLine(name: seq<byte>, ows1: seq<byte>, value: seq<byte>, ows2: seq<byte>)

  const CRLF: seq<byte> := [CR, LF]

  /** Every byte of s belongs to the class that the scan runs over. */
  ghost predicate Within(kind: ScanKind, s: seq<byte>) {
    forall k :: 0 <= k < |s| ==> !Stops(kind, s[k])
  }

  /** A token for the name, field-value bytes for the value with no whitespace at its ends; the
    * whitespace around an empty value is written in front of it. */
  ghost predicate ValidLine(l: FieldLine) {
    && l.name != [] && Within(ScanNonToken, l.name)
    && Within(ScanNonOws, l.ows1) && Within(ScanNonOws, l.ows2)
    && Within(ScanNonFieldValue, l.value)
    && (if l.value == [] then l.ows2 == [] else !IsOws(l.value[0]) && !IsOws(l.value[|l.value| - 1]))
  }

  lemma WithinSlice(kind: ScanKind, s: seq<byte>, a: nat, b: nat)
    requires a <= b <= |s|
    ensures Within(kind, s[a..b]) <==> forall k :: a <= k < b ==> !Stops(kind, s[k])
  {
  }

  function RenderLine(l: FieldLine): (s: seq<byte>)
    ensures |s| == |l.name| + 1 + |l.ows1| + |l.value| + |l.ows2|
  {
    l.name + [COLON] + l.ows1 + l.value + l.ows2
  }

  /** What follows the first line. */
  function Separator(lines: seq<FieldLine>, finalCrlf: bool): seq<byte> {
    if |lines| == 1 && !finalCrlf then [] else CRLF
  }

  function RenderBlock(lines: seq<FieldLine>, finalCrlf: bool): seq<byte> {
    if lines == [] then []
    else RenderLine(lines[0]) + Separator(lines, finalCrlf) + RenderBlock(lines[1..], finalCrlf)
  }

  /** Where the parser must report a line that starts at off. */
  function FieldAt(l: FieldLine, off: nat): Field {
    var ne := off + |l.name|;
    var vs := ne + 1 + |l.ows1|;
    Field(off, ne, vs, vs + |l.value|)
  }

  /** The fields tile the block: each line starts where the CRLF of the line before ends. */
  function FieldsAt(lines: seq<FieldLine>, off: nat): (fields: seq<Field>)
    ensures |fields| == |lines|
  {
    if lines == [] then []
    else [FieldAt(lines[0], off)] + FieldsAt(lines[1..], off + |RenderLine(lines[0])| + 2)
  }

  ghost predicate AllValid(lines: seq<FieldLine>) {
    forall k :: 0 <= k < |lines| ==> ValidLine(lines[k])
  }

  // ---- From lines to fields ----

  lemma TrimEndIs(s: seq<byte>, vs: nat, r: nat, ve: nat)
    requires vs <= r <= ve <= |s|
    requires forall k :: r <= k < ve ==> IsOws(s[k])
    requires r == vs || !IsOws(s[r - 1])
    ensures TrimEnd(s, vs, ve) == r
  {
  }

  /** The line stands at off in s. */
  ghost predicate RenderedAt(s: seq<byte>, off: nat, l: FieldLine) {
    off + |RenderLine(l)| <= |s| && s[off..off + |RenderLine(l)|] == RenderLine(l)
  }

  lemma LinePieces(l: FieldLine)
    ensures var r, n := RenderLine(l), |l.name|;
            && r[0..n] == l.name && r[n] == COLON && r[n + 1..n + 1 + |l.ows1|] == l.ows1
            && r[n + 1 + |l.ows1|..n + 1 + |l.ows1| + |l.value|] == l.value
            && r[n + 1 + |l.ows1| + |l.value|..|r|] == l.ows2
  {
  }

  lemma Piece(s: seq<byte>, off: nat, r: seq<byte>, i: nat, j: nat, p: seq<byte>)
    requires off + |r| <= |s| && s[off..off + |r|] == r && i <= j <= |r| && r[i..j] == p
    ensures s[off + i..off + j] == p
  {
    SliceOfSlice(s, off, off + |r|, i, j);
  }

  /** The pieces of a rendered line, by position. */
  lemma RenderedPieces(s: seq<byte>, off: nat, l: FieldLine)
    requires RenderedAt(s, off, l)
    ensures var f, end := FieldAt(l, off), off + |RenderLine(l)|;
            && off <= f.ne < f.vs <= f.ve <= end
            && s[off..f.ne] == l.name && s[f.ne] == COLON && s[f.ne + 1..f.vs] == l.ows1
            && s[f.vs..f.ve] == l.value && s[f.ve..end] == l.ows2
  {
    var r, n, f := RenderLine(l), |l.name|, FieldAt(l, off);
    LinePieces(l);
    var m := off + |r|;
    assert s[off..m] == r;
    assert f.ne == off + n && f.vs == f.ne + 1 + |l.ows1| && f.ve == f.vs + |l.value|;
    hide *;
    Piece(s, off, r, 0, f.ne - off, l.name);
    assert s[off..m][n] == s[off + n];
    Piece(s, off, r, n + 1, f.vs - off, l.ows1);
    Piece(s, off, r, f.vs - off, f.ve - off, l.value);
    Piece(s, off, r, f.ve - off, |r|, l.ows2);
  }

  /** The classes of the bytes of a valid line, by position. */
  ghost predicate LineClasses(s: seq<byte>, f: Field, end: nat) {
    && f.ns < f.ne < f.vs <= f.ve <= end <= |s| && s[f.ne] == COLON
    && Within(ScanNonToken, s[f.ns..f.ne]) && Within(ScanNonOws, s[f.ne + 1..f.vs])
    && Within(ScanNonFieldValue, s[f.vs..f.ve]) && Within(ScanNonOws, s[f.ve..end])
    && (if f.vs == f.ve then f.ve == end else !IsOws(s[f.vs]) && !IsOws(s[f.ve - 1]))
  }

  lemma RenderedClasses(s: seq<byte>, off: nat, l: FieldLine)
    requires RenderedAt(s, off, l) && ValidLine(l)
    ensures LineClasses(s, FieldAt(l, off), off + |RenderLine(l)|)
  {
    hide RenderLine, Within, IsOws;
    RenderedPieces(s, off, l);
    if l.value != [] {
      var f := FieldAt(l, off);
      assert s[f.vs..f.ve][0] == s[f.vs] && s[f.vs..f.ve][|l.value| - 1] == s[f.ve - 1];
    }
  }

  lemma FieldAtStart(l: FieldLine, off: nat)
    ensures FieldAt(l, off).ns == off
  {
  }

  lemma NonTokens()
    ensures !IsTchar(COLON) && !IsTchar(SP) && !IsTchar(HTAB)
  {
  }

  lemma OwsInValue(s: seq<byte>, a: nat, b: nat)
    requires a <= b <= |s| && forall k :: a <= k < b ==> !Stops(ScanNonOws, s[k])
    ensures forall k :: a <= k < b ==> IsOws(s[k]) && !Stops(ScanNonFieldValue, s[k])
  {
  }

  lemma LineEnds(s: seq<byte>, off: nat, f: Field, end: nat)
    requires off < f.ne < f.vs <= f.ve <= end <= |s| && s[f.ne] == COLON
    requires forall k :: off <= k < f.ne ==> !Stops(ScanNonToken, s[k])
    requires forall k :: f.ne + 1 <= k < f.vs ==> !Stops(ScanNonOws, s[k])
    requires forall k :: f.vs <= k < f.ve ==> !Stops(ScanNonFieldValue, s[k])
    requires forall k :: f.ve <= k < end ==> !Stops(ScanNonOws, s[k])
    requires if f.vs == f.ve then f.ve == end else !IsOws(s[f.vs]) && !IsOws(s[f.ve - 1])
    requires end == |s| || CrlfAt(s, end)
    ensures !IsOws(s[off])
    ensures FindFrom(ScanNonToken, s, off) == f.ne && FindFrom(ScanNonOws, s, f.ne + 1) == f.vs
    ensures FindFrom(ScanNonFieldValue, s, f.vs) == end && TrimEnd(s, f.vs, end) == f.ve
  {
    hide FindFrom;
    NonTokens();
    assert !Stops(ScanNonToken, s[off]);
    FindIs(ScanNonToken, s, off, f.ne);
    FindIs(ScanNonOws, s, f.ne + 1, f.vs);
    OwsInValue(s, f.ve, end);
    FindIs(ScanNonFieldValue, s, f.vs, end);
    TrimEndIs(s, f.vs, f.ve, end);
  }

  lemma ClassesParse(s: seq<byte>, f: Field, end: nat)
    requires LineClasses(s, f, end) && (end == |s| || CrlfAt(s, end))
    ensures !IsOws(s[f.ns])
    ensures ParseLine(s, f.ns) == Parsed(f, if end < |s| then end + 2 else |s|)
    ensures FindFrom(ScanNonFieldValue, s, f.vs) == end
  {
    hide ParseLine, FindFrom, Stops, Within, IsOws, TrimEnd;
    WithinSlice(ScanNonToken, s, f.ns, f.ne);
    WithinSlice(ScanNonOws, s, f.ne + 1, f.vs);
    WithinSlice(ScanNonFieldValue, s, f.vs, f.ve);
    WithinSlice(ScanNonOws, s, f.ve, end);
    LineEnds(s, f.ns, f, end);
    LineGood(s, f.ns, f.ne, f.vs, end);
  }

  lemma LineParses(s: seq<byte>, off: nat, l: FieldLine)
    requires RenderedAt(s, off, l) && ValidLine(l)
    requires var end := off + |RenderLine(l)|; end == |s| || CrlfAt(s, end)
    ensures !IsOws(s[off])
    ensures var end := off + |RenderLine(l)|;
            && ParseLine(s, off) == Parsed(FieldAt(l, off), if end < |s| then end + 2 else |s|)
            && FindFrom(ScanNonFieldValue, s, FieldAt(l, off).vs) == end
  {
    hide *;
    RenderedClasses(s, off, l);
    FieldAtStart(l, off);
    ClassesParse(s, FieldAt(l, off), off + |RenderLine(l)|);
  }

  lemma EmptyBlock(s: seq<byte>, off: nat, finalCrlf: bool)
    requires off <= |s|
    ensures s[off..] == RenderBlock([], finalCrlf) <==> off == |s|
    ensures off == |s| ==> BlockStatus(s, off) == Ok && BlockFields(s, off) == FieldsAt([], off)
    ensures AllValid([])
  {
  }

  lemma RenderedHere(s: seq<byte>, off: nat, l: FieldLine)
    requires off + |RenderLine(l)| <= |s| && s[off..off + |RenderLine(l)|] == RenderLine(l)
    ensures RenderedAt(s, off, l)
  {
  }

  lemma BlockSplits(lines: seq<FieldLine>, finalCrlf: bool)
    requires lines != [] && AllValid(lines)
    ensures var sep, rest := Separator(lines, finalCrlf), RenderBlock(lines[1..], finalCrlf);
            && RenderBlock(lines, finalCrlf) == RenderLine(lines[0]) + sep + rest
            && ((sep == CRLF && |sep| == 2) || (sep == [] && rest == [] && lines[1..] == []))
    ensures ValidLine(lines[0]) && AllValid(lines[1..]) && |RenderLine(lines[0])| > 0
  {
  }

  lemma Pieces(s: seq<byte>, off: nat, r: seq<byte>, sep: seq<byte>, rest: seq<byte>)
    requires off <= |s| && s[off..] == r + sep + rest
    requires sep == CRLF || (sep == [] && rest == [])
    ensures off + |r| + |sep| <= |s| && s[off..off + |r|] == r && s[off + |r| + |sep|..] == rest
    ensures if sep == [] then off + |r| == |s| else CrlfAt(s, off + |r|)
  {
  }

  /** The first line of a rendering parses, and what follows it renders the other lines. */
  lemma FirstOf(s: seq<byte>, off: nat, lines: seq<FieldLine>, finalCrlf: bool)
    requires AllValid(lines) && off <= |s| && s[off..] == RenderBlock(lines, finalCrlf) && lines != []
    ensures var l, sep := lines[0], Separator(lines, finalCrlf);
            var next := off + |RenderLine(l)| + |sep|;
            && off < next <= |s| && s[next..] == RenderBlock(lines[1..], finalCrlf) && AllValid(lines[1..])
            && !IsOws(s[off]) && ParseLine(s, off) == Parsed(FieldAt(l, off), next)
            && FindFrom(ScanNonFieldValue, s, FieldAt(l, off).vs) == off + |RenderLine(l)|
            && RenderedAt(s, off, l)
            && (|sep| == 2 || lines[1..] == [])
  {
    hide *;
    var l, rest, sep := lines[0], RenderBlock(lines[1..], finalCrlf), Separator(lines, finalCrlf);
    BlockSplits(lines, finalCrlf);
    Pieces(s, off, RenderLine(l), sep, rest);
    RenderedHere(s, off, l);
    LineParses(s, off, l);
  }

  lemma FirstField(lines: seq<FieldLine>, off: nat)
    requires lines != []
    ensures FieldsAt(lines, off) == [FieldAt(lines[0], off)] + FieldsAt(lines[1..], off + |RenderLine(lines[0])| + 2)
  {
  }

  lemma FieldsAtEmpty(off: nat)
    ensures FieldsAt([], off) == []
  {
  }

  /** Completeness: every rendering is accepted, with the fields it was rendered from. */
  lemma {:induction false} RenderingAccepted(s: seq<byte>, off: nat, lines: seq<FieldLine>, finalCrlf: bool)
    requires AllValid(lines) && off <= |s| && s[off..] == RenderBlock(lines, finalCrlf)
    ensures BlockStatus(s, off) == Ok && BlockFields(s, off) == FieldsAt(lines, off)
    decreases |lines|
  {
    hide *;
    if lines == [] {
      EmptyBlock(s, off, finalCrlf);
    } else {
      FirstOf(s, off, lines, finalCrlf);
      var l, rest := lines[0], lines[1..];
      var next := off + |RenderLine(l)| + |Separator(lines, finalCrlf)|;
      BlockStep(s, off);
      FirstField(lines, off);
      RenderingAccepted(s, next, rest, finalCrlf);
      if rest == [] {
        FieldsAtEmpty(next);
        FieldsAtEmpty(off + |RenderLine(l)| + 2);
      }
    }
  }

  // ---- From fields back to lines ----

  /** The line a field was read from: the name, the value and the whitespace runs around it. */
  function LineOf(s: seq<byte>, f: Field, end: nat): FieldLine
    requires f.ns <= f.ne < f.vs <= f.ve <= end <= |s|
  {
    FieldLine(s[f.ns..f.ne], s[f.ne + 1..f.vs], s[f.vs..f.ve], s[f.ve..end])
  }

  lemma OwsWithin(s: seq<byte>, a: nat, b: nat)
    requires a <= b <= |s| && forall k :: a <= k < b ==> IsOws(s[k])
    ensures Within(ScanNonOws, s[a..b])
  {
  }

  lemma ClassesIntro(s: seq<byte>, f: Field, end: nat)
    requires f.ns < f.ne < f.vs <= f.ve <= end <= |s| && s[f.ne] == COLON
    requires Within(ScanNonToken, s[f.ns..f.ne]) && Within(ScanNonOws, s[f.ne + 1..f.vs])
    requires Within(ScanNonFieldValue, s[f.vs..f.ve]) && Within(ScanNonOws, s[f.ve..end])
    requires if f.vs == f.ve then f.ve == end else !IsOws(s[f.vs]) && !IsOws(s[f.ve - 1])
    ensures LineClasses(s, f, end)
  {
    hide Within, IsOws;
  }

  lemma ParsedClasses(s: seq<byte>, f: Field, end: nat)
    requires f.ns < f.ne < f.vs <= f.ve <= end <= |s| && s[f.ne] == COLON
    requires f.ne == FindFrom(ScanNonToken, s, f.ns) && f.vs == FindFrom(ScanNonOws, s, f.ne + 1)
    requires end == FindFrom(ScanNonFieldValue, s, f.vs)
    requires forall k :: f.ve <= k < end ==> IsOws(s[k])
    requires if f.vs == f.ve then f.ve == end else !IsOws(s[f.vs]) && !IsOws(s[f.ve - 1])
    ensures LineClasses(s, f, end)
  {
    hide *;
    NothingStops(ScanNonToken, s, f.ns, f.ne);
    WithinSlice(ScanNonToken, s, f.ns, f.ne);
    NothingStops(ScanNonOws, s, f.ne + 1, f.vs);
    WithinSlice(ScanNonOws, s, f.ne + 1, f.vs);
    NothingStops(ScanNonFieldValue, s, f.vs, f.ve);
    WithinSlice(ScanNonFieldValue, s, f.vs, f.ve);
    OwsWithin(s, f.ve, end);
    ClassesIntro(s, f, end);
  }

  lemma ClassesValid(s: seq<byte>, f: Field, end: nat)
    requires LineClasses(s, f, end)
    ensures ValidLine(LineOf(s, f, end))
  {
  }

  lemma LineOfField(s: seq<byte>, f: Field, end: nat)
    requires f.ns < f.ne < f.vs <= f.ve <= end <= |s|
    ensures FieldAt(LineOf(s, f, end), f.ns) == f
  {
  }

  lemma LineOfRenders(s: seq<byte>, f: Field, end: nat)
    requires f.ns < f.ne < f.vs <= f.ve <= end <= |s| && s[f.ne] == COLON
    ensures RenderLine(LineOf(s, f, end)) == s[f.ns..end] && FieldAt(LineOf(s, f, end), f.ns) == f
  {
    var a, b, c, d := s[f.ns..f.ne], s[f.ne + 1..f.vs], s[f.vs..f.ve], s[f.ve..end];
    assert RenderLine(LineOf(s, f, end)) == a + [COLON] + b + c + d;
    hide RenderLine, LineOf;
    assert s[f.ne..f.ne + 1] == [COLON];
    SliceJoin(s, f.ns, f.ne, f.ne + 1);
    SliceJoin(s, f.ns, f.ne + 1, f.vs);
    SliceJoin(s, f.ns, f.vs, f.ve);
    SliceJoin(s, f.ns, f.ve, end);
    LineOfField(s, f, end);
  }

  /** A parsed line is valid, renders to the bytes it was read from, and is the line of its field. */
  lemma ParsedLineRenders(s: seq<byte>, off: nat)
    requires off < |s| && ParseLine(s, off).Parsed?
    ensures var f := ParseLine(s, off).field;
            var end := FindFrom(ScanNonFieldValue, s, f.vs);
            && f.ns <= f.ne < f.vs <= f.ve <= end <= |s|
            && var l := LineOf(s, f, end);
               && ValidLine(l) && RenderLine(l) == s[off..end] && FieldAt(l, off) == f
               && (if end < |s| then CrlfAt(s, end) && ParseLine(s, off).next == end + 2
                   else ParseLine(s, off).next == |s|)
  {
    hide *;
    ParsedPieces(s, off);
    var f := ParseLine(s, off).field;
    var end := FindFrom(ScanNonFieldValue, s, f.vs);
    ValueEdges(s, f.ne, f.vs, f.ve, end);
    ParsedClasses(s, f, end);
    ClassesValid(s, f, end);
    LineOfRenders(s, f, end);
  }

  /** The fields of s are those of some list of valid lines that renders to the bytes from off on. */
  ghost predicate Renders(s: seq<byte>, off: nat, lines: seq<FieldLine>, finalCrlf: bool, fields: seq<Field>)
    requires off <= |s|
  {
    AllValid(lines) && s[off..] == RenderBlock(lines, finalCrlf) && fields == FieldsAt(lines, off)
  }

  lemma RendersIntro(s: seq<byte>, off: nat, lines: seq<FieldLine>, finalCrlf: bool)
    requires off <= |s| && AllValid(lines) && s[off..] == RenderBlock(lines, finalCrlf)
    requires BlockFields(s, off) == FieldsAt(lines, off)
    ensures Renders(s, off, lines, finalCrlf, BlockFields(s, off))
  {
  }

  lemma OkStep(s: seq<byte>, off: nat)
    requires off < |s| && BlockStatus(s, off) == Ok
    ensures ParseLine(s, off).Parsed?
    ensures var r := ParseLine(s, off);
            BlockFields(s, off) == [r.field] + BlockFields(s, r.next) && BlockStatus(s, r.next) == Ok
  {
    hide ParseLine;
  }

  lemma RendersElim(s: seq<byte>, off: nat, lines: seq<FieldLine>, finalCrlf: bool)
    requires off <= |s| && Renders(s, off, lines, finalCrlf, BlockFields(s, off))
    ensures AllValid(lines) && s[off..] == RenderBlock(lines, finalCrlf) && BlockFields(s, off) == FieldsAt(lines, off)
  {
  }

  lemma ValidCons(l: FieldLine, rest: seq<FieldLine>)
    requires ValidLine(l) && AllValid(rest)
    ensures AllValid([l] + rest)
  {
  }

  lemma Assemble(lines: seq<FieldLine>, fin: bool, first: seq<byte>, after: seq<byte>, terminated: bool, f: bool)
    requires lines != [] && first == RenderLine(lines[0]) && after == RenderBlock(lines[1..], f)
    requires if lines[1..] == [] then fin == terminated else terminated && f == fin
    ensures RenderBlock(lines, fin) == first + (if terminated then CRLF else []) + after
  {
  }

  lemma LineThenRest(s: seq<byte>, off: nat, end: nat, next: nat)
    requires off <= end <= |s|
    requires if end < |s| then CrlfAt(s, end) && next == end + 2 else next == |s|
    ensures s[off..] == s[off..end] + (if end < |s| then CRLF else []) + s[next..]
  {
  }

  lemma NonEmptyBlock(s: seq<byte>, off: nat, lines: seq<FieldLine>, fin: bool)
    requires off <= |s| && s[off..] == RenderBlock(lines, fin)
    ensures lines != [] ==> off < |s|
  {
  }

  lemma PrependLine(s: seq<byte>, off: nat, end: nat, next: nat, l: FieldLine, rest: seq<FieldLine>, fin: bool)
    requires off <= end <= |s| && next <= |s| && ValidLine(l) && RenderLine(l) == s[off..end]
    requires if end < |s| then CrlfAt(s, end) && next == end + 2 else next == |s|
    requires exists f :: Renders(s, next, rest, f, BlockFields(s, next)) && (next < |s| ==> f == fin)
    requires next == |s| ==> fin == (end < |s|)
    requires BlockFields(s, off) == [FieldAt(l, off)] + BlockFields(s, next)
    ensures Renders(s, off, [l] + rest, fin, BlockFields(s, off))
  {
    hide *;
    var f :| Renders(s, next, rest, f, BlockFields(s, next)) && (next < |s| ==> f == fin);
    RendersElim(s, next, rest, f);
    NonEmptyBlock(s, next, rest, f);
    EmptyBlock(s, next, f);
    LineThenRest(s, off, end, next);
    var lines := [l] + rest;
    assert lines[1..] == rest && lines[0] == l;
    FirstField(lines, off);
    Assemble(lines, fin, s[off..end], s[next..], end < |s|, f);
    if rest == [] {
      FieldsAtEmpty(next);
      FieldsAtEmpty(off + |RenderLine(l)| + 2);
    }
    ValidCons(l, rest);
    RendersIntro(s, off, lines, fin);
  }

  /** Soundness: an accepted block is the rendering of the lines its fields were read from. */
  lemma {:induction false} AcceptedRenders(s: seq<byte>, off: nat) returns (lines: seq<FieldLine>, finalCrlf: bool)
    requires off <= |s| && BlockStatus(s, off) == Ok
    ensures Renders(s, off, lines, finalCrlf, BlockFields(s, off))
    decreases |s| - off
  {
    hide *;
    if off == |s| {
      EmptyBlock(s, off, false);
      RendersIntro(s, off, [], false);
      return [], false;
    }
    OkStep(s, off);
    ParsedLineRenders(s, off);
    var r := ParseLine(s, off);
    var end := FindFrom(ScanNonFieldValue, s, r.field.vs);
    var l := LineOf(s, r.field, end);
    var rest;
    rest, finalCrlf := AcceptedRenders(s, r.next);
    if r.next == |s| {
      finalCrlf := end < |s|;
    }
    lines := [l] + rest;
    PrependLine(s, off, end, r.next, l, rest, finalCrlf);
  }

  lemma RenderedIsAccepted(s: seq<byte>, lines: seq<FieldLine>, finalCrlf: bool, fields: seq<Field>)
    requires Renders(s, 0, lines, finalCrlf, fields)
    ensures BlockStatus(s, 0) == Ok && BlockFields(s, 0) == fields
  {
    RenderingAccepted(s, 0, lines, finalCrlf);
  }

  /** A block is accepted with a given field list if and only if it is the rendering of valid lines
    * that sit at exactly those fields. */
  lemma AcceptedIffRendered(s: seq<byte>, fields: seq<Field>)
    ensures (BlockStatus(s, 0) == Ok && BlockFields(s, 0) == fields) <==>
            exists lines, finalCrlf :: Renders(s, 0, lines, finalCrlf, fields)
  {
    hide Renders, BlockStatus, BlockFields;
    if BlockStatus(s, 0) == Ok && BlockFields(s, 0) == fields {
      var lines, finalCrlf := AcceptedRenders(s, 0);
    }
    forall lines, finalCrlf | Renders(s, 0, lines, finalCrlf, fields)
      ensures BlockStatus(s, 0) == Ok && BlockFields(s, 0) == fields
    {
      RenderedIsAccepted(s, lines, finalCrlf, fields);
    }
  }

  lemma SameSeparator(lines: seq<FieldLine>, fin: bool, fin': bool)
    requires lines != [] && |Separator(lines, fin)| == |Separator(lines, fin')|
    requires lines[1..] != [] ==> fin == fin'
    ensures fin == fin'
  {
  }

  lemma SameLine(s: seq<byte>, off: nat, l: FieldLine, l': FieldLine)
    requires RenderedAt(s, off, l)
    requires RenderedAt(s, off, l')
    requires FieldAt(l, off) == FieldAt(l', off) && |RenderLine(l)| == |RenderLine(l')|
    ensures l == l'
  {
    RenderedPieces(s, off, l);
    RenderedPieces(s, off, l');
  }

  /** The block determines its lines: two lists of valid lines with one rendering are equal. */
  lemma {:induction false} RenderInjective(s: seq<byte>, off: nat, lines: seq<FieldLine>, fin: bool,
                                           lines': seq<FieldLine>, fin': bool)
    requires AllValid(lines) && AllValid(lines') && off <= |s|
    requires s[off..] == RenderBlock(lines, fin) == RenderBlock(lines', fin')
    ensures lines == lines' && (lines != [] ==> fin == fin')
    decreases |lines|
  {
    hide *;
    if lines == [] || lines' == [] {
      EmptyBlock(s, off, fin);
      EmptyBlock(s, off, fin');
      NonEmptyBlock(s, off, lines, fin);
      NonEmptyBlock(s, off, lines', fin');
    } else {
      FirstOf(s, off, lines, fin);
      FirstOf(s, off, lines', fin');
      SameLine(s, off, lines[0], lines'[0]);
      RenderInjective(s, ParseLine(s, off).next, lines[1..], fin, lines'[1..], fin');
      assert lines == [lines[0]] + lines[1..] && lines' == [lines'[0]] + lines'[1..];
      SameSeparator(lines, fin, fin');
    }
  }
}
