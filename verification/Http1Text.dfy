/** Lines, heads and header blocks in characters: what the parsers accept, without their byte classes
  * and constants.
  */
module Http1Text {
  import opened Bytes
  import opened Http1Bytes
  import opened Http1Grammar
  import opened Http1Headers
  import opened Http1Lines

  // ---- Lines of text ----

  /** Visible ASCII characters other than the delimiters. */
  ghost predicate PlainName(s: seq<byte>) {
    s != [] && forall k :: 0 <= k < |s| ==> 0x21 <= s[k] <= 0x7E && s[k] as char !in "\"(),/:;<=>?@[\\]{}"
  }

  ghost predicate Blanks(s: seq<byte>) {
    forall k :: 0 <= k < |s| ==> s[k] as char in " \t"
  }

  /** No control characters other than tabs. */
  ghost predicate PlainValue(s: seq<byte>) {
    forall k :: 0 <= k < |s| ==> s[k] as char == '\t' || (s[k] >= 0x20 && s[k] != 0x7F)
  }

  ghost predicate PlainLine(l: FieldLine) {
    && PlainName(l.name) && Blanks(l.ows1) && PlainValue(l.value) && Blanks(l.ows2)
    && (if l.value == [] then l.ows2 == []
        else l.value[0] as char !in " \t" && l.value[|l.value| - 1] as char !in " \t")
  }

  ghost predicate PlainLines(lines: seq<FieldLine>) {
    forall k :: 0 <= k < |lines| ==> PlainLine(lines[k])
  }

  function LineText(l: FieldLine): seq<byte> {
    l.name + Ascii(":") + l.ows1 + l.value + l.ows2
  }

  /** The lines as text, each followed by CRLF; the last CRLF may be left out. */
  function Text(lines: seq<FieldLine>, finalCrlf: bool): seq<byte> {
    if lines == [] then []
    else LineText(lines[0]) + (if |lines| > 1 || finalCrlf then Ascii("\r\n") else []) + Text(lines[1..], finalCrlf)
  }

  /** The field gives the place of the name and the value of a line that starts at off. */
  predicate FieldOf(l: FieldLine, off: nat, f: Field) {
    && f.ns == off && f.ne == f.ns + |l.name|
    && f.vs == f.ne + 1 + |l.ows1| && f.ve == f.vs + |l.value|
  }

  /** One field for each line, in order, where the line stands in the text. */
  ghost predicate Placed(lines: seq<FieldLine>, fields: seq<Field>) {
    && |fields| == |lines|
    && forall k :: 0 <= k < |lines| ==> FieldOf(lines[k], |Text(lines[..k], true)|, fields[k])
  }

  lemma NameIsPlain(s: seq<byte>)
    ensures s != [] && Within(ScanNonToken, s) <==> PlainName(s)
  {
    forall k | 0 <= k < |s|
      ensures !Stops(ScanNonToken, s[k]) <==> 0x21 <= s[k] <= 0x7E && s[k] as char !in "\"(),/:;<=>?@[\\]{}"
    {
      TokensInCharacters(s[k]);
    }
    hide IsTchar, Stops;
  }

  lemma BlanksAreOws(s: seq<byte>)
    ensures Within(ScanNonOws, s) <==> Blanks(s)
  {
    forall k | 0 <= k < |s|
      ensures !Stops(ScanNonOws, s[k]) <==> s[k] as char in " \t"
    {
      ValuesInCharacters(s[k]);
    }
    hide IsOws, Stops;
  }

  lemma ValueIsPlain(s: seq<byte>)
    ensures Within(ScanNonFieldValue, s) <==> PlainValue(s)
  {
    forall k | 0 <= k < |s|
      ensures !Stops(ScanNonFieldValue, s[k]) <==> s[k] as char == '\t' || (s[k] >= 0x20 && s[k] != 0x7F)
    {
      ValuesInCharacters(s[k]);
    }
    hide IsFieldValueByte, Stops;
  }

  lemma LineIsPlain(l: FieldLine)
    ensures ValidLine(l) <==> PlainLine(l)
  {
    hide IsOws, Within, PlainName, Blanks, PlainValue;
    NameIsPlain(l.name);
    BlanksAreOws(l.ows1);
    BlanksAreOws(l.ows2);
    ValueIsPlain(l.value);
    if l.value != [] {
      ValuesInCharacters(l.value[0]);
      ValuesInCharacters(l.value[|l.value| - 1]);
    }
  }

  lemma LinesArePlain(lines: seq<FieldLine>)
    ensures AllValid(lines) <==> PlainLines(lines)
  {
    hide ValidLine, PlainLine;
    forall k | 0 <= k < |lines|
      ensures ValidLine(lines[k]) <==> PlainLine(lines[k])
    {
      LineIsPlain(lines[k]);
    }
  }

  lemma MarksAreText()
    ensures [COLON] == Ascii(":") && CRLF == Ascii("\r\n")
  {
  }

  lemma {:induction false} RenderingIsText(lines: seq<FieldLine>, finalCrlf: bool)
    ensures RenderBlock(lines, finalCrlf) == Text(lines, finalCrlf)
  {
    MarksAreText();
    if lines == [] {
    } else {
      RenderingIsText(lines[1..], finalCrlf);
    }
  }

  /** Where the k-th line of a block starts. */
  lemma {:induction false} FieldsAtText(lines: seq<FieldLine>, off: nat, k: nat)
    requires k < |lines|
    ensures FieldsAt(lines, off)[k] == FieldAt(lines[k], off + |Text(lines[..k], true)|)
  {
    hide FieldAt;
    if k == 0 {
      assert lines[..0] == [];
    } else {
      var first := lines[..k];
      assert first[0] == lines[0] && first[1..] == lines[1..][..k - 1];
      FieldsAtText(lines[1..], off + |RenderLine(lines[0])| + 2, k - 1);
    }
  }

  lemma FieldsArePlaced(lines: seq<FieldLine>, fields: seq<Field>)
    ensures fields == FieldsAt(lines, 0) <==> Placed(lines, fields)
  {
    hide Text, FieldsAt;
    forall k | 0 <= k < |lines|
      ensures FieldsAt(lines, 0)[k] == FieldAt(lines[k], |Text(lines[..k], true)|)
    {
      FieldsAtText(lines, 0, k);
    }
  }

  /** The block is the text of lines that sit at these fields. */
  ghost predicate IsText(s: seq<byte>, lines: seq<FieldLine>, finalCrlf: bool, fields: seq<Field>) {
    PlainLines(lines) && s == Text(lines, finalCrlf) && Placed(lines, fields)
  }

  lemma RendersIsText(s: seq<byte>, lines: seq<FieldLine>, finalCrlf: bool, fields: seq<Field>)
    ensures Renders(s, 0, lines, finalCrlf, fields) <==> IsText(s, lines, finalCrlf, fields)
  {
    hide AllValid, PlainLines, RenderBlock, Text, FieldsAt, Placed;
    assert s[0..] == s;
    LinesArePlain(lines);
    RenderingIsText(lines, finalCrlf);
    FieldsArePlaced(lines, fields);
  }

  /** A block is accepted with the given fields exactly when it is the text of plain lines placed there. */
  lemma AcceptedIffText(s: seq<byte>, fields: seq<Field>)
    ensures (BlockStatus(s, 0) == Ok && BlockFields(s, 0) == fields) <==>
            exists lines, finalCrlf :: IsText(s, lines, finalCrlf, fields)
  {
    hide *;
    AcceptedIffRendered(s, fields);
    forall lines, finalCrlf
      ensures Renders(s, 0, lines, finalCrlf, fields) <==> IsText(s, lines, finalCrlf, fields)
    {
      RendersIsText(s, lines, finalCrlf, fields);
    }
  }

  // ---- One line ----

  /** The line stands at off, its field is f, and the next line starts after its CRLF or at the end. */
  ghost predicate LineAt(s: seq<byte>, off: nat, l: FieldLine, f: Field, next: nat) {
    var end := off + |LineText(l)|;
    && PlainLine(l) && FieldOf(l, off, f) && end <= |s| && s[off..end] == LineText(l)
    && (if end == |s| then next == end else next == end + 2 <= |s| && s[end..next] == Ascii("\r\n"))
  }

  lemma LineIsText(l: FieldLine)
    ensures RenderLine(l) == LineText(l)
  {
    MarksAreText();
  }

  lemma CrlfIsText(s: seq<byte>, k: nat)
    ensures CrlfAt(s, k) <==> k + 2 <= |s| && s[k..k + 2] == Ascii("\r\n")
  {
    MarksAreText();
    if k + 2 <= |s| {
      assert s[k..k + 2] == [s[k], s[k + 1]];
    }
  }

  lemma FieldAtIs(l: FieldLine, off: nat, f: Field)
    ensures FieldOf(l, off, f) <==> f == FieldAt(l, off)
  {
  }

  lemma LineAtParses(s: seq<byte>, off: nat, l: FieldLine, f: Field, next: nat)
    requires LineAt(s, off, l, f, next)
    ensures off < |s| && ParseFieldLine(s, off) == Parsed(f, next)
  {
    var end := off + |LineText(l)|;
    LineIsText(l);
    LineIsPlain(l);
    CrlfIsText(s, end);
    FieldAtIs(l, off, f);
    hide *;
    assert |RenderLine(l)| > 0;
    FieldLineIs(s, off);
    RenderedHere(s, off, l);
    LineParses(s, off, l);
  }

  lemma LineAtIntro(s: seq<byte>, off: nat, end: nat, l: FieldLine, next: nat)
    requires off <= end <= |s| && ValidLine(l) && RenderLine(l) == s[off..end]
    requires if end < |s| then CrlfAt(s, end) && next == end + 2 else next == |s|
    ensures LineAt(s, off, l, FieldAt(l, off), next)
  {
    LineIsText(l);
    LineIsPlain(l);
    CrlfIsText(s, end);
    FieldAtIs(l, off, FieldAt(l, off));
    hide RenderLine, LineText, ValidLine, PlainLine, FieldAt, FieldOf, CrlfAt;
    assert |s[off..end]| == end - off;
  }

  lemma ParsedAt(s: seq<byte>, off: nat) returns (l: FieldLine)
    requires off < |s| && ParseFieldLine(s, off).Parsed?
    ensures var r := ParseFieldLine(s, off); LineAt(s, off, l, r.field, r.next)
  {
    hide *;
    FieldLineIs(s, off);
    ParsedLineRenders(s, off);
    var r := ParseLine(s, off);
    var end := FindFrom(ScanNonFieldValue, s, r.field.vs);
    l := LineOf(s, r.field, end);
    LineAtIntro(s, off, end, l, r.next);
  }

  /** A line is parsed exactly when it is the text of a plain line. */
  lemma ParsedIff(s: seq<byte>, off: nat, f: Field, next: nat)
    requires off < |s|
    ensures ParseFieldLine(s, off) == Parsed(f, next) <==> exists l :: LineAt(s, off, l, f, next)
  {
    hide *;
    if ParseFieldLine(s, off) == Parsed(f, next) {
      var l := ParsedAt(s, off);
    }
    forall l | LineAt(s, off, l, f, next)
      ensures ParseFieldLine(s, off) == Parsed(f, next)
    {
      LineAtParses(s, off, l, f, next);
    }
  }

  /** A name and its colon stand at off. */
  ghost predicate NamedAt(s: seq<byte>, off: nat, n: nat) {
    off < n < |s| && PlainName(s[off..n]) && s[n] as char == ':'
  }

  lemma NameEnds(s: seq<byte>, off: nat, n: nat)
    requires NamedAt(s, off, n)
    ensures FindFrom(ScanNonToken, s, off) == n && s[n] == COLON && !IsOws(s[off])
  {
    NameIsPlain(s[off..n]);
    WithinSlice(ScanNonToken, s, off, n);
    NonTokens();
    assert !Stops(ScanNonToken, s[off]);
    hide FindFrom, IsTchar;
    FindIs(ScanNonToken, s, off, n);
  }

  /** A line is refused for its name exactly when it is no folded line and has no name and colon; */
  lemma BadNameIff(s: seq<byte>, off: nat)
    requires off < |s|
    ensures ParseFieldLine(s, off) == Rejected(BadName) <==>
            s[off] as char !in " \t" && forall n :: !NamedAt(s, off, n)
  {
    ValuesInCharacters(s[off]);
    var n := FindFrom(ScanNonToken, s, off);
    if ParseFieldLine(s, off) == Rejected(BadName) {
      forall m | NamedAt(s, off, m)
        ensures false
      {
        NameEnds(s, off, m);
      }
    } else if s[off] as char !in " \t" {
      WithinSlice(ScanNonToken, s, off, n);
      NameIsPlain(s[off..n]);
      assert NamedAt(s, off, n);
    }
  }

  /** A plain name and its colon, blanks, and a plain value without blanks at its ends. */
  ghost predicate PlainField(s: seq<byte>, f: Field) {
    && f.ns < f.ne < f.vs <= f.ve <= |s|
    && PlainName(s[f.ns..f.ne]) && s[f.ne] as char == ':'
    && Blanks(s[f.ne + 1..f.vs]) && PlainValue(s[f.vs..f.ve])
    && (f.vs == f.ve || (s[f.vs] as char !in " \t" && s[f.ve - 1] as char !in " \t"))
  }

  /** Nothing but blanks from here to the end of the line. */
  ghost predicate BlankTail(s: seq<byte>, from: nat, end: nat) {
    && from <= end <= |s| && Blanks(s[from..end])
    && (end == |s| || (end + 2 <= |s| && s[end..end + 2] == Ascii("\r\n")))
  }

  lemma WellFormedWithin(s: seq<byte>, f: Field)
    requires f.ns < f.ne < f.vs <= f.ve <= |s|
    ensures FieldWellFormed(s, f) <==>
            && s[f.ne] == COLON && Within(ScanNonToken, s[f.ns..f.ne])
            && Within(ScanNonOws, s[f.ne + 1..f.vs]) && Within(ScanNonFieldValue, s[f.vs..f.ve])
            && (f.ve > f.vs ==> !IsOws(s[f.vs]) && !IsOws(s[f.ve - 1]))
            && var k := FindFrom(ScanNonOws, s, f.ve); k == |s| || CrlfAt(s, k)
  {
    hide Within, FindFrom, CrlfAt, IsTchar, IsOws, IsFieldValueByte;
    WithinSlice(ScanNonToken, s, f.ns, f.ne);
    WithinSlice(ScanNonOws, s, f.ne + 1, f.vs);
    WithinSlice(ScanNonFieldValue, s, f.vs, f.ve);
  }

  lemma PlainFieldWithin(s: seq<byte>, f: Field)
    requires f.ns < f.ne < f.vs <= f.ve <= |s|
    ensures PlainField(s, f) <==>
            && s[f.ne] == COLON && Within(ScanNonToken, s[f.ns..f.ne])
            && Within(ScanNonOws, s[f.ne + 1..f.vs]) && Within(ScanNonFieldValue, s[f.vs..f.ve])
            && (f.ve > f.vs ==> !IsOws(s[f.vs]) && !IsOws(s[f.ve - 1]))
  {
    hide Within, IsOws, PlainName, Blanks, PlainValue;
    NameIsPlain(s[f.ns..f.ne]);
    BlanksAreOws(s[f.ne + 1..f.vs]);
    ValueIsPlain(s[f.vs..f.ve]);
    if f.vs < f.ve {
      ValuesInCharacters(s[f.vs]);
      ValuesInCharacters(s[f.ve - 1]);
    }
  }

  lemma BlanksEnd(s: seq<byte>, from: nat, end: nat)
    requires from <= |s|
    ensures BlankTail(s, from, end) <==> end == FindFrom(ScanNonOws, s, from) && (end == |s| || CrlfAt(s, end))
  {
    CrlfIsText(s, end);
    hide FindFrom;
    if from <= end <= |s| {
      BlanksAreOws(s[from..end]);
      WithinSlice(ScanNonOws, s, from, end);
      hide Within, Blanks;
      if Within(ScanNonOws, s[from..end]) && (end == |s| || CrlfAt(s, end)) {
        FindIs(ScanNonOws, s, from, end);
      }
    }
  }

  lemma WellFormedOrder(s: seq<byte>, f: Field)
    ensures FieldWellFormed(s, f) ==> f.ns < f.ne < f.vs <= f.ve <= |s|
    ensures PlainField(s, f) ==> f.ns < f.ne < f.vs <= f.ve <= |s|
  {
  }

  /** A field passes the check exactly when it is plain, with nothing but blanks up to some line end. */
  lemma WellFormedIff(s: seq<byte>, f: Field)
    ensures FieldWellFormed(s, f) <==> PlainField(s, f) && exists end: nat :: BlankTail(s, f.ve, end)
  {
    hide *;
    WellFormedOrder(s, f);
    if f.ns < f.ne < f.vs <= f.ve <= |s| {
      WellFormedWithin(s, f);
      PlainFieldWithin(s, f);
      BlanksEnd(s, f.ve, FindFrom(ScanNonOws, s, f.ve));
      forall end: nat | BlankTail(s, f.ve, end)
        ensures end == FindFrom(ScanNonOws, s, f.ve)
      {
        BlanksEnd(s, f.ve, end);
      }
    }
  }

  // ---- Refused blocks ----

  /** Where the parse of a block stops: at the first refused line or at the end. */
  function StopsAt(s: seq<byte>, off: nat): (r: nat)
    ensures off <= |s| ==> off <= r <= |s|
    decreases |s| - off
  {
    if off >= |s| then |s| else
      match ParseFieldLine(s, off)
      case Rejected(_) => off
      case Parsed(_, next) => StopsAt(s, next)
  }

  lemma ParsedStep(s: seq<byte>, off: nat)
    requires off < |s| && ParseFieldLine(s, off).Parsed?
    ensures StopsAt(s, off) == StopsAt(s, ParseFieldLine(s, off).next)
  {
  }

  lemma FullLines(lines: seq<FieldLine>)
    requires lines != []
    ensures RenderBlock(lines, true) == RenderLine(lines[0]) + CRLF + RenderBlock(lines[1..], true)
  {
  }

  lemma PiecesWithin(s: seq<byte>, off: nat, at: nat, line: seq<byte>, rest: seq<byte>)
    requires off <= at <= |s| && s[off..at] == line + CRLF + rest
    ensures var end := off + |line|;
            && end + 2 <= at && s[off..end] == line && CrlfAt(s, end) && s[end + 2..at] == rest
  {
    var end, t := off + |line|, s[off..at];
    SliceOfSlice(s, off, at, 0, |line|);
    SliceOfSlice(s, off, at, |line| + 2, |t|);
    assert t[..|line|] == line && t[|line| + 2..] == rest;
    assert s[end] == t[|line|] == CR && s[end + 1] == t[|line| + 1] == LF;
  }

  lemma NoLines(off: nat)
    ensures AllValid([]) && RenderBlock([], true) == [] && FieldsAt([], off) == []
  {
  }

  /** Complete lines at off do not change how the rest is read. */
  lemma {:induction false} LinesFirst(s: seq<byte>, off: nat, lines: seq<FieldLine>)
    requires AllValid(lines) && off + |RenderBlock(lines, true)| <= |s|
    requires s[off..off + |RenderBlock(lines, true)|] == RenderBlock(lines, true)
    ensures var at := off + |RenderBlock(lines, true)|;
            && BlockStatus(s, off) == BlockStatus(s, at)
            && BlockFields(s, off) == FieldsAt(lines, off) + BlockFields(s, at)
            && StopsAt(s, off) == StopsAt(s, at)
    decreases |lines|
  {
    hide *;
    var at := off + |RenderBlock(lines, true)|;
    if lines == [] {
      NoLines(off);
      assert [] + BlockFields(s, off) == BlockFields(s, off);
    } else {
      var l, rest := lines[0], lines[1..];
      var end := off + |RenderLine(l)|;
      FullLines(lines);
      BlockSplits(lines, true);
      PiecesWithin(s, off, at, RenderLine(l), RenderBlock(rest, true));
      RenderedHere(s, off, l);
      LineParses(s, off, l);
      BlockStep(s, off);
      FieldLineIs(s, off);
      ParsedStep(s, off);
      LinesFirst(s, end + 2, rest);
      FirstField(lines, off);
      ConcatThree([FieldAt(l, off)], FieldsAt(rest, end + 2), BlockFields(s, at));
    }
  }

  /** The block starts with these lines, and the next line is refused with st. */
  ghost predicate RefusedAfter(s: seq<byte>, lines: seq<FieldLine>, st: Status, fields: seq<Field>) {
    var at := |Text(lines, true)|;
    && PlainLines(lines) && Placed(lines, fields)
    && at < |s| && s[..at] == Text(lines, true) && ParseFieldLine(s, at) == Rejected(st)
  }

  lemma RefusedHere(s: seq<byte>, off: nat)
    requires off < |s| && ParseFieldLine(s, off).Rejected?
    ensures BlockStatus(s, off) == ParseFieldLine(s, off).status && BlockFields(s, off) == []
    ensures StopsAt(s, off) == off
  {
  }

  lemma LinesThenRefusal(s: seq<byte>, lines: seq<FieldLine>, st: Status, fields: seq<Field>)
    requires RefusedAfter(s, lines, st, fields)
    ensures BlockStatus(s, 0) == st && BlockFields(s, 0) == fields && StopsAt(s, 0) == |Text(lines, true)|
  {
    var at := |Text(lines, true)|;
    hide StopsAt, Text, Placed, PlainLines, ParseFieldLine, BlockStatus, BlockFields, RenderBlock;
    LinesArePlain(lines);
    RenderingIsText(lines, true);
    FieldsArePlaced(lines, fields);
    LinesFirst(s, 0, lines);
    RefusedHere(s, at);
    assert fields + [] == fields;
  }

  lemma RefusalStep(s: seq<byte>, off: nat, end: nat, l: FieldLine, rest: seq<FieldLine>)
    requires off <= end && end + 2 + |RenderBlock(rest, true)| < |s|
    requires ValidLine(l) && AllValid(rest) && RenderLine(l) == s[off..end] && CrlfAt(s, end)
    requires s[end + 2..end + 2 + |RenderBlock(rest, true)|] == RenderBlock(rest, true)
    ensures AllValid([l] + rest)
    ensures var at := off + |RenderBlock([l] + rest, true)|;
            at == end + 2 + |RenderBlock(rest, true)| && s[off..at] == RenderBlock([l] + rest, true)
    ensures FieldsAt([l] + rest, off) == [FieldAt(l, off)] + FieldsAt(rest, end + 2)
  {
    hide ValidLine, RenderLine, RenderBlock;
    var lines, at := [l] + rest, end + 2 + |RenderBlock(rest, true)|;
    assert lines[0] == l && lines[1..] == rest;
    FullLines(lines);
    assert s[end..end + 2] == CRLF;
    SliceJoin(s, off, end, end + 2);
    SliceJoin(s, off, end + 2, at);
    FirstField(lines, off);
  }

  lemma {:induction false} LinesBeforeRefusal(s: seq<byte>, off: nat) returns (lines: seq<FieldLine>)
    requires off <= |s| && BlockStatus(s, off) != Ok
    ensures AllValid(lines) && BlockFields(s, off) == FieldsAt(lines, off)
    ensures var at := off + |RenderBlock(lines, true)|;
            && at < |s| && s[off..at] == RenderBlock(lines, true)
            && ParseFieldLine(s, at) == Rejected(BlockStatus(s, off))
    decreases |s| - off
  {
    hide *;
    EmptyBlock(s, off, true);
    if ParseFieldLine(s, off).Rejected? {
      RefusedHere(s, off);
      NoLines(off);
      lines := [];
    } else {
      FieldLineIs(s, off);
      BlockStep(s, off);
      ParsedLineRenders(s, off);
      var r := ParseLine(s, off);
      var end := FindFrom(ScanNonFieldValue, s, r.field.vs);
      var l := LineOf(s, r.field, end);
      EmptyBlock(s, r.next, true);
      var rest := LinesBeforeRefusal(s, r.next);
      RefusalStep(s, off, end, l, rest);
      lines := [l] + rest;
    }
  }

  /** A block is refused with a status and these fields exactly when the text of plain lines placed
    * there comes before a line that is refused with this status. */
  lemma RefusedIffText(s: seq<byte>, st: Status, fields: seq<Field>)
    requires st != Ok
    ensures (BlockStatus(s, 0) == st && BlockFields(s, 0) == fields) <==>
            exists lines :: RefusedAfter(s, lines, st, fields)
  {
    hide BlockStatus, BlockFields, ParseFieldLine, Text, RenderBlock, FieldsAt, Placed;
    if BlockStatus(s, 0) == st && BlockFields(s, 0) == fields {
      var lines := LinesBeforeRefusal(s, 0);
      LinesArePlain(lines);
      RenderingIsText(lines, true);
      FieldsArePlaced(lines, fields);
      assert RefusedAfter(s, lines, st, fields);
    }
    hide *;
    forall lines | RefusedAfter(s, lines, st, fields)
      ensures BlockStatus(s, 0) == st && BlockFields(s, 0) == fields
    {
      LinesThenRefusal(s, lines, st, fields);
    }
  }

  // ---- Lowercased names ----

  /** k lies in the token that starts at `at`. */
  ghost predicate InToken(s: seq<byte>, at: nat, k: nat) {
    at <= k < |s| && forall j :: at <= j <= k ==> IsTchar(s[j])
  }

  lemma RefusedToken(s: seq<byte>, off: nat, k: nat)
    requires off <= k < |s| && ParseFieldLine(s, off).Rejected?
    ensures LoweredFrom(s, off)[k - off] == (if InToken(s, off, k) then Lower(s[k]) else s[k])
  {
    NonTokens();
    hide IsTchar, Lower, FindFrom;
    var ne := FindFrom(ScanNonToken, s, off);
    if ne < |s| {
      assert Stops(ScanNonToken, s[ne]);
    }
    assert forall j :: off <= j < ne ==> !Stops(ScanNonToken, s[j]);
  }

  ghost predicate InName(fields: seq<Field>, k: nat) {
    exists f <- fields :: f.ns <= k < f.ne
  }

  lemma NoName(k: nat)
    ensures !InName([], k)
  {
  }

  lemma NameOfFirst(f: Field, rest: seq<Field>, k: nat)
    ensures InName([f] + rest, k) <==> f.ns <= k < f.ne || InName(rest, k)
  {
    var fields := [f] + rest;
    assert f in fields && forall g <- rest :: g in fields;
  }

  lemma NotInLaterName(s: seq<byte>, off: nat, k: nat)
    requires k < off <= |s|
    ensures !InName(BlockFields(s, off), k) && !InToken(s, StopsAt(s, off), k)
  {
    hide BlockFields, LoweredFrom, StopsAt;
    LoweredNames(s, off);
  }

  lemma LoweredLine(s: seq<byte>, off: nat, k: nat)
    requires off <= k < |s| && ParseFieldLine(s, off).Parsed?
    ensures var r := ParseFieldLine(s, off);
            && off == r.field.ns < r.field.ne < r.next <= |s|
            && BlockFields(s, off) == [r.field] + BlockFields(s, r.next)
            && LoweredFrom(s, off)[k - off] == if k < r.field.ne then Lower(s[k]) else
                                               if k < r.next then s[k] else LoweredFrom(s, r.next)[k - r.next]
  {
    hide *;
    LoweredPieces(s, off);
    var r, low := ParseFieldLine(s, off), LoweredFrom(s, off);
    if k < r.field.ne {
      assert low[k - off] == low[..r.field.ne - off][k - off];
    } else if k < r.next {
      assert low[k - off] == low[r.field.ne - off..r.next - off][k - r.field.ne];
    } else {
      assert low[k - off] == low[r.next - off..][k - r.next];
    }
  }

  /** A byte is lowered when it lies in the name of a field or in the token at the start of the refused line. */
  lemma {:induction false} LoweredByte(s: seq<byte>, off: nat, k: nat)
    requires off <= k < |s|
    ensures LoweredFrom(s, off)[k - off] ==
            if InName(BlockFields(s, off), k) || InToken(s, StopsAt(s, off), k) then Lower(s[k]) else s[k]
    decreases |s| - off
  {
    hide *;
    if ParseFieldLine(s, off).Rejected? {
      RefusedHere(s, off);
      RefusedToken(s, off, k);
      NoName(k);
    } else {
      var r := ParseFieldLine(s, off);
      LoweredLine(s, off, k);
      ParsedStep(s, off);
      NameOfFirst(r.field, BlockFields(s, r.next), k);
      if k < r.next {
        NotInLaterName(s, r.next, k);
      } else {
        LoweredByte(s, r.next, k);
      }
    }
  }

  lemma NothingRefused(s: seq<byte>, off: nat)
    requires off <= |s| && BlockStatus(s, off) == Ok
    ensures StopsAt(s, off) == |s|
    decreases |s| - off
  {
    hide ParseFieldLine;
    if off < |s| && ParseFieldLine(s, off).Parsed? {
      NothingRefused(s, ParseFieldLine(s, off).next);
    }
  }

  lemma FinalIs(s: seq<byte>)
    ensures FinalBytes(s, true) == LoweredFrom(s, 0)
  {
  }

  lemma TokenIsPlain(s: seq<byte>, at: nat, k: nat)
    ensures InToken(s, at, k) <==> at <= k < |s| && PlainName(s[at..k + 1])
  {
    hide IsTchar;
    if at <= k < |s| {
      NameIsPlain(s[at..k + 1]);
      WithinSlice(ScanNonToken, s, at, k + 1);
      hide Within, PlainName;
      assert (forall j :: at <= j <= k ==> IsTchar(s[j])) <==>
             forall j :: at <= j < k + 1 ==> !Stops(ScanNonToken, s[j]);
    }
  }

  /** In an accepted block exactly the capitals of names become small letters. */
  lemma LoweredAccepted(s: seq<byte>, k: nat)
    requires k < |s| && BlockStatus(s, 0) == Ok
    ensures FinalBytes(s, true)[k] == if InName(BlockFields(s, 0), k) then Lower(s[k]) else s[k]
    ensures InName(BlockFields(s, 0), k) ==> !('A' <= FinalBytes(s, true)[k] as char <= 'Z')
    ensures FinalBytes(s, true)[k] != s[k] ==> 'A' <= s[k] as char <= 'Z'
  {
    hide *;
    FinalIs(s);
    LoweredByte(s, 0, k);
    NothingRefused(s, 0);
    TokenIsPlain(s, |s|, k);
    LowerInCharacters(s[k]);
  }

  /** In a refused block also those of the name characters that the refused line starts with. */
  lemma LoweredRefused(s: seq<byte>, lines: seq<FieldLine>, st: Status, fields: seq<Field>, k: nat)
    requires k < |s| && RefusedAfter(s, lines, st, fields)
    ensures var at := |Text(lines, true)|;
            FinalBytes(s, true)[k] ==
            if InName(fields, k) || (at <= k && PlainName(s[at..k + 1])) then Lower(s[k]) else s[k]
  {
    hide *;
    FinalIs(s);
    LinesThenRefusal(s, lines, st, fields);
    LoweredByte(s, 0, k);
    TokenIsPlain(s, |Text(lines, true)|, k);
  }

  // ---- Line ends, heads and request lines ----

  lemma TerminatorIsText(s: seq<byte>, h: nat)
    ensures TerminatorAt(s, h) <==> h + 4 <= |s| && s[h..h + 4] == Ascii("\r\n\r\n")
  {
    if h + 4 <= |s| {
      assert s[h..h + 4] == [s[h], s[h + 1], s[h + 2], s[h + 3]];
    }
  }

  lemma NoLfIff(s: seq<byte>, i: nat)
    ensures LineEnd(s, i) == -1 <==> forall k :: i <= k < |s| ==> s[k] as char != '\n'
    ensures LineEnd(s, i) >= -2
  {
    hide IsTchar, IsFieldValueByte;
    var lf := FindFrom(ScanLf, s, i);
    if lf < |s| {
      assert Stops(ScanLf, s[lf]);
    } else {
      assert forall k :: i <= k < |s| ==> !Stops(ScanLf, s[k]);
    }
  }

  lemma CrlfEnds(s: seq<byte>, i: nat, j: nat)
    requires i <= j && CrlfAt(s, j) && forall k :: i <= k < j ==> s[k] != LF
    ensures LineEnd(s, i) == j
  {
    DecidedByLf(s, i, j + 1);
  }

  /** The line from i on has no LF, or ends at the first LF when that is part of a CRLF, or is refused. */
  lemma LineEndIff(s: seq<byte>, i: nat, j: nat)
    ensures LineEnd(s, i) == -1 <==> forall k :: i <= k < |s| ==> s[k] as char != '\n'
    ensures LineEnd(s, i) == j <==> && i <= j && j + 2 <= |s| && s[j..j + 2] == Ascii("\r\n")
                                    && forall k :: i <= k < j ==> s[k] as char != '\n'
    ensures LineEnd(s, i) >= -2
  {
    NoLfIff(s, i);
    CrlfIsText(s, j);
    hide LineEnd, FindFrom;
    if LineEnd(s, i) == j {
      LineEndIsFirstCrlf(s, i);
    } else if i <= j && CrlfAt(s, j) && forall k :: i <= k < j ==> s[k] as char != '\n' {
      CrlfEnds(s, i, j);
    }
  }

  /** method " " target " " version */
  ghost predicate RequestText(s: seq<byte>, meth: seq<byte>, target: seq<byte>, version: seq<byte>) {
    && PlainName(meth) && target != [] && (forall k :: 0 <= k < |target| ==> target[k] as char != ' ')
    && s == meth + Ascii(" ") + target + Ascii(" ") + version
  }

  predicate RequestAt(r: ReqLine, meth: seq<byte>, target: seq<byte>) {
    && r.ReqLine? && r.methEnd == |meth| && r.tgtS == r.methEnd + 1
    && r.tgtE == r.tgtS + |target| && r.verS == r.tgtE + 1
  }

  lemma TokenByte(s: seq<byte>, k: nat)
    requires PlainName(s) && k < |s|
    ensures IsTchar(s[k])
  {
    TokensInCharacters(s[k]);
  }

  lemma RequestTextSplits(s: seq<byte>, r: ReqLine, meth: seq<byte>, target: seq<byte>, version: seq<byte>)
    requires RequestText(s, meth, target, version) && RequestAt(r, meth, target)
    ensures IsReqLine(s, r)
  {
    hide PlainName, IsTchar;
    assert |meth| > 0 by {
      NameIsPlain(meth);
    }
    forall k | 0 <= k < |meth|
      ensures IsTchar(s[k])
    {
      TokenByte(meth, k);
    }
    assert forall k :: r.tgtS <= k < r.tgtE ==> s[k] == target[k - r.tgtS];
  }

  lemma SplitIsRequestText(s: seq<byte>, r: ReqLine) returns (meth: seq<byte>, target: seq<byte>, version: seq<byte>)
    requires IsReqLine(s, r)
    ensures RequestText(s, meth, target, version) && RequestAt(r, meth, target)
  {
    meth, target, version := s[..r.methEnd], s[r.tgtS..r.tgtE], s[r.verS..];
    NameIsPlain(meth);
    hide PlainName, IsTchar;
    assert s == meth + [SP] + target + [SP] + version;
    assert [SP] == Ascii(" ");
  }

  /** The split of a request line, if and only if the line is such a text. */
  lemma RequestIff(s: seq<byte>, r: ReqLine)
    ensures IsReqLine(s, r) <==>
            exists meth, target, version :: RequestText(s, meth, target, version) && RequestAt(r, meth, target)
  {
    hide *;
    if IsReqLine(s, r) {
      var meth, target, version := SplitIsRequestText(s, r);
    }
    forall meth, target, version | RequestText(s, meth, target, version) && RequestAt(r, meth, target)
      ensures IsReqLine(s, r)
    {
      RequestTextSplits(s, r, meth, target, version);
    }
  }
}
