# wireform reference codecs and parsers, verified

wireform checks its C kernels against slow scalar reference implementations: validators, codecs and
parsers over byte buffers, together with drivers that run two of them side by side and compare. This
project models those references and drivers in Dafny and proves for every input what the fuzz targets
sample: that the two independent implementations of each format agree, that encoders and decoders undo
each other, and that checks composed from several passes are safe. Where a fast kernel is plain word or
buffer manipulation it is modelled too and proved equal to its reference.

## How the model is written

- Buffers the code writes are `array<byte>` and are mutated in place with read and write cursors; a
  pointer into the middle of a buffer is the array and an offset, so aliasing (`dst == src`) is real
  aliasing. Buffers that are only read (`const`) are sequences, or arrays where the same code also runs
  on a buffer being rewritten. Dafny checks every index.
- Machine integers are subset types of `int` (`Bytes.dfy`), so an assignment to one carries the proof
  that it does not overflow; truncation and wrap-around are written with `%`. Masks and shifts by
  constants are division and remainder, an OR of disjoint bit ranges is a sum (`Words.OrDisjoint`), and a
  shift by a variable amount is repeated halving (`Bits.dfy`). Code that works on whole words uses the
  bitwise operators of `Words.dfy`.
- Each method is proved equal to a recursive or declarative specification over sequences, and the
  theorems are lemmas about those specifications.
- Byte classes, alphabets, entities and other constants are stated a second time in literal characters
  and numbers, and so are the languages and outputs built from them: the sections "in characters" and
  "in numbers", and `Http1Text.dfy`.
- A loop nested deep in one C function is sometimes a method of its own (`Http1Headers.RpToken`,
  `Base64.OrSextet`); its contract is then stated separately.
- `hide` statements keep definitions out of proofs that do not need them. They only remove facts.

| file | what it covers |
|---|---|
| `Bytes.dfy`, `Bits.dfy`, `Words.dfy` | machine integers, slices, single bits, bitmaps, bitwise operators on words |
| `Utf8.dfy` | the encoder, the two strict validators, cutting and joining well-formed text |
| `Columns.dfy` | offsets, boundary check, and their composition for Arrow string columns |
| `Take.dfy` | two-pass take on variable-length columns |
| `Bitmap.dfy` | bit writes, unaligned bit copies, conjunction and gather |
| `Roaring.dfy`, `RoaringKernels.dfy`, `RoaringChecks.dfy` | array and bitset containers, their fast forms, and the drivers |
| `Http1Bytes.dfy`, `Http1Lines.dfy` | byte classes, scanners, line ends, head ends, request lines |
| `Http1Reader.dfy` | the streaming reader's head search across refills |
| `Http1Headers.dfy` | both header-block parsers with in-place lowercasing |
| `Http1Grammar.dfy`, `Http1Text.dfy` | the header grammar as a renderer, and all of it in literal characters |
| `Http1HeadWalk.dfy` | the line walk against the head search and the block parse |
| `Http1HeadDiff.dfy` | the differential driver |
| `Varint.dfy`, `VarintSwar.dfy`, `Packed.dfy`, `ProtoFields.dfy` | varints, the branch-free decoder, packed runs, field framing |
| `ArrowBuffers.dfy` | in-order buffer ranges of a record batch |
| `Base64.dfy` | bit-serial encoder and decoder |
| `UrlCodec.dfy`, `UrlKernel.dfy`, `UrlChecks.dfy` | percent coding, the library's block-moving decoder, and the two drivers |
| `HtmlEscape.dfy` | chunked escaping, unescaping and their driver |

## Findings

Four statements one might expect are false of the code. The code is modelled as it is; each has a
concrete or parametric counterexample and an exact condition.

1. The column constructor (`mkUtf8`) validates only the referenced byte range but checks the last offset against
   the whole data, so it refuses columns whose rows are all valid when an unreferenced continuation byte
   follows the last row (`TrailingGarbageIsRejected`). `AcceptsUtf8Column` gives the exact condition.
2. Over valid data, valid rows do not force the boundary check to pass when no row has bytes
   (`RowlessColumnIsRejected`); `BoundariesDecideRows` is the exact equivalence.
3. The streaming reader compares its cap with the number of bytes received, so for a head that ends at
   idx with idx <= cap < idx + 3 the outcome depends on how the stream is cut (`ChunkingMatters`).
   `ReadOutcome` says when the head is delivered, for every cutting; outside that window chunking is
   irrelevant (`ChunkingIrrelevant`).
4. In text mode a text that unescapes is not always the escaped form of the result: `&quot;` unescapes but
   is never written (`QuotEntityInText`). `EscapedIff` gives the exact condition; in attribute mode there is
   no exception.

## Model

| member | source | states |
|---|---|---|
| Utf8.Encode | c-harness/core-fast-decode/api.h:357-376 | writes the generic UTF-8 layout of any 21-bit value and touches nothing else |
| Utf8.EncodedWellFormedIff | c-harness/core-fast-decode/api.h:355-376 | the encoder's output is valid UTF-8 exactly for scalar values, so surrogates and values above U+10FFFF are the only bad inputs |
| Utf8.EncodedPayload | c-harness/core-fast-decode/api.h:357-376 | the code point is the sum of the payload bits of its one to four bytes, most significant first |
| Utf8.ValidByDecoding | c-harness/columnar-simd/api.h:280-310 | the decode-then-range-check validator accepts exactly the concatenations of encoded scalar values |
| Utf8.DecodeTail | c-harness/columnar-simd/api.h:302-305 | the inner loop: succeeds iff all announced bytes are continuation bytes, with the accumulator never exceeding 32 bits |
| Utf8.ValidByRanges | c-harness/core-fast-decode/api.h:325-353 | the table 3-7 validator accepts exactly the same strings as the decoding one |
| Utf8.TableRows | c-harness/core-fast-decode/api.h:334-350 | the second-byte ranges of table 3-7 pick out exactly the shortest encodings of scalar values |
| Utf8.DecompositionUnique | c-harness/core-fast-decode/api.h:355-376 | a byte string is the encoding of at most one list of scalar values |
| Utf8.CutPoints | c-harness/columnar-simd/api.h:233-239 | valid text splits into two valid parts exactly at its ends and in front of non-continuation bytes |
| Utf8.WellFormedConcat | c-harness/columnar-simd/api.h:282-310 | validity is closed under concatenation |
| Utf8.WellFormedCancel | c-harness/columnar-simd/api.h:282-310 | a valid prefix can be removed from valid text |
| Columns.CheckOffsets | c-harness/columnar-simd/api.h:213-221 | -1 iff the offsets are empty or non-negative, non-decreasing and within the limit; otherwise the first offending index |
| Columns.FirstBadOffsetIs | c-harness/columnar-simd/api.h:213-221 | the reported offset is the only one that first breaks the rules, and only the last one can break the limit |
| Columns.CheckBoundaries | c-harness/columnar-simd/api.h:233-239 | the first offset strictly inside the data that points at a continuation byte, or -1 |
| Columns.RowsSafe | c-harness/columnar-simd/api.h:69-74 | valid range plus passing boundary check makes every row slice valid UTF-8 on its own |
| Columns.RowStartsAreBoundaries | c-harness/columnar-simd/api.h:69-74 | with valid rows, no offset before the last one can fail the boundary check |
| Columns.AcceptsUtf8Column | wireform-arrow/src/Arrow/Column/Internal.hs:481-507 | the three checks together accept iff offsets are valid, every row is valid UTF-8 and the last offset is not inside a code point |
| Columns.TrailingGarbageIsRejected | wireform-arrow/src/Arrow/Column/Internal.hs:495-507 | a column with only valid rows that is refused because of an unreferenced byte |
| Columns.RowlessColumnIsRejected | c-harness/columnar-simd/api.h:233-239 | valid data, valid offsets and no invalid row, and still an offset inside a code point |
| Columns.BoundariesDecideRows | c-harness/columnar-simd/api.h:233-239 | over valid data the boundary check passes iff all rows are valid and, when no row has bytes, the shared offset is a boundary |
| Take.TakeOffsets | c-harness/columnar-simd/api.h:350-360 | -1 iff the selected total exceeds the offset type's limit; otherwise running sums of the selected lengths, with entries past n untouched |
| Take.TakeBytes | c-harness/columnar-simd/api.h:362-369 | writes exactly the selected total: the selected rows in order, nothing past them |
| Take.TakenRows | c-harness/columnar-simd/api.h:135-147 | the output offsets pass the offsets check against the output and output row k is source row idx[k] |
| Take.TakeColumn | c-harness/columnar-simd/fuzz_take.c:65-105 | both passes back to back: fails iff the total does not fit, else a valid column of the picked rows starting at 0 and ending at its data length |
| Take.BuildOffsets | c-harness/columnar-simd/fuzz_take.c:50-61 | saturating offset construction from the payload, huge lengths shifted by 31 bits included, yields valid offsets, wide and narrow |
| Take.BuildColumn | c-harness/columnar-simd/fuzz_take.c:45-63 | rows clamped to the payload; the offsets and the indices cut from it are valid for every payload |
| Take.PayloadLengthIs | c-harness/columnar-simd/fuzz_take.c:50-61 | a huge row length is the little-endian word of its four bytes, moved up by 31 bits when wide |
| Take.TakeTwice | c-harness/columnar-simd/api.h:135-147 | taking twice equals taking once with composed indices, down to offsets and bytes |
| Take.TotalsCompose | c-harness/columnar-simd/api.h:135-147 | the second take's total is the composed take's total, so one overflows iff the other does |
| Take.TakeKeepsUtf8 | c-harness/columnar-simd/api.h:142-147 | a take from a validated string column yields valid rows without re-validation |
| Bitmap.WriteBit | c-harness/columnar-simd/api.h:158-161 | changes one bit of the bitmap and no other |
| Bitmap.CopyBits | c-harness/columnar-simd/api.h:182-185 | at any two bit offsets replaces exactly the n target bits; the total population changes by source range minus old target range |
| Bitmap.CountBits | c-harness/columnar-simd/api.h:175-180 | number of set bits of the range |
| Bitmap.AndBits | c-harness/columnar-simd/api.h:187-198 | conjunction of two unaligned ranges, zero trailing bits, later bytes untouched, result equal to the population count of the bytes written |
| Bitmap.GatherBits | c-harness/columnar-simd/api.h:200-210 | gathered bits, zero trailing bits, later bytes untouched, result equal to the population count of the bytes written |
| Bitmap.TrailingZeros | c-harness/columnar-simd/api.h:89-97 | a bitmap holding n bits and zeros after them has exactly their sum as population count |
| Words.BitAtIs | c-harness/columnar-simd/api.h:153-156 | bit k of a bitmap is bit k % 8, counted from the least significant one, of byte k / 8 |
| Bits.PopCountIsSize | c-harness/columnar-simd/api.h:175-180 | the count is the number of set positions |
| Bitmap.AndIsContained | c-harness/columnar-simd/api.h:187-198 | the result has a bit exactly where both ranges have one |
| Bitmap.AndCounts | c-harness/columnar-simd/api.h:187-198 | among the first bits of the result never more are set than in either range |
| Bitmap.AndWithItself | c-harness/columnar-simd/api.h:187-198 | a range and itself make what a bit copy of the range makes |
| Bitmap.GatherConsecutive | c-harness/columnar-simd/api.h:200-210 | gathering consecutive positions makes what a bit copy of them makes |
| Bitmap.GatherTwice | c-harness/columnar-simd/api.h:200-210 | gathering from a gathered bitmap is gathering the composed positions |
| Roaring.DecodeArray | c-harness/core-hash/api.h:248-254 | writes one entry for each 16-bit little-endian word, with that word as low half and the low half of hi as high half, in 32-bit two's complement |
| Roaring.DecodeBitset | c-harness/core-hash/api.h:256-264 | writes exactly population-count entries: the members in ascending order as low halves, the low half of hi as high half |
| Roaring.TagHalves | c-harness/core-hash/api.h:252-261 | both halves can be read back from an entry |
| Roaring.EntriesDetermined | c-harness/core-hash/api.h:248-264 | the halves of the entries determine the decoded list |
| Roaring.ArrayMember | c-harness/core-hash/api.h:267-274 | exact membership for any order of the array and any cardinality, negative ones being empty |
| Roaring.BuildBitset | c-harness/core-hash/fuzz_roaring_bitset.c:39-45 | bit v is set iff v was listed, for any order and duplicates |
| Roaring.BitsetRoundTrip | c-harness/core-hash/fuzz_roaring_bitset.c:41-58 | decoding the bitset of any list gives a strictly ascending list whose low halves are exactly its distinct values and whose high halves are that of the key |
| Roaring.DecodersAgree | c-harness/core-hash/api.h:45-65 | for a sorted array without duplicates both containers decode to one list |
| RoaringKernels.ClearLowest | wireform-core/cbits/wireform_hash_simd.c:329 | `w & (w - 1)` clears the bit the trailing zeros end at and no other |
| RoaringKernels.DecodeBitset | wireform-core/cbits/wireform_hash_simd.c:317-333 | walking 64-bit words by lowest set bits writes the same list and count as testing all bits one by one, every entry with its member and the key as halves |
| RoaringKernels.LinearSearch | wireform-core/cbits/wireform_hash_simd.c:362-377 | on any array: found iff a hit lies in the blocks of eight, or in the rest with no greater value of the rest before it |
| RoaringKernels.Contains | wireform-core/cbits/wireform_hash_simd.c:347-391 | word lookup, linear and binary search: exact on bitsets and on sorted arrays with duplicates, no false positive on any array |
| RoaringKernels.UnsortedMiss | c-harness/core-hash/api.h:67-72 | an unsorted array on which a member is missed |
| RoaringChecks.CheckArray | c-harness/core-hash/fuzz_roaring_array.c:43-87 | membership in an array as given, sorted, and as a bitset never disagrees, whatever is looked for |
| RoaringChecks.CheckBitset | c-harness/core-hash/fuzz_roaring_bitset.c:53-66 | both decoders and both membership tests agree on every bitset |
| Http1Bytes.CheckTchar | c-harness/http1-scan/api.h:67-77 | table search answers the token-class question, which `TokensInCharacters` spells out |
| Http1Bytes.TokensInCharacters | c-harness/http1-scan/api.h:67-77 | a token byte is a visible ASCII character other than the 17 delimiters |
| Http1Bytes.ValuesInCharacters | c-harness/http1-scan/api.h:79-84 | a field value byte is a tab or no control character; optional whitespace is space and tab |
| Http1Bytes.Find | c-harness/http1-scan/api.h:107-129 | first stopping byte at or after the offset, else the length, also for offsets beyond it |
| Http1Bytes.ToLowerInPlace | c-harness/http1-scan/api.h:131-134 | lowercases exactly the given range of the buffer |
| Http1Bytes.EqualIgnoringCase | c-harness/http1-scan/api.h:136-142 | true iff the lowercased strings are equal |
| Http1Bytes.LowerKeepsTokens | c-harness/http1-scan/api.h:98-101 | lowercasing keeps a byte in or out of the token class |
| Http1Bytes.LowerInCharacters | c-harness/http1-scan/api.h:98-101 | each capital letter becomes its small letter, no other byte changes, and no capital is left |
| Http1Lines.KpScanLine | c-harness/http1-scan/api.h:242-256 | the scanner-driven line scan: the first LF decides the line |
| Http1Lines.RpScanLine | c-harness/http1-scan/api.h:258-268 | the byte-at-a-time line scan gives the same answer |
| Http1Lines.LineEndIsFirstCrlf | c-harness/http1-scan/api.h:238-240 | a found line end is a CRLF with no LF before it |
| Http1Lines.LineEndStable | c-harness/http1-scan/api.h:242-268 | an answer other than "need more" never changes as bytes arrive |
| Http1Text.LineEndIff | c-harness/http1-scan/api.h:238-268 | "need more" iff there is no LF, a line end iff the first LF is part of that CRLF, else refused |
| Http1Lines.KpFindHeadEnd | c-harness/http1-scan/api.h:270-283 | first CRLFCRLF at or after the start, found by hopping over CRs |
| Http1Lines.RpFindHeadEnd | c-harness/http1-scan/api.h:285-291 | the same index byte by byte |
| Http1Lines.HeadEndStable | c-harness/http1-scan/api.h:270-291 | later bytes do not move a found terminator |
| Http1Lines.ResumeAfterMiss | c-harness/http1-scan/head_diff.h:85-90 | after a miss, resuming three bytes before the old end equals scanning everything |
| Http1Text.TerminatorIsText | c-harness/http1-scan/api.h:270-291 | the terminator is CR LF CR LF |
| Http1Lines.KpRequestLine | c-harness/http1-scan/api.h:300-314 | splits the line as method, target, version iff it can be split |
| Http1Lines.RpRequestLine | c-harness/http1-scan/api.h:316-331 | the same decision byte by byte |
| Http1Lines.ReqLineUnique | c-harness/http1-scan/api.h:293-298 | a line has at most one split, so the two agree |
| Http1Text.RequestIff | c-harness/http1-scan/api.h:293-331 | a line is split iff it is a name, a space, a non-empty target without spaces, a space and a version, and the offsets are theirs |
| Http1Reader.ReadHeaderBlock | wireform-http1/src/Network/HTTP1/StreamingReader.hs:176-218 | the resuming reader equals one that rescans everything on every refill |
| Http1Reader.ReadOutcome | wireform-http1/src/Network/HTTP1/StreamingReader.hs:194-218 | outcome for every cutting of a stream, ended by end of input, by a failure or not at all: delivered iff the terminator is within the cap and no refill stalls past it; later reports are not looked at |
| Http1Reader.ReportsSplit | wireform-http1/src/Network/HTTP1/StreamingReader.hs:215-218 | every list of transport reports is refills followed by nothing or by the report that ends the stream |
| Http1Reader.ChunkingIrrelevant | wireform-http1/src/Network/HTTP1/StreamingReader.hs:194-218 | two cuttings of one stream give one outcome unless the cap falls in the three-byte window |
| Http1Reader.ChunkingMatters | wireform-http1/src/Network/HTTP1/StreamingReader.hs:198-208 | inside that window the same stream is delivered or refused depending on the cutting |
| Http1Headers.KpOneHeader | c-harness/http1-scan/api.h:337-360 | one field line by scanners: field, next offset, or the rejecting status; `Http1Text.ParsedIff` and `BadNameIff` say in characters which |
| Http1Headers.KpHeaderBlock | c-harness/http1-scan/api.h:365-389 | status, field list and final buffer bytes of the block, also when it is refused half way through lowercasing; `Http1Text` says in characters what they are |
| Http1Headers.RpLine | c-harness/http1-scan/api.h:398-435 | one line of the state machine parses as the scanner-driven line does, leaving the same bytes |
| Http1Headers.RpHeaderBlock | c-harness/http1-scan/api.h:392-437 | the same status, fields and final bytes as the scanner-driven parser, in both modes, on every input |
| Http1Headers.ParseLineLowered | c-harness/http1-scan/api.h:362-380 | lowercasing a name first does not change how its line parses |
| Http1Headers.CheckFieldWellFormed | c-harness/http1-scan/api.h:444-461 | decides the well-formedness conditions of a field |
| Http1Text.WellFormedIff | c-harness/http1-scan/api.h:439-461 | a field passes iff its name, colon, blanks and value are plain and only blanks follow up to a line end |
| Http1Headers.AcceptedFieldsWellFormed | c-harness/http1-scan/api.h:439-461 | every field accepted from any block is well formed |
| Http1Headers.LoweredNames | c-harness/http1-scan/head_diff.h:53-59 | each accepted name is lowercased in the final buffer |
| Http1Headers.OnlyNamesChange | c-harness/http1-scan/api.h:362-364 | in an accepted block no byte outside a name changes |
| Http1Grammar.RenderingAccepted | c-harness/http1-scan/api.h:207-214 | every rendering of valid lines is accepted with exactly their fields, which tile the block |
| Http1Grammar.AcceptedRenders | c-harness/http1-scan/api.h:365-389 | every accepted block is the rendering of the lines its fields were read from |
| Http1Grammar.AcceptedIffRendered | c-harness/http1-scan/api.h:207-214 | acceptance with a field list is equivalent to being a rendering of lines at those fields |
| Http1Grammar.RenderInjective | c-harness/http1-scan/api.h:439-443 | a block determines its lines, whitespace runs included |
| Http1Text.AcceptedIffText | c-harness/http1-scan/api.h:207-214 | accepted with a field list iff the block is the text of lines of plain names, blanks and values, each followed by CRLF, the last CRLF optional, and the fields are their places |
| Http1Text.ParsedIff | c-harness/http1-scan/api.h:337-360 | a line parses to a field and a next offset iff it is such a line at that place, ended by CRLF or the end |
| Http1Text.BadNameIff | c-harness/http1-scan/api.h:337-347 | a line is refused for its name iff it does not start with a blank and no plain name with a colon stands there; every other refusal is for its value |
| Http1Text.RefusedIffText | c-harness/http1-scan/api.h:365-389 | a block is refused with a status and fields iff the text of lines at those fields comes before a line refused with that status |
| Http1Text.LoweredAccepted | c-harness/http1-scan/api.h:362-389 | the final buffer of an accepted block differs exactly in the capitals of names, and names keep no capital |
| Http1Text.LoweredRefused | c-harness/http1-scan/api.h:362-389 | in a refused block also the plain name characters that the refused line starts with are lowercased, and nothing else |
| Http1HeadWalk.WalkIffTerminator | c-harness/http1-scan/head_diff.h:81-114 | the line walk ends at an empty line after another line iff a terminator exists with no bare LF before it and the head does not start with an empty line; both report the same place |
| Http1HeadWalk.LineAlone | c-harness/http1-scan/api.h:337-360 | a line of a block parses on its own as it does in the block, field positions moved |
| Http1HeadWalk.BlockIsItsLines | c-harness/http1-scan/head_diff.h:106-134 | the block is refused with the status of the first line refused on its own, and accepted with one field a line otherwise |
| Http1HeadDiff.FieldsEqual | c-harness/http1-scan/head_diff.h:25-34 | compares status and count, and the stored fields of accepted blocks |
| Http1HeadDiff.DiffBlock | c-harness/http1-scan/head_diff.h:37-71 | the block comparison finds no disagreement on any input |
| Http1HeadDiff.DiffLines | c-harness/http1-scan/head_diff.h:92-114 | line splitting with per-line field parses finds no disagreement and terminates |
| Http1HeadDiff.DiffHead | c-harness/http1-scan/head_diff.h:73-138 | the whole driver reports agreement for every buffer, with the true head end, line count, request line and block result, each marked absent exactly when it was not reached |
| Varint.DecodeVarint | c-harness/core-fast-decode/api.h:269-282 | length and value modulo 2^64 of the varint, 0 when unterminated in ten bytes or at the end |
| Varint.SkipVarint | c-harness/core-fast-decode/api.h:290-294 | the length alone |
| Varint.VarintLenIs | c-harness/core-fast-decode/api.h:269-294 | a varint is the bytes up to and including the first one below 0x80, at most ten and all inside the buffer |
| Varint.AccumulateGroup | c-harness/core-fast-decode/api.h:275 | the bitwise OR of the shifted group, truncated to 64 bits, adds it modulo 2^64 |
| Varint.EncodeVarint | c-harness/core-fast-decode/api.h:378-387 | writes the encoding and nothing past it |
| Varint.VarintSize | c-harness/core-fast-decode/api.h:389-397 | the size computed without encoding is the encoding's length |
| Varint.DecodeEncoded | c-harness/core-fast-decode/fuzz_encode.c:21-30 | decoding at an encoded value returns it, whatever surrounds it |
| Varint.DecodedBit | c-harness/core-fast-decode/api.h:269-282 | byte i of a varint gives bits 7 * i to 7 * i + 6 of the value, and there is nothing from bit 64 on |
| Varint.EncodedIsShortest | c-harness/core-fast-decode/api.h:378-387 | no byte string that decodes to a value is shorter than its encoding |
| VarintSwar.Decode | wireform-core/cbits/fast_decode.c:153-218 | the branch-free decoder returns the length and value of the byte-at-a-time decoder when the varint ends within eight bytes, else 0 |
| VarintSwar.TerminatorMask | wireform-core/cbits/fast_decode.c:171-186 | the trailing zeros of the flipped and masked word locate the first byte below 0x80 |
| VarintSwar.CompactWord | wireform-core/cbits/fast_decode.c:206-214 | the eight mask-and-shift terms push the seven-bit groups together into the value |
| Packed.DecodePacked | c-harness/core-fast-decode/api.h:296-308 | -1 iff malformed or more values than fit; otherwise the values, with later slots untouched |
| Packed.CountPacked | c-harness/core-fast-decode/api.h:310-315 | number of bytes below 0x80 |
| Packed.OneTerminatorPerValue | c-harness/core-fast-decode/fuzz_packed.c:32-36 | any successful decode returns as many values as there are bytes below 0x80 |
| Packed.RunIffShape | c-harness/core-fast-decode/api.h:296-308 | a byte string is a run iff its last byte and one of any ten consecutive bytes end a varint |
| Packed.RunRoundTrip | c-harness/core-fast-decode/api.h:296-308 | encodings written back to back decode to the list they came from |
| ProtoFields.SkipField | c-harness/core-fast-decode/api.h:399-418 | offset past the payload or -1, with no overflow of the int offsets |
| ProtoFields.SkipAdvances | c-harness/core-fast-decode/api.h:163-167 | on arbitrary bytes a skip fails or strictly advances within the buffer |
| ProtoFields.SkipNeedsWholePayload | c-harness/core-fast-decode/api.h:399-418 | cutting anywhere inside a payload makes its skip fail; bytes after it do not matter |
| ProtoFields.SkipSerialized | c-harness/core-fast-decode/fuzz_encode.c:42-72 | skipping a serialised payload lands on its end |
| ProtoFields.SkipTruncated | c-harness/core-fast-decode/fuzz_encode.c:73-74 | a serialised payload short by any amount is refused |
| ProtoFields.WalkFields | c-harness/core-fast-decode/fuzz_encode.c:67-72 | the loop of tag decode and skip reports the offset after each field or a framing error |
| ProtoFields.WalkVisitsBoundaries | c-harness/core-fast-decode/api.h:399-418 | for every list of fields the walk visits exactly their boundaries |
| ProtoFields.EndsAtEnd | c-harness/core-fast-decode/api.h:399-418 | the last boundary is the end of the message |
| ProtoFields.FieldIsComplete | c-harness/core-fast-decode/api.h:399-418 | a field of a buffer is a field of its own bytes alone, and conversely |
| ProtoFields.WalkIffPieces | c-harness/core-fast-decode/api.h:399-418 | on arbitrary bytes the walk reaches the end with the given ends iff the bytes are complete fields one after the other with those ends |
| ProtoFields.CompleteFieldIff | c-harness/core-fast-decode/api.h:399-418 | a field is a tag varint and, by its low three bits, a varint, eight bytes, a counted run or four bytes; no other wire type has a payload |
| ProtoFields.UnknownTagBreaks | c-harness/core-fast-decode/api.h:399-418 | a walk that meets a tag of another wire type after any number of fields is broken |
| ProtoFields.TagIs | c-harness/core-fast-decode/fuzz_encode.c:42-72 | a tag is the field number above the three bits of the wire type 0, 1, 2 or 5 |
| ArrowBuffers.ValidateArrow | c-harness/core-fast-decode/api.h:493-506 | the running maximum decides the pairwise ordering condition, without 64-bit overflow |
| ArrowBuffers.ValidIff | c-harness/core-fast-decode/api.h:493-506 | the accepted metadata read off the array: offset at 2 * i, length after it, inside the body and in order |
| ArrowBuffers.BuffersDisjoint | c-harness/core-fast-decode/api.h:213-222 | no body byte belongs to two accepted buffers |
| ArrowBuffers.TotalWithinBody | c-harness/core-fast-decode/api.h:213-222 | accepted lengths add up to at most the body length |
| Base64.LookUp | c-harness/core-base64/api.h:72-78 | the sextet whose character is c, or -1 for bytes outside the alphabet, which `AlphabetIs` spells out |
| Base64.AlphabetIs | c-harness/core-base64/api.h:46-47 | A to Z, a to z, 0 to 9, "+" and "/" stand for 0 to 63 in this order, and "=" for none |
| Base64.Encode | c-harness/core-base64/api.h:54-70 | the bit-serial loop writes the characters of the bit stream's sextets and padding, 4*ceil(n/3) bytes in all; `EncodedQuartet` gives the four characters of every three bytes |
| Base64.EncodedQuartet | c-harness/core-base64/api.h:54-70 | the g-th four characters are the letters of the four six-bit parts of bytes 3 * g to 3 * g + 2, or "=" past the end |
| Base64.Decode | c-harness/core-base64/api.h:80-104 | -1 iff not a multiple of four or not alphabet plus at most two final "="; otherwise the whole bytes of the bit stream, nothing written past them; `DecodedTriple` gives the bytes of every four characters |
| Base64.DecodedTriple | c-harness/core-base64/api.h:80-104 | the g-th four characters of an accepted text decode to the bytes made of their six-bit values |
| Base64.OrSextet | c-harness/core-base64/api.h:95-102 | OR-ing one sextet into zeroed output extends the decoded stream by six bits and drops those past the output |
| Base64.AcceptedPad | c-harness/core-base64/api.h:87-91 | the padding read off the last two bytes is the only one that can make a text acceptable |
| Base64.AcceptedInCharacters | c-harness/core-base64/api.h:80-93 | accepted iff the length is a multiple of four and the text is letters of the alphabet followed by at most two "=" |
| Base64.DecodedLength | c-harness/core-base64/api.h:87-104 | three bytes for each four characters, less one for each "=" |
| Base64.DecodeEncoded | c-harness/core-base64/api.h:54-104 | every encoding is accepted and decodes to its input, in all three padding cases |
| Base64.EncodeDecoded | c-harness/core-base64/fuzz_base64_decode.c:29-33 | re-encoding an accepted text gives its length and the text with the unused bits cleared |
| Base64.CanonicalIff | c-harness/core-base64/api.h:23-26 | re-encoding is the identity iff the unused bits are zero |
| Base64.DecodeIsStable | c-harness/core-base64/fuzz_base64_decode.c:29-36 | decode, encode, decode returns what the first decode did |
| UrlCodec.LookUpHex | c-harness/hermes-url-decode/api.h:49-57 | digit value in either case or -1 |
| UrlCodec.Decode | c-harness/hermes-url-decode/api.h:59-86 | the same verdict and bytes out of place, in place and into an exact-size buffer; never longer than the input; the lemmas in characters below say which bytes |
| UrlCodec.PlainTextDecodes | c-harness/hermes-url-decode/api.h:59-86 | without "%" every byte stands for itself, except that a form's "+" is a space |
| UrlCodec.EscapeDecodes | c-harness/hermes-url-decode/api.h:59-86 | "%" and two digits of either case decode to the byte they spell, and decoding goes on after them |
| UrlCodec.BadEscapes | c-harness/hermes-url-decode/api.h:59-86 | "%" with fewer than two characters after it, all of them digits, is cut off; with a character that is no digit it is malformed |
| UrlCodec.ScanSpecial | c-harness/hermes-url-decode/api.h:41-47 | first byte the decoder would change |
| UrlCodec.CleanPrefix | c-harness/hermes-url-decode/api.h:23-30 | a prefix without special bytes decodes to itself and leaves the rest's result or error |
| UrlCodec.DecodeConcat | c-harness/hermes-url-decode/api.h:59-86 | decoding continues across any cut after a valid first part |
| UrlCodec.FirstErrorReported | c-harness/hermes-url-decode/api.h:23-30 | each error is reported iff it is the error of the first bad escape |
| UrlKernel.Decode | hermes/cbits/url_decode.c:138-176 | the decoder that moves whole runs, overlapping ones in place included, meets the contract of the byte-at-a-time decoder, `PlainTextDecodes` and `EscapeDecodes` included |
| UrlKernel.DecodeWith | hermes/src/Network/HTTP/URL/Decode.hs:171-202 | scan, copy and suffix decode equal one decode of the whole text |
| UrlCodec.Encode | c-harness/hermes-url-decode/api.h:88-113 | the cycled-choice encoding, between n and 3n bytes, nothing past it; the lemmas below say which bytes |
| UrlCodec.EncodedInCharacters | c-harness/hermes-url-decode/api.h:88-113 | "%", a form's "+" and the chosen bytes become "%" and two digits, a form's space "+", every other byte itself |
| UrlCodec.EncodedWithoutChoices | c-harness/hermes-url-decode/api.h:88-113 | without choices only what must be escaped is, with capital digits |
| UrlCodec.DecodeEncoded | c-harness/hermes-url-decode/fuzz_url_roundtrip.c:25-33 | whatever was chosen, decoding an encoding returns the bytes |
| UrlChecks.CheckDecode | c-harness/hermes-url-decode/fuzz_url_decode.c:14-57 | the library's scan and decoder agree with the references on every input, out of place, tight, in place and split |
| UrlChecks.CheckSplit | c-harness/hermes-url-decode/fuzz_url_decode.c:45-51 | the split decode gives the same total, bytes or error |
| UrlChecks.CheckRoundTrip | c-harness/hermes-url-decode/fuzz_url_roundtrip.c:14-43 | the library's decoder returns the encoded bytes out of place and in place |
| HtmlEscape.Find | c-harness/html-scan/api.h:111-119 | first byte of the class, or the end |
| HtmlEscape.EscapeClassesInCharacters | c-harness/html-scan/api.h:91-109 | which characters stop a scan: those that text and attribute values escape, and single quotes and double quotes |
| HtmlEscape.OtherClassesInCharacters | c-harness/html-scan/api.h:91-109 | the same for the other classes of the tokenizer |
| HtmlEscape.EscapeChunked | c-harness/html-scan/drive.h:127-143 | the chunked loop produces the byte-at-a-time escaping, which `EscapedInCharacters` spells out |
| HtmlEscape.EscapeBytewise | c-harness/html-scan/drive.h:145-149 | the same output from the other escaper |
| HtmlEscape.EscapedInCharacters | c-harness/html-scan/drive.h:91-100 | "<", ">", "&" and, in attributes, the double quote become `&lt;`, `&gt;`, `&amp;` and `&quot;`; every other byte is kept |
| HtmlEscape.Unescape | c-harness/html-scan/drive.h:156-180 | the entity-table loop computes the unescaping or finds a stray stop byte, as `UnescapedEntity` and `UnescapedOther` spell out |
| HtmlEscape.UnescapedEntity | c-harness/html-scan/drive.h:156-180 | each of the four entities stands for its character |
| HtmlEscape.UnescapedOther | c-harness/html-scan/drive.h:156-180 | where no entity starts, "<", ">", "&" and in attributes the double quote are stray, and every other byte stands for itself |
| HtmlEscape.UnescapeEscaped | c-harness/html-scan/drive.h:156-181 | unescaping the escaped text returns the input, for text and attributes |
| HtmlEscape.EscapedIff | c-harness/html-scan/drive.h:156-181 | a text is the escaped form of s iff it unescapes to s and, in text mode, holds no `&quot;` |
| HtmlEscape.QuotEntityInText | c-harness/html-scan/drive.h:156-181 | `&quot;` unescapes in text mode to a byte whose escaped form is different |
| HtmlEscape.NoRawStops | c-harness/html-scan/drive.h:156-177 | a stop byte in the output is an "&" that opens the entity of an escaped byte |
| HtmlEscape.NamedUnique | c-harness/html-scan/drive.h:160-166 | at most one entity can start at a position |
| HtmlEscape.CheckEscape | c-harness/html-scan/drive.h:118-188 | the driver's comparisons never fail |

## Left out

- SIMD kernels: calls to them are modelled by their stated contracts, that is, by the reference loops; the eight-lane comparison of the Roaring search is a bounded search.
- Http1Reader.ReadHeaderBlock: does not model the ring's address arithmetic or the transport; refills and their end are parameters.
- Columns.AcceptsUtf8Column: does not model the library validator it calls on the referenced range beyond accepting exactly valid UTF-8, nor error texts and validity bitmaps.
- UrlKernel.DecodeWith: returns the decoding instead of an error object, and does not model buffer ownership.
- HtmlEscape.EscapeChunked: does not model the growth policy of the output buffer; the output is a sequence that is appended to.
- RoaringChecks.CheckArray: sorts by insertion where the driver calls the C library, and leaves out the comparison of the array decoders.
- UrlKernel.Decode: models the vector scan by its scalar form and `memmove` by its meaning.
- Varint.DecodeVarint: returns 0 as the value of an unterminated varint, where the source leaves the caller's variable alone.
- Fixed-width gathers, view references, dictionary keys, list views, dense unions and run ends: one-loop range checks.
- Fixed-width loads and stores, single-byte packed runs, bound comparison and whitespace skipping: one-loop facts.
- Hexadecimal chunk sizes of HTTP/1.1: an accumulation loop with no partner in the references.
- The HTML tokenizer walk and the fused ASCII flag: bookkeeping over the scanners.
- HPACK Huffman coding: its content is a 257-row code table.
- Murmur3 and XXH64: no general property beyond fixed vectors.
- Page relocation, guard pages, magic ring, sockets, clocks, failure injection and replay plumbing: operating-system behaviour.
