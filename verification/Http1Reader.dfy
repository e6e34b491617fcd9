/** The streaming reader's search for the end of a message head: after every refill of the receive
  * ring the scan resumes three bytes before the old end instead of starting over.
  */
module Http1Reader {
  import opened Bytes
  import opened Http1Lines

  /** What one wait on the transport can report. */
  datatype Event = MoreData(bytes: seq<byte>) | EndOfInput | Failed

  /** Waiting: the reader is suspended and no further event is known. */
  datatype Outcome =
    | Block(block: seq<byte>, nextPos: nat)
    | MessageTooLong
    | UnexpectedEof
    | TransportError
    | Waiting

  /** The reader without its resume point: every round scans all the bytes received so far. */
  ghost function ReadFromScratch(buf: seq<byte>, events: seq<Event>, cap: int): Outcome
    decreases |events|
  {
    var idx := HeadEnd(buf, 0);
    if idx >= 0 then
      if idx > cap then MessageTooLong else Block(buf[..idx], idx + 4)
    else if |buf| > cap then MessageTooLong
    else if events == [] then Waiting
    else match events[0]
      case MoreData(bytes) => ReadFromScratch(buf + bytes, events[1..], cap)
      case EndOfInput => UnexpectedEof
      case Failed => TransportError
  }

  /** The ring's readable bytes are `buf`; events are the reports of the transport, in order. */
  method ReadHeaderBlock(initial: seq<byte>, events: seq<Event>, cap: int) returns (r: Outcome)
    ensures r == ReadFromScratch(initial, events, cap)
  {
    var buf := initial;
    var scanFrom: nat, next: nat := 0, 0;
    assert events[0..] == events;
    while true
      invariant next <= |events|
      invariant HeadEnd(buf, scanFrom) == HeadEnd(buf, 0)
      invariant ReadFromScratch(initial, events, cap) == ReadFromScratch(buf, events[next..], cap)
      decreases |events| - next
    {
      var avail := |buf|;
      var ring := new byte[avail](i requires 0 <= i < avail => buf[i]);
      assert ring[..avail] == buf;
      var idx := KpFindHeadEnd(ring, scanFrom, avail);
      if idx >= 0 {
        return if idx > cap then MessageTooLong else Block(buf[..idx], idx + 4);
      }
      if avail > cap {
        return MessageTooLong;
      }
      if next == |events| {
        return Waiting;
      }
      assert events[next..][1..] == events[next + 1..];
      match events[next]
      case MoreData(bytes) =>
        ResumeAfterMiss(buf, bytes);
        scanFrom := if avail > 3 then avail - 3 else 0;
        buf := buf + bytes;
        next := next + 1;
      case EndOfInput =>
        return UnexpectedEof;
      case Failed =>
        return TransportError;
    }
  }

  // ---- Sensitivity to chunking ----

  ghost function Feed(chunks: seq<seq<byte>>): seq<Event> {
    seq(|chunks|, i requires 0 <= i < |chunks| => MoreData(chunks[i]))
  }

  /** Some refill leaves more than cap bytes in the ring but not yet the whole terminator at idx. */
  ghost predicate Stalls(buf: seq<byte>, chunks: seq<seq<byte>>, cap: int, idx: nat)
    decreases |chunks|
  {
    cap < |buf| < idx + 4 || (chunks != [] && Stalls(buf + chunks[0], chunks[1..], cap, idx))
  }

  lemma TerminatorNeedsRoom(s: seq<byte>, more: seq<byte>, idx: nat)
    requires HeadEnd(s, 0) == -1 && TerminatorAt(s + more, idx)
    ensures |s| < idx + 4
  {
    assert !TerminatorAt(s, idx);
  }

  lemma {:induction false} NeverStallsLate(buf: seq<byte>, chunks: seq<seq<byte>>, cap: int, idx: nat)
    requires idx + 4 <= |buf|
    ensures !Stalls(buf, chunks, cap, idx)
    decreases |chunks|
  {
    if chunks != [] {
      NeverStallsLate(buf + chunks[0], chunks[1..], cap, idx);
    }
  }

  /** Every list of reports is some refills, followed by nothing or by the report that ends the stream. */
  lemma {:induction false} ReportsSplit(events: seq<Event>) returns (chunks: seq<seq<byte>>, last: seq<Event>)
    ensures events == Feed(chunks) + last && (last != [] ==> last[0] in {EndOfInput, Failed})
  {
    if events == [] || !events[0].MoreData? {
      chunks, last := [], events;
    } else {
      var rest;
      rest, last := ReportsSplit(events[1..]);
      chunks := [events[0].bytes] + rest;
      assert Feed(chunks) == [events[0]] + Feed(rest);
    }
  }

  lemma FoundInBuffer(buf: seq<byte>, chunks: seq<seq<byte>>, cap: int)
    requires HeadEnd(buf, 0) >= 0
    ensures var s, idx := buf + Flatten(chunks), HeadEnd(buf, 0);
            HeadEnd(s, 0) == idx && s[..idx] == buf[..idx] && !Stalls(buf, chunks, cap, idx)
  {
    hide Stalls;
    HeadEndStable(buf, Flatten(chunks), 0);
    NeverStallsLate(buf, chunks, cap, HeadEnd(buf, 0));
  }

  lemma NotInBuffer(buf: seq<byte>, chunks: seq<seq<byte>>)
    requires HeadEnd(buf, 0) == -1
    ensures var idx := HeadEnd(buf + Flatten(chunks), 0); idx >= 0 ==> |buf| < idx + 4
    ensures if chunks == [] then buf + Flatten(chunks) == buf
            else buf + Flatten(chunks) == buf + chunks[0] + Flatten(chunks[1..])
  {
    var idx := HeadEnd(buf + Flatten(chunks), 0);
    if idx >= 0 {
      TerminatorNeedsRoom(buf, Flatten(chunks), idx);
    }
  }

  lemma FeedStep(chunks: seq<seq<byte>>, last: seq<Event>)
    ensures var events := Feed(chunks) + last;
            if chunks == [] then events == last
            else events != [] && events[0] == MoreData(chunks[0]) && events[1..] == Feed(chunks[1..]) + last
  {
  }

  /** For every way of cutting a stream into refills: with its first terminator at idx, the reader
    * delivers the bytes before it exactly when idx is within the cap and no refill stalls; without
    * one the report after the refills decides, and what comes after that report is not looked at. */
  lemma {:induction false} ReadOutcome(buf: seq<byte>, chunks: seq<seq<byte>>, last: seq<Event>, cap: int)
    requires last != [] ==> last[0] in {EndOfInput, Failed}
    ensures var s := buf + Flatten(chunks);
            var idx := HeadEnd(s, 0);
            ReadFromScratch(buf, Feed(chunks) + last, cap) ==
            if idx >= 0 then
              if idx <= cap && !Stalls(buf, chunks, cap, idx) then Block(s[..idx], idx + 4) else MessageTooLong
            else if |s| > cap then MessageTooLong
            else if last == [] then Waiting
            else if last[0] == EndOfInput then UnexpectedEof
            else TransportError
    decreases |chunks|
  {
    FeedStep(chunks, last);
    hide HeadEnd, Feed, Flatten;
    if HeadEnd(buf, 0) >= 0 {
      FoundInBuffer(buf, chunks, cap);
    } else {
      NotInBuffer(buf, chunks);
      if chunks != [] && |buf| <= cap {
        ReadOutcome(buf + chunks[0], chunks[1..], last, cap);
      }
    }
  }

  lemma {:induction false} NoStallUnderRoomyCap(buf: seq<byte>, chunks: seq<seq<byte>>, cap: int, idx: nat)
    requires idx + 3 <= cap
    ensures !Stalls(buf, chunks, cap, idx)
    decreases |chunks|
  {
    if chunks != [] {
      NoStallUnderRoomyCap(buf + chunks[0], chunks[1..], cap, idx);
    }
  }

  /** With a cap that leaves room for three terminator bytes beyond the head, or with a head beyond
    * the cap, chunking makes no difference: two ways of cutting one stream give one outcome. */
  lemma ChunkingIrrelevant(buf: seq<byte>, chunks: seq<seq<byte>>, buf': seq<byte>, chunks': seq<seq<byte>>,
                           last: seq<Event>, cap: int)
    requires last != [] ==> last[0] in {EndOfInput, Failed}
    requires buf + Flatten(chunks) == buf' + Flatten(chunks')
    requires var idx := HeadEnd(buf + Flatten(chunks), 0); idx == -1 || idx + 3 <= cap || cap < idx
    ensures ReadFromScratch(buf, Feed(chunks) + last, cap) == ReadFromScratch(buf', Feed(chunks') + last, cap)
  {
    ReadOutcome(buf, chunks, last, cap);
    ReadOutcome(buf', chunks', last, cap);
    var idx := HeadEnd(buf + Flatten(chunks), 0);
    if idx >= 0 && idx + 3 <= cap {
      NoStallUnderRoomyCap(buf, chunks, cap, idx);
      NoStallUnderRoomyCap(buf', chunks', cap, idx);
    }
  }

  /** Between those two the outcome does depend on chunking: for every cap from idx to idx + 2 the
    * head is delivered when the stream arrives at once and refused when it is cut after cap + 1 bytes. */
  lemma ChunkingMatters(s: seq<byte>, cap: nat)
    requires var idx := HeadEnd(s, 0); 0 <= idx <= cap < idx + 3
    ensures ReadFromScratch(s, Feed([]), cap).Block?
    ensures cap + 1 < |s| && ReadFromScratch(s[..cap + 1], Feed([s[cap + 1..]]), cap) == MessageTooLong
  {
    var idx := HeadEnd(s, 0);
    assert s + Flatten([]) == s;
    assert Feed([]) + [] == Feed([]) && Feed([s[cap + 1..]]) + [] == Feed([s[cap + 1..]]);
    ReadOutcome(s, [], [], cap);
    var head, tail := s[..cap + 1], [s[cap + 1..]];
    assert Flatten(tail) == tail[0] + Flatten(tail[1..]) == s[cap + 1..];
    assert head + Flatten(tail) == s;
    ReadOutcome(head, tail, [], cap);
  }
}
