/** Packed runs: varints written back to back with nothing between them. */
module Packed {
  import opened Bytes
  import opened Varint

  datatype Run = Malformed | Values(values: seq<uint64>)

  /** The values from pos to the end of the buffer. */
  function DecodedRun(s: seq<byte>, pos: nat): Run
    decreases |s| - pos
  {
    if pos >= |s| then Values([]) else
      var n := VarintLen(s, pos);
      if n == 0 then Malformed else
        match DecodedRun(s, pos + n)
        case Malformed => Malformed
        case Values(rest) => Values([VarintValue(s, pos)] + rest)
  }

  function Prepend(done: seq<uint64>, run: Run): Run {
    if run == Malformed then Malformed else Values(done + run.values)
  }

  lemma RunStep(s: seq<byte>, pos: nat, done: seq<uint64>)
    requires pos < |s|
    ensures var n := VarintLen(s, pos);
            if n == 0 then DecodedRun(s, pos) == Malformed
            else
              && pos < pos + n <= |s|
              && Prepend(done, DecodedRun(s, pos)) == Prepend(done + [VarintValue(s, pos)], DecodedRun(s, pos + n))
  {
  }

  lemma RunEnds(s: seq<byte>, pos: nat, done: seq<uint64>)
    ensures pos >= |s| ==> Prepend(done, DecodedRun(s, pos)) == Values(done)
    ensures pos < |s| && DecodedRun(s, pos).Values? ==> |DecodedRun(s, pos).values| > 0
  {
  }

  /** Decodes a run into out[0 .. maxOut); -1 when it is malformed or does not fit. */
  method DecodePacked(buf: seq<byte>, out: array<uint64>, maxOut: nat) returns (count: int)
    requires maxOut <= out.Length
    modifies out
    ensures count == -1 <==> DecodedRun(buf, 0) == Malformed || |DecodedRun(buf, 0).values| > maxOut
    ensures count != -1 ==> 0 <= count <= maxOut && DecodedRun(buf, 0) == Values(out[..count])
                            && out[count..] == old(out[count..])
    ensures out[maxOut..] == old(out[maxOut..])
  {
    hide VarintLen, LenFrom, VarintValue, DecodedRun;
    var pos := 0;
    count := 0;
    assert Prepend(out[..0], DecodedRun(buf, 0)) == DecodedRun(buf, 0);
    while pos < |buf|
      invariant 0 <= pos <= |buf| && 0 <= count <= maxOut
      invariant DecodedRun(buf, 0) == Prepend(out[..count], DecodedRun(buf, pos))
      invariant forall k :: count <= k < out.Length ==> out[k] == old(out[k])
    {
      RunEnds(buf, pos, out[..count]);
      if count >= maxOut {
        return -1;
      }
      RunStep(buf, pos, out[..count]);
      var n, v := DecodeVarint(buf, pos);
      if n == 0 {
        return -1;
      }
      ghost var done := out[..count];
      out[count] := v;
      count := count + 1;
      assert out[..count] == done + [v];
      pos := pos + n;
    }
    RunEnds(buf, pos, out[..count]);
  }

  // ---- Terminators ----

  function IsTerminator(b: byte): nat {
    if b < 0x80 then 1 else 0
  }

  function Terminators(s: seq<byte>, from: nat): nat
    decreases |s| - from
  {
    if from >= |s| then 0 else IsTerminator(s[from]) + Terminators(s, from + 1)
  }

  method CountPacked(buf: seq<byte>) returns (c: nat)
    ensures c == Terminators(buf, 0)
  {
    c := 0;
    var i := 0;
    while i < |buf|
      invariant 0 <= i <= |buf|
      invariant c + Terminators(buf, i) == Terminators(buf, 0)
    {
      c := c + if buf[i] < 0x80 then 1 else 0;
      i := i + 1;
    }
  }

  lemma {:induction false} TerminatorsOfVarint(s: seq<byte>, from: nat, end: nat)
    requires from < end <= |s| && s[end - 1] < 0x80
    requires forall j :: from <= j < end - 1 ==> s[j] >= 0x80
    ensures Terminators(s, from) == 1 + Terminators(s, end)
    decreases end - from
  {
    if from < end - 1 {
      TerminatorsOfVarint(s, from + 1, end);
    }
  }

  /** The first varint of a run and the rest. */
  lemma RunHead(s: seq<byte>, pos: nat)
    requires pos < |s|
    ensures var n := VarintLen(s, pos);
            && (n > 0 ==> pos + n <= |s| && n <= 10 && s[pos + n - 1] < 0x80
                          && forall j :: pos <= j < pos + n - 1 ==> s[j] >= 0x80)
            && (DecodedRun(s, pos).Values? <==> n > 0 && DecodedRun(s, pos + n).Values?)
            && (DecodedRun(s, pos).Values? ==> |DecodedRun(s, pos).values| == 1 + |DecodedRun(s, pos + n).values|)
  {
    hide VarintValue;
  }

  lemma RunEmpty(s: seq<byte>, pos: nat)
    requires pos >= |s|
    ensures DecodedRun(s, pos) == Values([]) && Terminators(s, pos) == 0
  {
  }

  /** A well-formed run has exactly one byte below 0x80 per value. */
  lemma {:induction false} OneTerminatorPerValue(s: seq<byte>, pos: nat)
    requires DecodedRun(s, pos).Values?
    ensures |DecodedRun(s, pos).values| == Terminators(s, pos)
    decreases |s| - pos
  {
    hide *;
    if pos < |s| {
      RunHead(s, pos);
      var n := VarintLen(s, pos);
      TerminatorsOfVarint(s, pos, pos + n);
      OneTerminatorPerValue(s, pos + n);
    } else {
      RunEmpty(s, pos);
    }
  }

  // ---- Which byte strings are runs ----

  ghost predicate EndsWithin(s: seq<byte>, i: nat, n: nat) {
    exists j :: i <= j < i + n && j < |s| && s[j] < 0x80
  }

  /** Among any ten consecutive bytes one ends a varint, and so does the last byte. */
  ghost predicate RunShape(s: seq<byte>, pos: nat) {
    && (pos < |s| ==> s[|s| - 1] < 0x80)
    && forall i :: pos <= i <= |s| - 10 ==> EndsWithin(s, i, 10)
  }

  lemma ShapeStep(s: seq<byte>, pos: nat, next: nat)
    requires pos < next <= |s| && next <= pos + 10 && s[next - 1] < 0x80
    ensures RunShape(s, next) <==> RunShape(s, pos)
  {
    if RunShape(s, next) {
      forall i | pos <= i <= |s| - 10
        ensures EndsWithin(s, i, 10)
      {
        if i < next {
          assert s[next - 1] < 0x80;
        }
      }
    }
  }

  lemma NoShape(s: seq<byte>, pos: nat)
    requires pos < |s| && VarintLen(s, pos) == 0
    ensures !RunShape(s, pos)
  {
    if pos + 10 <= |s| {
      assert !EndsWithin(s, pos, 10);
    } else {
      assert s[|s| - 1] >= 0x80;
    }
  }

  lemma ShapeEnd(s: seq<byte>, pos: nat)
    requires pos >= |s|
    ensures RunShape(s, pos)
  {
  }

  lemma {:induction false} RunIffShape(s: seq<byte>, pos: nat)
    ensures DecodedRun(s, pos).Values? <==> RunShape(s, pos)
    decreases |s| - pos
  {
    hide *;
    if pos < |s| {
      RunHead(s, pos);
      var n := VarintLen(s, pos);
      if n > 0 {
        RunIffShape(s, pos + n);
        ShapeStep(s, pos, pos + n);
      } else {
        NoShape(s, pos);
      }
    } else {
      RunEmpty(s, pos);
      ShapeEnd(s, pos);
    }
  }

  // ---- Round trip ----

  function EncodedRun(vs: seq<uint64>): seq<byte> {
    if vs == [] then [] else Encoded(vs[0]) + EncodedRun(vs[1..])
  }

  lemma EncodedRunIs(vs: seq<uint64>)
    ensures EncodedRun(vs) == if vs == [] then [] else Encoded(vs[0]) + EncodedRun(vs[1..])
  {
  }

  lemma RunCons(s: seq<byte>, pos: nat, rest: seq<uint64>)
    requires pos < |s| && VarintLen(s, pos) > 0 && DecodedRun(s, pos + VarintLen(s, pos)) == Values(rest)
    ensures DecodedRun(s, pos) == Values([VarintValue(s, pos)] + rest)
  {
    hide VarintValue;
  }

  /** Decoding the encodings of any list of 64-bit values, written back to back, gives the list back. */
  lemma {:induction false} RunRoundTrip(s: seq<byte>, pos: nat, vs: seq<uint64>)
    requires pos <= |s| && s[pos..] == EncodedRun(vs)
    ensures DecodedRun(s, pos) == Values(vs)
    decreases |vs|
  {
    hide *;
    if vs == [] {
      EncodedRunIs(vs);
      RunEmpty(s, pos);
    } else {
      var e, rest := Encoded(vs[0]), EncodedRun(vs[1..]);
      EncodedRunIs(vs);
      SuffixSplits(s, pos, e, rest);
      DecodeEncoded(s, pos, vs[0]);
      RunRoundTrip(s, pos + |e|, vs[1..]);
      RunCons(s, pos, vs[1..]);
      assert vs == [vs[0]] + vs[1..];
    }
  }
}
