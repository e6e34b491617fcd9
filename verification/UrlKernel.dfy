/** The library's percent-decoder: it moves the run up to the next special byte as a block and then
  * decodes one special byte. The blocks may overlap when decoding in place.
  */
module UrlKernel {
  import opened Bytes
  import opened UrlCodec

  /** First special byte of src[from .. to), as an index into src. */
  method ScanFrom(src: array<byte>, from: nat, end: nat, plus: bool) returns (hit: nat)
    requires from <= end <= src.Length
    ensures from <= hit <= end && forall k :: from <= k < hit ==> !IsSpecial(src[k], plus)
    ensures hit < end ==> IsSpecial(src[hit], plus)
  {
    hit := from;
    while hit < end
      invariant from <= hit <= end && forall k :: from <= k < hit ==> !IsSpecial(src[k], plus)
    {
      if IsSpecial(src[hit], plus) {
        return;
      }
      hit := hit + 1;
    }
  }

  /** `memmove`: the bytes read are those from before the call, also when the ranges overlap. */
  method Move(dst: array<byte>, d: nat, src: array<byte>, s: nat, n: nat)
    requires d + n <= dst.Length && s + n <= src.Length
    modifies dst
    ensures dst[d..d + n] == old(src[s..s + n])
    ensures forall k :: 0 <= k < d || d + n <= k < dst.Length ==> dst[k] == old(dst[k])
  {
    forall k | 0 <= k < n {
      dst[d + k] := src[s + k];
    }
  }

  /** Moves n bytes behind the output written so far. */
  method Append(dst: array<byte>, d0: nat, o: nat, src: array<byte>, s: nat, n: nat, ghost done: seq<byte>)
    requires d0 + o + n <= dst.Length && s + n <= src.Length && dst[d0..d0 + o] == done
    modifies dst
    ensures dst[d0..d0 + o + n] == done + old(src[s..s + n])
    ensures forall k :: 0 <= k < d0 || d0 + o + n <= k < dst.Length ==> dst[k] == old(dst[k])
  {
    Move(dst, d0 + o, src, s, n);
    assert dst[d0..d0 + o] == done;
    assert dst[d0..d0 + o + n] == dst[d0..d0 + o] + dst[d0 + o..d0 + o + n];
  }

  /** Value of a hex digit of either case, -1 for any other byte. */
  method HexValue(c: byte) returns (h: int)
    ensures h == Hex(c)
  {
    if c >= 0x30 && c <= 0x39 {
      return c - 0x30;
    }
    if c >= 0x61 && c <= 0x66 {
      return 10 + (c - 0x61);
    }
    if c >= 0x41 && c <= 0x46 {
      return 10 + (c - 0x41);
    }
    return -1;
  }

  /** Decodes the special byte at i of the text s that starts at src[so]. */
  method ReadSpecial(src: array<byte>, so: nat, n: nat, i: nat, plus: bool, ghost s: seq<byte>)
    returns (code: int, v: byte, w: nat)
    requires i < n == |s| && so + n <= src.Length && forall k :: i <= k < n ==> src[so + k] == s[k]
    requires IsSpecial(src[so + i], plus)
    ensures match UnitAt(s, i, plus)
            case Cut => code == -1
            case NotHex => code == -2
            case Byte(value, width) => code == 0 && v == value && w == width
  {
    hide Hex;
    var c := src[so + i];
    assert c == s[i];
    if c == PLUS {
      return 0, SPACE, 1;
    }
    if i + 1 < n {
      assert src[so + i + 1] == src[so + (i + 1)] == s[i + 1];
    }
    if n - i < 3 {
      if n - i == 2 {
        var h := HexValue(src[so + i + 1]);
        if h < 0 {
          return -2, 0, 0;
        }
      }
      return -1, 0, 0;
    }
    assert src[so + i + 2] == src[so + (i + 2)] == s[i + 2];
    var hi := HexValue(src[so + i + 1]);
    var lo := HexValue(src[so + i + 2]);
    if hi < 0 || lo < 0 {
      return -2, 0, 0;
    }
    return 0, hi * 16 + lo, 3;
  }

  lemma PlainRun(src: array<byte>, so: nat, i: nat, hit: nat, s: seq<byte>, plus: bool)
    requires i <= hit <= |s| && so + |s| <= src.Length && forall k :: i <= k < |s| ==> src[so + k] == s[k]
    requires forall k :: so + i <= k < so + hit ==> !IsSpecial(src[k], plus)
    ensures forall k :: i <= k < hit ==> !IsSpecial(s[k], plus)
  {
    hide *;
    forall k | i <= k < hit
      ensures !IsSpecial(s[k], plus)
    {
      assert src[so + k] == s[k];
    }
  }

  /** A run of plain bytes is appended as it is. */
  lemma RunDecodes(s: seq<byte>, i: nat, hit: nat, plus: bool, done: seq<byte>)
    requires i <= hit <= |s| && forall k :: i <= k < hit ==> !IsSpecial(s[k], plus)
    ensures Prepend(done, DecodedFrom(s, i, plus)) == Prepend(done + s[i..hit], DecodedFrom(s, hit, plus))
  {
    hide *;
    CleanPrefix(s, i, hit, plus);
    PrependTwice(done, s[i..hit], DecodedFrom(s, hit, plus));
  }

  /** The next special byte of the text s that starts at src[so]. */
  method ScanRun(src: array<byte>, so: nat, n: nat, i: nat, plus: bool, ghost s: seq<byte>) returns (hit: nat)
    requires i <= n == |s| && so + n <= src.Length && forall k :: i <= k < n ==> src[so + k] == s[k]
    ensures i <= hit <= n && forall k :: i <= k < hit ==> !IsSpecial(s[k], plus)
    ensures hit < n ==> IsSpecial(src[so + hit], plus)
  {
    hide *;
    var stop := ScanFrom(src, so + i, so + n, plus);
    hit := stop - so;
    PlainRun(src, so, i, hit, s, plus);
  }

  /** What moving a plain run does to the decoding, and that it fits. */
  lemma RunFits(s: seq<byte>, i: nat, hit: nat, plus: bool, done: seq<byte>, n: nat, room: int)
    requires i <= hit <= |s| == n && |done| <= i && forall k :: i <= k < hit ==> !IsSpecial(s[k], plus)
    requires HasRoom(Prepend(done, DecodedFrom(s, i, plus)), n, room)
    ensures Prepend(done, DecodedFrom(s, i, plus)) == Prepend(done + s[i..hit], DecodedFrom(s, hit, plus))
    ensures |done| + (hit - i) <= room
  {
    hide *;
    RunDecodes(s, i, hit, plus, done);
    RoomLeft(done + s[i..hit], DecodedFrom(s, hit, plus));
    Fits(Prepend(done, DecodedFrom(s, i, plus)), |done + s[i..hit]|, n, room);
  }

  /** Moves the bytes of the run behind the output written so far. */
  method CopyRun(src: array<byte>, so: nat, i: nat, hit: nat, dst: array<byte>, d0: nat, o: nat,
                 ghost s: seq<byte>, ghost done: seq<byte>)
    requires o == |done| <= i < hit <= |s| && so + |s| <= src.Length
    requires forall k :: i <= k < |s| ==> src[so + k] == s[k]
    requires d0 + o + (hit - i) <= dst.Length && dst[d0..d0 + o] == done
    requires src == dst ==> d0 <= so
    modifies dst
    ensures dst[d0..d0 + o + (hit - i)] == done + s[i..hit]
    ensures forall k :: hit <= k < |s| ==> src[so + k] == s[k]
    ensures forall k :: 0 <= k < d0 || d0 + o + (hit - i) <= k < dst.Length ==> dst[k] == old(dst[k])
  {
    assert src[so + i..so + hit] == s[i..hit];
    Append(dst, d0, o, src, so + i, hit - i, done);
  }

  /** Scans to the next special byte and moves the run before it behind the output written so far. */
  method MoveRun(src: array<byte>, so: nat, n: nat, i: nat, dst: array<byte>, d0: nat, o: nat, plus: bool,
                 ghost s: seq<byte>, ghost done: seq<byte>)
    returns (hit: nat, ghost done': seq<byte>)
    requires i <= n == |s| && so + n <= src.Length && forall k :: i <= k < n ==> src[so + k] == s[k]
    requires o == |done| <= i && d0 + o <= dst.Length && dst[d0..d0 + o] == done
    requires src == dst ==> d0 <= so
    requires HasRoom(Prepend(done, DecodedFrom(s, i, plus)), n, dst.Length - d0)
    modifies dst
    ensures i <= hit <= n && |done'| == o + (hit - i) && d0 + |done'| <= dst.Length && dst[d0..d0 + |done'|] == done'
    ensures Prepend(done, DecodedFrom(s, i, plus)) == Prepend(done', DecodedFrom(s, hit, plus))
    ensures hit < n ==> IsSpecial(src[so + hit], plus)
    ensures forall k :: hit <= k < n ==> src[so + k] == s[k]
    ensures forall k :: 0 <= k < d0 || d0 + |done'| <= k < dst.Length ==> dst[k] == old(dst[k])
  {
    hide *;
    hit := ScanRun(src, so, n, i, plus, s);
    var prefix := hit - i;
    done' := done + s[i..hit];
    RunFits(s, i, hit, plus, done, n, dst.Length - d0);
    if prefix > 0 {
      CopyRun(src, so, i, hit, dst, d0, o, s, done);
    } else {
      assert done' == done;
    }
  }

  /** Decodes the special byte at i behind the output written so far. */
  method DecodeSpecial(src: array<byte>, so: nat, n: nat, i: nat, dst: array<byte>, d0: nat, o: nat, plus: bool,
                       ghost s: seq<byte>, ghost done: seq<byte>)
    returns (code: int, w: nat, ghost done': seq<byte>)
    requires i < n == |s| && so + n <= src.Length && forall k :: i <= k < n ==> src[so + k] == s[k]
    requires IsSpecial(src[so + i], plus)
    requires o == |done| <= i && d0 + o <= dst.Length && dst[d0..d0 + o] == done
    requires src == dst ==> d0 <= so
    requires HasRoom(Prepend(done, DecodedFrom(s, i, plus)), n, dst.Length - d0)
    modifies dst
    ensures code < 0 ==> code == ReturnCode(Prepend(done, DecodedFrom(s, i, plus)))
    ensures code >= 0 ==>
              && 1 <= w && i + w <= n && |done'| == o + 1 && d0 + o < dst.Length && dst[d0..d0 + o + 1] == done'
              && Prepend(done, DecodedFrom(s, i, plus)) == Prepend(done', DecodedFrom(s, i + w, plus))
              && (forall k :: i + w <= k < n ==> src[so + k] == s[k])
              && (forall k :: 0 <= k < dst.Length && k != d0 + o ==> dst[k] == old(dst[k]))
    ensures code < 0 ==> forall k :: 0 <= k < dst.Length ==> dst[k] == old(dst[k])
  {
    hide *;
    var v;
    code, v, w := ReadSpecial(src, so, n, i, plus, s);
    UnitStep(s, i, plus, done);
    done' := done + [v];
    if code >= 0 {
      RoomLeft(done', DecodedFrom(s, i + w, plus));
      Fits(Prepend(done, DecodedFrom(s, i, plus)), o + 1, n, dst.Length - d0);
      Put(dst, d0, o, v, done);
    }
  }

  /** The contract of the byte-at-a-time decoder. */
  method Decode(src: array<byte>, so: nat, n: nat, dst: array<byte>, d0: nat, plus: bool) returns (r: int)
    requires so + n <= src.Length && d0 <= dst.Length && (src == dst ==> d0 <= so)
    requires HasRoom(DecodedFrom(src[so..so + n], 0, plus), n, dst.Length - d0)
    modifies dst
    ensures var d := old(DecodedFrom(src[so..so + n], 0, plus));
            && r == ReturnCode(d) && r <= n
            && (r >= 0 ==> d0 + r <= dst.Length && dst[d0..d0 + r] == d.bytes && dst[d0 + r..] == old(dst[d0 + r..]))
    ensures forall k :: 0 <= k < d0 || d0 + n <= k < dst.Length ==> dst[k] == old(dst[k])
  {
    hide *;
    ghost var s := src[so..so + n];
    ghost var done: seq<byte> := [];
    ghost var d := DecodedFrom(s, 0, plus);
    var o, i := 0, 0;
    JoinNothing(d);
    while i < n
      invariant o <= i <= n && d0 + o <= dst.Length && |done| == o
      invariant forall k :: i <= k < n ==> src[so + k] == s[k]
      invariant dst[d0..d0 + o] == done
      invariant d == Prepend(done, DecodedFrom(s, i, plus))
      invariant forall k :: 0 <= k < d0 || d0 + o <= k < dst.Length ==> dst[k] == old(dst[k])
    {
      var start := i;
      i, done := MoveRun(src, so, n, i, dst, d0, o, plus, s, done);
      o := o + (i - start);
      if i == n {
        break;
      }
      var code, w;
      code, w, done := DecodeSpecial(src, so, n, i, dst, d0, o, plus, s, done);
      if code < 0 {
        return code;
      }
      o, i := o + 1, i + w;
    }
    DecodeEnd(s, i, plus, done);
    return o;
  }

  /** The wrapper the library exports: scan, copy the clean prefix, decode the rest behind it. */
  method DecodeWith(bs: array<byte>, plus: bool) returns (d: Decoding)
    ensures d == DecodedFrom(bs[..], 0, plus)
  {
    hide *;
    ghost var s := bs[..];
    if bs.Length == 0 {
      NothingToDecode(s, plus);
      return Decoded([]);
    }
    var first := ScanFrom(bs, 0, bs.Length, plus);
    CleanPrefix(s, 0, first, plus);
    if first == bs.Length {
      DecodeEnd(s, first, plus, s);
      assert s[0..first] == s;
      return Decoded(bs[..]);
    }
    DecodedSuffix(s, first, first, plus);
    var dst := new byte[bs.Length](_ => 0);
    CopyPrefix(bs, dst, first);
    assert bs[first..first + (bs.Length - first)] == s[first..];
    EnoughRoom(DecodedFrom(s[first..], 0, plus), bs.Length - first, bs.Length - first);
    var r := Decode(bs, first, bs.Length - first, dst, first, plus);
    Codes(DecodedFrom(s, first, plus), s[0..first]);
    assert s[0..first] == s[..first];
    if r == -1 {
      return Truncated;
    }
    if r == -2 {
      return BadHex;
    }
    assert dst[..first + r] == dst[..first] + dst[first..first + r];
    return Decoded(dst[..first + r]);
  }
}
