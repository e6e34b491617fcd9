/** The two URL drivers: one text decoded by the library's decoder out of place, into an exact-size
  * buffer, in place and split at the first special byte, each against the byte-at-a-time decoder; and
  * an encoding decoded back out of place and in place. Their postconditions say that no input makes a
  * comparison fail.
  */
module UrlChecks {
  import opened Bytes
  import opened UrlCodec
  import UrlKernel

  method FromSeq(s: seq<byte>) returns (a: array<byte>)
    ensures fresh(a) && a[..] == s
  {
    a := new byte[|s|](i requires 0 <= i < |s| => s[i]);
  }

  /** The source as a slice of its buffer, for the contracts below. */
  lemma WholeSlice(a: array<byte>)
    ensures a[0..0 + a.Length] == a[..]
  {
  }

  /** The library's decoder against the reference result want[0 .. wn), out of place into dst. */
  method Agrees(src: array<byte>, dst: array<byte>, plus: bool, want: array<byte>, wn: int) returns (ok: bool)
    requires src != want && dst != want && HasRoom(DecodedFrom(src[..], 0, plus), src.Length, dst.Length)
    requires wn == ReturnCode(DecodedFrom(src[..], 0, plus))
    requires wn >= 0 ==> wn <= want.Length && want[0..wn] == DecodedFrom(src[..], 0, plus).bytes
    modifies dst
    ensures ok
  {
    hide *;
    WholeSlice(src);
    Codes(DecodedFrom(src[..], 0, plus), []);
    var got := UrlKernel.Decode(src, 0, src.Length, dst, 0, plus);
    return got == wn && (wn < 0 || dst[0..wn] == want[0..wn]);
  }

  lemma CodeOfPrefixed(prefix: seq<byte>, d: Decoding)
    ensures ReturnCode(Prepend(prefix, d)) == if ReturnCode(d) < 0 then ReturnCode(d) else |prefix| + ReturnCode(d)
  {
  }

  /** Copy the clean prefix, decode what follows it behind the copy. */
  method CheckSplit(src: array<byte>, dst: array<byte>, first: nat, plus: bool, want: array<byte>, wn: int)
    returns (ok: bool)
    requires src != dst && dst != want && src.Length == dst.Length && first < src.Length
    requires forall k :: 0 <= k < first ==> !IsSpecial(src[k], plus)
    requires wn == ReturnCode(DecodedFrom(src[..], 0, plus))
    requires wn >= 0 ==> wn <= want.Length && want[0..wn] == DecodedFrom(src[..], 0, plus).bytes
    modifies dst
    ensures ok
  {
    hide *;
    var n := src.Length;
    ghost var s := src[..];
    CleanPrefix(s, 0, first, plus);
    DecodedSuffix(s, first, first, plus);
    Codes(DecodedFrom(s, first, plus), s[0..first]);
    Codes(DecodedFrom(s, 0, plus), []);
    assert src[first..first + (n - first)] == s[first..];
    CopyPrefix(src, dst, first);
    EnoughRoom(DecodedFrom(s[first..], 0, plus), n - first, n - first);
    var got := UrlKernel.Decode(src, first, n - first, dst, first, plus);
    CodeOfPrefixed(s[0..first], DecodedFrom(s, first, plus));
    if got < 0 {
      return got == wn;
    }
    if first + got != wn {
      return false;
    }
    assert dst[0..first + got] == dst[..first] + dst[first..first + got];
    assert dst[..first] == s[0..first];
    return dst[0..wn] == want[0..wn];
  }

  method CheckDecode(data: seq<byte>, plus: bool) returns (ok: bool)
    ensures ok
  {
    hide *;
    var n := |data|;
    ghost var d := DecodedFrom(data, 0, plus);
    var src := FromSeq(data);
    WholeSlice(src);
    var want := new byte[n + 1](_ => 0);
    EnoughRoom(d, n, n + 1);
    EnoughRoom(d, n, n);
    Codes(d, []);
    var wn := Decode(src, 0, n, want, 0, plus);
    if wn > n {
      return false;
    }
    var first := ScanSpecial(src, n, plus);
    var scanned := UrlKernel.ScanFrom(src, 0, n, plus);
    if scanned != first {
      return false;
    }
    var dst := new byte[n](_ => 0);
    ok := Agrees(src, dst, plus, want, wn);
    if ok && wn >= 0 {
      var tight := new byte[wn](_ => 0);
      EnoughRoom(d, n, wn);
      ok := Agrees(src, tight, plus, want, wn);
    }
    if ok {
      var inPlace := FromSeq(data);
      ok := Agrees(inPlace, inPlace, plus, want, wn);
    }
    if ok && n > 0 && first < n {
      ok := CheckSplit(src, dst, first, plus, want, wn);
    }
  }

  method CheckRoundTrip(raw: seq<byte>, choices: seq<byte>, plus: bool) returns (ok: bool)
    ensures ok
  {
    hide *;
    var n := |raw|;
    var enc := new byte[3 * n + 1](_ => 0);
    var en := Encode(raw, enc, plus, choices);
    if en < n || en > 3 * n {
      return false;
    }
    var s := FromSeq(enc[..en]);
    WholeSlice(s);
    assert s[..][0..] == EncodedFrom(raw, 0, plus, choices);
    DecodeEncoded(raw, 0, s[..], 0, plus, choices);
    assert raw[0..] == raw;
    Codes(DecodedFrom(s[..], 0, plus), []);
    var d := new byte[n](_ => 0);
    EnoughRoom(DecodedFrom(s[..], 0, plus), en, n);
    EnoughRoom(DecodedFrom(s[..], 0, plus), en, en);
    var got := UrlKernel.Decode(s, 0, en, d, 0, plus);
    if got != n || d[0..n] != raw {
      return false;
    }
    var first := ScanSpecial(s, en, plus);
    var scanned := UrlKernel.ScanFrom(s, 0, en, plus);
    if scanned != first {
      return false;
    }
    got := UrlKernel.Decode(s, 0, en, s, 0, plus);
    return got == n && s[0..n] == raw;
  }
}
