/** Byte classes of the HTTP/1.1 grammar (RFC 9110 sections 5.5 and 5.6.2) and the scanners that
  * look for the first byte outside a class.
  */
module Http1Bytes {
  import opened Bytes

  const CR: byte := 0x0D
  const LF: byte := 0x0A
  const SP: byte := 0x20
  const HTAB: byte := 0x09
  const COLON: byte := 0x3A

  /** ! # $ % & ' * + - . ^ _ ` | ~ */
  const PUNCT: seq<byte> :=
    [0x21, 0x23, 0x24, 0x25, 0x26, 0x27, 0x2A, 0x2B, 0x2D, 0x2E, 0x5E, 0x5F, 0x60, 0x7C, 0x7E]

  predicate IsTchar(b: byte) {
    0x30 <= b <= 0x39 || 0x61 <= b <= 0x7A || 0x41 <= b <= 0x5A || b in PUNCT
  }

  method CheckTchar(b: byte) returns (r: bool)
    ensures r <==> IsTchar(b)
  {
    if 0x30 <= b <= 0x39 || 0x61 <= b <= 0x7A || 0x41 <= b <= 0x5A {
      return true;
    }
    var p := 0;
    while p < |PUNCT|
      invariant 0 <= p <= |PUNCT|
      invariant b !in PUNCT[..p]
    {
      if PUNCT[p] == b {
        return true;
      }
      p := p + 1;
    }
    return false;
  }

  predicate IsFieldValueByte(b: byte) {
    b == HTAB || b == SP || 0x21 <= b <= 0x7E || b >= 0x80
  }

  predicate IsOws(b: byte) {
    b == SP || b == HTAB
  }

  function Lower(b: byte): byte {
    if 0x41 <= b <= 0x5A then b + 32 else b
  }

  function LowerAll(s: seq<byte>): (t: seq<byte>)
    ensures |t| == |s| && forall k :: 0 <= k < |s| ==> t[k] == Lower(s[k])
  {
    seq(|s|, k requires 0 <= k < |s| => Lower(s[k]))
  }

  /** Lowercasing keeps a byte inside or outside the token class and is idempotent. */
  lemma LowerKeepsTokens(b: byte)
    ensures IsTchar(Lower(b)) <==> IsTchar(b)
    ensures Lower(Lower(b)) == Lower(b)
  {
  }

  // ---- The classes in characters ----

  /** A token byte is a visible ASCII character other than the delimiters of RFC 9110 section 5.6.2. */
  lemma TokensInCharacters(b: byte)
    ensures IsTchar(b) <==> 0x21 <= b <= 0x7E && b as char !in "\"(),/:;<=>?@[\\]{}"
  {
  }

  /** A field value holds no control character other than the tab. */
  lemma ValuesInCharacters(b: byte)
    ensures IsFieldValueByte(b) <==> b as char == '\t' || (b >= 0x20 && b != 0x7F)
    ensures IsOws(b) <==> b as char in " \t"
  {
  }

  lemma MarksInCharacters()
    ensures [CR, LF, SP, HTAB, COLON] == Ascii("\r\n \t:")
  {
  }

  lemma SmallLetter(i: nat)
    requires i < 26
    ensures "abcdefghijklmnopqrstuvwxyz"[i] as int == 0x61 + i
  {
  }

  /** Lowering maps each capital letter to its small letter and every other byte to itself. */
  lemma LowerInCharacters(b: byte)
    ensures if 'A' <= b as char <= 'Z'
            then Lower(b) == "abcdefghijklmnopqrstuvwxyz"[b - 0x41] as int
            else Lower(b) == b
    ensures !('A' <= Lower(b) as char <= 'Z')
  {
    if 'A' <= b as char <= 'Z' {
      SmallLetter(b - 0x41);
    }
  }

  // ---- Scanners ----

  datatype ScanKind = ScanCr | ScanLf | ScanNonToken | ScanNonFieldValue | ScanNonOws

  predicate Stops(kind: ScanKind, b: byte) {
    match kind
    case ScanCr => b == CR
    case ScanLf => b == LF
    case ScanNonToken => !IsTchar(b)
    case ScanNonFieldValue => !IsFieldValueByte(b)
    case ScanNonOws => !IsOws(b)
  }

  /** Index of the first byte at or after off that stops the scan, else the length. */
  function FindFrom(kind: ScanKind, s: seq<byte>, off: nat): (r: nat)
    ensures r <= |s| && (off <= |s| ==> off <= r)
    ensures forall k :: off <= k < r ==> !Stops(kind, s[k])
    ensures r < |s| ==> off <= r && Stops(kind, s[r])
    decreases |s| - off
  {
    if off >= |s| then |s| else if Stops(kind, s[off]) then off else FindFrom(kind, s, off + 1)
  }

  /** The three properties in the contract of `FindFrom` determine the result. */
  lemma FindIs(kind: ScanKind, s: seq<byte>, off: nat, r: nat)
    requires off <= r <= |s|
    requires forall k :: off <= k < r ==> !Stops(kind, s[k])
    requires r < |s| ==> Stops(kind, s[r])
    ensures FindFrom(kind, s, off) == r
  {
  }

  /** A scan reads nothing before its starting point. */
  lemma FindSuffix(kind: ScanKind, s: seq<byte>, t: seq<byte>, off: nat)
    requires |s| == |t| && off <= |s| && s[off..] == t[off..]
    ensures FindFrom(kind, s, off) == FindFrom(kind, t, off)
  {
  }

  method Find(kind: ScanKind, p: array<byte>, off: nat, len: nat) returns (r: nat)
    requires len <= p.Length
    ensures r == FindFrom(kind, p[..len], off)
  {
    ghost var s := p[..len];
    var i := off;
    while i < len
      invariant off <= i && (off <= len ==> i <= len)
      invariant FindFrom(kind, s, off) == FindFrom(kind, s, i)
    {
      if Stops(kind, p[i]) {
        return i;
      }
      i := i + 1;
    }
    return len;
  }

  /** Lowercases n bytes in place. */
  method ToLowerInPlace(buf: array<byte>, off: nat, n: nat)
    requires off + n <= buf.Length
    modifies buf
    ensures buf[..] == old(buf[..off]) + LowerAll(old(buf[off..off + n])) + old(buf[off + n..])
  {
    var i := 0;
    while i < n
      invariant 0 <= i <= n
      invariant forall k :: off <= k < off + i ==> buf[k] == Lower(old(buf[k]))
      invariant forall k :: 0 <= k < off || off + i <= k < buf.Length ==> buf[k] == old(buf[k])
    {
      buf[off + i] := Lower(buf[off + i]);
      i := i + 1;
    }
  }

  /** Case-insensitive comparison of two equal-length byte strings. */
  method EqualIgnoringCase(a: seq<byte>, b: seq<byte>) returns (r: bool)
    requires |a| == |b|
    ensures r <==> LowerAll(a) == LowerAll(b)
  {
    var i := 0;
    while i < |a|
      invariant 0 <= i <= |a|
      invariant forall k :: 0 <= k < i ==> Lower(a[k]) == Lower(b[k])
    {
      if Lower(a[i]) != Lower(b[i]) {
        assert LowerAll(a)[i] != LowerAll(b)[i];
        return false;
      }
      i := i + 1;
    }
    return true;
  }
}
