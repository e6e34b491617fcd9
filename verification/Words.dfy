/** Bitwise operators on machine words of any width, and words loaded from little-endian bytes. */
module Words {
  import opened Bytes
  import opened Bits

  /** `x & y`. */
  function And(x: nat, y: nat): nat {
    if x == 0 then 0 else 2 * And(x / 2, y / 2) + if x % 2 == 1 && y % 2 == 1 then 1 else 0
  }

  /** `x | y`. */
  function Or(x: nat, y: nat): nat {
    if x == 0 then y else 2 * Or(x / 2, y / 2) + if x % 2 == 1 || y % 2 == 1 then 1 else 0
  }

  /** `x ^ y`. */
  function Xor(x: nat, y: nat): nat {
    if x == 0 then y else 2 * Xor(x / 2, y / 2) + if x % 2 != y % 2 then 1 else 0
  }

  /** `x << k`, before truncation to the word size. */
  function Shl(x: nat, k: nat): nat {
    x * Pow2(k)
  }

  function Quotient(x: nat, p: nat): nat
    requires p > 0
  {
    x / p
  }

  /** `(1 << k) - 1`. */
  function Ones(k: nat): nat {
    Pow2(k) - 1
  }

  /** Number of zero bits below the lowest set bit. */
  function Ctz(x: nat): nat
    requires x > 0
  {
    if x % 2 == 1 then 0 else 1 + Ctz(x / 2)
  }

  lemma Associate(a: nat, b: nat, c: nat)
    ensures a * (b * c) == a * b * c
  {
  }

  lemma {:induction false} PowersAdd(j: nat, k: nat)
    ensures Pow2(j + k) == Pow2(j) * Pow2(k)
  {
    if j > 0 {
      PowersAdd(j - 1, k);
      Associate(2, Pow2(j - 1), Pow2(k));
    }
  }

  // ---- Operators and positions ----

  /** A word with `high` from bit k on and `low` below. */
  function Joined(low: nat, high: nat, k: nat): nat {
    low + Pow2(k) * high
  }

  /** Peeling the lowest bit off a joined word. */
  lemma JoinedHalf(low: nat, high: nat, k: nat)
    requires k > 0
    ensures Joined(low, high, k) / 2 == Joined(low / 2, high, k - 1)
    ensures Joined(low, high, k) % 2 == low % 2
  {
    var p := Pow2(k - 1) * high;
    Associate(2, Pow2(k - 1), high);
    assert Joined(low, high, k) == low + 2 * p;
  }

  lemma JoinedAtZero(low: nat, high: nat)
    requires low < Pow2(0)
    ensures low == 0 && Joined(low, high, 0) == high
  {
  }

  lemma AndUnfold(x: nat, y: nat)
    ensures And(x, y) == 2 * And(x / 2, y / 2) + if x % 2 == 1 && y % 2 == 1 then 1 else 0
  {
  }

  lemma OrUnfold(x: nat, y: nat)
    ensures Or(x, y) == 2 * Or(x / 2, y / 2) + if x % 2 == 1 || y % 2 == 1 then 1 else 0
  {
  }

  lemma XorUnfold(x: nat, y: nat)
    ensures Xor(x, y) == 2 * Xor(x / 2, y / 2) + if x % 2 != y % 2 then 1 else 0
  {
  }

  lemma HalfFits(a: nat, k: nat)
    requires k > 0 && a < Pow2(k)
    ensures a / 2 < Pow2(k - 1)
  {
  }

  lemma JoinedDouble(low: nat, high: nat, k: nat, b: bit)
    requires k > 0
    ensures 2 * Joined(low, high, k - 1) + b == Joined(2 * low + b, high, k)
  {
    Associate(2, Pow2(k - 1), high);
  }

  lemma JoinedZero(high: nat)
    ensures Joined(0, high, 0) == high
  {
  }

  lemma AndZero(x: nat)
    ensures And(0, x) == 0 && And(x, 0) == 0
  {
  }

  /** AND works on the two parts of a word separately. */
  lemma {:induction false} AndJoined(a: nat, b: nat, c: nat, d: nat, k: nat)
    requires a < Pow2(k) && c < Pow2(k)
    ensures And(Joined(a, b, k), Joined(c, d, k)) == Joined(And(a, c), And(b, d), k)
  {
    hide *;
    if k == 0 {
      JoinedAtZero(a, b);
      JoinedAtZero(c, d);
      AndZero(c);
      JoinedZero(And(b, d));
    } else {
      JoinedHalf(a, b, k);
      JoinedHalf(c, d, k);
      HalfFits(a, k);
      HalfFits(c, k);
      AndJoined(a / 2, b, c / 2, d, k - 1);
      AndUnfold(Joined(a, b, k), Joined(c, d, k));
      AndUnfold(a, c);
      JoinedDouble(And(a / 2, c / 2), And(b, d), k, if a % 2 == 1 && c % 2 == 1 then 1 else 0);
    }
  }

  lemma OrZero(x: nat)
    ensures Or(0, x) == x && Or(x, 0) == x
  {
  }

  lemma {:induction false} OrJoined(a: nat, b: nat, c: nat, d: nat, k: nat)
    requires a < Pow2(k) && c < Pow2(k)
    ensures Or(Joined(a, b, k), Joined(c, d, k)) == Joined(Or(a, c), Or(b, d), k)
  {
    hide *;
    if k == 0 {
      JoinedAtZero(a, b);
      JoinedAtZero(c, d);
      OrZero(c);
      JoinedZero(Or(b, d));
    } else {
      JoinedHalf(a, b, k);
      JoinedHalf(c, d, k);
      HalfFits(a, k);
      HalfFits(c, k);
      OrJoined(a / 2, b, c / 2, d, k - 1);
      OrUnfold(Joined(a, b, k), Joined(c, d, k));
      OrUnfold(a, c);
      JoinedDouble(Or(a / 2, c / 2), Or(b, d), k, if a % 2 == 1 || c % 2 == 1 then 1 else 0);
    }
  }

  lemma XorZero(x: nat)
    ensures Xor(0, x) == x && Xor(x, 0) == x
  {
  }

  lemma {:induction false} XorJoined(a: nat, b: nat, c: nat, d: nat, k: nat)
    requires a < Pow2(k) && c < Pow2(k)
    ensures Xor(Joined(a, b, k), Joined(c, d, k)) == Joined(Xor(a, c), Xor(b, d), k)
  {
    hide *;
    if k == 0 {
      JoinedAtZero(a, b);
      JoinedAtZero(c, d);
      XorZero(c);
      JoinedZero(Xor(b, d));
    } else {
      JoinedHalf(a, b, k);
      JoinedHalf(c, d, k);
      HalfFits(a, k);
      HalfFits(c, k);
      XorJoined(a / 2, b, c / 2, d, k - 1);
      XorUnfold(Joined(a, b, k), Joined(c, d, k));
      XorUnfold(a, c);
      JoinedDouble(Xor(a / 2, c / 2), Xor(b, d), k, if a % 2 != c % 2 then 1 else 0);
    }
  }

  /** An OR of disjoint bit ranges is a sum. */
  lemma OrDisjoint(low: nat, high: nat, k: nat)
    requires low < Pow2(k)
    ensures Or(low, Shl(high, k)) == low + Shl(high, k)
  {
    OrJoined(low, 0, 0, high, k);
    OrZero(low);
    OrZero(high);
  }

  lemma {:induction false} UniqueQuotient(q: nat, r: nat, q': nat, r': nat, m: nat)
    requires q * m + r == q' * m + r' && r < m && r' < m
    ensures q == q' && r == r'
  {
    if q > 0 && q' > 0 {
      assert q * m == (q - 1) * m + m && q' * m == (q' - 1) * m + m;
      UniqueQuotient(q - 1, r, q' - 1, r', m);
    }
  }

  lemma RemainderIs(x: nat, m: nat, q: nat, r: nat)
    requires m > 0 && x == q * m + r && r < m
    ensures x % m == r && x / m == q
  {
    var q', r' := x / m, x % m;
    assert x == q' * m + r' && r' < m;
    UniqueQuotient(q, r, q', r', m);
  }

  lemma HalfRemainder(x: nat, p: nat)
    requires p > 0
    ensures 2 * (x / 2 % p) + x % 2 == x % (2 * p)
  {
    var q, r := x / 2 / p, x / 2 % p;
    assert x / 2 == q * p + r;
    Associate(2, q, p);
    assert x == q * (2 * p) + (2 * r + x % 2);
    RemainderIs(x, 2 * p, q, 2 * r + x % 2);
  }

  /** Masking with k ones is a remainder. */
  lemma {:induction false} AndOnes(x: nat, k: nat)
    ensures And(x, Ones(k)) == x % Pow2(k)
  {
    if k == 0 {
      AndZero(x);
    } else {
      AndOnes(x / 2, k - 1);
      AndUnfold(x, Ones(k));
      hide And;
      assert Ones(k) / 2 == Ones(k - 1) && Ones(k) % 2 == 1;
      HalfRemainder(x, Pow2(k - 1));
    }
  }

  lemma Distributed(q: nat, b: nat, a: nat, r: nat)
    ensures (q * b + r) * a == q * (a * b) + r * a
  {
  }

  lemma BoundedDigits(high: nat, low: nat, a: nat, b: nat)
    requires low < a && high < b
    ensures high * a + low < a * b
  {
    var d := b - 1 - high;
    assert a * (d + 1 + high) == a * d + a + high * a;
  }

  lemma TwoDigits(x: nat, a: nat, b: nat, q: nat, r: nat, q': nat, r': nat)
    requires x == q * a + r && q == q' * b + r' && r < a && r' < b
    ensures x == q' * (a * b) + (r' * a + r) && 0 <= r' * a + r < a * b
  {
    Distributed(q', b, a, r');
    BoundedDigits(r', r, a, b);
  }

  lemma QuotientTwice(x: nat, a: nat, b: nat)
    requires a > 0 && b > 0 && a * b > 0
    ensures Quotient(Quotient(x, a), b) == Quotient(x, a * b)
  {
    var q, r := x / a, x % a;
    var q', r' := q / b, q % b;
    TwoDigits(x, a, b, q, r, q', r');
    RemainderIs(x, a * b, q', r' * a + r);
  }

  lemma {:induction false} ShrTwice(x: nat, j: nat, k: nat)
    ensures Shr(Shr(x, j), k) == Shr(x, j + k)
    decreases j
  {
    if j > 0 {
      ShrTwice(x / 2, j - 1, k);
    }
  }

  lemma {:induction false} ShrIsQuotient(x: nat, k: nat)
    ensures Shr(x, k) == Quotient(x, Pow2(k))
  {
    if k > 0 {
      ShrIsQuotient(x / 2, k - 1);
      QuotientTwice(x, 2, Pow2(k - 1));
    }
  }

  lemma SplitAt(x: nat, k: nat)
    ensures x == Joined(x % Pow2(k), Shr(x, k), k) && x % Pow2(k) < Pow2(k)
  {
    hide Pow2, Shr;
    ShrIsQuotient(x, k);
  }

  lemma ShlIsJoined(x: nat, k: nat)
    ensures Shl(x, k) == Joined(0, x, k)
  {
  }

  /** Masking with m ones at position k keeps the m bits from k on. */
  lemma AndField(x: nat, m: nat, k: nat)
    ensures And(x, Shl(Ones(m), k)) == Shl(Shr(x, k) % Pow2(m), k)
  {
    var low, high := x % Pow2(k), Shr(x, k);
    SplitAt(x, k);
    assert Shl(Ones(m), k) == Joined(0, Ones(m), k);
    hide *;
    AndJoined(low, high, 0, Ones(m), k);
    AndZero(low);
    AndOnes(high, m);
    ShlIsJoined(high % Pow2(m), k);
  }

  lemma ShlDouble(x: nat, k: nat)
    requires k > 0
    ensures Shl(x, k) == 2 * Shl(x, k - 1)
  {
    Associate(2, Pow2(k - 1), x);
  }

  lemma CtzDouble(x: nat)
    requires x > 0
    ensures Ctz(2 * x) == 1 + Ctz(x)
  {
  }

  lemma ShlZero(x: nat)
    ensures Shl(x, 0) == x
  {
  }

  lemma {:induction false} CtzShift(x: nat, k: nat)
    requires x > 0
    ensures Shl(x, k) > 0 && Ctz(Shl(x, k)) == k + Ctz(x)
  {
    hide *;
    if k == 0 {
      ShlZero(x);
    } else {
      CtzShift(x, k - 1);
      ShlDouble(x, k);
      CtzDouble(Shl(x, k - 1));
    }
  }

  // ---- Words of bytes ----

  /** The word whose bytes are s, least significant first. */
  function Word(s: seq<byte>): nat {
    if s == [] then 0 else s[0] + 256 * Word(s[1..])
  }

  lemma {:induction false} WordFits(s: seq<byte>)
    ensures Word(s) < Pow2(8 * |s|)
  {
    if s != [] {
      WordFits(s[1..]);
      Pow2At8();
      PowersAdd(8, 8 * (|s| - 1));
    }
  }

  lemma {:induction false} WordConcat(s: seq<byte>, t: seq<byte>)
    ensures Word(s + t) == Joined(Word(s), Word(t), 8 * |s|)
  {
    if s == [] {
      assert s + t == t;
    } else {
      WordConcat(s[1..], t);
      assert (s + t)[1..] == s[1..] + t;
      Pow2At8();
      PowersAdd(8, 8 * (|s| - 1));
      Associate(256, Pow2(8 * (|s| - 1)), Word(t));
    }
  }

  /** Dividing by the first bytes leaves the word of the others. */
  lemma WordSplit(s: seq<byte>, n: nat)
    requires n <= |s|
    ensures Shr(Word(s), 8 * n) == Word(s[n..]) && Word(s) % Pow2(8 * n) == Word(s[..n])
  {
    hide Pow2, Word;
    WordConcat(s[..n], s[n..]);
    assert s == s[..n] + s[n..];
    WordFits(s[..n]);
    RemainderIs(Word(s), Pow2(8 * n), Word(s[n..]), Word(s[..n]));
    ShrIsQuotient(Word(s), 8 * n);
  }

  lemma WordHead(s: seq<byte>)
    requires s != []
    ensures Word(s) == Joined(s[0], Word(s[1..]), 8)
  {
    Pow2At8();
  }

  /** AND and XOR of words work byte by byte. */
  lemma {:induction false} AndBytes(s: seq<byte>, t: seq<byte>, r: seq<byte>)
    requires |s| == |t| == |r| && forall i :: 0 <= i < |s| ==> r[i] == And(s[i], t[i])
    ensures And(Word(s), Word(t)) == Word(r)
  {
    if s != [] {
      hide *;
      AndBytes(s[1..], t[1..], r[1..]);
      WordHead(s);
      WordHead(t);
      WordHead(r);
      Pow2At8();
      AndJoined(s[0], Word(s[1..]), t[0], Word(t[1..]), 8);
    } else {
      AndZero(0);
    }
  }

  lemma {:induction false} XorBytes(s: seq<byte>, t: seq<byte>, r: seq<byte>)
    requires |s| == |t| == |r| && forall i :: 0 <= i < |s| ==> r[i] == Xor(s[i], t[i])
    ensures Xor(Word(s), Word(t)) == Word(r)
  {
    if s != [] {
      hide *;
      XorBytes(s[1..], t[1..], r[1..]);
      WordHead(s);
      WordHead(t);
      WordHead(r);
      Pow2At8();
      XorJoined(s[0], Word(s[1..]), t[0], Word(t[1..]), 8);
    } else {
      XorZero(0);
    }
  }

  // ---- The operators bit by bit ----

  lemma BitIsQuotient(x: nat, j: nat)
    ensures Bit(x, j) == x / Pow2(j) % 2
  {
    ShrBit(x, j);
    ShrIsQuotient(x, j);
  }

  lemma PowersToSeven(j: nat)
    requires j < 8
    ensures Pow2(j) == [1, 2, 4, 8, 16, 32, 64, 128][j]
  {
    assert Pow2(4) == 16 && Pow2(7) == 8 * Pow2(4);
  }

  /** Bit k of a bitmap is bit k % 8 of byte k / 8, counted from the least significant one. */
  lemma BitAtIs(s: seq<byte>, k: nat)
    requires k < 8 * |s|
    ensures BitAt(s, k) == s[k / 8] / [1, 2, 4, 8, 16, 32, 64, 128][k % 8] % 2
  {
    PowersToSeven(k % 8);
    BitIsQuotient(s[k / 8], k % 8);
  }

  lemma {:induction false} AndBit(x: nat, y: nat, j: nat)
    ensures Bit(And(x, y), j) == 1 <==> Bit(x, j) == 1 && Bit(y, j) == 1
  {
    AndUnfold(x, y);
    hide And;
    if j > 0 {
      AndBit(x / 2, y / 2, j - 1);
    }
  }

  lemma {:induction false} OrBit(x: nat, y: nat, j: nat)
    ensures Bit(Or(x, y), j) == 1 <==> Bit(x, j) == 1 || Bit(y, j) == 1
  {
    OrUnfold(x, y);
    hide Or;
    if j > 0 {
      OrBit(x / 2, y / 2, j - 1);
    }
  }

  lemma {:induction false} XorBit(x: nat, y: nat, j: nat)
    ensures Bit(Xor(x, y), j) == 1 <==> Bit(x, j) != Bit(y, j)
  {
    XorUnfold(x, y);
    hide Xor;
    if j > 0 {
      XorBit(x / 2, y / 2, j - 1);
    }
  }

  lemma {:induction false} ShlBit(x: nat, k: nat, j: nat)
    ensures Bit(Shl(x, k), j) == if j < k then 0 else Bit(x, j - k)
  {
    if k == 0 {
      ShlZero(x);
    } else {
      ShlDouble(x, k);
      hide Shl;
      assert Shl(x, k) / 2 == Shl(x, k - 1);
      if j > 0 {
        ShlBit(x, k - 1, j - 1);
      }
    }
  }

  lemma {:induction false} ShrMovesBits(x: nat, k: nat, j: nat)
    ensures Bit(Shr(x, k), j) == Bit(x, j + k)
  {
    if k > 0 {
      ShrMovesBits(x / 2, k - 1, j);
    }
  }

  lemma {:induction false} OnesBit(k: nat, j: nat)
    ensures Bit(Ones(k), j) == if j < k then 1 else 0
  {
    if k == 0 {
      BitOfZero(j);
    } else {
      assert Ones(k) / 2 == Ones(k - 1) && Ones(k) % 2 == 1;
      if j > 0 {
        OnesBit(k - 1, j - 1);
      }
    }
  }

  /** The trailing zeros end at the lowest set bit. */
  lemma {:induction false} CtzIsLowestBit(x: nat)
    requires x > 0
    ensures Bit(x, Ctz(x)) == 1 && forall j :: 0 <= j < Ctz(x) ==> Bit(x, j) == 0
  {
    if x % 2 == 0 {
      CtzIsLowestBit(x / 2);
    }
  }

  /** A remainder of a power of two keeps the bits below it. */
  lemma RemainderBit(x: nat, n: nat, j: nat)
    ensures Bit(x % Pow2(n), j) == if j < n then Bit(x, j) else 0
  {
    AndOnes(x, n);
    OnesBit(n, j);
    AndBit(x, Ones(n), j);
  }

  lemma {:induction false} JoinedBit(low: nat, high: nat, k: nat, j: nat)
    requires low < Pow2(k)
    ensures Bit(Joined(low, high, k), j) == if j < k then Bit(low, j) else Bit(high, j - k)
  {
    if k == 0 {
      JoinedAtZero(low, high);
    } else {
      JoinedHalf(low, high, k);
      HalfFits(low, k);
      hide Joined;
      if j > 0 {
        JoinedBit(low / 2, high, k - 1, j - 1);
      }
    }
  }

  /** The bytes of a word, least significant first, are eight bits each. */
  lemma {:induction false} WordBit(s: seq<byte>, i: nat, j: nat)
    requires i < |s| && j < 8
    ensures Bit(Word(s), 8 * i + j) == Bit(s[i], j)
  {
    hide *;
    WordHead(s);
    Pow2At8();
    JoinedBit(s[0], Word(s[1..]), 8, 8 * i + j);
    if i > 0 {
      WordBit(s[1..], i - 1, j);
    }
  }
}
