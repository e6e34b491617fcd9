/** Arrow record batches: (offset, length) pairs that must describe buffers laid out in order. */
module ArrowBuffers {
  import opened Bytes

  function Offset(p: seq<int64>, i: nat): int64
    requires 2 * i + 1 < |p|
  {
    p[2 * i]
  }

  function Length(p: seq<int64>, i: nat): int64
    requires 2 * i + 1 < |p|
  {
    p[2 * i + 1]
  }

  function End(p: seq<int64>, i: nat): int
    requires 2 * i + 1 < |p|
  {
    p[2 * i] as int + p[2 * i + 1] as int
  }

  ghost predicate InBody(p: seq<int64>, i: nat, body: int)
    requires 2 * i + 1 < |p|
  {
    Offset(p, i) >= 0 && Length(p, i) >= 0 && End(p, i) <= body
  }

  /** A non-empty buffer starts at or after the end of every earlier buffer, the empty ones included. */
  ghost predicate InOrder(p: seq<int64>, i: nat, j: nat)
    requires i < j && 2 * j + 1 < |p|
  {
    Length(p, j) > 0 ==> Offset(p, j) >= End(p, i)
  }

  ghost predicate ValidBuffers(p: seq<int64>, count: nat, body: int)
    requires 2 * count <= |p|
  {
    && body >= 0
    && (forall i :: 0 <= i < count ==> InBody(p, i, body))
    && forall i, j :: 0 <= i < j < count ==> InOrder(p, i, j)
  }

  /** Keeps only the largest end seen so far. The sums assigned to `prevEnd` fit 64 bits because they are
    * at most body. */
  method ValidateArrow(p: seq<int64>, count: nat, body: int64) returns (ok: bool)
    requires 2 * count <= |p|
    ensures ok <==> ValidBuffers(p, count, body)
  {
    if body < 0 {
      return false;
    }
    var prevEnd: int64 := 0;
    var i := 0;
    while i < count
      invariant 0 <= i <= count && 0 <= prevEnd <= body
      invariant forall k :: 0 <= k < i ==> InBody(p, k, body) && End(p, k) <= prevEnd
      invariant forall k, j :: 0 <= k < j < i ==> InOrder(p, k, j)
      invariant prevEnd == 0 || exists k :: 0 <= k < i && End(p, k) == prevEnd
    {
      var off, len := p[2 * i], p[2 * i + 1];
      if off < 0 || len < 0 {
        assert !InBody(p, i, body);
        return false;
      }
      var end: int := off as int + len;
      if end > body {
        assert !InBody(p, i, body);
        return false;
      }
      if len > 0 && off < prevEnd {
        var k :| 0 <= k < i && End(p, k) == prevEnd;
        assert !InOrder(p, k, i);
        return false;
      }
      if off as int + len > prevEnd {
        prevEnd := off + len;
      }
      assert End(p, i) <= prevEnd;
      i := i + 1;
    }
    return true;
  }

  /** No byte of the body belongs to two buffers. */
  lemma BuffersDisjoint(p: seq<int64>, count: nat, body: int, i: nat, j: nat, x: int)
    requires 2 * count <= |p| && ValidBuffers(p, count, body) && i < count && j < count && i != j
    ensures !(&& p[2 * i] <= x < p[2 * i] as int + p[2 * i + 1] as int
              && p[2 * j] <= x < p[2 * j] as int + p[2 * j + 1] as int)
  {
    if i < j {
      assert InOrder(p, i, j);
    } else {
      assert InOrder(p, j, i);
    }
  }

  function TotalLength(p: seq<int64>, count: nat): int
    requires 2 * count <= |p|
  {
    if count == 0 then 0 else TotalLength(p, count - 1) + Length(p, count - 1)
  }

  lemma TotalStep(p: seq<int64>, n: nat)
    requires 2 * n + 1 < |p|
    ensures TotalLength(p, n + 1) == TotalLength(p, n) + p[2 * n + 1] && TotalLength(p, 0) == 0
  {
  }

  /** The lengths of the first n buffers add up to no more than any bound on their ends. */
  lemma {:induction false} TotalWithinEnd(p: seq<int64>, n: nat, count: nat, body: int, end: int)
    requires n <= count && 2 * count <= |p| && ValidBuffers(p, count, body)
    requires 0 <= end && forall i :: 0 <= i < n ==> End(p, i) <= end
    ensures TotalLength(p, n) <= end
  {
    if n > 0 {
      var j := n - 1;
      TotalStep(p, j);
      assert InBody(p, j, body);
      if Length(p, j) > 0 {
        forall i | 0 <= i < j
          ensures End(p, i) <= Offset(p, j)
        {
          assert InOrder(p, i, j);
        }
        TotalWithinEnd(p, j, count, body, Offset(p, j));
      } else {
        TotalWithinEnd(p, j, count, body, end);
      }
    }
  }

  lemma TotalWithinBody(p: seq<int64>, count: nat, body: int)
    requires 2 * count <= |p| && ValidBuffers(p, count, body)
    ensures TotalLength(p, count) <= body
  {
    forall i | 0 <= i < count
      ensures End(p, i) <= body
    {
      assert InBody(p, i, body);
    }
    TotalWithinEnd(p, count, count, body, body);
  }

  /** The accepted metadata in the array's own terms: buffer i has its offset at 2 * i and its length after it. */
  lemma ValidIff(p: seq<int64>, count: nat, body: int)
    requires 2 * count <= |p|
    ensures ValidBuffers(p, count, body) <==>
            && body >= 0
            && (forall i {:trigger Offset(p, i)} :: 0 <= i < count ==>
                  p[2 * i] >= 0 && p[2 * i + 1] >= 0 && p[2 * i] as int + p[2 * i + 1] as int <= body)
            && (forall i, j {:trigger Offset(p, i), Offset(p, j)} :: 0 <= i < j < count ==>
                  p[2 * j + 1] <= 0 || p[2 * j] as int >= p[2 * i] as int + p[2 * i + 1] as int)
  {
    forall i | 0 <= i < count
      ensures Offset(p, i) == p[2 * i]
      ensures InBody(p, i, body) <==>
              p[2 * i] >= 0 && p[2 * i + 1] >= 0 && p[2 * i] as int + p[2 * i + 1] as int <= body
    {
    }
    forall i, j | 0 <= i < j < count
      ensures Offset(p, i) == p[2 * i] && Offset(p, j) == p[2 * j]
      ensures InOrder(p, i, j) <==>
              p[2 * j + 1] <= 0 || p[2 * j] as int >= p[2 * i] as int + p[2 * i + 1] as int
    {
    }
    hide InBody, InOrder;
  }
}
