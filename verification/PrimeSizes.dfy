/** Prime table sizes: the trial division of APPS/baselib/HashedTbl.c and the search for the next size. */
module PrimeSizes {

  const MAXPRIME := 1565807

  ghost predicate NoDivisorUpTo(n: int, limit: int) {
    forall d :: 2 <= d <= limit ==> n % d != 0
  }

  ghost predicate Prime(n: int) {
    n >= 2 && NoDivisorUpTo(n, n - 1)
  }

  lemma ProductMonotone(a: nat, b: nat, c: nat, d: nat)
    requires a <= b && c <= d
    ensures a * c <= b * d
  {
    assert a * c <= b * c;
    assert b * c <= b * d;
  }

  lemma ProductDivides(d: nat, q: nat)
    requires q > 0
    ensures (d * q) % q == 0
  {
    var n := d * q;
    var k := n / q;
    assert n == k * q + n % q;
    assert (d - k) * q == n % q;
    if d > k {
      ProductMonotone(1, d - k, q, q);
    } else if d < k {
      assert (k - d) * q == -(n % q);
      ProductMonotone(1, k - d, q, q);
    }
  }

  lemma RootBound(limit: nat, d: nat, q: nat)
    requires d > limit && d * q < (limit + 1) * (limit + 1)
    ensures q <= limit
  {
    if q > limit {
      ProductMonotone(limit + 1, d, limit + 1, q);
    }
  }

  /** A number with a proper divisor has one no larger than its square root. */
  lemma SmallDivisor(n: nat, limit: nat, d: nat) returns (e: nat)
    requires n < (limit + 1) * (limit + 1)
    requires 2 <= d < n && n % d == 0
    ensures 2 <= e <= limit && n % e == 0
  {
    if d <= limit {
      return d;
    }
    e := n / d;
    assert n == d * e;
    RootBound(limit, d, e);
    assert e == 1 ==> d * e == d;
    assert e == 0 ==> d * e == 0;
    ProductDivides(d, e);
  }

  /** The floor of the square root, which the source gets from the floating-point `sqrt`. */
  method SquareRoot(n: nat) returns (limit: nat)
    ensures limit * limit <= n < (limit + 1) * (limit + 1)
  {
    limit := 0;
    while (limit + 1) * (limit + 1) <= n
      invariant limit * limit <= n
    {
      limit := limit + 1;
    }
  }

  /** Trial division up to the square root. The answer is right exactly from 2 on: for 0 and 1, which are
      not prime, the loop does not run and the answer is yes. */
  method IsPrime(n: nat) returns (prime: bool)
    ensures prime <==> n < 2 || Prime(n)
  {
    prime := true;
    var limit := SquareRoot(n);
    var divisor := 2;
    while divisor <= limit
      invariant 2 <= divisor
      invariant NoDivisorUpTo(n, divisor - 1)
    {
      if n % divisor == 0 {
        prime := false;
        ProductMonotone(2, limit, limit, limit);
        return;
      }
      divisor := divisor + 1;
    }
    forall d: nat | 2 <= d < n
      ensures n % d != 0
    {
      if n % d == 0 {
        var e := SmallDivisor(n, limit, d);
      }
    }
  }

  ghost predicate Candidate(n: int) {
    n < 2 || Prime(n)
  }

  /** The least candidate from `suggest` up to MAXPRIME, or the suggestion itself when there is none. */
  method GetOptSize(suggest: nat) returns (size: nat)
    ensures size >= suggest
    ensures forall c :: suggest <= c < size ==> !Candidate(c)
    ensures || (Candidate(size) && size < MAXPRIME)
            || (size == suggest && forall c :: suggest <= c < MAXPRIME ==> !Candidate(c))
  {
    var cur := suggest;
    while cur < MAXPRIME
      invariant suggest <= cur
      invariant forall c :: suggest <= c < cur ==> !Candidate(c)
    {
      var prime := IsPrime(cur);
      if prime {
        return cur;
      }
      cur := cur + 1;
    }
    return suggest;
  }
}
