/**
 * Divisibility, primes and the greatest common divisor on natural numbers:
 * the mathematical vocabulary in which the arithmetic engine is specified.
 */
module NumberTheory {

  /** d divides n. Zero divides only zero; every number divides zero. */
  predicate Divides(d: nat, n: nat) {
    if d == 0 then n == 0 else n % d == 0
  }

  /** n is a prime: at least 2, and no number strictly between 1 and n divides it. */
  predicate IsPrime(n: nat) {
    n >= 2 && forall k :: 2 <= k < n ==> n % k != 0
  }

  predicate CommonDivisor(d: nat, a: nat, b: nat) {
    Divides(d, a) && Divides(d, b)
  }

  /**
   * g is the greatest common divisor of a and b: a common divisor of both
   * that every other common divisor divides.
   */
  ghost predicate IsGcd(g: nat, a: nat, b: nat) {
    CommonDivisor(g, a, b) && forall d: nat :: CommonDivisor(d, a, b) ==> Divides(d, g)
  }

  /**
   * The greatest common divisor by Euclid's recursion (Elements, Book VII,
   * Proposition 2). Used as a proof device: its contract shows that a
   * greatest common divisor exists for every pair.
   */
  ghost function GcdOf(a: nat, b: nat): (g: nat)
    ensures IsGcd(g, a, b)
    decreases b
  {
    if b == 0 then
      a
    else
      CommonDivisorsOfMod(a, b);
      GcdOf(b, a % b)
  }

  // ---------------------------------------------------------------------
  // Division with remainder
  // ---------------------------------------------------------------------

  /** A positive multiple of m is at least m. */
  lemma {:induction false} MultipleAtLeast(k: nat, m: nat)
    requires k >= 1
    ensures k * m >= m
  {
    if k > 1 {
      MultipleAtLeast(k - 1, m);
      assert k * m == (k - 1) * m + m;
    }
  }

  /** Quotient and remainder are determined by x == q * m + r, 0 <= r < m. */
  lemma DivModUnique(x: nat, m: nat, q: nat, r: nat)
    requires m > 0 && x == q * m + r && r < m
    ensures x / m == q && x % m == r
  {
    var q', r' := x / m, x % m;
    assert x == q' * m + r';
    if q' > q {
      MultipleAtLeast(q' - q, m);
    } else if q' < q {
      MultipleAtLeast(q - q', m);
    }
  }

  /** Scaling both operands scales the remainder. */
  lemma ScaledMod(k: nat, a: nat, b: nat)
    requires k > 0 && b > 0
    ensures (k * a) % (k * b) == k * (a % b)
  {
    var q, r := a / b, a % b;
    assert a == q * b + r;
    assert k * a == q * (k * b) + k * r;
    assert k * r < k * b by {
      MultipleAtLeast(b - r, k);
      assert k * b == k * r + (b - r) * k;
    }
    DivModUnique(k * a, k * b, q, k * r);
  }

  /** Multiplication by a positive number can be cancelled. */
  lemma MulCancel(k: nat, x: nat, y: nat)
    requires k > 0 && k * x == k * y
    ensures x == y
  {
    if x < y {
      MultipleAtLeast(y - x, k);
    } else if y < x {
      MultipleAtLeast(x - y, k);
    }
  }

  lemma MulRearrange(a: nat, b: nat, c: nat)
    ensures a * (b * c) == (a * c) * b
  {
  }

  /** Products are monotone in both factors. */
  lemma MulMonotone(a: nat, b: nat, c: nat, d: nat)
    requires a <= c && b <= d
    ensures a * b <= c * d
  {
    assert c * d == a * b + (c - a) * b + c * (d - b);
  }

  // ---------------------------------------------------------------------
  // Divisibility
  // ---------------------------------------------------------------------

  lemma DividesByMultiple(d: nat, n: nat, k: nat)
    requires n == k * d
    ensures Divides(d, n)
  {
    if d > 0 {
      DivModUnique(n, d, k, 0);
    }
  }

  lemma MultipleOfDivisor(d: nat, n: nat)
    requires d > 0 && Divides(d, n)
    ensures n == (n / d) * d
  {
  }

  lemma DividesProductLeft(d: nat, k: nat)
    ensures Divides(d, d * k)
  {
    DividesByMultiple(d, d * k, k);
  }

  lemma DividesScaled(d: nat, n: nat, c: nat)
    requires Divides(d, n)
    ensures Divides(d, c * n)
  {
    if d > 0 {
      MultipleOfDivisor(d, n);
      assert c * n == (c * (n / d)) * d;
      DividesByMultiple(d, c * n, c * (n / d));
    }
  }

  lemma DividesSum(d: nat, x: nat, y: nat)
    requires Divides(d, x) && Divides(d, y)
    ensures Divides(d, x + y)
  {
    if d > 0 {
      MultipleOfDivisor(d, x);
      MultipleOfDivisor(d, y);
      assert x + y == (x / d + y / d) * d;
      DividesByMultiple(d, x + y, x / d + y / d);
    }
  }

  lemma DividesDifference(d: nat, x: nat, y: nat)
    requires y <= x && Divides(d, x) && Divides(d, y)
    ensures Divides(d, x - y)
  {
    if d > 0 {
      MultipleOfDivisor(d, x);
      MultipleOfDivisor(d, y);
      var k: int := x / d - y / d;
      assert x - y == k * d;
      assert k >= 0;
      DividesByMultiple(d, x - y, k);
    }
  }

  lemma {:induction false} DividesTransitive(a: nat, b: nat, c: nat)
    requires Divides(a, b) && Divides(b, c)
    ensures Divides(a, c)
  {
    if b == 0 {
      assert c == 0;
    } else {
      MultipleOfDivisor(b, c);
      DividesScaled(a, b, c / b);
      assert c == (c / b) * b;
    }
  }

  /** A positive number's divisors are no larger than it. */
  lemma DivisorAtMost(d: nat, n: nat)
    requires n > 0 && Divides(d, n)
    ensures 0 < d <= n
  {
    if d > n {
      DivModUnique(n, d, 0, n);
    }
  }

  lemma DividesAntisymmetric(a: nat, b: nat)
    requires Divides(a, b) && Divides(b, a)
    ensures a == b
  {
    if a > 0 && b > 0 {
      DivisorAtMost(a, b);
      DivisorAtMost(b, a);
    }
  }

  /** The division step of Euclid's algorithm keeps the common divisors of the pair. */
  lemma {:induction false} CommonDivisorsOfMod(a: nat, b: nat)
    requires b > 0
    ensures forall d: nat :: CommonDivisor(d, a, b) <==> CommonDivisor(d, b, a % b)
  {
    var q, r := a / b, a % b;
    assert a == q * b + r;
    forall d: nat
      ensures CommonDivisor(d, a, b) <==> CommonDivisor(d, b, r)
    {
      if CommonDivisor(d, a, b) {
        DividesScaled(d, b, q);
        DividesDifference(d, a, q * b);
        assert a - q * b == r;
      }
      if CommonDivisor(d, b, r) {
        DividesScaled(d, b, q);
        DividesSum(d, q * b, r);
      }
    }
  }

  // ---------------------------------------------------------------------
  // The greatest common divisor
  // ---------------------------------------------------------------------

  /** There is only one greatest common divisor of a pair. */
  lemma GcdUnique(g1: nat, g2: nat, a: nat, b: nat)
    requires IsGcd(g1, a, b) && IsGcd(g2, a, b)
    ensures g1 == g2
  {
    DividesAntisymmetric(g1, g2);
  }

  /** The greatest common divisor is positive and bounds every common divisor. */
  lemma GcdIsGreatest(g: nat, a: nat, b: nat, d: nat)
    requires IsGcd(g, a, b) && (a > 0 || b > 0) && CommonDivisor(d, a, b)
    ensures 0 < d <= g
  {
    if a > 0 {
      DivisorAtMost(g, a);
    } else {
      DivisorAtMost(g, b);
    }
    DivisorAtMost(d, g);
  }

  /** A pair whose common divisors are exactly the divisors of g has g as its gcd. */
  lemma GcdFromDivisors(g: nat, a: nat, b: nat)
    requires forall d: nat :: CommonDivisor(d, a, b) <==> Divides(d, g)
    ensures IsGcd(g, a, b)
  {
    assert Divides(g, g);
  }

  /** gcd(k * a, k * b) == k * gcd(a, b). */
  lemma {:induction false} GcdScaled(k: nat, a: nat, b: nat)
    requires k > 0
    ensures GcdOf(k * a, k * b) == k * GcdOf(a, b)
    decreases b
  {
    if b == 0 {
      assert k * b == 0;
    } else {
      assert k * b > 0;
      ScaledMod(k, a, b);
      GcdScaled(k, b, a % b);
    }
  }

  // ---------------------------------------------------------------------
  // Primes
  // ---------------------------------------------------------------------

  /** The only divisors of a prime are 1 and the prime itself. */
  lemma PrimeDivisorsAreTrivial(p: nat, d: nat)
    requires IsPrime(p) && Divides(d, p)
    ensures d == 1 || d == p
  {
    DivisorAtMost(d, p);
  }

  /** Euclid's lemma: a prime that divides a product divides one of its factors. */
  lemma EuclidLemma(p: nat, a: nat, b: nat)
    requires IsPrime(p) && Divides(p, a * b)
    ensures Divides(p, a) || Divides(p, b)
  {
    if !Divides(p, a) && b > 0 {
      var g := GcdOf(p, a);
      PrimeDivisorsAreTrivial(p, g);
      assert g == 1;
      GcdScaled(b, p, a);
      assert b * g == b;
      DividesProductLeft(p, b);
      assert b * p == p * b;
      assert a * b == b * a;
      assert CommonDivisor(p, b * p, b * a);
    }
  }

  /** Every number from 2 on has a prime divisor. */
  lemma {:induction false} PrimeDivisor(n: nat) returns (p: nat)
    requires n >= 2
    ensures IsPrime(p) && Divides(p, n)
    decreases n
  {
    if IsPrime(n) {
      p := n;
      assert n % n == 0;
    } else {
      var k :| 2 <= k < n && n % k == 0;
      p := PrimeDivisor(k);
      DividesTransitive(p, k, n);
    }
  }

  // ---------------------------------------------------------------------
  // Trial division
  // ---------------------------------------------------------------------

  /** No number in [2, d) divides n. */
  predicate NoDivisorBelow(n: nat, d: nat) {
    forall k :: 2 <= k < d ==> n % k != 0
  }

  /** The least divisor from 2 on of a positive number is a prime. */
  lemma LeastDivisorIsPrime(d: nat, n: nat)
    requires n > 0 && d >= 2 && Divides(d, n) && NoDivisorBelow(n, d)
    ensures IsPrime(d)
  {
    forall k | 2 <= k < d ensures d % k != 0 {
      if d % k == 0 {
        DividesTransitive(k, d, n);
      }
    }
  }

  /** A number from 2 on with no divisor up to its square root is a prime. */
  lemma NoDivisorUpToRootIsPrime(n: nat, d: nat)
    requires n >= 2 && d >= 2 && n < d * d && NoDivisorBelow(n, d)
    ensures IsPrime(n)
  {
    forall k | 2 <= k < n ensures n % k != 0 {
      if n % k == 0 {
        var j := n / k;
        assert n == j * k;
        DividesByMultiple(j, n, k);
        if k >= d && j >= d {
          MulMonotone(d, d, j, k);
        }
      }
    }
  }

  /** Dividing out a divisor cannot create new divisors. */
  lemma NoDivisorBelowQuotient(n: nat, d: nat, e: nat)
    requires d > 0 && Divides(d, n) && NoDivisorBelow(n, e)
    ensures NoDivisorBelow(n / d, e)
  {
    MultipleOfDivisor(d, n);
    DividesByMultiple(n / d, n, d);
    forall k | 2 <= k < e ensures (n / d) % k != 0 {
      if (n / d) % k == 0 {
        DividesTransitive(k, n / d, n);
      }
    }
  }
}
