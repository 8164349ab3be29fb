/**
 * The arithmetic engine of the GCD learning app: Euclid's algorithm, prime
 * factorisation by trial division, the gcd computed from two
 * factorisations, and the step-by-step trace of the division method.
 * Each operation keeps the loops of app.py's gcd, get_prime_factors,
 * visualize_prime_factorization and visualize_division, and is proved
 * against the divisibility definitions of NumberTheory.
 */
module GcdEngine {
  import opened NumberTheory
  import opened FactorLists

  // ---------------------------------------------------------------------
  // Euclid's algorithm
  // ---------------------------------------------------------------------

  /** x, y have exactly the common divisors of a, b. */
  ghost predicate SameCommonDivisors(x: nat, y: nat, a: nat, b: nat) {
    forall d: nat :: CommonDivisor(d, x, y) <==> CommonDivisor(d, a, b)
  }

  /**
   * Euclid's algorithm: while b is non-zero replace (a, b) by (b, a % b).
   * The result is the greatest common divisor; it is positive unless both
   * inputs are zero.
   */
  method Gcd(a: nat, b: nat) returns (g: nat)
    ensures IsGcd(g, a, b)
    ensures a > 0 || b > 0 ==> g > 0
  {
    var x, y := a, b;
    while y != 0
      invariant SameCommonDivisors(x, y, a, b)
      decreases y
    {
      CommonDivisorsOfMod(x, y);
      x, y := y, x % y;
    }
    GcdFromDivisors(x, a, b);
    g := x;
  }

  // ---------------------------------------------------------------------
  // Prime factorisation by trial division
  // ---------------------------------------------------------------------

  lemma SortedAppend(s: seq<nat>, x: nat)
    requires Sorted(s) && forall y :: y in s ==> y <= x
    ensures Sorted(s + [x])
  {
    forall i, j | 0 <= i < j < |s| + 1 ensures (s + [x])[i] <= (s + [x])[j] {
      if j == |s| {
        assert (s + [x])[i] == s[i] && s[i] in s;
      }
    }
  }

  /** Dividing one copy of d out of the cofactor keeps the trial-division invariant. */
  lemma DivideOut(n: nat, factors: seq<nat>, rest: nat, d: nat)
    requires d >= 2 && rest >= 1 && rest % d == 0
    requires Product(factors) * rest == n
    requires AllPrime(factors) && Sorted(factors) && forall f :: f in factors ==> f <= d
    requires NoDivisorBelow(rest, d)
    ensures 1 <= rest / d < rest
    ensures Product(factors + [d]) * (rest / d) == n
    ensures AllPrime(factors + [d]) && Sorted(factors + [d])
    ensures NoDivisorBelow(rest / d, d)
  {
    LeastDivisorIsPrime(d, rest);
    SortedAppend(factors, d);
    NoDivisorBelowQuotient(rest, d, d);
    MultipleOfDivisor(d, rest);
    var q, pf := rest / d, Product(factors);
    assert rest == q * d;
    assert q >= 1;
    MultipleAtLeast(d - 1, q);
    assert rest == (d - 1) * q + q;
    ProductAppend(factors, [d]);
    assert Product(factors + [d]) == pf * d;
    MulRearrange(pf, q, d);
  }

  /** The leftover cofactor above 1 is a prime no smaller than the factors found. */
  lemma AppendLeftover(n: nat, factors: seq<nat>, rest: nat, d: nat)
    requires d >= 2 && rest > 1 && rest < d * d
    requires Product(factors) * rest == n
    requires AllPrime(factors) && Sorted(factors) && forall f :: f in factors ==> f < d
    requires NoDivisorBelow(rest, d)
    ensures Product(factors + [rest]) == n
    ensures AllPrime(factors + [rest]) && Sorted(factors + [rest])
  {
    NoDivisorUpToRootIsPrime(rest, d);
    assert rest % rest == 0;
    SortedAppend(factors, rest);
    ProductAppend(factors, [rest]);
  }

  /**
   * Trial division: candidate divisors d from 2 while d * d is at most
   * the remaining cofactor, every copy of d divided out before d moves on,
   * and a leftover cofactor above 1 appended at the end. The result is the
   * sorted prime factorisation of n: empty for 1, [n] for a prime n.
   */
  method PrimeFactors(n: nat) returns (factors: seq<nat>)
    requires n >= 1
    ensures Product(factors) == n
    ensures AllPrime(factors) && Sorted(factors)
    ensures n == 1 ==> factors == []
    ensures IsPrime(n) ==> factors == [n]
  {
    factors := [];
    var d: nat := 2;
    var rest := n;
    while d * d <= rest
      invariant d >= 2 && rest >= 1
      invariant Product(factors) * rest == n
      invariant AllPrime(factors) && Sorted(factors)
      invariant forall f :: f in factors ==> f < d
      invariant NoDivisorBelow(rest, d)
      decreases rest + 1 - d
    {
      MultipleAtLeast(d, d);
      ghost var before := rest;
      while rest % d == 0
        invariant 1 <= rest <= before
        invariant Product(factors) * rest == n
        invariant AllPrime(factors) && Sorted(factors)
        invariant forall f :: f in factors ==> f <= d
        invariant NoDivisorBelow(rest, d)
        decreases rest
      {
        DivideOut(n, factors, rest, d);
        factors := factors + [d];
        rest := rest / d;
      }
      d := d + 1;
    }
    if rest > 1 {
      AppendLeftover(n, factors, rest, d);
      factors := factors + [rest];
    }
    if n == 1 && factors != [] {
      ProductOfPrimesAtLeastTwo(factors);
    }
    if IsPrime(n) {
      FactorizationUnique(factors, [n]);
    }
  }

  // ---------------------------------------------------------------------
  // The gcd from two factorisations
  // ---------------------------------------------------------------------

  lemma {:induction false} RepeatCount(x: nat, n: nat, y: nat)
    ensures Count(Repeat(x, n), y) == if y == x then n else 0
  {
    if n > 0 {
      assert Repeat(x, n) == [x] + Repeat(x, n - 1);
      RepeatCount(x, n - 1, y);
    }
  }

  /** Extending a list by m copies of p adds m to the count of p and nothing else. */
  lemma CountAfterExtend(s: seq<nat>, p: nat, m: nat)
    ensures forall q :: Count(s + Repeat(p, m), q) == Count(s, q) + if q == p then m else 0
  {
    forall q ensures Count(s + Repeat(p, m), q) == Count(s, q) + if q == p then m else 0 {
      RepeatCount(p, m, q);
      assert multiset(s + Repeat(p, m)) == multiset(s) + multiset(Repeat(p, m));
    }
  }

  /**
   * For every prime p that occurs in both lists (in no particular order),
   * append min(count1, count2) copies of p to the common factors and
   * multiply the running result by p to that power.
   */
  method CommonFactors(factors1: seq<nat>, factors2: seq<nat>) returns (common: seq<nat>, gcdResult: nat)
    ensures forall p :: Count(common, p) == Min(Count(factors1, p), Count(factors2, p))
    ensures gcdResult == Product(common)
    ensures (forall p :: p in factors1 ==> p !in factors2) ==> common == [] && gcdResult == 1
  {
    var shared := set p | p in factors1 && p in factors2;
    var remaining := shared;
    common, gcdResult := [], 1;
    while remaining != {}
      invariant remaining <= shared
      invariant gcdResult == Product(common)
      invariant forall p :: Count(common, p) == if p in shared && p !in remaining then Min(Count(factors1, p), Count(factors2, p)) else 0
      decreases remaining
    {
      var p :| p in remaining;
      var minCount := Min(Count(factors1, p), Count(factors2, p));
      ProductAppend(common, Repeat(p, minCount));
      ProductOfRepeat(p, minCount);
      CountAfterExtend(common, p, minCount);
      common := common + Repeat(p, minCount);
      gcdResult := gcdResult * Power(p, minCount);
      remaining := remaining - {p};
    }
    forall p ensures Count(common, p) == Min(Count(factors1, p), Count(factors2, p)) {
      if p !in shared {
        assert p !in factors1 || p !in factors2;
      }
    }
    if forall p :: p in factors1 ==> p !in factors2 {
      forall p ensures multiset(common)[p] == 0 {
        assert Count(common, p) == Min(Count(factors1, p), Count(factors2, p));
        assert p !in factors1 || p !in factors2;
      }
      assert multiset(common) == multiset{};
    }
  }

  /**
   * The factorisation method: factor both numbers, intersect the two
   * factorisations and multiply the common factors. The result is the gcd.
   */
  method FactorizationGcd(num1: nat, num2: nat) returns (factors1: seq<nat>, factors2: seq<nat>, common: seq<nat>, g: nat)
    requires num1 >= 1 && num2 >= 1
    ensures Product(factors1) == num1 && AllPrime(factors1) && Sorted(factors1)
    ensures Product(factors2) == num2 && AllPrime(factors2) && Sorted(factors2)
    ensures forall p :: Count(common, p) == Min(Count(factors1, p), Count(factors2, p))
    ensures g == Product(common)
    ensures IsGcd(g, num1, num2)
  {
    factors1 := PrimeFactors(num1);
    factors2 := PrimeFactors(num2);
    common, g := CommonFactors(factors1, factors2);
    CommonProductIsGcd(factors1, factors2, common);
  }

  // ---------------------------------------------------------------------
  // The division method, step by step
  // ---------------------------------------------------------------------

  /** One line of the division trace: dividend = divisor * quotient + remainder. */
  datatype DivisionStep = DivisionStep(dividend: nat, divisor: nat, quotient: nat, remainder: nat)

  /** The step is a division with remainder by a non-zero divisor. */
  predicate IsDivision(s: DivisionStep) {
    s.divisor > 0 && s.dividend == s.divisor * s.quotient + s.remainder && s.remainder < s.divisor
  }

  /** Every step divides the previous divisor by the previous remainder. */
  predicate Chained(steps: seq<DivisionStep>) {
    forall i :: 0 < i < |steps| ==> steps[i].dividend == steps[i - 1].divisor && steps[i].divisor == steps[i - 1].remainder
  }

  /**
   * The division method: starting from (max, min), record
   * (A, B, A / B, A % B) and move to (B, A % B) until B is zero. The steps
   * chain, only the last remainder is zero, and the last divisor, which is
   * returned, is the gcd of the inputs and of every step's pair.
   */
  method DivisionTrace(a: nat, b: nat) returns (steps: seq<DivisionStep>, g: nat)
    requires a >= 1 && b >= 1
    ensures |steps| >= 1
    ensures steps[0].dividend == Max(a, b) && steps[0].divisor == Min(a, b)
    ensures forall i :: 0 <= i < |steps| ==> IsDivision(steps[i])
    ensures Chained(steps)
    ensures forall i :: 0 <= i < |steps| - 1 ==> steps[i].remainder > 0
    ensures steps[|steps| - 1].remainder == 0 && g == steps[|steps| - 1].divisor
    ensures IsGcd(g, a, b)
    ensures forall i :: 0 <= i < |steps| ==> IsGcd(g, steps[i].dividend, steps[i].divisor)
  {
    var x, y := Max(a, b), Min(a, b);
    steps := [];
    while y != 0
      invariant x > 0
      invariant |steps| == 0 ==> x == Max(a, b) && y == Min(a, b)
      invariant |steps| > 0 ==> steps[0].dividend == Max(a, b) && steps[0].divisor == Min(a, b)
      invariant |steps| > 0 ==> steps[|steps| - 1].divisor == x && steps[|steps| - 1].remainder == y
      invariant forall i :: 0 <= i < |steps| ==> IsDivision(steps[i])
      invariant Chained(steps)
      invariant forall i :: 0 <= i < |steps| - 1 ==> steps[i].remainder > 0
      invariant SameCommonDivisors(x, y, a, b)
      invariant forall i :: 0 <= i < |steps| ==> SameCommonDivisors(steps[i].dividend, steps[i].divisor, a, b)
      decreases y
    {
      var quotient, remainder := x / y, x % y;
      steps := steps + [DivisionStep(x, y, quotient, remainder)];
      CommonDivisorsOfMod(x, y);
      x, y := y, remainder;
    }
    g := x;
    GcdFromDivisors(g, a, b);
    forall i | 0 <= i < |steps| ensures IsGcd(g, steps[i].dividend, steps[i].divisor) {
      GcdFromDivisors(g, steps[i].dividend, steps[i].divisor);
    }
  }

  // ---------------------------------------------------------------------
  // Agreement of the three computations
  // ---------------------------------------------------------------------

  /**
   * The result shown for a pair of inputs: Euclid's gcd, and the value the
   * chosen method's trace arrives at. All three agree.
   */
  method CompareMethods(a: nat, b: nat) returns (byEuclid: nat, byFactors: nat, byDivision: nat)
    requires a >= 1 && b >= 1
    ensures byEuclid == byFactors == byDivision
    ensures IsGcd(byEuclid, a, b) && byEuclid > 0
  {
    byEuclid := Gcd(a, b);
    var factors1, factors2, common;
    factors1, factors2, common, byFactors := FactorizationGcd(a, b);
    var steps;
    steps, byDivision := DivisionTrace(a, b);
    GcdUnique(byEuclid, byFactors, a, b);
    GcdUnique(byEuclid, byDivision, a, b);
  }
}
