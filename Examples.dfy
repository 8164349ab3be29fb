/**
 * Worked examples of the learning app, derived from the engine's contracts
 * alone: the contracts determine the results exactly.
 */
module Examples {
  import opened NumberTheory
  import opened FactorLists
  import opened GcdEngine

  lemma GcdOfTwelveAndEighteen()
    ensures IsGcd(6, 12, 18)
  {
    assert GcdOf(6, 0) == 6;
    assert GcdOf(12, 6) == GcdOf(6, 0);
    assert GcdOf(18, 12) == GcdOf(12, 6);
    assert GcdOf(12, 18) == GcdOf(18, 12);
  }

  /** gcd(12, 18) == 6 by Euclid's algorithm. */
  method EuclidExample() {
    var g := Gcd(12, 18);
    GcdOfTwelveAndEighteen();
    GcdUnique(g, 6, 12, 18);
    assert g == 6;
  }

  lemma FactorsOfTwelveAndEighteen()
    ensures AllPrime([2, 2, 3]) && Sorted([2, 2, 3]) && Product([2, 2, 3]) == 12
    ensures AllPrime([2, 3, 3]) && Sorted([2, 3, 3]) && Product([2, 3, 3]) == 18
  {
    assert IsPrime(2) && IsPrime(3);
  }

  lemma CommonPartOfTwelveAndEighteen(common: seq<nat>)
    requires forall p :: Count(common, p) == Min(Count([2, 2, 3], p), Count([2, 3, 3], p))
    ensures multiset(common) == multiset{2, 3}
  {
    forall p ensures multiset(common)[p] == multiset{2, 3}[p] {
      assert Count(common, p) == Min(Count([2, 2, 3], p), Count([2, 3, 3], p));
    }
  }

  /** 12 = 2 * 2 * 3 and 18 = 2 * 3 * 3; the common part is {2, 3}, whose product is 6. */
  method FactorizationExample() {
    var f1, f2, common, g := FactorizationGcd(12, 18);
    FactorsOfTwelveAndEighteen();
    FactorizationUnique(f1, [2, 2, 3]);
    FactorizationUnique(f2, [2, 3, 3]);
    CommonPartOfTwelveAndEighteen(common);
    GcdOfTwelveAndEighteen();
    GcdUnique(g, 6, 12, 18);
    assert g == 6;
  }

  /** gcd(17, 5) == 1: 17 = 5 * 3 + 2, 5 = 2 * 2 + 1, 2 = 1 * 2 + 0. */
  method DivisionExample() {
    var steps, g := DivisionTrace(17, 5);
    assert steps[0] == DivisionStep(17, 5, 3, 2);
    assert steps[1] == DivisionStep(5, 2, 2, 1);
    assert steps[2] == DivisionStep(2, 1, 2, 0);
    assert |steps| == 3;
    assert g == 1;
  }

  /** The factorisation of 1 is empty. */
  method UnitExample() {
    var factors := PrimeFactors(1);
    assert factors == [];
  }

  /** gcd(100, 75) == 25: 100 = 75 * 1 + 25, 75 = 25 * 3 + 0. */
  method HundredAndSeventyFiveExample() {
    var steps, g := DivisionTrace(100, 75);
    assert steps[0] == DivisionStep(100, 75, 1, 25);
    assert steps[1] == DivisionStep(75, 25, 3, 0);
    assert |steps| == 2;
    assert g == 25;
  }

  /** The factorisation of the prime 97 is [97]. */
  method PrimeExample() {
    assert IsPrime(97);
    var factors := PrimeFactors(97);
    assert factors == [97];
  }

  /** Euclid's algorithm does not depend on the order of its arguments. */
  method CommutativityExample(a: nat, b: nat) {
    var g1 := Gcd(a, b);
    var g2 := Gcd(b, a);
    GcdUnique(g1, g2, a, b);
    assert g1 == g2;
  }

  /** gcd(n, n) == n. */
  method SameOperandExample(n: nat) {
    var g := Gcd(n, n);
    assert Divides(n, n);
    GcdUnique(g, n, n, n);
    assert g == n;
  }

  /** gcd(n, 1) == 1. */
  method UnitOperandExample(n: nat) {
    var g := Gcd(n, 1);
    DivisorAtMost(g, 1);
    assert g == 1;
  }
}
