/**
 * Lists of prime factors: their product, how often a value occurs in them,
 * and the facts about factorisations that the engine relies on — that a
 * sorted prime factorisation is unique, and that the product of the common
 * part of two factorisations is the gcd of the two products.
 */
module FactorLists {
  import opened NumberTheory

  /** The product of the elements of s; 1 for the empty list. */
  function Product(s: seq<nat>): nat {
    if s == [] then 1 else s[0] * Product(s[1..])
  }

  /** How many times x occurs in s: the count a Counter built from s holds for x. */
  function Count(s: seq<nat>, x: nat): (n: nat)
    ensures n == multiset(s)[x]
  {
    if s == [] then
      0
    else
      assert s == [s[0]] + s[1..];
      (if s[0] == x then 1 else 0) + Count(s[1..], x)
  }

  /** b raised to the e-th power, as Python's b ** e on naturals. */
  function Power(b: nat, e: nat): nat {
    if e == 0 then 1 else b * Power(b, e - 1)
  }

  /** n copies of x, as Python's [x] * n. */
  function Repeat(x: nat, n: nat): seq<nat> {
    seq(n, _ => x)
  }

  function Min(a: nat, b: nat): nat {
    if a <= b then a else b
  }

  function Max(a: nat, b: nat): nat {
    if a <= b then b else a
  }

  predicate AllPrime(s: seq<nat>) {
    forall x :: x in s ==> IsPrime(x)
  }

  /** Non-decreasing. */
  predicate Sorted(s: seq<nat>) {
    forall i, j :: 0 <= i < j < |s| ==> s[i] <= s[j]
  }

  // ---------------------------------------------------------------------
  // Products
  // ---------------------------------------------------------------------

  lemma {:induction false} ProductAppend(s: seq<nat>, t: seq<nat>)
    ensures Product(s + t) == Product(s) * Product(t)
  {
    if s == [] {
      assert s + t == t;
    } else {
      assert (s + t)[1..] == s[1..] + t;
      ProductAppend(s[1..], t);
      assert s[0] * (Product(s[1..]) * Product(t)) == (s[0] * Product(s[1..])) * Product(t);
    }
  }

  lemma {:induction false} ProductOfRepeat(x: nat, n: nat)
    ensures Product(Repeat(x, n)) == Power(x, n)
  {
    if n > 0 {
      assert Repeat(x, n)[1..] == Repeat(x, n - 1);
      ProductOfRepeat(x, n - 1);
    }
  }

  /** Taking the element at index i out of t divides the product by t[i]. */
  lemma {:induction false} ProductRemoveAt(t: seq<nat>, i: nat)
    requires i < |t|
    ensures Product(t) == t[i] * Product(t[..i] + t[i + 1..])
    ensures multiset(t[..i] + t[i + 1..]) == multiset(t) - multiset{t[i]}
  {
    var x, front, back := t[i], t[..i], t[i + 1..];
    assert t == (front + [x]) + back;
    ProductAppend(front + [x], back);
    ProductAppend(front, [x]);
    ProductAppend(front, back);
    var pf, pb := Product(front), Product(back);
    assert Product([x]) == x;
    assert Product(t) == (pf * x) * pb;
    assert (pf * x) * pb == x * (pf * pb);
    assert multiset(t) == multiset(front) + multiset{x} + multiset(back);
  }

  /** The product does not depend on the order of the factors. */
  lemma {:induction false} ProductPermutation(s: seq<nat>, t: seq<nat>)
    requires multiset(s) == multiset(t)
    ensures Product(s) == Product(t)
    decreases |s|
  {
    if s == [] {
      assert |t| == |multiset(t)| == 0;
    } else {
      var x := s[0];
      assert x in multiset(t);
      var i :| 0 <= i < |t| && t[i] == x;
      ProductRemoveAt(t, i);
      assert s == [x] + s[1..];
      assert multiset(s[1..]) == multiset(s) - multiset{x};
      ProductPermutation(s[1..], t[..i] + t[i + 1..]);
    }
  }

  lemma {:induction false} ProductPositive(s: seq<nat>)
    requires AllPrime(s)
    ensures Product(s) >= 1
  {
    if s != [] {
      assert s[0] in s;
      ProductPositive(s[1..]);
      MultipleAtLeast(Product(s[1..]), s[0]);
    }
  }

  /** A non-empty list of primes has a product of at least 2. */
  lemma ProductOfPrimesAtLeastTwo(s: seq<nat>)
    requires AllPrime(s) && s != []
    ensures Product(s) >= 2
  {
    assert s[0] in s;
    ProductPositive(s[1..]);
    MultipleAtLeast(Product(s[1..]), s[0]);
  }

  /** A prime that divides a product of primes is one of them. */
  lemma {:induction false} PrimeInProduct(p: nat, s: seq<nat>)
    requires IsPrime(p) && AllPrime(s) && Divides(p, Product(s))
    ensures p in s
  {
    if s == [] {
      DivisorAtMost(p, 1);
    } else {
      assert s[0] in s;
      EuclidLemma(p, s[0], Product(s[1..]));
      if Divides(p, s[0]) {
        PrimeDivisorsAreTrivial(s[0], p);
      } else {
        PrimeInProduct(p, s[1..]);
      }
    }
  }

  // ---------------------------------------------------------------------
  // Sorted factorisations
  // ---------------------------------------------------------------------

  lemma SortedHeadIsLeast(s: seq<nat>, x: nat)
    requires Sorted(s) && x in s
    ensures s[0] <= x
  {
    var i :| 0 <= i < |s| && s[i] == x;
    if i > 0 {
      assert s[0] <= s[i];
    }
  }

  /** Fundamental theorem of arithmetic, uniqueness half: two sorted lists of primes with the same product are equal. */
  lemma {:induction false} FactorizationUnique(s: seq<nat>, t: seq<nat>)
    requires AllPrime(s) && Sorted(s) && AllPrime(t) && Sorted(t)
    requires Product(s) == Product(t)
    ensures s == t
    decreases |s|
  {
    if s == [] {
      if t != [] {
        ProductOfPrimesAtLeastTwo(t);
      }
    } else if t == [] {
      ProductOfPrimesAtLeastTwo(s);
    } else {
      assert s[0] in s && t[0] in t;
      DividesProductLeft(s[0], Product(s[1..]));
      PrimeInProduct(s[0], t);
      SortedHeadIsLeast(t, s[0]);
      DividesProductLeft(t[0], Product(t[1..]));
      PrimeInProduct(t[0], s);
      SortedHeadIsLeast(s, t[0]);
      MulCancel(s[0], Product(s[1..]), Product(t[1..]));
      FactorizationUnique(s[1..], t[1..]);
      assert s == [s[0]] + s[1..] && t == [t[0]] + t[1..];
    }
  }

  // ---------------------------------------------------------------------
  // The common part of two factorisations
  // ---------------------------------------------------------------------

  /** Some list whose elements, with multiplicity, are those of m. */
  ghost function SeqOf(m: multiset<nat>): (s: seq<nat>)
    ensures multiset(s) == m
    decreases |m|
  {
    if |m| == 0 then
      []
    else
      var x :| x in m;
      [x] + SeqOf(m - multiset{x})
  }

  /** Two lists of primes with no prime in common have coprime products. */
  lemma CoprimeProducts(r1: seq<nat>, r2: seq<nat>)
    requires AllPrime(r1) && AllPrime(r2)
    requires forall x :: x in r1 ==> x !in r2
    ensures GcdOf(Product(r1), Product(r2)) == 1
  {
    var g := GcdOf(Product(r1), Product(r2));
    ProductPositive(r1);
    DivisorAtMost(g, Product(r1));
    if g >= 2 {
      var p := PrimeDivisor(g);
      DividesTransitive(p, g, Product(r1));
      DividesTransitive(p, g, Product(r2));
      PrimeInProduct(p, r1);
      PrimeInProduct(p, r2);
      assert false;
    }
  }

  /** What is left of a list of primes once a sub-multiset is taken out of it. */
  lemma Remainder(f: seq<nat>, common: seq<nat>) returns (r: seq<nat>)
    requires AllPrime(f) && multiset(common) <= multiset(f)
    ensures multiset(r) == multiset(f) - multiset(common)
    ensures AllPrime(r) && AllPrime(common)
    ensures Product(f) == Product(common) * Product(r)
  {
    r := SeqOf(multiset(f) - multiset(common));
    assert multiset(common + r) == multiset(f);
    forall x | x in r ensures IsPrime(x) {
      assert multiset(r)[x] > 0;
      assert x in multiset(f);
    }
    forall x | x in common ensures IsPrime(x) {
      assert x in multiset(common);
      assert x in multiset(f);
    }
    ProductPermutation(f, common + r);
    ProductAppend(common, r);
  }

  /** Counts that are the smaller of two multiplicities describe a sub-multiset of both lists. */
  lemma MinCountsAreCommon(f1: seq<nat>, f2: seq<nat>, common: seq<nat>)
    requires forall p :: Count(common, p) == Min(Count(f1, p), Count(f2, p))
    ensures multiset(common) <= multiset(f1) && multiset(common) <= multiset(f2)
    ensures forall x :: !(multiset(f1)[x] > multiset(common)[x] && multiset(f2)[x] > multiset(common)[x])
  {
    forall p ensures multiset(common)[p] == Min(multiset(f1)[p], multiset(f2)[p]) {
      assert Count(common, p) == Min(Count(f1, p), Count(f2, p));
    }
  }

  /**
   * Taking, for every prime, the smaller of its two multiplicities gives a
   * list whose product is the gcd of the two products.
   */
  lemma CommonProductIsGcd(f1: seq<nat>, f2: seq<nat>, common: seq<nat>)
    requires AllPrime(f1) && AllPrime(f2)
    requires forall p :: Count(common, p) == Min(Count(f1, p), Count(f2, p))
    ensures IsGcd(Product(common), Product(f1), Product(f2))
  {
    MinCountsAreCommon(f1, f2, common);
    var r1 := Remainder(f1, common);
    var r2 := Remainder(f2, common);
    forall x | x in r1 ensures x !in r2 {
      assert multiset(r1)[x] > 0;
    }
    var c, a1, a2 := Product(common), Product(r1), Product(r2);
    ProductPositive(common);
    CoprimeProducts(r1, r2);
    GcdScaled(c, a1, a2);
    assert GcdOf(c * a1, c * a2) == c;
    assert Product(f1) == c * a1 && Product(f2) == c * a2;
  }
}
