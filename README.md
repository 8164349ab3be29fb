# GCD learning app: a verified model of its arithmetic engine

The GCD learning app teaches two ways to find the greatest common divisor of
two positive integers, then quizzes the learner. This project models the
app's engine, which has four parts:

- Euclid's algorithm (`gcd`).
- Trial-division factorisation (`get_prime_factors`).
- The factorisation method (`visualize_prime_factorization`). It factors
  both numbers, keeps each shared prime with the smaller of its two
  multiplicities, and multiplies these common factors together.
- The division method (`visualize_division`). It records each division with
  remainder as a structured step (dividend, divisor, quotient, remainder),
  not as rendered text.

It also models the quiz corner's session state. The model is written in
Dafny and proved with Dafny's verifier.

Files:

- `NumberTheory.dfy` defines `Divides` and `IsPrime`, and `IsGcd`: a common
  divisor that every common divisor divides. It also holds the lemmas the
  engine uses: one Euclid step keeps the common divisors, the gcd is unique,
  `gcd(k*a, k*b) == k*gcd(a, b)`, Euclid's lemma on primes, and the
  trial-division facts.
- `FactorLists.dfy` defines `Product` and `Count` (the model of Python's
  `Counter`). It proves that a sorted prime factorisation is unique. It also
  proves that, for prime lists, keeping each prime with the smaller of its
  two counts gives the gcd of the two products.
- `GcdEngine.dfy` holds the four engine operations. Each is a method with
  the same loops as app.py's `gcd`, `get_prime_factors`,
  `visualize_prime_factorization` and `visualize_division`. A last method
  shows that the three gcd computations agree on every pair of positive
  inputs.
- `Quiz.dfy` holds the quiz state as a class whose methods update its
  fields.
- `Examples.dfy` works, from the contracts alone, the app's default inputs
  12 and 18, the traces for 17 and 5 and for 100 and 75, the factorisation
  of the prime 97, and the identities gcd(a, b) == gcd(b, a),
  gcd(n, n) == n and gcd(n, 1) == 1.

Each method's `ensures` states the property directly (for example
`IsGcd(g, a, b)`, or "product is n, every element prime, non-decreasing"). It
is not an equality with a function that repeats the loop. `GcdUnique` then
ties all the results together.

## Model

| member | source | states |
|---|---|---|
| `GcdEngine.Gcd` | app.py:11-14 | for all naturals a, b the loop returns g with IsGcd(g, a, b): g divides both, and every common divisor divides g; g > 0 unless a = b = 0 |
| `NumberTheory.CommonDivisorsOfMod` | app.py:12-13 | one step (a, b) to (b, a % b) with b > 0 keeps exactly the same common divisors, which is the loop invariant of Euclid's algorithm |
| `NumberTheory.GcdOf` | app.py:11-14 | Euclid's recursion yields a greatest common divisor of every pair, so one always exists |
| `NumberTheory.GcdUnique` | app.py:11-14 | two greatest common divisors of the same pair are equal, so all three methods must return the same value |
| `NumberTheory.GcdIsGreatest` | app.py:11-14 | when a or b is positive, every common divisor d satisfies 0 < d <= gcd, so the result is the largest common divisor |
| `GcdEngine.PrimeFactors` | app.py:17-28 | for n >= 1 the trial-division loop returns a non-decreasing list of primes whose product is n; [] for n = 1; [n] for a prime n |
| `GcdEngine.DivideOut` | app.py:22-24 | dividing d out of the cofactor keeps the invariant: product(factors) * cofactor == n, factors prime and sorted, no divisor below d; the cofactor strictly decreases |
| `NumberTheory.LeastDivisorIsPrime` | app.py:22-23 | a divisor d of the cofactor with no divisor of the cofactor in [2, d) is prime, so every appended d is prime |
| `NumberTheory.NoDivisorBelowQuotient` | app.py:24 | after temp_n //= d, still no number below d divides the cofactor |
| `GcdEngine.AppendLeftover` | app.py:26-27 | a leftover cofactor above 1 with d*d above it and no divisor below d is prime and at least every factor found, so appending it keeps the list sorted, prime and with product n |
| `NumberTheory.NoDivisorUpToRootIsPrime` | app.py:21 | a number from 2 on that has no divisor in [2, d), where d*d exceeds it, is prime (why the loop may stop at d*d > temp_n) |
| `FactorLists.FactorizationUnique` | app.py:17-28 | two non-decreasing prime lists with the same product are equal, so the list is the factorisation of n |
| `FactorLists.Count` | app.py:49 | the count of x in a list equals the multiplicity of x in the list's multiset (the Counter value) |
| `GcdEngine.CommonFactors` | app.py:49-57 | over the shared primes in any order, each prime p occurs in common_factors exactly min(count1(p), count2(p)) times; gcd_result == product(common_factors); with no shared prime, common_factors is [] and gcd_result is 1 |
| `GcdEngine.CountAfterExtend` | app.py:56 | extending by [p] * m adds m to the count of p and leaves every other count unchanged |
| `FactorLists.ProductOfRepeat` | app.py:56-57 | the product of [p] * m is p ** m, so the two updates of one iteration agree |
| `FactorLists.ProductPermutation` | app.py:54 | the product does not depend on factor order, so the unspecified set iteration order cannot change gcd_result |
| `FactorLists.CommonProductIsGcd` | app.py:49-57 | for prime lists f1, f2, a list holding each prime min(count1, count2) times has a product that is the gcd of product(f1) and product(f2) |
| `GcdEngine.FactorizationGcd` | app.py:31-67 | for num1, num2 >= 1 it returns both sorted prime factorisations, the min-count common factors and their product, which is gcd(num1, num2) |
| `GcdEngine.DivisionTrace` | app.py:70-93 | for a, b >= 1 the trace is non-empty and starts at (max, min); each step has dividend == divisor*quotient + remainder with 0 <= remainder < divisor > 0; steps chain; only the last remainder is 0; the returned last divisor is gcd(a, b) and the gcd of every step's pair |
| `GcdEngine.CompareMethods` | app.py:121-129 | for a, b >= 1, Euclid's gcd, the factorisation result and the division result are equal and positive, and equal gcd(a, b) |
| `Quiz.QuizState.Initialize` | app.py:141-146 | stores the drawn operands, quiz_gcd is their gcd, and both flags are false |
| `Quiz.QuizState.constructor` | app.py:151-152 | the first page load of a session creates an initialised, unanswered quiz |
| `Quiz.QuizState.SubmitAnswer` | app.py:163-171 | on an unanswered quiz: quiz_answered becomes true; show_quiz_solution becomes true exactly when the answer differs from quiz_gcd, that is exactly when the answer is not the gcd; operands and quiz_gcd are unchanged |
| `Quiz.QuizState.NextQuestion` | app.py:174-176 | replaces the quiz with a fresh one: new operands, their gcd, both flags false |
| `Examples.GcdOfTwelveAndEighteen` | app.py:106-107 | the default inputs 12 and 18 have gcd 6 |
| `Examples.FactorsOfTwelveAndEighteen` | app.py:106-107 | [2, 2, 3] and [2, 3, 3] are the sorted prime factorisations of the default inputs 12 and 18 |
| `Examples.CommonPartOfTwelveAndEighteen` | app.py:106-107 | for the default inputs, the common factors are the multiset {2, 3} |

## Left out

- The Streamlit page is not modelled: titles, columns, number inputs, the
  radio button, buttons, the checkbox, balloons and `experimental_rerun`.
  Neither is the Markdown and LaTeX text the traces build (app.py:38-46,
  59-62, 81-89). The traces are returned as data instead: the two factor
  lists and the common list, or the sequence of `DivisionStep`s.
- `random.randint(10, 50)` (app.py:142-143) is not modelled. The drawn
  operands are parameters, and the range 10..50 is a precondition.
- The iteration order of `set(c1.keys()) & set(c2.keys())` (app.py:54) is
  unspecified in Python. It is modelled by an arbitrary choice
  (`var p :| p in remaining`). The properties of the common factors are
  stated as counts, never as an order.
- `collections.Counter` is replaced by the `Count` function over a list.
- The input check at app.py:118-119 is not modelled as behaviour. It becomes
  the precondition `>= 1` of `PrimeFactors`, `FactorizationGcd`,
  `DivisionTrace` and `CompareMethods`. Python's `get_prime_factors` returns
  [] for 0 or a negative n, and `gcd` on negative numbers uses Python's
  floored `%`. Neither case is modelled, because the app's inputs are always
  at least 1. `Gcd` is modelled on all naturals, zero included.
- Python's integers are unbounded, so the model uses `nat`, and there is no
  overflow to model.
- The page-load rule at app.py:151-152 is modelled only for the first load
  (`QuizState.constructor`). The re-initialisation on every later re-run
  after an answer depends on the framework's re-run model, which is not
  modelled.
- The assignment `quiz_answered = False` at app.py:175 is not modelled. It
  is overwritten at once by `initialize_quiz_state()` on the next line.
- Showing the worked solution for a quiz (app.py:180-184) is a call of the
  division trace. It is covered by `DivisionTrace`.
- `visualize_prime_factorization` returns only `gcd_result` (app.py:67).
  `FactorizationGcd` also returns the two factor lists and the common list
  that the page displays (app.py:38-62).
