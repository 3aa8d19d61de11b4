/** The naive number-theory helpers of `arithgen/ntheory.py`: a trial-division
    primality test, the next and previous prime, and the n-th prime. The
    mathematical notion of a prime is `Arith.IsPrime`; the functions here are
    proved to agree with it. */
module NTheory {
  import opened Arith
  import opened Wrappers

  /** The trial divisions `n % i` for odd `i = start, start + 2, ...` while
      `i * i <= n` all leave a remainder. */
  function OddTrialsPass(n: int, i: int): bool
    requires i >= 3
    decreases n - i
  {
    if i * i > n then true
    else n % i != 0 && OddTrialsPass(n, i + 2)
  }

  lemma SquareMono(a: int, b: int)
    requires 0 <= a <= b
    ensures a * a <= b * b
  {
    assert a * a <= a * b;
  }

  /** The trials from odd `i` on are exactly the odd candidates `d >= i`
      with `d * d <= n`. */
  lemma {:induction false} OddTrialsPassMeaning(n: int, i: int)
    requires i >= 3 && i % 2 == 1
    ensures OddTrialsPass(n, i) <==>
            forall d :: i <= d && d % 2 == 1 && d * d <= n ==> n % d != 0
    decreases n - i
  {
    if i * i > n {
      forall d | i <= d && d % 2 == 1
        ensures d * d > n
      {
        SquareMono(i, d);
      }
    } else {
      OddTrialsPassMeaning(n, i + 2);
    }
  }

  /** `isprime(n)`: 2 is prime; numbers below 2 and other even numbers are
      not; an odd number is prime when no odd `i` with `3 <= i <= sqrt(n)`
      divides it. */
  function IsPrimeTrial(n: int): (b: bool)
    ensures b <==> IsPrime(n)
  {
    if n == 2 then
      true
    else if n < 2 || n % 2 == 0 then
      false
    else
      IsPrimeTrialOdd(n);
      OddTrialsPass(n, 3)
  }

  /** The least divisor of a composite number is at most its square root. */
  lemma MinDivisorOfComposite(n: int)
    requires n >= 2 && !IsPrime(n)
    ensures MinDivisor(n, 2) < n
    ensures MinDivisor(n, 2) * MinDivisor(n, 2) <= n
  {
    var r := MinDivisor(n, 2);
    DividesQuotient(r, n);
    var s := n / r;
    assert n == r * s;
    if s <= 1 {
      if s <= 0 { MulAtMost(r, s - 1); }
    }
    assert s >= 2;
    assert r < n by { MulAtLeast(r, s - 1); }
    assert n % s == 0 by { DividesMul(s, r); assert s * r == n; }
    assert r <= s;
    assert r * r <= r * s;
  }

  /** For odd `n >= 3` the odd trials decide primality. */
  lemma IsPrimeTrialOdd(n: int)
    requires n >= 3 && n % 2 == 1
    ensures OddTrialsPass(n, 3) <==> IsPrime(n)
  {
    OddTrialsPassMeaning(n, 3);
    if OddTrialsPass(n, 3) {
      if !IsPrime(n) {
        var r := MinDivisor(n, 2);
        MinDivisorIsPrime(n);
        MinDivisorOfComposite(n);
      }
    } else {
      var d :| 3 <= d && d % 2 == 1 && d * d <= n && n % d == 0;
      assert d < n by {
        MulAtLeast(d, d - 1);
      }
    }
  }

  // ---------------------------------------------------------------------
  // The next prime above a number: existence and the specification.

  ghost function Factorial(n: nat): (f: nat)
    ensures f >= 1
  {
    if n == 0 then 1 else n * Factorial(n - 1)
  }

  lemma {:induction false} FactorialDivisible(n: nat, k: int)
    requires 1 <= k <= n
    ensures Divides(k, Factorial(n))
  {
    if k == n {
      DividesMul(n, Factorial(n - 1));
      assert Factorial(n) == n * Factorial(n - 1);
    } else {
      FactorialDivisible(n - 1, k);
      DividesLinear(k, Factorial(n - 1), 0, n, 0);
      assert Factorial(n) == Factorial(n - 1) * n + 0 * 0;
    }
  }

  /** Euclid: there is a prime above every number. */
  lemma PrimeAbove(n: int) returns (p: int)
    ensures IsPrime(p) && p > n
  {
    var m: nat := if n < 1 then 1 else n;
    var f := Factorial(m);
    p := PrimeFactor(f + 1);
    if p <= m {
      FactorialDivisible(m, p);
      DividesLinear(p, f + 1, f, 1, -1);
      DividesLe(p, 1);
    }
  }

  /** `p` is the least prime strictly greater than `n`. */
  ghost predicate IsNextPrime(n: int, p: int)
  {
    p > n && IsPrime(p) && forall q :: n < q < p ==> !IsPrime(q)
  }

  lemma {:induction false} LeastPrimeBelow(n: int, q: int) returns (p: int)
    requires IsPrime(q) && q > n
    ensures IsNextPrime(n, p)
    decreases q
  {
    if forall r :: n < r < q ==> !IsPrime(r) {
      p := q;
    } else {
      var r :| n < r < q && IsPrime(r);
      p := LeastPrimeBelow(n, r);
    }
  }

  lemma NextPrimeUnique(n: int, p: int, p': int)
    requires IsNextPrime(n, p) && IsNextPrime(n, p')
    ensures p == p'
  {
  }

  lemma NextPrimeExists(n: int)
    ensures exists p :: IsNextPrime(n, p)
  {
    var q := PrimeAbove(n);
    var p := LeastPrimeBelow(n, q);
  }

  /** The least prime above `n`. */
  ghost function NextPrimeOf(n: int): (p: int)
    ensures IsNextPrime(n, p)
  {
    NextPrimeExists(n);
    var p :| IsNextPrime(n, p);
    p
  }

  /** The `ith` prime above `n`: the next prime, taken `ith` times. */
  ghost function IthPrimeAbove(n: int, ith: int): int
    decreases ith
  {
    if ith <= 1 then NextPrimeOf(n) else NextPrimeOf(IthPrimeAbove(n, ith - 1))
  }

  /** The `k`th prime, counting from `NthPrime(1) == 2`. */
  ghost function NthPrime(k: int): int
    requires k >= 1
  {
    IthPrimeAbove(1, k)
  }

  // ---------------------------------------------------------------------
  // The operations of ntheory.py.

  /** `nextprime(n, ith)`: for `ith > 1`, `nextprime` applied `ith` times;
      otherwise the first prime found counting up from `n + 1`. */
  method NextPrime(n: int, ith: int) returns (pr: int)
    ensures pr == IthPrimeAbove(n, ith)
    ensures IsPrime(pr) && pr > n
    decreases if ith > 1 then 1 else 0
  {
    if ith > 1 {
      pr := n;
      for i := 0 to ith
        invariant if i == 0 then pr == n else pr == IthPrimeAbove(n, i)
      {
        pr := NextPrime(pr, 1);
      }
      IthPrimeAboveIncreasing(n, ith);
      return;
    }
    pr := n + 1;
    while !IsPrimeTrial(pr)
      invariant n < pr <= NextPrimeOf(n)
      decreases NextPrimeOf(n) - pr
    {
      pr := pr + 1;
    }
  }

  lemma {:induction false} IthPrimeAboveIncreasing(n: int, ith: int)
    ensures IsPrime(IthPrimeAbove(n, ith)) && IthPrimeAbove(n, ith) > n
    decreases ith
  {
    if ith > 1 {
      IthPrimeAboveIncreasing(n, ith - 1);
    }
  }

  /** `prevprime(n)`: the largest prime below `n`, or an error when `n < 3`. */
  method PrevPrime(n: int) returns (r: Result<int>)
    ensures r.Err? <==> n < 3
    ensures r.Ok? ==> IsPrime(r.value) && r.value < n
    ensures r.Ok? ==> forall q :: r.value < q < n ==> !IsPrime(q)
  {
    if n < 3 {
      return Err("No primes smaller than n");
    }
    var pr := n - 1;
    while !IsPrimeTrial(pr)
      invariant 2 <= pr < n
      invariant forall q :: pr < q < n ==> !IsPrime(q)
      decreases pr
    {
      pr := pr - 1;
    }
    return Ok(pr);
  }

  /** `prime(nth)`: the `nth` prime, or an error when `nth < 1`. */
  method Prime(nth: int) returns (r: Result<int>)
    ensures r.Err? <==> nth < 1
    ensures r.Ok? ==> r.value == NthPrime(nth) && IsPrime(r.value)
  {
    if nth < 1 {
      return Err("nth must be a positive integer");
    }
    var p := NextPrime(1, nth);
    return Ok(p);
  }

  // ---------------------------------------------------------------------
  // NthPrime lists the primes in increasing order, each exactly once.

  lemma NthPrimeFirst()
    ensures NthPrime(1) == 2
  {
    assert IsPrime(2);
    NextPrimeUnique(1, 2, NextPrimeOf(1));
  }

  lemma NthPrimeSuccessor(k: int)
    requires k >= 1
    ensures IsNextPrime(NthPrime(k), NthPrime(k + 1))
  {
  }

  lemma {:induction false} NthPrimeStrictlyIncreasing(j: int, k: int)
    requires 1 <= j < k
    ensures NthPrime(j) < NthPrime(k)
    decreases k - j
  {
    NthPrimeSuccessor(k - 1);
    if j < k - 1 {
      NthPrimeStrictlyIncreasing(j, k - 1);
    }
  }

  lemma {:induction false} LargestPrimeAtMost(m: int) returns (q: int)
    requires m >= 2
    ensures IsPrime(q) && q <= m
    ensures forall r :: q < r <= m ==> !IsPrime(r)
    decreases m
  {
    if IsPrimeTrial(m) {
      q := m;
    } else {
      assert m != 2;
      q := LargestPrimeAtMost(m - 1);
    }
  }

  /** Every prime is the `k`th prime for some `k`. */
  lemma {:induction false} EveryPrimeIsNth(p: int) returns (k: int)
    requires IsPrime(p)
    ensures k >= 1 && NthPrime(k) == p
    decreases p
  {
    if p == 2 {
      NthPrimeFirst();
      k := 1;
    } else {
      var q := LargestPrimeAtMost(p - 1);
      var j := EveryPrimeIsNth(q);
      NthPrimeSuccessor(j);
      assert IsNextPrime(q, p);
      NextPrimeUnique(q, p, NthPrime(j + 1));
      k := j + 1;
    }
  }

  // ---------------------------------------------------------------------
  // Concrete values.

  /** No number in `[lo, hi)` passes the trial-division test. */
  function NoPrimeTrialIn(lo: int, hi: int): bool
    decreases hi - lo
  {
    lo >= hi || (!IsPrimeTrial(lo) && NoPrimeTrialIn(lo + 1, hi))
  }

  lemma {:induction false} NextPrimeOfIs(n: int, p: int)
    requires p > n && IsPrimeTrial(p) && NoPrimeTrialIn(n + 1, p)
    ensures NextPrimeOf(n) == p
  {
    NoPrimeTrialInMeaning(n + 1, p);
    NextPrimeUnique(n, p, NextPrimeOf(n));
  }

  lemma {:induction false} NoPrimeTrialInMeaning(lo: int, hi: int)
    requires NoPrimeTrialIn(lo, hi)
    ensures forall q :: lo <= q < hi ==> !IsPrime(q)
    decreases hi - lo
  {
    if lo < hi {
      NoPrimeTrialInMeaning(lo + 1, hi);
    }
  }

  /** `nextprime(10) == 11`, `nextprime(123) == 127`, `nextprime(89) == 97`
      and `nextprime(1) == 2`. */
  lemma NextPrimeExamples()
    ensures IthPrimeAbove(10, 1) == 11 && IthPrimeAbove(123, 1) == 127
    ensures IthPrimeAbove(89, 1) == 97 && IthPrimeAbove(1, 1) == 2
  {
    NextPrimeOfIs(10, 11);
    assert !IsPrimeTrial(125);
    NextPrimeOfIs(123, 127);
    assert !IsPrimeTrial(91) && !IsPrimeTrial(93) && !IsPrimeTrial(95);
    NextPrimeOfIs(89, 97);
    NextPrimeOfIs(1, 2);
  }

  /** `nextprime(50, 4) == 67`. */
  lemma IthPrimeExample()
    ensures IthPrimeAbove(50, 4) == 67
  {
    NextPrimeOfIs(50, 53);
    assert !IsPrimeTrial(55) && !IsPrimeTrial(57);
    NextPrimeOfIs(53, 59);
    assert IthPrimeAbove(50, 2) == 59;
    NextPrimeOfIs(59, 61);
    assert IthPrimeAbove(50, 3) == 61;
    assert !IsPrimeTrial(63) && !IsPrimeTrial(65);
    NextPrimeOfIs(61, 67);
  }

  /** `nextprime(41, 2) == 47`. */
  lemma SecondPrimeExample()
    ensures IthPrimeAbove(41, 2) == 47
  {
    NextPrimeOfIs(41, 43);
    assert !IsPrimeTrial(45);
    NextPrimeOfIs(43, 47);
  }

  /** One step of the enumeration of primes. */
  lemma NthPrimeStep(k: int, p: int, q: int)
    requires k >= 1 && NthPrime(k) == p
    requires q > p && IsPrimeTrial(q) && NoPrimeTrialIn(p + 1, q)
    ensures NthPrime(k + 1) == q
  {
    NextPrimeOfIs(p, q);
  }

  /** The first 27 primes. */
  const SmallPrimes: seq<int> := [2, 3, 5, 7, 11, 13, 17, 19, 23, 29, 31, 37, 41, 43, 47, 53, 59, 61, 67, 71, 73, 79, 83, 89, 97, 101, 103]

  /** Consecutive entries of `SmallPrimes` are consecutive primes. */
  lemma SmallPrimesGapLow(i: int)
    requires 1 <= i < 10
    ensures SmallPrimes[i - 1] < SmallPrimes[i] && IsPrimeTrial(SmallPrimes[i])
    ensures NoPrimeTrialIn(SmallPrimes[i - 1] + 1, SmallPrimes[i])
  {
    if i == 1 {
    } else if i == 2 {
    } else if i == 3 {
    } else if i == 4 {
      assert !IsPrimeTrial(9);
    } else if i == 5 {
    } else if i == 6 {
      assert !IsPrimeTrial(15);
    } else if i == 7 {
    } else if i == 8 {
      assert !IsPrimeTrial(21);
    } else if i == 9 {
      assert !IsPrimeTrial(25) && !IsPrimeTrial(27);
    }
  }

  /** Consecutive entries of `SmallPrimes` are consecutive primes. */
  lemma SmallPrimesGapMid(i: int)
    requires 10 <= i < 19
    ensures SmallPrimes[i - 1] < SmallPrimes[i] && IsPrimeTrial(SmallPrimes[i])
    ensures NoPrimeTrialIn(SmallPrimes[i - 1] + 1, SmallPrimes[i])
  {
    if i == 10 {
    } else if i == 11 {
      assert !IsPrimeTrial(33) && !IsPrimeTrial(35);
    } else if i == 12 {
      assert !IsPrimeTrial(39);
    } else if i == 13 {
    } else if i == 14 {
      assert !IsPrimeTrial(45);
    } else if i == 15 {
      assert !IsPrimeTrial(49) && !IsPrimeTrial(51);
    } else if i == 16 {
      assert !IsPrimeTrial(55) && !IsPrimeTrial(57);
    } else if i == 17 {
    } else if i == 18 {
      assert !IsPrimeTrial(63) && !IsPrimeTrial(65);
    }
  }

  /** Consecutive entries of `SmallPrimes` are consecutive primes. */
  lemma SmallPrimesGapHigh(i: int)
    requires 19 <= i < 27
    ensures SmallPrimes[i - 1] < SmallPrimes[i] && IsPrimeTrial(SmallPrimes[i])
    ensures NoPrimeTrialIn(SmallPrimes[i - 1] + 1, SmallPrimes[i])
  {
    if i == 19 {
      assert !IsPrimeTrial(69);
    } else if i == 20 {
    } else if i == 21 {
      assert !IsPrimeTrial(75) && !IsPrimeTrial(77);
    } else if i == 22 {
      assert !IsPrimeTrial(81);
    } else if i == 23 {
      assert !IsPrimeTrial(85) && !IsPrimeTrial(87);
    } else if i == 24 {
      assert !IsPrimeTrial(91) && !IsPrimeTrial(93) && !IsPrimeTrial(95);
    } else if i == 25 {
      assert !IsPrimeTrial(99);
    } else if i == 26 {
    }
  }

  lemma SmallPrimesGap(i: int)
    requires 1 <= i < |SmallPrimes|
    ensures SmallPrimes[i - 1] < SmallPrimes[i] && IsPrimeTrial(SmallPrimes[i])
    ensures NoPrimeTrialIn(SmallPrimes[i - 1] + 1, SmallPrimes[i])
  {
    if i < 10 {
      SmallPrimesGapLow(i);
    } else if i < 19 {
      SmallPrimesGapMid(i);
    } else {
      SmallPrimesGapHigh(i);
    }
  }

  lemma {:induction false} NthPrimeTable(k: int)
    requires 1 <= k <= |SmallPrimes|
    ensures NthPrime(k) == SmallPrimes[k - 1]
  {
    if k == 1 {
      NthPrimeFirst();
    } else {
      NthPrimeTable(k - 1);
      SmallPrimesGap(k - 1);
      NthPrimeStep(k - 1, SmallPrimes[k - 2], SmallPrimes[k - 1]);
    }
  }

  /** `prime(1) == 2` and `prime(27) == 103`. */
  lemma NthPrimeExamples()
    ensures NthPrime(1) == 2 && NthPrime(27) == 103
  {
    NthPrimeTable(1);
    NthPrimeTable(27);
  }
  /** The cases of `test_isprime`: -5, 0, 1 and 561 = 3 * 11 * 17 are not
      prime; 2, 3, 67 and 191 are. */
  lemma IsPrimeExamples()
    ensures !IsPrime(-5) && !IsPrime(0) && !IsPrime(1) && !IsPrime(561)
    ensures IsPrime(2) && IsPrime(3) && IsPrime(67) && IsPrime(191)
  {
    assert IsPrimeTrial(2) && IsPrimeTrial(3) && IsPrimeTrial(67) && IsPrimeTrial(191);
    assert !IsPrimeTrial(561);
  }

  /** `p` is the largest prime strictly below `n`. */
  ghost predicate IsPrevPrime(n: int, p: int)
  {
    p < n && IsPrime(p) && forall q :: p < q < n ==> !IsPrime(q)
  }

  /** There is at most one largest prime below `n`; with `PrevPrime`'s
      contract this pins down its result. */
  lemma PrevPrimeUnique(n: int, p: int, p': int)
    requires IsPrevPrime(n, p) && IsPrevPrime(n, p')
    ensures p == p'
  {
  }

  /** The cases of `test_prevprime`: below 15 it is 13, below 83 it is 79,
      below 3 it is 2. */
  lemma PrevPrimeExamples()
    ensures IsPrevPrime(15, 13) && IsPrevPrime(83, 79) && IsPrevPrime(3, 2)
  {
    assert IsPrimeTrial(13) && IsPrimeTrial(79) && IsPrimeTrial(2);
    forall q | 13 < q < 15
      ensures !IsPrime(q)
    {
      assert !IsPrimeTrial(q);
    }
    forall q | 79 < q < 83
      ensures !IsPrime(q)
    {
      assert !IsPrimeTrial(q);
    }
  }
}
