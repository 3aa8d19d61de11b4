/** The random generators of `arithgen/generator.py`. Every random draw is a
    nondeterministic choice (or, for `weighted_choice`, the drawn number is
    a parameter), so each contract holds for every outcome of the draws. */
module Generator {
  import opened Wrappers
  import opened Arith
  import opened NTheory
  import opened Rational
  import opened ExprTree

  // ---------------------------------------------------------------------
  // weighted_choice

  /** The sum of the first `k` weights. */
  function Prefix<T>(choices: seq<(T, real)>, k: nat): real
    requires k <= |choices|
  {
    if k == 0 then 0.0 else Prefix(choices, k - 1) + choices[k - 1].1
  }

  function Total<T>(choices: seq<(T, real)>): real
  {
    Prefix(choices, |choices|)
  }

  /** With the drawn number `r`, the scan stops at index `k`: the running
      sum first reaches `r` there. */
  predicate ChosenAt<T>(choices: seq<(T, real)>, r: real, k: int)
  {
    0 <= k < |choices| && r <= Prefix(choices, k + 1) &&
    forall j :: 1 <= j <= k ==> Prefix(choices, j) < r
  }

  /** `weighted_choice`: scan the choices, accumulating weights, and return
      the first element at which the running sum reaches `r`, a number drawn
      from `[0, total]`. */
  method WeightedChoice<T>(choices: seq<(T, real)>, r: real) returns (e: T)
    requires |choices| > 0
    requires forall i :: 0 <= i < |choices| ==> choices[i].1 >= 0.0
    requires 0.0 <= r <= Total(choices)
    ensures exists k :: ChosenAt(choices, r, k) && e == choices[k].0
  {
    e := choices[0].0;
    var upto := 0.0;
    var i := 0;
    while i < |choices|
      invariant 0 <= i <= |choices|
      invariant upto == Prefix(choices, i)
      invariant forall j :: 1 <= j <= i ==> Prefix(choices, j) < r
    {
      upto := upto + choices[i].1;
      if upto >= r {
        e := choices[i].0;
        assert ChosenAt(choices, r, i);
        return;
      }
      i := i + 1;
    }
    assert false;
  }

  lemma {:induction false} PrefixMonotone<T>(choices: seq<(T, real)>, i: nat, j: nat)
    requires i <= j <= |choices|
    requires forall k :: 0 <= k < |choices| ==> choices[k].1 >= 0.0
    ensures Prefix(choices, i) <= Prefix(choices, j)
  {
    if i < j {
      PrefixMonotone(choices, i, j - 1);
    }
  }

  /** Only an element of positive weight comes out, except that the first
      one does when `r` is zero; and every element of positive weight comes
      out for some `r`. */
  lemma ChoiceHasPositiveWeight<T>(choices: seq<(T, real)>, r: real, k: int)
    requires ChosenAt(choices, r, k) && (k > 0 || r > 0.0)
    ensures choices[k].1 > 0.0
  {
    assert Prefix(choices, k + 1) == Prefix(choices, k) + choices[k].1;
    if k > 0 {
      assert Prefix(choices, k) < r;
    }
  }

  lemma PositiveWeightIsChosen<T>(choices: seq<(T, real)>, k: int)
    requires 0 <= k < |choices| && choices[k].1 > 0.0
    requires forall i :: 0 <= i < |choices| ==> choices[i].1 >= 0.0
    ensures 0.0 <= Prefix(choices, k + 1) <= Total(choices)
    ensures ChosenAt(choices, Prefix(choices, k + 1), k)
  {
    PrefixMonotone(choices, 0, k + 1);
    PrefixMonotone(choices, k + 1, |choices|);
    forall j | 1 <= j <= k
      ensures Prefix(choices, j) < Prefix(choices, k + 1)
    {
      PrefixMonotone(choices, j, k);
    }
  }

  // ---------------------------------------------------------------------
  // NumPrimeGenerator

  /** `x` is positive and all its prime factors lie in `pool`. */
  ghost predicate Smooth(x: int, pool: set<int>)
  {
    x >= 1 && forall q :: IsPrime(q) && Divides(q, x) ==> q in pool
  }

  /** The unused room below each bound, summed: it shrinks whenever a value
      is multiplied up. */
  function Slack(vals: seq<int>, maxvals: seq<int>): nat
    requires |vals| == |maxvals|
  {
    if |vals| == 0 then 0
    else (if maxvals[0] > vals[0] then maxvals[0] - vals[0] else 0) + Slack(vals[1..], maxvals[1..])
  }

  lemma {:induction false} SlackShrinks(vals: seq<int>, maxvals: seq<int>, x: int, v: int)
    requires |vals| == |maxvals| && 0 <= x < |vals|
    requires vals[x] < v <= maxvals[x]
    ensures Slack(vals[x := v], maxvals) < Slack(vals, maxvals)
  {
    if x > 0 {
      assert vals[x := v][1..] == vals[1..][x - 1 := v];
      SlackShrinks(vals[1..], maxvals[1..], x - 1, v);
    } else {
      assert vals[x := v][1..] == vals[1..];
    }
  }

  /** Dividing a positive multiple of `i >= 2` by `i` leaves a smaller
      positive divisor. */
  lemma QuotientStep(t: int, i: int)
    requires t >= 1 && i >= 2 && t % i == 0
    ensures 1 <= t / i < t && t == i * (t / i) && Divides(t / i, t)
  {
    var u := t / i;
    DividesQuotient(i, t);
    DividesLe(i, t);
    DividesMul(u, i);
    assert u * i == t;
  }

  lemma HasElement(s: set<int>)
    requires s != {}
    ensures exists x :: x in s
  {
    if forall x :: x !in s {
      assert false;
    }
  }

  /** A generator of numbers whose prime factors all come from `primes`. */
  datatype NumPrimeGenerator = NumPrimeGenerator(primes: set<int>)
  {
    /** The pool holds primes, as every caller supplies. */
    ghost predicate Valid()
    {
      forall p :: p in primes ==> IsPrime(p)
    }

    /** What `is_valid(x, maxval)` decides. */
    ghost predicate Accepts(x: int, maxval: Option<int>)
    {
      x >= 1 && (maxval.None? || x <= maxval.value) && Smooth(x, primes)
    }

    /** `is_valid`: reject non-positive and too large `x`, then divide out
        every pool prime as often as it goes and compare what is left with
        1. */
    method IsValid(x: int, maxval: Option<int>) returns (b: bool)
      requires Valid()
      ensures b <==> Accepts(x, maxval)
    {
      if x <= 0 || (maxval.Some? && x > maxval.value) {
        return false;
      }
      var t := x;
      var rest := primes;
      ghost var done: set<int> := {};
      while rest != {}
        invariant rest + done == primes && rest !! done
        invariant t >= 1 && Divides(t, x)
        invariant forall p :: p in done ==> !Divides(p, t)
        invariant forall q :: IsPrime(q) && Divides(q, x) && q !in done ==> Divides(q, t)
        decreases |rest|
      {
        HasElement(rest);
        var i :| i in rest;
        while t % i == 0
          invariant t >= 1 && Divides(t, x)
          invariant forall p :: p in done ==> !Divides(p, t)
          invariant forall q :: IsPrime(q) && Divides(q, x) && q !in done && q != i ==> Divides(q, t)
          decreases t
        {
          DivideOut(x, t, i, done);
          t := t / i;
        }
        rest := rest - {i};
        done := done + {i};
      }
      AllDividedOut(x, t);
      b := t == 1;
    }

    /** Once every pool prime is divided out, what is left is 1 exactly when
        `x` has no prime factor outside the pool. */
    lemma AllDividedOut(x: int, t: int)
      requires x >= 1 && t >= 1 && Divides(t, x)
      requires forall p :: p in primes ==> !Divides(p, t)
      requires forall q :: IsPrime(q) && Divides(q, x) && q !in primes ==> Divides(q, t)
      ensures t == 1 <==> Smooth(x, primes)
    {
      if t != 1 {
        var q := PrimeFactor(t);
        DividesTrans(q, t, x);
      } else {
        forall q | IsPrime(q) && Divides(q, x)
          ensures q in primes
        {
          if q !in primes {
            DividesLe(q, t);
          }
        }
      }
    }

    /** One division of `t` by the pool prime `i` keeps the loop's facts. */
    lemma DivideOut(x: int, t: int, i: int, done: set<int>)
      requires Valid() && i in primes
      requires t >= 1 && Divides(t, x) && t % i == 0
      requires forall p :: p in done ==> !Divides(p, t)
      requires forall q :: IsPrime(q) && Divides(q, x) && q !in done && q != i ==> Divides(q, t)
      ensures 1 <= t / i < t && Divides(t / i, x)
      ensures forall p :: p in done ==> !Divides(p, t / i)
      ensures forall q :: IsPrime(q) && Divides(q, x) && q !in done && q != i ==> Divides(q, t / i)
    {
      var u := t / i;
      QuotientStep(t, i);
      DividesTrans(u, t, x);
      forall p | p in done
        ensures !Divides(p, u)
      {
        if Divides(p, u) {
          DividesTrans(p, u, t);
        }
      }
      forall q | IsPrime(q) && Divides(q, x) && q !in done && q != i
        ensures Divides(q, u)
      {
        PrimeFactorOfQuotient(q, t, i);
      }
    }

    lemma PrimeFactorOfQuotient(q: int, t: int, i: int)
      requires Valid() && i in primes && IsPrime(q) && q != i
      requires t >= 1 && t % i == 0 && Divides(q, t)
      ensures Divides(q, t / i)
    {
      QuotientStep(t, i);
      EuclidPrime(q, i, t / i);
      if Divides(q, i) {
        PrimeDividesPrime(q, i);
      }
    }

    /** `gen_pairwise_coprime_numbers`: one value per bound, built by drawing
        pool primes until none is left; each prime is tied to one slot on
        its first draw and multiplies only that slot, and is retired when
        the slot has no room left for it. */
    method GenPairwiseCoprimeNumbers(maxvals: seq<int>) returns (vals: seq<int>)
      requires Valid()
      requires |maxvals| > 0 || primes == {}
      ensures |vals| == |maxvals|
      ensures forall i :: 0 <= i < |vals| ==>
        Smooth(vals[i], primes) && (vals[i] <= maxvals[i] || vals[i] == 1)
      ensures forall i, j :: 0 <= i < j < |vals| ==> vals[i] >= 1 && vals[j] >= 1 && Gcd(vals[i], vals[j]) == 1
    {
      var prChoices := primes;
      var prUsed: map<int, Option<int>> := map p | p in primes :: None;
      vals := seq(|maxvals|, _ => 1);
      assert SlotsTied(vals, prUsed) by {
        forall i, q | 0 <= i < |vals| && IsPrime(q) && Divides(q, vals[i])
          ensures false
        {
          DividesLe(q, vals[i]);
        }
      }
      while prChoices != {}
        invariant prChoices <= primes && prUsed.Keys == primes
        invariant |vals| == |maxvals|
        invariant forall p :: p in prUsed && prUsed[p].Some? ==> 0 <= prUsed[p].value < |vals|
        invariant Bounded(vals, maxvals)
        invariant SlotsTied(vals, prUsed)
        decreases |prChoices|, Slack(vals, maxvals)
      {
        HasElement(prChoices);
        var now :| now in prChoices;
        if prUsed[now].None? {
          var x := 0;
          if exists k :: 0 <= k < |vals| && vals[k] * now <= maxvals[k] {
            x :| 0 <= x < |vals| && vals[x] * now <= maxvals[x];
          }
          TieSlot(vals, prUsed, now, x);
          prUsed := prUsed[now := Some(x)];
        }
        var x := prUsed[now].value;
        if vals[x] * now > maxvals[x] {
          prChoices := prChoices - {now};
        } else {
          ProductAboveFactor(vals[x], now);
          SlackShrinks(vals, maxvals, x, vals[x] * now);
          MultiplySlot(vals, x, now, prUsed);
          vals := vals[x := vals[x] * now];
        }
      }
      TiedSlotsCoprime(vals, prUsed);
    }

    /** Every slot is at least 1 and within its bound, or still 1. */
    predicate Bounded(vals: seq<int>, maxvals: seq<int>)
      requires |vals| == |maxvals|
    {
      forall i :: 0 <= i < |vals| ==> vals[i] >= 1 && (vals[i] <= maxvals[i] || vals[i] == 1)
    }

    /** Every prime factor of a slot is a pool prime tied to that slot. */
    ghost predicate SlotsTied(vals: seq<int>, prUsed: map<int, Option<int>>)
    {
      forall i, q :: 0 <= i < |vals| && IsPrime(q) && Divides(q, vals[i]) ==>
        q in primes && q in prUsed && prUsed[q] == Some(i)
    }

    /** Tying a prime that no slot uses yet keeps the slots tied. */
    lemma TieSlot(vals: seq<int>, prUsed: map<int, Option<int>>, now: int, x: int)
      requires SlotsTied(vals, prUsed) && now in prUsed && prUsed[now].None?
      ensures SlotsTied(vals, prUsed[now := Some(x)])
    {
    }

    /** Multiplying slot `x` by the prime tied to it keeps the slots tied. */
    lemma MultiplySlot(vals: seq<int>, x: int, now: int, prUsed: map<int, Option<int>>)
      requires Valid() && now in primes && now in prUsed
      requires 0 <= x < |vals| && prUsed[now] == Some(x) && vals[x] >= 1
      requires SlotsTied(vals, prUsed)
      ensures SlotsTied(vals[x := vals[x] * now], prUsed)
    {
      forall q | IsPrime(q) && Divides(q, vals[x] * now)
        ensures q in primes && q in prUsed && prUsed[q] == Some(x)
      {
        EuclidPrime(q, vals[x], now);
        if Divides(q, now) {
          PrimeDividesPrime(q, now);
        }
      }
    }

    /** Slots whose primes are tied to them are smooth and share no prime,
        so they are pairwise coprime. */
    lemma TiedSlotsCoprime(vals: seq<int>, prUsed: map<int, Option<int>>)
      requires SlotsTied(vals, prUsed)
      requires forall i :: 0 <= i < |vals| ==> vals[i] >= 1
      ensures forall i :: 0 <= i < |vals| ==> Smooth(vals[i], primes)
      ensures forall i, j :: 0 <= i < j < |vals| ==> Gcd(vals[i], vals[j]) == 1
    {
      forall i, j | 0 <= i < j < |vals|
        ensures Gcd(vals[i], vals[j]) == 1
      {
        CoprimeIfNoCommonPrime(vals[i], vals[j]);
      }
    }

    /** `gen_number`. */
    method GenNumber(maxval: int) returns (n: int)
      requires Valid()
      ensures Smooth(n, primes) && (n <= maxval || n == 1)
    {
      var vals := GenPairwiseCoprimeNumbers([maxval]);
      n := vals[0];
    }

    /** `gen_coprime_numbers`. */
    method GenCoprimeNumbers(maxval1: int, maxval2: int) returns (a: int, b: int)
      requires Valid()
      ensures Smooth(a, primes) && (a <= maxval1 || a == 1)
      ensures Smooth(b, primes) && (b <= maxval2 || b == 1)
      ensures Gcd(a, b) == 1
    {
      var vals := GenPairwiseCoprimeNumbers([maxval1, maxval2]);
      a, b := vals[0], vals[1];
    }

    /** `gen_numbers_with_sum`: up to `trials` draws of `x`, keeping the
        first for which `result - x` is also acceptable. */
    method GenNumbersWithSum(maxval: int, result: int, trials: int) returns (pair: Option<(int, int)>)
      requires Valid()
      ensures pair.Some? ==> pair.value.0 + pair.value.1 == result
      ensures pair.Some? ==> Accepts(pair.value.0, Some(maxval)) && Accepts(pair.value.1, Some(maxval))
      ensures trials <= 0 ==> pair.None?
    {
      var k := 0;
      while k < trials
      {
        var x := GenNumber(if maxval <= result then maxval else result);
        var ok := IsValid(result - x, Some(maxval));
        if ok {
          var swap: bool :| true;
          return if swap then Some((x, result - x)) else Some((result - x, x));
        }
        k := k + 1;
      }
      return None;
    }

    /** `gen_numbers_with_difference`: up to `trials` draws of `x`, trying
        `(x, x - result)` and then `(x + result, x)`. */
    method GenNumbersWithDifference(maxval: int, result: int, trials: int) returns (pair: Option<(int, int)>)
      requires Valid()
      ensures pair.Some? ==> pair.value.0 - pair.value.1 == result
      ensures pair.Some? ==> Accepts(pair.value.0, Some(maxval)) && Accepts(pair.value.1, Some(maxval))
      ensures trials <= 0 ==> pair.None?
    {
      var k := 0;
      while k < trials
      {
        var x := GenNumber(maxval);
        var ok := IsValid(x - result, Some(maxval));
        if ok {
          return Some((x, x - result));
        }
        ok := IsValid(x + result, Some(maxval));
        if ok {
          return Some((x + result, x));
        }
        k := k + 1;
      }
      return None;
    }
  }
  // ---------------------------------------------------------------------
  // The cases of test_is_valid

  lemma SmoothOne(pool: set<int>)
    ensures Smooth(1, pool)
  {
    forall q | IsPrime(q) && Divides(q, 1)
      ensures false
    {
      DividesLe(q, 1);
    }
  }

  lemma SmoothPrime(p: int, pool: set<int>)
    requires IsPrime(p) && p in pool
    ensures Smooth(p, pool)
  {
    forall q | IsPrime(q) && Divides(q, p)
      ensures q in pool
    {
      PrimeDividesPrime(q, p);
    }
  }

  lemma SmoothProduct(a: int, b: int, pool: set<int>)
    requires Smooth(a, pool) && Smooth(b, pool)
    ensures Smooth(a * b, pool)
  {
    MulAtLeast(a, b);
    forall q | IsPrime(q) && Divides(q, a * b)
      ensures q in pool
    {
      EuclidPrime(q, a, b);
    }
  }

  /** For the pool {2, 5, 7, 13}: 1, 7, 52 = 2 * 2 * 13 and
      384475 = 5 * 5 * 7 * 13 * 13 * 13 are accepted; -1, 0, 30 (a multiple
      of 3) and 176 (a multiple of 11) are not; 70 is accepted below 100 but
      not below 50. With `IsValid`'s contract these are the answers it gives. */
  lemma IsValidExamples()
    ensures NumPrimeGenerator({2, 5, 7, 13}).Valid()
    ensures var g := NumPrimeGenerator({2, 5, 7, 13});
      g.Accepts(1, None) && g.Accepts(7, None) && g.Accepts(52, None) && g.Accepts(384475, None)
    ensures var g := NumPrimeGenerator({2, 5, 7, 13});
      !g.Accepts(-1, None) && !g.Accepts(0, None) && !g.Accepts(30, None) && !g.Accepts(176, None)
    ensures var g := NumPrimeGenerator({2, 5, 7, 13});
      g.Accepts(70, Some(100)) && !g.Accepts(70, Some(50))
  {
    var pool := {2, 5, 7, 13};
    assert IsPrimeTrial(2) && IsPrimeTrial(5) && IsPrimeTrial(7) && IsPrimeTrial(13);
    SmoothOne(pool);
    SmoothPrime(2, pool);
    SmoothPrime(5, pool);
    SmoothPrime(7, pool);
    SmoothPrime(13, pool);
    SmoothProduct(2, 2, pool);
    SmoothProduct(4, 13, pool);
    SmoothProduct(5, 5, pool);
    SmoothProduct(25, 7, pool);
    SmoothProduct(13, 13, pool);
    SmoothProduct(169, 13, pool);
    SmoothProduct(175, 2197, pool);
    SmoothProduct(2, 5, pool);
    SmoothProduct(10, 7, pool);
    assert IsPrimeTrial(3) && Divides(3, 30);
    assert IsPrimeTrial(11) && Divides(11, 176);
  }

  // ---------------------------------------------------------------------
  // ExprGenerator

  function Pow2(n: nat): (p: nat)
    ensures p >= 1
  {
    if n == 0 then 1 else 2 * Pow2(n - 1)
  }

  predicate Distinct(s: seq<int>)
  {
    forall i, j :: 0 <= i < j < |s| ==> s[i] != s[j]
  }

  /** Putting 1 in front of distinct indices from `[2, bound)` keeps them
      distinct. */
  lemma PoolIndices(sample: seq<int>, bound: int)
    requires bound >= 2 && Distinct(sample)
    requires forall i :: 0 <= i < |sample| ==> 2 <= sample[i] < bound
    ensures Distinct([1] + sample)
    ensures forall i :: 0 <= i < |[1] + sample| ==> 1 <= ([1] + sample)[i] < bound
  {
    var s := [1] + sample;
    assert forall i :: 1 <= i < |s| ==> s[i] == sample[i - 1];
    forall i, j | 0 <= i < j < |s|
      ensures s[i] != s[j]
    {
      if i > 0 {
        assert sample[i - 1] != sample[j - 1];
      }
    }
  }

  /** The prime at a new distinct index is not among those before it. */
  lemma FreshPoolPrime(inds: seq<int>, i: int)
    requires Distinct(inds) && 0 <= i < |inds| && forall j :: 0 <= j < |inds| ==> inds[j] >= 1
    ensures NthPrime(inds[i]) !in set j | 0 <= j < i :: NthPrime(inds[j])
  {
    forall j | 0 <= j < i
      ensures NthPrime(inds[j]) != NthPrime(inds[i])
    {
      NthPrimeInjective(inds[j], inds[i]);
    }
  }

  /** The primes `prime(i)` for distinct indices `i` from `[1, bound)`, one
      per index, collected into a set. */
  method PrimesAt(inds: seq<int>, bound: int) returns (pool: set<int>)
    requires Distinct(inds) && forall j :: 0 <= j < |inds| ==> 1 <= inds[j] < bound
    ensures pool == set j | 0 <= j < |inds| :: NthPrime(inds[j])
    ensures |pool| == |inds|
    ensures forall p :: p in pool ==> IsPrime(p) && exists k :: 1 <= k < bound && p == NthPrime(k)
  {
    pool := {};
    for i := 0 to |inds|
      invariant pool == set j | 0 <= j < i :: NthPrime(inds[j])
      invariant |pool| == i
      invariant forall p :: p in pool ==> IsPrime(p)
    {
      var r := Prime(inds[i]);
      FreshPoolPrime(inds, i);
      pool := pool + {r.value};
    }
  }

  lemma NthPrimeInjective(j: int, k: int)
    requires j >= 1 && k >= 1 && j != k
    ensures NthPrime(j) != NthPrime(k)
  {
    if j < k {
      NthPrimeStrictlyIncreasing(j, k);
    } else {
      NthPrimeStrictlyIncreasing(k, j);
    }
  }

  /** `_ending_prob(depth)`: the chance of ending the expression at `depth`
      with a leaf. None below `difficulty / 3 + 1`, a third of the way
      through a cycle of 0.8, 0.5, 0.2 exactly there, and 0.9 deeper down. */
  function EndingProb(difficulty: nat, depth: int): (p: real)
    ensures 0.0 <= p <= 0.9
    ensures p == 0.0 <==> depth <= difficulty / 3
  {
    var minDepth := difficulty / 3 + 1;
    if depth < minDepth then 0.0
    else if depth == minDepth then [0.8, 0.5, 0.2][difficulty % 3]
    else 0.9
  }

  /** Going deeper never makes ending less likely. */
  lemma EndingProbMonotone(difficulty: nat, d1: int, d2: int)
    requires d1 <= d2
    ensures EndingProb(difficulty, d1) <= EndingProb(difficulty, d2)
  {
  }

  /** The table in the comment of `_ending_prob`, difficulties 1 to 5 and
      depths 0 to 4. */
  lemma EndingProbTable()
    ensures [EndingProb(1, 0), EndingProb(1, 1), EndingProb(1, 2), EndingProb(1, 3), EndingProb(1, 4)]
      == [0.0, 0.5, 0.9, 0.9, 0.9]
    ensures [EndingProb(2, 0), EndingProb(2, 1), EndingProb(2, 2), EndingProb(2, 3), EndingProb(2, 4)]
      == [0.0, 0.2, 0.9, 0.9, 0.9]
    ensures [EndingProb(3, 0), EndingProb(3, 1), EndingProb(3, 2), EndingProb(3, 3), EndingProb(3, 4)]
      == [0.0, 0.0, 0.8, 0.9, 0.9]
    ensures [EndingProb(4, 0), EndingProb(4, 1), EndingProb(4, 2), EndingProb(4, 3), EndingProb(4, 4)]
      == [0.0, 0.0, 0.5, 0.9, 0.9]
    ensures [EndingProb(5, 0), EndingProb(5, 1), EndingProb(5, 2), EndingProb(5, 3), EndingProb(5, 4)]
      == [0.0, 0.0, 0.2, 0.9, 0.9]
  {
  }

  /** Every leaf is an integer in `[1, hi]`. */
  predicate LeavesWithin(e: Expr, hi: int)
  {
    match e
    case Integer(n, _) => 1 <= n <= hi
    case Binary(_, l, r, _) => LeavesWithin(l, hi) && LeavesWithin(r, hi)
  }

  /** The tree that ends the recursion: `Integer(num)` for a whole number,
      otherwise `Division(Integer(num), Integer(den))`. */
  function Terminal(result: Fraction): (e: Expr)
    requires result.den >= 1
    ensures Evaluate(e) == Some(result.Value()) && Unnamed(e)
    ensures e.Integer? <==> result.den == 1
    ensures forall hi :: 1 <= result.num <= hi && result.den <= hi ==> LeavesWithin(e, hi)
  {
    if result.den == 1 then Leaf(result.num)
    else Division(Leaf(result.num), Leaf(result.den))
  }

  lemma SameDenominatorSum(a: int, b: int, d: int)
    requires d != 0
    ensures a as real / d as real + b as real / d as real == (a + b) as real / d as real
  {
  }

  lemma SameDenominatorDifference(a: int, b: int, d: int)
    requires d != 0
    ensures a as real / d as real - b as real / d as real == (a - b) as real / d as real
  {
  }

  /** `l * (n / d) == (l * n) / d`. */
  lemma ScaledValue(l: int, n: int, d: int)
    requires d != 0
    ensures Times(l as real, n as real / d as real) == (l * n) as real / d as real
  {
    RealProduct(l, 1, n, d);
  }

  /** `x * Fraction(n, d)` has the value `(x * n) / d`. */
  lemma ScaledFraction(x: int, n: int, d: int)
    requires n >= 1 && d >= 1
    ensures Make(n, d).Value() != 0.0
    ensures Rational.Mul(FromInt(x), Make(n, d)).Value() == Times(x as real, Make(n, d).Value())
    ensures Rational.Mul(FromInt(x), Make(n, d)).Value() == (x * n) as real / d as real
  {
    var mult := Make(n, d);
    assert mult.Value() == n as real / d as real;
    assert n as real / d as real > 0.0;
    ScaledValue(x, n, d);
  }

  lemma CancelCommonFactor(x: real, y: real, m: real)
    requires y != 0.0 && m != 0.0
    ensures Times(y, m) != 0.0 && Quot(Times(x, m), Times(y, m)) == Quot(x, y)
  {
    assert Times(y, m) != 0.0;
    var q := Quot(x, y);
    assert x == Times(q, y);
    TimesAssociative(q, y, m);
  }

  lemma TimesReciprocal(x: real, y: real)
    requires y != 0.0
    ensures Times(x, 1.0 / y) == Quot(x, y)
  {
  }

  /** The synthesiser of expressions for one difficulty level. */
  class ExprGenerator {
    const difficulty: nat
    /** The bound on every numerator and denominator, `10 * 2 ** difficulty`. */
    const maxval: int := 10 * Pow2(difficulty)
    var numgen: Option<NumPrimeGenerator>

    /** `ExprGenerator(difficulty)`: no number generator yet. */
    constructor (difficulty: nat)
      ensures this.difficulty == difficulty && numgen.None?
    {
      this.difficulty := difficulty;
      numgen := None;
    }

    /** The number generator is set and its pool holds primes. */
    ghost predicate Ready()
      reads this
    {
      numgen.Some? && numgen.value.Valid()
    }

    /** A target of the synthesiser: a positive fraction in lowest terms
        whose numerator and denominator are at most `maxval`. */
    predicate InRange(f: Fraction)
    {
      f.Valid() && 1 <= f.num <= maxval && 1 <= f.den <= maxval
    }

    /** `e` is a tree built for `result`: it evaluates to exactly that
        value, carries no names, and its leaves lie in `[1, maxval]`. */
    predicate Produces(e: Expr, result: Fraction)
      requires result.den != 0
    {
      Evaluate(e) == Some(result.Value()) && Unnamed(e) && LeavesWithin(e, maxval)
    }

    /** The size of the pool, `2 + int(1.5 * difficulty)`. */
    function PrimeCount(): int
    {
      2 + 3 * difficulty / 2
    }

    /** `_gen_primes`: the pool holds the first prime and the primes at
        `PrimeCount() - 1` distinct indices drawn from
        `[2, int(1.5 * PrimeCount()))`. */
    method GenPrimes()
      modifies this
      ensures Ready()
      ensures 2 in numgen.value.primes && |numgen.value.primes| == PrimeCount()
      ensures forall p :: p in numgen.value.primes ==>
        exists k :: 1 <= k < 3 * PrimeCount() / 2 && p == NthPrime(k)
    {
      var primecnt := 2 + 3 * difficulty / 2;
      var bound := 3 * primecnt / 2;
      ghost var indices := seq(primecnt - 1, i => i + 2);
      assert Distinct(indices) && forall i :: 0 <= i < |indices| ==> 2 <= indices[i] < bound;
      var sample: seq<int> :| |sample| == primecnt - 1 && Distinct(sample) &&
        forall i :: 0 <= i < |sample| ==> 2 <= sample[i] < bound;
      var primeInd := [1] + sample;
      PoolIndices(sample, bound);
      var pool := PrimesAt(primeInd, bound);
      NthPrimeFirst();
      assert NthPrime(primeInd[0]) in pool;
      numgen := Some(NumPrimeGenerator(pool));
    }

    /** `_gen_division_operand`: scale the numerator and denominator of
        `result` by one drawn fraction, so that their quotient is still
        `result`; the scale keeps both within `maxval`. */
    method GenDivisionOperand(result: Fraction) returns (left: Fraction, right: Fraction)
      requires Ready() && InRange(result)
      ensures InRange(left) && InRange(right)
      ensures Quot(left.Value(), right.Value()) == result.Value()
    {
      var l, r := result.num, result.den;
      var m := if l >= r then l else r;
      DivisionBound(m);
      var n, d := numgen.value.GenCoprimeNumbers(maxval / m, maxval);
      var mult := Make(n, d);
      left := Rational.Mul(FromInt(l), mult);
      right := Rational.Mul(FromInt(r), mult);
      ScaledOperand(l, n, d, m);
      ScaledOperand(r, n, d, m);
      CancelCommonFactor(l as real, r as real, mult.Value());
    }

    lemma DivisionBound(m: int)
      requires 1 <= m <= maxval
      ensures 1 <= maxval / m && m * (maxval / m) <= maxval
    {
    }

    /** `x * Fraction(n, d)` for `x <= m` and `n <= maxval // m` is in range. */
    lemma ScaledOperand(x: int, n: int, d: int, m: int)
      requires 1 <= x <= m <= maxval && 1 <= n <= maxval / m && 1 <= d <= maxval
      ensures Make(n, d).Value() != 0.0
      ensures InRange(Rational.Mul(FromInt(x), Make(n, d)))
      ensures Rational.Mul(FromInt(x), Make(n, d)).Value() == Times(x as real, Make(n, d).Value())
    {
      var f := Rational.Mul(FromInt(x), Make(n, d));
      ScaledFraction(x, n, d);
      ProductWithin(x, n, m);
      ReducedBounds(f, x * n, d);
    }

    lemma ProductWithin(x: int, n: int, m: int)
      requires 1 <= x <= m <= maxval && 1 <= n <= maxval / m
      ensures 1 <= x * n <= maxval
    {
      DivisionBound(m);
      ScaleBound(x, n, m);
      MulAtLeast(x, n);
    }

    lemma ScaleBound(l: int, n: int, m: int)
      requires 1 <= l <= m && 1 <= n && m * (maxval / m) <= maxval
      requires n <= maxval / m
      ensures l * n <= maxval
    {
      MulMonotone(l, n, maxval / m);
      MulMonotone(maxval / m, l, m);
    }

    /** `gen_fraction`: a fraction of two drawn coprime numbers. */
    method GenFraction() returns (f: Fraction)
      requires Ready()
      ensures InRange(f)
    {
      var n, d := numgen.value.GenCoprimeNumbers(maxval, maxval);
      f := Make(n, d);
      ReducedBounds(f, n, d);
    }

    /** `gen_addition_with_result`: split the numerator into a sum of two
        acceptable numbers and build both halves over the same
        denominator. */
    method GenAdditionWithResult(result: Fraction, depth: int, fuel: nat) returns (e: Option<Expr>)
      requires Ready() && InRange(result)
      ensures e.Some? ==> e.value.Binary? && e.value.op == Add && Produces(e.value, result)
      decreases fuel, 2
    {
      var pair := numgen.value.GenNumbersWithSum(maxval, result.num, 100);
      if pair.None? {
        return None;
      }
      var a, b := pair.value.0, pair.value.1;
      var left, right := Make(a, result.den), Make(b, result.den);
      SplitTarget(a, result.den);
      SplitTarget(b, result.den);
      var l := GenExprWithResult(left, depth + 1, [1.0, 1.0, 2.0, 2.0], fuel);
      var r := GenExprWithResult(right, depth + 1, [1.0, 1.0, 2.0, 2.0], fuel);
      if l.None? || r.None? {
        return None;
      }
      AdditionProduces(result, a, b, l.value, r.value);
      return Some(Addition(l.value, r.value));
    }

    /** `gen_subtraction_with_result`: the same with a difference. */
    method GenSubtractionWithResult(result: Fraction, depth: int, fuel: nat) returns (e: Option<Expr>)
      requires Ready() && InRange(result)
      ensures e.Some? ==> e.value.Binary? && e.value.op == Sub && Produces(e.value, result)
      decreases fuel, 2
    {
      var pair := numgen.value.GenNumbersWithDifference(maxval, result.num, 100);
      if pair.None? {
        return None;
      }
      var a, b := pair.value.0, pair.value.1;
      var left, right := Make(a, result.den), Make(b, result.den);
      SplitTarget(a, result.den);
      SplitTarget(b, result.den);
      var l := GenExprWithResult(left, depth + 1, [1.0, 1.0, 2.0, 2.0], fuel);
      var r := GenExprWithResult(right, depth + 1, [1.0, 1.0, 2.0, 2.0], fuel);
      if l.None? || r.None? {
        return None;
      }
      SubtractionProduces(result, a, b, l.value, r.value);
      return Some(Subtraction(l.value, r.value));
    }

    /** Over the denominator of a target, a numerator in `[1, maxval]`
        makes a target. */
    lemma SplitTarget(a: int, den: int)
      requires 1 <= a <= maxval && 1 <= den <= maxval
      ensures InRange(Make(a, den))
    {
      ReducedBounds(Make(a, den), a, den);
    }

    /** Trees for `a / den` and `b / den` with `a + b == num` add up to a
        tree for `num / den`. */
    lemma AdditionProduces(result: Fraction, a: int, b: int, l: Expr, r: Expr)
      requires InRange(result) && a + b == result.num
      requires Produces(l, Make(a, result.den)) && Produces(r, Make(b, result.den))
      ensures Produces(Addition(l, r), result)
    {
      SameDenominatorSum(a, b, result.den);
    }

    lemma SubtractionProduces(result: Fraction, a: int, b: int, l: Expr, r: Expr)
      requires InRange(result) && a - b == result.num
      requires Produces(l, Make(a, result.den)) && Produces(r, Make(b, result.den))
      ensures Produces(Subtraction(l, r), result)
    {
      SameDenominatorDifference(a, b, result.den);
    }

    /** `gen_multiplication_with_result`: operands whose quotient is
        `result`, the second one inverted. */
    method GenMultiplicationWithResult(result: Fraction, depth: int, fuel: nat) returns (e: Option<Expr>)
      requires Ready() && InRange(result)
      ensures e.Some? ==> e.value.Binary? && e.value.op == Mul && Produces(e.value, result)
      decreases fuel, 2
    {
      var left, right := GenDivisionOperand(result);
      var inverse := Reciprocal(right);
      RealReciprocal(right.num, right.den);
      ReducedBounds(inverse, right.den, right.num);
      var l := GenExprWithResult(left, depth + 1, [2.0, 2.0, 1.0, 1.0], fuel);
      var r := GenExprWithResult(inverse, depth + 1, [2.0, 2.0, 1.0, 1.0], fuel);
      if l.None? || r.None? {
        return None;
      }
      PositiveValue(right);
      TimesReciprocal(left.Value(), right.Value());
      return Some(Multiplication(l.value, r.value));
    }

    /** `gen_division_with_result`: operands whose quotient is `result`. */
    method GenDivisionWithResult(result: Fraction, depth: int, fuel: nat) returns (e: Option<Expr>)
      requires Ready() && InRange(result)
      ensures e.Some? ==> e.value.Binary? && e.value.op == Div && Produces(e.value, result)
      decreases fuel, 2
    {
      var left, right := GenDivisionOperand(result);
      var l := GenExprWithResult(left, depth + 1, [2.0, 2.0, 1.0, 1.0], fuel);
      var r := GenExprWithResult(right, depth + 1, [2.0, 2.0, 1.0, 1.0], fuel);
      if l.None? || r.None? {
        return None;
      }
      PositiveValue(right);
      return Some(Division(l.value, r.value));
    }

    /** `gen_expr_with_result`: end with a leaf when the draw falls below
        the ending probability, otherwise pick a builder by weight and
        retry until one succeeds. `fuel` bounds both the retries and the
        depth of the recursion. */
    method GenExprWithResult(result: Fraction, depth: int, weights: seq<real>, fuel: nat)
      returns (e: Option<Expr>)
      requires Ready() && InRange(result)
      requires |weights| == 4 && forall i :: 0 <= i < 4 ==> weights[i] >= 0.0
      ensures e.Some? ==> Produces(e.value, result)
      decreases fuel, 1
    {
      var u: real :| 0.0 <= u < 1.0;
      if u < EndingProb(difficulty, depth) {
        return Some(Terminal(result));
      }
      if fuel == 0 {
        return None;
      }
      var choices := [(Add, weights[0]), (Sub, weights[1]), (Mul, weights[2]), (Div, weights[3])];
      PrefixMonotone(choices, 0, 4);
      e := None;
      var tries := fuel;
      while e.None? && tries > 0
        invariant e.Some? ==> Produces(e.value, result)
        decreases tries
      {
        var r :| 0.0 <= r <= Total(choices);
        var op := WeightedChoice(choices, r);
        match op {
          case Add => e := GenAdditionWithResult(result, depth, fuel - 1);
          case Sub => e := GenSubtractionWithResult(result, depth, fuel - 1);
          case Mul => e := GenMultiplicationWithResult(result, depth, fuel - 1);
          case Div => e := GenDivisionWithResult(result, depth, fuel - 1);
        }
        tries := tries - 1;
      }
    }

    /** `gen_expr`: draw the pool and a target fraction, then a tree for
        it with equal weights. */
    method GenExpr(fuel: nat) returns (e: Option<Expr>, result: Fraction)
      modifies this
      ensures Ready() && InRange(result)
      ensures e.Some? ==> Produces(e.value, result)
    {
      GenPrimes();
      result := GenFraction();
      e := GenExprWithResult(result, 0, [1.0, 1.0, 1.0, 1.0], fuel);
    }
  }

  /** `generate(difficulty=...)`: a tree together with its exact value. */
  method Generate(difficulty: nat, fuel: nat) returns (e: Option<Expr>, result: Fraction)
    ensures result.Valid() && 1 <= result.num <= 10 * Pow2(difficulty) && 1 <= result.den <= 10 * Pow2(difficulty)
    ensures e.Some? ==> Evaluate(e.value) == Some(result.Value()) && Defined(e.value)
    ensures e.Some? ==> Unnamed(e.value) && LeavesWithin(e.value, 10 * Pow2(difficulty))
  {
    var gen := new ExprGenerator(difficulty);
    e, result := gen.GenExpr(fuel);
    if e.Some? {
      EvaluatesIffDefined(e.value);
    }
  }
}
