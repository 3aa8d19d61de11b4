/** Divisibility, greatest common divisors and primes: the integer facts the
    number-theory helpers, the exact fractions and the smooth-number
    generator rest on. `Gcd` models Python's `math.gcd` / `fractions.gcd` on
    non-negative arguments. */
module Arith {

  /** `d` is a positive divisor of `n`. */
  predicate Divides(d: int, n: int)
  {
    d > 0 && n % d == 0
  }

  lemma MulAtLeast(a: int, b: int)
    requires a > 0 && b > 0
    ensures a * b >= a
  {
  }

  lemma MulAtMost(a: int, b: int)
    requires a > 0 && b < 0
    ensures a * b <= -a
  {
  }

  lemma DividesMul(d: int, k: int)
    requires d > 0
    ensures Divides(d, d * k)
  {
    var q := (d * k) / d;
    var r := (d * k) % d;
    assert d * k == d * q + r && 0 <= r < d;
    assert d * (k - q) == r;
    if k - q > 0 {
      MulAtLeast(d, k - q);
    } else if k - q < 0 {
      MulAtMost(d, k - q);
    }
  }

  lemma DividesQuotient(d: int, n: int)
    requires Divides(d, n)
    ensures n == d * (n / d)
  {
  }

  /** A multiple of `d` written as `d * k` has `k` as its quotient. */
  lemma QuotientOfMultiple(d: int, k: int)
    requires d > 0
    ensures (d * k) / d == k
  {
    DividesMul(d, k);
    DividesQuotient(d, d * k);
    assert d * ((d * k) / d) == d * k;
  }

  lemma DividesTrans(a: int, b: int, c: int)
    requires Divides(a, b) && Divides(b, c)
    ensures Divides(a, c)
  {
    DividesQuotient(a, b);
    DividesQuotient(b, c);
    var i, j := b / a, c / b;
    assert c == a * (i * j) by {
      assert c == b * j;
      assert b == a * i;
    }
    DividesMul(a, i * j);
  }

  lemma DividesLinear(d: int, a: int, b: int, x: int, y: int)
    requires Divides(d, a) && Divides(d, b)
    ensures Divides(d, a * x + b * y)
  {
    DividesQuotient(d, a);
    DividesQuotient(d, b);
    var i, j := a / d, b / d;
    assert a * x + b * y == d * (i * x + j * y) by {
      assert a == d * i;
      assert b == d * j;
    }
    DividesMul(d, i * x + j * y);
  }

  lemma DividesLe(d: int, n: int)
    requires Divides(d, n) && n > 0
    ensures d <= n
  {
    DividesQuotient(d, n);
    var q := n / d;
    if q > 0 {
      MulAtLeast(d, q);
    }
  }

  /** Euclid's algorithm. */
  function Gcd(a: nat, b: nat): nat
    decreases b
  {
    if b == 0 then a else Gcd(b, a % b)
  }

  /** Bezout coefficients, computed by the extended Euclidean algorithm. */
  function Bezout(a: nat, b: nat): (xy: (int, int))
    decreases b
    ensures a * xy.0 + b * xy.1 == Gcd(a, b)
  {
    if b == 0 then (1, 0)
    else
      var xy' := Bezout(b, a % b);
      assert a % b == a - (a / b) * b;
      (xy'.1, xy'.0 - (a / b) * xy'.1)
  }

  lemma {:induction false} GcdDivides(a: nat, b: nat)
    requires a > 0 || b > 0
    ensures Gcd(a, b) > 0 && Divides(Gcd(a, b), a) && Divides(Gcd(a, b), b)
    decreases b
  {
    if b == 0 {
      assert a % a == 0;
    } else {
      GcdDivides(b, a % b);
      var g := Gcd(a, b);
      assert a == b * (a / b) + (a % b);
      DividesLinear(g, b, a % b, a / b, 1);
    }
  }

  /** Every common divisor divides the gcd. */
  lemma GcdGreatest(a: nat, b: nat, d: int)
    requires Divides(d, a) && Divides(d, b)
    ensures Divides(d, Gcd(a, b))
  {
    var xy := Bezout(a, b);
    DividesLinear(d, a, b, xy.0, xy.1);
  }

  /** Gauss's lemma: a number coprime to `a` that divides `a * b` divides `b`. */
  lemma CoprimeDividesProduct(m: nat, a: nat, b: nat)
    requires m > 0 && Gcd(m, a) == 1 && Divides(m, a * b)
    ensures Divides(m, b)
  {
    var xy := Bezout(m, a);
    var x, y := xy.0, xy.1;
    assert m * x + a * y == 1;
    assert b == (a * b) * y + m * (b * x) by {
      RegroupBezout(m, a, b, x, y);
    }
    assert Divides(m, m) by { assert m % m == 0; }
    DividesLinear(m, a * b, m, y, b * x);
  }

  lemma PositiveFactor(g: int, b: int)
    requires g > 0 && g * b > 0
    ensures b > 0
  {
    if b <= 0 {
      if b < 0 { MulAtMost(g, b); }
    }
  }

  lemma ScaleDivides(g: int, h: int, a: int)
    requires g > 0 && h > 0
    ensures g * h > 0 && Divides(g * h, g * (h * a))
  {
    MulAtLeast(g, h);
    assert g * (h * a) == (g * h) * a;
    DividesMul(g * h, a);
  }

  lemma ProductAboveFactor(g: int, h: int)
    requires g > 0 && h > 1
    ensures g * h > g
  {
    MulAtLeast(g, h - 1);
    assert g * h == g * (h - 1) + g;
  }

  /** Cancelling the gcd of both arguments leaves coprime numbers. */
  lemma ReducedIsCoprime(n: nat, d: nat)
    requires d > 0
    ensures Gcd(n, d) > 0 && n % Gcd(n, d) == 0 && d % Gcd(n, d) == 0
    ensures Gcd(n / Gcd(n, d), d / Gcd(n, d)) == 1
  {
    GcdDivides(n, d);
    var g := Gcd(n, d);
    var a, b := n / g, d / g;
    DividesQuotient(g, n);
    DividesQuotient(g, d);
    PositiveFactor(g, b);
    GcdDivides(a, b);
    var h := Gcd(a, b);
    DividesQuotient(h, a);
    DividesQuotient(h, b);
    ScaleDivides(g, h, a / h);
    ScaleDivides(g, h, b / h);
    GcdGreatest(n, d, g * h);
    DividesLe(g * h, g);
    if h > 1 {
      ProductAboveFactor(g, h);
    }
  }

  ghost predicate IsPrime(n: int)
  {
    n >= 2 && forall d :: 2 <= d < n ==> n % d != 0
  }

  /** The least divisor of `n` that is at least `k`. */
  function MinDivisor(n: int, k: int): (r: int)
    requires 2 <= k <= n
    decreases n - k
    ensures k <= r <= n && Divides(r, n)
    ensures forall j :: k <= j < r ==> n % j != 0
  {
    if n % k == 0 then k else MinDivisor(n, k + 1)
  }

  lemma MinDivisorIsPrime(n: int)
    requires n >= 2
    ensures IsPrime(MinDivisor(n, 2))
  {
    var r := MinDivisor(n, 2);
    forall d | 2 <= d < r
      ensures r % d != 0
    {
      if r % d == 0 {
        DividesTrans(d, r, n);
      }
    }
  }

  lemma PrimeFactor(n: int) returns (p: int)
    requires n >= 2
    ensures IsPrime(p) && Divides(p, n)
  {
    p := MinDivisor(n, 2);
    MinDivisorIsPrime(n);
  }

  /** The only positive divisors of a prime are 1 and itself. */
  lemma PrimeDivisors(p: int, d: int)
    requires IsPrime(p) && Divides(d, p)
    ensures d == 1 || d == p
  {
    DividesLe(d, p);
  }

  /** Euclid's lemma: a prime dividing a product divides one of the factors. */
  lemma EuclidPrime(p: int, a: nat, b: nat)
    requires IsPrime(p) && Divides(p, a * b)
    ensures Divides(p, a) || Divides(p, b)
  {
    if !Divides(p, a) {
      GcdDivides(p, a);
      PrimeDivisors(p, Gcd(p, a));
      var xy := Bezout(p, a);
      var x, y := xy.0, xy.1;
      assert p * x + a * y == 1;
      assert b == (a * b) * y + p * (b * x) by {
        RegroupBezout(p, a, b, x, y);
      }
      assert Divides(p, p) by { assert p % p == 0; }
      DividesLinear(p, a * b, p, y, b * x);
    }
  }

  lemma RegroupBezout(p: int, a: int, b: int, x: int, y: int)
    ensures b * (p * x + a * y) == (a * b) * y + p * (b * x)
  {
  }

  /** A prime dividing another prime is that prime. */
  lemma PrimeDividesPrime(q: int, p: int)
    requires IsPrime(q) && IsPrime(p) && Divides(q, p)
    ensures q == p
  {
    PrimeDivisors(p, q);
  }

  /** Two positive numbers with no common prime factor are coprime. */
  lemma CoprimeIfNoCommonPrime(a: nat, b: nat)
    requires a > 0 && b > 0
    requires forall q :: IsPrime(q) && Divides(q, a) ==> !Divides(q, b)
    ensures Gcd(a, b) == 1
  {
    GcdDivides(a, b);
    var g := Gcd(a, b);
    if g != 1 {
      var q := PrimeFactor(g);
      DividesTrans(q, g, a);
      DividesTrans(q, g, b);
    }
  }
}
