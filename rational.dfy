/** Exact rational numbers, as Python's `fractions.Fraction` keeps them:
    a numerator and a positive denominator in lowest terms. */
module Rational {
  import opened Arith

  function Abs(n: int): nat
  {
    if n < 0 then -n else n
  }

  datatype Fraction = Fraction(num: int, den: int) {

    /** The representation invariant of `Fraction`. */
    predicate Valid()
    {
      den >= 1 && Gcd(Abs(num), den) == 1
    }

    /** The exact value. */
    function Value(): real
      requires den != 0
    {
      num as real / den as real
    }
  }

  lemma CrossMul(x: int, y: int, u: int, v: int)
    requires y != 0 && v != 0
    ensures (x as real / y as real == u as real / v as real) <==> x * v == u * y
  {
    var X, Y, U, V := x as real, y as real, u as real, v as real;
    assert (X / Y) * (Y * V) == X * V;
    assert (U / V) * (Y * V) == U * Y;
    assert (x * v) as real == X * V;
    assert (u * y) as real == U * Y;
  }

  lemma DividesNegation(g: int, n: int)
    requires Divides(g, Abs(n))
    ensures n % g == 0 && n == g * (n / g) && Abs(n / g) == Abs(n) / g
  {
    DividesQuotient(g, Abs(n));
    var k := Abs(n) / g;
    if n < 0 {
      DividesMul(g, -k);
      assert n == g * (-k);
      QuotientOfMultiple(g, -k);
    }
  }

  /** Dividing a numerator and a positive denominator by their gcd gives a
      fraction in lowest terms with the same value. */
  lemma Reduce(n: int, d: int)
    requires d > 0
    ensures Gcd(Abs(n), d) > 0
    ensures Fraction(n / Gcd(Abs(n), d), d / Gcd(Abs(n), d)).Valid()
    ensures Fraction(n / Gcd(Abs(n), d), d / Gcd(Abs(n), d)).Value() == n as real / d as real
  {
    ReducedIsCoprime(Abs(n), d);
    var g := Gcd(Abs(n), d);
    DividesNegation(g, n);
    DividesQuotient(g, d);
    var A, B := n / g, d / g;
    PositiveFactor(g, B);
    assert A * d == n * B by {
      assert n == g * A && d == g * B;
      assert A * (g * B) == (g * A) * B;
    }
    CrossMul(A, B, n, d);
  }

  /** `n / d` for a positive `d`, in lowest terms. */
  function Normalize(n: int, d: int): (f: Fraction)
    requires d > 0
    ensures f.Valid()
    ensures f.Value() == n as real / d as real
  {
    Reduce(n, d);
    Fraction(n / Gcd(Abs(n), d), d / Gcd(Abs(n), d))
  }

  /** `Fraction(n, d)`: the value `n / d` in lowest terms, with the sign
      carried by the numerator. */
  function Make(n: int, d: int): (f: Fraction)
    requires d != 0
    ensures f.Valid()
    ensures f.Value() == n as real / d as real
  {
    if d < 0 then
      CrossMul(-n, -d, n, d);
      Normalize(-n, -d)
    else
      Normalize(n, d)
  }

  function FromInt(n: int): (f: Fraction)
    ensures f.Valid() && f.den == 1 && f.Value() == n as real
  {
    assert Gcd(Abs(n), 1) == 1 by {
      assert Abs(n) % 1 == 0;
      assert Gcd(1, 0) == 1;
    }
    Fraction(n, 1)
  }

  lemma RealProduct(x: int, y: int, u: int, v: int)
    requires y != 0 && v != 0
    ensures y * v != 0
    ensures (x * u) as real / (y * v) as real == (x as real / y as real) * (u as real / v as real)
  {
    var X, Y, U, V := x as real, y as real, u as real, v as real;
    assert (x * u) as real == X * U;
    assert (y * v) as real == Y * V;
    assert (X / Y) * (U / V) * (Y * V) == X * U;
  }

  /** The product `a * b`. */
  function Mul(a: Fraction, b: Fraction): (f: Fraction)
    requires a.Valid() && b.Valid()
    ensures f.Valid() && f.Value() == a.Value() * b.Value()
  {
    RealProduct(a.num, a.den, b.num, b.den);
    Make(a.num * b.num, a.den * b.den)
  }

  /** The reciprocal `1 / a`. */
  function Reciprocal(a: Fraction): (f: Fraction)
    requires a.Valid() && a.num != 0
    ensures f.Valid() && f.Value() == 1.0 / a.Value()
  {
    RealReciprocal(a.num, a.den);
    Make(a.den, a.num)
  }

  lemma RealReciprocal(x: int, y: int)
    requires x != 0 && y != 0
    ensures y as real / x as real == 1.0 / (x as real / y as real)
  {
    var X, Y := x as real, y as real;
    assert (X / Y) * (Y / X) == 1.0;
  }

  /** Fractions in lowest terms are equal exactly when their values are:
      the reduced representation of a value is unique. */
  lemma ValueInjective(a: Fraction, b: Fraction)
    requires a.Valid() && b.Valid() && a.Value() == b.Value()
    ensures a == b
  {
    CrossMul(a.num, a.den, b.num, b.den);
    AbsMul(a.num, b.den);
    AbsMul(b.num, a.den);
    DenominatorDivides(Abs(a.num), a.den, Abs(b.num), b.den);
    DenominatorDivides(Abs(b.num), b.den, Abs(a.num), a.den);
    DividesLe(a.den, b.den);
    DividesLe(b.den, a.den);
    CancelFactor(a.num, b.num, a.den);
  }

  /** From `x / y == u / v` with `x / y` in lowest terms, `y` divides `v`. */
  lemma DenominatorDivides(x: nat, y: nat, u: nat, v: nat)
    requires y > 0 && v > 0 && Gcd(x, y) == 1 && x * v == u * y
    ensures Divides(y, v)
  {
    DividesMul(y, u);
    assert Divides(y, x * v);
    GcdSymmetric(x, y);
    CoprimeDividesProduct(y, x, v);
  }

  lemma CancelFactor(x: int, u: int, d: int)
    requires d > 0 && x * d == u * d
    ensures x == u
  {
    if x < u {
      MulAtLeast(d, u - x);
    } else if x > u {
      MulAtLeast(d, x - u);
    }
  }

  lemma AbsMul(x: int, d: int)
    requires d > 0
    ensures Abs(x) * d == Abs(x * d)
  {
    if x < 0 {
      assert x * d < 0 by { MulAtMost(d, x); }
    } else {
      assert x * d >= 0;
    }
  }

  lemma GcdSymmetric(a: nat, b: nat)
    requires a > 0 || b > 0
    ensures Gcd(a, b) == Gcd(b, a)
  {
    GcdDivides(a, b);
    GcdDivides(b, a);
    GcdGreatest(a, b, Gcd(b, a));
    GcdGreatest(b, a, Gcd(a, b));
    DividesLe(Gcd(a, b), Gcd(b, a));
    DividesLe(Gcd(b, a), Gcd(a, b));
  }
  /** A positive fraction's value is positive. */
  lemma PositiveValue(f: Fraction)
    requires f.num >= 1 && f.den >= 1
    ensures f.Value() > 0.0
  {
  }

  /** Lowest terms are the smallest: a fraction in lowest terms equal to
      `a / b`, for positive `a` and `b`, has numerator at most `a` and
      denominator at most `b`. */
  lemma ReducedBounds(f: Fraction, a: int, b: int)
    requires f.Valid() && a >= 1 && b >= 1 && f.Value() == a as real / b as real
    ensures 1 <= f.num <= a && 1 <= f.den <= b
  {
    CrossMul(f.num, f.den, a, b);
    MulAtLeast(a, f.den);
    assert b * f.num == a * f.den;
    PositiveFactor(b, f.num);
    DenominatorDivides(f.num, f.den, a, b);
    DividesLe(f.den, b);
    if f.num > a {
      MulStrict(a, f.num, b);
      MulMonotone(a, f.den, b);
    }
  }

  lemma MulStrict(a: int, x: int, b: int)
    requires a < x && b > 0
    ensures a * b < x * b
  {
  }

  lemma MulMonotone(a: int, d: int, b: int)
    requires a >= 0 && d <= b
    ensures a * d <= a * b
  {
  }
}
