/**
 * The mathematical meanings the calculator's integer functions are
 * proved against: divisibility, greatest common divisor and least common
 * multiple, products of ranges, the Fibonacci sequence, integer square
 * roots, primality and the count of primes.
 */
module NumberTheory {
  import opened PythonInt

  /** d divides x: x is an integer multiple of d (0 divides only 0). */
  predicate Divides(d: int, x: int) {
    if d == 0 then x == 0 else x % d == 0
  }

  /** The k with x == d * k when d divides x. */
  function Cofactor(d: int, x: int): int {
    if d == 0 then 0 else x / d
  }

  /** When d divides x, the cofactor rebuilds x from d. */
  lemma DividesCofactor(d: int, x: int)
    requires Divides(d, x)
    ensures x == d * Cofactor(d, x)
  {
  }

  /** A multiple of d, given with its factor, is divisible by d. */
  lemma DividesIntro(d: int, x: int, k: int)
    requires x == d * k
    ensures Divides(d, x)
  {
    if d != 0 {
      var q, r := x / d, x % d;
      assert d * (k - q) == r by {
        assert d * (k - q) == d * k - d * q;
      }
      if k - q >= 1 {
        MulByAtLeastOne(d, k - q);
        MulByAtLeastOne(-d, k - q);
      } else if q - k >= 1 {
        MulByAtLeastOne(d, q - k);
        MulByAtLeastOne(-d, q - k);
      }
    }
  }

  /** Whatever divides two numbers divides every integer combination of them. */
  lemma DividesCombination(d: int, x: int, y: int, p: int, q: int)
    requires Divides(d, x) && Divides(d, y)
    ensures Divides(d, p * x + q * y)
  {
    var kx, ky := Cofactor(d, x), Cofactor(d, y);
    DividesCofactor(d, x);
    DividesCofactor(d, y);
    assert p * x + q * y == d * (p * kx + q * ky) by {
      assert p * x == d * (p * kx);
      assert q * y == d * (q * ky);
    }
    DividesIntro(d, p * x + q * y, p * kx + q * ky);
  }

  /** Divisibility is transitive. */
  lemma DividesTransitive(a: int, b: int, c: int)
    requires Divides(a, b) && Divides(b, c)
    ensures Divides(a, c)
  {
    var k1, k2 := Cofactor(a, b), Cofactor(b, c);
    DividesCofactor(a, b);
    DividesCofactor(b, c);
    assert c == a * (k1 * k2);
    DividesIntro(a, c, k1 * k2);
  }

  /** Divisibility does not see the sign of the dividend. */
  lemma DividesAbs(d: int, x: int)
    ensures Divides(d, x) <==> Divides(d, Abs(x))
  {
    if Divides(d, x) {
      DividesCofactor(d, x);
      DividesIntro(d, Abs(x), if x < 0 then -Cofactor(d, x) else Cofactor(d, x));
    }
    if Divides(d, Abs(x)) {
      DividesCofactor(d, Abs(x));
      DividesIntro(d, x, if x < 0 then -Cofactor(d, Abs(x)) else Cofactor(d, Abs(x)));
    }
  }

  /** A positive divisor of a positive number is at most that number. */
  lemma DividesBound(d: int, x: int)
    requires d > 0 && x > 0 && Divides(d, x)
    ensures d <= x
  {
    DividesCofactor(d, x);
    var k := Cofactor(d, x);
    if k <= 0 {
      MulByAtLeastOne(d, 1 - k);
    } else {
      MulByAtLeastOne(d, k);
    }
  }

  /** g is a greatest common divisor of a and b, by divisibility. */
  ghost predicate IsGcd(g: int, a: int, b: int) {
    && g > 0
    && Divides(g, a) && Divides(g, b)
    && forall d :: Divides(d, a) && Divides(d, b) ==> Divides(d, g)
  }

  /** l is a least common multiple of a and b, by divisibility. */
  ghost predicate IsLcm(l: int, a: int, b: int) {
    && l > 0
    && Divides(a, l) && Divides(b, l)
    && forall m :: Divides(a, m) && Divides(b, m) ==> Divides(l, m)
  }

  /** IsGcd pins the divisor down: there is at most one. */
  lemma GcdUnique(g1: int, g2: int, a: int, b: int)
    requires IsGcd(g1, a, b) && IsGcd(g2, a, b)
    ensures g1 == g2
  {
    assert Divides(g1, g2) && Divides(g2, g1);
    DividesBound(g1, g2);
    DividesBound(g2, g1);
  }

  /** IsLcm pins the multiple down: there is at most one. */
  lemma LcmUnique(l1: int, l2: int, a: int, b: int)
    requires IsLcm(l1, a, b) && IsLcm(l2, a, b)
    ensures l1 == l2
  {
    assert Divides(l1, l2) && Divides(l2, l1);
    DividesBound(l1, l2);
    DividesBound(l2, l1);
  }

  /** Multiplication distributes over addition. */
  lemma Distribute(u: int, v: int, w: int)
    ensures (u + v) * w == u * w + v * w
  {
  }

  /** A product of three factors can be regrouped and its first two factors swapped. */
  lemma Regroup(u: int, v: int, w: int)
    ensures u * (v * w) == (u * v) * w && u * (v * w) == (v * u) * w
  {
  }

  /** A nonzero common factor cancels from both sides of an equation. */
  lemma CancelFactor(g: int, u: int, v: int)
    requires g != 0 && g * u == g * v
    ensures u == v
  {
    assert g * (u - v) == 0;
  }

  /**
   * A multiple of both a and b is a multiple of (a / g) * b when g is an
   * integer combination x * a + y * b that divides a.
   */
  lemma CommonMultipleDivisible(a: int, b: int, g: int, x: int, y: int, m: int)
    requires g != 0 && Divides(g, a) && g == x * a + y * b
    requires Divides(a, m) && Divides(b, m)
    ensures Divides(Cofactor(g, a) * b, m)
  {
    var ka, s, t := Cofactor(g, a), Cofactor(a, m), Cofactor(b, m);
    DividesCofactor(g, a);
    DividesCofactor(a, m);
    DividesCofactor(b, m);
    var c := x * t + y * s;
    var ab := a * b;
    assert g * m == x * (a * m) + y * (b * m) by {
      assert g * m == (x * a + y * b) * m;
      Distribute(x * a, y * b, m);
      Regroup(x, a, m);
      Regroup(y, b, m);
    }
    assert a * m == ab * t by {
      assert m == b * t;
      Regroup(a, b, t);
    }
    assert b * m == ab * s by {
      assert m == a * s;
      Regroup(b, a, s);
    }
    assert g * m == ab * c by {
      Regroup(x, ab, t);
      Regroup(y, ab, s);
      Distribute(x * t, y * s, ab);
    }
    assert g * m == g * ((ka * b) * c) by {
      assert ab == g * (ka * b) by { Regroup(g, ka, b); }
      Regroup(g, ka * b, c);
    }
    CancelFactor(g, m, (ka * b) * c);
    DividesIntro(ka * b, m, c);
  }

  /**
   * When g > 0 divides a (a == g * ka), the division of |a * b| by g is
   * exact and gives |ka * b|.
   */
  lemma ExactQuotient(a: int, b: int, g: int, ka: int)
    requires g > 0 && a == g * ka
    ensures Abs(a * b) == g * Abs(ka * b)
    ensures Divides(g, Abs(a * b))
    ensures Abs(a * b) / g == Abs(ka * b)
  {
    var l := Abs(ka * b);
    assert a * b == g * (ka * b) by { Regroup(g, ka, b); }
    assert Abs(a * b) == g * l;
    DividesIntro(g, Abs(a * b), l);
    FloorDivModUnique(Abs(a * b), g, l, 0);
  }

  /**
   * With g == x * a + y * b dividing a, every common multiple of a and b
   * is a multiple of |(a / g) * b|.
   */
  lemma LcmDividesCommonMultiples(a: int, b: int, g: int, x: int, y: int)
    requires g != 0 && Divides(g, a) && g == x * a + y * b
    ensures forall m :: Divides(a, m) && Divides(b, m) ==> Divides(Abs(Cofactor(g, a) * b), m)
  {
    var kab := Cofactor(g, a) * b;
    forall m | Divides(a, m) && Divides(b, m)
      ensures Divides(Abs(kab), m)
    {
      CommonMultipleDivisible(a, b, g, x, y, m);
      var c := Cofactor(kab, m);
      DividesCofactor(kab, m);
      DividesIntro(Abs(kab), m, if kab < 0 then -c else c);
    }
  }

  /**
   * With g a greatest common divisor that is also an integer combination
   * of a and b, |a * b| divides exactly by g and the quotient is the
   * least common multiple.
   */
  lemma LcmFromGcd(a: int, b: int, g: int, x: int, y: int)
    requires a != 0 && b != 0
    requires IsGcd(g, a, b) && g == x * a + y * b
    ensures Divides(g, Abs(a * b))
    ensures IsLcm(Abs(a * b) / g, a, b)
  {
    var ka, kb := Cofactor(g, a), Cofactor(g, b);
    DividesCofactor(g, a);
    DividesCofactor(g, b);
    ExactQuotient(a, b, g, ka);
    var l := Abs(ka * b);
    DividesIntro(b, ka * b, ka);
    DividesAbs(b, ka * b);
    assert ka * b == a * kb by {
      Regroup(g, ka, kb);
      Regroup(ka, g, kb);
    }
    DividesIntro(a, ka * b, kb);
    DividesAbs(a, ka * b);
    LcmDividesCommonMultiples(a, b, g, x, y);
  }

  /** The product lo * (lo + 1) * ... * hi, which is 1 for an empty range. */
  function Product(lo: int, hi: int): int
    decreases hi - lo
  {
    if hi < lo then 1 else Product(lo, hi - 1) * hi
  }

  /** A product of factors that are all at least 1 is at least 1. */
  lemma {:induction false} ProductPositive(lo: int, hi: int)
    requires lo >= 1
    ensures Product(lo, hi) >= 1
    decreases hi - lo
  {
    if hi >= lo {
      ProductPositive(lo, hi - 1);
      MulByAtLeastOne(Product(lo, hi - 1), hi);
    }
  }

  /** Every factor of a product divides it. */
  lemma {:induction false} ProductDivisible(lo: int, hi: int, d: int)
    requires lo <= d <= hi
    ensures Divides(d, Product(lo, hi))
    decreases hi - lo
  {
    if d == hi {
      DividesIntro(d, Product(lo, hi), Product(lo, hi - 1));
    } else {
      ProductDivisible(lo, hi - 1, d);
      DividesCombination(d, Product(lo, hi - 1), 0, hi, 0);
    }
  }

  /** The Fibonacci sequence 0, 1, 1, 2, 3, 5, ... */
  function Fib(n: nat): nat {
    if n < 2 then n else Fib(n - 1) + Fib(n - 2)
  }

  /** The largest s with s * s <= n. */
  function IntSqrt(n: nat): (s: nat)
    ensures s * s <= n < (s + 1) * (s + 1)
  {
    if n == 0 then 0
    else
      var s := IntSqrt(n - 1);
      if (s + 1) * (s + 1) <= n then s + 1 else s
  }

  /** For n >= 2 the integer square root lies in [1, n). */
  lemma IntSqrtBelow(n: nat)
    requires n >= 2
    ensures 1 <= IntSqrt(n) < n
  {
    var s := IntSqrt(n);
    if s >= n {
      MulByAtLeastOne(s, s);
      assert s * s >= s;
    }
  }

  /** n is prime: at least 2, with no divisor strictly between 1 and n. */
  ghost predicate IsPrimeNumber(n: int) {
    n >= 2 && forall d :: 2 <= d < n ==> !Divides(d, n)
  }

  /** The cofactor of a divisor above the root lies between 2 and the root. */
  lemma CofactorBelowRoot(n: int, s: nat, d: int, e: int)
    requires n == d * e && 2 <= d < n
    requires n < (s + 1) * (s + 1) && s < d
    ensures 2 <= e <= s
  {
    if e <= 0 {
      MulByAtLeastOne(d, 1 - e);
    } else if e == 1 {
    } else if e > s {
      MulByAtLeastOne(s + 1, d - s);
      MulByAtLeastOne(d, e - s);
    }
  }

  /**
   * Trial division up to the integer square root decides primality:
   * a divisor above the root comes with a cofactor below it.
   */
  lemma TrialDivisionToRoot(n: int)
    requires n >= 2
    ensures IsPrimeNumber(n) <==> forall d :: 2 <= d <= IntSqrt(n) ==> !Divides(d, n)
  {
    var s := IntSqrt(n);
    IntSqrtBelow(n);
    if forall d :: 2 <= d <= s ==> !Divides(d, n) {
      forall d | 2 <= d < n
        ensures !Divides(d, n)
      {
        if Divides(d, n) && d > s {
          DividesCofactor(d, n);
          var e := Cofactor(d, n);
          CofactorBelowRoot(n, s, d, e);
          DividesIntro(e, n, d);
        }
      }
    }
  }

  /** The number of primes p with 2 <= p <= m. */
  ghost function PrimeCount(m: int): nat
    decreases m
  {
    if m < 2 then 0 else PrimeCount(m - 1) + (if IsPrimeNumber(m) then 1 else 0)
  }

  /** The number of primes up to m never decreases as m grows. */
  lemma {:induction false} PrimeCountMonotone(a: int, b: int)
    requires a <= b
    ensures PrimeCount(a) <= PrimeCount(b)
    decreases b - a
  {
    if a < b {
      PrimeCountMonotone(a, b - 1);
    }
  }

  /**
   * Each prime has its own count: two primes with the same number of
   * primes up to them are equal, so "the prime with exactly n primes up
   * to it" names one number.
   */
  lemma PrimeCountInjective(p: int, q: int)
    requires IsPrimeNumber(p) && IsPrimeNumber(q)
    requires PrimeCount(p) == PrimeCount(q)
    ensures p == q
  {
    if p < q {
      PrimeCountMonotone(p, q - 1);
    } else if q < p {
      PrimeCountMonotone(q, p - 1);
    }
  }

  /** The first prime is 2. */
  lemma FirstPrimeIsTwo(p: int)
    requires IsPrimeNumber(p) && PrimeCount(p) == 1
    ensures p == 2
  {
    assert IsPrimeNumber(2);
    assert PrimeCount(2) == 1;
    PrimeCountInjective(p, 2);
  }

  /** Every number from 2 up has a prime divisor. */
  lemma {:induction false} PrimeFactor(n: int) returns (p: int)
    requires n >= 2
    ensures IsPrimeNumber(p) && Divides(p, n)
    decreases n
  {
    if IsPrimeNumber(n) {
      p := n;
    } else {
      var d :| 2 <= d < n && Divides(d, n);
      p := PrimeFactor(d);
      DividesTransitive(p, d, n);
    }
  }

  /** Euclid: above every number there is a prime (a prime factor of m! + 1). */
  lemma PrimeAbove(m: int) returns (p: int)
    ensures p > m && IsPrimeNumber(p)
  {
    if m < 2 {
      p := 2;
      assert IsPrimeNumber(2);
    } else {
      var f := Product(2, m);
      ProductPositive(2, m);
      p := PrimeFactor(f + 1);
      if p <= m {
        ProductDivisible(2, m, p);
        DividesCombination(p, f + 1, f, 1, -1);
        DividesBound(p, 1);
        assert false;
      }
    }
  }
}
