/**
 * The integer functions of the calculator module. Eight of them (modulus,
 * factorial, factorial_recursive, gcd, lcm, is_prime, fibonacci and
 * nth_prime) check their arguments first and raise ValueError, modelled
 * as an Err carrying the same message, before computing anything; add,
 * subtract, multiply, power and absolute_value have no guard and just
 * compute an expression. The ones written as loops over local variables
 * are methods proved against the definitions in NumberTheory; the
 * single-expression ones are functions.
 */
module Calculator {
  import opened Results
  import opened PythonInt
  import opened NumberTheory

  const ModulusZeroMessage := "Cannot perform modulus with zero."
  const FactorialNegativeMessage := "Cannot compute factorial of a negative number."
  const GcdZeroMessage := "Cannot compute GCD with zero."
  const LcmZeroMessage := "Cannot compute LCM with zero."
  const PrimeBelowTwoMessage := "Input must be greater than or equal to 2."
  const FibonacciNegativeMessage := "Input must be a non-negative integer."
  const NthPrimeMessage := "Input must be a positive integer."

  // ---------------------------------------------------------------------
  // Single-expression operations

  /** `a + b`: taking either operand away from the sum leaves the other. */
  function Add(a: int, b: int): (r: int)
    ensures r - a == b && r - b == a
  {
    a + b
  }

  /** `a - b`: adding b back to the difference gives a. */
  function Subtract(a: int, b: int): (r: int)
    ensures Add(r, b) == a
  {
    a - b
  }

  /**
   * `a * b`: the product floor-divides by each nonzero factor, leaving the
   * other and no remainder, and it is 0 when either factor is 0.
   */
  function Multiply(a: int, b: int): (r: int)
    ensures b != 0 ==> FloorDiv(r, b) == a && FloorMod(r, b) == 0
    ensures a != 0 ==> FloorDiv(r, a) == b && FloorMod(r, a) == 0
    ensures a == 0 || b == 0 ==> r == 0
  {
    ProductDividesExactly(a, b);
    a * b
  }

  /** Subtracting b undoes adding b, and the other way round. */
  lemma SubtractUndoesAdd(a: int, b: int)
    ensures Subtract(Add(a, b), b) == a
    ensures Add(Subtract(a, b), b) == a
  {
  }

  /** The modulus of a product by a nonzero factor succeeds with 0. */
  lemma MultiplyDividesExactly(a: int, b: int)
    ensures b != 0 ==> Modulus(Multiply(a, b), b) == Ok(0)
    ensures a != 0 ==> Modulus(Multiply(a, b), a) == Ok(0)
  {
  }

  /** `base ** exponent` for a non-negative integer exponent. */
  function Power(base: int, exponent: nat): (r: int)
    ensures exponent == 0 ==> r == 1
    ensures exponent == 1 ==> r == base
    ensures r == 0 <==> base == 0 && exponent > 0
  {
    if exponent == 0 then 1 else base * Power(base, exponent - 1)
  }

  /** Exponents add when powers of one base multiply. */
  lemma {:induction false} PowerAdd(base: int, m: nat, n: nat)
    ensures Power(base, m + n) == Power(base, m) * Power(base, n)
  {
    if m > 0 {
      PowerAdd(base, m - 1, n);
      Regroup(base, Power(base, m - 1), Power(base, n));
    }
  }

  /**
   * `a % b`, guarded against a zero divisor. The remainder has the sign
   * of the divisor and differs from a by a multiple of b.
   */
  function Modulus(a: int, b: int): (r: Result<int>)
    ensures r.Ok? <==> b != 0
    ensures r.Err? ==> r.error == ValueError(ModulusZeroMessage)
    ensures r.Ok? ==> Divides(b, a - r.value)
    ensures r.Ok? && b > 0 ==> 0 <= r.value < b
    ensures r.Ok? && b < 0 ==> b < r.value <= 0
  {
    if b == 0 then
      Err(ValueError(ModulusZeroMessage))
    else
      DividesIntro(b, a - FloorMod(a, b), FloorDiv(a, b));
      Ok(FloorMod(a, b))
  }

  /**
   * Modulus returns the only remainder with the divisor's sign: this is
   * Python's floor remainder, not Dafny's Euclidean one.
   */
  lemma ModulusUnique(a: int, b: int, m: int)
    requires b != 0 && Divides(b, a - m)
    requires b > 0 ==> 0 <= m < b
    requires b < 0 ==> b < m <= 0
    ensures Modulus(a, b) == Ok(m)
  {
    DividesCofactor(b, a - m);
    FloorDivModUnique(a, b, Cofactor(b, a - m), m);
  }

  /** `abs(x)`. */
  function AbsoluteValue(x: int): (r: int)
    ensures r >= 0
    ensures r == x || r == -x
  {
    Abs(x)
  }

  // ---------------------------------------------------------------------
  // Factorial, two ways

  /** `factorial_recursive(n)`: 1 for 0 and 1, otherwise n times the previous factorial. */
  function FactorialRecursive(n: int): (r: Result<int>)
    ensures r.Ok? <==> n >= 0
    ensures r.Err? ==> r.error == ValueError(FactorialNegativeMessage)
    ensures r.Ok? ==> r.value == Product(2, n)
    decreases if n < 0 then 0 else n
  {
    if n < 0 then
      Err(ValueError(FactorialNegativeMessage))
    else if n == 0 || n == 1 then
      Ok(1)
    else
      Ok(n * FactorialRecursive(n - 1).value)
  }

  /**
   * `factorial(n)`: multiplies 2, 3, ..., n into an accumulator. It fails
   * exactly when the recursive version fails and otherwise agrees with it.
   */
  method Factorial(n: int) returns (r: Result<int>)
    ensures r == FactorialRecursive(n)
    ensures r.Ok? ==> r.value == Product(2, n)
  {
    if n < 0 {
      return Err(ValueError(FactorialNegativeMessage));
    }
    if n == 0 || n == 1 {
      return Ok(1);
    }
    var result := 1;
    for i := 2 to n + 1
      invariant result == Product(2, i - 1)
    {
      result := result * i;
    }
    return Ok(result);
  }

  /** A factorial is positive and divisible by every number from 1 to n. */
  lemma FactorialDivisibleByEach(n: int, k: int)
    requires 1 <= k <= n
    ensures FactorialRecursive(n).Ok? && FactorialRecursive(n).value >= 1
    ensures Divides(k, FactorialRecursive(n).value)
  {
    ProductPositive(2, n);
    if k == 1 {
      DividesIntro(1, Product(2, n), Product(2, n));
    } else {
      ProductDivisible(2, n, k);
    }
  }

  // ---------------------------------------------------------------------
  // Greatest common divisor and least common multiple

  /**
   * `gcd(a, b)`: Euclid's loop `a, b = b, a % b` with Python's `%`, then
   * `abs(a)`. The result is the positive greatest common divisor; the
   * ghost outputs x and y are Bezout coefficients for it.
   */
  method Gcd(a: int, b: int) returns (r: Result<int>, ghost x: int, ghost y: int)
    ensures r.Ok? <==> a != 0 && b != 0
    ensures r.Err? ==> r.error == ValueError(GcdZeroMessage)
    ensures r.Ok? ==> IsGcd(r.value, a, b)
    ensures r.Ok? ==> r.value == x * a + y * b
  {
    if a == 0 || b == 0 {
      return Err(ValueError(GcdZeroMessage)), 0, 0;
    }
    // u and v play the roles of `gcd`'s reassigned `a` and `b`.
    var u, v := a, b;
    ghost var xu, yu, xv, yv := 1, 0, 0, 1;
    while v != 0
      invariant u != 0
      invariant u == xu * a + yu * b
      invariant v == xv * a + yv * b
      invariant forall d :: Divides(d, u) && Divides(d, v) ==> Divides(d, a) && Divides(d, b)
      decreases Abs(v)
    {
      ghost var q := FloorDiv(u, v);
      EuclidStep(a, b, u, v, xu, yu, xv, yv);
      u, v := v, FloorMod(u, v);
      xu, yu, xv, yv := xv, yv, xu - q * xv, yu - q * yv;
    }
    DividesAbs(u, u);
    DividesAbs(Abs(u), u);
    forall d | Divides(d, a) && Divides(d, b)
      ensures Divides(d, Abs(u))
    {
      DividesCombination(d, a, b, xu, yu);
      DividesAbs(d, u);
    }
    if u < 0 {
      x, y := -xu, -yu;
    } else {
      x, y := xu, yu;
    }
    return Ok(Abs(u)), x, y;
  }

  /** One step of Euclid's loop keeps the Bezout coefficients and the common divisors. */
  lemma EuclidStep(a: int, b: int, u: int, v: int, xu: int, yu: int, xv: int, yv: int)
    requires v != 0
    requires u == xu * a + yu * b && v == xv * a + yv * b
    ensures FloorMod(u, v) == (xu - FloorDiv(u, v) * xv) * a + (yu - FloorDiv(u, v) * yv) * b
    ensures forall d :: Divides(d, v) && Divides(d, FloorMod(u, v)) ==> Divides(d, u)
  {
    var q := FloorDiv(u, v);
    assert FloorMod(u, v) == u - q * v;
    assert q * v == (q * xv) * a + (q * yv) * b by {
      Regroup(q, xv, a);
      Regroup(q, yv, b);
    }
    forall d | Divides(d, v) && Divides(d, FloorMod(u, v))
      ensures Divides(d, u)
    {
      DividesCombination(d, v, FloorMod(u, v), q, 1);
    }
  }

  /**
   * `lcm(a, b)`: `abs(a * b) // gcd(a, b)`. The division is exact and the
   * quotient is the positive least common multiple.
   */
  method Lcm(a: int, b: int) returns (r: Result<int>)
    ensures r.Ok? <==> a != 0 && b != 0
    ensures r.Err? ==> r.error == ValueError(LcmZeroMessage)
    ensures r.Ok? ==> IsLcm(r.value, a, b)
    ensures r.Ok? ==> exists g :: IsGcd(g, a, b) && r.value * g == Abs(a * b)
  {
    if a == 0 || b == 0 {
      return Err(ValueError(LcmZeroMessage));
    }
    var g;
    ghost var x, y;
    g, x, y := Gcd(a, b);
    LcmFromGcd(a, b, g.value, x, y);
    var l := FloorDiv(Abs(a * b), g.value);
    DividesCofactor(g.value, Abs(a * b));
    assert IsGcd(g.value, a, b) && l * g.value == Abs(a * b);
    return Ok(l);
  }

  // ---------------------------------------------------------------------
  // Primes and Fibonacci numbers

  /**
   * `is_prime(n)`: trial division by 2 .. int(n ** 0.5), returning False
   * at the first divisor. The answer is primality.
   */
  method IsPrime(n: int) returns (r: Result<bool>)
    ensures r.Ok? <==> n >= 2
    ensures r.Err? ==> r.error == ValueError(PrimeBelowTwoMessage)
    ensures r.Ok? ==> (r.value <==> IsPrimeNumber(n))
  {
    if n < 2 {
      return Err(ValueError(PrimeBelowTwoMessage));
    }
    TrialDivisionToRoot(n);
    IntSqrtBelow(n);
    for i := 2 to IntSqrt(n) + 1
      invariant forall d :: 2 <= d < i ==> !Divides(d, n)
    {
      if FloorMod(n, i) == 0 {
        assert Divides(i, n);
        return Ok(false);
      }
    }
    return Ok(true);
  }

  /**
   * `fibonacci(n)`: the pair (a, b) walks along the sequence
   * `a, b = b, a + b` until b is the n-th Fibonacci number.
   */
  method Fibonacci(n: int) returns (r: Result<int>)
    ensures r.Ok? <==> n >= 0
    ensures r.Err? ==> r.error == ValueError(FibonacciNegativeMessage)
    ensures r.Ok? ==> r.value == Fib(n)
  {
    if n < 0 {
      return Err(ValueError(FibonacciNegativeMessage));
    }
    if n == 0 {
      return Ok(0);
    } else if n == 1 {
      return Ok(1);
    }
    var a, b := 0, 1;
    for i := 2 to n + 1
      invariant a == Fib(i - 2) && b == Fib(i - 1)
    {
      a, b := b, a + b;
    }
    return Ok(b);
  }

  /**
   * `nth_prime(n)`: counts primes upward from 2 until the n-th. The result
   * is prime and exactly n primes lie in [2, result], so by
   * PrimeCountInjective it is the n-th prime. The loop ends because above
   * every number there is a prime (PrimeAbove), kept as a ghost bound.
   */
  method NthPrime(n: int) returns (r: Result<int>)
    ensures r.Ok? <==> n >= 1
    ensures r.Err? ==> r.error == ValueError(NthPrimeMessage)
    ensures r.Ok? ==> IsPrimeNumber(r.value) && PrimeCount(r.value) == n
  {
    if n < 1 {
      return Err(ValueError(NthPrimeMessage));
    }
    var count := 0;
    var num := 1;
    ghost var bound := PrimeAbove(num);
    while count < n
      invariant 0 <= count <= n && num >= 1
      invariant count == PrimeCount(num)
      invariant count == n ==> IsPrimeNumber(num)
      invariant num < bound && IsPrimeNumber(bound)
      decreases n - count, bound - num
    {
      num := num + 1;
      var prime := IsPrime(num);
      if prime.value {
        count := count + 1;
        bound := PrimeAbove(num);
      }
    }
    return Ok(num);
  }

  /** The values the calculator's test suite expects. */
  lemma TestSuiteValues()
    ensures Add(2, 3) == 5 && Add(-1, 1) == 0 && Add(-1, -1) == -2
    ensures Subtract(5, 3) == 2 && Subtract(3, 5) == -2 && Subtract(-1, -1) == 0
    ensures Multiply(2, 3) == 6 && Multiply(-1, 1) == -1 && Multiply(-2, -3) == 6
    ensures Power(2, 3) == 8 && Power(5, 0) == 1
    ensures Modulus(5, 3) == Ok(2) && Modulus(5, 0).Err?
    ensures AbsoluteValue(-5) == 5 && AbsoluteValue(5) == 5
    ensures FactorialRecursive(5) == Ok(120) && FactorialRecursive(-1).Err?
  {
  }
}
