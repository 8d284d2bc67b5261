# Calculator integer core, modelled in Dafny

This project models the integer part of the recipe-app backend's calculator module
(`app/app/calculator.py`). That module is a set of stateless functions:
`add`, `subtract`, `multiply`, `power`, `modulus`, `absolute_value`,
`factorial` and `factorial_recursive`, `gcd` and `lcm`, `is_prime`, `fibonacci`
and `nth_prime`. Eight of them check their arguments first and raise `ValueError`
with a fixed message when the arguments are bad: `modulus`, `factorial`,
`factorial_recursive`, `gcd`, `lcm`, `is_prime`, `fibonacci` and `nth_prime`.
The other five (`add`, `subtract`, `multiply`, `power` and `absolute_value`) have
no guard and just compute an expression.

Layout:

- `results.dfy` (module `Results`): `Error` is `ValueError(message)` and
  `Result<T>` is `Ok(value) | Err(error)`. A raised `ValueError` is an `Err`
  that carries the source's exact message.
- `python_int.dfy` (module `PythonInt`): Python's `abs`, `//` and `%` on ints.
  Python rounds the quotient toward negative infinity, so the remainder has the
  divisor's sign. Dafny's `/` and `%` are Euclidean and differ for negative divisors.
- `number_theory.dfy` (module `NumberTheory`): the meanings the operations are
  proved against. It has divisibility, `IsGcd`, `IsLcm`, the range product
  `Product(2, n)` = 2·3·…·n, the Fibonacci sequence `Fib`, the integer square
  root `IntSqrt`, `IsPrimeNumber`, and `PrimeCount(m)` (the number of primes in
  [2, m]). It also holds Euclid's theorem that primes never run out (`PrimeAbove`).
- `calculator.dfy` (module `Calculator`): the operations. The source
  writes `factorial`, `gcd`, `fibonacci`, `is_prime` and `nth_prime` as loops
  that update locals, so here they are methods with loop invariants. `lcm` calls
  `gcd`, so it is a method too. `factorial_recursive`, `add`, `subtract`,
  `multiply`, `power`, `modulus` and `absolute_value` are functions.

Python's `%` is modelled as `FloorMod` wherever the source uses it: in
`modulus`, in Euclid's loop in `gcd`, and in the trial division of `is_prime`.
Python's `//` in `lcm` is `FloorDiv`. Python integers are unbounded, like Dafny's,
so no wrap-around is modelled.

`Gcd` also returns two ghost outputs, Bezout coefficients `x` and `y` with
`gcd == x*a + y*b`. The loop keeps them alongside `a` and `b`. They do not exist
in the source. They are used to prove that `lcm` divides every common multiple.

`nth_prime`'s `while count < n` loop has no visible bound. Its termination is
proved with a ghost bound: a prime above the current candidate, which
`PrimeAbove` supplies as a prime factor of m! + 1.

## Model

| member | source | states |
|---|---|---|
| `PythonInt.FloorMod` | app/app/calculator.py:35 | Python's `a % b`: `a == b * (a // b) + r`; the remainder has the divisor's sign and is smaller in magnitude |
| `PythonInt.FloorDiv` | app/app/calculator.py:101 | Python's `a // b`: the quotient `q` rounded toward negative infinity: `b*q <= a < b*q + b` for `b > 0` and `b*q + b < a <= b*q` for `b < 0`; it is the quotient `FloorMod` and `FloorDivModUnique` pair with the remainder |
| `PythonInt.FloorDivModUnique` | app/app/calculator.py:35 | only one quotient/remainder pair rebuilds `a` with a remainder of the divisor's sign, and it is Python's `a // b`, `a % b` |
| `Calculator.Add` | app/app/calculator.py:7-9 | `add(a, b)` is `a + b`: taking either operand away from the result leaves the other; `SubtractUndoesAdd` relates it to `subtract` |
| `Calculator.Subtract` | app/app/calculator.py:12-14 | `subtract(a, b)` is `a - b`: adding `b` back with `add` gives `a`; `SubtractUndoesAdd` states both inverse equations |
| `Calculator.Multiply` | app/app/calculator.py:17-19 | `multiply(a, b)` is `a * b`: floor division by either nonzero factor gives the other factor with remainder 0, and the product is 0 when either factor is 0; `MultiplyDividesExactly` states this through `modulus` |
| `Calculator.SubtractUndoesAdd` | app/app/calculator.py:7-14 | `subtract(add(a, b), b) == a` and `add(subtract(a, b), b) == a` |
| `Calculator.MultiplyDividesExactly` | app/app/calculator.py:17-19 | `modulus(multiply(a, b), b)` succeeds with 0 for every nonzero `b`, and so does `modulus(multiply(a, b), a)` for nonzero `a` |
| `Calculator.Power` | app/app/calculator.py:27-29 | `base ** 0 == 1` and `base ** 1 == base`, which with `PowerAdd` fix every power; the power is 0 exactly when the base is 0 and the exponent is positive |
| `Calculator.PowerAdd` | app/app/calculator.py:27-29 | `base ** (m + n) == base ** m * base ** n` for every base and non-negative exponents |
| `Calculator.Modulus` | app/app/calculator.py:31-35 | fails with "Cannot perform modulus with zero." exactly when `b == 0`; otherwise `b` divides `a - r`, and `r` lies in `[0, b)` for `b > 0` and in `(b, 0]` for `b < 0` |
| `Calculator.ModulusUnique` | app/app/calculator.py:31-35 | any `m` with the divisor's sign, smaller in magnitude, and `b` dividing `a - m` is what `modulus(a, b)` returns: floor remainder, not Euclidean |
| `Calculator.AbsoluteValue` | app/app/calculator.py:43-45 | the result is non-negative and equals `x` or `-x` |
| `Calculator.FactorialRecursive` | app/app/calculator.py:81-87 | fails with the negative-number message exactly when `n < 0`; otherwise returns the product 2·3·…·n (1 for 0 and 1) |
| `Calculator.Factorial` | app/app/calculator.py:47-56 | the iterative loop returns exactly what `factorial_recursive` returns on every int, error included, and its value is 2·3·…·n |
| `Calculator.FactorialDivisibleByEach` | app/app/calculator.py:81-87 | for `1 <= k <= n`, `factorial_recursive(n)` succeeds with a positive value that `k` divides |
| `Calculator.Gcd` | app/app/calculator.py:89-95 | fails with "Cannot compute GCD with zero." exactly when `a` or `b` is 0; otherwise the result is positive, divides both inputs, and is divisible by every common divisor; it is an integer combination of `a` and `b` |
| `Calculator.EuclidStep` | app/app/calculator.py:93-94 | one step `a, b = b, a % b` keeps every common divisor of the new pair a divisor of the old one, and keeps the Bezout coefficients |
| `NumberTheory.GcdUnique` | app/app/calculator.py:89-95 | two positive greatest common divisors of the same pair are equal, so `gcd`'s contract fixes its result |
| `Calculator.Lcm` | app/app/calculator.py:97-101 | fails with "Cannot compute LCM with zero." exactly when `a` or `b` is 0; otherwise the result is positive, a multiple of both inputs, and divides every common multiple; times the gcd it gives `abs(a * b)` exactly |
| `NumberTheory.LcmFromGcd` | app/app/calculator.py:101 | for nonzero `a`, `b` and their gcd `g` written as `x*a + y*b`, `g` divides `abs(a*b)` and the quotient is the least common multiple |
| `NumberTheory.LcmUnique` | app/app/calculator.py:97-101 | two positive least common multiples of the same pair are equal |
| `NumberTheory.IntSqrt` | app/app/calculator.py:107 | the loop bound `int(n ** 0.5)`, taken as the largest `s` with `s*s <= n` |
| `NumberTheory.TrialDivisionToRoot` | app/app/calculator.py:107-110 | for `n >= 2`, no divisor in `[2, isqrt(n)]` holds iff no divisor in `[2, n)` holds, so the shortened loop decides primality |
| `Calculator.IsPrime` | app/app/calculator.py:103-110 | fails with "Input must be greater than or equal to 2." exactly when `n < 2`; otherwise returns true iff `n` has no divisor strictly between 1 and `n` |
| `Calculator.Fibonacci` | app/app/calculator.py:112-123 | fails with "Input must be a non-negative integer." exactly when `n < 0`; otherwise returns `Fib(n)`, so 0 for 0 and 1 for 1; the loop keeps `(a, b)` on consecutive Fibonacci numbers |
| `Calculator.NthPrime` | app/app/calculator.py:125-135 | fails with "Input must be a positive integer." exactly when `n < 1`; otherwise the result is prime and exactly `n` primes lie in `[2, result]`; the loop terminates |
| `NumberTheory.PrimeAbove` | app/app/calculator.py:131-134 | above every integer there is a prime, so the search loop of `nth_prime` always finds the next prime |
| `NumberTheory.PrimeCountInjective` | app/app/calculator.py:125-135 | two primes with the same number of primes up to them are equal, so `nth_prime`'s contract fixes its result |
| `NumberTheory.FirstPrimeIsTwo` | app/app/calculator.py:125-135 | the only prime with one prime up to it is 2, so `nth_prime(1) == 2` |
| `Calculator.TestSuiteValues` | app/app/tests.py:18-59 | the expected values of the test suite for add, subtract, multiply, power, modulus, absolute_value and factorial (as `factorial_recursive`, which `Factorial` equals) |

## Left out

- `divide`, `square_root`, `logarithm`, `sine`, `cosine` and `tangent` (app/app/calculator.py:21-25, 37-41, 58-78) are left out. They compute with floating point or call `math`.
- `power` with a negative exponent is left out. `Power` takes a `nat` exponent.
- Only int arguments are modelled, and `bool` counts as `int` in Python (`True` is 1, `False` is 0). Python also accepts float arguments, and `power` accepts negative or fractional exponents. What happens then is not modelled: a float or complex result, a `TypeError` from `range`, or a `ZeroDivisionError`.
- `IntSqrt` is the exact integer square root. The source computes `int(n ** 0.5)` in floating point. For `n` above 2^52 the rounded root may differ from the exact one, and for `n` beyond the float range `n ** 0.5` raises `OverflowError`. Neither is modelled.
- `FactorialRecursive` does not model Python's recursion limit. The source raises `RecursionError` for `n` near 1000 and above.
- Nothing is modelled about running time. `nth_prime` and `is_prime` are slow for large inputs, but only their results are modelled.
- The Django/REST parts of the repository are not part of this model. These are the ORM models, serializers, viewsets, URL routing, admin configuration and user serializers. They are framework glue or delegate to framework calls such as `authenticate` and `create_user`.
- The tag/ingredient get-or-create association and the `assigned_only` filtering are not part of this model. They appear only in the repository's tests (app/recipe/tests/), and the code that implements them is not part of this model.
