/**
 * Python's integer operators where they differ from Dafny's.
 * Python ints are unbounded like Dafny's, but `//` and `%` round the
 * quotient toward negative infinity, while Dafny's `/` and `%` are
 * Euclidean (the remainder is never negative).
 */
module PythonInt {

  /**
   * The builtin `abs` on an int. `Calculator.AbsoluteValue`, which models
   * the calculator's `absolute_value`, carries its contract: the result is
   * non-negative and equals x or -x.
   */
  function Abs(x: int): int {
    if x < 0 then -x else x
  }

  /**
   * `a // b`: the quotient rounded toward negative infinity, so b times
   * the quotient lies on a's side of a, less than one b away.
   */
  function FloorDiv(a: int, b: int): (q: int)
    requires b != 0
    ensures b > 0 ==> b * q <= a < b * q + b
    ensures b < 0 ==> b * q + b < a <= b * q
  {
    if b < 0 && a % b != 0 then a / b - 1 else a / b
  }

  /**
   * `a % b`: the remainder that goes with `a // b`; it has the sign of
   * the divisor and is smaller than it in magnitude.
   */
  function FloorMod(a: int, b: int): (r: int)
    requires b != 0
    ensures a == b * FloorDiv(a, b) + r
    ensures b > 0 ==> 0 <= r < b
    ensures b < 0 ==> b < r <= 0
  {
    if b < 0 && a % b != 0 then a % b + b else a % b
  }

  /** A product divides exactly by each nonzero factor, giving the other. */
  lemma ProductDividesExactly(a: int, b: int)
    ensures b != 0 ==> FloorDiv(a * b, b) == a && FloorMod(a * b, b) == 0
    ensures a != 0 ==> FloorDiv(a * b, a) == b && FloorMod(a * b, a) == 0
  {
    if b != 0 {
      FloorDivModUnique(a * b, b, a, 0);
    }
    if a != 0 {
      FloorDivModUnique(a * b, a, b, 0);
    }
  }

  /** Any k >= 1 scales x away from zero (or leaves it). */
  lemma MulByAtLeastOne(x: int, k: int)
    requires k >= 1
    ensures x >= 0 ==> x * k >= x
    ensures x <= 0 ==> x * k <= x
  {
    assert x * k == x * (k - 1) + x;
  }

  /**
   * The floor quotient and remainder are the only pair that rebuilds `a`
   * with a remainder of the divisor's sign and smaller magnitude.
   */
  lemma {:induction false} FloorDivModUnique(a: int, b: int, q: int, r: int)
    requires b != 0
    requires a == b * q + r
    requires b > 0 ==> 0 <= r < b
    requires b < 0 ==> b < r <= 0
    ensures q == FloorDiv(a, b) && r == FloorMod(a, b)
  {
    var q', r' := FloorDiv(a, b), FloorMod(a, b);
    assert b * (q - q') == r' - r by {
      assert b * (q - q') == b * q - b * q';
    }
    if q - q' >= 1 {
      MulByAtLeastOne(b, q - q');
      assert false;
    } else if q' - q >= 1 {
      MulByAtLeastOne(b, q' - q);
      assert false;
    }
  }
}
