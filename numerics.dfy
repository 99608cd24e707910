/**
 * The C++ numeric conversions the synthesis code relies on, stated over
 * Dafny's unbounded `int` and exact `real`.
 */
module Numerics {

  /** `std::abs` on an `int`. */
  function Abs(n: int): (r: nat)
    ensures r == n || r == -n
  {
    if n < 0 then -n else n
  }

  /** `std::abs` on a `double`. */
  function AbsR(v: real): (r: real)
    ensures r >= 0.0 && (r == v || r == -v)
  {
    if v < 0.0 then -v else v
  }

  /** `std::floor`: the largest integer not above `v`. */
  function Floor(v: real): (r: int)
    ensures r as real <= v < r as real + 1.0
  {
    v.Floor
  }

  /** `std::ceil`: the smallest integer not below `v`. */
  function Ceil(v: real): (r: int)
    ensures v <= r as real < v + 1.0
  {
    -((-v).Floor)
  }

  /** `std::round`: nearest integer, halves rounded away from zero. */
  function Round(v: real): (r: int)
    ensures v >= 0.0 ==> v - 0.5 < r as real <= v + 0.5
    ensures v < 0.0 ==> v - 0.5 <= r as real < v + 0.5
  {
    if v >= 0.0 then (v + 0.5).Floor else -((-v + 0.5).Floor)
  }

  /** A `double` to `int` conversion: truncation toward zero. */
  function Trunc(v: real): (r: int)
    ensures v >= 0.0 ==> r as real <= v < r as real + 1.0
    ensures v < 0.0 ==> r as real - 1.0 < v <= r as real
    ensures v >= 0.0 ==> r >= 0
    ensures v < 0.0 ==> r <= 0
  {
    if v >= 0.0 then v.Floor else -((-v).Floor)
  }

  /** C++ `int` division, which truncates toward zero. */
  function TruncDiv(a: int, b: int): (q: int)
    requires b != 0
    ensures (a >= 0) == (b > 0) || a == 0 ==> q >= 0
    ensures (a >= 0) != (b > 0) ==> q <= 0
    ensures Abs(q) * Abs(b) <= Abs(a) < (Abs(q) + 1) * Abs(b)
  {
    var m := Abs(a) / Abs(b);
    DivMagnitude(Abs(a), Abs(b), m);
    if (a >= 0) == (b > 0) then m else -m
  }

  /** Euclidean division of naturals rounds down. */
  lemma DivMagnitude(a: nat, b: nat, m: int)
    requires b > 0 && m == a / b
    ensures m >= 0 && Abs(m) == m && Abs(-m) == m
    ensures m * b <= a < (m + 1) * b
  {
  }

  /** A real that holds an integral value. */
  predicate IsIntegral(v: real)
  {
    v.Floor as real == v
  }

  function MaxI(a: int, b: int): (r: int)
    ensures r >= a && r >= b && (r == a || r == b)
  {
    if a >= b then a else b
  }

  function MaxR(a: real, b: real): (r: real)
    ensures r >= a && r >= b && (r == a || r == b)
  {
    if a >= b then a else b
  }

  function MinI(a: int, b: int): (r: int)
    ensures r <= a && r <= b && (r == a || r == b)
  {
    if a <= b then a else b
  }

  /** The product of two non-negative reals is non-negative. */
  lemma MulNonNegative(a: real, b: real)
    requires a >= 0.0 && b >= 0.0
    ensures a * b >= 0.0
  {
  }

  /** A square is non-negative. */
  lemma SquareNonNegative(a: real)
    ensures a * a >= 0.0
  {
    if a >= 0.0 {
      MulNonNegative(a, a);
    } else {
      MulNonNegative(-a, -a);
      assert a * a == (-a) * (-a);
    }
  }

  /** The product of two positive reals is positive. */
  lemma MulPositive(a: real, b: real)
    requires a > 0.0 && b > 0.0
    ensures a * b > 0.0
  {
  }

  /** Every rounding function is the identity on integral values. */
  lemma IntegralFixed(v: real)
    requires IsIntegral(v)
    ensures Floor(v) as real == v && Ceil(v) as real == v
    ensures Round(v) as real == v && Trunc(v) as real == v
  {
    var k := v.Floor;
    assert (-v).Floor == -k by { assert -v == (-k) as real; }
    if v >= 0.0 {
      assert (v + 0.5).Floor == k by { assert k as real <= v + 0.5 < (k + 1) as real; }
    } else {
      assert (-v + 0.5).Floor == -k by { assert (-k) as real <= -v + 0.5 < (-k + 1) as real; }
    }
  }

  /** Ceiling and floor of complementary parts of an integer add up to it. */
  lemma CeilFloorComplement(v: real, n: int)
    ensures Ceil(v) + Floor(n as real - v) == n
  {
  }

  /** The truncated mean of two integers lies between them. */
  lemma TruncMeanBetween(a: int, b: int)
    requires a <= b
    ensures a <= TruncDiv(a + b, 2) <= b
  {
  }
}
