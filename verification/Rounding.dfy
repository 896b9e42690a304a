// Round-half-even to an integer (roundTiesToEven, section 4.3.1 of IEEE
// 754-2019), which is what Python's round() and Decimal's ROUND_HALF_EVEN do.
module Rounding {

  function RoundHalfEven(x: real): int {
    var f := x.Floor;
    var rest := x - f as real;
    if rest < 0.5 || (rest == 0.5 && f % 2 == 0) then f else f + 1
  }

  /** r is a nearest integer to x, and the even one when two are equally near. */
  ghost predicate IsRounded(r: int, x: real) {
    && -0.5 <= r as real - x <= 0.5
    && (r as real - x == 0.5 || r as real - x == -0.5 ==> r % 2 == 0)
  }

  lemma RoundedIff(r: int, x: real)
    ensures RoundHalfEven(x) == r <==> IsRounded(r, x)
  {
    var f := x.Floor;
    assert f as real <= x < f as real + 1.0;
    if IsRounded(r, x) {
      assert f as real - 0.5 <= r as real <= f as real + 1.5;
      assert r == f || r == f + 1;
    }
  }

  lemma RoundMonotone(x: real, y: real)
    requires x <= y
    ensures RoundHalfEven(x) <= RoundHalfEven(y)
  {
    var r, s := RoundHalfEven(x), RoundHalfEven(y);
    RoundedIff(r, x);
    RoundedIff(s, y);
  }

  lemma RoundNegated(x: real)
    ensures RoundHalfEven(-x) == -RoundHalfEven(x)
  {
    RoundedIff(RoundHalfEven(x), x);
    RoundedIff(-RoundHalfEven(x), -x);
  }

  /** An integer is its own rounding, so rounding twice is rounding once. */
  lemma RoundInteger(n: int)
    ensures RoundHalfEven(n as real) == n
  {
    RoundedIff(n, n as real);
  }

  predicate IsWhole(x: real) {
    x.Floor as real == x
  }

  /** Rounding changes nothing exactly on whole numbers. */
  lemma RoundsToItselfIff(x: real)
    ensures RoundHalfEven(x) as real == x <==> IsWhole(x)
  {
    RoundedIff(x.Floor, x);
  }

  lemma WholeWhen(x: real, n: int)
    requires x == n as real
    ensures IsWhole(x)
  {
  }

  lemma WholeComplement(x: real, y: real, n: int)
    requires x + y == n as real && IsWhole(x)
    ensures IsWhole(y)
  {
    WholeWhen(y, n - x.Floor);
  }

  /** Rounding to zero happens exactly up to one half, the tie included. */
  lemma RoundsToZeroIff(x: real)
    ensures RoundHalfEven(x) == 0 <==> -0.5 <= x <= 0.5
  {
    RoundedIff(0, x);
  }
}
