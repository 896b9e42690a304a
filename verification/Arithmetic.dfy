// Facts of real multiplication and division that the proofs name where they need
// them.
module Arithmetic {

  lemma MulNonnegative(x: real, y: real)
    requires x >= 0.0 && y >= 0.0
    ensures x * y >= 0.0
  {
  }

  lemma MulPositive(x: real, y: real)
    requires x > 0.0 && y > 0.0
    ensures x * y > 0.0
  {
  }

  lemma MulMonotone(x: real, y: real, z: real)
    requires x <= y && z >= 0.0
    ensures x * z <= y * z
  {
  }

  lemma MulStrictly(x: real, y: real, z: real)
    requires x < y && z > 0.0
    ensures x * z < y * z
    ensures z * x < z * y
  {
  }

  lemma CancelFactor(z: real, x: real, y: real)
    requires z > 0.0 && z * x <= z * y
    ensures x <= y
  {
    if x > y {
      MulStrictly(y, x, z);
    }
  }

  lemma Quotient(c: real, d: real)
    requires d > 0.0
    ensures d * (c / d) == c == (c / d) * d
  {
  }

  lemma QuotientPositive(c: real, d: real)
    requires c > 0.0 && d > 0.0
    ensures c / d > 0.0
  {
  }

  lemma QuotientAtMost(c: real, d: real, b: real)
    requires d > 0.0
    ensures c / d <= b <==> c <= b * d
  {
    Quotient(c, d);
    ScaledOrder(c / d, b, d, c);
  }

  lemma ScaledOrder(q: real, b: real, d: real, c: real)
    requires d > 0.0 && q * d == c
    ensures q <= b <==> c <= b * d
  {
    if q <= b {
      MulMonotone(q, b, d);
    } else {
      MulStrictly(b, q, d);
    }
  }
}
