/** Facts about products, one at a time. */
module Arithmetic {
  lemma MulBounds(m: int, d: int)
    requires m > 0
    ensures d >= 1 ==> m * d >= m
    ensures d <= -1 ==> m * d <= -m
    ensures d <= 0 ==> m * d <= 0
  {}

  lemma MulNonNeg(a: int, b: int)
    requires a >= 0 && b >= 0
    ensures a * b >= 0
  {}

  lemma MulMono(a: int, b: int, c: int)
    requires a <= b && c >= 0
    ensures c * a <= c * b && a * c <= b * c
  {
    MulNonNeg(b - a, c);
    Distribute(c, b, -a);
  }

  lemma Distribute(c: int, a: int, b: int)
    ensures c * (a + b) == c * a + c * b && (a + b) * c == a * c + b * c
  {}

  lemma Associate(a: int, b: int, c: int)
    ensures a * (b * c) == (a * b) * c
  {}

  lemma Commute(a: int, b: int)
    ensures a * b == b * a
  {}

  lemma Negate(a: int, b: int)
    ensures (-a) * b == -(a * b) && a * (-b) == -(a * b)
  {}

  lemma PositiveProduct(a: int, b: nat)
    requires a * b > 0
    ensures a > 0 && b > 0
  {
    if a <= 0 {
      MulNonNeg(-a, b);
      Negate(a, b);
    }
  }

  /** Quotient and remainder are unique. */
  lemma DivUnique(x: int, m: int, c: int, r: int)
    requires m > 0 && x == m * c + r && 0 <= r < m
    ensures x / m == c && x % m == r
  {
    var d := c - x / m;
    Distribute(m, c, -(x / m));
    Negate(m, x / m);
    MulBounds(m, d);
  }
}
