/** The few facts about products of reals that the statistics use, each proved on its own. */
module RealAlgebra {

  lemma ZeroFactor(x: real, y: real)
    requires x == 0.0 || y == 0.0
    ensures x * y == 0.0
  {
  }

  lemma PositiveProduct(x: real, y: real)
    requires x > 0.0 && y > 0.0
    ensures x * y > 0.0
  {
  }

  lemma NonNegativeProduct(x: real, y: real)
    requires x >= 0.0 && y >= 0.0
    ensures x * y >= 0.0
    ensures x * y == 0.0 <==> x == 0.0 || y == 0.0
  {
    if x > 0.0 && y > 0.0 { PositiveProduct(x, y); } else { ZeroFactor(x, y); }
  }

  lemma NegateBoth(x: real, y: real)
    ensures (-x) * (-y) == x * y
  {
  }

  lemma NegateOne(x: real, y: real)
    ensures (-x) * y == -(x * y)
  {
  }

  lemma SquareSign(x: real)
    ensures x * x >= 0.0
    ensures x * x == 0.0 <==> x == 0.0
  {
    if x >= 0.0 {
      NonNegativeProduct(x, x);
    } else {
      NonNegativeProduct(-x, -x);
      NegateBoth(x, x);
    }
  }

  lemma ScaleUp(k: real, a: real, b: real)
    requires k > 0.0 && a < b
    ensures k * a < k * b
  {
    Distribute(k, b, a);
    PositiveProduct(k, b - a);
  }

  lemma ScaleWeakly(k: real, a: real, b: real)
    requires k >= 0.0 && a <= b
    ensures k * a <= k * b
  {
    Distribute(k, b, a);
    NonNegativeProduct(k, b - a);
  }

  lemma SquareGrows(d: real, n: real)
    requires 0.0 <= d < n
    ensures d * d < n * n
  {
    calc {
      d * d;
    <=  { ScaleWeakly(d, d, n); }
      d * n;
    ==
      n * d;
    <  { ScaleUp(n, d, n); }
      n * n;
    }
  }

  /** Square roots keep the order: `|n|` is at most `d` when `n` squared is at most `d` squared. */
  lemma SquareOrder(n: real, d: real)
    requires d >= 0.0 && n * n <= d * d
    ensures -d <= n <= d
  {
    if n > d { SquareGrows(d, n); }
    if -n > d {
      SquareGrows(d, -n);
      NegateBoth(n, n);
    }
  }

  lemma EqualSquares(x: real, y: real)
    requires x >= 0.0 && y >= 0.0 && x * x == y * y
    ensures x == y
  {
    if x < y { SquareGrows(x, y); }
    if y < x { SquareGrows(y, x); }
  }

  lemma Distribute(k: real, a: real, b: real)
    ensures k * (a + b) == k * a + k * b
    ensures k * (a - b) == k * a - k * b
  {
  }

  lemma ScaleKeepsOrder(k: real, a: real, b: real)
    requires k > 0.0
    ensures a < b <==> k * a < k * b
    ensures a <= b <==> k * a <= k * b
  {
    if a < b { ScaleUp(k, a, b); }
    if b < a { ScaleUp(k, b, a); }
  }

  lemma QuotientRange(n: real, d: real)
    requires d > 0.0 && -d <= n <= d
    ensures -1.0 <= n / d <= 1.0
    ensures n / d == 1.0 <==> n == d
    ensures n / d == -1.0 <==> n == -d
  {
    QuotientTimes(n, d);
    ScaleKeepsOrder(d, n / d, 1.0);
    ScaleKeepsOrder(d, 1.0, n / d);
    ScaleKeepsOrder(d, n / d, -1.0);
    ScaleKeepsOrder(d, -1.0, n / d);
  }

  lemma QuotientTimes(n: real, d: real)
    requires d != 0.0
    ensures d * (n / d) == n
  {
  }

  lemma CancelFactor(k: real, n: real, d: real)
    requires k != 0.0 && d != 0.0
    ensures k * d != 0.0 && (k * n) / (k * d) == n / d
  {
    var q := n / d;
    QuotientTimes(n, d);
    NonZeroProduct(k, d);
    Associate(k, d, q);
    QuotientUnique(k * n, k * d, q);
  }

  lemma NonZeroProduct(x: real, y: real)
    requires x != 0.0 && y != 0.0
    ensures x * y != 0.0
  {
    var a, b := if x < 0.0 then -x else x, if y < 0.0 then -y else y;
    PositiveProduct(a, b);
    NegateBoth(x, y);
    NegateOne(x, y);
    NegateOne(y, x);
  }

  lemma Associate(a: real, b: real, c: real)
    ensures (a * b) * c == a * (b * c)
  {
  }

  lemma QuotientUnique(n: real, d: real, q: real)
    requires d != 0.0 && d * q == n
    ensures n / d == q
  {
    var other := n / d;
    QuotientTimes(n, d);
    Distribute(d, other, q);
    var difference := other - q;
    if difference != 0.0 { NonZeroProduct(d, difference); }
  }

  lemma QuotientBounds(n: real, d: real, lo: real, hi: real)
    requires d > 0.0 && d * lo < n < d * hi
    ensures lo < n / d < hi
  {
    var q := n / d;
    QuotientTimes(n, d);
    if q <= lo { ScaleWeakly(d, q, lo); }
    if hi <= q { ScaleWeakly(d, hi, q); }
  }
}
