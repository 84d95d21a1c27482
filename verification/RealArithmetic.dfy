/** Small facts about products and quotients of reals, kept apart so that each proof states the one it needs. */
module RealArithmetic {

  function Larger(a: real, b: real): real {
    if a >= b then a else b
  }

  function Smaller(a: real, b: real): real {
    if a <= b then a else b
  }

  lemma NonNegativeProduct(a: real, b: real)
    requires a >= 0.0 && b >= 0.0
    ensures a * b >= 0.0
  {
  }

  lemma ProductSign(a: real, d: real, m: real)
    requires d > 0.0 && a * d == m
    ensures (a < 0.0 <==> m < 0.0) && (a > 0.0 <==> m > 0.0)
  {
  }

  lemma Distribute(a: real, u: real, p: real)
    ensures (u - a) * p == u * p - a * p
    ensures (u + a) * p == u * p + a * p
  {
  }

  lemma BelowAfterScaling(a: real, d: real, u: real, m: real)
    requires d > 0.0 && a * d == m && 0.0 <= m < u * d
    ensures 0.0 <= a < u
  {
    ProductSign(a, d, m);
    Distribute(a, u, d);
    ProductSign(u - a, d, u * d - m);
  }

  lemma ScaleOrder(a: real, b: real, d: real)
    requires d > 0.0
    ensures a <= b <==> a * d <= b * d
    ensures a == b <==> a * d == b * d
  {
    Distribute(a, b, d);
    ProductSign(b - a, d, b * d - a * d);
  }

  lemma QuotientOrder(a: real, b: real, d: real)
    requires d > 0.0
    ensures a <= b <==> a / d <= b / d
  {
    ScaleOrder(a / d, b / d, d);
    QuotientTimes(a, d);
    QuotientTimes(b, d);
  }

  lemma QuotientTimes(a: real, d: real)
    requires d != 0.0
    ensures (a / d) * d == a
  {
  }

  lemma TimesQuotient(a: real, d: real)
    requires d != 0.0
    ensures (a * d) / d == a
  {
  }

  lemma Associate(a: real, b: real, c: real)
    ensures (a * b) * c == a * (b * c)
  {
  }

  lemma IntProduct(a: int, b: int)
    ensures (a * b) as real == a as real * b as real
  {
  }
}
