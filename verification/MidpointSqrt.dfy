/** `exact_midpoint_sqrt`: the square root of an exact value, rounded half-even to a decimal grid. */
module MidpointSqrt {
  import opened Prelude
  import opened RealArithmetic
  import opened Rationals
  import opened GridRounding

  function Isqrt(n: nat): (k: nat)
    ensures k * k <= n < (k + 1) * (k + 1)
  {
    if n == 0 then 0
    else
      var k := Isqrt(n - 1);
      if (k + 1) * (k + 1) <= n then k + 1 else k
  }

  ghost function SquareTimes(m: int, d: int): int {
    m * m * d
  }

  /** The true root of n / d lies on k's side of the midpoint between j
      and k; on the midpoint itself only if k is even. */
  ghost predicate OnOwnSide(n: int, d: int, k: int, j: int) {
    var m := SquareTimes(j + k, d);
    (j < k ==> m <= 4 * n) && (j > k ==> 4 * n <= m) && (j != k && m == 4 * n ==> k % 2 == 0)
  }

  /** k is the integer nearest to the square root of n / d, ties to even, said without the (irrational) root. */
  ghost predicate NearestRoot(n: int, d: int, k: int) {
    k >= 0 && forall j: nat :: OnOwnSide(n, d, k, j)
  }

  ghost function Radicand(value: Fraction, scale: nat): int {
    value.num * Pow10(scale) * Pow10(scale)
  }

  method ExactMidpointSqrt(value: Fraction, scale: int) returns (r: Result<Fraction, NumericError>)
    ensures value.num < 0 ==> r == Failure(NegativeRoot)
    ensures value.num >= 0 && scale < 0 ==> r == Failure(NegativeScale)
    ensures value.num >= 0 && scale >= 0 ==>
              r.Success?
              && exists k: nat :: NearestRoot(Radicand(value, scale), value.den, k) && r.value == Make(k, Pow10(scale))
  {
    if value.num < 0 {
      return Failure(NegativeRoot);
    }
    if scale < 0 {
      return Failure(NegativeScale);
    }
    var factor := Pow10(scale);
    var numerator := value.num * factor * factor;
    var denominator: int := value.den;
    RadicandSign(value.num, factor);
    var k: int := Isqrt(numerator / denominator);
    CorrectionLoopsNeverRun(numerator, denominator);
    while (k + 1) * (k + 1) * denominator <= numerator
      invariant k >= 0 && k * k * denominator <= numerator
      decreases numerator - k
    {
      SquareGrows(k, denominator);
      k := k + 1;
    }
    while k * k * denominator > numerator
      invariant k >= 0 && (k + 1) * (k + 1) * denominator > numerator
      decreases k
    {
      k := k - 1;
    }
    ghost var root := k;
    var midpointLeft := 4 * numerator;
    var midpointRight := denominator * (2 * k + 1) * (2 * k + 1);
    if midpointLeft > midpointRight {
      k := k + 1;
    } else if midpointLeft == midpointRight && k % 2 != 0 {
      k := k + 1;
    }
    RoundedRoot(numerator, denominator, root, k);
    r := Success(Make(k, factor));
  }

  lemma RadicandSign(n: int, f: nat)
    requires n >= 0
    ensures n * f * f >= 0
  {
  }

  lemma SquareGrows(k: int, d: int)
    requires k >= 0 && d > 0
    ensures (k + 1) * (k + 1) * d > k
  {
    assert (k + 1) * (k + 1) >= k + 1;
    MulSign(d, 1);
    ProductOrder((k + 1) * (k + 1), k + 1, d);
  }

  lemma ProductOrder(a: int, b: int, d: int)
    requires a >= b && d >= 1 && b >= 0
    ensures a * d >= b * d >= b
  {
  }

  /** With `isqrt` of the integer quotient as the starting point, both guards are false at once. */
  lemma CorrectionLoopsNeverRun(n: nat, d: int)
    requires d > 0
    ensures var k := Isqrt(n / d);
            && !((k + 1) * (k + 1) * d <= n)
            && !(k * k * d > n)
  {
    hide Isqrt;
    var q := n / d;
    var k := Isqrt(q);
    assert q * d <= n < (q + 1) * d;
    ScaleInt(k * k, q, d);
    ScaleInt(q + 1, (k + 1) * (k + 1), d);
  }

  lemma ScaleInt(a: int, b: int, d: int)
    requires d > 0
    ensures a <= b <==> a * d <= b * d
  {
    MulSign(d, b - a);
    assert d * (b - a) == b * d - a * d;
  }

  lemma SquareOrder(a: int, b: int)
    requires 0 <= a && 0 <= b
    ensures a <= b <==> a * a <= b * b
  {
    if a <= b { assert a * a <= a * b <= b * b; }
    if b < a { assert b * b < a * a; }
  }

  lemma SquareScaleOrder(a: int, b: int, d: int)
    requires 0 <= a && 0 <= b && d > 0
    ensures a <= b <==> SquareTimes(a, d) <= SquareTimes(b, d)
  {
    SquareOrder(a, b);
    ScaleInt(a * a, b * b, d);
  }

  lemma RoundedRoot(n: int, d: int, root: int, k: int)
    requires d > 0 && root >= 0
    requires root * root * d <= n < (root + 1) * (root + 1) * d
    requires var right := d * (2 * root + 1) * (2 * root + 1);
             k == if 4 * n > right || (4 * n == right && root % 2 != 0) then root + 1 else root
    ensures NearestRoot(n, d, k)
  {
    assert d * (2 * root + 1) * (2 * root + 1) == SquareTimes(2 * root + 1, d);
    Doubled(root, d);
    Doubled(root + 1, d);
    forall j: nat
      ensures OnOwnSide(n, d, k, j)
    {
      RoundedRootBeats(n, d, root, k, j);
    }
  }

  lemma Doubled(m: int, d: int)
    ensures SquareTimes(2 * m, d) == 4 * (m * m * d)
  {
  }

  lemma RoundedRootBeats(n: int, d: int, root: int, k: int, j: nat)
    requires d > 0 && root >= 0
    requires SquareTimes(2 * root, d) <= 4 * n < SquareTimes(2 * (root + 1), d)
    requires var middle := SquareTimes(2 * root + 1, d);
             k == if 4 * n > middle || (4 * n == middle && root % 2 != 0) then root + 1 else root
    ensures OnOwnSide(n, d, k, j)
  {
    hide SquareTimes;
    SquareScaleOrder(j + k, 2 * root, d);
    SquareScaleOrder(2 * root, j + k, d);
    SquareScaleOrder(j + k, 2 * root + 1, d);
    SquareScaleOrder(2 * root + 1, j + k, d);
    SquareScaleOrder(2 * (root + 1), j + k, d);
  }

  lemma NearestRootIsUnique(n: int, d: int, k: int, l: int)
    requires d > 0 && NearestRoot(n, d, k) && NearestRoot(n, d, l)
    ensures k == l
  {
    NearestRootIsMonotone(n, d, n, d, k, l);
    NearestRootIsMonotone(n, d, n, d, l, k);
  }

  lemma NearestRootIsMonotone(n: int, d: int, n': int, d': int, k: int, k': int)
    requires d > 0 && d' > 0 && n * d' <= n' * d
    requires NearestRoot(n, d, k) && NearestRoot(n', d', k')
    ensures k <= k'
  {
    if k' < k {
      assert OnOwnSide(n, d, k, k') && OnOwnSide(n', d', k', k);
      var s := (k + k') * (k + k');
      Sandwich(s, n, d, n', d');
      assert k % 2 == 0 && k' % 2 == 0;
      assert OnOwnSide(n, d, k, k' + 1);
      SquareScaleOrder(k + k' + 1, k + k', d);
    }
  }

  lemma Sandwich(s: int, n: int, d: int, n': int, d': int)
    requires d > 0 && d' > 0 && n * d' <= n' * d
    requires s * d <= 4 * n && 4 * n' <= s * d'
    ensures s * d == 4 * n && 4 * n' == s * d'
  {
    ScaleInt(s * d, 4 * n, d');
    ScaleInt(4 * n', s * d', d);
    assert (s * d) * d' == (s * d') * d;
    ScaleInt(4 * n, s * d, d');
    ScaleInt(s * d', 4 * n', d);
  }

  /** A perfect square of the grid comes back exactly. */
  lemma ExactRootsAreExact(n: int, d: int, k: nat)
    requires d > 0 && n == k * k * d
    ensures NearestRoot(n, d, k)
  {
    forall j: nat
      ensures OnOwnSide(n, d, k, j)
    {
      assert (2 * k) * (2 * k) * d == 4 * n;
      SquareScaleOrder(j + k, 2 * k, d);
      SquareScaleOrder(2 * k, j + k, d);
    }
  }

  /** Whenever a real root exists, the result is that root rounded half-even to the grid. */
  lemma NearestRootRoundsTheRealRoot(value: Fraction, scale: nat, k: int, root: real)
    requires root >= 0.0 && root * root == Val(value)
    requires NearestRoot(Radicand(value, scale), value.den, k)
    ensures RoundsTo(HalfEven, root * Pow10(scale) as real, k)
  {
    var x := root * Pow10(scale) as real;
    ScaledRoot(value.num, value.den, root, Pow10(scale));
    forall j
      ensures Beats(x, k, j)
    {
      RealRootBeats(Radicand(value, scale), value.den, x, k, j);
    }
  }

  lemma RealRootBeats(n: int, d: int, x: real, k: int, j: int)
    requires d > 0 && x >= 0.0 && x * x * d as real == n as real
    requires NearestRoot(n, d, k)
    ensures Beats(x, k, j)
  {
    hide SquareTimes;
    var i: nat := if j < 0 then 0 else j;
    assert OnOwnSide(n, d, k, i);
    MidpointReal(n, d, x, i + k);
    assert Distance(x, k) <= Distance(x, i);
  }

  lemma ScaledRoot(n: int, d: int, root: real, f: nat)
    requires d > 0 && root >= 0.0 && root * root == n as real / d as real
    ensures var x := root * f as real; x >= 0.0 && x * x * d as real == (n * f * f) as real
  {
    QuotientTimes(n as real, d as real);
    IntProduct(n, f);
    IntProduct(n * f, f);
    var x, fr, dr := root * f as real, f as real, d as real;
    calc {
      x * x * dr;
      (root * root) * dr * fr * fr;
      n as real * fr * fr;
    }
  }

  lemma MidpointReal(n: int, d: int, x: real, m: nat)
    requires d > 0 && x >= 0.0 && x * x * d as real == n as real
    ensures SquareTimes(m, d) <= 4 * n <==> m as real <= 2.0 * x
    ensures SquareTimes(m, d) >= 4 * n <==> m as real >= 2.0 * x
  {
    IntProduct(m, m);
    IntProduct(m * m, d);
    var y, z := m as real, 2.0 * x;
    assert z * z == 4.0 * (x * x);
    assert (z * z) * d as real == 4.0 * n as real by {
      Associate(4.0, x * x, d as real);
    }
    ScaleOrder(y * y, z * z, d as real);
    ScaleOrder(z * z, y * y, d as real);
    RealSquareOrder(y, z);
    RealSquareOrder(z, y);
  }

  lemma RealSquareOrder(a: real, b: real)
    requires a >= 0.0 && b >= 0.0
    ensures a <= b <==> a * a <= b * b
  {
    var s := a + b;
    Distribute(a, b, s);
    assert a * s == a * a + a * b && b * s == a * b + b * b;
    if s > 0.0 {
      ProductSign(b - a, s, b * b - a * a);
    }
  }
}
