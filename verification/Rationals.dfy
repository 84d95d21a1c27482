/** Python's `fractions.Fraction`: a reduced pair of integers with a positive denominator. */
module Rationals {
  import opened RealArithmetic

  datatype Pair = Pair(num: int, den: int)

  ghost predicate Bezout(n: int, d: int, x: int, y: int) {
    n * x + d * y == 1
  }

  /** No common factor, said with a Bezout certificate. */
  ghost predicate Coprime(n: int, d: int) {
    exists x, y :: Bezout(n, d, x, y)
  }

  ghost predicate Reduced(p: Pair) {
    p.den > 0 && Coprime(p.num, p.den)
  }

  lemma ZeroIsReduced()
    ensures Reduced(Pair(0, 1))
  {
    CoprimeWitness(0, 1, 0, 1);
  }

  lemma CoprimeWitness(n: int, d: int, x: int, y: int)
    requires n * x + d * y == 1
    ensures Coprime(n, d)
  {
    assert Bezout(n, d, x, y);
  }

  type Fraction = p: Pair | Reduced(p) ghost witness (ZeroIsReduced(); Pair(0, 1))

  function Abs(n: int): nat {
    if n < 0 then -n else n
  }

  function Gcd(a: nat, b: nat): nat
    decreases b
  {
    if b == 0 then a else Gcd(b, a % b)
  }

  lemma {:induction false} GcdCertificate(a: nat, b: nat) returns (u: int, v: int, x: int, y: int)
    requires a + b > 0
    ensures Gcd(a, b) > 0
    ensures a == Gcd(a, b) * u && b == Gcd(a, b) * v
    ensures a * x + b * y == Gcd(a, b)
    decreases b
  {
    if b == 0 {
      u, v, x, y := 1, 0, 1, 0;
    } else {
      var u', v', x', y' := GcdCertificate(b, a % b);
      var q := a / b;
      u, v, x, y := q * u' + v', u', y', x' - q * y';
      GcdStep(Gcd(a, b), q, b, a % b, u', v', x', y');
    }
  }

  lemma GcdStep(g: int, q: int, b: int, r: int, u: int, v: int, x: int, y: int)
    requires b == g * u && r == g * v && b * x + r * y == g
    ensures q * b + r == g * (q * u + v)
    ensures (q * b + r) * y + b * (x - q * y) == g
  {
    assert q * b == q * (g * u) == g * (q * u);
    assert b * (x - q * y) == b * x - q * b * y;
  }

  lemma MulSign(g: int, n: int)
    requires g > 0
    ensures (g * n > 0 <==> n > 0) && (g * n < 0 <==> n < 0)
  {
  }

  lemma MulCancel(g: int, a: int, b: int)
    requires g != 0 && g * a == g * b
    ensures a == b
  {
  }

  lemma ExactDivision(g: int, n: int)
    requires g > 0
    ensures (g * n) / g == n
  {
    var q := (g * n) / g;
    assert g * n == g * q + (g * n) % g;
    assert g * (n - q) == (g * n) % g;
    MulSign(g, n - q - 1);
    MulSign(g, n - q);
  }

  function Lowest(n: int, d: int): Fraction
    requires d > 0
  {
    var g := Gcd(Abs(n), d);
    LowestTerms(n, d);
    Pair(n / g, d / g)
  }

  /** `Fraction(n, d)`: the sign goes to the numerator and the common factor is divided out. */
  function Make(n: int, d: int): Fraction
    requires d != 0
  {
    if d > 0 then Lowest(n, d) else Lowest(-n, -d)
  }

  lemma MakeRatio(n: int, d: int)
    requires d != 0
    ensures Make(n, d).num * d == n * Make(n, d).den
  {
    if d > 0 {
      LowestTerms(n, d);
    } else {
      LowestTerms(-n, -d);
      var f := Make(n, d);
      assert f.num * (-d) == (-n) * f.den;
    }
  }

  lemma LowestTerms(n: int, d: int)
    requires d > 0
    ensures var g := Gcd(Abs(n), d);
            g > 0 && Reduced(Pair(n / g, d / g)) && (n / g) * d == n * (d / g)
  {
    var g := Gcd(Abs(n), d);
    var u, v, x, y := GcdCertificate(Abs(n), d);
    if n < 0 {
      u, x := -u, -x;
    }
    assert n == g * u && n * x + d * y == g;
    ExactDivision(g, u);
    ExactDivision(g, v);
    MulSign(g, v);
    CancelFactor(g, u, v, x, y);
    CoprimeWitness(u, v, x, y);
  }

  lemma CancelFactor(g: int, u: int, v: int, x: int, y: int)
    requires g > 0 && (g * u) * x + (g * v) * y == g
    ensures u * x + v * y == 1
    ensures u * (g * v) == (g * u) * v
  {
    assert g * (u * x + v * y) == g * 1;
    MulCancel(g, u * x + v * y, 1);
  }

  lemma DenominatorDivides(f: Fraction, n: int, d: int) returns (k: int)
    requires d > 0 && f.num * d == n * f.den
    ensures d == f.den * k && n == f.num * k && k > 0
  {
    var x, y :| Bezout(f.num, f.den, x, y);
    k := n * x + d * y;
    calc {
      d;
      d * (f.num * x + f.den * y);
      (f.num * d) * x + d * f.den * y;
      (n * f.den) * x + d * f.den * y;
      f.den * k;
    }
    MulSign(f.den, k);
    assert f.den * n == f.den * (f.num * k) by {
      assert n * f.den == f.num * (f.den * k) == f.den * (f.num * k);
    }
    MulCancel(f.den, n, f.num * k);
  }

  /** Two reduced pairs that cross-multiply to the same number are the same pair. */
  lemma CanonicalForm(f: Fraction, g: Fraction)
    requires f.num * g.den == g.num * f.den
    ensures f == g
  {
    var k := DenominatorDivides(f, g.num, g.den);
    var l := DenominatorDivides(g, f.num, f.den);
    assert f.den * 1 == f.den * (k * l) by {
      assert f.den == g.den * l == (f.den * k) * l;
    }
    MulCancel(f.den, 1, k * l);
    UnitFactor(k, l);
  }

  lemma UnitFactor(k: int, l: int)
    requires k > 0 && l > 0 && k * l == 1
    ensures k == 1
  {
    assert (k - 1) * l == 1 - l;
    if k > 1 {
      MulSign(l, k - 1);
      assert false;
    }
  }

  // ---------- the real number a fraction denotes ----------

  ghost function Val(f: Fraction): real {
    f.num as real / f.den as real
  }

  lemma EqualQuotients(n: int, d: int, m: int, e: int)
    requires d != 0 && e != 0
    ensures n * e == m * d <==> n as real / d as real == m as real / e as real
  {
    IntProduct(n, e);
    IntProduct(m, d);
    var p, q, dr, er := n as real / d as real, m as real / e as real, d as real, e as real;
    QuotientTimes(n as real, dr);
    QuotientTimes(m as real, er);
    assert n as real * er == p * (dr * er);
    assert m as real * dr == q * (dr * er);
    CancelReal(p, q, dr, er);
  }

  lemma CancelReal(p: real, q: real, d: real, e: real)
    requires d != 0.0 && e != 0.0
    ensures p * (d * e) == q * (d * e) <==> p == q
  {
    var w := d * e;
    assert w != 0.0 by {
      TimesQuotient(d, e);
    }
    TimesQuotient(p, w);
    TimesQuotient(q, w);
  }

  lemma MakeVal(n: int, d: int)
    requires d != 0
    ensures Val(Make(n, d)) == n as real / d as real
  {
    MakeRatio(n, d);
    EqualQuotients(Make(n, d).num, Make(n, d).den, n, d);
  }

  lemma ValInjective(f: Fraction, g: Fraction)
    requires Val(f) == Val(g)
    ensures f == g
  {
    EqualQuotients(f.num, f.den, g.num, g.den);
    CanonicalForm(f, g);
  }

  lemma MakeEqual(n: int, d: int, m: int, e: int)
    requires d != 0 && e != 0
    ensures Make(n, d) == Make(m, e) <==> n * e == m * d
  {
    MakeVal(n, d);
    MakeVal(m, e);
    EqualQuotients(n, d, m, e);
    if n * e == m * d {
      ValInjective(Make(n, d), Make(m, e));
    }
  }

  lemma MakeSelf(f: Fraction)
    ensures Make(f.num, f.den) == f
  {
    MakeVal(f.num, f.den);
    ValInjective(Make(f.num, f.den), f);
  }

  // ---------- arithmetic ----------

  function FromInt(n: int): (r: Fraction)
    ensures r == Pair(n, 1)
  {
    assert Bezout(n, 1, 0, 1);
    Pair(n, 1)
  }

  function Neg(a: Fraction): (r: Fraction)
    ensures Val(r) == -Val(a)
  {
    NegReduced(a);
    Pair(-a.num, a.den)
  }

  lemma NegReduced(a: Fraction)
    ensures Reduced(Pair(-a.num, a.den))
  {
    var x, y :| Bezout(a.num, a.den, x, y);
    assert Bezout(-a.num, a.den, -x, y);
  }

  function Add(a: Fraction, b: Fraction): (r: Fraction)
    ensures Val(r) == Val(a) + Val(b)
  {
    AddVal(a, b);
    Make(a.num * b.den + b.num * a.den, a.den * b.den)
  }

  lemma AddVal(a: Fraction, b: Fraction)
    ensures a.den * b.den != 0
    ensures Val(Make(a.num * b.den + b.num * a.den, a.den * b.den)) == Val(a) + Val(b)
  {
    MulSign(a.den, b.den);
    MakeVal(a.num * b.den + b.num * a.den, a.den * b.den);
    IntProduct(a.num, b.den);
    IntProduct(b.num, a.den);
    IntProduct(a.den, b.den);
    RealSum(a.num as real, a.den as real, b.num as real, b.den as real);
  }

  lemma RealSum(an: real, ad: real, bn: real, bd: real)
    requires ad != 0.0 && bd != 0.0
    ensures (an * bd + bn * ad) / (ad * bd) == an / ad + bn / bd
  {
    var p, q, w := an / ad, bn / bd, ad * bd;
    assert p * ad == an && q * bd == bn;
    assert an * bd == p * w;
    assert bn * ad == q * w;
    assert an * bd + bn * ad == (p + q) * w;
    TimesQuotient(p + q, w);
  }

  function Mul(a: Fraction, b: Fraction): (r: Fraction)
    ensures Val(r) == Val(a) * Val(b)
  {
    MulVal(a, b);
    Make(a.num * b.num, a.den * b.den)
  }

  lemma MulVal(a: Fraction, b: Fraction)
    ensures a.den * b.den != 0
    ensures Val(Make(a.num * b.num, a.den * b.den)) == Val(a) * Val(b)
  {
    MulSign(a.den, b.den);
    MakeVal(a.num * b.num, a.den * b.den);
    IntProduct(a.num, b.num);
    IntProduct(a.den, b.den);
    RealMul(a.num as real, a.den as real, b.num as real, b.den as real);
  }

  lemma RealMul(an: real, ad: real, bn: real, bd: real)
    requires ad != 0.0 && bd != 0.0
    ensures (an * bn) / (ad * bd) == (an / ad) * (bn / bd)
  {
    var p, q := an / ad, bn / bd;
    assert p * ad == an && q * bd == bn;
    assert an * bn == (p * q) * (ad * bd);
    TimesQuotient(p * q, ad * bd);
  }

  function Div(a: Fraction, b: Fraction): (r: Fraction)
    requires b.num != 0
    ensures Val(b) != 0.0
    ensures Val(r) == Val(a) / Val(b)
  {
    DivVal(a, b);
    Make(a.num * b.den, a.den * b.num)
  }

  lemma DivVal(a: Fraction, b: Fraction)
    requires b.num != 0
    ensures a.den * b.num != 0 && Val(b) != 0.0
    ensures Val(Make(a.num * b.den, a.den * b.num)) == Val(a) / Val(b)
  {
    MulSign(a.den, b.num);
    ValSign(b);
    MakeVal(a.num * b.den, a.den * b.num);
    IntProduct(a.num, b.den);
    IntProduct(a.den, b.num);
    RealRatio(a.num as real, a.den as real, b.num as real, b.den as real);
  }

  lemma RealRatio(an: real, ad: real, bn: real, bd: real)
    requires ad != 0.0 && bd != 0.0 && bn != 0.0
    ensures bn / bd != 0.0 && (an * bd) / (ad * bn) == (an / ad) / (bn / bd)
  {
    var p, q := an / ad, bn / bd;
    assert p * ad == an && q * bd == bn;
    var r, w := p / q, ad * bn;
    assert r * q == p;
    calc {
      r * w;
      r * (ad * (q * bd));
      (r * q) * ad * bd;
      p * ad * bd;
      an * bd;
    }
    TimesQuotient(r, w);
  }

  lemma ValSign(a: Fraction)
    ensures (a.num > 0 <==> Val(a) > 0.0) && (a.num < 0 <==> Val(a) < 0.0)
  {
    var n, d := a.num as real, a.den as real;
    assert n / d * d == n;
  }

  predicate Less(a: Fraction, b: Fraction) {
    a.num * b.den < b.num * a.den
  }

  lemma LessVal(a: Fraction, b: Fraction)
    ensures Less(a, b) <==> Val(a) < Val(b)
  {
    IntProduct(a.num, b.den);
    IntProduct(b.num, a.den);
    var an, ad, bn, bd := a.num as real, a.den as real, b.num as real, b.den as real;
    var p, q := an / ad, bn / bd;
    assert p * ad == an && q * bd == bn;
    assert an * bd == p * (ad * bd) && bn * ad == q * (ad * bd);
    var w := ad * bd;
    assert w > 0.0;
    if p < q { assert (q - p) * w > 0.0; }
    if p >= q { assert (p - q) * w >= 0.0; }
  }
}
