/** The Fraction printer: it divides the twos and fives out of the denominator and refuses anything that is left. */
module FractionText {
  import opened Prelude
  import opened RealArithmetic
  import opened Rationals
  import opened GridRounding
  import opened Digits
  import opened DecimalText

  function Power(b: nat, e: nat): (p: nat)
    requires b > 0
    ensures p > 0
  {
    if e == 0 then 1 else MulPositive(b, Power(b, e - 1)); b * Power(b, e - 1)
  }

  lemma MulPositive(a: nat, b: nat)
    requires a > 0 && b > 0
    ensures a * b > 0
  {
  }

  /** How often p divides n, and what is left. */
  function Strip(n: nat, p: nat): (r: (nat, nat))
    requires n > 0 && p > 1
    ensures r.1 > 0
  {
    if n % p != 0 then (0, n)
    else
      StripStep(n, p);
      var (count, rest) := Strip(n / p, p);
      (count + 1, rest)
  }

  lemma StripStep(n: nat, p: nat)
    requires n > 0 && p > 1 && n % p == 0
    ensures 0 < n / p < n && n == p * (n / p)
  {
    var q := n / p;
    assert n == p * q;
    MulSign(p, q);
    assert p * q == (p - 2) * q + 2 * q;
    NaturalProduct(p - 2, q);
  }

  lemma NaturalProduct(a: nat, b: nat)
    ensures a * b >= 0
  {
  }

  lemma {:induction false} StripSplits(n: nat, p: nat)
    requires n > 0 && p > 1
    ensures var (count, rest) := Strip(n, p); n == Power(p, count) * rest && rest > 0 && rest % p != 0
  {
    if n % p == 0 {
      StripStep(n, p);
      StripSplits(n / p, p);
      var (count, rest) := Strip(n / p, p);
      assert p * (Power(p, count) * rest) == (p * Power(p, count)) * rest;
    }
  }

  function Max(a: nat, b: nat): (m: nat)
    ensures m >= a && m >= b && (m == a || m == b)
  {
    if a < b then b else a
  }

  function PadLeft(digits: string, width: nat): (padded: string)
    ensures |padded| >= width
  {
    if |digits| >= width then digits else Zeros(width - |digits|) + digits
  }

  function SignText(negative: bool): string {
    if negative then "-" else ""
  }

  /** The numerator over ten to the larger of the two counts. */
  function ScaledUp(numerator: nat, twos: nat, fives: nat): nat {
    var scale := Max(twos, fives);
    numerator * Power(2, scale - twos) * Power(5, scale - fives)
  }

  function ScaledText(negative: bool, scaled: nat, scale: nat): string {
    var digits := NatText(scaled);
    if scale > 0 then
      var padded := PadLeft(digits, scale + 1);
      Trimmed(negative, padded[..|padded| - scale], padded[|padded| - scale..])
    else SignText(negative) + digits
  }

  /** The specification the loops are proved against. */
  function PrintFraction(value: Fraction): Result<string, NumericError> {
    if value.num == 0 then Success("0")
    else
      var (twos, odd) := Strip(value.den, 2);
      StripSplits(value.den, 2);
      var (fives, rest) := Strip(odd, 5);
      if rest != 1 then Failure(NonTerminating)
      else
        Success(ScaledText(value.num < 0, ScaledUp(Abs(value.num), twos, fives), Max(twos, fives)))
  }

  method CanonicalDecimalText(value: Fraction) returns (r: Result<string, NumericError>)
    ensures r == PrintFraction(value)
  {
    hide Power, ScaledUp, ScaledText, Max;
    if value.num == 0 {
      return Success("0");
    }
    StripSplits(value.den, 2);
    var numerator := Abs(value.num);
    var denominator: nat := value.den;
    var twos := 0;
    while denominator % 2 == 0
      invariant denominator > 0
      invariant Strip(value.den, 2) == (twos + Strip(denominator, 2).0, Strip(denominator, 2).1)
      decreases denominator
    {
      StripStep(denominator, 2);
      denominator := denominator / 2;
      twos := twos + 1;
    }
    ghost var odd := denominator;
    var fives := 0;
    while denominator % 5 == 0
      invariant denominator > 0
      invariant Strip(odd, 5) == (fives + Strip(denominator, 5).0, Strip(denominator, 5).1)
      decreases denominator
    {
      StripStep(denominator, 5);
      denominator := denominator / 5;
      fives := fives + 1;
    }
    if denominator != 1 {
      return Failure(NonTerminating);
    }
    r := Success(ScaledText(value.num < 0, ScaledUp(numerator, twos, fives), Max(twos, fives)));
  }

  // ---------- the printed text ----------

  lemma {:induction false} PowerSum(b: nat, m: nat, n: nat)
    requires b > 0
    ensures Power(b, m + n) == Power(b, m) * Power(b, n)
  {
    if m > 0 {
      PowerSum(b, m - 1, n);
      Reassociate(b, Power(b, m - 1), Power(b, n));
    }
  }

  lemma Reassociate(a: int, b: int, c: int)
    ensures a * (b * c) == (a * b) * c
  {
  }

  lemma {:induction false} TenSplits(n: nat)
    ensures Pow10(n) == Power(2, n) * Power(5, n)
  {
    if n > 0 {
      TenSplits(n - 1);
      TwoFive(Power(2, n - 1), Power(5, n - 1));
    }
  }

  lemma TwoFive(a: int, b: int)
    ensures 10 * (a * b) == (2 * a) * (5 * b)
  {
  }

  lemma ScaledNumerator(n: int, den: nat, twos: nat, fives: nat, scale: nat)
    requires den == Power(2, twos) * Power(5, fives) && scale >= twos && scale >= fives
    ensures (n * Power(2, scale - twos) * Power(5, scale - fives)) * den == n * Pow10(scale)
  {
    hide *;
    TenSplits(scale);
    PowerSum(2, twos, scale - twos);
    PowerSum(5, fives, scale - fives);
    Regroup(n, Power(2, twos), Power(2, scale - twos), Power(5, fives), Power(5, scale - fives), den, Power(2, scale),
            Power(5, scale));
  }

  lemma Regroup(n: int, a: int, b: int, c: int, d: int, den: int, p: int, q: int)
    requires den == a * c && p == a * b && q == c * d
    ensures (n * b * d) * den == n * (p * q)
  {
    assert p * q == (a * c) * (b * d);
    assert n * (den * (b * d)) == (n * b * d) * den;
  }

  lemma PaddedDigits(scaled: nat, scale: nat)
    ensures var p := PadLeft(NatText(scaled), scale + 1);
            AllDigits(p) && |p| > scale && NatValue(p) == scaled
            && AllDigits(p[..|p| - scale]) && AllDigits(p[|p| - scale..])
            && p[..|p| - scale] + p[|p| - scale..] == p
  {
    hide NatText, NatValue, AllDigits, Shift;
    var t := NatText(scaled);
    NatTextValue(scaled);
    if |t| < scale + 1 {
      NatValueOfConcatenation(Zeros(scale + 1 - |t|), t);
      NatValueOfZeros(scale + 1 - |t|);
      ShiftOrder(0, 0, |t|);
    }
    var p := PadLeft(t, scale + 1);
    SplitDigits(p, |p| - scale);
  }

  lemma SplitDigits(p: string, k: nat)
    requires AllDigits(p) && k <= |p|
    ensures AllDigits(p[..k]) && AllDigits(p[k..]) && p[..k] + p[k..] == p
  {
  }

  lemma ScaledTextRoundTrip(negative: bool, scaled: nat, scale: nat)
    requires scaled > 0
    ensures NormalForm(ScaledText(negative, scaled, scale))
    ensures ParseDecimalText(ScaledText(negative, scaled, scale))
            == Success(Make(Signed(negative, scaled), Pow10(scale)))
  {
    hide Make, NatValue, NatText, Trimmed, ParseDecimalText, NormalForm, AllDigits;
    if scale > 0 {
      PaddedDigits(scaled, scale);
      var p := PadLeft(NatText(scaled), scale + 1);
      TrimmedIsNormal(negative, p[..|p| - scale], p[|p| - scale..]);
    } else {
      WholeTextIsNormal(negative, scaled);
    }
  }

  lemma WholeTextIsNormal(negative: bool, scaled: nat)
    requires scaled > 0
    ensures NormalForm(SignText(negative) + NatText(scaled))
    ensures ParseDecimalText(SignText(negative) + NatText(scaled)) == Success(Make(Signed(negative, scaled), 1))
  {
    hide Make, ParseDecimalText, NatValue, NatText;
    NatTextValue(scaled);
    var t := NatText(scaled);
    assert SignText(negative) + t == Assemble(negative, t, "");
    assert t + "" == t;
    ParseAssembled(negative, t, "");
    assert NormalParts(negative, t, "");
  }

  /** What is printed is in normal form and parses back to the very same fraction. */
  lemma PrintFractionRoundTrip(value: Fraction)
    requires PrintFraction(value).Success?
    ensures NormalForm(PrintFraction(value).value)
    ensures ParseDecimalText(PrintFraction(value).value) == Success(value)
  {
    hide Make, ParseDecimalText, NormalForm, ScaledText, Power, Strip, Pow10;
    if value.num == 0 {
      ZeroText();
      MakeSelf(value);
      ZeroFraction(value);
    } else {
      StripSplits(value.den, 2);
      var (twos, odd) := Strip(value.den, 2);
      StripSplits(odd, 5);
      var (fives, rest) := Strip(odd, 5);
      var scale := Max(twos, fives);
      var scaled := ScaledUp(Abs(value.num), twos, fives);
      ScaledNumerator(Abs(value.num), value.den, twos, fives, scale);
      PositiveProduct(Abs(value.num), Power(2, scale - twos), Power(5, scale - fives));
      ScaledTextRoundTrip(value.num < 0, scaled, scale);
      SameValue(value, scaled, Pow10(scale));
    }
  }

  lemma PositiveProduct(a: nat, b: nat, c: nat)
    requires a > 0 && b > 0 && c > 0
    ensures a * b * c > 0
  {
    MulPositive(a, b);
    MulPositive(a * b, c);
  }

  lemma ZeroFraction(value: Fraction)
    requires value.num == 0
    ensures value == FromInt(0)
  {
    CanonicalForm(value, FromInt(0));
  }

  lemma SameValue(value: Fraction, scaled: nat, p: nat)
    requires p > 0 && scaled * value.den == Abs(value.num) * p
    ensures Make(Signed(value.num < 0, scaled), p) == value
  {
    hide Make;
    var n, d: int := value.num, value.den;
    var m: int := scaled;
    assert Signed(n < 0, m) * d == n * p by {
      assert (-m) * d == -(m * d) && (-n) * p == -(n * p);
    }
    MakeEqual(Signed(n < 0, m), p, n, d);
    MakeSelf(value);
  }

  // ---------- when printing is refused ----------

  ghost predicate TerminatesAt(value: Fraction, m: int, n: nat) {
    value.num * Pow10(n) == m * value.den
  }

  /** A whole number of some decimal unit. */
  ghost predicate Terminating(value: Fraction) {
    exists m, n :: TerminatesAt(value, m, n)
  }

  ghost predicate IsPrime(p: nat) {
    p > 1 && forall d :: 1 < d < p ==> p % d != 0
  }

  ghost predicate HasOtherPrime(n: nat) {
    exists p: nat :: OtherPrimeFactor(p, n)
  }

  ghost predicate OtherPrimeFactor(p: nat, n: nat) {
    IsPrime(p) && p != 2 && p != 5 && n % p == 0
  }

  /** d and q have no common factor, so d divides q * m only if it divides m. */
  lemma EuclidStep(d: nat, q: nat, m: nat, x: int, y: int)
    requires d > 0 && d * x + q * y == 1 && (q * m) % d == 0
    ensures m % d == 0
  {
    var k := (q * m) / d;
    assert q * m == d * k;
    assert m == d * (m * x + k * y) by {
      assert m * (d * x + q * y) == d * (m * x) + (q * m) * y;
      assert (d * k) * y == d * (k * y);
    }
    MultipleRemainder(d, m * x + k * y);
  }

  lemma MultipleRemainder(d: nat, k: int)
    requires d > 0
    ensures (d * k) % d == 0
  {
    ExactDivision(d, k);
  }

  lemma CoprimeToTwo(d: nat) returns (x: int, y: int)
    requires d % 2 != 0
    ensures d * x + 2 * y == 1
  {
    x, y := 1, -(d / 2);
  }

  lemma CoprimeToFive(d: nat) returns (x: int, y: int)
    requires d % 5 != 0
    ensures d * x + 5 * y == 1
  {
    var q := d / 5;
    match d % 5 {
      case 1 => x, y := 1, -q;
      case 2 => x, y := 3, -(3 * q + 1);
      case 3 => x, y := 2, -(2 * q + 1);
      case _ => x, y := -1, q + 1;
    }
  }

  lemma DropTwo(d: nat, m: nat)
    requires d % 2 != 0 && (2 * m) % d == 0
    ensures m % d == 0
  {
    var x, y := CoprimeToTwo(d);
    EuclidStep(d, 2, m, x, y);
  }

  lemma DropFive(d: nat, m: nat)
    requires d % 5 != 0 && (5 * m) % d == 0
    ensures m % d == 0
  {
    var x, y := CoprimeToFive(d);
    EuclidStep(d, 5, m, x, y);
  }

  lemma {:induction false} CoprimeToTen(d: nat, n: nat)
    requires d % 2 != 0 && d % 5 != 0 && Pow10(n) % d == 0
    ensures d == 1
  {
    if n == 0 {
      UnitDivisor(d);
    } else {
      assert Pow10(n) == 2 * (5 * Pow10(n - 1));
      DropTwo(d, 5 * Pow10(n - 1));
      DropFive(d, Pow10(n - 1));
      CoprimeToTen(d, n - 1);
    }
  }

  lemma UnitDivisor(d: nat)
    requires d > 0 && 1 % d == 0
    ensures d == 1
  {
  }

  lemma DivisorOfDivisor(d: nat, a: nat, n: int)
    requires d > 0 && a > 0 && a % d == 0 && n % a == 0
    ensures n % d == 0
  {
    var k, l := a / d, n / a;
    assert n == a * l && a == d * k;
    assert (d * k) * l == d * (k * l);
    MultipleRemainder(d, k * l);
  }

  lemma RestDivides(den: nat)
    requires den > 0
    ensures var rest := Strip(Strip(den, 2).1, 5).1;
            rest > 0 && den % rest == 0 && rest % 2 != 0 && rest % 5 != 0
  {
    hide *;
    StripSplits(den, 2);
    var (twos, odd) := Strip(den, 2);
    StripSplits(odd, 5);
    var (fives, rest) := Strip(odd, 5);
    MultipleRemainder(odd, Power(2, twos));
    MultipleRemainder(rest, Power(5, fives));
    assert odd * Power(2, twos) == Power(2, twos) * odd;
    assert rest * Power(5, fives) == Power(5, fives) * rest;
    DivisorOfDivisor(rest, odd, den);
    OddFactor(rest, Power(5, fives), odd);
  }

  lemma OddFactor(rest: nat, p: nat, odd: nat)
    requires odd == p * rest && odd % 2 != 0
    ensures rest % 2 != 0
  {
    assert odd == 2 * (p * (rest / 2)) + p * (rest % 2);
  }

  /** Printing succeeds exactly on the whole multiples of a decimal unit. */
  lemma PrintsExactlyTerminating(value: Fraction)
    ensures PrintFraction(value).Success? <==> Terminating(value)
  {
    if PrintFraction(value).Success? {
      SuccessTerminates(value);
    }
    if Terminating(value) && value.num != 0 {
      var m, n :| TerminatesAt(value, m, n);
      RestDivides(value.den);
      DenominatorDividesPower(value, m, n);
      var rest := Strip(Strip(value.den, 2).1, 5).1;
      DivisorOfDivisor(rest, value.den, Pow10(n));
      CoprimeToTen(rest, n);
    }
  }

  lemma DenominatorDividesPower(value: Fraction, m: int, n: nat)
    requires TerminatesAt(value, m, n)
    ensures Pow10(n) % value.den == 0
  {
    var x, y :| Bezout(value.num, value.den, x, y);
    var p := Pow10(n);
    assert p == value.den * (m * x + p * y) by {
      assert p * (value.num * x + value.den * y) == (value.num * p) * x + value.den * (p * y);
      assert (m * value.den) * x == value.den * (m * x);
    }
    MultipleRemainder(value.den, m * x + p * y);
  }

  lemma SuccessTerminates(value: Fraction)
    requires PrintFraction(value).Success?
    ensures Terminating(value)
  {
    hide Power, Strip, ScaledText, Pow10;
    if value.num == 0 {
      assert TerminatesAt(value, 0, 0);
    } else {
      StripSplits(value.den, 2);
      var (twos, odd) := Strip(value.den, 2);
      StripSplits(odd, 5);
      var (fives, rest) := Strip(odd, 5);
      var scale := Max(twos, fives);
      ScaledNumerator(value.num, value.den, twos, fives, scale);
      assert TerminatesAt(value, value.num * Power(2, scale - twos) * Power(5, scale - fives), scale);
    }
  }

  /** Printing is refused exactly when the reduced denominator has a prime factor other than 2 and 5. */
  lemma RefusedExactlyOnOtherPrimes(value: Fraction)
    ensures PrintFraction(value).Failure? <==> HasOtherPrime(value.den)
  {
    RestDivides(value.den);
    var rest := Strip(Strip(value.den, 2).1, 5).1;
    if PrintFraction(value).Failure? {
      var p := LeastPrime(rest, 2);
      DivisorOfDivisor(p, rest, value.den);
      assert OtherPrimeFactor(p, value.den);
    }
    if HasOtherPrime(value.den) {
      var p: nat :| OtherPrimeFactor(p, value.den);
      PrimeNotTwoOrFive(p);
      if value.num == 0 {
        ZeroFraction(value);
        UnitDivisor(p);
      } else if PrintFraction(value).Success? {
        SuccessTerminates(value);
        var m, n :| TerminatesAt(value, m, n);
        DenominatorDividesPower(value, m, n);
        DivisorOfDivisor(p, value.den, Pow10(n));
        CoprimeToTen(p, n);
      }
    }
  }

  lemma PrimeNotTwoOrFive(p: nat)
    requires IsPrime(p) && p != 2 && p != 5
    ensures p % 2 != 0 && p % 5 != 0
  {
    if p > 5 {
      assert p % 2 != 0 && p % 5 != 0;
    }
  }

  lemma NotADivisor(d: nat, p: nat, n: nat)
    requires d > 1 && p > 0 && n % p == 0 && n % d != 0
    ensures p % d != 0
  {
    if p % d == 0 {
      DivisorOfDivisor(d, p, n);
    }
  }

  lemma {:induction false} LeastPrime(n: nat, from: nat) returns (p: nat)
    requires n > 1 && 2 <= from <= n && n % 2 != 0 && n % 5 != 0
    requires forall d :: 1 < d < from ==> n % d != 0
    ensures p > 1 && IsPrime(p) && n % p == 0 && p != 2 && p != 5
    decreases n - from
  {
    if n % from == 0 {
      p := from;
      forall d | 1 < d < p
        ensures p % d != 0
      {
        NotADivisor(d, p, n);
      }
    } else {
      assert from < n;
      p := LeastPrime(n, from + 1);
    }
  }

  // ---------- the two printers agree ----------

  lemma PrintersAgree(d: Decimal)
    requires d.Finite?
    ensures PrintFraction(DecimalValue(d)) == PrintDecimal(d)
  {
    PrintDecimalRoundTrip(d);
    DecimalsTerminate(d);
    PrintsExactlyTerminating(DecimalValue(d));
    PrintFractionRoundTrip(DecimalValue(d));
    NormalFormIsUnique(PrintFraction(DecimalValue(d)).value, PrintDecimal(d).value);
  }

  lemma MadeTerminates(m: int, n: nat)
    ensures Terminating(Make(m, Pow10(n)))
  {
    MakeRatio(m, Pow10(n));
    assert TerminatesAt(Make(m, Pow10(n)), m, n);
  }

  lemma DecimalsTerminate(d: Decimal)
    requires d.Finite?
    ensures Terminating(DecimalValue(d))
  {
    hide Make, NatValue, Shift;
    var c := NatValue(DigitText(d.digits));
    MadeTerminates(Signed(d.negative, Shift(c, if d.exponent >= 0 then d.exponent else 0)), 0);
    MadeTerminates(Signed(d.negative, c), if d.exponent >= 0 then 0 else -d.exponent);
  }

  // ---------- arithmetic that keeps values printable ----------

  lemma ParsedTerminates(text: string)
    requires ParseDecimalText(text).Success?
    ensures Terminating(ParseDecimalText(text).value)
  {
    hide Make, NatValue;
    var body := Unsigned(text);
    var dot := DotIndex(body);
    var integer := body[..dot];
    var fraction := if dot < |body| then body[dot + 1..] else "";
    MadeTerminates(Signed(text != "" && text[0] == '-', NatValue(integer + fraction)), |fraction|);
  }

  lemma TerminatingReal(value: Fraction, m: int, n: nat)
    ensures TerminatesAt(value, m, n) <==> Val(value) == m as real / Pow10(n) as real
  {
    EqualQuotients(value.num, value.den, m, Pow10(n));
  }

  lemma PowerOfSum(a: nat, b: nat)
    ensures Pow10(a + b) == Pow10(a) * Pow10(b)
  {
    ShiftShift(1, a, b);
    assert Shift(1, a) == Pow10(a) && Shift(1, a + b) == Pow10(a + b);
  }

  lemma NegTerminates(a: Fraction)
    requires Terminating(a)
    ensures Terminating(Neg(a))
  {
    var m, n :| TerminatesAt(a, m, n);
    assert TerminatesAt(Neg(a), -m, n);
  }

  lemma TerminationWitness(a: Fraction) returns (m: int, n: nat)
    requires Terminating(a)
    ensures Val(a) == m as real / Pow10(n) as real
  {
    m, n :| TerminatesAt(a, m, n);
    TerminatingReal(a, m, n);
  }

  lemma TerminatesFromReal(a: Fraction, m: int, n: nat)
    requires Val(a) == m as real / Pow10(n) as real
    ensures Terminating(a)
  {
    TerminatingReal(a, m, n);
    assert TerminatesAt(a, m, n);
  }

  lemma AddTerminates(a: Fraction, b: Fraction)
    requires Terminating(a) && Terminating(b)
    ensures Terminating(Add(a, b))
  {
    hide *;
    var m, n := TerminationWitness(a);
    var k, l := TerminationWitness(b);
    PowerOfSum(n, l);
    RationalSum(m, Pow10(n), k, Pow10(l));
    TerminatesFromReal(Add(a, b), m * Pow10(l) + k * Pow10(n), n + l);
  }

  lemma RationalSum(m: int, p: int, k: int, q: int)
    requires p != 0 && q != 0
    ensures p * q != 0
    ensures (m * q + k * p) as real / (p * q) as real == m as real / p as real + k as real / q as real
  {
    IntProduct(m, q);
    IntProduct(k, p);
    IntProduct(p, q);
    RealSum(m as real, p as real, k as real, q as real);
  }

  lemma MulTerminates(a: Fraction, b: Fraction)
    requires Terminating(a) && Terminating(b)
    ensures Terminating(Mul(a, b))
  {
    hide *;
    var m, n := TerminationWitness(a);
    var k, l := TerminationWitness(b);
    PowerOfSum(n, l);
    RationalProduct(m, Pow10(n), k, Pow10(l));
    TerminatesFromReal(Mul(a, b), m * k, n + l);
  }

  lemma RationalProduct(m: int, p: int, k: int, q: int)
    requires p != 0 && q != 0
    ensures p * q != 0
    ensures (m * k) as real / (p * q) as real == (m as real / p as real) * (k as real / q as real)
  {
    IntProduct(m, k);
    IntProduct(p, q);
    RealMul(m as real, p as real, k as real, q as real);
  }

  /** Whatever `quantize` returns on a decimal quantum can be printed. */
  lemma QuantizedValuesPrint(value: Fraction, scale: nat, mode: RoundingMode)
    ensures Quantize(value, DecimalUnit(scale), mode).Success?
    ensures PrintFraction(Quantize(value, DecimalUnit(scale), mode).value).Success?
  {
    hide Quantize, PrintFraction, DecimalUnit, Val, Pow10;
    DecimalUnitVal(scale);
    var k := QuantizeIsCorrectlyRounded(value, DecimalUnit(scale), mode);
    var r := Quantize(value, DecimalUnit(scale), mode).value;
    UnitProduct(k as real, Pow10(scale) as real);
    TerminatesFromReal(r, k, scale);
    PrintsExactlyTerminating(r);
  }
}
