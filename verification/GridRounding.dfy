/** Rounding exact values to an exact positive grid: the four integer rounders and `quantize`. */
module GridRounding {
  import opened Prelude
  import opened RealArithmetic
  import opened Rationals

  datatype RoundingMode = Floor | Ceil | Truncate | HalfEven

  datatype NumericError = NonPositiveQuantum | NegativeRoot | NegativeScale | NotDecimalText | NonTerminating
    | ZeroDivisor

  function FloorInteger(x: Fraction): int {
    x.num / x.den
  }

  function CeilInteger(x: Fraction): int {
    -((-x.num) / x.den)
  }

  function TruncInteger(x: Fraction): int {
    if x.num >= 0 then FloorInteger(x) else CeilInteger(x)
  }

  function HalfEvenInteger(x: Fraction): int {
    var floor := FloorInteger(x);
    var doubled := 2 * (x.num - floor * x.den);
    if doubled < x.den then floor
    else if doubled > x.den then floor + 1
    else if floor % 2 == 0 then floor else floor + 1
  }

  function Units(mode: RoundingMode, x: Fraction): int {
    match mode
    case Floor => FloorInteger(x)
    case Ceil => CeilInteger(x)
    case Truncate => TruncInteger(x)
    case HalfEven => HalfEvenInteger(x)
  }

  function Quantize(value: Fraction, quantum: Fraction, mode: RoundingMode): Result<Fraction, NumericError> {
    if quantum.num <= 0 then Failure(NonPositiveQuantum)
    else Success(Mul(FromInt(Units(mode, Div(value, quantum))), quantum))
  }

  // ---------- what each mode promises, said without computing it ----------

  ghost predicate Below(j: int, x: real) {
    j as real <= x
  }

  ghost predicate Above(j: int, x: real) {
    x <= j as real
  }

  function RealAbs(x: real): real {
    if x < 0.0 then -x else x
  }

  ghost function Distance(x: real, j: int): real {
    RealAbs(x - j as real)
  }

  /** Between zero and x, both ends included. */
  ghost predicate TowardZero(j: int, x: real) {
    if x >= 0.0 then 0 <= j && j as real <= x else j <= 0 && x <= j as real
  }

  /** The nearest integer; when two are equally near, the even one. */
  ghost predicate NearestEven(x: real, k: int) {
    forall j :: Beats(x, k, j)
  }

  ghost predicate Beats(x: real, k: int, j: int) {
    Distance(x, k) <= Distance(x, j) && (j != k && Distance(x, j) == Distance(x, k) ==> k % 2 == 0)
  }

  ghost predicate RoundsTo(mode: RoundingMode, x: real, k: int) {
    match mode
    case Floor => Below(k, x) && forall j :: Below(j, x) ==> j <= k
    case Ceil => Above(k, x) && forall j :: Above(j, x) ==> k <= j
    case Truncate => TowardZero(k, x) && forall j :: TowardZero(j, x) ==> Abs(j) <= Abs(k)
    case HalfEven => NearestEven(x, k)
  }

  // ---------- correctness of the integer rounders ----------

  lemma FloorBounds(x: Fraction)
    ensures FloorInteger(x) as real <= Val(x) < FloorInteger(x) as real + 1.0
    ensures (x.num - FloorInteger(x) * x.den) as real == (Val(x) - FloorInteger(x) as real) * x.den as real
    ensures FloorInteger(x) == Val(x).Floor
  {
    FloorOfQuotient(x.num, x.den);
  }

  lemma FloorOfQuotient(n: int, d: int)
    requires d > 0
    ensures (n / d) as real <= n as real / d as real < (n / d) as real + 1.0
    ensures (n - n / d * d) as real == (n as real / d as real - (n / d) as real) * d as real
  {
    var k := n / d;
    assert 0 <= n - k * d < d;
    IntProduct(k, d);
    var v := n as real / d as real;
    QuotientTimes(n as real, d as real);
    Distribute(k as real, v, d as real);
    BelowAfterScaling(v - k as real, d as real, 1.0, (n - k * d) as real);
  }

  lemma CeilBounds(x: Fraction)
    ensures CeilInteger(x) as real - 1.0 < Val(x) <= CeilInteger(x) as real
  {
    FloorBounds(Neg(x));
  }

  lemma HalfEvenBounds(x: Fraction)
    ensures var f, k := FloorInteger(x), HalfEvenInteger(x);
            && (k == f || k == f + 1)
            && (k == f ==> Val(x) - f as real <= 0.5)
            && (k == f + 1 ==> Val(x) - f as real >= 0.5)
            && (Val(x) - f as real == 0.5 ==> k % 2 == 0)
  {
    FloorBounds(x);
    HalfProduct(x.num - FloorInteger(x) * x.den, Val(x) - FloorInteger(x) as real, x.den);
  }

  lemma HalfProduct(m: int, r: real, d: int)
    requires d > 0 && m as real == r * d as real
    ensures (2 * m < d <==> r < 0.5) && (2 * m > d <==> r > 0.5)
  {
    Distribute(0.5, r, d as real);
    ProductSign(r - 0.5, d as real, m as real - 0.5 * d as real);
  }

  lemma UnitsAreCorrectlyRounded(mode: RoundingMode, x: Fraction)
    ensures RoundsTo(mode, Val(x), Units(mode, x))
  {
    FloorBounds(x);
    CeilBounds(x);
    HalfEvenBounds(x);
    ValSign(x);
    var v, k := Val(x), Units(mode, x);
    match mode {
      case Floor => FloorRule(v, k);
      case Ceil => CeilRule(v, k);
      case Truncate => TruncateRule(v, k);
      case HalfEven => HalfEvenRule(v, FloorInteger(x), k);
    }
  }

  lemma FloorRule(v: real, k: int)
    requires k as real <= v < k as real + 1.0
    ensures RoundsTo(Floor, v, k)
  {
  }

  lemma CeilRule(v: real, k: int)
    requires k as real - 1.0 < v <= k as real
    ensures RoundsTo(Ceil, v, k)
  {
  }

  lemma TruncateRule(v: real, k: int)
    requires if v >= 0.0 then k as real <= v < k as real + 1.0 else k as real - 1.0 < v <= k as real
    ensures RoundsTo(Truncate, v, k)
  {
  }

  lemma HalfEvenRule(v: real, f: int, k: int)
    requires f as real <= v < f as real + 1.0
    requires k == f || k == f + 1
    requires (k == f ==> v - f as real <= 0.5) && (k == f + 1 ==> v - f as real >= 0.5)
    requires v - f as real == 0.5 ==> k % 2 == 0
    ensures RoundsTo(HalfEven, v, k)
  {
    forall j
      ensures Beats(v, k, j)
    {
      assert Distance(v, k) <= 0.5;
      if j != k {
        assert j < f || j > f + 1 || j + k == 2 * f + 1;
        assert Distance(v, j) >= 0.5;
      }
    }
  }

  /** The rounded integer is determined by the promise alone. */
  lemma RoundsToIsUnique(mode: RoundingMode, x: real, k: int, l: int)
    requires RoundsTo(mode, x, k) && RoundsTo(mode, x, l)
    ensures k == l
  {
    match mode {
      case Floor => assert Below(k, x) && Below(l, x);
      case Ceil => assert Above(k, x) && Above(l, x);
      case Truncate => assert TowardZero(k, x) && TowardZero(l, x);
      case HalfEven =>
        assert Beats(x, k, l) && Beats(x, l, k);
        var m := if k < l then k + 1 else l + 1;
        assert Beats(x, k, m);
    }
  }

  lemma RoundsToIsMonotone(mode: RoundingMode, x: real, y: real, k: int, l: int)
    requires x <= y && RoundsTo(mode, x, k) && RoundsTo(mode, y, l)
    ensures k <= l
  {
    match mode {
      case Floor => assert Below(k, y);
      case Ceil => assert Above(l, x);
      case Truncate =>
        if x >= 0.0 {
          assert TowardZero(k, y);
        } else if y < 0.0 {
          assert TowardZero(l, x);
        }
      case HalfEven =>
        if l < k {
          assert Beats(x, k, l) && Beats(y, l, k);
          assert x == y;
          RoundsToIsUnique(mode, x, k, l);
        }
    }
  }

  // ---------- quantize ----------

  lemma QuantizeIsCorrectlyRounded(value: Fraction, quantum: Fraction, mode: RoundingMode) returns (k: int)
    requires quantum.num > 0
    ensures Val(quantum) > 0.0
    ensures Quantize(value, quantum, mode).Success?
    ensures Val(Quantize(value, quantum, mode).value) == k as real * Val(quantum)
    ensures RoundsTo(mode, Val(value) / Val(quantum), k)
  {
    hide Mul, Div, Val, Units, RoundsTo, FromInt;
    k := Units(mode, Div(value, quantum));
    UnitsAreCorrectlyRounded(mode, Div(value, quantum));
    ValSign(quantum);
    IntVal(k);
  }

  lemma IntVal(k: int)
    ensures Val(FromInt(k)) == k as real
  {
  }

  lemma QuantizeFailsExactly(value: Fraction, quantum: Fraction, mode: RoundingMode)
    ensures Quantize(value, quantum, mode).Failure? <==> Val(quantum) <= 0.0
  {
    ValSign(quantum);
  }

  lemma QuantizeIsMonotone(value: Fraction, other: Fraction, quantum: Fraction, mode: RoundingMode)
    requires quantum.num > 0 && Val(value) <= Val(other)
    ensures Val(Quantize(value, quantum, mode).value) <= Val(Quantize(other, quantum, mode).value)
  {
    hide *;
    var k := QuantizeIsCorrectlyRounded(value, quantum, mode);
    var l := QuantizeIsCorrectlyRounded(other, quantum, mode);
    QuotientOrder(Val(value), Val(other), Val(quantum));
    RoundsToIsMonotone(mode, Val(value) / Val(quantum), Val(other) / Val(quantum), k, l);
    ScaleOrder(k as real, l as real, Val(quantum));
  }

  lemma IntegersRoundToThemselves(mode: RoundingMode, k: int)
    ensures RoundsTo(mode, k as real, k)
  {
    match mode {
      case Floor => FloorRule(k as real, k);
      case Ceil => CeilRule(k as real, k);
      case Truncate => TruncateRule(k as real, k);
      case HalfEven => HalfEvenRule(k as real, k, k);
    }
  }

  /** A value already on the grid is returned unchanged, as the very same reduced pair. */
  lemma QuantizeFixesTheGrid(value: Fraction, quantum: Fraction, mode: RoundingMode, n: int)
    requires quantum.num > 0 && Val(value) == n as real * Val(quantum)
    ensures Quantize(value, quantum, mode) == Success(value)
  {
    hide *;
    var k := QuantizeIsCorrectlyRounded(value, quantum, mode);
    TimesQuotient(n as real, Val(quantum));
    assert Val(value) / Val(quantum) == n as real;
    IntegersRoundToThemselves(mode, n);
    RoundsToIsUnique(mode, n as real, k, n);
    ValInjective(Quantize(value, quantum, mode).value, value);
  }

  lemma QuantizeIsIdempotent(value: Fraction, quantum: Fraction, mode: RoundingMode)
    requires quantum.num > 0
    ensures Quantize(value, quantum, mode).Success?
    ensures Quantize(Quantize(value, quantum, mode).value, quantum, mode) == Quantize(value, quantum, mode)
  {
    hide *;
    var k := QuantizeIsCorrectlyRounded(value, quantum, mode);
    QuantizeFixesTheGrid(Quantize(value, quantum, mode).value, quantum, mode, k);
  }

  function Mirror(mode: RoundingMode): RoundingMode {
    match mode
    case Floor => Ceil
    case Ceil => Floor
    case _ => mode
  }

  lemma RoundsToMirrors(mode: RoundingMode, x: real, k: int)
    requires RoundsTo(mode, x, k)
    ensures RoundsTo(Mirror(mode), -x, -k)
  {
    match mode {
      case Floor =>
        assert !Below(k + 1, x);
        CeilRule(-x, -k);
      case Ceil =>
        assert !Above(k - 1, x);
        FloorRule(-x, -k);
      case Truncate =>
        if x >= 0.0 {
          assert !TowardZero(k + 1, x);
        } else {
          assert !TowardZero(k - 1, x);
        }
        TruncateRule(-x, -k);
      case HalfEven =>
        NearestBounds(x, k);
        var f := (-x).Floor;
        HalfEvenRule(-x, f, -k);
    }
  }

  lemma NearestBounds(x: real, k: int)
    requires NearestEven(x, k)
    ensures -0.5 <= x - k as real <= 0.5
    ensures x - k as real == 0.5 || x - k as real == -0.5 ==> k % 2 == 0
  {
    assert Beats(x, k, k + 1) && Beats(x, k, k - 1);
  }

  /** HALF_EVEN and TRUNCATE are odd; FLOOR and CEIL are each other's mirror image. */
  lemma QuantizeMirrors(value: Fraction, quantum: Fraction, mode: RoundingMode)
    requires quantum.num > 0
    ensures Quantize(value, quantum, mode).Success?
    ensures Quantize(Neg(value), quantum, Mirror(mode)) == Success(Neg(Quantize(value, quantum, mode).value))
  {
    hide *;
    var k := QuantizeIsCorrectlyRounded(value, quantum, mode);
    var l := QuantizeIsCorrectlyRounded(Neg(value), quantum, Mirror(mode));
    var x := Val(value) / Val(quantum);
    RoundsToMirrors(mode, x, k);
    assert Val(Neg(value)) / Val(quantum) == -x;
    RoundsToIsUnique(Mirror(mode), -x, l, -k);
    ValInjective(Quantize(Neg(value), quantum, Mirror(mode)).value, Neg(Quantize(value, quantum, mode).value));
  }

  // ---------- decimal quanta ----------

  function Pow10(n: nat): nat
    ensures Pow10(n) > 0
  {
    if n == 0 then 1 else 10 * Pow10(n - 1)
  }

  function DecimalUnit(scale: nat): Fraction {
    Make(1, Pow10(scale))
  }

  const CAPITAL_SCALE: nat := 12
  const WORKING_SCALE: nat := 36

  function QCapitalFloor(value: Fraction): Fraction {
    DecimalUnitVal(CAPITAL_SCALE);
    Quantize(value, DecimalUnit(CAPITAL_SCALE), Floor).value
  }

  function Q36Working(value: Fraction): Fraction {
    DecimalUnitVal(WORKING_SCALE);
    Quantize(value, DecimalUnit(WORKING_SCALE), HalfEven).value
  }

  lemma DecimalUnitVal(scale: nat)
    ensures DecimalUnit(scale).num > 0
    ensures Val(DecimalUnit(scale)) == 1.0 / Pow10(scale) as real
  {
    UnitVal(Pow10(scale));
  }

  lemma UnitVal(p: nat)
    requires p > 0
    ensures Make(1, p).num > 0
    ensures Val(Make(1, p)) == 1.0 / p as real
  {
    MakeVal(1, p);
    ValSign(Make(1, p));
  }

  /** The same rounding on real numbers, used where prices and quantities are exact values of any kind. */
  function FloorToUnit(x: real, scale: nat): real {
    FloorAt(x, Pow10(scale) as real)
  }

  function FloorAt(x: real, p: real): real
    requires p > 0.0
  {
    (x * p).Floor as real / p
  }

  lemma QCapitalFloorVal(value: Fraction)
    ensures Val(QCapitalFloor(value)) == FloorToUnit(Val(value), CAPITAL_SCALE)
    ensures 0.0 <= Val(value) - Val(QCapitalFloor(value)) < 1.0 / Pow10(CAPITAL_SCALE) as real
  {
    hide Quantize, QCapitalFloor, Val, DecimalUnit, RoundsTo, Pow10, FloorAt;
    DecimalUnitVal(CAPITAL_SCALE);
    var k := QuantizeIsCorrectlyRounded(value, DecimalUnit(CAPITAL_SCALE), Floor);
    QCapitalIsQuantize(value);
    UnitFloor(Val(value), Pow10(CAPITAL_SCALE) as real, k);
  }

  lemma QCapitalIsQuantize(value: Fraction)
    ensures Success(QCapitalFloor(value)) == Quantize(value, DecimalUnit(CAPITAL_SCALE), Floor)
  {
    DecimalUnitVal(CAPITAL_SCALE);
  }

  lemma UnitFloor(x: real, p: real, k: int)
    requires p > 0.0 && RoundsTo(Floor, x / (1.0 / p), k)
    ensures k as real * (1.0 / p) == FloorAt(x, p)
    ensures 0.0 <= x - k as real * (1.0 / p) < 1.0 / p
  {
    UnitQuotient(x, p);
    assert Below((x * p).Floor, x * p);
    assert k == (x * p).Floor;
    FloorAtUnits(x, p, k);
    UnitProduct(k as real, p);
    var u := 1.0 / p;
    QuotientTimes(1.0, p);
    Associate(k as real, u, p);
    Distribute(k as real * u, x, p);
    BelowAfterScaling(x - k as real * u, p, u, x * p - k as real);
  }

  lemma FloorAtUnits(x: real, p: real, k: int)
    requires p > 0.0 && k == (x * p).Floor
    ensures FloorAt(x, p) == k as real / p
  {
    QuotientOrder((x * p).Floor as real, k as real, p);
    QuotientOrder(k as real, (x * p).Floor as real, p);
  }

  lemma UnitProduct(k: real, p: real)
    requires p > 0.0
    ensures k * (1.0 / p) == k / p
  {
    QuotientTimes(1.0, p);
    Associate(k, 1.0 / p, p);
    TimesQuotient(k * (1.0 / p), p);
  }

  lemma UnitQuotient(x: real, p: real)
    requires p > 0.0
    ensures x / (1.0 / p) == x * p
  {
    QuotientTimes(1.0, p);
    Associate(x, p, 1.0 / p);
    ProductSign(1.0 / p, p, 1.0);
    TimesQuotient(x * p, 1.0 / p);
  }

  lemma FloorAtBounds(x: real, p: real)
    requires p > 0.0
    ensures FloorAt(x, p) <= x < FloorAt(x, p) + 1.0 / p
  {
    hide FloorAt;
    var k := (x * p).Floor;
    FloorAtUnits(x, p, k);
    assert FloorAt(x, p) * p == k as real by {
      QuotientTimes(k as real, p);
    }
    ScaleOrder(FloorAt(x, p), x, p);
    QuotientTimes(1.0, p);
    Distribute(FloorAt(x, p), 1.0 / p, p);
    ScaleOrder(FloorAt(x, p) + 1.0 / p, x, p);
  }

  lemma FloorAtMonotone(x: real, y: real, p: real)
    requires p > 0.0 && x <= y
    ensures FloorAt(x, p) <= FloorAt(y, p)
  {
    hide FloorAt;
    var k, l := (x * p).Floor, (y * p).Floor;
    ScaleOrder(x, y, p);
    assert k <= l;
    FloorAtUnits(x, p, k);
    FloorAtUnits(y, p, l);
    QuotientOrder(k as real, l as real, p);
  }

  lemma FloorAtIdempotent(x: real, p: real)
    requires p > 0.0
    ensures FloorAt(FloorAt(x, p), p) == FloorAt(x, p)
  {
    hide FloorAt;
    var k := (x * p).Floor;
    FloorAtUnits(x, p, k);
    QuotientTimes(k as real, p);
    FloorAtUnits(FloorAt(x, p), p, k);
  }

  lemma CapitalFloor(x: real)
    ensures FloorToUnit(x, CAPITAL_SCALE) <= x < FloorToUnit(x, CAPITAL_SCALE) + 1.0 / Pow10(CAPITAL_SCALE) as real
    ensures FloorToUnit(FloorToUnit(x, CAPITAL_SCALE), CAPITAL_SCALE) == FloorToUnit(x, CAPITAL_SCALE)
  {
    hide FloorAt, Pow10;
    FloorAtBounds(x, Pow10(CAPITAL_SCALE) as real);
    FloorAtIdempotent(x, Pow10(CAPITAL_SCALE) as real);
  }

  lemma CapitalFloorMonotone(x: real, y: real)
    requires x <= y
    ensures FloorToUnit(x, CAPITAL_SCALE) <= FloorToUnit(y, CAPITAL_SCALE)
  {
    hide FloorAt, Pow10;
    FloorAtMonotone(x, y, Pow10(CAPITAL_SCALE) as real);
  }

  /** The units of the policy: 10^-12 for capital, 10^-36 for working values. */
  lemma ScalesAreExact()
    ensures Pow10(CAPITAL_SCALE) == 1000000000000
    ensures Pow10(WORKING_SCALE) == 1000000000000000000000000000000000000
  {
    assert Pow10(6) == 1000000;
    assert Pow10(12) == 1000000000000;
    assert Pow10(18) == 1000000000000000000;
    assert Pow10(24) == 1000000000000000000000000;
    assert Pow10(30) == 1000000000000000000000000000000;
  }
}
