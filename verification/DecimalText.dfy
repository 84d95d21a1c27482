/** Plain decimal text: one parser, two independent printers, and the normal form they share. */
module DecimalText {
  import opened Prelude
  import opened Rationals
  import opened GridRounding
  import opened Digits

  // ---------- the parser ----------

  function Unsigned(s: string): string {
    if s != "" && s[0] == '-' then s[1..] else s
  }

  /** Where `body.partition(".")` cuts. */
  function DotIndex(body: string): (i: nat)
    ensures i <= |body|
  {
    if body == "" || body[0] == '.' then 0 else 1 + DotIndex(body[1..])
  }

  /** The pattern -?(0|[1-9][0-9]*)(\.[0-9]+)? on the whole text. */
  predicate DecimalShape(s: string) {
    var body := Unsigned(s);
    var dot := DotIndex(body);
    IntegerPart(body[..dot]) && (dot < |body| ==> dot + 1 < |body| && AllDigits(body[dot + 1..]))
  }

  function ParseDecimalText(s: string): Result<Fraction, NumericError> {
    if !DecimalShape(s) then Failure(NotDecimalText)
    else
      var body := Unsigned(s);
      var dot := DotIndex(body);
      var integer := body[..dot];
      var fraction := if dot < |body| then body[dot + 1..] else "";
      Success(Scaled(s != "" && s[0] == '-', integer, fraction))
  }

  function Signed(negative: bool, n: int): int {
    if negative then -n else n
  }

  /** The value of sign, integer digits and fraction digits. */
  function Scaled(negative: bool, integer: string, fraction: string): Fraction
    requires AllDigits(integer) && AllDigits(fraction)
  {
    Make(Signed(negative, NatValue(integer + fraction)), Pow10(|fraction|))
  }

  // ---------- assembling text from its parts ----------

  function Assemble(negative: bool, integer: string, fraction: string): string {
    (if negative then "-" else "") + integer + (if fraction == "" then "" else "." + fraction)
  }

  /** No leading zeros, no trailing zeros after the dot, no minus sign on zero. */
  predicate NormalParts(negative: bool, integer: string, fraction: string) {
    IntegerPart(integer) && AllDigits(fraction)
    && (fraction != "" ==> fraction[|fraction| - 1] != '0')
    && !(negative && integer == "0" && fraction == "")
  }

  ghost predicate NormalForm(t: string) {
    exists negative, integer, fraction :: NormalParts(negative, integer, fraction)
      && t == Assemble(negative, integer, fraction)
  }

  lemma {:induction false} DotIndexAfterDigits(integer: string, rest: string)
    requires AllDigits(integer) && (rest != "" ==> rest[0] == '.')
    ensures DotIndex(integer + rest) == |integer|
  {
    if integer == "" {
      assert integer + rest == rest;
    } else {
      assert (integer + rest)[1..] == integer[1..] + rest;
      DotIndexAfterDigits(integer[1..], rest);
    }
  }

  lemma ParseAssembled(negative: bool, integer: string, fraction: string)
    requires IntegerPart(integer) && AllDigits(fraction)
    ensures ParseDecimalText(Assemble(negative, integer, fraction)) == Success(Scaled(negative, integer, fraction))
  {
    var rest := if fraction == "" then "" else "." + fraction;
    var s := Assemble(negative, integer, fraction);
    assert Unsigned(s) == integer + rest by {
      if negative { assert s[1..] == integer + rest; } else { assert s == integer + rest; }
    }
    DotIndexAfterDigits(integer, rest);
    assert (integer + rest)[..|integer|] == integer;
    if fraction != "" {
      assert (integer + rest)[|integer| + 1..] == fraction;
    }
  }

  // ---------- uniqueness of the normal form ----------

  lemma NormalPartsAreUnique(n1: bool, i1: string, f1: string, n2: bool, i2: string, f2: string)
    requires NormalParts(n1, i1, f1) && NormalParts(n2, i2, f2)
    requires Scaled(n1, i1, f1) == Scaled(n2, i2, f2)
    ensures n1 == n2 && i1 == i2 && f1 == f2
  {
    hide NormalParts, NatValue, Scaled, Shift, Make;
    NormalDigits(n1, i1, f1);
    NormalDigits(n2, i2, f2);
    NonZeroWhenNegative(n1, i1, f1);
    NonZeroWhenNegative(n2, i2, f2);
    ScaledEqual(n1, i1, f1, n2, i2, f2);
    SameScale(i1, f1, i2, f2);
    SameScale(i2, f2, i1, f1);
    ShiftOrder(NatValue(i1 + f1), NatValue(i2 + f2), |f1|);
    SameDigits(i1, f1, i2, f2);
  }

  lemma NormalDigits(negative: bool, integer: string, fraction: string)
    requires NormalParts(negative, integer, fraction)
    ensures IntegerPart(integer) && AllDigits(integer) && AllDigits(fraction) && AllDigits(integer + fraction)
    ensures fraction != "" ==> fraction[|fraction| - 1] != '0'
  {
  }

  lemma ScaledEqual(n1: bool, i1: string, f1: string, n2: bool, i2: string, f2: string)
    requires AllDigits(i1) && AllDigits(f1) && AllDigits(i2) && AllDigits(f2)
    requires AllDigits(i1 + f1) && AllDigits(i2 + f2)
    requires n1 ==> NatValue(i1 + f1) > 0
    requires n2 ==> NatValue(i2 + f2) > 0
    requires Scaled(n1, i1, f1) == Scaled(n2, i2, f2)
    ensures n1 == n2 && Shift(NatValue(i1 + f1), |f2|) == Shift(NatValue(i2 + f2), |f1|)
  {
    hide NatValue, Make, Shift;
    MadeEqual(n1, NatValue(i1 + f1), |f1|, n2, NatValue(i2 + f2), |f2|);
  }

  lemma MadeEqual(n1: bool, m1: nat, k1: nat, n2: bool, m2: nat, k2: nat)
    requires (n1 ==> m1 > 0) && (n2 ==> m2 > 0)
    requires Make(Signed(n1, m1), Pow10(k1)) == Make(Signed(n2, m2), Pow10(k2))
    ensures n1 == n2 && Shift(m1, k2) == Shift(m2, k1)
  {
    hide Make, Pow10;
    MakeEqual(Signed(n1, m1), Pow10(k1), Signed(n2, m2), Pow10(k2));
    SameSign(n1, m1, Pow10(k1), n2, m2, Pow10(k2));
  }

  lemma SameDigits(i1: string, f1: string, i2: string, f2: string)
    requires IntegerPart(i1) && IntegerPart(i2) && AllDigits(f1) && AllDigits(f2) && |f1| == |f2|
    requires AllDigits(i1 + f1) && AllDigits(i2 + f2) && NatValue(i1 + f1) == NatValue(i2 + f2)
    ensures i1 == i2 && f1 == f2
  {
    hide NatValue, Pow10, Shift;
    NatValueOfConcatenation(i1, f1);
    NatValueOfConcatenation(i2, f2);
    NatValueBound(f1);
    NatValueBound(f2);
    ShiftGap(NatValue(i1), NatValue(i2), |f1|);
    ShiftGap(NatValue(i2), NatValue(i1), |f1|);
    IntegerPartsAreUnique(i1, i2);
    SameLengthSameDigits(f1, f2);
  }

  lemma NonZeroWhenNegative(negative: bool, integer: string, fraction: string)
    requires NormalParts(negative, integer, fraction)
    ensures negative ==> NatValue(integer + fraction) > 0
  {
    if integer == "0" && fraction != "" {
      var k := |fraction| - 1;
      assert (integer + fraction)[|integer + fraction| - 1] == fraction[k];
      assert DigitOf(fraction[k]) > 0;
    } else if integer != "0" {
      assert (integer + fraction)[0] == integer[0];
      NatValueOfConcatenation(integer, fraction);
      NatValueLowerBound(integer + fraction);
    }
  }

  lemma SameSign(n1: bool, m1: nat, p1: nat, n2: bool, m2: nat, p2: nat)
    requires p1 > 0 && p2 > 0
    requires (n1 ==> m1 > 0) && (n2 ==> m2 > 0)
    requires Signed(n1, m1) * p2 == Signed(n2, m2) * p1
    ensures n1 == n2 && m1 * p2 == m2 * p1
  {
    MulSign(p2, m1);
    MulSign(p1, m2);
    var a: int, b: int := m1, m2;
    assert (-a) * p2 == -(a * p2) && (-b) * p1 == -(b * p1);
  }

  lemma SameScale(i1: string, f1: string, i2: string, f2: string)
    requires AllDigits(i1) && AllDigits(f1) && AllDigits(i2) && AllDigits(f2)
    requires AllDigits(i1 + f1) && AllDigits(i2 + f2)
    requires f2 != "" ==> f2[|f2| - 1] != '0'
    requires Shift(NatValue(i1 + f1), |f2|) == Shift(NatValue(i2 + f2), |f1|)
    ensures |f2| <= |f1|
  {
    hide *;
    if |f1| < |f2| {
      var k := |f2| - |f1| - 1;
      var m1, t := NatValue(i1 + f1), i2 + f2;
      ShiftShift(m1, k + 1, |f1|);
      ShiftOrder(Shift(m1, k + 1), NatValue(t), |f1|);
      ShiftStep(m1, k);
      LastDigit(i2, f2);
      NotTenfold(NatValue(t), Shift(m1, k));
      assert false;
    }
  }

  lemma NotTenfold(v: int, x: int)
    requires v % 10 != 0
    ensures v != 10 * x
  {
  }

  lemma LastDigit(a: string, b: string)
    requires b != "" && AllDigits(a + b) && b[|b| - 1] != '0'
    ensures NatValue(a + b) % 10 != 0
  {
    var t := a + b;
    assert t[|t| - 1] == b[|b| - 1];
  }

  /** Equal normal texts if and only if equal values. */
  lemma NormalFormIsUnique(s: string, t: string)
    requires NormalForm(s) && NormalForm(t)
    ensures ParseDecimalText(s).Success? && ParseDecimalText(t).Success?
    ensures ParseDecimalText(s) == ParseDecimalText(t) <==> s == t
  {
    var n1, i1, f1 :| NormalParts(n1, i1, f1) && s == Assemble(n1, i1, f1);
    var n2, i2, f2 :| NormalParts(n2, i2, f2) && t == Assemble(n2, i2, f2);
    ParseAssembled(n1, i1, f1);
    ParseAssembled(n2, i2, f2);
    if ParseDecimalText(s) == ParseDecimalText(t) {
      NormalPartsAreUnique(n1, i1, f1, n2, i2, f2);
    }
  }

  // ---------- stripping zeros, the last step of both printers ----------

  function WholeDigits(integer: string): string {
    var i := DropLeadingZeros(integer);
    if i == "" then "0" else i
  }

  function Trimmed(negative: bool, integer: string, fraction: string): string {
    Assemble(negative, WholeDigits(integer), DropTrailingZeros(fraction))
  }

  lemma TrimmedIsNormal(negative: bool, integer: string, fraction: string)
    requires AllDigits(integer) && AllDigits(fraction) && NatValue(integer + fraction) > 0
    ensures NormalForm(Trimmed(negative, integer, fraction))
    ensures ParseDecimalText(Trimmed(negative, integer, fraction)) == Success(Scaled(negative, integer, fraction))
  {
    hide *;
    LeadingZeros(integer);
    TrailingZeros(fraction);
    NatValueOfConcatenation(integer, fraction);
    var i, f := WholeDigits(integer), DropTrailingZeros(fraction);
    WholeDigitsValue(integer);
    NatValueOfConcatenation(i, f);
    StrippedValue(integer, fraction, i, f, |fraction| - |f|);
    ParseAssembled(negative, i, f);
    ScaledStripped(negative, integer, fraction, i, f);
    NormalWhenNonZero(negative, i, f, |fraction| - |f|);
    TrimmedForm(negative, integer, fraction);
  }

  lemma TrimmedForm(negative: bool, integer: string, fraction: string)
    ensures Trimmed(negative, integer, fraction)
            == Assemble(negative, WholeDigits(integer), DropTrailingZeros(fraction))
  {
  }

  lemma WholeDigitsValue(integer: string)
    requires AllDigits(integer)
    ensures var i := WholeDigits(integer); IntegerPart(i) && AllDigits(i) && NatValue(i) == NatValue(integer)
  {
    LeadingZeros(integer);
    SmallValues();
  }

  lemma NormalWhenNonZero(negative: bool, i: string, f: string, k: nat)
    requires IntegerPart(i) && AllDigits(f) && (f != "" ==> f[|f| - 1] != '0')
    requires AllDigits(i + f) && Shift(NatValue(i + f), k) > 0
    ensures NormalParts(negative, i, f)
    ensures NormalForm(Assemble(negative, i, f))
  {
    SmallValues();
    ShiftOrder(0, 0, k);
    assert i == "0" && f == "" ==> i + f == "0";
  }

  lemma SmallValues()
    ensures NatValue("0") == 0 && NatValue("") == 0
  {
  }

  lemma StrippedValue(integer: string, fraction: string, i: string, f: string, k: nat)
    requires AllDigits(integer) && AllDigits(fraction) && AllDigits(i) && AllDigits(f)
    requires AllDigits(integer + fraction) && AllDigits(i + f)
    requires NatValue(i) == NatValue(integer) && fraction == f + Zeros(k)
    ensures NatValue(integer + fraction) == Shift(NatValue(i + f), k)
  {
    hide *;
    NatValueOfConcatenation(integer, fraction);
    NatValueOfConcatenation(i, f);
    PaddedValue(fraction, f, k);
    ShiftSum(Shift(NatValue(i), |f|), NatValue(f), k);
    ShiftShift(NatValue(i), |f|, k);
  }

  lemma PaddedValue(fraction: string, f: string, k: nat)
    requires AllDigits(f) && AllDigits(fraction) && fraction == f + Zeros(k)
    ensures NatValue(fraction) == Shift(NatValue(f), k) && |fraction| == |f| + k
  {
    hide *;
    NatValueOfConcatenation(f, Zeros(k));
    NatValueOfZeros(k);
  }

  lemma ScaledStripped(negative: bool, integer: string, fraction: string, i: string, f: string)
    requires AllDigits(integer) && AllDigits(fraction) && AllDigits(i) && AllDigits(f)
    requires AllDigits(integer + fraction) && AllDigits(i + f) && |f| <= |fraction|
    requires NatValue(integer + fraction) == Shift(NatValue(i + f), |fraction| - |f|)
    ensures Scaled(negative, integer, fraction) == Scaled(negative, i, f)
  {
    hide NatValue, Make, Shift, AllDigits;
    ShiftedMake(negative, NatValue(i + f), |f|, |fraction| - |f|);
  }

  lemma ShiftedMake(negative: bool, m: int, n: nat, k: nat)
    ensures Make(Signed(negative, Shift(m, k)), Pow10(n + k)) == Make(Signed(negative, m), Pow10(n))
  {
    hide Make;
    ShiftShift(m, k, n);
    ShiftSum(m, 0, n + k);
    ShiftSum(Shift(m, k), 0, n);
    MakeEqual(Signed(negative, Shift(m, k)), Pow10(n + k), Signed(negative, m), Pow10(n));
  }

  // ---------- the Decimal printer ----------

  type Digit = d: nat | d < 10

  /** `decimal.Decimal`: sign, coefficient digits and exponent, or one of the special values. */
  datatype Decimal = Finite(negative: bool, digits: seq<Digit>, exponent: int) | NotFinite

  function DigitText(digits: seq<Digit>): (s: string)
    ensures |s| == |digits| && AllDigits(s)
  {
    if digits == [] then "" else [DigitChar(digits[0])] + DigitText(digits[1..])
  }

  predicate IsZero(digits: seq<Digit>) {
    forall i :: 0 <= i < |digits| ==> digits[i] == 0
  }

  function PrintDecimal(d: Decimal): Result<string, NumericError> {
    if d.NotFinite? then Failure(NotDecimalText)
    else if IsZero(d.digits) then Success("0")
    else
      var digitText := DigitText(d.digits);
      var splitAt := |digitText| + d.exponent;
      var (integer, fraction) :=
        if d.exponent >= 0 then (digitText + Zeros(d.exponent), "")
        else if splitAt > 0 then (digitText[..splitAt], digitText[splitAt..])
        else ("0", Zeros(-splitAt) + digitText);
      Success(Trimmed(d.negative, integer, fraction))
  }

  /** The number a finite Decimal stands for. */
  function DecimalValue(d: Decimal): Fraction
    requires d.Finite?
  {
    var coefficient := NatValue(DigitText(d.digits));
    if d.exponent >= 0 then Make(Signed(d.negative, Shift(coefficient, d.exponent)), 1)
    else Make(Signed(d.negative, coefficient), Pow10(-d.exponent))
  }

  lemma {:induction false} DigitTextZero(digits: seq<Digit>)
    ensures NatValue(DigitText(digits)) == 0 <==> IsZero(digits)
  {
    if digits != [] {
      var first, rest := [DigitChar(digits[0])], DigitText(digits[1..]);
      DigitTextZero(digits[1..]);
      NatValueOfConcatenation(first, rest);
      assert NatValue(first) == digits[0];
      ShiftOrder(0, digits[0], |rest|);
      assert IsZero(digits) <==> digits[0] == 0 && IsZero(digits[1..]);
    }
  }

  lemma ZeroText()
    ensures NormalForm("0") && ParseDecimalText("0") == Success(FromInt(0))
  {
    assert NormalParts(false, "0", "") && Assemble(false, "0", "") == "0";
    ParseAssembled(false, "0", "");
    assert "0" + "" == "0";
    SmallValues();
    MakeSelf(FromInt(0));
  }

  /** Every finite Decimal prints in normal form, and its text parses back to its value. */
  lemma PrintDecimalRoundTrip(d: Decimal)
    ensures PrintDecimal(d).Success? <==> d.Finite?
    ensures d.Finite? ==>
            NormalForm(PrintDecimal(d).value) && ParseDecimalText(PrintDecimal(d).value) == Success(DecimalValue(d))
  {
    hide NatValue, Pow10, Make, Trimmed, NormalForm, ParseDecimalText, Scaled, Shift;
    if d.Finite? {
      DigitTextZero(d.digits);
      if IsZero(d.digits) {
        ZeroText();
        ZeroValue(if d.exponent >= 0 then 1 else Pow10(-d.exponent));
        ShiftOrder(0, 0, if d.exponent >= 0 then d.exponent else 0);
      } else if d.exponent >= 0 {
        WholeText(d.negative, DigitText(d.digits), d.exponent);
      } else {
        FractionalText(d.negative, DigitText(d.digits), -d.exponent);
      }
    }
  }

  lemma WholeText(negative: bool, t: string, e: nat)
    requires AllDigits(t) && NatValue(t) > 0
    ensures var s := Trimmed(negative, t + Zeros(e), "");
            NormalForm(s) && ParseDecimalText(s) == Success(Make(Signed(negative, Shift(NatValue(t), e)), 1))
  {
    hide NatValue, Make, Trimmed, NormalForm, ParseDecimalText, Shift;
    NatValueOfConcatenation(t, Zeros(e));
    NatValueOfZeros(e);
    var integer := t + Zeros(e);
    assert integer + "" == integer;
    ShiftOrder(0, NatValue(t), e);
    TrimmedIsNormal(negative, integer, "");
  }

  lemma FractionalText(negative: bool, t: string, e: nat)
    requires AllDigits(t) && NatValue(t) > 0 && e > 0
    ensures var k := |t| - e;
            var s := if k > 0 then Trimmed(negative, t[..k], t[k..]) else Trimmed(negative, "0", Zeros(-k) + t);
            NormalForm(s) && ParseDecimalText(s) == Success(Make(Signed(negative, NatValue(t)), Pow10(e)))
  {
    hide NatValue, Make, Trimmed, NormalForm, ParseDecimalText, Shift;
    var k := |t| - e;
    if k > 0 {
      assert t[..k] + t[k..] == t;
      TrimmedIsNormal(negative, t[..k], t[k..]);
    } else {
      var z := Zeros(-k);
      SmallValues();
      NatValueOfZeros(-k);
      NatValueOfConcatenation(z, t);
      NatValueOfConcatenation("0", z + t);
      ShiftOrder(0, 0, |t|);
      ShiftOrder(0, 0, |z + t|);
      TrimmedIsNormal(negative, "0", z + t);
    }
  }

  lemma ZeroValue(p: nat)
    requires p > 0
    ensures Make(0, p) == FromInt(0)
  {
    MakeEqual(0, p, 0, 1);
    MakeSelf(FromInt(0));
  }

  // ---------- what the parser accepts ----------

  /** An optional minus sign, an integer without leading zeros, and an optional dot with at least one digit after it. */
  predicate Spells(s: string, negative: bool, integer: string, fraction: string) {
    IntegerPart(integer) && AllDigits(fraction) && s == Assemble(negative, integer, fraction)
  }

  lemma {:induction false} DotSplits(body: string)
    ensures var dot := DotIndex(body);
            dot < |body| ==> body[dot] == '.' && body == body[..dot] + "." + body[dot + 1..]
  {
    if body != "" && body[0] != '.' {
      DotSplits(body[1..]);
      var k := DotIndex(body[1..]);
      if k < |body[1..]| {
        assert body == [body[0]] + body[1..];
        assert body[..k + 1] == [body[0]] + body[1..][..k];
        assert body[k + 2..] == body[1..][k + 1..];
      }
    }
  }

  lemma ShapeIsSpelled(s: string) returns (negative: bool, integer: string, fraction: string)
    requires DecimalShape(s)
    ensures Spells(s, negative, integer, fraction)
  {
    hide AllDigits;
    var body := Unsigned(s);
    var dot := DotIndex(body);
    DotSplits(body);
    negative, integer := s != "" && s[0] == '-', body[..dot];
    fraction := if dot < |body| then body[dot + 1..] else "";
    if dot == |body| {
      assert body[..dot] == body;
      NoDigits();
    }
    if negative {
      assert s == "-" + body;
    }
  }

  lemma NoDigits()
    ensures AllDigits("")
  {
  }

  /** What a spelling stands for: its digits over a power of ten. */
  ghost function Spelled(negative: bool, integer: string, fraction: string): real
    requires AllDigits(integer) && AllDigits(fraction)
  {
    var digits := NatValue(integer + fraction) as real / Pow10(|fraction|) as real;
    if negative then -digits else digits
  }

  lemma SpelledValue(negative: bool, integer: string, fraction: string)
    requires AllDigits(integer) && AllDigits(fraction)
    ensures Val(Scaled(negative, integer, fraction)) == Spelled(negative, integer, fraction)
  {
    hide Make, NatValue, Pow10, Val;
    MakeVal(Signed(negative, NatValue(integer + fraction)), Pow10(|fraction|));
  }

  /** Exactly the spelled texts are accepted, and each parses to what it stands for. */
  lemma ParsesExactly(s: string)
    ensures ParseDecimalText(s).Success?
            <==> exists negative, integer, fraction :: Spells(s, negative, integer, fraction)
    ensures forall negative, integer, fraction :: Spells(s, negative, integer, fraction) ==>
              Val(ParseDecimalText(s).value) == Spelled(negative, integer, fraction)
  {
    hide Assemble, Scaled, Val, Spelled, DecimalShape;
    if DecimalShape(s) {
      var negative, integer, fraction := ShapeIsSpelled(s);
    }
    forall negative, integer, fraction | Spells(s, negative, integer, fraction)
      ensures ParseDecimalText(s).Success?
      ensures Val(ParseDecimalText(s).value) == Spelled(negative, integer, fraction)
    {
      ParseAssembled(negative, integer, fraction);
      SpelledValue(negative, integer, fraction);
    }
  }
}
