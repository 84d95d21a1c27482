/** Decimal digit strings: `str(n)`, `int(text)`, zero padding and zero stripping. */
module Digits {
  import opened Rationals
  import opened GridRounding

  predicate IsDigit(c: char) {
    '0' <= c <= '9'
  }

  predicate AllDigits(s: string) {
    forall i :: 0 <= i < |s| ==> IsDigit(s[i])
  }

  function DigitChar(d: nat): (c: char)
    requires d < 10
    ensures IsDigit(c) && DigitOf(c) == d
  {
    "0123456789"[d]
  }

  function DigitOf(c: char): (d: nat)
    requires IsDigit(c)
    ensures d < 10
  {
    c as int - '0' as int
  }

  function NatText(n: nat): string {
    if n < 10 then [DigitChar(n)] else NatText(n / 10) + [DigitChar(n % 10)]
  }

  function IntText(n: int): string {
    if n < 0 then "-" + NatText(-n) else NatText(n)
  }

  function NatValue(s: string): nat
    requires AllDigits(s)
  {
    if s == "" then 0 else 10 * NatValue(s[..|s| - 1]) + DigitOf(s[|s| - 1])
  }

  function Zeros(n: nat): (s: string)
    ensures |s| == n && AllDigits(s) && (forall i :: 0 <= i < n ==> s[i] == '0')
  {
    if n == 0 then "" else "0" + Zeros(n - 1)
  }

  function DropLeadingZeros(s: string): string {
    if s != "" && s[0] == '0' then DropLeadingZeros(s[1..]) else s
  }

  function DropTrailingZeros(s: string): string {
    if s != "" && s[|s| - 1] == '0' then DropTrailingZeros(s[..|s| - 1]) else s
  }

  /** No leading zero, except in the single digit 0. */
  predicate IntegerPart(s: string) {
    s == "0" || (s != "" && AllDigits(s) && s[0] != '0')
  }

  lemma {:induction false} NatTextValue(n: nat)
    ensures IntegerPart(NatText(n)) && AllDigits(NatText(n)) && NatValue(NatText(n)) == n
    ensures n > 0 ==> NatText(n)[0] != '0'
  {
    if n >= 10 {
      NatTextValue(n / 10);
      var t := NatText(n / 10);
      assert (t + [DigitChar(n % 10)])[..|t|] == t;
    }
  }

  /** `a` followed by `n` zeros. */
  function Shift(a: int, n: nat): int {
    a * Pow10(n)
  }

  lemma ShiftStep(a: int, n: nat)
    ensures Shift(a, 0) == a
    ensures Shift(a, n + 1) == 10 * Shift(a, n) == Shift(10 * a, n)
  {
  }

  lemma ShiftSum(a: int, b: int, n: nat)
    ensures Shift(a + b, n) == Shift(a, n) + Shift(b, n)
    ensures Shift(-a, n) == -Shift(a, n)
  {
  }

  lemma {:induction false} ShiftShift(a: int, m: nat, n: nat)
    ensures Shift(Shift(a, m), n) == Shift(a, m + n)
  {
    hide Shift;
    ShiftStep(a, m);
    if n == 0 {
      ShiftStep(Shift(a, m), 0);
    } else {
      ShiftShift(a, m, n - 1);
      ShiftStep(Shift(a, m), n - 1);
      ShiftStep(a, m + n - 1);
    }
  }

  lemma ShiftOrder(a: int, b: int, n: nat)
    ensures Shift(a, n) == Shift(b, n) <==> a == b
    ensures Shift(a, n) < Shift(b, n) <==> a < b
    ensures Shift(0, n) == 0
  {
    MulSign(Pow10(n), a - b);
    assert Pow10(n) * (a - b) == Shift(a, n) - Shift(b, n);
  }

  lemma ShiftGap(a: int, b: int, n: nat)
    ensures a < b ==> Shift(a, n) + Pow10(n) <= Shift(b, n)
  {
    ShiftOrder(a, b - 1, n);
    ShiftOrder(b - 1, a, n);
    assert Shift(b, n) == Shift(b - 1, n) + Pow10(n);
  }

  lemma {:induction false} NatValueOfConcatenation(a: string, b: string)
    requires AllDigits(a) && AllDigits(b)
    ensures AllDigits(a + b)
    ensures NatValue(a + b) == Shift(NatValue(a), |b|) + NatValue(b)
  {
    hide Shift;
    ShiftStep(NatValue(a), if b == "" then 0 else |b| - 1);
    if b == "" {
      assert a + b == a;
    } else {
      var b' := b[..|b| - 1];
      NatValueOfConcatenation(a, b');
      assert (a + b)[..|a + b| - 1] == a + b';
    }
  }

  lemma {:induction false} NatValueBound(s: string)
    requires AllDigits(s)
    ensures NatValue(s) < Pow10(|s|)
  {
    if s != "" {
      NatValueBound(s[..|s| - 1]);
    }
  }

  lemma {:induction false} NatValueOfZeros(n: nat)
    ensures NatValue(Zeros(n)) == 0
  {
    if n > 0 {
      NatValueOfZeros(n - 1);
      NatValueOfConcatenation("0", Zeros(n - 1));
      ShiftOrder(0, 0, n - 1);
      assert NatValue("0") == 0;
    }
  }

  /** A nonzero first digit puts the value at or above the power of ten of the remaining length. */
  lemma NatValueLowerBound(s: string)
    requires s != "" && AllDigits(s) && s[0] != '0'
    ensures NatValue(s) >= Pow10(|s| - 1)
  {
    assert s == s[..1] + s[1..];
    NatValueOfConcatenation(s[..1], s[1..]);
    assert NatValue(s[..1]) == DigitOf(s[0]) >= 1;
    ShiftGap(0, NatValue(s[..1]), |s| - 1);
    ShiftOrder(0, 0, |s| - 1);
  }

  lemma {:induction false} Pow10Monotone(a: nat, b: nat)
    ensures a <= b ==> Pow10(a) <= Pow10(b)
  {
    if a < b {
      Pow10Monotone(a, b - 1);
    }
  }

  lemma {:induction false} SameLengthSameDigits(s: string, t: string)
    requires AllDigits(s) && AllDigits(t) && |s| == |t| && NatValue(s) == NatValue(t)
    ensures s == t
  {
    if s != "" {
      var n := |s| - 1;
      assert DigitOf(s[n]) == DigitOf(t[n]);
      SameLengthSameDigits(s[..n], t[..n]);
      assert s == s[..n] + [s[n]] && t == t[..n] + [t[n]];
    }
  }

  lemma IntegerPartsAreUnique(s: string, t: string)
    requires IntegerPart(s) && IntegerPart(t) && NatValue(s) == NatValue(t)
    ensures s == t
  {
    assert NatValue("0") == 0;
    IntegerPartLength(s, t);
    IntegerPartLength(t, s);
    SameLengthSameDigits(s, t);
  }

  lemma IntegerPartLength(s: string, t: string)
    requires IntegerPart(s) && IntegerPart(t) && NatValue(s) == NatValue(t)
    ensures |s| <= |t|
  {
    if s != "0" {
      NatValueLowerBound(s);
      NatValueBound(t);
      Pow10Monotone(|t|, |s| - 1);
    }
  }

  lemma {:induction false} LeadingZeros(s: string)
    requires AllDigits(s)
    ensures var t := DropLeadingZeros(s);
            AllDigits(t) && NatValue(t) == NatValue(s) && (t != "" ==> t[0] != '0')
  {
    if s != "" && s[0] == '0' {
      LeadingZeros(s[1..]);
      assert s == "0" + s[1..];
      NatValueOfConcatenation("0", s[1..]);
      ShiftOrder(0, 0, |s| - 1);
      assert NatValue("0") == 0;
    }
  }

  lemma {:induction false} TrailingZeros(s: string)
    requires AllDigits(s)
    ensures var t := DropTrailingZeros(s);
            AllDigits(t) && |t| <= |s| && s == t + Zeros(|s| - |t|) && (t != "" ==> t[|t| - 1] != '0')
  {
    if s != "" && s[|s| - 1] == '0' {
      var s' := s[..|s| - 1];
      TrailingZeros(s');
      var t := DropTrailingZeros(s');
      assert Zeros(|s| - |t|) == Zeros(|s'| - |t|) + "0";
    }
  }
}
