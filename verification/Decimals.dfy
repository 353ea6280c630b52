/** Decimal numbers as text. */
module Decimals {
  import opened Unicode

  const MAX_SAFE_INTEGER := 9007199254740991

  predicate IsDigit(u: CodeUnit) { 0x30 <= u <= 0x39 }

  /** The decimal number of the first `n` digits. */
  function Decimal(s: Text, n: nat): nat
    requires n <= |s| && forall i :: 0 <= i < n ==> IsDigit(s[i])
  {
    if n == 0 then 0
    else
      assert IsDigit(s[n - 1]);
      Decimal(s, n - 1) * 10 + (s[n - 1] as int - 0x30)
  }

  /** `String(n)` of a natural number. */
  function Digits(n: nat): (digits: Text)
    ensures digits != [] && forall i :: 0 <= i < |digits| ==> 0x30 <= digits[i] <= 0x39
  {
    if n < 10 then [0x30 + n] else Digits(n / 10) + [0x30 + n % 10]
  }

  lemma {:induction false} DecimalOfPrefix(s: Text, x: Text, n: nat)
    requires n <= |s| && forall i :: 0 <= i < n ==> IsDigit(s[i])
    ensures forall i :: 0 <= i < n ==> IsDigit((s + x)[i])
    ensures Decimal(s + x, n) == Decimal(s, n)
  {
    if n == 0 {
    } else {
      DecimalOfPrefix(s, x, n - 1);
    }
  }

  lemma {:induction false} DigitsReadBack(n: nat)
    ensures forall i :: 0 <= i < |Digits(n)| ==> IsDigit(Digits(n)[i])
    ensures Decimal(Digits(n), |Digits(n)|) == n
  {
    if n < 10 {
      assert Decimal(Digits(n), 0) == 0;
    } else {
      DigitsReadBack(n / 10);
      var front := Digits(n / 10);
      DecimalOfPrefix(front, [0x30 + n % 10], |front|);
    }
  }

  /** Digits without a leading zero. */
  predicate IsNumeral(s: Text) {
    s != [] && (forall i :: 0 <= i < |s| ==> IsDigit(s[i])) && (|s| > 1 ==> s[0] != 0x30)
  }

  /** The text of a number is the only numeral that reads as it. */
  lemma {:induction false} DigitsAreTheNumeral(n: nat)
    ensures IsNumeral(Digits(n)) && Decimal(Digits(n), |Digits(n)|) == n
    ensures n > 0 ==> Digits(n)[0] != 0x30
  {
    DigitsReadBack(n);
    if n >= 10 {
      DigitsAreTheNumeral(n / 10);
    }
  }

  lemma {:induction false} NumeralIsDigits(s: Text)
    requires IsNumeral(s)
    ensures Digits(Decimal(s, |s|)) == s
    decreases |s|
  {
    var n := |s| - 1;
    if n == 0 {
      assert Decimal(s, 0) == 0;
    } else {
      var front := s[..n];
      assert front + s[n..] == s && IsDigit(s[n]);
      DecimalOfPrefix(front, s[n..], n);
      NumeralIsPositive(front, n);
      NumeralIsDigits(front);
      assert s == front + [s[n]];
    }
  }

  lemma {:induction false} NumeralIsPositive(s: Text, n: nat)
    requires 1 <= n <= |s| && (forall i :: 0 <= i < n ==> IsDigit(s[i])) && s[0] != 0x30
    ensures Decimal(s, n) > 0
  {
    assert IsDigit(s[n - 1]);
    if n > 1 {
      NumeralIsPositive(s, n - 1);
    } else {
      assert Decimal(s, 0) == 0;
    }
  }
}
