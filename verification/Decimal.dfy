/** Decimal numerals: printing a number and reading digits back. */
module Decimal {

  predicate IsDigit(c: char) {
    '0' <= c <= '9'
  }

  predicate AllDigits(s: string) {
    forall i :: 0 <= i < |s| ==> IsDigit(s[i])
  }

  function DigitChar(d: nat): (c: char)
    requires d < 10
    ensures IsDigit(c)
  {
    ('0' as int + d) as char
  }

  function DigitValue(c: char): (d: nat)
    requires IsDigit(c)
    ensures d < 10 && DigitChar(d) == c
  {
    c as int - '0' as int
  }

  /** The usual numeral of `n`, as `to_string` prints it. */
  function Numeral(n: nat): (s: string)
    ensures |s| > 0 && AllDigits(s)
  {
    if n < 10 then [DigitChar(n)] else Numeral(n / 10) + [DigitChar(n % 10)]
  }

  function Value(s: string): nat
    requires AllDigits(s)
  {
    if s == [] then 0 else 10 * Value(s[..|s| - 1]) + DigitValue(s[|s| - 1])
  }

  function Pow10(k: nat): (p: nat)
    ensures p > 0
  {
    if k == 0 then 1 else 10 * Pow10(k - 1)
  }

  /** "0", or digits that do not start with 0. */
  predicate NoLeadingZero(s: string) {
    |s| > 0 && AllDigits(s) && (s[0] == '0' ==> |s| == 1)
  }

  lemma {:induction false} NumeralReadsBack(n: nat)
    ensures Value(Numeral(n)) == n && NoLeadingZero(Numeral(n))
    ensures n > 0 ==> Numeral(n)[0] != '0'
  {
    if n < 10 {
      assert Numeral(n)[..0] == [];
    } else {
      NumeralReadsBack(n / 10);
      assert Numeral(n)[..|Numeral(n)| - 1] == Numeral(n / 10);
    }
  }

  /** The numeral is the only digit string without leading zeros that has its value. */
  lemma {:induction false} NumeralIsUnique(s: string)
    requires NoLeadingZero(s)
    ensures s == Numeral(Value(s))
  {
    var n := |s| - 1;
    if n == 0 {
      assert s[..0] == [];
    } else {
      NumeralIsUnique(s[..n]);
      NumeralReadsBack(Value(s[..n]));
      assert Value(s[..n]) > 0 by {
        if Value(s[..n]) == 0 {
          assert s[..n][0] == s[0];
        }
      }
    }
  }

  lemma {:induction false} ValueBound(s: string)
    requires AllDigits(s)
    ensures Value(s) < Pow10(|s|)
  {
    if s != [] {
      ValueBound(s[..|s| - 1]);
    }
  }

  lemma TimesTen(x: nat, p: nat)
    ensures 10 * (x * p) == x * (10 * p)
  {
  }

  lemma {:induction false} ValueConcat(a: string, b: string)
    requires AllDigits(a) && AllDigits(b)
    ensures AllDigits(a + b) && Value(a + b) == Value(a) * Pow10(|b|) + Value(b)
  {
    if b == [] {
      assert a + b == a;
    } else {
      var n := |b| - 1;
      ValueConcat(a, b[..n]);
      assert (a + b)[..|a + b| - 1] == a + b[..n];
      TimesTen(Value(a), Pow10(n));
    }
  }

  /** Digit strings of one length are told apart by their values. */
  lemma {:induction false} SameLengthSameValue(a: string, b: string)
    requires AllDigits(a) && AllDigits(b) && |a| == |b| && Value(a) == Value(b)
    ensures a == b
  {
    if a != [] {
      var n := |a| - 1;
      assert DigitValue(a[n]) == Value(a) % 10 == DigitValue(b[n]);
      SameLengthSameValue(a[..n], b[..n]);
      assert a == a[..n] + [a[n]] && b == b[..n] + [b[n]];
    }
  }

  lemma {:induction false} ZerosHaveNoValue(zeros: string)
    requires forall i :: 0 <= i < |zeros| ==> zeros[i] == '0'
    ensures AllDigits(zeros) && Value(zeros) == 0
  {
    if zeros != [] {
      ZerosHaveNoValue(zeros[..|zeros| - 1]);
    }
  }

  lemma {:induction false} LongerNumerals(a: nat, b: nat)
    requires a <= b
    ensures |Numeral(a)| <= |Numeral(b)|
    decreases b
  {
    if b >= 10 {
      LongerNumerals(a / 10, b / 10);
    }
  }

}
