/** Human-readable token amounts. */
module Amounts {
  import opened Decimal

  function Repeat(c: char, n: nat): (s: string)
    ensures |s| == n && forall i :: 0 <= i < n ==> s[i] == c
  {
    seq(n, _ => c)
  }

  function FormatTokenAmount(amount: nat, decimals: nat): string {
    var digits := Numeral(amount);
    if |digits| <= decimals then
      "0." + Repeat('0', decimals - |digits|) + digits
    else
      var point := |digits| - decimals;
      digits[..point] + "." + digits[point..]
  }

  /** `s` is `whole.fraction` with exactly `decimals` fraction digits, and denotes `amount / 10^decimals`. */
  ghost predicate Denotes(s: string, whole: string, fraction: string, amount: nat, decimals: nat) {
    && s == whole + "." + fraction
    && NoLeadingZero(whole)
    && AllDigits(fraction) && |fraction| == decimals
    && AllDigits(whole + fraction) && Value(whole + fraction) == amount
  }

  lemma LeadingZeros(zeros: string, digits: string)
    requires AllDigits(digits) && forall i :: 0 <= i < |zeros| ==> zeros[i] == '0'
    ensures AllDigits(zeros + digits) && Value(zeros + digits) == Value(digits)
  {
    ZerosHaveNoValue(zeros);
    ValueConcat(zeros, digits);
  }

  lemma BelowOneDenotes(amount: nat, decimals: nat) returns (whole: string, fraction: string)
    requires |Numeral(amount)| <= decimals
    ensures Denotes(FormatTokenAmount(amount, decimals), whole, fraction, amount, decimals)
  {
    var digits := Numeral(amount);
    NumeralReadsBack(amount);
    var zeros := Repeat('0', decimals - |digits|);
    whole, fraction := "0", zeros + digits;
    LeadingZeros(zeros, digits);
    LeadingZeros("0", fraction);
    assert FormatTokenAmount(amount, decimals) == whole + "." + fraction;
  }

  lemma FromOneDenotes(amount: nat, decimals: nat) returns (whole: string, fraction: string)
    requires |Numeral(amount)| > decimals
    ensures Denotes(FormatTokenAmount(amount, decimals), whole, fraction, amount, decimals)
  {
    var digits := Numeral(amount);
    NumeralReadsBack(amount);
    var point := |digits| - decimals;
    whole, fraction := digits[..point], digits[point..];
    assert whole + fraction == digits;
  }

  lemma FormatDenotes(amount: nat, decimals: nat) returns (whole: string, fraction: string)
    ensures Denotes(FormatTokenAmount(amount, decimals), whole, fraction, amount, decimals)
  {
    if |Numeral(amount)| <= decimals {
      whole, fraction := BelowOneDenotes(amount, decimals);
    } else {
      whole, fraction := FromOneDenotes(amount, decimals);
    }
  }

  /**
   * The printed amount is exact: without its point it reads as the amount, `decimals` digits follow the
   * point, and the parts are quotient and remainder.
   */
  lemma FormatIsExact(amount: nat, decimals: nat) returns (whole: string, fraction: string)
    ensures Denotes(FormatTokenAmount(amount, decimals), whole, fraction, amount, decimals)
    ensures Value(whole) == amount / Pow10(decimals) && Value(fraction) == amount % Pow10(decimals)
  {
    whole, fraction := FormatDenotes(amount, decimals);
    PartsDivide(FormatTokenAmount(amount, decimals), whole, fraction, amount, decimals);
  }

  lemma PartsDivide(s: string, whole: string, fraction: string, amount: nat, decimals: nat)
    requires Denotes(s, whole, fraction, amount, decimals)
    ensures Value(whole) == amount / Pow10(decimals) && Value(fraction) == amount % Pow10(decimals)
  {
    ValueConcat(whole, fraction);
    ValueBound(fraction);
    DivisionByParts(Value(whole), Pow10(decimals), Value(fraction));
  }

  lemma AtLeastOnce(k: nat, d: nat)
    requires k > 0
    ensures k * d >= d
  {
  }

  lemma SameDivision(q: nat, r: nat, q': nat, r': nat, d: nat)
    requires r < d && r' < d && q * d + r == q' * d + r'
    ensures q == q' && r == r'
  {
    if q < q' {
      AtLeastOnce(q' - q, d);
    } else if q' < q {
      AtLeastOnce(q - q', d);
    }
  }

  lemma DivisionByParts(q: nat, d: nat, r: nat)
    requires r < d
    ensures (q * d + r) / d == q && (q * d + r) % d == r
  {
    var n := q * d + r;
    SameDivision(q, r, n / d, n % d, d);
  }

  /** The formatted string is the only one that denotes the amount. */
  lemma FormatIsUnique(s: string, whole: string, fraction: string, amount: nat, decimals: nat)
    requires Denotes(s, whole, fraction, amount, decimals)
    ensures s == FormatTokenAmount(amount, decimals)
  {
    var w, f := FormatIsExact(amount, decimals);
    PartsDivide(s, whole, fraction, amount, decimals);
    SameLengthSameValue(fraction, f);
    NumeralIsUnique(whole);
    NumeralIsUnique(w);
  }

  /** For fixed decimals, different amounts print differently. */
  lemma FormatInjective(a: nat, b: nat, decimals: nat)
    requires FormatTokenAmount(a, decimals) == FormatTokenAmount(b, decimals)
    ensures a == b
  {
    var w, f := FormatIsExact(a, decimals);
    var w', f' := FormatIsExact(b, decimals);
    var s := FormatTokenAmount(a, decimals);
    assert |w| == |s| - 1 - decimals == |w'|;
    assert w == s[..|w|] && w' == s[..|w|];
    assert f == s[|w| + 1..] && f' == s[|w| + 1..];
  }
}
