/**
  Decimal numerals: `Number.parseInt` applied to a string of ASCII digits, and
  the canonical rendering of a non-negative integer. Arithmetic is exact.
 */
module Decimal {
  import opened CharClasses

  function DigitValue(c: char): (d: nat)
    requires IsDigit(c)
    ensures d < 10
  {
    c as int - '0' as int
  }

  function DigitChar(d: nat): (c: char)
    requires d < 10
    ensures IsDigit(c) && DigitValue(c) == d
  {
    ('0' as int + d) as char
  }

  /** The string of k zeros. */
  function Zeros(k: nat): (r: string)
    ensures |r| == k && forall i :: 0 <= i < k ==> r[i] == '0'
  {
    if k == 0 then [] else Zeros(k - 1) + ['0']
  }

  /** 10 to the power k. */
  function Pow10(k: nat): (p: nat)
    ensures p > 0
  {
    if k == 0 then 1 else 10 * Pow10(k - 1)
  }

  /**
    `Number.parseInt(m)` for a non-empty string m of ASCII digits, the only
    kind of string the formatter hands it: m read as a base-10 numeral,
    leading zeros allowed. No rounding to a double takes place here.
   */
  function ParseInt(s: string): nat
    requires |s| > 0 && AllDigits(s)
    decreases |s|
  {
    if |s| == 1 then DigitValue(s[0])
    else 10 * ParseInt(s[..|s| - 1]) + DigitValue(s[|s| - 1])
  }

  /** A numeral of k digits is below 10^k, and at least 10^(k-1) when it does not start with '0'. */
  lemma {:induction false} ParseIntBounds(s: string)
    requires |s| > 0 && AllDigits(s)
    ensures ParseInt(s) < Pow10(|s|)
    ensures s[0] != '0' ==> Pow10(|s| - 1) <= ParseInt(s)
    decreases |s|
  {
    if |s| > 1 {
      var p := s[..|s| - 1];
      assert p[0] == s[0];
      ParseIntBounds(p);
    }
  }

  /** The shortest decimal numeral of n: digits only, no leading zero except in "0". */
  function DecimalString(n: nat): (r: string)
    ensures |r| > 0 && AllDigits(r)
    decreases n
  {
    if n < 10 then [DigitChar(n)] else DecimalString(n / 10) + [DigitChar(n % 10)]
  }

  predicate IsCanonicalDecimal(s: string) {
    |s| > 0 && AllDigits(s) && (s[0] == '0' ==> |s| == 1)
  }

  lemma {:induction false} DecimalStringIsCanonical(n: nat)
    ensures IsCanonicalDecimal(DecimalString(n))
    ensures n > 0 ==> DecimalString(n)[0] != '0'
    decreases n
  {
    if n >= 10 {
      DecimalStringIsCanonical(n / 10);
    }
  }

  /** Reading back the canonical numeral of n gives n. */
  lemma {:induction false} ParseDecimalString(n: nat)
    ensures ParseInt(DecimalString(n)) == n
    decreases n
  {
    if n >= 10 {
      var s := DecimalString(n);
      assert s[..|s| - 1] == DecimalString(n / 10);
      ParseDecimalString(n / 10);
    }
  }

  lemma {:induction false} ParseIntPositive(s: string)
    requires |s| > 0 && AllDigits(s) && s[0] != '0'
    ensures ParseInt(s) > 0
    decreases |s|
  {
    if |s| > 1 {
      ParseIntPositive(s[..|s| - 1]);
    }
  }

  /** Rendering the value of a canonical numeral gives the numeral back. */
  lemma {:induction false} DecimalStringOfParse(s: string)
    requires IsCanonicalDecimal(s)
    ensures DecimalString(ParseInt(s)) == s
    decreases |s|
  {
    if |s| == 1 {
      assert DigitChar(DigitValue(s[0])) == s[0];
    } else {
      var p := s[..|s| - 1];
      ParseIntPositive(p);
      DecimalStringOfParse(p);
      var n := ParseInt(s);
      assert n / 10 == ParseInt(p) && n % 10 == DigitValue(s[|s| - 1]);
      assert DigitChar(DigitValue(s[|s| - 1])) == s[|s| - 1];
      assert s == p + [s[|s| - 1]];
    }
  }

  lemma {:induction false} ParseIntZeros(k: nat)
    requires k > 0
    ensures ParseInt(Zeros(k)) == 0
    decreases k
  {
    if k > 1 {
      assert Zeros(k)[..k - 1] == Zeros(k - 1);
      ParseIntZeros(k - 1);
    }
  }

  /** `Number.parseInt` ignores leading zeros. */
  lemma {:induction false} ParseIntLeadingZeros(k: nat, s: string)
    requires |s| > 0 && AllDigits(s)
    ensures AllDigits(Zeros(k) + s) && ParseInt(Zeros(k) + s) == ParseInt(s)
    decreases |s|
  {
    var t := Zeros(k) + s;
    assert AllDigits(t) by {
      forall i | 0 <= i < |t| ensures IsDigit(t[i]) {
        if i >= k { assert t[i] == s[i - k]; }
      }
    }
    if k > 0 {
      if |s| == 1 {
        assert t[..|t| - 1] == Zeros(k);
        ParseIntZeros(k);
      } else {
        assert t[..|t| - 1] == Zeros(k) + s[..|s| - 1];
        ParseIntLeadingZeros(k, s[..|s| - 1]);
      }
    } else {
      assert t == s;
    }
  }
}
