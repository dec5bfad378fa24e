/**
  `new Intl.NumberFormat("en-US").format(n)` for a non-negative integer n: the
  decimal digits of n with a comma before every group of three digits,
  counting from the right.
 */
module UsGrouping {
  import opened CharClasses
  import opened Decimal

  /** The last three decimal digits of n, with leading zeros. */
  function LastThreeDigits(n: nat): (r: string)
    ensures |r| == 3 && AllDigits(r)
  {
    [DigitChar(n / 100 % 10), DigitChar(n / 10 % 10), DigitChar(n % 10)]
  }

  /**
    en-US grouping of n: it has the en-US shape, starts with '0' only for
    n = 0, and deleting its commas gives the canonical numeral of n.
   */
  function GroupDigits(n: nat): (r: string)
    ensures IsUsGrouped(r)
    ensures r[0] == '0' <==> n == 0
    ensures RemoveCommas(r) == DecimalString(n)
    decreases n
  {
    if n < 1000 then
      DecimalStringIsCanonical(n);
      DecimalStringShort(n);
      RemoveCommasOfDigits(DecimalString(n));
      DecimalString(n)
    else
      var g := GroupDigits(n / 1000);
      ShapeExtend(g, LastThreeDigits(n));
      RemoveCommasOfGroup(g, LastThreeDigits(n));
      DecimalStringSplit(n);
      g + [','] + LastThreeDigits(n)
  }

  /** s with every comma deleted. */
  function RemoveCommas(s: string): (r: string)
    ensures |r| <= |s|
    decreases |s|
  {
    if s == [] then []
    else (if s[0] == ',' then [] else [s[0]]) + RemoveCommas(s[1..])
  }

  /**
    The shape of an en-US grouped integer: it starts with a digit, which is a
    zero only in "0"; counting from the right, every fourth character is a
    comma and all others are digits. So the first group holds one to three
    digits and every later group exactly three.
   */
  predicate IsUsGrouped(r: string) {
    && |r| > 0
    && IsDigit(r[0])
    && (r[0] == '0' ==> r == "0")
    && forall i :: 0 <= i < |r| ==>
         if (|r| - 1 - i) % 4 == 3 then r[i] == ',' else IsDigit(r[i])
  }

  lemma {:induction false} DecimalStringShort(n: nat)
    requires n < 1000
    ensures |DecimalString(n)| <= 3
  {
    if n >= 10 {
      assert DecimalString(n) == DecimalString(n / 10) + [DigitChar(n % 10)];
      if n / 10 >= 10 {
        assert DecimalString(n / 10) == DecimalString(n / 100) + [DigitChar(n / 10 % 10)];
      }
    }
  }

  /** Above 999 the canonical numeral splits into that of n / 1000 and the last three digits. */
  lemma {:induction false} DecimalStringSplit(n: nat)
    requires n >= 1000
    ensures DecimalString(n) == DecimalString(n / 1000) + LastThreeDigits(n)
  {
    assert n / 10 / 10 == n / 100;
    assert n / 100 / 10 == n / 1000;
    calc {
      DecimalString(n);
      DecimalString(n / 10) + [DigitChar(n % 10)];
      DecimalString(n / 100) + [DigitChar(n / 10 % 10)] + [DigitChar(n % 10)];
      DecimalString(n / 1000) + [DigitChar(n / 100 % 10)] + [DigitChar(n / 10 % 10)] + [DigitChar(n % 10)];
    }
  }

  lemma {:induction false} RemoveCommasAppend(a: string, b: string)
    ensures RemoveCommas(a + b) == RemoveCommas(a) + RemoveCommas(b)
    decreases |a|
  {
    if a != [] {
      assert (a + b)[1..] == a[1..] + b;
      RemoveCommasAppend(a[1..], b);
    } else {
      assert a + b == b;
    }
  }

  lemma {:induction false} RemoveCommasOfDigits(s: string)
    requires AllDigits(s)
    ensures RemoveCommas(s) == s
    decreases |s|
  {
    if s != [] {
      RemoveCommasOfDigits(s[1..]);
      assert s == [s[0]] + s[1..];
    }
  }

  /** Appending a comma and three digits keeps the en-US shape. */
  lemma ShapeExtend(g: string, t: string)
    requires IsUsGrouped(g) && g[0] != '0' && |t| == 3 && AllDigits(t)
    ensures IsUsGrouped(g + [','] + t)
  {
    var r := g + [','] + t;
    forall i | 0 <= i < |r|
      ensures if (|r| - 1 - i) % 4 == 3 then r[i] == ',' else IsDigit(r[i])
    {
      if i < |g| {
        assert r[i] == g[i];
        assert (|r| - 1 - i) % 4 == (|g| - 1 - i) % 4;
      } else if i > |g| {
        assert r[i] == t[i - |g| - 1];
      }
    }
  }

  /** An en-US grouped string longer than one group ends in a comma and three digits. */
  lemma ShapeSplit(r: string)
    requires IsUsGrouped(r) && |r| > 3
    ensures |r| >= 5 && r[0] != '0'
    ensures r == r[..|r| - 4] + [','] + r[|r| - 3..]
    ensures IsUsGrouped(r[..|r| - 4]) && AllDigits(r[|r| - 3..])
  {
    assert |r| != 4;
    var g := r[..|r| - 4];
    var t := r[|r| - 3..];
    assert (|r| - 1 - (|r| - 4)) % 4 == 3;
    assert r == g + [','] + t;
    forall i | 0 <= i < 3 ensures IsDigit(t[i]) {
      assert t[i] == r[|r| - 3 + i];
      assert (|r| - 1 - (|r| - 3 + i)) % 4 != 3;
    }
    forall i | 0 <= i < |g|
      ensures if (|g| - 1 - i) % 4 == 3 then g[i] == ',' else IsDigit(g[i])
    {
      assert g[i] == r[i];
      assert (|r| - 1 - i) % 4 == (|g| - 1 - i) % 4;
    }
  }

  /** Grouping is a parse-and-render round trip: the digits of the result read back as n. */
  lemma GroupDigitsRoundTrip(n: nat)
    ensures ParseInt(RemoveCommas(GroupDigits(n))) == n
  {
    ParseDecimalString(n);
  }

  /** Below 1000 exactly when the numeral has at most three digits. */
  lemma DecimalStringShortIff(n: nat)
    ensures n < 1000 <==> |DecimalString(n)| <= 3
  {
    if n < 1000 {
      DecimalStringShort(n);
    } else {
      DecimalStringSplit(n);
    }
  }

  lemma RemoveCommasOfGroup(g: string, t: string)
    requires AllDigits(t)
    ensures RemoveCommas(g + [','] + t) == RemoveCommas(g) + t
  {
    RemoveCommasAppend(g + [','], t);
    RemoveCommasAppend(g, [',']);
    assert RemoveCommas([',']) == [] + RemoveCommas([]);
    assert RemoveCommas(g + [',']) == RemoveCommas(g);
    RemoveCommasOfDigits(t);
  }

  lemma UniqueShort(r: string, n: nat)
    requires IsUsGrouped(r) && |r| <= 3 && RemoveCommas(r) == DecimalString(n)
    ensures n < 1000 && r == DecimalString(n)
  {
    assert AllDigits(r) by {
      forall i | 0 <= i < |r| ensures IsDigit(r[i]) {
        assert (|r| - 1 - i) % 4 != 3;
      }
    }
    RemoveCommasOfDigits(r);
    DecimalStringShortIff(n);
  }

  /** The digits of n, split before the last three, when the text before them has a digit. */
  lemma SplitDigits(head: string, t: string, n: nat)
    requires |head| > 0 && |t| == 3 && DecimalString(n) == head + t
    ensures n >= 1000 && head == DecimalString(n / 1000) && t == LastThreeDigits(n)
  {
    DecimalStringShortIff(n);
    DecimalStringSplit(n);
    var d := DecimalString(n);
    assert head == d[..|d| - 3] && t == d[|d| - 3..];
  }

  /**
    The shape and the digits determine the grouped form: a string of the en-US
    shape whose digits are those of n is GroupDigits(n).
   */
  lemma {:induction false} GroupDigitsUnique(r: string, n: nat)
    requires IsUsGrouped(r) && RemoveCommas(r) == DecimalString(n)
    ensures r == GroupDigits(n)
    decreases |r|
  {
    if |r| <= 3 {
      UniqueShort(r, n);
    } else {
      ShapeSplit(r);
      var g := r[..|r| - 4];
      var t := r[|r| - 3..];
      RemoveCommasOfGroup(g, t);
      assert RemoveCommas(g) == [g[0]] + RemoveCommas(g[1..]);
      SplitDigits(RemoveCommas(g), t, n);
      GroupDigitsUnique(g, n / 1000);
      assert GroupDigits(n) == GroupDigits(n / 1000) + [','] + LastThreeDigits(n);
    }
  }
}
