/**
  What the formatter promises about its output: the threshold of five
  digits, words touching letters, digits or `_` left alone, leading zeros
  dropped, the value of every number kept, text outside numbers kept, and
  a second run changing nothing.
 */
module FormatProperties {
  import opened CharClasses
  import opened Decimal
  import opened UsGrouping
  import opened NumberPattern
  import opened Tokens
  import opened Format

  /** Runs of at most four digits are never rewritten. */
  lemma ShortRunUnchanged(w: string)
    requires 0 < |w| < MinDigits && AllDigits(w)
    ensures FormatNumbers(w) == w
  {
    FormatNumbersWord(w);
  }

  /** A run of five or more digits standing alone is rewritten into its grouped value. */
  lemma LongRunGrouped(w: string)
    requires |w| >= MinDigits && AllDigits(w)
    ensures FormatNumbers(w) == GroupDigits(ParseInt(w))
  {
    FormatNumbersWord(w);
  }

  /**
    A word holding a letter or `_` is left alone even when it holds digit
    runs: `\b` does not hold between two word characters.
   */
  lemma MixedWordUnchanged(w: string)
    requires |w| > 0 && AllWordChars(w) && !AllDigits(w)
    ensures FormatNumbers(w) == w
  {
    FormatNumbersWord(w);
  }

  /** Leading zeros do not survive: the match is parsed, then rendered. */
  lemma LeadingZerosDropped(k: nat, d: string)
    requires |d| > 0 && AllDigits(d) && k + |d| >= MinDigits
    ensures FormatNumbers(Zeros(k) + d) == GroupDigits(ParseInt(d))
  {
    ParseIntLeadingZeros(k, d);
    LongRunGrouped(Zeros(k) + d);
  }

  /**
    A number between two non-word characters is replaced in place; the text
    on either side is formatted on its own.
   */
  lemma NumberInPlace(a: string, c1: char, w: string, c2: char, b: string)
    requires !IsWordChar(c1) && !IsWordChar(c2) && IsNumberWord(w)
    ensures FormatNumbers(a + [c1] + w + [c2] + b)
         == FormatNumbers(a) + [c1] + GroupDigits(ParseInt(w)) + [c2] + FormatNumbers(b)
  {
    FormatNumbersSplit(a + [c1] + w, c2, b);
    FormatNumbersSplit(a, c1, w);
    LongRunGrouped(w);
  }

  /** Rewriting a word keeps its numeric value: its digits, commas removed, read back as the same integer. */
  lemma RewriteKeepsValue(w: string)
    requires |w| > 0 && AllDigits(w)
    ensures var r := RemoveCommas(RewriteWord(w)); |r| > 0 && AllDigits(r) && ParseInt(r) == ParseInt(w)
  {
    if IsNumberWord(w) {
      GroupDigitsRoundTrip(ParseInt(w));
    } else {
      RemoveCommasOfDigits(w);
    }
  }

  /** No token is a number word. */
  predicate NoNumberWord(ts: seq<Token>) {
    forall i :: 0 <= i < |ts| ==> !(ts[i].Word? && IsNumberWord(ts[i].text))
  }

  lemma {:induction false} FormatTokensCopies(ts: seq<Token>)
    requires NoNumberWord(ts)
    ensures FormatTokens(ts) == Flatten(ts)
    decreases |ts|
  {
    if ts != [] {
      assert NoNumberWord(ts[1..]) by {
        forall i | 0 <= i < |ts[1..]| ensures !(ts[1..][i].Word? && IsNumberWord(ts[1..][i].text)) {
          assert ts[1..][i] == ts[i + 1];
        }
      }
      FormatTokensCopies(ts[1..]);
      assert !(ts[0].Word? && IsNumberWord(ts[0].text));
    }
  }

  /** Text without a number word is its own formatting: only matched tokens change. */
  lemma NoNumberWordUnchanged(s: string)
    requires NoNumberWord(Tokenize(s))
    ensures FormatNumbers(s) == s
  {
    FormatNumbersByTokens(s);
    FormatTokensCopies(Tokenize(s));
    TokenizeSound(s);
  }

  /** A grouped number is left alone: each group has at most three digits and commas are not word characters. */
  lemma {:induction false} GroupedIsFixed(n: nat)
    ensures FormatNumbers(GroupDigits(n)) == GroupDigits(n)
    decreases n
  {
    if n < 1000 {
      DecimalStringShort(n);
      ShortRunUnchanged(DecimalString(n));
    } else {
      GroupedIsFixed(n / 1000);
      ShortRunUnchanged(LastThreeDigits(n));
      FormatNumbersSplit(GroupDigits(n / 1000), ',', LastThreeDigits(n));
    }
  }

  lemma RewriteWordIsFixed(w: string)
    requires |w| > 0 && AllWordChars(w)
    ensures FormatNumbers(RewriteWord(w)) == RewriteWord(w)
  {
    if IsNumberWord(w) {
      GroupedIsFixed(ParseInt(w));
    } else {
      FormatNumbersWord(w);
    }
  }

  /** A fixed text stays fixed behind a non-word character. */
  lemma PrependOtherIsFixed(c: char, rest: string)
    requires !IsWordChar(c) && FormatNumbers(rest) == rest
    ensures FormatNumbers([c] + rest) == [c] + rest
  {
    assert FormatNumbers([]) == [];
    FormatNumbersSplit([], c, rest);
    assert [] + [c] + rest == [c] + rest;
  }

  lemma {:induction false} FormattedTokensAreFixed(ts: seq<Token>)
    requires WellFormed(ts)
    ensures FormatNumbers(FormatTokens(ts)) == FormatTokens(ts)
    decreases |ts|
  {
    if ts != [] {
      var rest := FormatTokens(ts[1..]);
      FormattedTokensAreFixed(ts[1..]);
      match ts[0]
      case Other(c) =>
        PrependOtherIsFixed(c, rest);
      case Word(w) =>
        RewriteWordIsFixed(w);
        if |ts| > 1 {
          var c := ts[1].c;
          var tail := FormatTokens(ts[2..]);
          assert ts[1..][1..] == ts[2..];
          assert rest == [c] + tail;
          assert WellFormed(ts[2..]);
          FormattedTokensAreFixed(ts[2..]);
          assert RewriteWord(w) + rest == RewriteWord(w) + [c] + tail;
          JoinIsFixed(RewriteWord(w), c, tail);
        } else {
          assert rest == [];
          assert RewriteWord(w) + rest == RewriteWord(w);
        }
    }
  }

  /** Two fixed texts joined by a non-word character give a fixed text. */
  lemma JoinIsFixed(a: string, c: char, b: string)
    requires !IsWordChar(c) && FormatNumbers(a) == a && FormatNumbers(b) == b
    ensures FormatNumbers(a + [c] + b) == a + [c] + b
  {
    FormatNumbersSplit(a, c, b);
  }

  /** Formatting twice is formatting once. */
  lemma FormatNumbersIdempotent(s: string)
    ensures FormatNumbers(FormatNumbers(s)) == FormatNumbers(s)
  {
    FormatNumbersByTokens(s);
    TokenizeSound(s);
    FormattedTokensAreFixed(Tokenize(s));
  }
}
