/** Worked inputs for the formatter: the threshold, words touching other word characters, leading zeros. */
module FormatExamples {
  import opened CharClasses
  import opened Decimal
  import opened UsGrouping
  import opened Format
  import opened FormatProperties

  lemma ParseTwelveThousand()
    ensures ParseInt("12345") == 12345
  {
    assert "12345"[..4] == "1234";
    assert "1234"[..3] == "123";
    assert "123"[..2] == "12";
    assert "12"[..1] == "1";
  }

  lemma GroupTwelveThousand()
    ensures GroupDigits(ParseInt("12345")) == "12,345"
  {
    ParseTwelveThousand();
    assert LastThreeDigits(12345) == "345";
    assert GroupDigits(12) == "12";
  }

  /** A run of five or more digits is replaced by r when r is its grouped value. */
  lemma LongRunBecomes(w: string, r: string)
    requires |w| >= 5 && AllDigits(w) && GroupDigits(ParseInt(w)) == r
    ensures FormatNumbers(w) == r
  {
    LongRunGrouped(w);
  }

  /** The threshold: four digits stay, five digits are grouped. */
  lemma FourDigitsExample()
    ensures FormatNumbers("1234") == "1234"
  {
    ShortRunUnchanged("1234");
  }

  lemma FiveDigitsExample()
    ensures FormatNumbers("12345") == "12,345"
  {
    GroupTwelveThousand();
    LongRunBecomes("12345", "12,345");
  }

  /** Digits glued to a letter or `_` are part of a longer word and are left alone. */
  lemma LetterBeforeExample()
    ensures FormatNumbers("v12345") == "v12345"
  {
    assert !IsDigit("v12345"[0]);
    MixedWordUnchanged("v12345");
  }

  lemma LettersAfterExample()
    ensures FormatNumbers("12345px") == "12345px"
  {
    assert !IsDigit("12345px"[5]);
    MixedWordUnchanged("12345px");
  }

  lemma UnderscoreBeforeExample()
    ensures FormatNumbers("_12345") == "_12345"
  {
    assert !IsDigit("_12345"[0]);
    MixedWordUnchanged("_12345");
  }

  lemma HexLiteralExample()
    ensures FormatNumbers("0x12345") == "0x12345"
  {
    assert !IsDigit("0x12345"[1]);
    MixedWordUnchanged("0x12345");
  }

  /** Leading zeros are dropped by the parse. */
  lemma PaddedNumberExample()
    ensures FormatNumbers("000012345") == "12,345"
  {
    PaddedTwelveThousand();
    GroupTwelveThousand();
    PaddedBecomes(4, "12345", "000012345", "12,345");
  }

  lemma PaddedTwelveThousand()
    ensures Zeros(4) + "12345" == "000012345"
  {
    assert Zeros(4) == "0000";
  }

  /** k zeros in front of d: the value of d, grouped. */
  lemma PaddedBecomes(k: nat, d: string, w: string, r: string)
    requires |d| > 0 && AllDigits(d) && k + |d| >= 5
    requires w == Zeros(k) + d && GroupDigits(ParseInt(d)) == r
    ensures FormatNumbers(w) == r
  {
    LeadingZerosDropped(k, d);
  }

  lemma ZerosExample()
    ensures FormatNumbers("00000") == "0"
  {
    assert Zeros(4) + "0" == "00000";
    PaddedBecomes(4, "0", "00000", "0");
  }
}
