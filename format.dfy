/**
  The text transformation of `format` in scripts/format-numbers.js:
  `content.replace(/\b\d{5,}\b/g, m => numberFormatter.format(Number.parseInt(m)))`.
  FormatNumbers follows the global replace as the regular-expression engine
  runs it, position by position; FormatTokens is the same transformation
  stated on tokens, and FormatNumbersByTokens proves the two agree.
 */
module Format {
  import opened CharClasses
  import opened Decimal
  import opened UsGrouping
  import opened NumberPattern
  import opened Tokens

  /** The replacement callback: parse the matched digits, render them en-US grouped. */
  function Replacement(m: string): string
    requires |m| > 0 && AllDigits(m)
  {
    GroupDigits(ParseInt(m))
  }

  /**
    The replacement has the en-US shape, and its digits, commas removed, read
    back as the value of the match.
   */
  lemma ReplacementKeepsValue(m: string)
    requires |m| > 0 && AllDigits(m)
    ensures IsUsGrouped(Replacement(m))
    ensures var d := RemoveCommas(Replacement(m)); |d| > 0 && AllDigits(d) && ParseInt(d) == ParseInt(m)
  {
    GroupDigitsRoundTrip(ParseInt(m));
  }

  /**
    The global replace from position p on: where the pattern matches at p,
    the match is replaced and the scan resumes at its end; elsewhere the
    character at p is copied and the scan moves one position on. `\b`
    sees the whole of s, including the characters before p.
   */
  function ReplaceFrom(s: string, p: nat): string
    requires p <= |s|
    decreases |s| - p
  {
    if p == |s| then []
    else
      match MatchEnd(s, p)
      case Some(e) => Replacement(s[p..e]) + ReplaceFrom(s, e)
      case None => [s[p]] + ReplaceFrom(s, p + 1)
  }

  /** The formatted text: the global replace run from the start of s. */
  function FormatNumbers(s: string): string {
    ReplaceFrom(s, 0)
  }

  /** A word the pattern matches whole: all digits and at least MinDigits long. */
  predicate IsNumberWord(w: string) {
    |w| >= MinDigits && AllDigits(w)
  }

  function RewriteWord(w: string): string {
    if IsNumberWord(w) then Replacement(w) else w
  }

  /** The transformation on tokens: number words are rewritten, all else is copied. */
  function FormatTokens(ts: seq<Token>): string
    decreases |ts|
  {
    if ts == [] then []
    else
      (match ts[0]
       case Word(w) => RewriteWord(w)
       case Other(c) => [c])
      + FormatTokens(ts[1..])
  }

  lemma {:induction false} FormatTokensAppend(a: seq<Token>, b: seq<Token>)
    ensures FormatTokens(a + b) == FormatTokens(a) + FormatTokens(b)
    decreases |a|
  {
    if a == [] {
      assert a + b == b;
    } else {
      assert (a + b)[1..] == a[1..] + b;
      FormatTokensAppend(a[1..], b);
    }
  }

  /** Where the pattern does not match at j, the character at j is copied. */
  lemma ReplaceCopiesOne(s: string, j: nat)
    requires j < |s| && MatchEnd(s, j).None?
    ensures ReplaceFrom(s, j) == [s[j]] + ReplaceFrom(s, j + 1)
  {
  }

  /** Where the pattern cannot match, the characters are copied unchanged. */
  lemma {:induction false} ReplaceCopies(s: string, j: nat, e: nat)
    requires j <= e <= |s|
    requires forall m :: j <= m < e ==> MatchEnd(s, m).None?
    ensures ReplaceFrom(s, j) == s[j..e] + ReplaceFrom(s, e)
    decreases e - j
  {
    if j < e {
      ReplaceCopies(s, j + 1, e);
      ReplaceCopiesOne(s, j);
      SliceCons(s, j, e, ReplaceFrom(s, e));
    }
  }

  lemma SliceCons(s: string, j: nat, e: nat, t: string)
    requires j < e <= |s|
    ensures [s[j]] + (s[j + 1..e] + t) == s[j..e] + t
  {
    assert s[j..e] == [s[j]] + s[j + 1..e];
  }

  /** p is not strictly inside a run of word characters. */
  predicate AtTokenEdge(s: string, p: nat)
    requires p <= |s|
  {
    !(IsWordAt(s, p - 1) && IsWordAt(s, p))
  }

  /** The token that starts at a word character of s is the run of word characters up to WordEnd. */
  lemma TokenizeAtWord(s: string, p: nat)
    requires p < |s| && IsWordChar(s[p])
    ensures Tokenize(s[p..]) == [Word(s[p..WordEnd(s, p)])] + Tokenize(s[WordEnd(s, p)..])
  {
    var t := s[p..];
    var q := WordEnd(s, p);
    var k := WordEnd(t, 0);
    assert forall m :: 0 <= m < |t| ==> t[m] == s[p + m];
    assert k == q - p;
    assert t[..k] == s[p..q] && t[k..] == s[q..];
  }

  /** Inside a word that is not a number word, the pattern matches nowhere. */
  lemma NoMatchInWord(s: string, p: nat)
    requires p < |s| && IsWordChar(s[p]) && !IsWordAt(s, p - 1)
    requires !IsNumberWord(s[p..WordEnd(s, p)])
    ensures forall m :: p <= m < WordEnd(s, p) ==> MatchEnd(s, m).None?
  {
    forall m, e | p <= m < WordEnd(s, p) && m <= e <= |s| ensures MatchEnd(s, m) != Some(e) {
      NoMatchInWordAt(s, p, m, e);
    }
  }

  lemma NoMatchInWordAt(s: string, p: nat, m: nat, e: nat)
    requires p < |s| && IsWordChar(s[p]) && !IsWordAt(s, p - 1)
    requires !IsNumberWord(s[p..WordEnd(s, p)])
    requires p <= m < WordEnd(s, p) && m <= e <= |s|
    ensures MatchEnd(s, m) != Some(e)
  {
    var q := WordEnd(s, p);
    assert (forall k :: p <= k < q ==> IsDigit(s[k])) ==> AllDigits(s[p..q]);
    MatchEndIsNumberSpan(s, m, e);
    if m > p {
      assert IsWordAt(s, m - 1);
    } else if e < q {
      assert IsWordAt(s, e);
    }
  }

  /** At a non-word character the pattern fails and the character is copied. */
  lemma ReplaceAtOther(s: string, p: nat)
    requires p < |s| && !IsWordChar(s[p])
    ensures ReplaceFrom(s, p) == [s[p]] + ReplaceFrom(s, p + 1)
  {
    forall e | p <= e <= |s| ensures MatchEnd(s, p) != Some(e) {
      MatchEndIsNumberSpan(s, p, e);
    }
  }

  /** A number word is matched whole and replaced. */
  lemma ReplaceAtNumber(s: string, p: nat, q: nat)
    requires p < q <= |s| && IsNumberSpan(s, p, q)
    ensures AllDigits(s[p..q])
    ensures ReplaceFrom(s, p) == Replacement(s[p..q]) + ReplaceFrom(s, q)
  {
    MatchEndIsNumberSpan(s, p, q);
  }

  lemma {:induction false} ReplaceFromTokens(s: string, p: nat)
    requires p <= |s| && AtTokenEdge(s, p)
    ensures ReplaceFrom(s, p) == FormatTokens(Tokenize(s[p..]))
    decreases |s| - p
  {
    if p == |s| {
      assert s[p..] == [];
    } else if !IsWordChar(s[p]) {
      ReplaceAtOther(s, p);
      assert s[p..][1..] == s[p + 1..];
      ReplaceFromTokens(s, p + 1);
    } else {
      var q := WordEnd(s, p);
      var w := s[p..q];
      TokenizeAtWord(s, p);
      if IsNumberWord(w) {
        assert forall k :: p <= k < q ==> IsDigit(s[k]) by {
          forall k | p <= k < q ensures IsDigit(s[k]) {
            assert s[k] == w[k - p];
          }
        }
        ReplaceAtNumber(s, p, q);
      } else {
        NoMatchInWord(s, p);
        ReplaceCopies(s, p, q);
      }
      ReplaceFromTokens(s, q);
    }
  }

  /**
    The replace rewrites exactly the maximal runs of word characters that are
    all digits and at least five long, and copies every other token.
   */
  lemma FormatNumbersByTokens(s: string)
    ensures FormatNumbers(s) == FormatTokens(Tokenize(s))
  {
    assert s[0..] == s;
    ReplaceFromTokens(s, 0);
  }

  /**
    A non-word character is kept in place and separates the text around it:
    each side is formatted on its own.
   */
  lemma FormatNumbersSplit(a: string, c: char, b: string)
    requires !IsWordChar(c)
    ensures FormatNumbers(a + [c] + b) == FormatNumbers(a) + [c] + FormatNumbers(b)
  {
    var ta, tb := Tokenize(a), Tokenize(b);
    FormatNumbersByTokens(a + [c] + b);
    FormatNumbersByTokens(a);
    FormatNumbersByTokens(b);
    TokenizeSplit(a, c, b);
    FormatTokensAppend(ta + [Other(c)], tb);
    FormatTokensAppend(ta, [Other(c)]);
    assert FormatTokens([Other(c)]) == [c];
  }

  /** A string of word characters only is one token, rewritten whole or not at all. */
  lemma FormatNumbersWord(w: string)
    requires |w| > 0 && AllWordChars(w)
    ensures FormatNumbers(w) == RewriteWord(w)
  {
    FormatNumbersByTokens(w);
    TokenizeWord(w);
  }
}
