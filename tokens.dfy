/**
  A string read as a sequence of tokens: maximal runs of word characters
  (`\w`) and single non-word characters. This is the view in which the
  formatter's pattern is easiest to state: `\b` holds exactly at the edges of
  the word runs.
 */
module Tokens {
  import opened CharClasses

  datatype Token = Word(text: string) | Other(c: char)

  function Text(t: Token): string {
    match t
    case Word(w) => w
    case Other(c) => [c]
  }

  /** The end of the run of word characters that starts at i. */
  function WordEnd(s: string, i: nat): (e: nat)
    requires i <= |s|
    ensures i <= e <= |s|
    ensures forall k :: i <= k < e ==> IsWordChar(s[k])
    ensures e == |s| || !IsWordChar(s[e])
    decreases |s| - i
  {
    if i < |s| && IsWordChar(s[i]) then WordEnd(s, i + 1) else i
  }

  function Tokenize(s: string): (ts: seq<Token>)
    decreases |s|
  {
    if s == [] then []
    else if !IsWordChar(s[0]) then [Other(s[0])] + Tokenize(s[1..])
    else
      var k := WordEnd(s, 0);
      [Word(s[..k])] + Tokenize(s[k..])
  }

  function Flatten(ts: seq<Token>): string
    decreases |ts|
  {
    if ts == [] then [] else Text(ts[0]) + Flatten(ts[1..])
  }

  predicate ValidToken(t: Token) {
    match t
    case Word(w) => |w| > 0 && AllWordChars(w)
    case Other(c) => !IsWordChar(c)
  }

  /** Every token is valid and no word is directly followed by another word, so words are maximal. */
  predicate WellFormed(ts: seq<Token>)
    decreases |ts|
  {
    ts == [] ||
    (ValidToken(ts[0]) && (ts[0].Word? && |ts| > 1 ==> ts[1].Other?) && WellFormed(ts[1..]))
  }

  lemma {:induction false} FlattenAppend(a: seq<Token>, b: seq<Token>)
    ensures Flatten(a + b) == Flatten(a) + Flatten(b)
    decreases |a|
  {
    if a == [] {
      assert a + b == b;
    } else {
      assert (a + b)[1..] == a[1..] + b;
      FlattenAppend(a[1..], b);
    }
  }

  /** Tokenizing loses nothing. */
  lemma {:induction false} TokenizeText(s: string)
    ensures Flatten(Tokenize(s)) == s
    decreases |s|
  {
    if s != [] {
      if !IsWordChar(s[0]) {
        TokenizeText(s[1..]);
        assert Tokenize(s) == [Other(s[0])] + Tokenize(s[1..]);
        assert s == [s[0]] + s[1..];
      } else {
        var k := WordEnd(s, 0);
        TokenizeText(s[k..]);
        assert Tokenize(s) == [Word(s[..k])] + Tokenize(s[k..]);
        assert s == s[..k] + s[k..];
      }
    }
  }

  /** Tokenizing yields valid tokens, and a word is never followed by a word. */
  lemma {:induction false} TokenizeWellFormed(s: string)
    ensures WellFormed(Tokenize(s))
    decreases |s|
  {
    if s != [] {
      if !IsWordChar(s[0]) {
        TokenizeWellFormed(s[1..]);
        assert Tokenize(s) == [Other(s[0])] + Tokenize(s[1..]);
      } else {
        var k := WordEnd(s, 0);
        var rest := s[k..];
        TokenizeWellFormed(rest);
        var ts := Tokenize(s);
        assert ts == [Word(s[..k])] + Tokenize(rest);
        assert ValidToken(Word(s[..k]));
        assert ts[1..] == Tokenize(rest);
        if rest != [] {
          assert !IsWordChar(rest[0]);
          assert Tokenize(rest)[0] == Other(rest[0]);
        }
      }
    }
  }

  /** Tokenizing loses nothing and yields well-formed tokens. */
  lemma TokenizeSound(s: string)
    ensures WellFormed(Tokenize(s))
    ensures Flatten(Tokenize(s)) == s
  {
    TokenizeText(s);
    TokenizeWellFormed(s);
  }

  /** Well-formed tokens are recovered from their text: the tokenization is unique. */
  lemma {:induction false} TokenizeFlatten(ts: seq<Token>)
    requires WellFormed(ts)
    ensures Tokenize(Flatten(ts)) == ts
    decreases |ts|
  {
    if ts != [] {
      var s := Flatten(ts);
      var rest := Flatten(ts[1..]);
      TokenizeFlatten(ts[1..]);
      match ts[0]
      case Other(c) =>
        assert s == [c] + rest;
        assert s[1..] == rest;
      case Word(w) =>
        assert s == w + rest;
        if ts[1..] != [] {
          assert ts[1..][0].Other?;
          assert rest == [ts[1].c] + Flatten(ts[1..][1..]);
        }
        assert ValidToken(ts[0]);
        TokenizeWordThen(w, rest);
    }
  }

  /** A word followed by a non-word character, or by nothing, is tokenized as that word first. */
  lemma TokenizeWordThen(w: string, rest: string)
    requires |w| > 0 && AllWordChars(w) && (rest == [] || !IsWordChar(rest[0]))
    ensures Tokenize(w + rest) == [Word(w)] + Tokenize(rest)
  {
    var s := w + rest;
    var k := WordEnd(s, 0);
    assert forall i :: 0 <= i < |w| ==> s[i] == w[i];
    assert rest != [] ==> s[|w|] == rest[0];
    assert k == |w|;
    assert s[..k] == w && s[k..] == rest;
  }

  lemma {:induction false} WellFormedJoin(a: seq<Token>, c: char, b: seq<Token>)
    requires WellFormed(a) && WellFormed(b) && !IsWordChar(c)
    ensures WellFormed(a + [Other(c)] + b)
    decreases |a|
  {
    if a == [] {
      assert a + [Other(c)] + b == [Other(c)] + b;
      assert ([Other(c)] + b)[1..] == b;
    } else {
      WellFormedJoin(a[1..], c, b);
      assert (a + [Other(c)] + b)[1..] == a[1..] + [Other(c)] + b;
    }
  }

  /** A non-word character separates tokens: tokenizing around it tokenizes the two sides apart. */
  lemma TokenizeSplit(a: string, c: char, b: string)
    requires !IsWordChar(c)
    ensures Tokenize(a + [c] + b) == Tokenize(a) + [Other(c)] + Tokenize(b)
  {
    var ts := Tokenize(a) + [Other(c)] + Tokenize(b);
    TokenizeSound(a);
    TokenizeSound(b);
    WellFormedJoin(Tokenize(a), c, Tokenize(b));
    FlattenAppend(Tokenize(a) + [Other(c)], Tokenize(b));
    FlattenAppend(Tokenize(a), [Other(c)]);
    assert Flatten([Other(c)]) == [c];
    TokenizeFlatten(ts);
  }

  /** A non-empty run of word characters is one token. */
  lemma TokenizeWord(w: string)
    requires |w| > 0 && AllWordChars(w)
    ensures Tokenize(w) == [Word(w)]
  {
    assert WellFormed([Word(w)]);
    assert Flatten([Word(w)]) == w;
    TokenizeFlatten([Word(w)]);
  }
}
