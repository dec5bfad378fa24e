/**
  The formatter's pattern `/\b\d{5,}\b/`, tried at one position of a string
  the way an ECMAScript backtracking matcher tries it: `\b`, then `\d{5,}`
  taking as many digits as it can, then `\b`, giving back one digit at a time
  while the quantifier still has five.
 */
module NumberPattern {
  import opened CharClasses

  datatype Option<T> = None | Some(value: T)

  /** The lower bound of the quantifier `\d{5,}`. */
  const MinDigits: nat := 5

  /** Whether position i of s holds a word character; positions outside s do not. */
  predicate IsWordAt(s: string, i: int) {
    0 <= i < |s| && IsWordChar(s[i])
  }

  /** `\b` at position i: exactly one of the characters before and after i is a word character. */
  predicate IsBoundary(s: string, i: nat)
    requires i <= |s|
  {
    IsWordAt(s, i - 1) != IsWordAt(s, i)
  }

  /** Where the greedy `\d{5,}` started at i stops first: the end of the digit run. */
  function DigitRunEnd(s: string, i: nat): (e: nat)
    requires i <= |s|
    ensures i <= e <= |s|
    ensures forall k :: i <= k < e ==> IsDigit(s[k])
    ensures e == |s| || !IsDigit(s[e])
    decreases |s| - i
  {
    if i < |s| && IsDigit(s[i]) then DigitRunEnd(s, i + 1) else i
  }

  /**
    The closing `\b` tried at e, then at e - 1, e - 2, ... as long as the
    quantifier keeps at least MinDigits digits: the result is the last
    boundary in [i + MinDigits, e], if there is one.
   */
  function Backtrack(s: string, i: nat, e: nat): (r: Option<nat>)
    requires i <= e <= |s|
    ensures r.Some? ==> i + MinDigits <= r.value <= e && IsBoundary(s, r.value)
    ensures r.Some? ==> forall k :: r.value < k <= e ==> !IsBoundary(s, k)
    ensures r.None? ==> forall k :: i + MinDigits <= k <= e ==> !IsBoundary(s, k)
    decreases e
  {
    if e < i + MinDigits then None
    else if IsBoundary(s, e) then Some(e)
    else Backtrack(s, i, e - 1)
  }

  /** The end of the match of `/\b\d{5,}\b/` that starts at i, if the match succeeds. */
  function MatchEnd(s: string, i: nat): (r: Option<nat>)
    requires i <= |s|
    ensures r.Some? ==> i + MinDigits <= r.value <= |s|
    ensures r.Some? ==> forall k :: i <= k < r.value ==> IsDigit(s[k])
  {
    if IsBoundary(s, i) then Backtrack(s, i, DigitRunEnd(s, i)) else None
  }

  /**
    s[i..e] is a word of s that is all digits and at least MinDigits long:
    flanked by non-word characters or the ends of s.
   */
  predicate IsNumberSpan(s: string, i: nat, e: nat)
    requires i <= e <= |s|
  {
    && !IsWordAt(s, i - 1)
    && !IsWordAt(s, e)
    && e - i >= MinDigits
    && forall k :: i <= k < e ==> IsDigit(s[k])
  }

  /**
    The pattern matches s exactly on the maximal all-digit words of length at
    least MinDigits: backtracking can never end a match inside a digit run.
   */
  lemma {:induction false} MatchEndIsNumberSpan(s: string, i: nat, e: nat)
    requires i <= e <= |s|
    ensures MatchEnd(s, i) == Some(e) <==> IsNumberSpan(s, i, e)
  {
    if MatchEnd(s, i) == Some(e) {
      assert IsWordAt(s, e - 1);
      assert IsWordAt(s, i);
    }
    if IsNumberSpan(s, i, e) {
      var d := DigitRunEnd(s, i);
      assert d == e;
      assert IsWordAt(s, i) && IsWordAt(s, e - 1);
      assert IsBoundary(s, i) && IsBoundary(s, e);
    }
  }
}
