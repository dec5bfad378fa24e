/**
  Character classes of an ECMAScript regular expression written without the
  `u` and `i` flags, as the formatter's pattern is: `\d` and `\w` are ASCII only.
 */
module CharClasses {

  /** `\d`: the ten ASCII decimal digits. */
  predicate IsDigit(c: char) {
    '0' <= c <= '9'
  }

  /** `\w`: ASCII letters, ASCII digits and the underscore. `\b` is defined from it. */
  predicate IsWordChar(c: char) {
    'a' <= c <= 'z' || 'A' <= c <= 'Z' || IsDigit(c) || c == '_'
  }

  predicate AllDigits(s: string) {
    forall i :: 0 <= i < |s| ==> IsDigit(s[i])
  }

  predicate AllWordChars(s: string) {
    forall i :: 0 <= i < |s| ==> IsWordChar(s[i])
  }
}
