/** Character classes used by the regular expressions of the stat text engine. */
module Chars {

  /** `\d` in a JavaScript regular expression: the ASCII digits only. */
  predicate IsDigit(c: char) {
    '0' <= c <= '9'
  }

  /** An ASCII upper-case letter, the only letters `toLowerCase` changes in this model. */
  predicate IsUpper(c: char) {
    'A' <= c <= 'Z'
  }

  /** A sign character that may open a numeric literal, `[+-]`. */
  predicate IsSign(c: char) {
    c == '+' || c == '-'
  }

  /**
   * `\s` in a JavaScript regular expression, which is also the set that
   * `String.prototype.trim` removes: the ECMAScript WhiteSpace and
   * LineTerminator code points.
   */
  predicate IsSpace(c: char) {
    c == ' ' || c == '\t' || c == '\n' || c == '\r' || c == '\U{000B}' || c == '\U{000C}'
    || c == '\U{00A0}' || c == '\U{1680}' || ('\U{2000}' <= c <= '\U{200A}')
    || c == '\U{2028}' || c == '\U{2029}' || c == '\U{202F}' || c == '\U{205F}'
    || c == '\U{3000}' || c == '\U{FEFF}'
  }

  /** `toLowerCase` on one character, restricted to ASCII letters. */
  function LowerChar(c: char): (r: char)
    ensures !IsUpper(r)
    ensures IsUpper(c) ==> r as int == c as int + 32
    ensures !IsUpper(c) ==> r == c
  {
    if IsUpper(c) then (c as int + 32) as char else c
  }

  /** The numeric value of a decimal digit. */
  function DigitValue(c: char): (r: nat)
    requires IsDigit(c)
    ensures r < 10
  {
    c as int - '0' as int
  }
}
