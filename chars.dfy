/** Character classes that the feature pipeline relies on, as Python 3
    defines them for `str`. */
module Chars {

  /** Python's whitespace test: `str.isspace`, the regex class `\s` on str
      patterns, and the separators of `str.split()` and `str.strip()` all use
      the same set of code points, namely U+0009..U+000D, U+001C..U+0020,
      U+0085, U+00A0, U+1680, U+2000..U+200A, U+2028, U+2029, U+202F,
      U+205F and U+3000. */
  predicate IsSpace(c: char) {
    var n := c as int;
    || (9 <= n <= 13)
    || (28 <= n <= 32)
    || n == 0x85 || n == 0xA0 || n == 0x1680
    || (0x2000 <= n <= 0x200A)
    || n == 0x2028 || n == 0x2029 || n == 0x202F || n == 0x205F || n == 0x3000
  }

  /** The characters that make up the words of `str.split()`. */
  predicate NotSpace(c: char) {
    !IsSpace(c)
  }

  /** An ASCII decimal digit: the part of the regex class `\d` this model covers. */
  predicate IsDigit(c: char) {
    '0' <= c <= '9'
  }

  /** The value of one decimal digit: the digit whose character it is. */
  function DigitValue(c: char): (d: nat)
    requires IsDigit(c)
    ensures d <= 9
    ensures ('0' as int + d) as char == c
  {
    c as int - '0' as int
  }

  /** The character of a digit value, `str(d)` for `0 <= d <= 9`. */
  function DigitChar(d: nat): (c: char)
    requires d <= 9
    ensures IsDigit(c) && DigitValue(c) == d
  {
    ('0' as int + d) as char
  }

  predicate IsUpper(c: char) {
    'A' <= c <= 'Z'
  }

  /** `str.lower()` on one character, restricted to the ASCII letters. */
  function LowerChar(c: char): (l: char)
    ensures !IsUpper(l)
    ensures !IsUpper(c) ==> l == c
    ensures IsUpper(c) ==> 'a' <= l <= 'z' && l as int - c as int == 'a' as int - 'A' as int
  {
    if IsUpper(c) then (c as int - 'A' as int + 'a' as int) as char else c
  }
}
