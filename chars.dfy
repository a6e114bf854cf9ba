/**
 * Character classes used by the library's regular expressions and by PHP's trim functions.
 * Strings are sequences of Unicode code points, the unit that every `mb_*` function counts.
 */
module Chars {

  /** `\w` under PCRE's Unicode mode: ASCII letters, digits and `_`, and the Russian letters.
      The exact Unicode extent of `\w` is not modelled; every property below holds of any
      class that contains no whitespace and none of `. - / : @ % ! ? , ( ) +`. */
  predicate IsWord(c: char) {
    || ('a' <= c <= 'z') || ('A' <= c <= 'Z') || ('0' <= c <= '9') || c == '_'
    || ('\U{0410}' <= c <= '\U{044F}') || c == '\U{0401}' || c == '\U{0451}'
  }

  /** `\s` under PCRE's Unicode mode (`\p{Z}`, `\h` and `\v`): the ASCII whitespace controls,
      NEL, the Unicode space, line and paragraph separators, and U+180E (MONGOLIAN VOWEL
      SEPARATOR), which PCRE2 keeps in `\h` although Unicode no longer counts it as white
      space. */
  predicate IsSpace(c: char) {
    || c == '\t' || c == '\n' || c == '\U{0B}' || c == '\U{0C}' || c == '\r' || c == ' '
    || c == '\U{85}' || c == '\U{A0}' || c == '\U{1680}' || c == '\U{180E}'
    || ('\U{2000}' <= c <= '\U{200A}')
    || c == '\U{2028}' || c == '\U{2029}' || c == '\U{202F}' || c == '\U{205F}' || c == '\U{3000}'
  }

  /** `\s` without the Unicode modifier: ASCII whitespace only. */
  predicate IsAsciiSpace(c: char) {
    c == '\t' || c == '\n' || c == '\U{0B}' || c == '\U{0C}' || c == '\r' || c == ' '
  }

  /** The characters PHP's `rtrim`/`ltrim` strip by default: " \t\n\r\0\x0B". */
  predicate IsTrimmed(c: char) {
    c == ' ' || c == '\t' || c == '\n' || c == '\r' || c == '\0' || c == '\U{0B}'
  }

  /** `[a-z0-9]`, the scheme alphabet (the patterns carry no `i` flag). */
  predicate IsSchemeChar(c: char) {
    ('a' <= c <= 'z') || ('0' <= c <= '9')
  }

  /** `[\w\.-]`, the host alphabet. */
  predicate IsHostChar(c: char) {
    IsWord(c) || c == '.' || c == '-'
  }

  /** `[\.\!\?\,]`, sentence punctuation a linkified path may not end with. */
  predicate IsPunct(c: char) {
    c == '.' || c == '!' || c == '?' || c == ','
  }

  predicate IsAsciiLower(c: char) { 'a' <= c <= 'z' }

  predicate IsAsciiDigit(c: char) { '0' <= c <= '9' }

  predicate IsHexDigit(c: char) {
    ('0' <= c <= '9') || ('a' <= c <= 'f') || ('A' <= c <= 'F')
  }

  function HexValue(c: char): (v: nat)
    requires IsHexDigit(c)
    ensures v < 16
  {
    if '0' <= c <= '9' then c as int - '0' as int
    else if 'a' <= c <= 'f' then c as int - 'a' as int + 10
    else c as int - 'A' as int + 10
  }
}
