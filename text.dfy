/**
 * Character classes of JavaScript regular expressions written without the `u`
 * flag, and the UTF-16 length of a string.
 *
 * A Dafny `char` is a Unicode scalar value. JavaScript strings are sequences of
 * UTF-16 code units, so a code point above U+FFFF is one `char` here and two
 * code units there; `Utf16Length` counts the way `String.prototype.length` does.
 */
module Text {

  /** `\s`: the ECMAScript WhiteSpace and LineTerminator code points. */
  predicate IsSpace(c: char)
  {
    || c == '\t' || c == '\n' || c == '\U{000B}' || c == '\U{000C}' || c == '\r'
    || c == ' ' || c == '\U{00A0}' || c == '\U{1680}'
    || ('\U{2000}' <= c <= '\U{200A}')
    || c == '\U{2028}' || c == '\U{2029}' || c == '\U{202F}' || c == '\U{205F}'
    || c == '\U{3000}' || c == '\U{FEFF}'
  }

  predicate IsAsciiUpper(c: char) { 'A' <= c <= 'Z' }

  predicate IsAsciiLower(c: char) { 'a' <= c <= 'z' }

  predicate IsDigit(c: char) { '0' <= c <= '9' }

  /** `\w` without the `u` flag: exactly `[A-Za-z0-9_]`. */
  predicate IsWordChar(c: char)
  {
    IsAsciiUpper(c) || IsAsciiLower(c) || IsDigit(c) || c == '_'
  }

  /** The Combining Diacritical Marks block, U+0300 to U+036F. */
  predicate IsCombiningMark(c: char) { '\U{0300}' <= c <= '\U{036F}' }

  predicate IsAscii(c: char) { c < '\U{0080}' }

  predicate AllAscii(s: string)
  {
    forall i :: 0 <= i < |s| ==> IsAscii(s[i])
  }

  /** The characters a slug may consist of: `a-z`, `0-9`, `_` and `-`. */
  predicate IsSlugChar(c: char)
  {
    IsAsciiLower(c) || IsDigit(c) || c == '_' || c == '-'
  }

  /** ASCII lowercasing of one character; every other character is left alone. */
  function ToAsciiLower(c: char): char
  {
    if IsAsciiUpper(c) then (c as int + 32) as char else c
  }

  /** ASCII lowercasing of every character of `s`. */
  function MapAsciiLower(s: string): (r: string)
    ensures |r| == |s|
    ensures forall i :: 0 <= i < |s| ==> r[i] == ToAsciiLower(s[i])
  {
    if s == [] then [] else [ToAsciiLower(s[0])] + MapAsciiLower(s[1..])
  }

  /** The number of UTF-16 code units that encode `s`. */
  function Utf16Length(s: string): (n: nat)
    ensures |s| <= n <= 2 * |s|
    ensures (forall i :: 0 <= i < |s| ==> s[i] <= '\U{FFFF}') ==> n == |s|
    ensures (exists i :: 0 <= i < |s| && s[i] > '\U{FFFF}') ==> n > |s|
  {
    if s == [] then 0
    else (if s[0] <= '\U{FFFF}' then 1 else 2) + Utf16Length(s[1..])
  }
}
