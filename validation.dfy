/**
 * The data-annotation attributes and regular-expression character classes the
 * DTOs use, with the meaning .NET gives them. .NET strings are UTF-16 and
 * regular expressions match code unit by code unit, so a character outside
 * the Basic Multilingual Plane (two code units) counts twice in a length and
 * is never in any of the classes below.
 */
module Validation {

  /** char.IsWhiteSpace; also exactly the regular-expression class \s. */
  predicate IsWhiteSpace(c: char) {
    var n := c as int;
    n == 0x20 || 0x09 <= n <= 0x0D || n == 0x85 || n == 0xA0 || n == 0x1680
    || 0x2000 <= n <= 0x200A || n == 0x2028 || n == 0x2029 || n == 0x202F
    || n == 0x205F || n == 0x3000
  }

  predicate IsAsciiLetter(c: char) {
    'a' <= c <= 'z' || 'A' <= c <= 'Z'
  }

  /** The code point of digit zero of every run of decimal digits (category Nd) in the Basic Multilingual Plane. */
  const DecimalDigitZeros: seq<int> := [
    0x0030, 0x0660, 0x06F0, 0x07C0, 0x0966, 0x09E6, 0x0A66, 0x0AE6, 0x0B66, 0x0BE6,
    0x0C66, 0x0CE6, 0x0D66, 0x0DE6, 0x0E50, 0x0ED0, 0x0F20, 0x1040, 0x1090, 0x17E0,
    0x1810, 0x1946, 0x19D0, 0x1A80, 0x1A90, 0x1B50, 0x1BB0, 0x1C40, 0x1C50, 0xA620,
    0xA8D0, 0xA900, 0xA9D0, 0xA9F0, 0xAA50, 0xABF0, 0xFF10]

  /** The class \d: a Unicode decimal digit. */
  predicate IsDecimalDigit(c: char) {
    exists k :: 0 <= k < |DecimalDigitZeros| && DecimalDigitZeros[k] <= c as int < DecimalDigitZeros[k] + 10
  }

  /** Letters among U+0080..U+00FF. */
  predicate IsLatin1Letter(c: char) {
    var n := c as int;
    n == 0xAA || n == 0xB5 || n == 0xBA || 0xC0 <= n <= 0xD6 || 0xD8 <= n <= 0xF6 || 0xF8 <= n <= 0xFF
  }

  /** Connector punctuation (category Pc). */
  predicate IsConnectorPunctuation(c: char) {
    var n := c as int;
    n == 0x5F || n == 0x203F || n == 0x2040 || n == 0x2054 || n == 0xFE33 || n == 0xFE34
    || 0xFE4D <= n <= 0xFE4F || n == 0xFF3F
  }

  /** The class \w, restricted to letters up to U+00FF (see the README). */
  predicate IsWordChar(c: char) {
    IsAsciiLetter(c) || IsLatin1Letter(c) || IsDecimalDigit(c) || IsConnectorPunctuation(c)
  }

  /** Every character of `s` is in the class `p`. */
  predicate All(s: string, p: char -> bool) {
    forall i :: 0 <= i < |s| ==> p(s[i])
  }

  /** The length .NET reports: the number of UTF-16 code units. */
  function Utf16Length(s: string): nat {
    if s == [] then 0
    else (if s[0] as int < 0x1_0000 then 1 else 2) + Utf16Length(s[1..])
  }

  /** A string of Basic Multilingual Plane characters has one code unit per character. */
  lemma {:induction false} Utf16LengthOfBmp(s: string)
    requires forall i :: 0 <= i < |s| ==> s[i] as int < 0x1_0000
    ensures Utf16Length(s) == |s|
  {
    if s != [] {
      Utf16LengthOfBmp(s[1..]);
    }
  }

  /** [Required] on a string: not null, not empty and not only white space. */
  predicate Required(s: string) {
    exists i :: 0 <= i < |s| && !IsWhiteSpace(s[i])
  }

  /** [StringLength(max)]: at most `max` code units. */
  predicate StringLength(s: string, max: nat) {
    Utf16Length(s) <= max
  }

  /** [MinLength(min)] on a string: at least `min` code units. */
  predicate MinLength(s: string, min: nat) {
    Utf16Length(s) >= min
  }

  /**
   * [RegularExpression]: the empty string is accepted; otherwise the match
   * must span the whole string, i.e. the string is in the pattern's language.
   */
  predicate RegularExpression(s: string, pattern: string -> bool) {
    s == [] || pattern(s)
  }

  /** String.IndexOf(c): the first position of `c`, or -1. */
  function IndexOf(s: string, c: char): (k: int)
    ensures -1 <= k < |s|
    ensures k == -1 <==> forall j :: 0 <= j < |s| ==> s[j] != c
    ensures k != -1 ==> s[k] == c && forall j :: 0 <= j < k ==> s[j] != c
  {
    if s == [] then -1
    else if s[0] == c then 0
    else
      var k := IndexOf(s[1..], c);
      if k == -1 then -1 else k + 1
  }

  /** String.LastIndexOf(c): the last position of `c`, or -1. */
  function LastIndexOf(s: string, c: char): (k: int)
    ensures -1 <= k < |s|
    ensures k == -1 <==> forall j :: 0 <= j < |s| ==> s[j] != c
    ensures k != -1 ==> s[k] == c && forall j :: k < j < |s| ==> s[j] != c
  {
    if s == [] then -1
    else if s[|s| - 1] == c then |s| - 1
    else LastIndexOf(s[..|s| - 1], c)
  }

  /** [EmailAddress]: exactly one '@', neither the first nor the last character. */
  predicate EmailAddress(s: string) {
    var at := IndexOf(s, '@');
    0 < at && at != |s| - 1 && at == LastIndexOf(s, '@')
  }

  /** A string whose only '@' is at `at`, strictly inside it, passes [EmailAddress]. */
  lemma SingleInnerAtPassesEmailAddress(s: string, at: int)
    requires 0 < at < |s| - 1 && s[at] == '@'
    requires forall j :: 0 <= j < |s| && j != at ==> s[j] != '@'
    ensures EmailAddress(s)
  {
    var first, last := IndexOf(s, '@'), LastIndexOf(s, '@');
    assert first != -1 && last != -1;
  }
}
