/** Character classes and ASCII case mapping shared by the text helpers.
    Python's `str.isspace`, `\s`, `\w` and `\d` are Unicode-aware; whitespace is
    modelled with its full Unicode set, word characters and digits with their
    ASCII members. */
module Chars {

  /** Python's `str.isspace()` (and `\s` in a `str` pattern, and the separator of
      `str.split()` / `str.strip()` with no argument). */
  predicate IsSpace(c: char)
  {
    || ('\t' <= c <= '\r')
    || ('\U{1C}' <= c <= ' ')
    || c == '\U{85}' || c == '\U{A0}' || c == '\U{1680}'
    || ('\U{2000}' <= c <= '\U{200A}')
    || c == '\U{2028}' || c == '\U{2029}' || c == '\U{202F}' || c == '\U{205F}'
    || c == '\U{3000}'
  }

  predicate IsDigit(c: char) { '0' <= c <= '9' }

  predicate IsUpper(c: char) { 'A' <= c <= 'Z' }

  predicate IsLower(c: char) { 'a' <= c <= 'z' }

  predicate IsLetter(c: char) { IsUpper(c) || IsLower(c) }

  /** The class `[a-zA-Z0-9]`. */
  predicate IsAlnum(c: char) { IsLetter(c) || IsDigit(c) }

  /** `\w`: letters, digits and the underscore. */
  predicate IsWordChar(c: char) { IsAlnum(c) || c == '_' }

  function ToLower(c: char): (r: char)
    ensures !IsUpper(r)
    ensures IsLetter(c) <==> IsLetter(r)
    ensures !IsUpper(c) ==> r == c
  {
    if IsUpper(c) then (c as int - 'A' as int + 'a' as int) as char else c
  }

  function ToUpper(c: char): (r: char)
    ensures !IsLower(r)
    ensures IsLetter(c) <==> IsLetter(r)
    ensures !IsLower(c) ==> r == c
  {
    if IsLower(c) then (c as int - 'a' as int + 'A' as int) as char else c
  }

  /** `str.lower()` on the ASCII letters. */
  function Lower(s: string): (r: string)
    ensures |r| == |s|
    ensures forall i :: 0 <= i < |s| ==> r[i] == ToLower(s[i])
  {
    seq(|s|, i requires 0 <= i < |s| => ToLower(s[i]))
  }

  /** `str.capitalize()`: first character upper case, the rest lower case. */
  function Capitalize(s: string): (r: string)
    ensures |r| == |s|
    ensures |s| > 0 ==> !IsLower(r[0]) && (IsLetter(s[0]) <==> IsLetter(r[0]))
    ensures forall i :: 0 < i < |s| ==> !IsUpper(r[i]) && (IsLetter(s[i]) <==> IsLetter(r[i]))
    ensures |s| > 0 ==> r[0] == ToUpper(s[0])
    ensures forall i :: 0 < i < |s| ==> r[i] == ToLower(s[i])
  {
    if s == [] then [] else [ToUpper(s[0])] + Lower(s[1..])
  }

  /** Equality up to ASCII case, as a `(?i)` pattern compares a literal. */
  predicate SameLetterIgnoringCase(a: char, b: char)
  {
    ToLower(a) == ToLower(b)
  }

  predicate EqualsIgnoringCase(s: string, w: string)
  {
    |s| == |w| && forall i :: 0 <= i < |s| ==> SameLetterIgnoringCase(s[i], w[i])
  }
}
