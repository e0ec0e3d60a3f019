/** Kotlin's `Char.isWhitespace` and `String.trim()`, which the tokenizers
    apply to bare tokens. */
module Strings {
  import opened Base

  /** Kotlin/JVM `Char.isWhitespace()`: `Character.isWhitespace` or
      `Character.isSpaceChar`, i.e. the controls U+0009..U+000D and
      U+001C..U+001F plus the Unicode space, line and paragraph separators. */
  predicate IsWhitespace(c: Char16)
  {
    (0x09 <= c <= 0x0D) || (0x1C <= c <= 0x20) || c == 0xA0 || c == 0x1680
    || (0x2000 <= c <= 0x200A) || c == 0x2028 || c == 0x2029 || c == 0x202F
    || c == 0x205F || c == 0x3000
  }

  /** The number of leading whitespace units. */
  function LeadingSpace(t: Text): (n: nat)
    ensures n <= |t|
    ensures forall i | 0 <= i < n :: IsWhitespace(t[i])
    ensures n < |t| ==> !IsWhitespace(t[n])
  {
    if |t| == 0 || !IsWhitespace(t[0]) then 0 else 1 + LeadingSpace(t[1..])
  }

  /** The number of trailing whitespace units. */
  function TrailingSpace(t: Text): (n: nat)
    ensures n <= |t|
    ensures forall i | |t| - n <= i < |t| :: IsWhitespace(t[i])
    ensures n < |t| ==> !IsWhitespace(t[|t| - n - 1])
  {
    if |t| == 0 || !IsWhitespace(t[|t| - 1]) then 0 else 1 + TrailingSpace(t[..|t| - 1])
  }

  /** `String.trim()`: the longest slice without whitespace at either end. */
  function Trim(t: Text): (r: Text)
    ensures LeadingSpace(t) + |r| <= |t|
    ensures |r| > 0 ==> !IsWhitespace(r[0]) && !IsWhitespace(r[|r| - 1])
    ensures r == t[LeadingSpace(t)..LeadingSpace(t) + |r|]
    ensures forall i | 0 <= i < LeadingSpace(t) :: IsWhitespace(t[i])
    ensures forall i | LeadingSpace(t) + |r| <= i < |t| :: IsWhitespace(t[i])
  {
    var a := LeadingSpace(t);
    var rest := t[a..];
    var b := TrailingSpace(rest);
    assert forall i | a + |rest| - b <= i < |t| :: t[i] == rest[i - a];
    rest[..|rest| - b]
  }
}
