/** The few .NET string tests the core relies on, over `seq<char>`. */
module Strings {

  /** `char.IsWhiteSpace`: the Unicode space, line and paragraph separators and the
      control characters U+0009 to U+000D and U+0085. */
  predicate IsWhiteSpace(c: char) {
    || '\U{9}' <= c <= '\U{D}'
    || c == ' '
    || c == '\U{85}'
    || c == '\U{A0}'
    || c == '\U{1680}'
    || '\U{2000}' <= c <= '\U{200A}'
    || c == '\U{2028}'
    || c == '\U{2029}'
    || c == '\U{202F}'
    || c == '\U{205F}'
    || c == '\U{3000}'
  }

  /** `string.IsNullOrWhiteSpace` on a non-null string: empty or only white space. */
  predicate IsBlank(s: string) {
    forall i :: 0 <= i < |s| ==> IsWhiteSpace(s[i])
  }

  /** `string.Contains(needle)`: ordinal, case-sensitive substring test. */
  predicate Contains(haystack: string, needle: string) {
    exists i | 0 <= i <= |haystack| :: OccursAt(haystack, needle, i)
  }

  /** `needle` occurs in `haystack` starting at index `i`. */
  predicate OccursAt(haystack: string, needle: string, i: int) {
    0 <= i <= |haystack| - |needle| && haystack[i..i + |needle|] == needle
  }

  /** Upper-case mapping of one character, for the ASCII letters. */
  function ToUpperAscii(c: char): (u: char)
    ensures 'a' <= c <= 'z' ==> 'A' <= u <= 'Z'
    ensures !('a' <= c <= 'z') ==> u == c
  {
    if 'a' <= c <= 'z' then (c as int - 32) as char else c
  }

  /** `string.Equals(other, StringComparison.OrdinalIgnoreCase)`, with case mapping
      restricted to ASCII letters. */
  predicate EqualsIgnoreCase(a: string, b: string) {
    |a| == |b| && forall i :: 0 <= i < |a| ==> ToUpperAscii(a[i]) == ToUpperAscii(b[i])
  }

  /** Membership in the regular-expression class `[a-zA-Z0-9]`. */
  predicate IsAsciiLetterOrDigit(c: char) {
    'a' <= c <= 'z' || 'A' <= c <= 'Z' || '0' <= c <= '9'
  }

  /** An exact match is also a case-insensitive match. */
  lemma EqualImpliesEqualsIgnoreCase(a: string, b: string)
    requires a == b
    ensures EqualsIgnoreCase(a, b)
  {
  }

  /** The case-insensitive match identifies titles that differ only in letter case. */
  lemma IgnoreCaseIdentifiesCaseVariants()
    ensures EqualsIgnoreCase("Report", "REPORT")
    ensures "Report" != "REPORT"
  {
    assert ToUpperAscii('e') == 'E';
    assert ToUpperAscii('p') == 'P';
    assert ToUpperAscii('o') == 'O';
    assert ToUpperAscii('r') == 'R';
    assert ToUpperAscii('t') == 'T';
  }

  /** The substring test is case-sensitive: "Rep" is in "Report" but not in "report". */
  lemma ContainsIsCaseSensitive()
    ensures Contains("Report", "Rep")
    ensures !Contains("report", "Rep")
  {
    assert OccursAt("Report", "Rep", 0);
    forall i | 0 <= i <= 3
      ensures !OccursAt("report", "Rep", i)
    {
      assert "report"[i..i + 3][0] == "report"[i] != 'R';
    }
  }
}
