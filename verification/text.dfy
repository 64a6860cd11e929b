/** The few `java.lang.String` and Spring `StringUtils` operations the core relies on. */
module Text {

  /** `String.startsWith`. */
  predicate StartsWith(s: string, prefix: string) {
    |prefix| <= |s| && s[..|prefix|] == prefix
  }

  /** `java.lang.Character.isWhitespace`: the Unicode space separators other than the
      no-break ones, plus the ASCII controls TAB, LF, VT, FF, CR and FS, GS, RS, US. */
  predicate IsJavaWhitespace(c: char) {
    || c == ' '
    || ('\t' <= c <= '\r')
    || ('\U{1C}' <= c <= '\U{1F}')
    || c == '\U{1680}'
    || ('\U{2000}' <= c <= '\U{2006}')
    || ('\U{2008}' <= c <= '\U{200A}')
    || c == '\U{2028}' || c == '\U{2029}' || c == '\U{205F}' || c == '\U{3000}'
  }

  /** `StringUtils.hasText`: present and holding at least one non-whitespace character. */
  predicate HasText(s: string) {
    exists i :: 0 <= i < |s| && !IsJavaWhitespace(s[i])
  }

  /** `String.isBlank`: empty or whitespace only. */
  predicate IsBlank(s: string) {
    forall i :: 0 <= i < |s| ==> IsJavaWhitespace(s[i])
  }

  lemma BlankIffNoText(s: string)
    ensures IsBlank(s) <==> !HasText(s)
  {
  }

  /** A string that starts with a non-whitespace character has text; so a header that
      starts with "Bearer " always passes the `hasText` test that guards it. */
  lemma PrefixGivesText(s: string, prefix: string)
    requires StartsWith(s, prefix) && |prefix| > 0 && !IsJavaWhitespace(prefix[0])
    ensures HasText(s)
  {
  }

  /** Upper-casing of one character, for the letters of the Latin alphabet. */
  function UpperChar(c: char): (u: char)
    ensures 'a' <= c <= 'z' ==> u as int == c as int - 32
    ensures !('a' <= c <= 'z') ==> u == c
  {
    if 'a' <= c <= 'z' then (c as int - 32) as char else c
  }

  function Upper(s: string): (u: string)
    ensures |u| == |s|
    ensures forall i :: 0 <= i < |s| ==> u[i] == UpperChar(s[i])
  {
    if s == [] then [] else [UpperChar(s[0])] + Upper(s[1..])
  }

  /** `needle` occurs in `hay` starting at `i`. */
  predicate OccursAt(hay: string, needle: string, i: nat) {
    i + |needle| <= |hay| && hay[i..i + |needle|] == needle
  }

  /** SQL `like '%needle%'` with the wildcards of `needle` escaped: a plain substring test. */
  predicate Contains(hay: string, needle: string) {
    exists i: nat | i <= |hay| :: OccursAt(hay, needle, i)
  }

  /** Spring Data's `...ContainingIgnoreCase`: `upper(column) like upper('%query%')`. */
  predicate ContainsIgnoreCase(hay: string, needle: string) {
    Contains(Upper(hay), Upper(needle))
  }

  /** The decimal digits of a natural number, most significant first. */
  function NatDigits(n: nat): (s: string)
    ensures |s| > 0
    ensures forall i :: 0 <= i < |s| ==> '0' <= s[i] <= '9'
    decreases n
  {
    var d := ['0' + (n % 10) as char];
    if n < 10 then d else NatDigits(n / 10) + d
  }

  /** `Long.toString`: an optional minus sign followed by the digits. */
  function IntText(n: int): (s: string)
    ensures |s| > 0
    ensures s[0] == '-' || '0' <= s[0] <= '9'
  {
    if n < 0 then "-" + NatDigits(-n) else NatDigits(n)
  }

  /** `AbstractCollection.toString` of a list of strings: "[a, b, c]". */
  function ListText(items: seq<string>): (s: string)
    ensures |s| >= 2 && s[0] == '[' && s[|s| - 1] == ']'
  {
    "[" + Join(items) + "]"
  }

  function Join(items: seq<string>): string {
    if items == [] then ""
    else if |items| == 1 then items[0]
    else items[0] + ", " + Join(items[1..])
  }
}
