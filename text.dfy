/** Character and string helpers shared by the header translator and the
    command-line parser: the ECMAScript `\s` class, ASCII lower-casing and the
    `startsWith` / `endsWith` tests of JavaScript strings. */
module Text {

  /** A member of ECMAScript's `\s` class: the WhiteSpace code points (tab,
      vertical tab, form feed, space, no-break space, byte order mark and the
      space separators U+1680, U+2000..U+200A, U+202F, U+205F, U+3000) and the
      LineTerminator code points (LF, CR, U+2028, U+2029). */
  predicate IsSpace(c: char)
    ensures c as int < 0x80 ==> (IsSpace(c) <==> c == ' ' || '\t' <= c <= '\r')
    ensures IsSpace(c) ==> c != '_' && !('A' <= c <= 'Z')
  {
    || c == '\t' || c == '\n' || c == '\U{B}' || c == '\U{C}' || c == '\r'
    || c == ' ' || c == '\U{A0}' || c == '\U{1680}'
    || ('\U{2000}' <= c <= '\U{200A}')
    || c == '\U{2028}' || c == '\U{2029}' || c == '\U{202F}' || c == '\U{205F}'
    || c == '\U{3000}' || c == '\U{FEFF}'
  }

  predicate NoSpace(s: string) {
    forall i :: 0 <= i < |s| ==> !IsSpace(s[i])
  }

  /** `toLowerCase` on one character, restricted to ASCII: A..Z become a..z. */
  function LowerChar(c: char): (d: char)
    ensures IsSpace(d) <==> IsSpace(c)
    ensures !('A' <= d <= 'Z')
    ensures ('a' <= d <= 'z') <==> ('A' <= c <= 'Z' || 'a' <= c <= 'z')
    ensures 'A' <= c <= 'Z' ==> d as int - 'a' as int == c as int - 'A' as int
    ensures !('A' <= c <= 'Z') ==> d == c
  {
    if 'A' <= c <= 'Z' then (c as int + 32) as char else c
  }

  function ToLower(s: string): (r: string)
    ensures |r| == |s|
    ensures forall i :: 0 <= i < |s| ==> r[i] == LowerChar(s[i])
  {
    seq(|s|, i requires 0 <= i < |s| => LowerChar(s[i]))
  }

  /** Lower-casing a string twice is lower-casing it once. */
  lemma ToLowerIdempotent(s: string)
    ensures ToLower(ToLower(s)) == ToLower(s)
  {
  }

  /** Lower-casing neither creates nor removes whitespace. */
  lemma ToLowerKeepsNoSpace(s: string)
    ensures NoSpace(ToLower(s)) <==> NoSpace(s)
  {
  }

  predicate StartsWith(s: string, prefix: string)
    ensures StartsWith(s, prefix) <==>
      |prefix| <= |s| && forall i :: 0 <= i < |prefix| ==> s[i] == prefix[i]
  {
    |prefix| <= |s| && s[..|prefix|] == prefix
  }

  predicate EndsWith(s: string, suffix: string)
    ensures EndsWith(s, suffix) <==>
      |suffix| <= |s| && forall i :: 0 <= i < |suffix| ==> s[|s| - |suffix| + i] == suffix[i]
  {
    |suffix| <= |s| && s[|s| - |suffix|..] == suffix
  }
}
