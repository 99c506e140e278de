/**
 * Whitespace trimming as done by the two runtimes of the system: JavaScript's
 * `String.prototype.trim` (the formatter trims fenced code bodies) and Python's
 * `str.strip()` (the chat endpoint strips the user message). Both remove a
 * maximal run of whitespace from each end; only the whitespace sets differ.
 */
module Text {

  /** ECMAScript WhiteSpace and LineTerminator code points, the set `trim` removes. */
  predicate IsJsSpace(c: char) {
    || c == '\t' || c == '\n' || c == '\U{B}' || c == '\U{C}' || c == '\r' || c == ' '
    || c == '\U{A0}' || c == '\U{1680}' || ('\U{2000}' <= c <= '\U{200A}')
    || c == '\U{2028}' || c == '\U{2029}' || c == '\U{202F}' || c == '\U{205F}'
    || c == '\U{3000}' || c == '\U{FEFF}'
  }

  /** The code points for which Python's `str.isspace()` holds, the set `strip()` removes. */
  predicate IsPySpace(c: char) {
    || ('\t' <= c <= '\r') || ('\U{1C}' <= c <= ' ') || c == '\U{85}' || c == '\U{A0}'
    || c == '\U{1680}' || ('\U{2000}' <= c <= '\U{200A}')
    || c == '\U{2028}' || c == '\U{2029}' || c == '\U{202F}' || c == '\U{205F}'
    || c == '\U{3000}'
  }

  /** The length of the leading run of `ws` characters of `s`. */
  function LeadingSpaces(s: string, ws: char -> bool): (n: nat)
    ensures n <= |s|
    ensures forall i :: 0 <= i < n ==> ws(s[i])
    ensures n == |s| || !ws(s[n])
    decreases |s|
  {
    if s != [] && ws(s[0]) then 1 + LeadingSpaces(s[1..], ws) else 0
  }

  /** `s` with its trailing run of `ws` characters removed. */
  function TrimEnd(s: string, ws: char -> bool): (r: string)
    ensures |r| <= |s| && r == s[..|r|]
    ensures forall i :: |r| <= i < |s| ==> ws(s[i])
    ensures r == [] || !ws(r[|r| - 1])
    decreases |s|
  {
    if s != [] && ws(s[|s| - 1]) then TrimEnd(s[..|s| - 1], ws) else s
  }

  /**
   * `s` with whitespace removed from both ends: the slice of `s` that starts after the
   * leading whitespace, everything cut away on either side is whitespace, and the
   * slice neither starts nor ends with whitespace.
   */
  function Trim(s: string, ws: char -> bool): (r: string)
    ensures LeadingSpaces(s, ws) + |r| <= |s|
    ensures r == s[LeadingSpaces(s, ws)..LeadingSpaces(s, ws) + |r|]
    ensures forall k :: LeadingSpaces(s, ws) + |r| <= k < |s| ==> ws(s[k])
    ensures r == [] || (!ws(r[0]) && !ws(r[|r| - 1]))
  {
    var i := LeadingSpaces(s, ws);
    var t := s[i..];
    var r := TrimEnd(t, ws);
    assert forall k :: i + |r| <= k < |s| ==> s[k] == t[k - i];
    r
  }

  /** Trimming introduces no character that the original lacks. */
  lemma TrimKeepsCharacters(s: string, ws: char -> bool, c: char)
    requires c !in s
    ensures c !in Trim(s, ws)
  {
    var r, i := Trim(s, ws), LeadingSpaces(s, ws);
    forall k | 0 <= k < |r| ensures r[k] != c {
      assert r[k] == s[i + k];
    }
  }

  /**
   * The two whitespace sets differ in six code points: `strip` also removes the
   * information separators U+001C..U+001F and NEXT LINE U+0085; `trim` also removes the
   * byte-order mark U+FEFF. Everywhere else they agree.
   */
  lemma SpaceSetsDiffer(c: char)
    ensures IsJsSpace(c) && !IsPySpace(c) <==> c == '\U{FEFF}'
    ensures IsPySpace(c) && !IsJsSpace(c) <==> ('\U{1C}' <= c <= '\U{1F}') || c == '\U{85}'
  {
  }
}
