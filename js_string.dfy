/**
 * The parts of JavaScript's String.prototype that the line picker relies on:
 * `trim`, `toLowerCase` and `indexOf`, stated over Unicode scalar values.
 */
module JsString {

  /**
   * The code points ECMAScript counts as WhiteSpace or LineTerminator: TAB, VT, FF,
   * SPACE, NO-BREAK SPACE, ZERO WIDTH NO-BREAK SPACE, the Space_Separator category
   * (U+1680, U+2000..U+200A, U+202F, U+205F, U+3000), LF, CR, LS and PS.
   */
  predicate IsWhitespace(c: char) {
    || c == '\t' || c == '\U{B}' || c == '\U{C}' || c == ' '
    || c == '\U{A0}' || c == '\U{FEFF}' || c == '\U{1680}'
    || ('\U{2000}' <= c <= '\U{200A}') || c == '\U{202F}' || c == '\U{205F}' || c == '\U{3000}'
    || c == '\n' || c == '\r' || c == '\U{2028}' || c == '\U{2029}'
  }

  /** A string made of whitespace only: the strings whose `trim()` is falsy. */
  predicate IsBlank(s: string) {
    forall i :: 0 <= i < |s| ==> IsWhitespace(s[i])
  }

  /** `s.trimStart()`: the longest suffix of `s` that does not start with whitespace. */
  function TrimStart(s: string): (r: string)
    ensures |r| <= |s| && r == s[|s| - |r|..]
    ensures IsBlank(s[..|s| - |r|])
    ensures r == [] || !IsWhitespace(r[0])
  {
    if s != [] && IsWhitespace(s[0]) then TrimStart(s[1..]) else s
  }

  /** `s.trimEnd()`: the longest prefix of `s` that does not end with whitespace. */
  function TrimEnd(s: string): (r: string)
    ensures |r| <= |s| && r == s[..|r|]
    ensures IsBlank(s[|r|..])
    ensures r == [] || !IsWhitespace(r[|r| - 1])
  {
    if s != [] && IsWhitespace(s[|s| - 1]) then TrimEnd(s[..|s| - 1]) else s
  }

  /** `s.trim()`. */
  function Trim(s: string): (r: string)
  {
    TrimEnd(TrimStart(s))
  }

  /** A string with no whitespace at either end is its own `trimStart()` and `trimEnd()`. */
  lemma TrimUnpadded(s: string)
    requires s != [] ==> !IsWhitespace(s[0]) && !IsWhitespace(s[|s| - 1])
    ensures TrimStart(s) == s && TrimEnd(s) == s && Trim(s) == s
  {
  }

  /** `s.trim()` is the empty (falsy) string exactly when `s` is blank. */
  lemma TrimEmptyIffBlank(s: string)
    ensures Trim(s) == [] <==> IsBlank(s)
  {
    var t := TrimStart(s);
    if !IsBlank(s) {
      assert IsBlank(TrimEnd(t)) ==> IsBlank(t[0..]);
      assert s == s[..|s| - |t|] + t;
    }
  }

  /** What `trim()` leaves has no whitespace at either end and is a stretch of `s`. */
  lemma TrimShape(s: string)
    ensures var r := Trim(s);
      && (r == [] || (!IsWhitespace(r[0]) && !IsWhitespace(r[|r| - 1])))
      && exists i :: OccursAt(s, r, i)
  {
    var t := TrimStart(s);
    var r := TrimEnd(t);
    var i := |s| - |t|;
    assert s[i..i + |r|] == t[..|r|];
    assert OccursAt(s, r, i);
    if r != [] {
      assert r[0] == t[0];
    }
  }

  /** `toLowerCase` on one character; only the ASCII letters A..Z are mapped. */
  function ToLowerChar(c: char): char {
    if 'A' <= c <= 'Z' then (c as int + 32) as char else c
  }

  /** `s.toLowerCase()`, character by character. */
  function ToLower(s: string): (r: string)
    ensures |r| == |s|
    ensures forall i :: 0 <= i < |s| ==> r[i] == ToLowerChar(s[i])
  {
    if s == [] then [] else [ToLowerChar(s[0])] + ToLower(s[1..])
  }

  /** `q` occurs in `s` starting at position `j`. */
  predicate OccursAt(s: string, q: string, j: int) {
    0 <= j && j + |q| <= |s| && s[j..j + |q|] == q
  }

  /** `s.indexOf(q)`: the first position where `q` occurs in `s`, or -1. */
  function IndexOf(s: string, q: string): (r: int)
    ensures r == -1 || OccursAt(s, q, r)
    ensures forall j :: 0 <= j && (r == -1 || j < r) ==> !OccursAt(s, q, j)
  {
    IndexFrom(s, q, 0)
  }

  function IndexFrom(s: string, q: string, from: nat): (r: int)
    ensures r == -1 || (from <= r && OccursAt(s, q, r))
    ensures forall j :: from <= j && (r == -1 || j < r) ==> !OccursAt(s, q, j)
    decreases |s| - from
  {
    if from + |q| > |s| then -1
    else if s[from..from + |q|] == q then from
    else IndexFrom(s, q, from + 1)
  }

  /** `toLowerCase` never produces an ASCII capital. */
  lemma ToLowerHasNoCapital(s: string, i: int)
    requires 0 <= i < |s|
    ensures !('A' <= ToLower(s)[i] <= 'Z')
  {
  }
}
