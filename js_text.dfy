/**
  The three JavaScript string operations the admin pages use on user input:
  `trim`, `toLowerCase` and `includes`.
 */
module JsText {

  /** The characters `String.prototype.trim` removes: the WhiteSpace and
      LineTerminator code points of ECMA-262 (sections 12.2 and 12.3). */
  const JsWhitespace: set<char> := {
    '\t', '\n', '\U{000B}', '\U{000C}', '\r', ' ', '\U{00A0}', '\U{1680}',
    '\U{2000}', '\U{2001}', '\U{2002}', '\U{2003}', '\U{2004}', '\U{2005}',
    '\U{2006}', '\U{2007}', '\U{2008}', '\U{2009}', '\U{200A}',
    '\U{2028}', '\U{2029}', '\U{202F}', '\U{205F}', '\U{3000}', '\U{FEFF}'
  }

  predicate IsJsWhitespace(c: char) {
    c in JsWhitespace
  }

  /** The first index at or after k that does not hold whitespace, or |s|. */
  function TrimStartCut(s: string, k: nat): (r: nat)
    requires k <= |s|
    ensures k <= r <= |s|
    ensures forall i :: k <= i < r ==> IsJsWhitespace(s[i])
    ensures r < |s| ==> !IsJsWhitespace(s[r])
    decreases |s| - k
  {
    if k < |s| && IsJsWhitespace(s[k]) then TrimStartCut(s, k + 1) else k
  }

  /** Scanning down from k, no lower than lo: the index just after the last
      non-whitespace character, or lo. */
  function TrimEndCut(s: string, lo: nat, k: nat): (r: nat)
    requires lo <= k <= |s|
    ensures lo <= r <= k
    ensures forall i :: r <= i < k ==> IsJsWhitespace(s[i])
    ensures r > lo ==> !IsJsWhitespace(s[r - 1])
    decreases k - lo
  {
    if k > lo && IsJsWhitespace(s[k - 1]) then TrimEndCut(s, lo, k - 1) else k
  }

  /** `s.trim()`: s without its leading and trailing whitespace. */
  function Trim(s: string): string {
    var a := TrimStartCut(s, 0);
    s[a..TrimEndCut(s, a, |s|)]
  }

  /** `trim` cuts a whitespace-only margin off each end and nothing else: the
      result is a slice of s that starts and ends with a non-whitespace
      character, or is empty. */
  lemma TrimIsSlice(s: string)
    ensures exists i, j :: (0 <= i <= j <= |s| && Trim(s) == s[i..j]
      && (forall k :: 0 <= k < i ==> IsJsWhitespace(s[k]))
      && (forall k :: j <= k < |s| ==> IsJsWhitespace(s[k])))
    ensures Trim(s) == [] || (!IsJsWhitespace(Trim(s)[0]) && !IsJsWhitespace(Trim(s)[|Trim(s)| - 1]))
  {
    var a := TrimStartCut(s, 0);
    var b := TrimEndCut(s, a, |s|);
    assert Trim(s) == s[a..b];
    if a < b {
      assert Trim(s)[0] == s[a] && Trim(s)[|Trim(s)| - 1] == s[b - 1];
    }
  }

  /** `!s.trim()`: the text is blank exactly when every character is whitespace. */
  lemma BlankIffAllWhitespace(s: string)
    ensures Trim(s) == [] <==> forall k :: 0 <= k < |s| ==> IsJsWhitespace(s[k])
  {
    var a := TrimStartCut(s, 0);
    var b := TrimEndCut(s, a, |s|);
    assert Trim(s) == s[a..b];
    if a < b {
      assert !IsJsWhitespace(s[b - 1]);
    }
  }

  /** `toLowerCase` on the ASCII letters; other characters are kept. */
  function LowerChar(c: char): char {
    if 'A' <= c <= 'Z' then (c as int + 32) as char else c
  }

  function Lower(s: string): (r: string)
    ensures |r| == |s| && forall i :: 0 <= i < |s| ==> r[i] == LowerChar(s[i])
  {
    seq(|s|, i requires 0 <= i < |s| => LowerChar(s[i]))
  }

  /** Lower-casing twice changes nothing more. */
  lemma LowerIdempotent(s: string)
    ensures Lower(Lower(s)) == Lower(s)
  {
    assert forall i :: 0 <= i < |s| ==> LowerChar(LowerChar(s[i])) == LowerChar(s[i]);
  }

  /** sub occurs in s at position i. */
  predicate OccursAt(s: string, sub: string, i: int) {
    0 <= i && i + |sub| <= |s| && s[i..i + |sub|] == sub
  }

  /** `s.includes(sub)`, by scanning the start positions. */
  function Includes(s: string, sub: string): (b: bool)
    ensures b <==> exists i :: OccursAt(s, sub, i)
  {
    if sub <= s then
      assert OccursAt(s, sub, 0);
      true
    else if s == [] then
      false
    else
      var rest := Includes(s[1..], sub);
      assert forall i :: 1 <= i && OccursAt(s, sub, i) ==> OccursAt(s[1..], sub, i - 1);
      assert forall i :: OccursAt(s[1..], sub, i) ==> OccursAt(s, sub, i + 1);
      rest
  }
}
