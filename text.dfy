/** The few Python string operations the marketplace relies on: str.isspace
    (behind WTForms' DataRequired), str.lower, `in` on strings, str.endswith
    and the position of the last '.' (behind str.rsplit('.', 1)). */
module Text {

  import opened Results

  /** The characters Python's str.isspace accepts. */
  const Whitespace: set<char> := {
    '\t', '\n', '\U{b}', '\U{c}', '\r', '\U{1c}', '\U{1d}', '\U{1e}', '\U{1f}', ' ',
    '\U{85}', '\U{a0}', '\U{1680}',
    '\U{2000}', '\U{2001}', '\U{2002}', '\U{2003}', '\U{2004}', '\U{2005}',
    '\U{2006}', '\U{2007}', '\U{2008}', '\U{2009}', '\U{200a}',
    '\U{2028}', '\U{2029}', '\U{202f}', '\U{205f}', '\U{3000}'
  }

  /** Python's str.isspace for a single character. */
  predicate IsSpace(c: char) {
    c in Whitespace
  }

  /** `s.strip() != ""`: some character of s is not whitespace. */
  predicate HasText(s: string) {
    exists i :: 0 <= i < |s| && !IsSpace(s[i])
  }

  function LowerChar(c: char): char {
    if 'A' <= c <= 'Z' then (c as int + 32) as char else c
  }

  /** str.lower, restricted to ASCII letters. */
  function Lower(s: string): (r: string)
    ensures |r| == |s|
    ensures forall i :: 0 <= i < |s| ==> r[i] == LowerChar(s[i])
  {
    seq(|s|, i requires 0 <= i < |s| => LowerChar(s[i]))
  }

  lemma LowerSlice(s: string, i: nat, j: nat)
    requires i <= j <= |s|
    ensures Lower(s[i..j]) == Lower(s)[i..j]
  {
  }

  lemma LowerKeepsDot(c: char)
    ensures LowerChar(c) == '.' <==> c == '.'
  {
  }

  /** q occurs in s at position k. */
  predicate OccursAt(s: string, q: string, k: nat) {
    k + |q| <= |s| && s[k..k + |q|] == q
  }

  /** SQL `s LIKE '%q%'` with no wildcard in q: q occurs at some position of
      s, found by scanning s from the left. */
  function Contains(s: string, q: string): (r: bool)
    ensures r <==> exists k: nat :: OccursAt(s, q, k)
    decreases |s|
  {
    if |q| > |s| then
      assert forall k: nat :: !OccursAt(s, q, k);
      false
    else if s[..|q|] == q then
      assert OccursAt(s, q, 0);
      true
    else
      var rest := Contains(s[1..], q);
      assert forall k: nat :: OccursAt(s[1..], q, k) <==> OccursAt(s, q, k + 1) by {
        forall k: nat ensures OccursAt(s[1..], q, k) <==> OccursAt(s, q, k + 1) {
          if k + 1 + |q| <= |s| {
            assert s[1..][k..k + |q|] == s[k + 1..k + 1 + |q|];
          }
        }
      }
      assert !OccursAt(s, q, 0);
      assert forall k: nat :: OccursAt(s, q, k) ==> k == 0 || OccursAt(s[1..], q, k - 1);
      rest
  }

  /** Python's s.endswith(suffix). */
  predicate EndsWith(s: string, suffix: string) {
    |suffix| <= |s| && s[|s| - |suffix|..] == suffix
  }

  /** s[i] is a '.' and no '.' follows it. */
  predicate IsLastDot(s: string, i: int) {
    0 <= i < |s| && s[i] == '.' && forall j :: i < j < |s| ==> s[j] != '.'
  }

  /** The index of the last '.' in s, which is where s.rsplit('.', 1) splits. */
  function LastDot(s: string): (r: Option<nat>)
    ensures r.Some? ==> IsLastDot(s, r.value)
    ensures r.None? <==> forall j :: 0 <= j < |s| ==> s[j] != '.'
  {
    if s == [] then None
    else if s[|s| - 1] == '.' then Some(|s| - 1)
    else
      var r := LastDot(s[..|s| - 1]);
      assert forall j :: 0 <= j < |s| - 1 ==> s[..|s| - 1][j] == s[j];
      r
  }
}
