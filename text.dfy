/**
 * String helpers shared by the classifiers and parsers: an Option type for
 * the source's `null`/`undefined`, ASCII lower-casing (the model of
 * `toLowerCase`), the JavaScript whitespace class used by `trim()` and `\s`,
 * substring search (`includes`), suffix tests (`endsWith`) and whole-word
 * tokens (a literal between two `\b` boundaries).
 */
module Text {

  datatype Option<+T> = None | Some(value: T)

  // ---------------------------------------------------------------------
  // Characters

  predicate IsUpper(c: char) { 'A' <= c <= 'Z' }

  predicate IsDigit(c: char) { '0' <= c <= '9' }

  /** A character of the regular-expression class `\w`: `[A-Za-z0-9_]`. */
  predicate IsWordChar(c: char) {
    ('a' <= c <= 'z') || IsUpper(c) || IsDigit(c) || c == '_'
  }

  /** The line terminators of ECMAScript; `.` in a regular expression does not match them. */
  predicate IsLineTerminator(c: char) {
    c == '\n' || c == '\r' || c == '\U{2028}' || c == '\U{2029}'
  }

  /**
   * The ECMAScript white space and line terminators, i.e. what `\s` matches
   * and `trim()` removes: tab, line feed, vertical tab, form feed, carriage
   * return and space in the ASCII range, and the wide ones above it.
   */
  predicate IsSpace(c: char) {
    if c <= ' ' then c == ' ' || ('\t' <= c <= '\r') else '\U{00A0}' <= c && IsWideSpace(c)
  }

  /** The white space and line terminators of ECMAScript above the ASCII range. */
  predicate IsWideSpace(c: char) {
    || c == '\U{00A0}' || c == '\U{FEFF}' || c == '\U{1680}' || ('\U{2000}' <= c <= '\U{200A}')
    || c == '\U{2028}' || c == '\U{2029}' || c == '\U{202F}' || c == '\U{205F}' || c == '\U{3000}'
  }

  function LowerChar(c: char): (r: char)
    ensures !IsUpper(r)
    ensures IsUpper(c) ==> r as int == c as int + 32
    ensures !IsUpper(c) ==> r == c
  {
    if IsUpper(c) then (c as int + 32) as char else c
  }

  /** ASCII lower-casing: every upper-case Latin letter is replaced by its lower-case form. */
  function Lower(s: string): (r: string)
    ensures |r| == |s|
    ensures forall i :: 0 <= i < |s| ==> r[i] == LowerChar(s[i])
  {
    seq(|s|, i requires 0 <= i < |s| => LowerChar(s[i]))
  }

  lemma LowerIdempotent(s: string)
    ensures Lower(Lower(s)) == Lower(s)
  {
  }

  // ---------------------------------------------------------------------
  // Substrings

  /** `t` occurs in `s` starting at index `i`. */
  ghost predicate OccursAt(s: string, t: string, i: int) {
    0 <= i && i + |t| <= |s| && s[i..i + |t|] == t
  }

  /** `s.endsWith(t)` */
  predicate EndsWith(s: string, t: string) {
    |t| <= |s| && s[|s| - |t|..] == t
  }

  /** `s.startsWith(t)` */
  predicate StartsWith(s: string, t: string) {
    |t| <= |s| && s[..|t|] == t
  }

  /** Of two suffixes of one string, the shorter is a suffix of the longer. */
  lemma EndsWithBoth(s: string, a: string, b: string)
    requires EndsWith(s, a) && EndsWith(s, b) && |a| <= |b|
    ensures b[|b| - |a|..] == a
  {
    assert b[|b| - |a|..] == s[|s| - |b|..][|b| - |a|..] == s[|s| - |a|..];
  }

  /** `s.includes(t)`: some occurrence of `t` in `s`. */
  function Contains(s: string, t: string): (r: bool)
    ensures r <==> exists i :: OccursAt(s, t, i)
    decreases |s|
  {
    if |t| > |s| then
      assert forall i :: !OccursAt(s, t, i);
      false
    else if s[..|t|] == t then
      assert OccursAt(s, t, 0);
      true
    else
      var rest := Contains(s[1..], t);
      ShiftOccurrence(s, t);
      rest
  }

  /** An occurrence in `s[1..]` is an occurrence in `s` one position later, and vice versa. */
  lemma ShiftOccurrence(s: string, t: string)
    requires |t| <= |s| && s[..|t|] != t
    ensures (exists i :: OccursAt(s[1..], t, i)) <==> (exists i :: OccursAt(s, t, i))
  {
    forall i | OccursAt(s[1..], t, i) ensures OccursAt(s, t, i + 1) {
      assert s[1..][i..i + |t|] == s[i + 1..i + 1 + |t|];
    }
    forall i | OccursAt(s, t, i) ensures i >= 1 && OccursAt(s[1..], t, i - 1) {
      assert s[1..][i - 1..i - 1 + |t|] == s[i..i + |t|];
    }
  }

  /** A string with no occurrence of some character of `t` does not contain `t`. */
  lemma MissingCharNotContained(s: string, t: string, c: char)
    requires c in t && c !in s
    ensures !Contains(s, t)
  {
  }

  /** None of the strings `ts[k]` occurs in `s` when each has a character `cs[k]` that `s` lacks. */
  lemma NoneContained(s: string, ts: seq<string>, cs: string)
    requires |ts| == |cs| && forall k :: 0 <= k < |ts| ==> cs[k] in ts[k] && cs[k] !in s
    ensures forall k :: 0 <= k < |ts| ==> !Contains(s, ts[k])
  {
    forall k | 0 <= k < |ts| ensures !Contains(s, ts[k]) {
      MissingCharNotContained(s, ts[k], cs[k]);
    }
  }

  // ---------------------------------------------------------------------
  // Whole-word tokens

  /**
   * `t` occurs at `i` with a `\b` boundary on each side. For a literal that
   * begins and ends with a word character (all tokens used here do), this is
   * exactly what `/\bt\b/` finds at `i`.
   */
  ghost predicate TokenAt(s: string, t: string, i: int) {
    && OccursAt(s, t, i)
    && (i == 0 || !IsWordChar(s[i - 1]))
    && (i + |t| == |s| || !IsWordChar(s[i + |t|]))
  }

  predicate BoundedAt(s: string, t: string, i: nat)
    requires i + |t| <= |s|
  {
    && s[i..i + |t|] == t
    && (i == 0 || !IsWordChar(s[i - 1]))
    && (i + |t| == |s| || !IsWordChar(s[i + |t|]))
  }

  /** Whether `/\bt\b/` matches somewhere in `s` at index `from` or later. */
  function HasTokenFrom(s: string, t: string, from: nat): (r: bool)
    ensures r <==> exists i :: from <= i && TokenAt(s, t, i)
    decreases |s| - from
  {
    if from + |t| > |s| then
      false
    else if BoundedAt(s, t, from) then
      assert TokenAt(s, t, from);
      true
    else
      var rest := HasTokenFrom(s, t, from + 1);
      assert !TokenAt(s, t, from);
      assert forall i :: from <= i && TokenAt(s, t, i) ==> from + 1 <= i;
      rest
  }

  /** `/\bt\b/.test(s)` */
  function HasToken(s: string, t: string): (r: bool)
    ensures r <==> exists i :: TokenAt(s, t, i)
  {
    HasTokenFrom(s, t, 0)
  }

  // ---------------------------------------------------------------------
  // Trimming

  ghost predicate AllSpace(s: string) {
    forall i :: 0 <= i < |s| ==> IsSpace(s[i])
  }

  /** `s` holds no line terminator, so `.` matches each of its characters. */
  predicate SingleLine(s: string) {
    forall i :: 0 <= i < |s| ==> !IsLineTerminator(s[i])
  }

  /** The length of the run of white space starting at `i`, the greedy match of `\s*` there. */
  function SpaceRun(s: string, i: nat): (n: nat)
    requires i <= |s|
    ensures i + n <= |s|
    ensures i + n == |s| || !IsSpace(s[i + n])
    decreases |s| - i
  {
    if i < |s| && IsSpace(s[i]) then 1 + SpaceRun(s, i + 1) else 0
  }

  /** The greedy run is made of white space. */
  lemma {:induction false} SpaceRunSpaces(s: string, i: nat)
    requires i <= |s|
    ensures forall m :: i <= m < i + SpaceRun(s, i) ==> IsSpace(s[m])
    decreases |s| - i
  {
    if i < |s| && IsSpace(s[i]) {
      SpaceRunSpaces(s, i + 1);
    }
  }

  /** A run of white space is no longer than the greedy run. */
  lemma {:induction false} SpaceRunMax(s: string, i: nat, k: nat)
    requires i + k <= |s| && forall m :: i <= m < i + k ==> IsSpace(s[m])
    ensures k <= SpaceRun(s, i)
    decreases k
  {
    if k > 0 {
      SpaceRunMax(s, i + 1, k - 1);
    }
  }

  /** A run of white space that ends before a non-space is the greedy run. */
  lemma {:induction false} SpaceRunUnique(s: string, i: nat, k: nat)
    requires i <= k <= |s| && forall m :: i <= m < k ==> IsSpace(s[m])
    requires k == |s| || !IsSpace(s[k])
    ensures SpaceRun(s, i) == k - i
    decreases k - i
  {
    if i < k {
      SpaceRunUnique(s, i + 1, k);
    }
  }

  /**
   * The length of the run of white space that ends at `j`, going back no
   * further than `lo`.
   */
  function SpaceRunBack(s: string, lo: nat, j: nat): (n: nat)
    requires lo <= j <= |s|
    ensures lo <= j - n
    ensures j - n == lo || !IsSpace(s[j - n - 1])
    decreases j - lo
  {
    if lo < j && IsSpace(s[j - 1]) then 1 + SpaceRunBack(s, lo, j - 1) else 0
  }

  /** The run found going back is made of white space. */
  lemma {:induction false} SpaceRunBackSpaces(s: string, lo: nat, j: nat)
    requires lo <= j <= |s|
    ensures forall m :: j - SpaceRunBack(s, lo, j) <= m < j ==> IsSpace(s[m])
    decreases j - lo
  {
    if lo < j && IsSpace(s[j - 1]) {
      SpaceRunBackSpaces(s, lo, j - 1);
    }
  }

  /** `s.trim()`: what lies between the leading and the trailing white space. */
  function Trim(s: string): string {
    var a := SpaceRun(s, 0);
    s[a..|s| - SpaceRunBack(s, a, |s|)]
  }

  /**
   * `Trim(s)` is the slice of `s` left after removing the leading and
   * trailing white space: what was removed is all white space and the result
   * neither starts nor ends with white space.
   */
  lemma TrimMeaning(s: string)
    ensures exists i :: 0 <= i && i + |Trim(s)| <= |s| && Trim(s) == s[i..i + |Trim(s)|]
                        && AllSpace(s[..i]) && AllSpace(s[i + |Trim(s)|..])
    ensures Trim(s) == [] || (!IsSpace(Trim(s)[0]) && !IsSpace(Trim(s)[|Trim(s)| - 1]))
  {
    var a := SpaceRun(s, 0);
    var b := |s| - SpaceRunBack(s, a, |s|);
    SpaceRunSpaces(s, 0);
    SpaceRunBackSpaces(s, a, |s|);
    assert Trim(s) == s[a..b];
    assert AllSpace(s[..a]);
    assert AllSpace(s[b..]);
  }

  /**
   * Trimming a string that starts with a non-space character and has a
   * non-space character at `w - 1` keeps its first `w` characters and the
   * character after them.
   */
  lemma TrimKeepsPrefix(s: string, w: nat)
    requires 0 < w <= |s| && !IsSpace(s[0]) && !IsSpace(s[w - 1])
    ensures |Trim(s)| >= w && Trim(s)[..w] == s[..w]
    ensures w < |s| && !IsSpace(s[w]) ==> |Trim(s)| > w && Trim(s)[w] == s[w]
  {
    var b := |s| - SpaceRunBack(s, 0, |s|);
    SpaceRunBackSpaces(s, 0, |s|);
    assert SpaceRun(s, 0) == 0;
    assert Trim(s) == s[..b];
  }

  /** A string that neither starts nor ends with white space is its own trim. */
  lemma TrimUnchanged(s: string)
    requires s == [] || (!IsSpace(s[0]) && !IsSpace(s[|s| - 1]))
    ensures Trim(s) == s
  {
  }
}
