/**
 * Version numbers on the roadmap page: `parseSemver` reads the leading
 * `MAJOR.MINOR.PATCH` of a tag or heading, and `compareSemver` orders two
 * versions component by component.
 *
 * The regular expressions are replaced by index arithmetic: `DigitEnd` ends a
 * greedy `\d+`, `MatchVersionAt` is `(\d+)\.(\d+)\.(\d+)\b` tried at one
 * position, and `VersionAt` describes such a match declaratively.
 */
module Semver {
  import opened Text
  import opened StableSort

  datatype Semver = Semver(major: nat, minor: nat, patch: nat)

  // ---------------------------------------------------------------------
  // Digits

  ghost predicate AllDigits(s: string) {
    forall i :: 0 <= i < |s| ==> IsDigit(s[i])
  }

  /** `Number(s)` for a string of decimal digits. */
  function DigitsValue(s: string): nat
    requires AllDigits(s)
    decreases |s|
  {
    if s == [] then 0
    else DigitsValue(s[..|s| - 1]) * 10 + (s[|s| - 1] as int - '0' as int)
  }

  /** The decimal numeral of `n`, without leading zeros. */
  function NatToString(n: nat): (r: string)
    ensures |r| > 0 && AllDigits(r)
    ensures DigitsValue(r) == n
    decreases n
  {
    var d := ['0' + (n % 10) as char];
    if n < 10 then d
    else
      var r := NatToString(n / 10) + d;
      assert r[..|r| - 1] == NatToString(n / 10);
      r
  }

  /** The index where the greedy `\d+`-style run of digits starting at `i` ends. */
  function DigitEnd(s: string, i: nat): (e: nat)
    requires i <= |s|
    ensures i <= e <= |s|
    ensures forall m :: i <= m < e ==> IsDigit(s[m])
    ensures e == |s| || !IsDigit(s[e])
    decreases |s| - i
  {
    if i < |s| && IsDigit(s[i]) then DigitEnd(s, i + 1) else i
  }

  /** A run of digits that ends before a non-digit is the greedy run. */
  lemma {:induction false} DigitEndUnique(s: string, i: nat, k: nat)
    requires i <= k <= |s| && AllDigits(s[i..k])
    requires k == |s| || !IsDigit(s[k])
    ensures DigitEnd(s, i) == k
    decreases k - i
  {
    if i < k {
      assert IsDigit(s[i..k][0]);
      assert s[i + 1..k] == s[i..k][1..];
      DigitEndUnique(s, i + 1, k);
    }
  }

  // ---------------------------------------------------------------------
  // The version pattern

  /**
   * `t[q..k]` is `D1.D2.D3` with the dots at `i` and `j`, each `D` a
   * non-empty run of digits, the last one not followed by a digit, and `x`
   * is the version those runs denote.
   */
  ghost predicate VersionAt(t: string, q: nat, i: nat, j: nat, k: nat, x: Semver) {
    && q < i < j - 1 && j + 1 < k <= |t|
    && t[i] == '.' && t[j] == '.'
    && AllDigits(t[q..i]) && AllDigits(t[i + 1..j]) && AllDigits(t[j + 1..k])
    && (k == |t| || !IsDigit(t[k]))
    && x == Semver(DigitsValue(t[q..i]), DigitsValue(t[i + 1..j]), DigitsValue(t[j + 1..k]))
  }

  /** The pattern ends at a `\b`: at the end of the text or before a non-word character. */
  predicate BoundaryAt(t: string, k: nat)
    requires k <= |t|
  {
    k == |t| || !IsWordChar(t[k])
  }

  /** A match of the version pattern: the version and the index just past its text. */
  datatype VersionMatch = VersionMatch(version: Semver, end: nat)

  /** `(\d+)\.(\d+)\.(\d+)\b` tried at position `q` of `t`. */
  function MatchVersionAt(t: string, q: nat): (r: Option<VersionMatch>)
    requires q <= |t|
    ensures r.Some? ==> q < r.value.end <= |t| && BoundaryAt(t, r.value.end)
  {
    var i := DigitEnd(t, q);
    if i == q || i == |t| || t[i] != '.' then None
    else
      var j := DigitEnd(t, i + 1);
      if j == i + 1 || j == |t| || t[j] != '.' then None
      else
        var k := DigitEnd(t, j + 1);
        if k == j + 1 || !BoundaryAt(t, k) then None
        else Some(VersionMatch(VersionOf(t, q, i, j, k), k))
  }

  /** The version denoted by the digit runs `t[q..i]`, `t[i + 1..j]` and `t[j + 1..k]`. */
  function VersionOf(t: string, q: nat, i: nat, j: nat, k: nat): Semver
    requires q < i < j < k <= |t|
    requires AllDigits(t[q..i]) && AllDigits(t[i + 1..j]) && AllDigits(t[j + 1..k])
  {
    Semver(DigitsValue(t[q..i]), DigitsValue(t[i + 1..j]), DigitsValue(t[j + 1..k]))
  }

  /** What `MatchVersionAt` finds is a version pattern at `q`. */
  lemma MatchVersionAtSound(t: string, q: nat)
    requires q <= |t|
    ensures MatchVersionAt(t, q).Some? ==>
              exists i, j :: VersionAt(t, q, i, j, MatchVersionAt(t, q).value.end, MatchVersionAt(t, q).value.version)
  {
    var r := MatchVersionAt(t, q);
    if r.Some? {
      var i := DigitEnd(t, q);
      assert q < i < |t| && t[i] == '.';
      var j := DigitEnd(t, i + 1);
      assert i + 1 < j < |t| && t[j] == '.';
      var k := DigitEnd(t, j + 1);
      assert j + 1 < k && BoundaryAt(t, k);
      assert r.value == VersionMatch(VersionOf(t, q, i, j, k), k);
      assert VersionAt(t, q, i, j, k, r.value.version);
    }
  }

  /** Every version pattern at `q` followed by a boundary is what `MatchVersionAt` finds. */
  lemma MatchVersionAtComplete(t: string, q: nat, i: nat, j: nat, k: nat, x: Semver)
    requires VersionAt(t, q, i, j, k, x) && BoundaryAt(t, k)
    ensures MatchVersionAt(t, q) == Some(VersionMatch(x, k))
  {
    VersionAtRuns(t, q, i, j, k, x);
    MatchVersionAtRuns(t, q, i, j, k);
  }

  /** `MatchVersionAt` when the three greedy runs are separated by dots and end at a boundary. */
  lemma MatchVersionAtRuns(t: string, q: nat, i: nat, j: nat, k: nat)
    requires q <= |t|
    requires i == DigitEnd(t, q) && q < i < |t| && t[i] == '.'
    requires j == DigitEnd(t, i + 1) && i + 1 < j < |t| && t[j] == '.'
    requires k == DigitEnd(t, j + 1) && j + 1 < k && BoundaryAt(t, k)
    ensures MatchVersionAt(t, q)
            == Some(VersionMatch(VersionOf(t, q, i, j, k), k))
  {
  }

  /** The three runs of a version match are the greedy digit runs. */
  lemma VersionAtRuns(t: string, q: nat, i: nat, j: nat, k: nat, x: Semver)
    requires VersionAt(t, q, i, j, k, x)
    ensures i == DigitEnd(t, q)
    ensures j == DigitEnd(t, i + 1)
    ensures k == DigitEnd(t, j + 1)
  {
    DigitEndUnique(t, q, i);
    DigitEndUnique(t, i + 1, j);
    DigitEndUnique(t, j + 1, k);
  }

  // ---------------------------------------------------------------------
  // parseSemver

  /** `value.trim()` with one leading `v` or `V` removed. */
  function Cleaned(value: string): string {
    var t := Trim(value);
    if |t| > 0 && (t[0] == 'v' || t[0] == 'V') then t[1..] else t
  }

  predicate IsNumericChar(c: char) {
    IsDigit(c) || c == '.'
  }

  /** The length of the run of digits and dots at the start of `s`, i.e. of the match of `^[\d.]+`. */
  function NumericRun(s: string): (n: nat)
    ensures n <= |s|
    ensures forall m :: 0 <= m < n ==> IsNumericChar(s[m])
    ensures n == |s| || !IsNumericChar(s[n])
    decreases |s|
  {
    if |s| > 0 && IsNumericChar(s[0]) then 1 + NumericRun(s[1..]) else 0
  }

  /** The match of `^[\d.]+`, or the whole string when there is none. */
  function NumericPrefix(cleaned: string): string {
    var n := NumericRun(cleaned);
    if n > 0 then cleaned[..n] else cleaned
  }

  /** `parseSemver`: the version at the start of the numeric prefix of the cleaned value. */
  function ParseSemver(value: string): Option<Semver> {
    match MatchVersionAt(NumericPrefix(Cleaned(value)), 0)
    case None => None
    case Some(m) => Some(m.version)
  }

  /** A version pattern at the start of `c` lies inside the run of digits and dots. */
  lemma VersionInNumericRun(c: string, i: nat, j: nat, k: nat, x: Semver)
    requires VersionAt(c, 0, i, j, k, x)
    ensures k <= NumericRun(c)
  {
    forall m | 0 <= m < k ensures IsNumericChar(c[m]) {
      if m < i {
        assert c[m] == c[0..i][m];
      } else if i < m < j {
        assert c[m] == c[i + 1..j][m - i - 1];
      } else if j < m {
        assert c[m] == c[j + 1..k][m - j - 1];
      }
    }
  }

  /** Cutting `c` after the numeric run keeps a version pattern at its start, and its boundary. */
  lemma VersionInPrefix(c: string, i: nat, j: nat, k: nat, x: Semver)
    requires VersionAt(c, 0, i, j, k, x)
    ensures NumericRun(c) > 0
    ensures VersionAt(NumericPrefix(c), 0, i, j, k, x) && BoundaryAt(NumericPrefix(c), k)
  {
    VersionInNumericRun(c, i, j, k, x);
    var n := NumericRun(c);
    var p := c[..n];
    assert c[0..i] == p[0..i] && c[i + 1..j] == p[i + 1..j] && c[j + 1..k] == p[j + 1..k];
  }

  /** A version pattern at the start of the numeric prefix is one at the start of `c`. */
  lemma VersionFromPrefix(c: string, i: nat, j: nat, k: nat, x: Semver)
    requires VersionAt(NumericPrefix(c), 0, i, j, k, x)
    ensures VersionAt(c, 0, i, j, k, x)
  {
    var n := NumericRun(c);
    var p := NumericPrefix(c);
    if n > 0 {
      assert p == c[..n];
      assert c[0..i] == p[0..i];
      assert c[i + 1..j] == p[i + 1..j];
      assert c[j + 1..k] == p[j + 1..k];
    }
  }

  /**
   * `parseSemver` succeeds exactly when the cleaned value begins with
   * `D1.D2.D3` whose last run is not followed by a digit, and returns the
   * version those runs denote; whatever follows (`-beta`, `.4`, `rc1`) is
   * ignored.
   */
  lemma ParseSemverMeaning(value: string, x: Semver)
    ensures ParseSemver(value) == Some(x) <==> exists i, j, k :: VersionAt(Cleaned(value), 0, i, j, k, x)
  {
    var c := Cleaned(value);
    var p := NumericPrefix(c);
    if ParseSemver(value) == Some(x) {
      MatchVersionAtSound(p, 0);
      var i, j :| VersionAt(p, 0, i, j, MatchVersionAt(p, 0).value.end, x);
      VersionFromPrefix(c, i, j, MatchVersionAt(p, 0).value.end, x);
    }
    if exists i, j, k :: VersionAt(c, 0, i, j, k, x) {
      var i, j, k :| VersionAt(c, 0, i, j, k, x);
      VersionInPrefix(c, i, j, k, x);
      MatchVersionAtComplete(p, 0, i, j, k, x);
    }
  }

  /** A version pattern found inside `h` is a version pattern on its own. */
  lemma VersionAtSlice(h: string, q: nat, i: nat, j: nat, k: nat, x: Semver)
    requires VersionAt(h, q, i, j, k, x)
    ensures VersionAt(h[q..k], 0, i - q, j - q, k - q, x)
  {
    DigitsOfSlice(h, q, k, q, i);
    DigitsOfSlice(h, q, k, i + 1, j);
    DigitsOfSlice(h, q, k, j + 1, k);
  }

  /** A run of digits read through an enclosing slice has the same value. */
  lemma DigitsOfSlice(h: string, q: nat, k: nat, a: nat, b: nat)
    requires q <= a <= b <= k <= |h| && AllDigits(h[a..b])
    ensures h[q..k][a - q..b - q] == h[a..b]
    ensures AllDigits(h[q..k][a - q..b - q]) && DigitsValue(h[q..k][a - q..b - q]) == DigitsValue(h[a..b])
  {
    assert forall m :: 0 <= m < b - a ==> h[q..k][a - q..b - q][m] == h[a..b][m];
  }

  /** A text that is exactly a version pattern parses to that version. */
  lemma ParseSemverExact(g: string, i: nat, j: nat, k: nat, x: Semver)
    requires k == |g| && VersionAt(g, 0, i, j, k, x)
    ensures ParseSemver(g) == Some(x)
  {
    assert IsDigit(g[0..i][0]);
    assert IsDigit(g[j + 1..k][k - j - 2]);
    TrimUnchanged(g);
    CleanedOfTrim(g);
    ParseSemverMeaning(g, x);
  }

  /** The text of a version pattern found inside `h` parses to that version. */
  lemma VersionAtParses(h: string, q: nat, i: nat, j: nat, k: nat, x: Semver)
    requires VersionAt(h, q, i, j, k, x)
    ensures ParseSemver(h[q..k]) == Some(x)
  {
    VersionAtSlice(h, q, i, j, k, x);
    ParseSemverExact(h[q..k], i - q, j - q, k - q, x);
  }

  /** The decimal text of a version. */
  function FormatSemver(x: Semver): (r: string)
    ensures |r| >= 5
  {
    NatToString(x.major) + "." + NatToString(x.minor) + "." + NatToString(x.patch)
  }

  /**
   * A version written out, optionally after a `v`, and followed by anything
   * that does not start with a digit or white space (`-beta`, `.4`, `rc1`,
   * nothing), parses back to itself.
   */
  lemma ParseFormatSemver(x: Semver, vee: string, suffix: string)
    requires vee == "" || vee == "v" || vee == "V"
    requires suffix == [] || (!IsDigit(suffix[0]) && !IsSpace(suffix[0]))
    ensures ParseSemver(vee + FormatSemver(x) + suffix) == Some(x)
  {
    CleanedFormat(x, vee, suffix);
    FormatVersionAt(x, Cleaned(vee + FormatSemver(x) + suffix));
    ParseSemverMeaning(vee + FormatSemver(x) + suffix, x);
  }

  /** Cleaning `vee + FormatSemver(x) + suffix` leaves the formatted version at the start. */
  lemma CleanedFormat(x: Semver, vee: string, suffix: string)
    requires vee == "" || vee == "v" || vee == "V"
    requires suffix == [] || (!IsDigit(suffix[0]) && !IsSpace(suffix[0]))
    ensures var c, f := Cleaned(vee + FormatSemver(x) + suffix), FormatSemver(x);
            |c| >= |f| && c[..|f|] == f && (|c| == |f| || !IsDigit(c[|f|]))
  {
    FormatSemverEnds(x);
    CleanedDigits(FormatSemver(x), vee, suffix);
  }

  /** Cleaning keeps a run that starts and ends with a digit, after an optional `v`. */
  lemma CleanedDigits(f: string, vee: string, suffix: string)
    requires |f| > 0 && IsDigit(f[0]) && IsDigit(f[|f| - 1])
    requires vee == "" || vee == "v" || vee == "V"
    requires suffix == [] || (!IsDigit(suffix[0]) && !IsSpace(suffix[0]))
    ensures var c := Cleaned(vee + f + suffix);
            |c| >= |f| && c[..|f|] == f && (|c| == |f| || !IsDigit(c[|f|]))
  {
    var s := vee + f + suffix;
    var w := |vee| + |f|;
    assert s[..w] == vee + f;
    assert !IsSpace(s[0]) && !IsSpace(s[w - 1]);
    if w < |s| {
      assert s[w] == suffix[0];
    }
    TrimKeepsPrefix(s, w);
    var t := Trim(s);
    var c := Cleaned(s);
    CleanedOfTrim(s);
    assert t[0] == s[0];
    if vee == "" {
      assert c == t;
    } else {
      assert c == t[1..];
    }
    assert t[|vee|..w] == t[..w][|vee|..] == (vee + f)[|vee|..] == f;
    assert c[..|f|] == t[|vee|..w];
  }

  lemma CleanedOfTrim(s: string)
    ensures var t := Trim(s);
            Cleaned(s) == if |t| > 0 && (t[0] == 'v' || t[0] == 'V') then t[1..] else t
  {
  }

  /** A formatted version starts and ends with a digit. */
  lemma FormatSemverEnds(x: Semver)
    ensures IsDigit(FormatSemver(x)[0]) && IsDigit(FormatSemver(x)[|FormatSemver(x)| - 1])
  {
    var a := NatToString(x.major);
    var d := NatToString(x.patch);
    assert IsDigit(a[0]) && IsDigit(d[|d| - 1]);
  }

  /** The three numerals and two dots of a formatted version. */
  lemma FormatSemverParts(x: Semver)
    ensures var a, b, f := NatToString(x.major), NatToString(x.minor), FormatSemver(x);
            && f[|a|] == '.' && f[|a| + 1 + |b|] == '.'
            && f[0..|a|] == a && f[|a| + 1..|a| + 1 + |b|] == b
            && f[|a| + 1 + |b| + 1..] == NatToString(x.patch)
  {
  }

  /** A text that starts with a formatted version not followed by a digit holds that version at its start. */
  lemma FormatVersionAt(x: Semver, c: string)
    requires |c| >= |FormatSemver(x)| && c[..|FormatSemver(x)|] == FormatSemver(x)
    requires |c| == |FormatSemver(x)| || !IsDigit(c[|FormatSemver(x)|])
    ensures exists i, j, k :: VersionAt(c, 0, i, j, k, x)
  {
    var f := FormatSemver(x);
    var i := |NatToString(x.major)|;
    var j := i + 1 + |NatToString(x.minor)|;
    var k := |f|;
    FormatSemverParts(x);
    PrefixSlice(c, f, 0, i);
    PrefixSlice(c, f, i + 1, j);
    PrefixSlice(c, f, j + 1, k);
    assert f[j + 1..k] == f[j + 1..];
    assert c[0..i] == NatToString(x.major);
    assert c[i + 1..j] == NatToString(x.minor);
    assert c[j + 1..k] == NatToString(x.patch);
    assert VersionAt(c, 0, i, j, k, x);
  }

  /** A slice inside a prefix `f` of `c` is the same slice of `f`. */
  lemma PrefixSlice(c: string, f: string, a: nat, b: nat)
    requires |f| <= |c| && c[..|f|] == f && a <= b <= |f|
    ensures c[a..b] == f[a..b]
  {
    forall m | 0 <= m < b - a ensures c[a..b][m] == f[a..b][m] {
      assert c[a + m] == c[..|f|][a + m];
    }
  }

  // ---------------------------------------------------------------------
  // compareSemver

  /** `compareSemver`: the first non-zero difference of major, minor and patch, else zero. */
  function CompareSemver(a: Semver, b: Semver): int {
    if a.major != b.major then a.major - b.major
    else if a.minor != b.minor then a.minor - b.minor
    else a.patch - b.patch
  }

  /** The tuple a version sorts by. */
  function SemverKey(x: Semver): (r: seq<int>)
    ensures |r| == 3
  {
    [x.major, x.minor, x.patch]
  }

  /**
   * The sign of `compareSemver` is the lexicographic order on
   * (major, minor, patch), and it is zero exactly for equal versions.
   */
  lemma CompareSemverOrder(a: Semver, b: Semver)
    ensures CompareSemver(a, b) <= 0 <==> LexLe(SemverKey(a), SemverKey(b))
    ensures CompareSemver(a, b) == 0 <==> a == b
  {
    assert SemverKey(a) == [a.major] + ([a.minor] + ([a.patch] + []));
    assert SemverKey(b) == [b.major] + ([b.minor] + ([b.patch] + []));
    LexLeCons(a.major, [a.minor] + ([a.patch] + []), b.major, [b.minor] + ([b.patch] + []));
    LexLeCons(a.minor, [a.patch] + [], b.minor, [b.patch] + []);
    LexLeCons(a.patch, [], b.patch, []);
  }

  /** Swapping the arguments of `compareSemver` negates it. */
  lemma CompareSemverAntisymmetric(a: Semver, b: Semver)
    ensures CompareSemver(a, b) == -CompareSemver(b, a)
  {
  }

  lemma CompareSemverTransitive(a: Semver, b: Semver, c: Semver)
    requires CompareSemver(a, b) <= 0 && CompareSemver(b, c) <= 0
    ensures CompareSemver(a, c) <= 0
  {
    CompareSemverOrder(a, b);
    CompareSemverOrder(b, c);
    CompareSemverOrder(a, c);
    LexLeTransitive(SemverKey(a), SemverKey(b), SemverKey(c));
  }

  lemma CompareSemverTotal(a: Semver, b: Semver)
    ensures CompareSemver(a, b) <= 0 || CompareSemver(b, a) <= 0
  {
  }
}
