/**
 * `parseRoadmapMarkdown`: one forward pass over the lines of ROADMAP.md.
 * A `## ...` line opens a milestone when its heading names a version and
 * closes the current one otherwise; a task line `- [ ] text` or
 * `* [x] text` is appended to the milestone that is open, if any.
 *
 * The regular expressions are replaced by functions over the line
 * (`SplitLines`, `HeadingOf`, `HeadingVersion`, `TaskOf`), each with a lemma
 * that describes the match declaratively, including which split the
 * backtracking matcher settles on. The pass itself is a method with a loop
 * (`ParseRoadmapMarkdown`) proved equal to a fold (`ParseLines`), and the
 * lemmas about the fold say what the parse returns.
 */
module Roadmap {
  import opened Text
  import opened StableSort
  import opened Semver

  datatype RoadmapItem = RoadmapItem(done: bool, text: string)

  datatype Milestone = Milestone(heading: string, version: Semver, items: seq<RoadmapItem>)

  // ---------------------------------------------------------------------
  // markdown.split(/\r?\n/)

  function IsNewline(c: char): bool { c == '\n' }

  /** A segment followed by `\r\n` loses its `\r` to the separator. */
  function DropCarriageReturn(t: string): string {
    if |t| > 0 && t[|t| - 1] == '\r' then t[..|t| - 1] else t
  }

  /** `s.split(/\r?\n/)`: the pieces between line breaks, `\r\n` or `\n`. */
  function SplitLines(s: string): (r: seq<string>)
    ensures |r| >= 1
    decreases |s|
  {
    match Find(s, IsNewline)
    case None => [s]
    case Some(e) => [DropCarriageReturn(s[..e])] + SplitLines(s[e + 1..])
  }

  /** `ls.join(sep)` */
  function JoinLines(ls: seq<string>, sep: string): string
    decreases |ls|
  {
    if ls == [] then ""
    else if |ls| == 1 then ls[0]
    else ls[0] + sep + JoinLines(ls[1..], sep)
  }

  /** No piece of the split holds a line feed. */
  lemma {:induction false} SplitLinesNoNewline(s: string)
    ensures forall i :: 0 <= i < |SplitLines(s)| ==> '\n' !in SplitLines(s)[i]
    decreases |s|
  {
    match Find(s, IsNewline)
    case None =>
      forall m | 0 <= m < |s| ensures s[m] != '\n' {
        assert !IsNewline(s[m]);
      }
    case Some(e) =>
      SplitLinesNoNewline(s[e + 1..]);
      forall m | 0 <= m < e ensures s[..e][m] != '\n' {
        assert !IsNewline(s[m]);
      }
      assert forall c :: c in DropCarriageReturn(s[..e]) ==> c in s[..e];
  }

  /**
   * Splitting lines joined with `\r\n` gives them back, and so does
   * splitting lines joined with `\n` when no line but the last ends in `\r`.
   */
  lemma {:induction false} SplitJoinLines(ls: seq<string>, sep: string)
    requires |ls| >= 1 && (sep == "\n" || sep == "\r\n")
    requires forall i :: 0 <= i < |ls| ==> '\n' !in ls[i]
    requires sep == "\n" ==> forall i :: 0 <= i < |ls| - 1 ==> ls[i] == [] || ls[i][|ls[i]| - 1] != '\r'
    ensures SplitLines(JoinLines(ls, sep)) == ls
    decreases |ls|
  {
    if |ls| == 1 {
      NoNewlineNotFound(ls[0]);
    } else {
      assert '\n' !in ls[0];
      SplitFirstLine(ls[0], sep, JoinLines(ls[1..], sep));
      SplitJoinLines(ls[1..], sep);
    }
  }

  /** The first line of `head + sep + rest` is `head`, and the split goes on with `rest`. */
  lemma SplitFirstLine(head: string, sep: string, rest: string)
    requires (sep == "\n" || sep == "\r\n") && '\n' !in head
    requires sep == "\n" ==> head == [] || head[|head| - 1] != '\r'
    ensures SplitLines(head + sep + rest) == [head] + SplitLines(rest)
  {
    var s := head + sep + rest;
    var e := |head| + |sep| - 1;
    forall m | 0 <= m < e ensures !IsNewline(s[m]) {
      if m < |head| {
        assert s[m] == head[m] && head[m] in head;
      } else {
        assert s[m] == sep[0] == '\r';
      }
    }
    assert s[e] == '\n';
    FindFirst(s, IsNewline, e);
    assert s[..e] == head + sep[..|sep| - 1];
    assert DropCarriageReturn(s[..e]) == head;
    assert s[e + 1..] == rest;
  }

  lemma NoNewlineNotFound(s: string)
    requires '\n' !in s
    ensures Find(s, IsNewline).None?
  {
    forall i | 0 <= i < |s| ensures !IsNewline(s[i]) {
      assert s[i] in s;
    }
  }

  /** `Find` returns the first index whose element satisfies the predicate. */
  lemma FindFirst<T>(s: seq<T>, p: T -> bool, e: nat)
    requires e < |s| && p(s[e]) && forall m :: 0 <= m < e ==> !p(s[m])
    ensures Find(s, p) == Some(e)
  {
  }

  // ---------------------------------------------------------------------
  // The tail `\s+(.+)$` shared by both line patterns

  /** No line terminator at or after `i`: `.` matches every character from `i` on. */
  predicate SingleLineFrom(line: string, i: nat) {
    forall m :: i <= m < |line| ==> !IsLineTerminator(line[m])
  }

  /**
   * `line[i..]` splits as `k` white-space characters and a non-empty
   * remainder without line terminators: a way for `\s+(.+)$` to match all
   * of `line[i..]`.
   */
  ghost predicate SpacedSplit(line: string, i: nat, k: nat) {
    && 1 <= k && i + k < |line|
    && (forall m :: i <= m < i + k ==> IsSpace(line[m]))
    && SingleLineFrom(line, i + k)
  }

  /**
   * The group of `\s+(.+)$` matched against all of `line[i..]`. The greedy
   * `\s+` first takes the whole run of white space and gives characters back
   * one at a time until `(.+)$` matches; `\s` includes the line terminators,
   * and `.` excludes them.
   */
  function SpacedRest(line: string, i: nat): Option<string>
    requires i <= |line|
  {
    var k := SpaceRun(line, i);
    if k == 0 then None
    else if i + k < |line| then (if SingleLineFrom(line, i + k) then Some(line[i + k..]) else None)
    else if k >= 2 && !IsLineTerminator(line[i + k - 1]) then Some(line[i + k - 1..])
    else None
  }

  /**
   * `SpacedRest` finds a group exactly when some split of `line[i..]`
   * matches, and then returns the remainder of the split with the longest
   * run of white space, the one a backtracking matcher reaches first.
   */
  lemma SpacedRestMeaning(line: string, i: nat)
    requires i <= |line|
    ensures SpacedRest(line, i).Some? <==> exists k :: SpacedSplit(line, i, k)
    ensures SpacedRest(line, i).Some? ==>
              exists k :: SpacedSplit(line, i, k) && SpacedRest(line, i).value == line[i + k..]
                          && forall k' :: SpacedSplit(line, i, k') ==> k' <= k
  {
    var n := SpaceRun(line, i);
    SpaceRunSpaces(line, i);
    forall k: nat | SpacedSplit(line, i, k) ensures k <= n {
      SpaceRunMax(line, i, k);
    }
    if 0 < n && i + n < |line| {
      if SingleLineFrom(line, i + n) {
        assert SpacedSplit(line, i, n);
      } else {
        var m :| i + n <= m < |line| && IsLineTerminator(line[m]);
        forall p | i + 1 <= p <= i + n ensures !SingleLineFrom(line, p) {
          assert p <= m;
        }
      }
    } else if n >= 2 && i + n == |line| {
      if !IsLineTerminator(line[i + n - 1]) {
        assert SpacedSplit(line, i, n - 1);
      } else {
        forall p | i + 1 <= p < i + n ensures !SingleLineFrom(line, p) {
          assert p <= i + n - 1;
        }
      }
    }
  }

  /** After exactly `k` white-space characters, a single-line remainder is the group. */
  lemma SpacedRestAt(line: string, i: nat, k: nat)
    requires 1 <= k && i + k < |line| && forall m :: i <= m < i + k ==> IsSpace(line[m])
    requires !IsSpace(line[i + k]) && SingleLineFrom(line, i + k)
    ensures SpacedRest(line, i) == Some(line[i + k..])
  {
    SpaceRunUnique(line, i, i + k);
  }

  // ---------------------------------------------------------------------
  // Headings: line.match(/^##\s+(.+)$/)

  /** `line` is `##`, then `k` white-space characters, then a single-line remainder. */
  ghost predicate HeadingMatch(line: string, k: nat) {
    |line| >= 2 && line[0] == '#' && line[1] == '#' && SpacedSplit(line, 2, k)
  }

  /** The trimmed heading text of a `##` line, or `None` when the line is not a heading. */
  function HeadingOf(line: string): Option<string> {
    if |line| >= 2 && line[0] == '#' && line[1] == '#' then
      var group := SpacedRest(line, 2);
      if group.Some? then Some(Trim(group.value)) else None
    else None
  }

  /**
   * A line is a heading exactly when `^##\s+(.+)$` matches it, and the
   * heading is the trimmed remainder after the longest run of white space
   * that still leaves a match. A `###` line is not a heading.
   */
  lemma HeadingOfMeaning(line: string)
    ensures HeadingOf(line).Some? <==> exists k :: HeadingMatch(line, k)
    ensures HeadingOf(line).Some? ==>
              exists k :: HeadingMatch(line, k) && HeadingOf(line).value == Trim(line[2 + k..])
                          && forall k' :: HeadingMatch(line, k') ==> k' <= k
  {
    if |line| >= 2 && line[0] == '#' && line[1] == '#' {
      SpacedRestMeaning(line, 2);
      var group := SpacedRest(line, 2);
      if group.Some? {
        var k :| SpacedSplit(line, 2, k) && group.value == line[2 + k..]
                 && forall k' :: SpacedSplit(line, 2, k') ==> k' <= k;
        assert HeadingMatch(line, k);
      }
    }
  }

  /** No heading line is a task line. */
  lemma HeadingNotTask(line: string)
    requires HeadingOf(line).Some?
    ensures TaskOf(line).None?
  {
  }

  /** Text that survives a line of the roadmap unchanged: non-empty, trimmed, with no line terminator. */
  ghost predicate LineText(t: string) {
    |t| > 0 && SingleLine(t) && !IsSpace(t[0]) && !IsSpace(t[|t| - 1])
  }

  /** A `## ` line followed by trimmed, single-line text has that text as its heading. */
  lemma HeadingOfLine(heading: string)
    requires LineText(heading)
    ensures HeadingOf("## " + heading) == Some(heading)
  {
    var line := "## " + heading;
    assert line[2] == ' ' && line[3] == heading[0];
    assert line[3..] == heading;
    SpacedRestAt(line, 2, 1);
    TrimUnchanged(heading);
  }

  // ---------------------------------------------------------------------
  // The version of a heading: heading.match(/v?(\d+\.\d+\.\d+)\b/i)

  /**
   * The first position at or after `q` where `(\d+)\.(\d+)\.(\d+)\b`
   * matches, with the match.
   */
  function FirstVersionFrom(h: string, q: nat): (r: Option<(nat, VersionMatch)>)
    requires q <= |h|
    ensures r.Some? ==> q <= r.value.0 <= |h| && MatchVersionAt(h, r.value.0) == Some(r.value.1)
    ensures r.Some? ==> forall p :: q <= p < r.value.0 ==> MatchVersionAt(h, p).None?
    ensures r.None? ==> forall p :: q <= p <= |h| ==> MatchVersionAt(h, p).None?
    decreases |h| - q
  {
    match MatchVersionAt(h, q)
    case Some(m) => Some((q, m))
    case None => if q == |h| then None else FirstVersionFrom(h, q + 1)
  }

  /**
   * The version of a heading: `parseSemver` applied to the group of the
   * leftmost match of `v?(\d+\.\d+\.\d+)\b`, or `None` without a match.
   */
  function HeadingVersion(h: string): Option<Semver> {
    var found := FirstVersionFrom(h, 0);
    if found.None? then None
    else ParseSemver(h[found.value.0..found.value.1.end])
  }

  /** `v?(\d+\.\d+\.\d+)\b`, case-insensitive, matches starting at `p`. */
  ghost predicate PatternStartsAt(h: string, p: nat) {
    && p <= |h|
    && (|| MatchVersionAt(h, p).Some?
        || (p < |h| && (h[p] == 'v' || h[p] == 'V') && MatchVersionAt(h, p + 1).Some?))
  }

  /** Where the group of a match starting at `p` begins: after the `v` when the greedy `v?` takes one. */
  function GroupStart(h: string, p: nat): nat
    requires p <= |h|
  {
    if p < |h| && (h[p] == 'v' || h[p] == 'V') then p + 1 else p
  }

  /**
   * A heading's version is that of the leftmost match of the version
   * pattern, read from the match's group.
   */
  lemma HeadingVersionMeaning(h: string, p: nat)
    requires PatternStartsAt(h, p) && forall p' :: 0 <= p' < p ==> !PatternStartsAt(h, p')
    ensures MatchVersionAt(h, GroupStart(h, p)).Some?
    ensures HeadingVersion(h) == Some(MatchVersionAt(h, GroupStart(h, p)).value.version)
  {
    var g := GroupStart(h, p);
    if g == p + 1 {
      assert DigitEnd(h, p) == p;
    }
    forall q | 0 <= q < g ensures MatchVersionAt(h, q).None? {
      if q < p {
        assert !PatternStartsAt(h, q);
      } else {
        assert DigitEnd(h, q) == q;
      }
    }
    var found := FirstVersionFrom(h, 0);
    assert found.Some? && found.value.0 == g;
    GroupParses(h, g, found.value.1);
  }

  /** A heading has no version exactly when the version pattern matches nowhere in it. */
  lemma HeadingVersionNone(h: string)
    ensures HeadingVersion(h).None? <==> forall p :: 0 <= p <= |h| ==> !PatternStartsAt(h, p)
  {
    var found := FirstVersionFrom(h, 0);
    if found.Some? {
      GroupParses(h, found.value.0, found.value.1);
      assert PatternStartsAt(h, found.value.0);
    } else {
      forall p | 0 <= p <= |h| ensures !PatternStartsAt(h, p) {
        if p < |h| {
          assert MatchVersionAt(h, p + 1).None?;
        }
      }
    }
  }

  /** The text of a version match parses back to the matched version. */
  lemma GroupParses(h: string, q: nat, m: VersionMatch)
    requires q <= |h| && MatchVersionAt(h, q) == Some(m)
    ensures ParseSemver(h[q..m.end]) == Some(m.version)
  {
    MatchVersionAtSound(h, q);
    var i: nat, j: nat :| VersionAt(h, q, i, j, m.end, m.version);
    VersionAtParses(h, q, i, j, m.end, m.version);
  }

  // ---------------------------------------------------------------------
  // Tasks: line.match(/^[-*]\s+\[([ xX])\]\s+(.+)$/)

  predicate IsMark(c: char) {
    c == ' ' || c == 'x' || c == 'X'
  }

  /** `line` is a bullet, `k` white-space characters, `[`, a mark and `]`. */
  ghost predicate BoxAt(line: string, k: nat) {
    && |line| > 0 && (line[0] == '-' || line[0] == '*')
    && 1 <= k && k + 4 <= |line|
    && (forall j :: 1 <= j < 1 + k ==> IsSpace(line[j]))
    && line[1 + k] == '[' && IsMark(line[2 + k]) && line[3 + k] == ']'
  }

  /**
   * `line` is a bullet, `k` white-space characters, `[`, a mark, `]`, and a
   * remainder that `\s+(.+)$` matches with `m` white-space characters.
   */
  ghost predicate TaskMatch(line: string, k: nat, m: nat) {
    BoxAt(line, k) && SpacedSplit(line, 4 + k, m)
  }

  /**
   * The length of the run of white space after the bullet, when the line
   * starts with a bullet, white space and a box `[ ]`, `[x]` or `[X]`. A
   * shorter run would leave white space where the `[` must be, so only the
   * whole run can match.
   */
  function TaskBox(line: string): Option<nat> {
    if |line| == 0 || (line[0] != '-' && line[0] != '*') then None
    else
      var k := SpaceRun(line, 1);
      if k == 0 || k + 4 > |line| || line[1 + k] != '[' || !IsMark(line[2 + k]) || line[3 + k] != ']' then None
      else Some(k)
  }

  /** The item of a task line, or `None` when the line is not a task. */
  function TaskOf(line: string): Option<RoadmapItem> {
    var box := TaskBox(line);
    if box.None? then None
    else
      var k := box.value;
      var group := SpacedRest(line, 4 + k);
      if group.None? then None
      else Some(RoadmapItem(LowerChar(line[2 + k]) == 'x', Trim(group.value)))
  }

  /** `TaskBox` finds the one run of white space that a box follows, when there is one. */
  lemma TaskBoxMeaning(line: string)
    ensures TaskBox(line).Some? <==> exists k :: BoxAt(line, k)
    ensures TaskBox(line).Some? ==> forall k :: BoxAt(line, k) <==> k == TaskBox(line).value
  {
    if |line| > 0 && (line[0] == '-' || line[0] == '*') {
      var n := SpaceRun(line, 1);
      SpaceRunSpaces(line, 1);
      forall k: nat | BoxAt(line, k) ensures k == n {
        SpaceRunMax(line, 1, k);
      }
      if TaskBox(line).Some? {
        assert BoxAt(line, n);
      }
    }
  }

  /**
   * Of the splits the checkbox pattern allows, the one with the longest run of
   * white space before the text is the one `TaskBox` and `SpacedRest` find.
   */
  lemma TaskPartsAt(line: string, k: nat, m: nat)
    requires TaskMatch(line, k, m) && forall m': nat :: TaskMatch(line, k, m') ==> m' <= m
    ensures TaskBox(line) == Some(k) && SpacedRest(line, 4 + k) == Some(line[4 + k + m..])
  {
    TaskBoxMeaning(line);
    var j := 4 + k;
    forall m': nat | SpacedSplit(line, j, m') ensures m' <= m {
      assert TaskMatch(line, k, m');
    }
    SpacedRestLongest(line, j, m);
  }

  /** A split with the longest run of white space is the one `SpacedRest` returns. */
  lemma SpacedRestLongest(line: string, i: nat, k: nat)
    requires SpacedSplit(line, i, k) && forall k': nat :: SpacedSplit(line, i, k') ==> k' <= k
    ensures SpacedRest(line, i) == Some(line[i + k..])
  {
    SpacedRestMeaning(line, i);
    var k0: nat :| && SpacedSplit(line, i, k0) && SpacedRest(line, i).value == line[i + k0..]
                   && forall k': nat :: SpacedSplit(line, i, k') ==> k' <= k0;
    assert k0 == k;
  }

  /**
   * A line is a task exactly when the checkbox pattern matches it. The run of
   * white space after the bullet is then the whole run, so it is the same
   * in every match.
   */
  lemma TaskOfMatches(line: string)
    ensures TaskOf(line).Some? <==> exists k, m :: TaskMatch(line, k, m)
    ensures forall k, m, k', m' :: TaskMatch(line, k, m) && TaskMatch(line, k', m') ==> k == k'
  {
    TaskBoxMeaning(line);
    var box := TaskBox(line);
    if box.Some? {
      var k := box.value;
      var j := 4 + k;
      SpacedRestMeaning(line, j);
      var group := SpacedRest(line, j);
      if group.Some? {
        var m: nat :| SpacedSplit(line, j, m) && group.value == line[j + m..];
        assert TaskMatch(line, k, m);
      }
    }
  }

  /**
   * Of the matches of the checkbox pattern, the one with the longest run of
   * white space before the text, which a backtracking matcher reaches
   * first, gives the item: its text is the trimmed remainder and it is done
   * exactly when the mark is `x` or `X`.
   */
  lemma TaskOfAt(line: string, k: nat, m: nat)
    requires TaskMatch(line, k, m) && forall m': nat :: TaskMatch(line, k, m') ==> m' <= m
    ensures TaskOf(line) == Some(RoadmapItem(line[2 + k] == 'x' || line[2 + k] == 'X', Trim(line[4 + k + m..])))
  {
    TaskPartsAt(line, k, m);
    TaskOfText(line, k, m);
  }

  /** The line a roadmap item is written as. */
  function FormatTask(item: RoadmapItem): string {
    ['-', ' ', '[', if item.done then 'x' else ' ', ']', ' '] + item.text
  }

  /** `TaskOf` once the box and the remainder are known. */
  lemma TaskOfParts(line: string, k: nat, group: string)
    requires TaskBox(line) == Some(k) && SpacedRest(line, 4 + k) == Some(group)
    ensures TaskOf(line) == Some(RoadmapItem(LowerChar(line[2 + k]) == 'x', Trim(group)))
  {
  }

  /** The item of a task line whose group starts `m` characters after the box. */
  lemma TaskOfText(line: string, k: nat, m: nat)
    requires TaskBox(line) == Some(k) && 4 + k + m <= |line| && SpacedRest(line, 4 + k) == Some(line[4 + k + m..])
    ensures TaskOf(line).Some? && TaskOf(line).value.text == Trim(line[4 + k + m..])
    ensures TaskOf(line).value.done <==> line[2 + k] == 'x' || line[2 + k] == 'X'
  {
    TaskOfParts(line, k, line[4 + k + m..]);
  }

  /** The box of a formatted task follows a single space. */
  lemma TaskBoxFormat(item: RoadmapItem)
    ensures TaskBox(FormatTask(item)) == Some(1)
  {
    var line := FormatTask(item);
    assert line[..6] == ['-', ' ', '[', if item.done then 'x' else ' ', ']', ' '];
    SpaceRunUnique(line, 1, 2);
  }

  /** After the box of a formatted task, the remainder is the item's text. */
  lemma TaskRestFormat(item: RoadmapItem)
    requires LineText(item.text)
    ensures SpacedRest(FormatTask(item), 5) == Some(item.text)
  {
    var line := FormatTask(item);
    assert line[5] == ' ' && line[6] == item.text[0];
    assert line[6..] == item.text;
    SpacedRestAt(line, 5, 1);
  }

  /** Reading the written line of an item gives the item back. */
  lemma TaskOfFormat(item: RoadmapItem)
    requires LineText(item.text)
    ensures TaskOf(FormatTask(item)) == Some(item)
  {
    var line := FormatTask(item);
    TaskBoxFormat(item);
    TaskRestFormat(item);
    TaskOfParts(line, 1, item.text);
    TrimUnchanged(item.text);
    assert line[3] == (if item.done then 'x' else ' ');
  }

  // ---------------------------------------------------------------------
  // The pass

  /** What the pass sees in a line: a heading with the version it names, if any, a task, or neither. */
  datatype Line = HeadingLine(heading: string, version: Option<Semver>) | TaskLine(item: RoadmapItem) | OtherLine

  /** The heading pattern is tried first; a line that is a heading is never tried as a task. */
  function Classify(line: string): Line {
    var heading := HeadingOf(line);
    if heading.Some? then HeadingLine(heading.value, HeadingVersion(heading.value))
    else
      var task := TaskOf(line);
      if task.Some? then TaskLine(task.value) else OtherLine
  }

  /** Each line of the document, classified. */
  function Classified(lines: seq<string>): seq<Line> {
    Map(lines, Classify)
  }

  lemma ClassifiedAppend(a: seq<string>, b: seq<string>)
    ensures Classified(a + b) == Classified(a) + Classified(b)
  {
    MapAppend(a, b, Classify);
  }

  /**
   * The state of the pass: the milestones so far and whether `current`
   * refers to a milestone. When it does, it is the last one pushed.
   */
  datatype ParseState = ParseState(milestones: seq<Milestone>, open: bool) {
    predicate Valid() {
      open ==> |milestones| > 0
    }
  }

  const Start := ParseState([], false)

  /** The milestone with `more` appended to its items. */
  function WithItems(m: Milestone, more: seq<RoadmapItem>): Milestone {
    m.(items := m.items + more)
  }

  /** What one line does to the state of the pass. */
  function Step(st: ParseState, l: Line): (r: ParseState)
    requires st.Valid()
    ensures r.Valid()
  {
    match l
    case HeadingLine(heading, version) =>
      if version.Some? then ParseState(st.milestones + [Milestone(heading, version.value, [])], true)
      else ParseState(st.milestones, false)
    case TaskLine(item) =>
      if st.open then
        var last := |st.milestones| - 1;
        ParseState(st.milestones[last := WithItems(st.milestones[last], [item])], true)
      else st
    case OtherLine => st
  }

  /** The state after the lines, in order, starting from `st`. */
  function Fold(st: ParseState, ls: seq<Line>): (r: ParseState)
    requires st.Valid()
    ensures r.Valid()
    decreases |ls|
  {
    if ls == [] then st else Step(Fold(st, ls[..|ls| - 1]), ls[|ls| - 1])
  }

  function ParseLines(lines: seq<string>): ParseState {
    Fold(Start, Classified(lines))
  }

  /** The state after one more line of the document. */
  lemma FoldClassifiedNext(lines: seq<string>, n: nat)
    requires n < |lines|
    ensures Fold(Start, Classified(lines)[..n + 1]) == Step(Fold(Start, Classified(lines)[..n]), Classify(lines[n]))
  {
    assert Classified(lines)[..n + 1][..n] == Classified(lines)[..n];
  }

  /**
   * `parseRoadmapMarkdown`: the loop keeps `current` as the index of the
   * open milestone, and a task line updates that milestone in place.
   */
  method ParseRoadmapMarkdown(markdown: string) returns (milestones: seq<Milestone>)
    ensures milestones == ParseLines(SplitLines(markdown)).milestones
  {
    var lines := SplitLines(markdown);
    milestones := [];
    var current: Option<nat> := None;
    for n := 0 to |lines|
      invariant milestones == Fold(Start, Classified(lines)[..n]).milestones
      invariant current.Some? <==> Fold(Start, Classified(lines)[..n]).open
      invariant current.Some? ==> current.value == |milestones| - 1
    {
      FoldClassifiedNext(lines, n);
      var line := lines[n];
      var heading := HeadingOf(line);
      if heading.Some? {
        var version := HeadingVersion(heading.value);
        if version.Some? {
          milestones := milestones + [Milestone(heading.value, version.value, [])];
          current := Some(|milestones| - 1);
        } else {
          current := None;
        }
        continue;
      }
      var task := TaskOf(line);
      if task.Some? && current.Some? {
        var c := current.value;
        milestones := milestones[c := milestones[c].(items := milestones[c].items + [task.value])];
      }
    }
    assert Classified(lines)[..|lines|] == Classified(lines);
  }

  // ---------------------------------------------------------------------
  // What the pass returns

  lemma {:induction false} FoldAppend(st: ParseState, a: seq<Line>, b: seq<Line>)
    requires st.Valid()
    ensures Fold(st, a + b) == Fold(Fold(st, a), b)
    decreases |b|
  {
    if b == [] {
      assert a + b == a;
    } else {
      assert (a + b)[..|a + b| - 1] == a + b[..|b| - 1];
      FoldAppend(st, a, b[..|b| - 1]);
    }
  }

  /** Milestones that came before do not affect a line. */
  lemma StepShift(before: seq<Milestone>, st: ParseState, l: Line)
    requires st.Valid()
    ensures Step(ParseState(before + st.milestones, st.open), l)
            == ParseState(before + Step(st, l).milestones, Step(st, l).open)
  {
    var ms := st.milestones;
    match l
    case HeadingLine(heading, version) =>
      if version.Some? {
        assert before + ms + [Milestone(heading, version.value, [])]
               == before + (ms + [Milestone(heading, version.value, [])]);
      }
    case TaskLine(item) =>
      if st.open {
        var all := before + ms;
        var m := WithItems(ms[|ms| - 1], [item]);
        assert all[|all| - 1 := m] == before + ms[|ms| - 1 := m];
      }
    case OtherLine =>
  }

  /** Milestones that came before do not affect the lines. */
  lemma {:induction false} FoldShift(before: seq<Milestone>, st: ParseState, ls: seq<Line>)
    requires st.Valid()
    ensures Fold(ParseState(before + st.milestones, st.open), ls)
            == ParseState(before + Fold(st, ls).milestones, Fold(st, ls).open)
    decreases |ls|
  {
    if ls != [] {
      FoldShift(before, st, ls[..|ls| - 1]);
      StepShift(before, Fold(st, ls[..|ls| - 1]), ls[|ls| - 1]);
    }
  }

  /**
   * A heading line cuts the document: the milestones are those of the
   * lines before it followed by those of the lines from it on, so no task
   * after a heading ever reaches a milestone opened before it.
   */
  lemma HeadingCuts(pre: seq<Line>, l: Line, rest: seq<Line>)
    requires l.HeadingLine?
    ensures Fold(Start, pre + [l] + rest).milestones
            == Fold(Start, pre).milestones + Fold(Start, [l] + rest).milestones
  {
    var s := Fold(Start, pre);
    assert pre + [l] + rest == pre + ([l] + rest);
    FoldAppend(Start, pre, [l] + rest);
    FoldAppend(s, [l], rest);
    FoldAppend(Start, [l], rest);
    assert [l][..0] == [];
    var t := Step(Start, l);
    assert Step(s, l) == ParseState(s.milestones + t.milestones, t.open);
    FoldShift(s.milestones, t, rest);
  }

  /** No line is a heading. */
  ghost predicate NoHeading(ls: seq<Line>) {
    forall i :: 0 <= i < |ls| ==> !ls[i].HeadingLine?
  }

  /** The items of those lines that are tasks, in order. */
  function TaskItems(ls: seq<Line>): seq<RoadmapItem>
    decreases |ls|
  {
    if ls == [] then []
    else TaskItems(ls[..|ls| - 1]) + (if ls[|ls| - 1].TaskLine? then [ls[|ls| - 1].item] else [])
  }

  /**
   * Lines without a heading append their task items, in order, to the open
   * milestone, and change nothing when none is open.
   */
  lemma {:induction false} ParseBlock(st: ParseState, more: seq<Line>)
    requires st.Valid() && NoHeading(more)
    ensures Fold(st, more)
            == if st.open then
                 var last := |st.milestones| - 1;
                 ParseState(st.milestones[last := WithItems(st.milestones[last], TaskItems(more))], true)
               else st
    decreases |more|
  {
    if more == [] {
      if st.open {
        var last := |st.milestones| - 1;
        assert st.milestones[last].items + [] == st.milestones[last].items;
        assert st.milestones[last := WithItems(st.milestones[last], [])] == st.milestones;
      }
    } else {
      var init := more[..|more| - 1];
      var l := more[|more| - 1];
      assert NoHeading(init) by {
        forall i | 0 <= i < |init| ensures !init[i].HeadingLine? {
          assert init[i] == more[i];
        }
      }
      ParseBlock(st, init);
      assert more[..|more| - 1] == init;
      assert TaskItems(more) == TaskItems(init) + (if l.TaskLine? then [l.item] else []);
      if st.open {
        var last := |st.milestones| - 1;
        var m := st.milestones[last];
        var mid := Fold(st, init);
        assert mid.milestones == st.milestones[last := WithItems(m, TaskItems(init))];
        assert Fold(st, more) == Step(mid, l);
        assert !l.HeadingLine? by {
          assert l == more[|more| - 1];
        }
        if l.TaskLine? {
          assert m.items + TaskItems(init) + [l.item] == m.items + TaskItems(more);
          assert mid.milestones[last := WithItems(mid.milestones[last], [l.item])]
                 == st.milestones[last := WithItems(m, TaskItems(more))];
        } else {
          assert TaskItems(more) == TaskItems(init);
        }
      }
    }
  }

  /** Before the first heading, task lines are dropped and no milestone exists. */
  lemma Preamble(pre: seq<Line>)
    requires NoHeading(pre)
    ensures Fold(Start, pre) == Start
  {
    ParseBlock(Start, pre);
  }

  /**
   * A heading line followed by lines without headings yields one milestone
   * holding the items of those lines in order when the heading names a
   * version, and none otherwise, since a heading without a version closes
   * the current milestone.
   */
  lemma Section(heading: string, version: Option<Semver>, more: seq<Line>)
    requires NoHeading(more)
    ensures Fold(Start, [HeadingLine(heading, version)] + more).milestones
            == match version
               case Some(v) => [Milestone(heading, v, TaskItems(more))]
               case None => []
  {
    var l := HeadingLine(heading, version);
    FoldAppend(Start, [l], more);
    assert [l][..0] == [];
    assert Fold(Start, [l]) == Step(Start, l);
    ParseBlock(Step(Start, l), more);
    if version.Some? {
      assert [] + TaskItems(more) == TaskItems(more);
    }
  }

  /** The headings and versions of the milestones. */
  function Headings(ms: seq<Milestone>): (r: seq<(string, Semver)>)
    ensures |r| == |ms|
  {
    seq(|ms|, i requires 0 <= i < |ms| => (ms[i].heading, ms[i].version))
  }

  /** The heading lines that name a version, with their versions, in document order. */
  function VersionedHeadings(ls: seq<Line>): seq<(string, Semver)>
    decreases |ls|
  {
    if ls == [] then []
    else
      var l := ls[|ls| - 1];
      VersionedHeadings(ls[..|ls| - 1])
      + if l.HeadingLine? && l.version.Some? then [(l.heading, l.version.value)] else []
  }

  /**
   * The milestones are the heading lines that name a version, one each and
   * in document order, with the trimmed heading and its version.
   */
  lemma {:induction false} MilestoneHeadings(st: ParseState, ls: seq<Line>)
    requires st.Valid()
    ensures Headings(Fold(st, ls).milestones) == Headings(st.milestones) + VersionedHeadings(ls)
    decreases |ls|
  {
    if ls != [] {
      var init := ls[..|ls| - 1];
      var l := ls[|ls| - 1];
      var before := Fold(st, init);
      MilestoneHeadings(st, init);
      match l
      case HeadingLine(heading, version) =>
        if version.Some? {
          var m := Milestone(heading, version.value, []);
          assert Headings(before.milestones + [m]) == Headings(before.milestones) + [(m.heading, m.version)];
        }
      case TaskLine(item) =>
        if before.open {
          var last := |before.milestones| - 1;
          var ms := before.milestones[last := WithItems(before.milestones[last], [item])];
          assert Headings(ms) == Headings(before.milestones);
        }
      case OtherLine =>
    }
  }

  // ---------------------------------------------------------------------
  // Round trip

  /** The lines a milestone is written as: its heading line, then one task line per item. */
  function FormatMilestone(m: Milestone): (r: seq<string>)
    ensures |r| == 1 + |m.items|
  {
    ["## " + m.heading] + Map(m.items, FormatTask)
  }

  function FormatMilestones(ms: seq<Milestone>): seq<string>
    decreases |ms|
  {
    if ms == [] then [] else FormatMilestones(ms[..|ms| - 1]) + FormatMilestone(ms[|ms| - 1])
  }

  /** The heading and the item texts of a milestone each fit on one line of the roadmap. */
  ghost predicate WritableText(m: Milestone) {
    LineText(m.heading) && forall i :: 0 <= i < |m.items| ==> LineText(m.items[i].text)
  }

  /** A milestone that its written form represents faithfully: its heading also names its version. */
  ghost predicate Writable(m: Milestone) {
    WritableText(m) && HeadingVersion(m.heading) == Some(m.version)
  }

  /** The written line of an item is classified as that item. */
  lemma ClassifyTaskLine(item: RoadmapItem)
    requires LineText(item.text)
    ensures Classify(FormatTask(item)) == TaskLine(item)
  {
    TaskOfFormat(item);
  }

  /** What the pass sees in the written form of a milestone. */
  function MilestoneLines(m: Milestone): (r: seq<Line>)
    ensures |r| == 1 + |m.items|
  {
    [HeadingLine(m.heading, Some(m.version))] + Map(m.items, (item: RoadmapItem) => TaskLine(item))
  }

  /** What the pass sees in the written form of a sequence of milestones. */
  function AllMilestoneLines(ms: seq<Milestone>): seq<Line>
    decreases |ms|
  {
    if ms == [] then [] else AllMilestoneLines(ms[..|ms| - 1]) + MilestoneLines(ms[|ms| - 1])
  }

  /** Task lines holding `items` contribute those items, in order, and no heading. */
  lemma {:induction false} TaskLinesItems(ls: seq<Line>, items: seq<RoadmapItem>)
    requires |ls| == |items| && forall i :: 0 <= i < |ls| ==> ls[i] == TaskLine(items[i])
    ensures NoHeading(ls) && TaskItems(ls) == items
    decreases |ls|
  {
    if ls != [] {
      TaskLinesItems(ls[..|ls| - 1], items[..|items| - 1]);
      assert items == items[..|items| - 1] + [items[|items| - 1]];
    }
  }

  /** The pass turns the lines of a milestone back into that milestone. */
  lemma FoldMilestoneLines(m: Milestone)
    ensures Fold(Start, MilestoneLines(m)).milestones == [m]
  {
    var ls := MilestoneLines(m);
    TaskLinesItems(ls[1..], m.items);
    assert ls == [ls[0]] + ls[1..];
    Section(m.heading, Some(m.version), ls[1..]);
  }

  /** The pass turns the lines of milestones back into those milestones, in order. */
  lemma {:induction false} FoldAllMilestoneLines(ms: seq<Milestone>)
    ensures Fold(Start, AllMilestoneLines(ms)).milestones == ms
    decreases |ms|
  {
    if ms != [] {
      var init := ms[..|ms| - 1];
      var m := ms[|ms| - 1];
      var pre := AllMilestoneLines(init);
      var ls := MilestoneLines(m);
      FoldAllMilestoneLines(init);
      HeadingCuts(pre, ls[0], ls[1..]);
      assert pre + ls == pre + [ls[0]] + ls[1..];
      FoldMilestoneLines(m);
      assert ms == init + [m];
    }
  }

  /** A heading line is classified by its heading and the version it names. */
  lemma ClassifyHeading(line: string, heading: string)
    requires HeadingOf(line) == Some(heading)
    ensures Classify(line) == HeadingLine(heading, HeadingVersion(heading))
  {
  }

  /** The written heading line of a milestone is classified as its heading, with its version. */
  lemma ClassifyFormatHeading(m: Milestone)
    requires Writable(m)
    ensures Classify("## " + m.heading) == HeadingLine(m.heading, Some(m.version))
  {
    HeadingOfLine(m.heading);
    ClassifyHeading("## " + m.heading, m.heading);
  }

  /** The written form of a milestone is classified as the lines of that milestone. */
  lemma ClassifyFormatMilestone(m: Milestone)
    requires Writable(m)
    ensures Classified(FormatMilestone(m)) == MilestoneLines(m)
  {
    var f := FormatMilestone(m);
    ClassifyFormatHeading(m);
    forall i | 0 <= i < |f| ensures Classified(f)[i] == MilestoneLines(m)[i] {
      if i > 0 {
        assert f[i] == FormatTask(m.items[i - 1]);
        ClassifyTaskLine(m.items[i - 1]);
      }
    }
  }

  /** The written form of milestones is classified as the lines of those milestones. */
  lemma {:induction false} ClassifyFormatMilestones(ms: seq<Milestone>)
    requires forall i :: 0 <= i < |ms| ==> Writable(ms[i])
    ensures Classified(FormatMilestones(ms)) == AllMilestoneLines(ms)
    decreases |ms|
  {
    if ms != [] {
      ClassifyFormatMilestones(ms[..|ms| - 1]);
      ClassifiedAppend(FormatMilestones(ms[..|ms| - 1]), FormatMilestone(ms[|ms| - 1]));
      ClassifyFormatMilestone(ms[|ms| - 1]);
    }
  }

  /** Parsing the written form of well-formed milestones gives them back, in order. */
  lemma ParseFormatMilestones(ms: seq<Milestone>)
    requires forall i :: 0 <= i < |ms| ==> Writable(ms[i])
    ensures ParseLines(FormatMilestones(ms)).milestones == ms
  {
    ClassifyFormatMilestones(ms);
    FoldAllMilestoneLines(ms);
  }

  /** The heading line of a milestone fits on one line of the roadmap. */
  lemma HeadingLineText(heading: string)
    requires LineText(heading)
    ensures LineText("## " + heading)
  {
    var l := "## " + heading;
    forall j | 0 <= j < |l| ensures !IsLineTerminator(l[j]) {
      if j >= 3 {
        assert l[j] == heading[j - 3];
      }
    }
  }

  /** The written line of an item fits on one line of the roadmap. */
  lemma TaskLineText(item: RoadmapItem)
    requires LineText(item.text)
    ensures LineText(FormatTask(item))
  {
    var l := FormatTask(item);
    forall j | 0 <= j < |l| ensures !IsLineTerminator(l[j]) {
      if j >= 6 {
        assert l[j] == item.text[j - 6];
      }
    }
  }

  /** Every written line of a milestone fits on one line of the roadmap. */
  lemma FormattedMilestoneLines(m: Milestone)
    requires WritableText(m)
    ensures forall i :: 0 <= i < |FormatMilestone(m)| ==> LineText(FormatMilestone(m)[i])
  {
    var f := FormatMilestone(m);
    HeadingLineText(m.heading);
    forall i | 1 <= i < |f| ensures LineText(f[i]) {
      TaskLineText(m.items[i - 1]);
    }
  }

  /** Every written line is non-empty, holds no line terminator and does not end in white space. */
  lemma {:induction false} FormattedLines(ms: seq<Milestone>)
    requires forall i :: 0 <= i < |ms| ==> WritableText(ms[i])
    ensures ms != [] ==> |FormatMilestones(ms)| >= 1
    ensures forall i :: 0 <= i < |FormatMilestones(ms)| ==> LineText(FormatMilestones(ms)[i])
    decreases |ms|
  {
    if ms != [] {
      FormattedLines(ms[..|ms| - 1]);
      FormattedMilestoneLines(ms[|ms| - 1]);
    }
  }

  /**
   * A roadmap written from well-formed milestones, one line each joined by
   * line feeds, parses back to those milestones.
   */
  lemma ParseRoadmapRoundTrip(ms: seq<Milestone>)
    requires ms != [] && forall i :: 0 <= i < |ms| ==> Writable(ms[i])
    ensures ParseLines(SplitLines(JoinLines(FormatMilestones(ms), "\n"))).milestones == ms
  {
    FormattedLines(ms);
    SplitJoinedText(FormatMilestones(ms));
    ParseFormatMilestones(ms);
  }

  /** Lines of text joined by line feeds split back into the same lines. */
  lemma SplitJoinedText(ls: seq<string>)
    requires |ls| >= 1 && forall i :: 0 <= i < |ls| ==> LineText(ls[i])
    ensures SplitLines(JoinLines(ls, "\n")) == ls
  {
    forall i | 0 <= i < |ls| ensures '\n' !in ls[i] && ls[i][|ls[i]| - 1] != '\r' {
      assert !IsLineTerminator(ls[i][|ls[i]| - 1]);
      forall j | 0 <= j < |ls[i]| ensures ls[i][j] != '\n' {
        assert !IsLineTerminator(ls[i][j]);
      }
    }
    SplitJoinLines(ls, "\n");
  }
}
