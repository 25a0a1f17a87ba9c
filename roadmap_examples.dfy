/**
 * Two small roadmaps and what `parseRoadmapMarkdown` makes of them: a
 * versioned heading with a finished and an open task, and a heading without
 * a version whose task is dropped.
 */
module RoadmapExamples {
  import opened Text
  import opened StableSort
  import opened Semver
  import opened Roadmap

  const Released: string := "v1.2.3 Release"

  /** `v1.2.3 Release` names version 1.2.3: the `v` is skipped and the match ends before the space. */
  lemma ReleasedHeadingVersion()
    ensures HeadingVersion(Released) == Some(Semver(1, 2, 3))
  {
    var h := Released;
    var x := Semver(1, 2, 3);
    assert h[1..2] == "1" && h[3..4] == "2" && h[5..6] == "3";
    assert DigitsValue("1") == 1 && DigitsValue("2") == 2 && DigitsValue("3") == 3;
    assert VersionAt(h, 1, 2, 4, 6, x);
    MatchVersionAtComplete(h, 1, 2, 4, 6, x);
    assert PatternStartsAt(h, 0);
    HeadingVersionMeaning(h, 0);
  }

  const ReleasedItems: seq<RoadmapItem> := [RoadmapItem(true, "done"), RoadmapItem(false, "pending")]

  /** The roadmap text of one milestone, line by line. */
  const ReleasedLines: seq<string> := ["## v1.2.3 Release", "- [x] done", "- [ ] pending"]

  /**
   * One milestone, version 1.2.3, with the finished task first and the open
   * task second, whether the lines are parsed as they are or joined by line
   * feeds and split again.
   */
  lemma ParseReleasedRoadmap()
    ensures ParseLines(ReleasedLines).milestones == [Milestone(Released, Semver(1, 2, 3), ReleasedItems)]
    ensures ParseLines(SplitLines(JoinLines(ReleasedLines, "\n"))).milestones
            == [Milestone(Released, Semver(1, 2, 3), ReleasedItems)]
  {
    ReleasedWritable();
    ReleasedLinesFormat();
    OneMilestoneParses(Milestone(Released, Semver(1, 2, 3), ReleasedItems));
    OneMilestoneRoundTrip(Milestone(Released, Semver(1, 2, 3), ReleasedItems));
  }

  /** The lines of one writable milestone parse back to it. */
  lemma OneMilestoneParses(m: Milestone)
    requires Writable(m)
    ensures ParseLines(FormatMilestones([m])).milestones == [m]
  {
    AllWritable(m);
    ParseFormatMilestones([m]);
  }

  /** ... and so do they once joined by line feeds and split again. */
  lemma OneMilestoneRoundTrip(m: Milestone)
    requires Writable(m)
    ensures ParseLines(SplitLines(JoinLines(FormatMilestones([m]), "\n"))).milestones == [m]
  {
    AllWritable(m);
    ParseRoadmapRoundTrip([m]);
  }

  lemma AllWritable(m: Milestone)
    requires Writable(m)
    ensures forall i :: 0 <= i < |[m]| ==> Writable([m][i])
  {
  }

  lemma ReleasedWritable()
    ensures Writable(Milestone(Released, Semver(1, 2, 3), ReleasedItems))
  {
    ReleasedHeadingVersion();
    PrintableLineText(Released);
    PrintableLineText("done");
    PrintableLineText("pending");
    TwoItemsWritable(Milestone(Released, Semver(1, 2, 3), ReleasedItems));
  }

  lemma TwoItemsWritable(m: Milestone)
    requires |m.items| == 2 && LineText(m.heading) && LineText(m.items[0].text) && LineText(m.items[1].text)
    ensures WritableText(m)
  {
  }

  /** Every character is printable ASCII. */
  predicate Printable(t: string) {
    |t| == 0 || (' ' <= t[0] <= '~' && Printable(t[1..]))
  }

  lemma {:induction false} PrintableChars(t: string)
    requires Printable(t)
    ensures forall i :: 0 <= i < |t| ==> ' ' <= t[i] <= '~'
  {
    if |t| > 0 {
      PrintableChars(t[1..]);
      forall i | 1 <= i < |t| ensures ' ' <= t[i] <= '~' {
        assert t[i] == t[1..][i - 1];
      }
    }
  }

  /** Printable ASCII text without white space at either end is a line of text. */
  lemma PrintableLineText(t: string)
    requires |t| > 0 && t[0] != ' ' && t[|t| - 1] != ' ' && Printable(t)
    ensures LineText(t)
  {
    PrintableChars(t);
  }

  /** The milestone written out, one line each, gives the lines above. */
  lemma ReleasedLinesFormat()
    ensures FormatMilestones([Milestone(Released, Semver(1, 2, 3), ReleasedItems)]) == ReleasedLines
  {
    var m := Milestone(Released, Semver(1, 2, 3), ReleasedItems);
    assert [m][..0] == [] && [m][0] == m;
    assert FormatMilestones([m]) == FormatMilestone(m);
    assert "## " + m.heading == ReleasedLines[0];
    assert FormatTask(ReleasedItems[0]) == ReleasedLines[1] && FormatTask(ReleasedItems[1]) == ReleasedLines[2];
    assert Map(ReleasedItems, FormatTask) == ReleasedLines[1..];
  }

  /** The lines of a section whose heading names no version. */
  const NotesLines: seq<string> := ["## Notes", "- [ ] idea"]

  /** A heading without a version opens no milestone, so the item under it is dropped. */
  lemma ParseNotesRoadmap()
    ensures ParseLines(NotesLines).milestones == []
  {
    var idea := RoadmapItem(false, "idea");
    NotesText("Notes");
    LettersLineText("Notes");
    IdeaText("idea");
    LettersLineText("idea");
    NotesLinesParts("Notes", idea);
    NoVersionHeading("Notes");
    ClassifyTaskLine(idea);
    UnversionedSectionDropped("Notes", idea, NotesLines);
  }

  /** Text made of ASCII letters only. */
  ghost predicate Letters(t: string) {
    |t| > 0 && forall i :: 0 <= i < |t| ==> 'a' <= t[i] <= 'z' || 'A' <= t[i] <= 'Z'
  }

  /** A word of letters is a line of text without digits. */
  lemma LettersLineText(t: string)
    requires Letters(t)
    ensures LineText(t) && forall i :: 0 <= i < |t| ==> !IsDigit(t[i])
  {
  }

  lemma NotesText(h: string)
    requires h == "Notes"
    ensures Letters(h)
  {
  }

  lemma IdeaText(t: string)
    requires t == "idea"
    ensures Letters(t)
  {
  }

  /** The two lines are the heading `Notes` and the open task `idea`, written out. */
  lemma NotesLinesParts(h: string, item: RoadmapItem)
    requires h == "Notes" && item == RoadmapItem(false, "idea")
    ensures NotesLines == ["## " + h, FormatTask(item)]
  {
    assert "## " + h == "## Notes";
    assert FormatTask(item) == ['-', ' ', '[', ' ', ']', ' '] + "idea" == "- [ ] idea";
  }

  /** The `## ` line of a heading without digits is a heading without a version. */
  lemma NoVersionHeading(h: string)
    requires LineText(h) && forall i :: 0 <= i < |h| ==> !IsDigit(h[i])
    ensures Classify("## " + h) == HeadingLine(h, None)
  {
    HeadingOfLine(h);
    ClassifyHeading("## " + h, h);
    NoDigitsNoVersion(h);
  }

  /** Text without digits names no version. */
  lemma NoDigitsNoVersion(h: string)
    requires forall i :: 0 <= i < |h| ==> !IsDigit(h[i])
    ensures HeadingVersion(h) == None
  {
    HeadingVersionNone(h);
    forall p | 0 <= p <= |h| ensures !PatternStartsAt(h, p) {
      assert DigitEnd(h, p) == p;
      if p < |h| {
        assert DigitEnd(h, p + 1) == p + 1;
      }
    }
  }

  /** A heading line without a version followed by one task line yields no milestone. */
  lemma UnversionedSectionDropped(heading: string, item: RoadmapItem, lines: seq<string>)
    requires |lines| == 2
    requires Classify(lines[0]) == HeadingLine(heading, None)
    requires Classify(lines[1]) == TaskLine(item)
    ensures ParseLines(lines).milestones == []
  {
    var more := [TaskLine(item)];
    assert Classified(lines) == [HeadingLine(heading, None)] + more;
    Section(heading, None, more);
  }
}
