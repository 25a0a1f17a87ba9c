/**
 * The release plan shown on the roadmap page: the milestones parsed from
 * the roadmap are sorted by version, and one of them is chosen as the next
 * release according to the latest stable version, when that is known.
 *
 * The fetches around it are not modelled: the parsed milestones, the
 * current stable version (`None` when it could not be determined) and the
 * address the roadmap was read from are parameters. A roadmap that could
 * not be fetched never reaches this selection.
 */
module Plan {
  import opened Text
  import opened StableSort
  import opened Semver
  import opened Roadmap

  datatype ReleasePlan = ReleasePlan(nextVersionHeading: string, items: seq<string>, sourceUrl: string, hasNextVersion: bool)

  const NoTasksMessage: string := "No tasks listed for this milestone."
  const NoNewerHeading: string := "No newer roadmap milestone listed yet"
  const NoNewerMessage: string := "ROADMAP.md currently has no version higher than the latest stable release."

  // ---------------------------------------------------------------------
  // Sorting milestones: milestones.sort((a, b) => compareSemver(a.version, b.version))

  function MilestoneKey(m: Milestone): seq<int> {
    SemverKey(m.version)
  }

  function SortMilestones(ms: seq<Milestone>): (r: seq<Milestone>)
    ensures |r| == |ms|
  {
    Sort(ms, MilestoneKey)
  }

  /** The key order is the order `compareSemver` induces on versions. */
  lemma KeyOrder(a: Milestone, b: Milestone)
    ensures LexLe(MilestoneKey(a), MilestoneKey(b)) <==> CompareSemver(a.version, b.version) <= 0
    ensures MilestoneKey(a) == MilestoneKey(b) <==> a.version == b.version
  {
    CompareSemverOrder(a.version, b.version);
    if MilestoneKey(a) == MilestoneKey(b) {
      assert MilestoneKey(a)[0] == MilestoneKey(b)[0];
      assert MilestoneKey(a)[1] == MilestoneKey(b)[1];
      assert MilestoneKey(a)[2] == MilestoneKey(b)[2];
    }
  }

  function VersionIs(v: Semver): Milestone -> bool {
    (m: Milestone) => m.version == v
  }

  /**
   * Sorting the milestones permutes them into ascending version order and
   * keeps the document order of milestones that share a version.
   */
  lemma SortMilestonesMeaning(ms: seq<Milestone>)
    ensures multiset(SortMilestones(ms)) == multiset(ms)
    ensures forall i, j :: 0 <= i < j < |ms| ==>
              CompareSemver(SortMilestones(ms)[i].version, SortMilestones(ms)[j].version) <= 0
    ensures forall v :: Filter(SortMilestones(ms), VersionIs(v)) == Filter(ms, VersionIs(v))
  {
    var t := SortMilestones(ms);
    SortPermutes(ms, MilestoneKey);
    SortSorted(ms, MilestoneKey);
    forall i, j | 0 <= i < j < |ms| ensures CompareSemver(t[i].version, t[j].version) <= 0 {
      KeyOrder(t[i], t[j]);
    }
    forall v ensures Filter(t, VersionIs(v)) == Filter(ms, VersionIs(v)) {
      var k := SemverKey(v);
      SortStable(ms, MilestoneKey, k);
      forall i | 0 <= i < |ms| ensures KeyIs(MilestoneKey, k)(ms[i]) == VersionIs(v)(ms[i]) {
        KeyOrder(ms[i], Milestone([], v, []));
      }
      forall i | 0 <= i < |t| ensures KeyIs(MilestoneKey, k)(t[i]) == VersionIs(v)(t[i]) {
        KeyOrder(t[i], Milestone([], v, []));
      }
      FilterAgree(ms, KeyIs(MilestoneKey, k), VersionIs(v));
      FilterAgree(t, KeyIs(MilestoneKey, k), VersionIs(v));
    }
  }

  /**
   * `ms[j]` is what `find(p)` returns on the sorted milestones: it satisfies
   * `p`, no milestone satisfying `p` has a lower version, and it is the
   * first in document order among those with its version.
   */
  ghost predicate FirstLeast(ms: seq<Milestone>, p: Milestone -> bool, j: int) {
    && 0 <= j < |ms| && p(ms[j])
    && (forall i :: 0 <= i < |ms| && p(ms[i]) ==> CompareSemver(ms[j].version, ms[i].version) <= 0)
    && (forall i :: 0 <= i < j && p(ms[i]) ==> ms[i].version != ms[j].version)
  }

  /** At most one milestone is the first least-versioned one satisfying `p`. */
  lemma FirstLeastUnique(ms: seq<Milestone>, p: Milestone -> bool, j: int, k: int)
    requires FirstLeast(ms, p, j) && FirstLeast(ms, p, k)
    ensures j == k
  {
    CompareSemverAntisymmetric(ms[j].version, ms[k].version);
    CompareSemverOrder(ms[j].version, ms[k].version);
  }

  /** Finding `p` in the sorted milestones finds the first least-versioned milestone satisfying `p`. */
  lemma SortedFindOrigin(ms: seq<Milestone>, p: Milestone -> bool)
    requires exists i :: 0 <= i < |ms| && p(ms[i])
    ensures Find(SortMilestones(ms), p).Some?
    ensures exists k :: FirstLeast(ms, p, k) && SortMilestones(ms)[Find(SortMilestones(ms), p).value] == ms[k]
  {
    SortFirstSatisfying(ms, MilestoneKey, p);
    var n := Find(SortMilestones(ms), p).value;
    var k :| 0 <= k < |ms| && SortMilestones(ms)[n] == ms[k] && p(ms[k])
             && (forall i :: 0 <= i < |ms| && p(ms[i]) ==> LexLe(MilestoneKey(ms[k]), MilestoneKey(ms[i])))
             && (forall i :: 0 <= i < k && p(ms[i]) ==> MilestoneKey(ms[i]) != MilestoneKey(ms[k]));
    forall i | 0 <= i < |ms| && p(ms[i]) ensures CompareSemver(ms[k].version, ms[i].version) <= 0 {
      KeyOrder(ms[k], ms[i]);
    }
    forall i | 0 <= i < k && p(ms[i]) ensures ms[i].version != ms[k].version {
      KeyOrder(ms[i], ms[k]);
    }
    assert FirstLeast(ms, p, k);
  }

  /** The milestone found in the sorted list is `ms[j]` for the first least-versioned `j`. */
  lemma SortedFind(ms: seq<Milestone>, p: Milestone -> bool, j: int)
    requires FirstLeast(ms, p, j)
    ensures Find(SortMilestones(ms), p).Some?
    ensures SortMilestones(ms)[Find(SortMilestones(ms), p).value] == ms[j]
  {
    SortedFindOrigin(ms, p);
    var k :| FirstLeast(ms, p, k) && SortMilestones(ms)[Find(SortMilestones(ms), p).value] == ms[k];
    FirstLeastUnique(ms, p, j, k);
  }

  /** Some milestone is first and least among those satisfying `p` whenever any satisfies `p`. */
  lemma FirstLeastExists(ms: seq<Milestone>, p: Milestone -> bool)
    requires exists i :: 0 <= i < |ms| && p(ms[i])
    ensures exists j :: FirstLeast(ms, p, j)
  {
    SortedFindOrigin(ms, p);
  }

  // ---------------------------------------------------------------------
  // Choosing the next milestone

  function Unfinished(item: RoadmapItem): bool {
    !item.done
  }

  function ItemText(item: RoadmapItem): string {
    item.text
  }

  /** `milestone.items.some((item) => !item.done)` */
  function HasWork(m: Milestone): bool {
    Any(m.items, Unfinished)
  }

  /** `compareSemver(milestone.version, currentVersion) > 0` */
  function NewerThan(current: Semver): Milestone -> bool {
    (m: Milestone) => CompareSemver(m.version, current) > 0
  }

  /** The predicate every milestone satisfies: `find` with it returns the first. */
  function Always(m: Milestone): bool {
    true
  }

  /** The texts of the unfinished items, in order. */
  function UncheckedTexts(m: Milestone): seq<string> {
    Map(Filter(m.items, Unfinished), ItemText)
  }

  function AllTexts(m: Milestone): seq<string> {
    Map(m.items, ItemText)
  }

  function OrPlaceholder(items: seq<string>): seq<string> {
    if |items| > 0 then items else [NoTasksMessage]
  }

  /** The plan announcing `m` as the next version. */
  function MilestonePlan(m: Milestone, sourceUrl: string): ReleasePlan {
    var unchecked := UncheckedTexts(m);
    ReleasePlan(m.heading, OrPlaceholder(if |unchecked| > 0 then unchecked else AllTexts(m)), sourceUrl, true)
  }

  /**
   * The plan of `fetchUpcomingReleasePlan` for the parsed milestones and the
   * current stable version; `None` is the page's `null`.
   */
  function UpcomingPlan(parsed: seq<Milestone>, current: Option<Semver>, sourceUrl: string): (r: Option<ReleasePlan>)
    ensures r.None? <==> parsed == []
    ensures r.Some? ==> |r.value.items| > 0 && r.value.sourceUrl == sourceUrl
  {
    var milestones := SortMilestones(parsed);
    if |milestones| == 0 then None
    else if current.Some? then
      match Find(milestones, NewerThan(current.value))
      case Some(n) => Some(MilestonePlan(milestones[n], sourceUrl))
      case None =>
        match Find(milestones, HasWork)
        case Some(w) =>
          Some(ReleasePlan(milestones[w].heading, OrPlaceholder(UncheckedTexts(milestones[w])), sourceUrl, true))
        case None => Some(ReleasePlan(NoNewerHeading, [NoNewerMessage], sourceUrl, false))
    else
      var n := match Find(milestones, HasWork) case Some(w) => w case None => 0;
      Some(MilestonePlan(milestones[n], sourceUrl))
  }

  // ---------------------------------------------------------------------
  // What the plan says

  /** There are unchecked texts exactly when there is work left. */
  lemma UncheckedTextsMeaning(m: Milestone)
    ensures UncheckedTexts(m) != [] <==> HasWork(m)
  {
    if HasWork(m) {
      var i :| 0 <= i < |m.items| && Unfinished(m.items[i]);
      FilterComplete(m.items, Unfinished);
      assert m.items[i] in Filter(m.items, Unfinished);
    } else {
      FilterNone(m.items, Unfinished);
    }
  }

  /** The unchecked texts are the texts of the unfinished items. */
  lemma UncheckedTextsMembers(m: Milestone, t: string)
    ensures t in UncheckedTexts(m) <==> exists item :: item in m.items && !item.done && item.text == t
  {
    var f := Filter(m.items, Unfinished);
    var u := UncheckedTexts(m);
    InFilter(m.items, Unfinished);
    if t in u {
      var k :| 0 <= k < |f| && u[k] == t;
      assert f[k] in f;
    }
    if exists item :: item in m.items && !item.done && item.text == t {
      var item :| item in m.items && !item.done && item.text == t;
      assert item in f;
      var k :| 0 <= k < |f| && f[k] == item;
      assert u[k] == t;
    }
  }

  /**
   * A milestone's plan lists its unfinished texts when work is left, all of
   * its texts when every item is done, and the placeholder when it has no
   * items.
   */
  lemma MilestonePlanItems(m: Milestone, sourceUrl: string)
    ensures MilestonePlan(m, sourceUrl).nextVersionHeading == m.heading
    ensures MilestonePlan(m, sourceUrl).hasNextVersion
    ensures HasWork(m) ==> MilestonePlan(m, sourceUrl).items == UncheckedTexts(m)
    ensures !HasWork(m) && m.items != [] ==> MilestonePlan(m, sourceUrl).items == AllTexts(m)
    ensures m.items == [] ==> MilestonePlan(m, sourceUrl).items == [NoTasksMessage]
  {
    UncheckedTextsMeaning(m);
  }

  /** With a known current version, the next milestone is the lowest version above it. */
  lemma PlanNextMilestone(parsed: seq<Milestone>, current: Semver, sourceUrl: string, j: int)
    requires FirstLeast(parsed, NewerThan(current), j)
    ensures UpcomingPlan(parsed, Some(current), sourceUrl) == Some(MilestonePlan(parsed[j], sourceUrl))
  {
    SortedFind(parsed, NewerThan(current), j);
  }

  /**
   * With a known current version and nothing newer, the plan falls back to
   * the lowest milestone with work left and lists only its unfinished texts.
   */
  lemma PlanFallback(parsed: seq<Milestone>, current: Semver, sourceUrl: string, j: int)
    requires forall i :: 0 <= i < |parsed| ==> CompareSemver(parsed[i].version, current) <= 0
    requires FirstLeast(parsed, HasWork, j)
    ensures UncheckedTexts(parsed[j]) != []
    ensures UpcomingPlan(parsed, Some(current), sourceUrl)
            == Some(ReleasePlan(parsed[j].heading, UncheckedTexts(parsed[j]), sourceUrl, true))
  {
    var t := SortMilestones(parsed);
    SortPermutes(parsed, MilestoneKey);
    forall n | 0 <= n < |t| ensures !NewerThan(current)(t[n]) {
      assert t[n] in multiset(parsed);
    }
    SortedFind(parsed, HasWork, j);
    UncheckedTextsMeaning(parsed[j]);
  }

  /** With a known current version, nothing newer and no work left, the plan says there is no next version. */
  lemma PlanNothingNewer(parsed: seq<Milestone>, current: Semver, sourceUrl: string)
    requires parsed != []
    requires forall i :: 0 <= i < |parsed| ==> CompareSemver(parsed[i].version, current) <= 0 && !HasWork(parsed[i])
    ensures UpcomingPlan(parsed, Some(current), sourceUrl)
            == Some(ReleasePlan(NoNewerHeading, [NoNewerMessage], sourceUrl, false))
  {
    var t := SortMilestones(parsed);
    SortPermutes(parsed, MilestoneKey);
    forall n | 0 <= n < |t| ensures !NewerThan(current)(t[n]) && !HasWork(t[n]) {
      assert t[n] in multiset(parsed);
    }
  }

  /** Without a current version, the plan is for the lowest milestone with work left. */
  lemma PlanUnknownWithWork(parsed: seq<Milestone>, sourceUrl: string, j: int)
    requires FirstLeast(parsed, HasWork, j)
    ensures UpcomingPlan(parsed, None, sourceUrl) == Some(MilestonePlan(parsed[j], sourceUrl))
  {
    SortedFind(parsed, HasWork, j);
  }

  /** Without a current version and with no work left anywhere, the plan is for the lowest milestone. */
  lemma PlanUnknownNoWork(parsed: seq<Milestone>, sourceUrl: string, j: int)
    requires forall i :: 0 <= i < |parsed| ==> !HasWork(parsed[i])
    requires FirstLeast(parsed, Always, j)
    ensures UpcomingPlan(parsed, None, sourceUrl) == Some(MilestonePlan(parsed[j], sourceUrl))
  {
    var t := SortMilestones(parsed);
    SortPermutes(parsed, MilestoneKey);
    forall n | 0 <= n < |t| ensures !HasWork(t[n]) {
      assert t[n] in multiset(parsed);
    }
    SortedFind(parsed, Always, j);
  }

  /** The plan announces no next version exactly when the current version is known and no milestone is newer or has work left. */
  lemma PlanHasNextVersion(parsed: seq<Milestone>, current: Option<Semver>, sourceUrl: string)
    requires parsed != []
    ensures !UpcomingPlan(parsed, current, sourceUrl).value.hasNextVersion
            <==> current.Some? && forall i :: 0 <= i < |parsed| ==>
                   CompareSemver(parsed[i].version, current.value) <= 0 && !HasWork(parsed[i])
  {
    var t := SortMilestones(parsed);
    SortPermutes(parsed, MilestoneKey);
    if current.Some? && forall i :: 0 <= i < |parsed| ==> CompareSemver(parsed[i].version, current.value) <= 0 && !HasWork(parsed[i]) {
      PlanNothingNewer(parsed, current.value, sourceUrl);
    } else if current.Some? {
      var i :| 0 <= i < |parsed| && (CompareSemver(parsed[i].version, current.value) > 0 || HasWork(parsed[i]));
      assert parsed[i] in multiset(t);
      var n :| 0 <= n < |t| && t[n] == parsed[i];
      assert NewerThan(current.value)(t[n]) || HasWork(t[n]);
    }
  }
}
