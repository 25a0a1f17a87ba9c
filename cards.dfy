/**
 * The download cards: the visitor's operating system is guessed from the
 * browser's navigator fields, and the slots built by the downloads page are
 * shown with the slots for that system first.
 *
 * The React state around it (the `"unknown"` initial value, the animation
 * frame that calls `detectOS`) is not modelled: the detected system is a
 * parameter of the ordering, and the navigator is a parameter of the
 * detection (`None` when there is no `window`).
 */
module Cards {
  import opened Text
  import opened StableSort
  import opened Assets

  datatype DetectedOs = Windows | Mac | Other | Unknown

  /** The string a slot's platform is compared with. */
  function OsName(os: DetectedOs): string {
    match os
    case Windows => "windows"
    case Mac => "mac"
    case Other => "other"
    case Unknown => "unknown"
  }

  /** The navigator fields `detectOS` reads; `userAgentDataPlatform` is `userAgentData?.platform`. */
  datatype Navigator = Navigator(userAgentDataPlatform: Option<string>, platform: string, userAgent: string)

  // ---------------------------------------------------------------------
  // detectOS

  /** `detectOS()`, with `toLowerCase` as ASCII lowering. */
  function DetectOs(window: Option<Navigator>): DetectedOs {
    if window.None? then Other
    else
      var nav := window.value;
      var fromUserAgentData := if nav.userAgentDataPlatform.Some? then Some(Lower(nav.userAgentDataPlatform.value)) else None;
      if fromUserAgentData.Some? && Contains(fromUserAgentData.value, "win") then Windows
      else if fromUserAgentData.Some? && Contains(fromUserAgentData.value, "mac") then Mac
      else
        var platform := Lower(nav.platform);
        if Contains(platform, "win") then Windows
        else if Contains(platform, "mac") then Mac
        else
          var userAgent := Lower(nav.userAgent);
          if Contains(userAgent, "windows") then Windows
          else if Contains(userAgent, "mac os") then Mac
          else Other
  }

  /** What one navigator field says on its own: Windows if it names Windows, else Mac if it names a Mac. */
  function Indication(source: Option<string>, windowsWord: string, macWord: string): Option<DetectedOs> {
    if source.None? then None
    else if Contains(Lower(source.value), windowsWord) then Some(Windows)
    else if Contains(Lower(source.value), macWord) then Some(Mac)
    else None
  }

  /** The navigator fields in the order they are consulted, with the words each is searched for. */
  function Indications(nav: Navigator): (r: seq<Option<DetectedOs>>)
    ensures |r| == 3
  {
    [Indication(nav.userAgentDataPlatform, "win", "mac"),
     Indication(Some(nav.platform), "win", "mac"),
     Indication(Some(nav.userAgent), "windows", "mac os")]
  }

  /**
   * The detected system is what the first field that indicates one says,
   * and "other" when no field indicates one.
   */
  lemma DetectOsPrecedence(nav: Navigator)
    ensures forall k :: 0 <= k < 3 && Indications(nav)[k].Some?
              && (forall i :: 0 <= i < k ==> Indications(nav)[i].None?)
              ==> DetectOs(Some(nav)) == Indications(nav)[k].value
    ensures (forall k :: 0 <= k < 3 ==> Indications(nav)[k].None?) ==> DetectOs(Some(nav)) == Other
  {
    var ind := Indications(nav);
    if forall k :: 0 <= k < 3 ==> ind[k].None? {
      assert ind[0].None? && ind[1].None? && ind[2].None?;
    }
    forall k | 0 <= k < 3 && ind[k].Some? && (forall i :: 0 <= i < k ==> ind[i].None?)
      ensures DetectOs(Some(nav)) == ind[k].value
    {
      if k > 0 {
        assert ind[0].None?;
      }
      if k > 1 {
        assert ind[1].None?;
      }
    }
  }

  /** `detectOS` never answers "unknown", and answers "other" without a window. */
  lemma DetectOsNeverUnknown(window: Option<Navigator>)
    ensures DetectOs(window) != Unknown
    ensures window.None? ==> DetectOs(window) == Other
  {
  }

  // ---------------------------------------------------------------------
  // getRelevanceScore and the ordered slots

  /** `getRelevanceScore(slot, os)` */
  function RelevanceScore(slot: DownloadSlot, os: DetectedOs): int {
    if os == Unknown || os == Other then 0
    else if slot.platform == OsName(os) then 0
    else 1
  }

  function ScoreKey(os: DetectedOs): DownloadSlot -> seq<int> {
    slot => [RelevanceScore(slot, os)]
  }

  /** The comparator's sign agrees with the order on score keys. */
  lemma CompareScoresOrder(a: DownloadSlot, b: DownloadSlot, os: DetectedOs)
    ensures RelevanceScore(a, os) - RelevanceScore(b, os) <= 0 <==> LexLe(ScoreKey(os)(a), ScoreKey(os)(b))
  {
    LexLeCons(RelevanceScore(a, os), [], RelevanceScore(b, os), []);
    assert ScoreKey(os)(a) == [RelevanceScore(a, os)] + [];
    assert ScoreKey(os)(b) == [RelevanceScore(b, os)] + [];
  }

  /** `[...slots].sort((a, b) => getRelevanceScore(a, os) - getRelevanceScore(b, os))` */
  function OrderedSlots(slots: seq<DownloadSlot>, os: DetectedOs): (r: seq<DownloadSlot>)
    ensures |r| == |slots|
  {
    Sort(slots, ScoreKey(os))
  }

  function Relevant(os: DetectedOs): DownloadSlot -> bool {
    slot => RelevanceScore(slot, os) == 0
  }

  function Irrelevant(os: DetectedOs): DownloadSlot -> bool {
    slot => RelevanceScore(slot, os) != 0
  }

  /** The score is 0 or 1, and 0 for every slot when no system is known. */
  lemma RelevanceScoreMeaning(slot: DownloadSlot, os: DetectedOs)
    ensures RelevanceScore(slot, os) == 0 || RelevanceScore(slot, os) == 1
    ensures os == Unknown || os == Other ==> RelevanceScore(slot, os) == 0
    ensures os == Windows || os == Mac ==> (RelevanceScore(slot, os) == 0 <==> slot.platform == OsName(os))
  {
  }

  /**
   * The ordered slots are the relevant slots followed by the others, each
   * group in the order of `slots`: a permutation that puts score 0 before
   * score 1 and is stable within each score.
   */
  lemma OrderedSlotsPartition(slots: seq<DownloadSlot>, os: DetectedOs)
    ensures OrderedSlots(slots, os) == Filter(slots, Relevant(os)) + Filter(slots, Irrelevant(os))
    ensures multiset(OrderedSlots(slots, os)) == multiset(slots)
  {
    var key := ScoreKey(os);
    assert LexLe([0], [1]) by {
      LexLeCons(0, [], 1, []);
    }
    forall i | 0 <= i < |slots| ensures key(slots[i]) == [0] || key(slots[i]) == [1] {
      RelevanceScoreMeaning(slots[i], os);
    }
    SortTwoKeys(slots, key, [0], [1]);
    forall i | 0 <= i < |slots| ensures KeyIs(key, [0])(slots[i]) == Relevant(os)(slots[i]) {
      assert key(slots[i])[0] == RelevanceScore(slots[i], os);
    }
    forall i | 0 <= i < |slots| ensures KeyIs(key, [1])(slots[i]) == Irrelevant(os)(slots[i]) {
      assert key(slots[i])[0] == RelevanceScore(slots[i], os);
      RelevanceScoreMeaning(slots[i], os);
    }
    FilterAgree(slots, KeyIs(key, [0]), Relevant(os));
    FilterAgree(slots, KeyIs(key, [1]), Irrelevant(os));
    SortPermutes(slots, key);
  }

  /** With no system known, the slots keep their order. */
  lemma OrderedSlotsUnchanged(slots: seq<DownloadSlot>, os: DetectedOs)
    requires os == Unknown || os == Other
    ensures OrderedSlots(slots, os) == slots
  {
    SortSameKey(slots, ScoreKey(os), [0]);
  }

  // ---------------------------------------------------------------------
  // isApplicable

  /** `os === "unknown" ? true : slot.platform === os` */
  function IsApplicable(slot: DownloadSlot, os: DetectedOs): bool {
    if os == Unknown then true else slot.platform == OsName(os)
  }

  function ApplicableTo(os: DetectedOs): DownloadSlot -> bool {
    slot => IsApplicable(slot, os)
  }

  function NotApplicableTo(os: DetectedOs): DownloadSlot -> bool {
    slot => !IsApplicable(slot, os)
  }

  /** Once a Windows or Mac system is detected, the applicable slots come first, in their own order. */
  lemma ApplicableFirst(slots: seq<DownloadSlot>, os: DetectedOs)
    requires os == Windows || os == Mac
    ensures OrderedSlots(slots, os) == Filter(slots, ApplicableTo(os)) + Filter(slots, NotApplicableTo(os))
  {
    OrderedSlotsPartition(slots, os);
    FilterAgree(slots, Relevant(os), ApplicableTo(os));
    FilterAgree(slots, Irrelevant(os), NotApplicableTo(os));
  }

  /**
   * Every slot is applicable while the system is unknown; "other" makes only
   * a slot whose platform is the string "other" applicable.
   */
  lemma IsApplicableMeaning(slot: DownloadSlot, os: DetectedOs)
    ensures os == Unknown ==> IsApplicable(slot, os)
    ensures os == Other ==> (IsApplicable(slot, os) <==> slot.platform == "other")
    ensures os == Windows || os == Mac ==> (IsApplicable(slot, os) <==> RelevanceScore(slot, os) == 0)
  {
  }

  /**
   * Once a system is detected, no slot with a platform the downloads page
   * gives its Mac or Linux slots ("mac-arm64", "mac-x64", "linux") is
   * applicable: `detectOS` says "mac", never "mac-arm64" or "mac-x64".
   */
  lemma MacAndLinuxSlotsInapplicable(slot: DownloadSlot, window: Option<Navigator>)
    requires slot.platform == "mac-arm64" || slot.platform == "mac-x64" || slot.platform == "linux"
    ensures !IsApplicable(slot, DetectOs(window))
    ensures RelevanceScore(slot, DetectOs(window)) == 0 <==> DetectOs(window) == Other
  {
    DetectOsNeverUnknown(window);
  }
}
