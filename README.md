# Mira website: downloads, roadmap and site address

This project models, in Dafny, the logic behind the Mira browser's website:

- **Downloads page** (`Assets`). It classifies the assets of a GitHub release by file name: downloadable or not, which platform, installer or portable, and which Mac architecture. It ranks the candidates for each of the nine download slots by a weighted list of preferred terms, then by size. It fills the slots, with Mac slots falling back to assets of unknown architecture. It also chooses which release to show, honouring the `includePrereleases` query parameter.
- **Download cards** (`Cards`). They guess the visitor's operating system from three optional navigator strings, then stably reorder the slots so that those for that system come first and mark which ones apply.
- **Roadmap page**:
  - `Semver` parses and compares `X.Y.Z` versions.
  - `Roadmap` parses `ROADMAP.md` in one forward pass over its lines. It collects milestones under versioned `##` headings and `- [ ]` / `- [x]` task lines under them.
  - `Plan` sorts the milestones by version and chooses the next release plan from the latest stable version, when that version is known.
- **Site address** (`SiteUrl`). It picks the site's base URL from two optional environment variables and strips trailing slashes.

`Text` holds the string operations the pages rely on:

- ASCII lower-casing;
- `includes`, `endsWith` and `startsWith`;
- whole-word matches in the sense of a regular expression `\b`;
- JavaScript's `trim`.

`StableSort` holds `filter`, `find`, `map` and the stable sort that JavaScript's `Array.prototype.sort` is. The sort is given as an insertion sort by a key whose lexicographic order is the comparator's order. `RoadmapExamples` states what the parser returns for two small roadmaps.

The parser (`Roadmap.ParseRoadmapMarkdown`) is a method with a loop, as in the source. It is proved equal to a fold of a line-classification function, and the properties are proved about that fold. Everything else in the source is expressions over values and is modelled as functions.

Where the code and its design description differ, the model follows the code:

- **`compareSemver` returns differences.** It returns the difference of the first unequal components, not just -1, 0 or 1. Only its sign is used.
- **A plain `.zip` reaches no slot.** A name like `Mira-Portable.zip` contains neither "win", "mac" nor "linux", and has no platform-specific extension. So it is no Windows, Mac or Linux asset and fills no slot, Windows Portable included (`Assets.PortableZipNamesNoPlatform`).
- **"win" also matches "darwin".** A darwin asset is therefore both a Windows and a Mac asset (`Assets.DarwinIsWindowsAndMac`).
- **Mac slots never apply to a detected Mac.** The cards compare a slot's platform with the detected system's name ("windows" or "mac"). The page's Mac slots say "mac-arm64" or "mac-x64", and its Linux slots say "linux". So a Mac or Linux card is never marked applicable once a system has been detected, and is never moved forward (`Cards.MacAndLinuxSlotsInapplicable`).
- **Known version with nothing newer.** When the current version is known and no milestone is newer, the plan falls back to the lowest milestone with unfinished work. Only when there is none does it show the "no newer milestone" message (`Plan.PlanFallback`, `Plan.PlanNothingNewer`).

Three names in the model differ from the source:

- The slot field `label` is called `caption`, because `label` is a reserved word in Dafny.
- Detection's `"unknown"` state is `Unknown`.
- `null` is `None` throughout.

## Model

| member | source | states |
|---|---|---|
| Text.Lower | app/downloads/page.tsx:41 | `toLowerCase` keeps the length and lowers each character on its own |
| Text.LowerIdempotent | app/downloads/page.tsx:41 | lowering twice is lowering once |
| Text.Contains | app/downloads/page.tsx:49 | `includes` holds exactly when the text occurs at some position |
| Text.HasToken | app/downloads/page.tsx:76 | a `\b`-delimited match exists exactly when the word occurs with no word character on either side |
| Text.TrimMeaning | app/roadmap/page.tsx:39 | `trim` returns a slice of its input that neither starts nor ends with white space |
| Text.TrimUnchanged | app/roadmap/page.tsx:68 | trimming text without white space at either end changes nothing |
| StableSort.SortPermutes | app/downloads/page.tsx:115 | sorting a copy permutes it |
| StableSort.SortSorted | app/downloads/page.tsx:115 | the sorted copy is in key order |
| StableSort.SortStable | app/downloads/download-cards.tsx:77 | the sort keeps the input order among elements with equal keys |
| StableSort.FilterSort | app/roadmap/page.tsx:208-210 | filtering a sorted sequence equals sorting the filtered one |
| StableSort.SortTwoKeys | app/downloads/download-cards.tsx:76-79 | when there are only two keys, the sort puts all low-key elements, in input order, before all high-key ones |
| StableSort.SortHead | app/downloads/page.tsx:136 | the head of the sort is an input element that is least in key order and the first input element with its key |
| StableSort.Find | app/roadmap/page.tsx:219 | `find` returns the first index satisfying the predicate, or none when no element does |
| StableSort.InFilter | app/downloads/page.tsx:150-173 | an element survives `filter` exactly when it is in the input and satisfies the predicate |
| Assets.DownloadableMeaning | app/downloads/page.tsx:40-45 | a name is downloadable exactly when its lower-cased form ends with one of the nine package extensions |
| Assets.ClassifiersIgnoreCase | app/downloads/page.tsx:40-108 | every name classifier gives the same answer for a name and its lower-cased form |
| Assets.ExeInstallerXorPortable | app/downloads/page.tsx:90-108 | for an `.exe` whose name does not contain "portable", it is an installer exactly when it contains "setup" and portable exactly when it does not |
| Assets.MacArchitectureMeaning | app/downloads/page.tsx:72-88 | Apple Silicon exactly when an arm64/aarch64 whole word or an apple-silicon marker occurs, even beside Intel markers; Intel exactly when only x64/x86_64/amd64/intel whole words occur; unknown otherwise |
| Assets.DarwinIsWindowsAndMac | app/downloads/page.tsx:47-60 | every name containing "darwin" is both a Windows and a Mac asset |
| Assets.UnderscoreHidesArchitecture | app/downloads/page.tsx:76 | `mira_arm64.dmg` has unknown architecture, because `_` is a word character |
| Assets.ScoreUpTo | app/downloads/page.tsx:119-127 | the score is never negative, and it is zero exactly when the name contains none of the preferred terms |
| Assets.AssetKeyOrder | app/downloads/page.tsx:115-134 | the sort key's order is "higher score, or equal score and at least the size", and equal keys mean equal score and size |
| Assets.CompareAssetsOrder | app/downloads/page.tsx:115-134 | the comparator puts `a` no later than `b` exactly when the key order does |
| Assets.ChooseBestAsset | app/downloads/page.tsx:110-113 | there is no choice exactly when there are no candidates |
| Assets.ChooseBestAssetBest | app/downloads/page.tsx:115-136 | the chosen asset is a candidate that ranks at least as high as every candidate, and no earlier candidate has the same score and size |
| Assets.ChooseBestAssetIn | app/downloads/page.tsx:136 | the chosen asset is one of the candidates |
| Assets.ChooseBestAssetIdempotent | app/downloads/page.tsx:110-137 | ranking the chosen asset on its own chooses it again |
| Assets.SlotList | app/downloads/page.tsx:387-397 | the list of slots the page hands to the download cards always has nine entries |
| Assets.WindowsSlotHeader | app/downloads/page.tsx:176-185 | the Windows slots' captions and platform are fixed, whatever the assets |
| Assets.MacSlotHeader | app/downloads/page.tsx:186-217 | each Mac slot's caption and platform depend only on its architecture and packaging |
| Assets.LinuxSlotHeader | app/downloads/page.tsx:218-232 | a Linux slot has the platform "linux" and the caption it is built with |
| Assets.WindowsCandidatesMeaning | app/downloads/page.tsx:150-157 | a Windows candidate is exactly a release asset that is downloadable, a Windows asset and of the slot's packaging |
| Assets.MacCandidatesMeaning | app/downloads/page.tsx:150-170 | a Mac candidate is exactly a downloadable Mac asset of the given architecture and packaging |
| Assets.LinuxCandidatesMeaning | app/downloads/page.tsx:150-173 | a Linux candidate is exactly a downloadable Linux asset whose lower-cased name has the slot's extension |
| Assets.WindowsSlotMeaning | app/downloads/page.tsx:176-185 | a Windows slot holds a Windows candidate of the release, and holds nothing exactly when there is none |
| Assets.LinuxSlotMeaning | app/downloads/page.tsx:218-232 | a Linux slot holds a Linux candidate with its extension, and holds nothing exactly when there is none |
| Assets.MacSlotFromOwn | app/downloads/page.tsx:186-217 | while its own architecture has candidates, a Mac slot holds one of them |
| Assets.MacSlotFromUnknown | app/downloads/page.tsx:186-217 | with no candidate of its own architecture, a Mac slot holds an unknown-architecture candidate, or nothing exactly when there is none |
| Assets.MacSlotFallback | app/downloads/page.tsx:186-217 | a Mac slot never holds an asset of the other architecture, and uses unknown-architecture assets only when its own has none |
| Assets.BuildWindowsSlots | app/downloads/page.tsx:139-185 | both Windows slots of `buildDownloadSlots` satisfy the Windows slot property |
| Assets.BuildMacSlots | app/downloads/page.tsx:139-217 | all four Mac slots of `buildDownloadSlots` satisfy the fallback property |
| Assets.BuildLinuxSlots | app/downloads/page.tsx:139-232 | all three Linux slots of `buildDownloadSlots` satisfy the Linux slot property |
| Assets.UnknownDmgIsCandidate | app/downloads/page.tsx:159-169 | a `.dmg` without architecture markers is an unknown-architecture Mac installer candidate and no other architecture's |
| Assets.LoneUnknownDmgFillsBothInstallers | app/downloads/page.tsx:186-209 | a lone unknown-architecture `.dmg` fills both Mac installer slots |
| Assets.LoneCandidateFills | app/downloads/page.tsx:186-217 | a lone unknown-architecture candidate fills a Mac slot whose own architecture has no candidate |
| Assets.NoPlatformNoCandidate | app/downloads/page.tsx:152-173 | an asset of no platform is a candidate for no slot |
| Assets.PortableZipNamesNoPlatform | app/downloads/page.tsx:47-70 | `Mira-Portable.zip` is neither a Windows, a Mac nor a Linux asset |
| Assets.ParseIncludePrereleasesMany | app/downloads/page.tsx:32-38 | a repeated query value opts in exactly when one of its values would opt in alone |
| Assets.SelectReleaseMeaning | app/downloads/page.tsx:304-316 | no release is shown exactly when there are none; otherwise the first stable release, unless the user opted in or none is stable, in which case the first release |
| Assets.PageSlotsMeaning | app/downloads/page.tsx:307-316 | the page shows no slots exactly when there are no releases; otherwise the nine slots of the first stable release, or of the first release when the user opted in or none is stable |
| Cards.DetectOsPrecedence | app/downloads/download-cards.tsx:30-54 | the detected system is the first indication among userAgentData platform, navigator platform and user agent; within each, Windows takes precedence over Mac; "other" when none indicates |
| Cards.DetectOsNeverUnknown | app/downloads/download-cards.tsx:22-54 | detection never yields "unknown", and yields "other" without a window |
| Cards.CompareScoresOrder | app/downloads/download-cards.tsx:77 | the score comparator's order is the order of the sort key |
| Cards.RelevanceScoreMeaning | app/downloads/download-cards.tsx:57-63 | the score is 0 or 1; always 0 for "unknown" and "other"; otherwise 0 exactly when the platform equals the system's name |
| Cards.OrderedSlotsPartition | app/downloads/download-cards.tsx:76-79 | the ordered slots are the score-0 slots in input order followed by the score-1 slots in input order, a permutation of the input |
| Cards.OrderedSlotsUnchanged | app/downloads/download-cards.tsx:57-60 | for "unknown" and "other" the order is the input order |
| Cards.ApplicableFirst | app/downloads/download-cards.tsx:76-84 | for Windows or Mac, the applicable slots come first, then the others, each group in input order |
| Cards.IsApplicableMeaning | app/downloads/download-cards.tsx:84 | every slot applies under "unknown"; under "other" a slot applies only if its platform is "other"; otherwise it applies exactly when its score is 0 |
| Cards.MacAndLinuxSlotsInapplicable | app/downloads/download-cards.tsx:57-84 | once a system is detected, a "mac-arm64", "mac-x64" or "linux" slot is never applicable, and scores 0 only under "other" |
| Semver.NatToString | app/roadmap/page.tsx:48-50 | the decimal digits of a number read back as that number |
| Semver.MatchVersionAtSound | app/roadmap/page.tsx:41 | a match found at a position is a `digits.digits.digits` run followed by a word boundary |
| Semver.MatchVersionAtComplete | app/roadmap/page.tsx:41 | every such run followed by a boundary is found, with its value |
| Semver.ParseSemverMeaning | app/roadmap/page.tsx:38-52 | `parseSemver` gives `x` exactly when the trimmed text, less one leading v/V, starts with `X.Y.Z` of value `x` whose last digit run is not followed by another digit |
| Semver.ParseFormatSemver | app/roadmap/page.tsx:38-52 | a formatted version, with an optional `v`/`V` and a suffix not starting with a digit or space, parses back to itself |
| Semver.CompareSemverOrder | app/roadmap/page.tsx:54-58 | the comparison is at most 0 exactly when (major, minor, patch) is lexicographically at most the other's, and 0 exactly for equal versions |
| Semver.CompareSemverAntisymmetric | app/roadmap/page.tsx:54-58 | swapping the arguments negates the comparison |
| Semver.CompareSemverTransitive | app/roadmap/page.tsx:54-58 | the order the comparison induces is transitive |
| Semver.CompareSemverTotal | app/roadmap/page.tsx:54-58 | any two versions are comparable |
| Roadmap.SplitLines | app/roadmap/page.tsx:61 | splitting always gives at least one line |
| Roadmap.SplitLinesNoNewline | app/roadmap/page.tsx:61 | no piece of the split holds a line feed |
| Roadmap.SplitJoinLines | app/roadmap/page.tsx:61 | splitting lines joined by `\n` or `\r\n` gives those lines back |
| Roadmap.HeadingOfMeaning | app/roadmap/page.tsx:66-68 | a line is a heading exactly when it is `##`, white space, then text on one line; the heading is that text trimmed |
| Roadmap.HeadingNotTask | app/roadmap/page.tsx:66-82 | a heading line is never also read as a task |
| Roadmap.HeadingOfLine | app/roadmap/page.tsx:66-68 | `## ` followed by a line of text is a heading with that text |
| Roadmap.HeadingVersionMeaning | app/roadmap/page.tsx:69-70 | a heading's version is the one matched at the leftmost place where an optional `v` and `X.Y.Z` at a boundary start |
| Roadmap.HeadingVersionNone | app/roadmap/page.tsx:69-70 | a heading has no version exactly when no such place exists |
| Roadmap.GroupParses | app/roadmap/page.tsx:70 | the matched group read by `parseSemver` gives the matched version |
| Roadmap.TaskBoxMeaning | app/roadmap/page.tsx:81 | the box of a task line is found exactly when one exists, and it is the only one |
| Roadmap.TaskOfMatches | app/roadmap/page.tsx:81 | a line is a task exactly when it matches `-`/`*`, white space, a box, white space and text, with one box position |
| Roadmap.TaskOfAt | app/roadmap/page.tsx:81-86 | a task is done exactly when its mark is x or X, and its text is the rest of the line, trimmed |
| Roadmap.TaskOfFormat | app/roadmap/page.tsx:81-86 | a written task line reads back as the same task |
| Roadmap.ParseRoadmapMarkdown | app/roadmap/page.tsx:60-91 | the loop over the lines returns the milestones of the fold of `Step` over the classified lines |
| Roadmap.FoldAppend | app/roadmap/page.tsx:65-88 | parsing is one forward pass: the fold over two parts is the fold over the second from the state after the first |
| Roadmap.HeadingCuts | app/roadmap/page.tsx:66-78 | a heading closes every earlier milestone: what follows it is parsed as if from the start |
| Roadmap.Preamble | app/roadmap/page.tsx:82 | lines before the first heading add nothing |
| Roadmap.Section | app/roadmap/page.tsx:72-87 | a versioned heading followed by non-heading lines is one milestone with those lines' tasks in order; an unversioned one drops them |
| Roadmap.MilestoneHeadings | app/roadmap/page.tsx:66-77 | the milestones' headings and versions are the versioned headings in document order |
| Roadmap.ParseFormatMilestones | app/roadmap/page.tsx:60-91 | written-out milestones parse back to themselves |
| Roadmap.ParseRoadmapRoundTrip | app/roadmap/page.tsx:60-91 | written-out milestones joined by line feeds parse back to themselves |
| RoadmapExamples.ReleasedHeadingVersion | app/roadmap/page.tsx:69-70 | the heading `v1.2.3 Release` has version 1.2.3 |
| RoadmapExamples.ParseReleasedRoadmap | app/roadmap/page.tsx:60-91 | a `## v1.2.3 Release` heading with one finished and one open task parses to that one milestone |
| RoadmapExamples.NoDigitsNoVersion | app/roadmap/page.tsx:69-70 | a heading without digits names no version |
| RoadmapExamples.ParseNotesRoadmap | app/roadmap/page.tsx:72-82 | a `## Notes` heading, which names no version, followed by an open task parses to no milestone: its item is dropped |
| Plan.KeyOrder | app/roadmap/page.tsx:208-210 | the sort key's order is the order `compareSemver` induces |
| Plan.SortMilestonesMeaning | app/roadmap/page.tsx:208-210 | the sorted milestones are a permutation in ascending version order that keeps document order among equal versions |
| Plan.FirstLeastUnique | app/roadmap/page.tsx:219 | at most one milestone is the first lowest-versioned one with a property |
| Plan.SortedFind | app/roadmap/page.tsx:219 | `find` on the sorted milestones returns the first lowest-versioned milestone with the property |
| Plan.UncheckedTextsMeaning | app/roadmap/page.tsx:247 | a milestone has unfinished texts exactly when it has unfinished work |
| Plan.UncheckedTextsMembers | app/roadmap/page.tsx:247 | the unfinished texts are exactly the texts of unfinished items |
| Plan.MilestonePlanItems | app/roadmap/page.tsx:247-255 | the plan lists the unfinished texts, else all texts, else the placeholder, under the milestone's heading |
| Plan.UpcomingPlan | app/roadmap/page.tsx:208-255 | there is no plan exactly when there are no milestones; a plan always lists at least one item and keeps the source address |
| Plan.PlanNextMilestone | app/roadmap/page.tsx:218-219 | with a known version, the plan is for the lowest milestone above it |
| Plan.PlanFallback | app/roadmap/page.tsx:221-233 | with nothing newer, the plan is for the lowest milestone with work left, listing only its unfinished texts |
| Plan.PlanNothingNewer | app/roadmap/page.tsx:236-241 | with nothing newer and no work left, the plan is the fixed "no newer milestone" message |
| Plan.PlanUnknownWithWork | app/roadmap/page.tsx:244 | without a known version, the plan is for the lowest milestone with work left |
| Plan.PlanUnknownNoWork | app/roadmap/page.tsx:244 | without a known version and with no work left, the plan is for the lowest milestone |
| Plan.PlanHasNextVersion | app/roadmap/page.tsx:218-255 | the plan has no next version exactly when the version is known and no milestone is newer or has work left |
| SiteUrl.StripTrailingSlashes | lib/site-url.ts:10 | the result is a prefix of the input, only slashes are cut, and it does not end with a slash |
| SiteUrl.StripTrailingSlashesUnique | lib/site-url.ts:10 | text not ending with a slash, followed by any run of slashes, strips to that text |
| SiteUrl.StripTrailingSlashesIdempotent | lib/site-url.ts:10 | stripping again changes nothing |
| SiteUrl.GetSiteUrl | lib/site-url.ts:1-11 | the address never ends with a slash |
| SiteUrl.SiteUrlDefault | lib/site-url.ts:2-8 | with nothing configured, or the chosen value empty, the address is `http://localhost:3000` |
| SiteUrl.SiteUrlPrefersPublic | lib/site-url.ts:2-4 | `NEXT_PUBLIC_SITE_URL`, once set (even empty), decides the address whatever `VERCEL_URL` holds |
| SiteUrl.SiteUrlFromVercel | lib/site-url.ts:3-4 | otherwise a non-empty `VERCEL_URL` is served over `https://` |
| SiteUrl.SiteUrlStripsOnlySlashes | lib/site-url.ts:10 | the address is the configured value with only its trailing run of slashes removed |

## Left out

- Fetching releases, the latest stable version and the roadmap text is not modelled: the network, HTTP status handling, caching hints, base64 decoding and the tag read from a redirect URL. Their results are parameters: the releases, the current version as an `Option` and the roadmap's address.
- The removal of draft releases happens in the fetch. `Release` stands for a non-draft release, and the model has no draft flag.
- The `try`/`catch` around the plan is not modelled: only the fetches it guards can throw.
- `formatDate`, `generateMetadata`, the metadata constants and the JSON-LD object are static data or locale formatting, and are not modelled.
- JSX rendering, React state and effects and `requestAnimationFrame` are left out. The detected system is an input of the card ordering. `typeof window` becomes an `Option` of the navigator fields.
- The theme toggle, the pre-release toggle's router navigation, the sitemap and the static pages are not part of this model.
- Assets.CompareAssets: asset sizes are unbounded integers. JavaScript's `Number` would lose precision beyond 2^53, which the model does not capture.
- Semver.ParseSemverMeaning: `Number(...)` of a digit run is its exact value. Floating-point rounding of very long digit runs is not modelled.
- Text.Lower: `toLowerCase` is modelled as ASCII lower-casing. Unicode case mapping of other letters is not modelled.
- Roadmap.SplitJoinLines: a split on `\r?\n` is modelled as a split on `\n` that drops one `\r` before it. The round trip is stated for lines without line feeds, and with `\n` for lines not ending in `\r`.
