/**
 * The downloads page: classifying release assets by name, ranking the
 * candidates of a slot, filling the nine download slots of a release, and
 * choosing which release to show.
 *
 * Every name test works on the ASCII lower-cased name, so all of them ignore
 * case (`ClassifiersIgnoreCase`).
 */
module Assets {
  import opened Text
  import opened StableSort

  datatype ReleaseAsset = ReleaseAsset(name: string, browserDownloadUrl: string, size: int)

  /** A published (non-draft) release with the fields the page reads. */
  datatype Release = Release(name: string, tagName: string, prerelease: bool, assets: seq<ReleaseAsset>)

  // ---------------------------------------------------------------------
  // Name classifiers

  const DownloadableExtensions: seq<string> :=
    [".exe", ".msi", ".dmg", ".pkg", ".zip", ".tar.gz", ".appimage", ".deb", ".rpm"]

  /** `isDownloadableAsset`: the lower-cased name ends with one of the known package extensions. */
  predicate IsDownloadableAsset(name: string) {
    var lower := Lower(name);
    Any(DownloadableExtensions, (ext: string) => EndsWith(lower, ext))
  }

  /** `isWindowsAsset`; note that "darwin" contains "win". */
  predicate IsWindowsAsset(name: string) {
    var lower := Lower(name);
    Contains(lower, "win") || EndsWith(lower, ".exe") || EndsWith(lower, ".msi")
  }

  predicate IsMacAsset(name: string) {
    var lower := Lower(name);
    Contains(lower, "mac") || Contains(lower, "darwin") || EndsWith(lower, ".dmg") || EndsWith(lower, ".pkg")
  }

  predicate IsLinuxAsset(name: string) {
    var lower := Lower(name);
    Contains(lower, "linux") || EndsWith(lower, ".appimage") || EndsWith(lower, ".deb") || EndsWith(lower, ".rpm")
  }

  datatype MacArch = Arm64 | X64 | UnknownArch

  /** The Apple Silicon markers: a whole-word `arm64` or `aarch64`, or `apple-silicon`/`apple_silicon`. */
  predicate HasArmMarker(lower: string) {
    HasToken(lower, "arm64") || HasToken(lower, "aarch64")
    || Contains(lower, "apple-silicon") || Contains(lower, "apple_silicon")
  }

  /** The Intel markers: a whole-word `x64`, `x86_64`, `amd64` or `intel`. */
  predicate HasIntelMarker(lower: string) {
    HasToken(lower, "x64") || HasToken(lower, "x86_64") || HasToken(lower, "amd64") || HasToken(lower, "intel")
  }

  /** `getMacAssetArchitecture`: the Apple Silicon markers take precedence. */
  function GetMacAssetArchitecture(name: string): MacArch {
    var lower := Lower(name);
    if HasArmMarker(lower) then Arm64
    else if HasIntelMarker(lower) then X64
    else UnknownArch
  }

  predicate IsInstallerAsset(name: string) {
    var lower := Lower(name);
    Contains(lower, "setup") || EndsWith(lower, ".msi") || EndsWith(lower, ".dmg") || EndsWith(lower, ".pkg")
  }

  predicate IsPortableAsset(name: string) {
    var lower := Lower(name);
    || Contains(lower, "portable") || EndsWith(lower, ".zip") || EndsWith(lower, ".tar.gz")
    || (EndsWith(lower, ".exe") && !Contains(lower, "setup"))
  }

  /** A name is downloadable exactly when its lower-cased form ends with one of the nine extensions. */
  lemma DownloadableMeaning(name: string)
    ensures IsDownloadableAsset(name)
            <==> exists i :: 0 <= i < |DownloadableExtensions| && EndsWith(Lower(name), DownloadableExtensions[i])
  {
  }

  /** Every classifier gives the same answer for a name and its lower-cased form. */
  lemma ClassifiersIgnoreCase(name: string)
    ensures IsDownloadableAsset(Lower(name)) == IsDownloadableAsset(name)
    ensures IsWindowsAsset(Lower(name)) == IsWindowsAsset(name)
    ensures IsMacAsset(Lower(name)) == IsMacAsset(name)
    ensures IsLinuxAsset(Lower(name)) == IsLinuxAsset(name)
    ensures GetMacAssetArchitecture(Lower(name)) == GetMacAssetArchitecture(name)
    ensures IsInstallerAsset(Lower(name)) == IsInstallerAsset(name)
    ensures IsPortableAsset(Lower(name)) == IsPortableAsset(name)
  {
    LowerIdempotent(name);
  }

  /**
   * For an `.exe` whose name does not contain "portable", exactly one of
   * installer and portable holds, and "setup" in the name decides which.
   */
  lemma ExeInstallerXorPortable(name: string)
    requires EndsWith(Lower(name), ".exe") && !Contains(Lower(name), "portable")
    ensures IsInstallerAsset(name) <==> Contains(Lower(name), "setup")
    ensures IsPortableAsset(name) <==> !Contains(Lower(name), "setup")
  {
    var lower := Lower(name);
    if EndsWith(lower, ".msi") { EndsWithBoth(lower, ".exe", ".msi"); }
    if EndsWith(lower, ".dmg") { EndsWithBoth(lower, ".exe", ".dmg"); }
    if EndsWith(lower, ".pkg") { EndsWithBoth(lower, ".exe", ".pkg"); }
    if EndsWith(lower, ".zip") { EndsWithBoth(lower, ".exe", ".zip"); }
    if EndsWith(lower, ".tar.gz") { EndsWithBoth(lower, ".exe", ".tar.gz"); }
  }

  /**
   * The architecture is Apple Silicon whenever an Apple Silicon marker occurs,
   * even beside an Intel marker; Intel when only an Intel marker occurs; and
   * unknown otherwise. Markers are whole words in the sense of `\b`.
   */
  lemma MacArchitectureMeaning(name: string)
    ensures var lower := Lower(name);
            var arm := (exists i :: TokenAt(lower, "arm64", i) || TokenAt(lower, "aarch64", i))
                       || (exists i :: OccursAt(lower, "apple-silicon", i) || OccursAt(lower, "apple_silicon", i));
            var intel := exists i :: || TokenAt(lower, "x64", i) || TokenAt(lower, "x86_64", i)
                                     || TokenAt(lower, "amd64", i) || TokenAt(lower, "intel", i);
            && (GetMacAssetArchitecture(name) == Arm64 <==> arm)
            && (GetMacAssetArchitecture(name) == X64 <==> !arm && intel)
            && (GetMacAssetArchitecture(name) == UnknownArch <==> !arm && !intel)
  {
  }

  /** "darwin" contains "win", so every darwin-named asset is both a Windows and a Mac asset. */
  lemma DarwinIsWindowsAndMac(name: string)
    requires Contains(Lower(name), "darwin")
    ensures IsWindowsAsset(name) && IsMacAsset(name)
  {
    var lower := Lower(name);
    var i :| OccursAt(lower, "darwin", i);
    assert lower[i + 3..i + 6] == lower[i..i + 6][3..6] == "win";
    assert OccursAt(lower, "win", i + 3);
  }

  /**
   * An underscore is a word character, so in `mira_arm64.dmg` the `arm64`
   * is no whole-word marker and the architecture is unknown.
   */
  lemma UnderscoreHidesArchitecture(name: string)
    requires name == "mira_arm64.dmg"
    ensures GetMacAssetArchitecture(name) == UnknownArch
  {
    var lower := Lower(name);
    assert lower == name;
    UnderscoreNoArmMarker(lower);
    UnderscoreNoIntelMarker(lower);
  }

  lemma UnderscoreNoArmMarker(lower: string)
    requires lower == "mira_arm64.dmg"
    ensures !HasArmMarker(lower)
  {
    UnderscoreArm64NotToken(lower);
    var markers := ["aarch64", "apple-silicon", "apple_silicon"];
    NoneContained(lower, markers, "hpp");
    assert markers[0] == "aarch64" && markers[1] == "apple-silicon" && markers[2] == "apple_silicon";
  }

  /** The only `arm64` in `mira_arm64.dmg` follows an underscore. */
  lemma UnderscoreArm64NotToken(lower: string)
    requires lower == "mira_arm64.dmg"
    ensures !HasToken(lower, "arm64")
  {
    forall i | OccursAt(lower, "arm64", i) ensures i == 5 {
      assert lower[i + 3] == "arm64"[3];
    }
  }

  lemma UnderscoreNoIntelMarker(lower: string)
    requires lower == "mira_arm64.dmg"
    ensures !HasIntelMarker(lower)
  {
    forall i | 0 <= i && i + 5 <= |lower| ensures !OccursAt(lower, "amd64", i) {
      assert lower[i + 1] != 'm' || lower[i + 2] != 'd';
      assert lower[i..i + 5][1] == lower[i + 1] && lower[i..i + 5][2] == lower[i + 2];
    }
    var markers := ["x64", "x86_64", "intel"];
    NoneContained(lower, markers, "xxn");
    assert markers[0] == "x64" && markers[1] == "x86_64" && markers[2] == "intel";
  }

  // ---------------------------------------------------------------------
  // Ranking

  /**
   * The `reduce` over the first `n` preferred terms: each term the lower-cased
   * name contains adds ten times its weight, the weight of the term at index
   * `idx` being `|terms| - idx`.
   */
  function ScoreUpTo(lower: string, terms: seq<string>, n: nat): (r: int)
    requires n <= |terms|
    ensures r >= 0
    ensures r == 0 <==> forall idx :: 0 <= idx < n ==> !Contains(lower, terms[idx])
    decreases n
  {
    if n == 0 then 0
    else ScoreUpTo(lower, terms, n - 1) + (if Contains(lower, terms[n - 1]) then (|terms| - (n - 1)) * 10 else 0)
  }

  function Score(lower: string, terms: seq<string>): int {
    ScoreUpTo(lower, terms, |terms|)
  }

  /** The comparator of `chooseBestAsset`: higher score first, then larger size. */
  function CompareAssets(a: ReleaseAsset, b: ReleaseAsset, terms: seq<string>): int {
    var aScore := Score(Lower(a.name), terms);
    var bScore := Score(Lower(b.name), terms);
    if aScore != bScore then bScore - aScore else b.size - a.size
  }

  /** The tuple the comparator orders by: the negated score, then the negated size. */
  function AssetKey(terms: seq<string>): ReleaseAsset -> seq<int> {
    (a: ReleaseAsset) => [-Score(Lower(a.name), terms), -a.size]
  }

  /** `a` ranks at least as high as `b`: a higher score, or the same score and at least the size. */
  ghost predicate RanksAtLeast(a: ReleaseAsset, b: ReleaseAsset, terms: seq<string>) {
    var sa, sb := Score(Lower(a.name), terms), Score(Lower(b.name), terms);
    sa > sb || (sa == sb && a.size >= b.size)
  }

  ghost predicate SameRank(a: ReleaseAsset, b: ReleaseAsset, terms: seq<string>) {
    Score(Lower(a.name), terms) == Score(Lower(b.name), terms) && a.size == b.size
  }

  /** The key order is the ranking, and equal keys are equal ranks. */
  lemma AssetKeyOrder(a: ReleaseAsset, b: ReleaseAsset, terms: seq<string>)
    ensures LexLe(AssetKey(terms)(a), AssetKey(terms)(b)) <==> RanksAtLeast(a, b, terms)
    ensures AssetKey(terms)(a) == AssetKey(terms)(b) <==> SameRank(a, b, terms)
  {
    var ka, kb := AssetKey(terms)(a), AssetKey(terms)(b);
    assert ka == [ka[0]] + [ka[1]] && kb == [kb[0]] + [kb[1]];
    LexLeCons(ka[0], [ka[1]], kb[0], [kb[1]]);
    LexLeCons(ka[1], [], kb[1], []);
  }

  /** The comparator puts `a` no later than `b` exactly when the key order does. */
  lemma CompareAssetsOrder(a: ReleaseAsset, b: ReleaseAsset, terms: seq<string>)
    ensures CompareAssets(a, b, terms) <= 0 <==> LexLe(AssetKey(terms)(a), AssetKey(terms)(b))
  {
    AssetKeyOrder(a, b, terms);
  }

  /** `chooseBestAsset`: the head of a stable sort of a copy by the comparator, or none. */
  function ChooseBestAsset(assets: seq<ReleaseAsset>, terms: seq<string>): (r: Option<ReleaseAsset>)
    ensures r.None? <==> assets == []
  {
    if |assets| == 0 then None else Some(Sort(assets, AssetKey(terms))[0])
  }

  /**
   * The chosen asset is an element of the list that ranks at least as high
   * as every element, and no earlier element has the same score and size.
   */
  lemma ChooseBestAssetBest(assets: seq<ReleaseAsset>, terms: seq<string>)
    requires assets != []
    ensures exists j :: 0 <= j < |assets| && ChooseBestAsset(assets, terms) == Some(assets[j])
                        && (forall i :: 0 <= i < |assets| ==> RanksAtLeast(assets[j], assets[i], terms))
                        && (forall i :: 0 <= i < j ==> !SameRank(assets[i], assets[j], terms))
  {
    var key := AssetKey(terms);
    SortHead(assets, key);
    var j :| 0 <= j < |assets| && Sort(assets, key)[0] == assets[j]
             && (forall i :: 0 <= i < |assets| ==> LexLe(key(assets[j]), key(assets[i])))
             && (forall i :: 0 <= i < j ==> key(assets[i]) != key(assets[j]));
    forall i | 0 <= i < |assets| ensures RanksAtLeast(assets[j], assets[i], terms) {
      AssetKeyOrder(assets[j], assets[i], terms);
    }
    forall i | 0 <= i < j ensures !SameRank(assets[i], assets[j], terms) {
      AssetKeyOrder(assets[i], assets[j], terms);
    }
  }

  /** The chosen asset is an element of the list. */
  lemma ChooseBestAssetIn(assets: seq<ReleaseAsset>, terms: seq<string>)
    ensures ChooseBestAsset(assets, terms).Some? ==> ChooseBestAsset(assets, terms).value in assets
  {
    if assets != [] {
      ChooseBestAssetBest(assets, terms);
    }
  }

  /** Ranking the chosen asset on its own chooses it again. */
  lemma ChooseBestAssetIdempotent(assets: seq<ReleaseAsset>, terms: seq<string>)
    requires assets != []
    ensures ChooseBestAsset([ChooseBestAsset(assets, terms).value], terms) == ChooseBestAsset(assets, terms)
  {
    var a := ChooseBestAsset(assets, terms).value;
    assert Sort([a], AssetKey(terms)) == Insert(Sort([], AssetKey(terms)), a, AssetKey(terms)) by {
      assert [a][..0] == [];
    }
  }

  // ---------------------------------------------------------------------
  // Slots

  datatype DownloadSlot = DownloadSlot(caption: string, platform: string, asset: Option<ReleaseAsset>)

  datatype DownloadSlots = DownloadSlots(
    windowsInstaller: DownloadSlot,
    windowsPortable: DownloadSlot,
    macArm64Installer: DownloadSlot,
    macArm64Portable: DownloadSlot,
    macX64Installer: DownloadSlot,
    macX64Portable: DownloadSlot,
    linuxAppImage: DownloadSlot,
    linuxDeb: DownloadSlot,
    linuxRpm: DownloadSlot)

  /** An asset predicate from a name predicate. */
  function ByName(p: string -> bool): ReleaseAsset -> bool {
    (a: ReleaseAsset) => p(a.name)
  }

  function ArchIs(arch: MacArch): string -> bool {
    (name: string) => GetMacAssetArchitecture(name) == arch
  }

  function LowerEndsWith(ext: string): string -> bool {
    (name: string) => EndsWith(Lower(name), ext)
  }

  function Packaging(installer: bool): string -> bool {
    if installer then IsInstallerAsset else IsPortableAsset
  }

  function DownloadableAssets(assets: seq<ReleaseAsset>): seq<ReleaseAsset> {
    Filter(assets, ByName(IsDownloadableAsset))
  }

  /** The installer (or portable) candidates among the downloadable Windows assets. */
  function WindowsCandidates(assets: seq<ReleaseAsset>, installer: bool): seq<ReleaseAsset> {
    Filter(Filter(DownloadableAssets(assets), ByName(IsWindowsAsset)), ByName(Packaging(installer)))
  }

  /** The installer (or portable) candidates among the downloadable Mac assets of one architecture. */
  function MacCandidates(assets: seq<ReleaseAsset>, arch: MacArch, installer: bool): seq<ReleaseAsset> {
    Filter(Filter(Filter(DownloadableAssets(assets), ByName(IsMacAsset)), ByName(ArchIs(arch))), ByName(Packaging(installer)))
  }

  /** The downloadable Linux assets with one extension. */
  function LinuxCandidates(assets: seq<ReleaseAsset>, ext: string): seq<ReleaseAsset> {
    Filter(Filter(DownloadableAssets(assets), ByName(IsLinuxAsset)), ByName(LowerEndsWith(ext)))
  }

  /** A Mac slot ranks its own architecture's candidates, or the unknown-architecture ones when there are none. */
  function MacSlotCandidates(assets: seq<ReleaseAsset>, arch: MacArch, installer: bool): seq<ReleaseAsset> {
    var own := MacCandidates(assets, arch, installer);
    if |own| > 0 then own else MacCandidates(assets, UnknownArch, installer)
  }

  function WindowsTerms(installer: bool): seq<string> {
    if installer then ["setup", ".msi", ".exe"] else ["portable", ".exe", ".zip"]
  }

  function MacTerms(installer: bool): seq<string> {
    if installer then ["dmg", "pkg"] else ["portable", ".zip", ".tar.gz"]
  }

  /** The Windows installer (or portable) slot. */
  function WindowsSlot(assets: seq<ReleaseAsset>, installer: bool): DownloadSlot {
    DownloadSlot(if installer then "Windows Installer" else "Windows Portable", "windows",
                 ChooseBestAsset(WindowsCandidates(assets, installer), WindowsTerms(installer)))
  }

  /** The installer (or portable) slot for Apple Silicon (`arch == Arm64`) or Intel Macs. */
  function MacSlot(assets: seq<ReleaseAsset>, arch: MacArch, installer: bool): DownloadSlot
    requires arch != UnknownArch
  {
    var caption :=
      if arch == Arm64 then
        (if installer then "macOS (Apple Silicon) Installer" else "macOS (Apple Silicon) Portable")
      else
        (if installer then "macOS (Intel) Installer" else "macOS (Intel) Portable");
    DownloadSlot(caption, if arch == Arm64 then "mac-arm64" else "mac-x64",
                 ChooseBestAsset(MacSlotCandidates(assets, arch, installer), MacTerms(installer)))
  }

  /** The Linux slot for one package extension, ranked by that extension alone. */
  function LinuxSlot(caption: string, assets: seq<ReleaseAsset>, ext: string): DownloadSlot {
    DownloadSlot(caption, "linux", ChooseBestAsset(LinuxCandidates(assets, ext), [ext]))
  }

  /** `buildDownloadSlots` */
  function BuildDownloadSlots(release: Release): DownloadSlots {
    var assets := release.assets;
    DownloadSlots(
      WindowsSlot(assets, true),
      WindowsSlot(assets, false),
      MacSlot(assets, Arm64, true),
      MacSlot(assets, Arm64, false),
      MacSlot(assets, X64, true),
      MacSlot(assets, X64, false),
      LinuxSlot("Linux AppImage", assets, ".appimage"),
      LinuxSlot("Linux .deb", assets, ".deb"),
      LinuxSlot("Linux .rpm", assets, ".rpm"))
  }

  /** The slots in the order the page hands them to the download cards. */
  function SlotList(slots: DownloadSlots): (r: seq<DownloadSlot>)
    ensures |r| == 9
  {
    [slots.windowsInstaller, slots.windowsPortable, slots.macArm64Installer, slots.macArm64Portable,
     slots.macX64Installer, slots.macX64Portable, slots.linuxAppImage, slots.linuxDeb, slots.linuxRpm]
  }

  /** The Windows slots' captions and platform do not depend on the assets. */
  lemma WindowsSlotHeader(assets: seq<ReleaseAsset>, installer: bool)
    ensures WindowsSlot(assets, installer).caption == if installer then "Windows Installer" else "Windows Portable"
    ensures WindowsSlot(assets, installer).platform == "windows"
  {
  }

  /** The Mac slots' captions and platforms depend only on the architecture and the packaging. */
  lemma MacSlotHeader(assets: seq<ReleaseAsset>, arch: MacArch, installer: bool)
    requires arch != UnknownArch
    ensures MacSlot(assets, arch, installer).platform == if arch == Arm64 then "mac-arm64" else "mac-x64"
    ensures MacSlot(assets, arch, installer).caption ==
            if arch == Arm64 then
              (if installer then "macOS (Apple Silicon) Installer" else "macOS (Apple Silicon) Portable")
            else
              (if installer then "macOS (Intel) Installer" else "macOS (Intel) Portable")
  {
  }

  /** A Linux slot's platform is "linux" and its caption is the one it is built with. */
  lemma LinuxSlotHeader(caption: string, assets: seq<ReleaseAsset>, ext: string)
    ensures LinuxSlot(caption, assets, ext).caption == caption
    ensures LinuxSlot(caption, assets, ext).platform == "linux"
  {
  }

  /** An asset the Windows installer (or portable) slot may hold. */
  ghost predicate WindowsCandidate(a: ReleaseAsset, installer: bool) {
    ByName(IsDownloadableAsset)(a) && ByName(IsWindowsAsset)(a) && ByName(Packaging(installer))(a)
  }

  /** An asset a Mac slot of architecture `arch` may rank among its own candidates. */
  ghost predicate MacCandidate(a: ReleaseAsset, arch: MacArch, installer: bool) {
    ByName(IsDownloadableAsset)(a) && ByName(IsMacAsset)(a) && ByName(ArchIs(arch))(a) && ByName(Packaging(installer))(a)
  }

  /** An asset the Linux slot for extension `ext` may hold. */
  ghost predicate LinuxCandidate(a: ReleaseAsset, ext: string) {
    ByName(IsDownloadableAsset)(a) && ByName(IsLinuxAsset)(a) && ByName(LowerEndsWith(ext))(a)
  }

  lemma WindowsCandidatesMeaning(assets: seq<ReleaseAsset>, installer: bool)
    ensures forall a :: a in WindowsCandidates(assets, installer) <==> a in assets && WindowsCandidate(a, installer)
  {
    InFilter3(assets, ByName(IsDownloadableAsset), ByName(IsWindowsAsset), ByName(Packaging(installer)));
  }

  lemma MacCandidatesMeaning(assets: seq<ReleaseAsset>, arch: MacArch, installer: bool)
    ensures forall a :: a in MacCandidates(assets, arch, installer) <==> a in assets && MacCandidate(a, arch, installer)
  {
    InFilter4(assets, ByName(IsDownloadableAsset), ByName(IsMacAsset), ByName(ArchIs(arch)), ByName(Packaging(installer)));
  }

  lemma LinuxCandidatesMeaning(assets: seq<ReleaseAsset>, ext: string)
    ensures forall a :: a in LinuxCandidates(assets, ext) <==> a in assets && LinuxCandidate(a, ext)
  {
    InFilter3(assets, ByName(IsDownloadableAsset), ByName(IsLinuxAsset), ByName(LowerEndsWith(ext)));
  }

  /** A list of assets without members is empty. */
  lemma NoMemberEmpty(s: seq<ReleaseAsset>)
    requires forall x :: x !in s
    ensures s == []
  {
    HeadIn(s);
  }

  lemma HeadIn(s: seq<ReleaseAsset>)
    ensures s != [] ==> s[0] in s
  {
  }

  /**
   * A slot ranked from `candidates` is empty exactly when no asset passes its
   * filter, and otherwise holds a candidate.
   */
  lemma ChosenCandidate(candidates: seq<ReleaseAsset>, terms: seq<string>)
    ensures ChooseBestAsset(candidates, terms).None? <==> forall a :: a !in candidates
    ensures ChooseBestAsset(candidates, terms).Some? ==> ChooseBestAsset(candidates, terms).value in candidates
  {
    ChooseBestAssetIn(candidates, terms);
    if candidates != [] {
      assert candidates[0] in candidates;
    }
  }

  /** `chosen` is a Windows candidate among `assets`, and is none exactly when there is no candidate. */
  ghost predicate WindowsSlotHolds(assets: seq<ReleaseAsset>, chosen: Option<ReleaseAsset>, installer: bool) {
    && (chosen.Some? ==> chosen.value in assets && WindowsCandidate(chosen.value, installer))
    && (chosen.None? <==> forall a :: a in assets ==> !WindowsCandidate(a, installer))
  }

  /** `chosen` is a Linux candidate among `assets`, and is none exactly when there is no candidate. */
  ghost predicate LinuxSlotHolds(assets: seq<ReleaseAsset>, chosen: Option<ReleaseAsset>, ext: string) {
    && (chosen.Some? ==> chosen.value in assets && LinuxCandidate(chosen.value, ext))
    && (chosen.None? <==> forall a :: a in assets ==> !LinuxCandidate(a, ext))
  }

  /**
   * `chosen` is a Mac asset of the slot's packaging whose architecture is
   * `arch`, or of unknown architecture when no asset of `arch` qualifies
   * (never one of the other architecture); it is none exactly when neither
   * kind exists.
   */
  ghost predicate MacSlotHolds(assets: seq<ReleaseAsset>, chosen: Option<ReleaseAsset>, arch: MacArch, installer: bool) {
    && (chosen.Some? ==> var a := chosen.value;
          && a in assets
          && (MacCandidate(a, arch, installer)
              || (MacCandidate(a, UnknownArch, installer)
                  && forall b :: b in assets ==> !MacCandidate(b, arch, installer))))
    && (chosen.None? <==> forall b :: b in assets ==>
          !MacCandidate(b, arch, installer) && !MacCandidate(b, UnknownArch, installer))
  }

  /** A Windows slot holds a downloadable Windows asset of its packaging, or nothing when there is none. */
  lemma WindowsSlotMeaning(assets: seq<ReleaseAsset>, installer: bool)
    ensures WindowsSlotHolds(assets, WindowsSlot(assets, installer).asset, installer)
  {
    WindowsCandidatesMeaning(assets, installer);
    ChosenCandidate(WindowsCandidates(assets, installer), WindowsTerms(installer));
  }

  /** A Linux slot holds a downloadable Linux asset with its extension, or nothing when there is none. */
  lemma LinuxSlotMeaning(caption: string, assets: seq<ReleaseAsset>, ext: string)
    ensures LinuxSlotHolds(assets, LinuxSlot(caption, assets, ext).asset, ext)
  {
    LinuxCandidatesMeaning(assets, ext);
    ChosenCandidate(LinuxCandidates(assets, ext), [ext]);
  }

  /** While its own architecture has candidates, a Mac slot holds one of them. */
  lemma MacSlotFromOwn(assets: seq<ReleaseAsset>, arch: MacArch, installer: bool)
    requires arch != UnknownArch && MacCandidates(assets, arch, installer) != []
    ensures MacSlot(assets, arch, installer).asset.Some?
    ensures var a := MacSlot(assets, arch, installer).asset.value; a in assets && MacCandidate(a, arch, installer)
  {
    var own := MacCandidates(assets, arch, installer);
    MacCandidatesMeaning(assets, arch, installer);
    ChosenCandidate(own, MacTerms(installer));
  }

  /** Without candidates of its own architecture, a Mac slot holds an unknown-architecture candidate, if any. */
  lemma MacSlotFromUnknown(assets: seq<ReleaseAsset>, arch: MacArch, installer: bool)
    requires arch != UnknownArch && MacCandidates(assets, arch, installer) == []
    ensures forall b :: b in assets ==> !MacCandidate(b, arch, installer)
    ensures var chosen := MacSlot(assets, arch, installer).asset;
            && (chosen.Some? ==> chosen.value in assets && MacCandidate(chosen.value, UnknownArch, installer))
            && (chosen.None? <==> forall b :: b in assets ==> !MacCandidate(b, UnknownArch, installer))
  {
    MacCandidatesMeaning(assets, arch, installer);
    var unk := MacCandidates(assets, UnknownArch, installer);
    assert MacSlot(assets, arch, installer).asset == ChooseBestAsset(unk, MacTerms(installer));
    MacCandidatesMeaning(assets, UnknownArch, installer);
    ChosenCandidate(unk, MacTerms(installer));
  }

  /** A Mac slot falls back to unknown-architecture assets only when its own architecture has none. */
  lemma MacSlotFallback(assets: seq<ReleaseAsset>, arch: MacArch, installer: bool)
    requires arch != UnknownArch
    ensures MacSlotHolds(assets, MacSlot(assets, arch, installer).asset, arch, installer)
  {
    if MacCandidates(assets, arch, installer) != [] {
      MacSlotFromOwn(assets, arch, installer);
    } else {
      MacSlotFromUnknown(assets, arch, installer);
    }
  }

  /** The Windows slots of a release hold its Windows candidates. */
  lemma BuildWindowsSlots(release: Release)
    ensures var slots := BuildDownloadSlots(release);
            && WindowsSlotHolds(release.assets, slots.windowsInstaller.asset, true)
            && WindowsSlotHolds(release.assets, slots.windowsPortable.asset, false)
  {
    WindowsSlotMeaning(release.assets, true);
    WindowsSlotMeaning(release.assets, false);
  }

  /** The four Mac slots of a release hold its Mac candidates, falling back as `MacSlotHolds` says. */
  lemma BuildMacSlots(release: Release)
    ensures var slots := BuildDownloadSlots(release);
            && MacSlotHolds(release.assets, slots.macArm64Installer.asset, Arm64, true)
            && MacSlotHolds(release.assets, slots.macArm64Portable.asset, Arm64, false)
            && MacSlotHolds(release.assets, slots.macX64Installer.asset, X64, true)
            && MacSlotHolds(release.assets, slots.macX64Portable.asset, X64, false)
  {
    MacSlotFallback(release.assets, Arm64, true);
    MacSlotFallback(release.assets, Arm64, false);
    MacSlotFallback(release.assets, X64, true);
    MacSlotFallback(release.assets, X64, false);
  }

  /** The three Linux slots of a release hold its Linux candidates with the slot's extension. */
  lemma BuildLinuxSlots(release: Release)
    ensures var slots := BuildDownloadSlots(release);
            && LinuxSlotHolds(release.assets, slots.linuxAppImage.asset, ".appimage")
            && LinuxSlotHolds(release.assets, slots.linuxDeb.asset, ".deb")
            && LinuxSlotHolds(release.assets, slots.linuxRpm.asset, ".rpm")
  {
    LinuxSlotMeaning("Linux AppImage", release.assets, ".appimage");
    LinuxSlotMeaning("Linux .deb", release.assets, ".deb");
    LinuxSlotMeaning("Linux .rpm", release.assets, ".rpm");
  }

  /** A `.dmg` without architecture markers is an unknown-architecture Mac installer candidate. */
  lemma UnknownDmgIsCandidate(a: ReleaseAsset)
    requires EndsWith(Lower(a.name), ".dmg") && GetMacAssetArchitecture(a.name) == UnknownArch
    ensures MacCandidate(a, UnknownArch, true)
    ensures !MacCandidate(a, Arm64, true) && !MacCandidate(a, X64, true)
  {
    assert IsDownloadableAsset(a.name) by {
      assert EndsWith(Lower(a.name), DownloadableExtensions[2]);
    }
    assert IsMacAsset(a.name) && IsInstallerAsset(a.name);
    var packaging := Packaging(true);
    assert packaging(a.name);
  }

  /** A release whose only asset is a `.dmg` without architecture markers fills both Mac installer slots with it. */
  lemma LoneUnknownDmgFillsBothInstallers(assets: seq<ReleaseAsset>, a: ReleaseAsset)
    requires assets == [a]
    requires EndsWith(Lower(a.name), ".dmg") && GetMacAssetArchitecture(a.name) == UnknownArch
    ensures MacSlot(assets, Arm64, true).asset == Some(a)
    ensures MacSlot(assets, X64, true).asset == Some(a)
  {
    UnknownDmgIsCandidate(a);
    LoneCandidateFills(assets, a, Arm64);
    LoneCandidateFills(assets, a, X64);
  }

  lemma LoneCandidateFills(assets: seq<ReleaseAsset>, a: ReleaseAsset, arch: MacArch)
    requires assets == [a] && arch != UnknownArch
    requires MacCandidate(a, UnknownArch, true) && !MacCandidate(a, arch, true)
    ensures MacSlot(assets, arch, true).asset == Some(a)
  {
    var own := MacCandidates(assets, arch, true);
    MacCandidatesMeaning(assets, arch, true);
    NoMemberEmpty(own);
    MacSlotFromUnknown(assets, arch, true);
    assert a in assets;
  }

  /**
   * An asset whose name names no platform is a candidate of no slot, so by
   * `BuildWindowsSlots`, `BuildMacSlots` and `BuildLinuxSlots` no slot holds it.
   */
  lemma NoPlatformNoCandidate(a: ReleaseAsset)
    requires !IsWindowsAsset(a.name) && !IsMacAsset(a.name) && !IsLinuxAsset(a.name)
    ensures forall installer :: !WindowsCandidate(a, installer)
    ensures forall arch, installer :: !MacCandidate(a, arch, installer)
    ensures forall ext :: !LinuxCandidate(a, ext)
  {
    var windows, mac, linux := IsWindowsAsset, IsMacAsset, IsLinuxAsset;
    assert !windows(a.name) && !mac(a.name) && !linux(a.name);
  }

  /**
   * `Mira-Portable.zip` names no platform: it contains neither "win", "mac",
   * "darwin" nor "linux" and has no Windows, Mac or Linux extension, so it
   * reaches no slot.
   */
  lemma PortableZipNamesNoPlatform(name: string)
    requires name == "Mira-Portable.zip"
    ensures !IsWindowsAsset(name) && !IsMacAsset(name) && !IsLinuxAsset(name)
  {
    var lower := Lower(name);
    assert lower == "mira-portable.zip";
    PortableZipLowerFacts(lower);
  }

  lemma PortableZipLowerFacts(lower: string)
    requires lower == "mira-portable.zip"
    ensures !Contains(lower, "win") && !EndsWith(lower, ".exe") && !EndsWith(lower, ".msi")
    ensures !Contains(lower, "mac") && !Contains(lower, "darwin") && !EndsWith(lower, ".dmg") && !EndsWith(lower, ".pkg")
    ensures !Contains(lower, "linux") && !EndsWith(lower, ".appimage") && !EndsWith(lower, ".deb") && !EndsWith(lower, ".rpm")
  {
    ZipSuffix(lower);
    var markers := ["win", "mac", "darwin", "linux"];
    NoneContained(lower, markers, "wcdn");
    assert markers[0] == "win" && markers[1] == "mac" && markers[2] == "darwin" && markers[3] == "linux";
  }

  /** A name ending in `.zip` ends with none of the other package extensions. */
  lemma ZipSuffix(lower: string)
    requires EndsWith(lower, ".zip")
    ensures !EndsWith(lower, ".exe") && !EndsWith(lower, ".msi") && !EndsWith(lower, ".dmg") && !EndsWith(lower, ".pkg")
    ensures !EndsWith(lower, ".appimage") && !EndsWith(lower, ".deb") && !EndsWith(lower, ".rpm")
  {
    if EndsWith(lower, ".appimage") { EndsWithBoth(lower, ".zip", ".appimage"); }
  }

  // ---------------------------------------------------------------------
  // Release selection

  /** The `includePrereleases` query value: absent, a single string, or repeated. */
  datatype QueryValue = Missing | One(value: string) | Many(values: seq<string>)

  /** `parseIncludePrereleases` */
  function ParseIncludePrereleases(v: QueryValue): bool {
    match v
    case Missing => false
    case One(s) => s == "1" || s == "true"
    case Many(values) => "1" in values || "true" in values
  }

  /** A repeated parameter opts in exactly when one of its values would opt in on its own. */
  lemma ParseIncludePrereleasesMany(values: seq<string>)
    ensures ParseIncludePrereleases(Many(values))
            <==> exists i :: 0 <= i < |values| && ParseIncludePrereleases(One(values[i]))
  {
  }

  function IsStable(r: Release): bool {
    !r.prerelease
  }

  /**
   * The release the page shows: the first stable release, unless the user
   * opted in to pre-releases or there is no stable release, in which case
   * the first release of all; none when there are no releases.
   */
  function SelectRelease(releases: seq<Release>, userIncludePrereleases: bool): Option<Release> {
    var stable := Filter(releases, IsStable);
    var effectiveInclude := userIncludePrereleases || |stable| == 0;
    if effectiveInclude then (if |releases| > 0 then Some(releases[0]) else None)
    else Some(stable[0])
  }

  lemma SelectReleaseMeaning(releases: seq<Release>, userIncludePrereleases: bool)
    ensures SelectRelease(releases, userIncludePrereleases).None? <==> releases == []
    ensures !userIncludePrereleases && Find(releases, IsStable).Some?
            ==> SelectRelease(releases, userIncludePrereleases) == Some(releases[Find(releases, IsStable).value])
    ensures (userIncludePrereleases || Find(releases, IsStable).None?) && releases != []
            ==> SelectRelease(releases, userIncludePrereleases) == Some(releases[0])
  {
    var f := Find(releases, IsStable);
    if f.Some? {
      FilterFirst(releases, IsStable, f.value);
    } else {
      FilterNone(releases, IsStable);
    }
  }

  /** The page's slots: those of the selected release, if any. */
  function PageSlots(releases: seq<Release>, query: QueryValue): Option<DownloadSlots> {
    match SelectRelease(releases, ParseIncludePrereleases(query))
    case None => None
    case Some(r) => Some(BuildDownloadSlots(r))
  }

  /**
   * The page shows no slots exactly when there are no releases; otherwise it
   * shows the nine slots of the first stable release, or of the first release
   * of all when the query opts in to pre-releases or no release is stable.
   */
  lemma PageSlotsMeaning(releases: seq<Release>, query: QueryValue)
    ensures PageSlots(releases, query).None? <==> releases == []
    ensures !ParseIncludePrereleases(query) && Find(releases, IsStable).Some?
            ==> PageSlots(releases, query) == Some(BuildDownloadSlots(releases[Find(releases, IsStable).value]))
    ensures (ParseIncludePrereleases(query) || Find(releases, IsStable).None?) && releases != []
            ==> PageSlots(releases, query) == Some(BuildDownloadSlots(releases[0]))
  {
    SelectReleaseMeaning(releases, ParseIncludePrereleases(query));
  }
}
