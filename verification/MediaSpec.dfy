/**
 * Naming Windows installation media: the table of shipped releases, resolving a
 * specification, and selecting builds for it. Text is ASCII.
 */
module MediaSpec {
  import opened Wrappers

  // ----- Text

  predicate IsSpace(c: char) {
    c in " \t\n\r" || 11 as char <= c <= 12 as char
  }

  predicate IsDigit(c: char) {
    '0' <= c <= '9'
  }

  function TrimLeft(s: string): string {
    if s != "" && IsSpace(s[0]) then TrimLeft(s[1..]) else s
  }

  function TrimRight(s: string): string {
    if s != "" && IsSpace(s[|s| - 1]) then TrimRight(s[..|s| - 1]) else s
  }

  function Trimmed(s: string): string {
    TrimRight(TrimLeft(s))
  }

  function LowerChar(c: char): char {
    if 'A' <= c <= 'Z' then (c as int + 32) as char else c
  }

  function Lower(s: string): (l: string)
    ensures |l| == |s| && forall i :: 0 <= i < |s| ==> l[i] == LowerChar(s[i])
  {
    seq(|s|, i requires 0 <= i < |s| => LowerChar(s[i]))
  }

  function UpperChar(c: char): char {
    if 'a' <= c <= 'z' then (c as int - 32) as char else c
  }

  function Upper(s: string): (u: string)
    ensures |u| == |s| && forall i :: 0 <= i < |s| ==> u[i] == UpperChar(s[i])
  {
    seq(|s|, i requires 0 <= i < |s| => UpperChar(s[i]))
  }

  predicate EqualFold(s: string, t: string) {
    Lower(s) == Lower(t)
  }

  function Or(s: string, fallback: string): string {
    if s == "" then fallback else s
  }

  // ----- Shipped releases

  datatype Release = Release(product: string, version: string, series: string)

  const GA_RELEASES := [
    Release("11", "25H2", "26200"),
    Release("11", "24H2", "26100"),
    Release("11", "23H2", "22631"),
    Release("11", "22H2", "22621"),
    Release("11", "21H2", "22000"),
    Release("10", "22H2", "19045"),
    Release("10", "21H2", "19044"),
    Release("10", "21H1", "19043"),
    Release("10", "20H2", "19042"),
    Release("10", "2004", "19041")
  ]

  /** The first row from i on that meets p. */
  function FirstRelease(p: Release -> bool, i: nat): (found: Option<Release>)
    requires i <= |GA_RELEASES|
    ensures found.Some? ==> found.value in GA_RELEASES && p(found.value)
    ensures found.None? ==> forall k :: i <= k < |GA_RELEASES| ==> !p(GA_RELEASES[k])
    decreases |GA_RELEASES| - i
  {
    if i == |GA_RELEASES| then None
    else if p(GA_RELEASES[i]) then Some(GA_RELEASES[i])
    else FirstRelease(p, i + 1)
  }

  /** A build number up to its first dot. */
  function BuildSeries(build: string): string {
    if build == "" || build[0] == '.' then "" else [build[0]] + BuildSeries(build[1..])
  }

  function ReleaseOfSeries(series: string): (found: Option<Release>)
    ensures found.Some? ==> found.value in GA_RELEASES && found.value.series == series
    ensures found.None? ==> forall k :: 0 <= k < |GA_RELEASES| ==> GA_RELEASES[k].series != series
  {
    FirstRelease((r: Release) => r.series == series, 0)
  }

  function ReleaseForBuild(build: string): Option<Release> {
    ReleaseOfSeries(BuildSeries(build))
  }

  function ReleaseForVersion(product: string, version: string): (found: Option<Release>)
    ensures found.Some? ==>
              && found.value in GA_RELEASES
              && found.value.product == product && EqualFold(found.value.version, version)
    ensures found.None? ==>
              forall k :: 0 <= k < |GA_RELEASES| ==>
                            GA_RELEASES[k].product != product || !EqualFold(GA_RELEASES[k].version, version)
  {
    FirstRelease((r: Release) => r.product == product && EqualFold(r.version, version), 0)
  }

  predicate IsGABuild(build: string) {
    ReleaseForBuild(build).Some?
  }

  /** Windows 11 first when no product is given. */
  function ReleaseForName(version: string, product: string): Option<Release> {
    if product != "" then ReleaseForVersion(product, version)
    else if ReleaseForVersion("11", version).Some? then ReleaseForVersion("11", version)
    else ReleaseForVersion("10", version)
  }

  // ----- Resolving

  datatype MediaSpec = MediaSpec(
    os: string, product: string, arch: string, version: string,
    build: string, edition: string, language: string)

  datatype ResolvedSpec = ResolvedSpec(
    os: string, product: string, version: string, series: string, build: string,
    arch: string, edition: string, language: string, latest: bool, buildPinned: bool)

  datatype Problem =
    | UnsupportedOS | UnsupportedArch | UnsupportedProduct
    | VersionBuildConflict | LatestWithBuild | InvalidBuild
    | BuildIsOtherVersion | BuildIsOtherProduct | UnknownVersion

  type Resolution = Result<ResolvedSpec, Problem>

  predicate AllDigits(s: string) {
    forall i :: 0 <= i < |s| ==> IsDigit(s[i])
  }

  /** Five digits, optionally a dot and more digits. */
  predicate BuildForm(s: string) {
    && |s| >= 5 && AllDigits(s[..5])
    && (|s| == 5 || (s[5] == '.' && |s| > 6 && AllDigits(s[6..])))
  }

  function Atoi(digits: string): nat
    requires AllDigits(digits)
  {
    if digits == "" then 0
    else 10 * Atoi(digits[..|digits| - 1]) + (digits[|digits| - 1] as int - '0' as int)
  }

  /** The axes that depend on nothing else. */
  function Defaults(s: MediaSpec): ResolvedSpec {
    ResolvedSpec(
      Or(Lower(Trimmed(s.os)), "windows"), "", "", "", "",
      Or(Lower(Trimmed(s.arch)), "arm64"),
      Or(Upper(Trimmed(s.edition)), "PROFESSIONAL"),
      Or(Lower(Trimmed(s.language)), "en-us"), false, false)
  }

  function Resolve(s: MediaSpec): Resolution {
    ResolveAxes(Defaults(s), Trimmed(s.product), Lower(Trimmed(s.version)), Trimmed(s.build))
  }

  /** A version that has the form of a build is one. */
  function ResolveAxes(r: ResolvedSpec, product: string, version: string, build: string): Resolution {
    if r.os != "windows" then Err(UnsupportedOS)
    else if r.arch != "arm64" then Err(UnsupportedArch)
    else if product != "" && product != "10" && product != "11" then Err(UnsupportedProduct)
    else if BuildForm(version) then
      if build != "" && build != version then Err(VersionBuildConflict)
      else ResolveBuild(r, version, "", product)
    else if build != "" then ResolveBuild(r, build, version, product)
    else ResolveName(r, version, product)
  }

  /** A build decides version and product; stated ones are only compared. */
  function ResolveBuild(r: ResolvedSpec, build: string, version: string, product: string): Resolution {
    if version == "latest" then Err(LatestWithBuild)
    else if !BuildForm(build) then Err(InvalidBuild)
    else
      SeriesOfForm(build);
      var release := DerivedRelease(build);
      if version != "" && !EqualFold(version, release.version) then Err(BuildIsOtherVersion)
      else if product != "" && product != release.product then Err(BuildIsOtherProduct)
      else
        Ok(r.(product := release.product, version := release.version, series := release.series,
              build := if '.' in build then build else "", buildPinned := true))
  }

  /** The release of a build, or off the table a nameless one: Windows 11 began at 22000. */
  function DerivedRelease(build: string): Release
    requires BuildForm(build)
  {
    SeriesOfForm(build);
    match ReleaseForBuild(build)
    case Some(release) => release
    case None =>
      var series := BuildSeries(build);
      Release(ProductBySeries(series), "", series)
  }

  function ProductBySeries(series: string): string
    requires AllDigits(series)
  {
    if Atoi(series) >= 22000 then "11" else "10"
  }

  function ResolveName(r: ResolvedSpec, version: string, product: string): Resolution {
    if version == "latest" then Ok(r.(latest := true, product := Or(product, "11")))
    else if version != "" then
      match ReleaseForName(version, product)
      case None => Err(UnknownVersion)
      case Some(release) =>
        Ok(r.(version := release.version, series := release.series, product := release.product))
    else
      var p := Or(product, "11");
      match ReleaseForVersion(p, DefaultVersion(p))
      case None => Ok(r.(product := p))
      case Some(release) => Ok(r.(product := p, version := release.version, series := release.series))
  }

  function DefaultVersion(product: string): string {
    if product == "11" then "24H2" else if product == "10" then "22H2" else ""
  }

  lemma {:induction false} SeriesStopsAtDot(head: string, tail: string)
    requires '.' !in head && (tail == "" || tail[0] == '.')
    ensures BuildSeries(head + tail) == head
  {
    if head == "" {
      assert head + tail == tail;
    } else {
      assert (head + tail)[1..] == head[1..] + tail;
      SeriesStopsAtDot(head[1..], tail);
    }
  }

  lemma SeriesOfForm(build: string)
    requires BuildForm(build)
    ensures BuildSeries(build) == build[..5] && ('.' in build <==> |build| > 5)
    ensures BuildForm(BuildSeries(build)) && BuildSeries(BuildSeries(build)) == build[..5]
  {
    var head := build[..5];
    assert forall i :: 0 <= i < 5 ==> build[i] == head[i];
    SeriesStopsAtDot(head, build[5..]);
    SeriesStopsAtDot(head, "");
    assert head + build[5..] == build && head + "" == head && head[..5] == head;
  }

  // ----- Selecting builds

  datatype Build = Build(title: string, build: string, arch: string, created: int, uuid: string)

  predicate MatchesBuild(r: ResolvedSpec, b: Build) {
    if r.build != "" then b.build == r.build
    else if r.series != "" then b.build == r.series || r.series + "." <= b.build
    else true
  }

  function Selected(p: Build -> bool, builds: seq<Build>): seq<Build> {
    if builds == [] then []
    else
      var last := builds[|builds| - 1];
      Selected(p, builds[..|builds| - 1]) + if p(last) then [last] else []
  }

  method FilterGA(r: ResolvedSpec, candidates: seq<Build>) returns (kept: seq<Build>, skipped: seq<Build>)
    ensures r.buildPinned ==> kept == candidates && skipped == []
    ensures !r.buildPinned ==>
              && kept == Selected((b: Build) => IsGABuild(b.build), candidates)
              && skipped == Selected((b: Build) => !IsGABuild(b.build), candidates)
  {
    if r.buildPinned {
      return candidates, [];
    }
    kept, skipped := [], [];
    for i := 0 to |candidates|
      invariant kept == Selected((b: Build) => IsGABuild(b.build), candidates[..i])
      invariant skipped == Selected((b: Build) => !IsGABuild(b.build), candidates[..i])
    {
      assert candidates[..i + 1][..i] == candidates[..i];
      var b := candidates[i];
      if IsGABuild(b.build) {
        kept := kept + [b];
      } else {
        skipped := skipped + [b];
      }
    }
    assert candidates[..|candidates|] == candidates;
  }

  /** What the fetch works through: the matching candidates, then only shipped ones unless a
      build was pinned. */
  method SelectMedia(r: ResolvedSpec, candidates: seq<Build>) returns (kept: seq<Build>)
    ensures kept == Selected((b: Build) => Wanted(r, b), candidates)
  {
    var matched: seq<Build> := [];
    for i := 0 to |candidates|
      invariant matched == Selected((b: Build) => MatchesBuild(r, b), candidates[..i])
    {
      assert candidates[..i + 1][..i] == candidates[..i];
      if MatchesBuild(r, candidates[i]) {
        matched := matched + [candidates[i]];
      }
    }
    assert candidates[..|candidates|] == candidates;
    var skipped;
    kept, skipped := FilterGA(r, matched);
    MatchedThenFiltered(r, candidates);
  }

  predicate Wanted(r: ResolvedSpec, b: Build) {
    MatchesBuild(r, b) && (r.buildPinned || IsGABuild(b.build))
  }

  lemma {:induction false} MatchedThenFiltered(r: ResolvedSpec, candidates: seq<Build>)
    ensures var matched := Selected((b: Build) => MatchesBuild(r, b), candidates);
            Selected((b: Build) => Wanted(r, b), candidates)
            == if r.buildPinned then matched else Selected((b: Build) => IsGABuild(b.build), matched)
  {
    if candidates != [] {
      var n := |candidates| - 1;
      MatchedThenFiltered(r, candidates[..n]);
      var front := Selected((b: Build) => MatchesBuild(r, b), candidates[..n]);
      if MatchesBuild(r, candidates[n]) {
        var more := front + [candidates[n]];
        assert more[..|more| - 1] == front;
      } else {
        assert front + [] == front;
      }
    }
  }

  lemma {:induction false} SelectedAgree(p: Build -> bool, q: Build -> bool, builds: seq<Build>)
    requires forall b :: p(b) == q(b)
    ensures Selected(p, builds) == Selected(q, builds)
  {
    if builds != [] {
      SelectedAgree(p, q, builds[..|builds| - 1]);
    }
  }

  /** The cache file name: every axis but the edition. */
  function ISOName(r: ResolvedSpec): string {
    "windows-" + Or(r.product, "11") + "-" + Pin(r) + "-" + r.arch + "-" + r.language + ".iso"
  }

  function Pin(r: ResolvedSpec): string {
    if r.build != "" then r.build
    else if r.version != "" then Lower(r.version)
    else if r.series != "" then r.series
    else "latest"
  }
}
