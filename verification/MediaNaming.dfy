/**
 * What resolving promises: stated axes are honoured, and the cache file name separates exactly
 * the specifications that select different media.
 */
module MediaNaming {
  import opened MediaSpec
  import opened Splitting
  import opened Wrappers

  // ----- The table

  function Digit(c: char): int {
    c as int - '0' as int
  }

  function SeriesCode(series: string): int
    requires |series| == 5
  {
    1000 * Digit(series[1]) + 100 * Digit(series[2]) + 10 * Digit(series[3]) + Digit(series[4])
  }

  function VersionCode(version: string): int
    requires |version| == 4
  {
    100 * Digit(version[0]) + 10 * Digit(version[1]) + Digit(version[3])
  }

  const SERIES_CODES := [6200, 6100, 2631, 2621, 2000, 9045, 9044, 9043, 9042, 9041]

  const VERSION_CODES := [252, 242, 232, 222, 212, 222, 212, 211, 202, 204]

  lemma SeriesShape(i: nat)
    requires i < |GA_RELEASES|
    ensures var series := GA_RELEASES[i].series;
            |series| == 5 && AllDigits(series) && SeriesCode(series) == SERIES_CODES[i]
  {
  }

  lemma VersionShape(i: nat)
    requires i < |GA_RELEASES|
    ensures var version := GA_RELEASES[i].version;
            && |version| == 4 && '-' !in version
            && IsDigit(version[0]) && IsDigit(version[1]) && IsDigit(version[3])
            && VersionCode(version) == VERSION_CODES[i]
  {
  }

  lemma ProductShape(i: nat)
    requires i < |GA_RELEASES|
    ensures GA_RELEASES[i].product == if i < 5 then "11" else "10"
  {
  }

  /** Rows are told apart by series, and within a product by version name. */
  lemma RowsAreDistinct(i: nat, j: nat)
    requires i < j < |GA_RELEASES|
    ensures GA_RELEASES[i].series != GA_RELEASES[j].series
    ensures GA_RELEASES[i].product != GA_RELEASES[j].product
            || !EqualFold(GA_RELEASES[i].version, GA_RELEASES[j].version)
  {
    SeriesShape(i);
    SeriesShape(j);
    ProductShape(i);
    ProductShape(j);
    VersionShape(i);
    VersionShape(j);
    DifferentProducts();
    if EqualFold(GA_RELEASES[i].version, GA_RELEASES[j].version) {
      DigitsKeepCase(GA_RELEASES[i].version, GA_RELEASES[j].version);
    }
  }

  lemma DifferentProducts()
    ensures "11" != "10"
  {
    assert "11"[1] != "10"[1];
  }

  lemma DigitsKeepCase(v: string, w: string)
    requires EqualFold(v, w)
    ensures |v| == |w| && forall i :: 0 <= i < |v| && IsDigit(v[i]) && IsDigit(w[i]) ==> v[i] == w[i]
  {
    assert |Lower(v)| == |Lower(w)|;
    forall i | 0 <= i < |v| && IsDigit(v[i]) && IsDigit(w[i]) ensures v[i] == w[i] {
      assert Lower(v)[i] == Lower(w)[i];
    }
  }

  lemma SeriesNamesRow(r: Release)
    requires r in GA_RELEASES
    ensures ReleaseOfSeries(r.series) == Some(r)
  {
    var i :| 0 <= i < |GA_RELEASES| && GA_RELEASES[i] == r;
    var found := ReleaseOfSeries(r.series);
    assert found.Some?;
    var j :| 0 <= j < |GA_RELEASES| && GA_RELEASES[j] == found.value;
    if i < j {
      RowsAreDistinct(i, j);
    } else if j < i {
      RowsAreDistinct(j, i);
    }
  }

  lemma VersionNamesRow(r: Release, t: Release)
    requires r in GA_RELEASES && t in GA_RELEASES
    requires r.product == t.product && EqualFold(r.version, t.version)
    ensures r == t
  {
    var i :| 0 <= i < |GA_RELEASES| && GA_RELEASES[i] == r;
    var j :| 0 <= j < |GA_RELEASES| && GA_RELEASES[j] == t;
    if i < j {
      RowsAreDistinct(i, j);
    } else if j < i {
      RowsAreDistinct(j, i);
    }
  }

  lemma RowShape(r: Release)
    requires r in GA_RELEASES
    ensures r.product == "10" || r.product == "11"
    ensures |r.version| == 4 && '-' !in r.version
    ensures |r.series| == 5 && AllDigits(r.series)
  {
    var i :| 0 <= i < |GA_RELEASES| && GA_RELEASES[i] == r;
    ProductShape(i);
    VersionShape(i);
    SeriesShape(i);
  }

  // ----- What resolving decides

  ghost predicate HasSeries(r: ResolvedSpec) {
    && !r.latest && |r.series| == 5 && AllDigits(r.series)
    && if r.version == "" then
         r.buildPinned && ReleaseOfSeries(r.series).None? && r.product == ProductBySeries(r.series)
       else Release(r.product, r.version, r.series) in GA_RELEASES
  }

  ghost predicate IsExact(r: ResolvedSpec) {
    && HasSeries(r) && r.buildPinned
    && BuildForm(r.build) && |r.build| > 6 && r.build[..5] == r.series
  }

  ghost predicate IsSeries(r: ResolvedSpec) {
    HasSeries(r) && r.build == ""
  }

  ghost predicate IsLatest(r: ResolvedSpec) {
    r.latest && !r.buildPinned && r.build == r.version == r.series == ""
  }

  ghost predicate Decided(r: ResolvedSpec) {
    && r.os == "windows" && r.arch == "arm64" && (r.product == "10" || r.product == "11")
    && (IsExact(r) || IsSeries(r) || IsLatest(r))
  }

  lemma DerivedReleaseShape(build: string)
    requires BuildForm(build)
    ensures var release := DerivedRelease(build);
            && release.series == build[..5]
            && (release.product == "10" || release.product == "11")
            && AllDigits(release.series)
            && if release.version == "" then
                 ReleaseOfSeries(release.series).None? && release.product == ProductBySeries(release.series)
               else release in GA_RELEASES
  {
    SeriesOfForm(build);
    var found := ReleaseForBuild(build);
    if found.Some? {
      RowShape(found.value);
    }
  }

  lemma ResolveBuildDecides(r: ResolvedSpec, build: string, version: string, product: string)
    requires r.os == "windows" && r.arch == "arm64" && !r.latest
    requires ResolveBuild(r, build, version, product).Ok?
    ensures Decided(ResolveBuild(r, build, version, product).value)
  {
    DerivedReleaseShape(build);
    SeriesOfForm(build);
  }

  lemma DefaultIsShipped(product: string)
    requires product == "10" || product == "11"
    ensures ReleaseForVersion(product, DefaultVersion(product)).Some?
  {
    assert GA_RELEASES[1] == Release("11", "24H2", "26100");
    assert GA_RELEASES[5] == Release("10", "22H2", "19045");
    DifferentProducts();
  }

  lemma ResolveNameDecides(r: ResolvedSpec, version: string, product: string)
    requires r.os == "windows" && r.arch == "arm64" && !r.latest && !r.buildPinned
    requires r.build == r.version == r.series == ""
    requires product == "" || product == "10" || product == "11"
    requires ResolveName(r, version, product).Ok?
    ensures Decided(ResolveName(r, version, product).value)
  {
    if version == "latest" {
    } else if version != "" {
      RowShape(ReleaseForName(version, product).value);
    } else {
      var p := Or(product, "11");
      DefaultIsShipped(p);
      RowShape(ReleaseForVersion(p, DefaultVersion(p)).value);
    }
  }

  ghost predicate IsBlank(r: ResolvedSpec) {
    !r.latest && !r.buildPinned && r.build == r.version == r.series == ""
  }

  lemma AxesDecide(r: ResolvedSpec, product: string, version: string, build: string)
    requires IsBlank(r) && ResolveAxes(r, product, version, build).Ok?
    ensures Decided(ResolveAxes(r, product, version, build).value)
  {
    if BuildForm(version) {
      ResolveBuildDecides(r, version, "", product);
    } else if build != "" {
      ResolveBuildDecides(r, build, version, product);
    } else {
      ResolveNameDecides(r, version, product);
    }
  }

  /** A successful Resolve decides every axis, in one of three forms. */
  lemma ResolveDecides(s: MediaSpec)
    requires Resolve(s).Ok?
    ensures Decided(Resolve(s).value)
  {
    AxesDecide(Defaults(s), Trimmed(s.product), Lower(Trimmed(s.version)), Trimmed(s.build));
  }

  ghost predicate Honours(r: ResolvedSpec, product: string, version: string, build: string) {
    && (product != "" ==> r.product == product)
    && (build != "" ==> r.buildPinned && build == if '.' in build then r.build else r.series)
    && (BuildForm(version) ==>
          r.buildPinned && version == if '.' in version then r.build else r.series)
    && (version == "latest" ==> r.latest)
    && (version != "" && version != "latest" && !BuildForm(version) ==>
          Lower(r.version) == version)
    && r.buildPinned == (build != "" || BuildForm(version))
  }

  lemma AxesAreHonoured(r: ResolvedSpec, product: string, version: string, build: string)
    requires IsBlank(r) && Lower(version) == version
    requires ResolveAxes(r, product, version, build).Ok?
    ensures Honours(ResolveAxes(r, product, version, build).value, product, version, build)
  {
    if BuildForm(version) {
      SeriesOfForm(version);
    } else if BuildForm(build) {
      SeriesOfForm(build);
    }
  }

  /** Whatever the caller stated holds of the result. */
  lemma StatedAxesAreHonoured(s: MediaSpec)
    requires Resolve(s).Ok?
    ensures Honours(Resolve(s).value, Trimmed(s.product), Lower(Trimmed(s.version)), Trimmed(s.build))
  {
    LowerTwice(Trimmed(s.version));
    AxesAreHonoured(Defaults(s), Trimmed(s.product), Lower(Trimmed(s.version)), Trimmed(s.build));
  }

  lemma LowerTwice(s: string)
    ensures Lower(Lower(s)) == Lower(s)
  {
  }

  // ----- Which builds a specification wants

  lemma MatchIsOfSeries(r: ResolvedSpec, b: Build)
    requires IsExact(r) || IsSeries(r)
    requires MatchesBuild(r, b)
    ensures BuildSeries(b.build) == r.series
  {
    assert '.' !in r.series;
    if r.build != "" {
      SeriesOfForm(r.build);
    } else {
      var tail := b.build[5..];
      SeriesStopsAtDot(r.series, tail);
      assert r.series + tail == b.build;
    }
  }

  /** Builds chosen for a pinned or named specification belong to its release. */
  lemma ChosenBuildsBelong(r: ResolvedSpec, b: Build)
    requires Decided(r) && !r.latest && Wanted(r, b)
    ensures BuildSeries(b.build) == r.series
    ensures ReleaseForBuild(b.build)
            == if r.version == "" then None else Some(Release(r.product, r.version, r.series))
  {
    MatchIsOfSeries(r, b);
    if r.version != "" {
      SeriesNamesRow(Release(r.product, r.version, r.series));
    }
  }

  /** On a shipped series, pinning the series or naming its version wants the same builds. */
  lemma SeriesWants(r: ResolvedSpec, b: Build)
    requires IsSeries(r)
    ensures Wanted(r, b) == (b.build == r.series || r.series + "." <= b.build)
  {
    if MatchesBuild(r, b) && r.version != "" {
      MatchIsOfSeries(r, b);
      SeriesNamesRow(Release(r.product, r.version, r.series));
    }
  }

  lemma PinShape(r: ResolvedSpec)
    requires Decided(r)
    ensures '-' !in Pin(r)
    ensures IsExact(r) <==> |Pin(r)| > 6
    ensures IsLatest(r) <==> |Pin(r)| == 6
    ensures IsSeries(r) && r.version == "" <==> |Pin(r)| == 5
    ensures IsSeries(r) && r.version != "" <==> |Pin(r)| == 4
  {
    if IsExact(r) {
      forall i | 0 <= i < |r.build| ensures r.build[i] != '-' {
        if i < 5 {
          assert IsDigit(r.build[..5][i]);
        } else if i > 5 {
          assert IsDigit(r.build[6..][i - 6]);
        }
      }
    } else if IsSeries(r) && r.version != "" {
      RowShape(Release(r.product, r.version, r.series));
    }
  }

  /** Equal names carry equal products, pins and languages, though a language may contain the
      dash that separates them. */
  lemma NameIsInjective(a: ResolvedSpec, b: ResolvedSpec)
    requires Decided(a) && Decided(b)
    ensures ISOName(a) == ISOName(b)
            <==> a.product == b.product && Pin(a) == Pin(b) && a.language == b.language
  {
    PinShape(a);
    PinShape(b);
    NameParts(a);
    NameParts(b);
    if ISOName(a) == ISOName(b) {
      var a1, b1 := Pin(a) + (['-'] + LanguagePart(a)), Pin(b) + (['-'] + LanguagePart(b));
      CancelHead("windows-", a.product + (['-'] + a1), b.product + (['-'] + b1));
      HeadIsUnique(a.product, a1, b.product, b1, '-');
      HeadIsUnique(Pin(a), LanguagePart(a), Pin(b), LanguagePart(b), '-');
      CancelHead("arm64-", a.language + ".iso", b.language + ".iso");
      CancelTail(a.language, b.language, ".iso");
    }
  }

  function LanguagePart(r: ResolvedSpec): string {
    "arm64-" + (r.language + ".iso")
  }

  lemma NameParts(r: ResolvedSpec)
    requires Decided(r)
    ensures ISOName(r) == "windows-" + (r.product + (['-'] + (Pin(r) + (['-'] + LanguagePart(r)))))
  {
    var windows, p, pin := "windows-", r.product, Pin(r);
    var front := windows + p + "-" + pin + "-";
    assert "arm64" + "-" == "arm64-";
    ConcatIsAssociative(front, "arm64", "-");
    ConcatIsAssociative(front + "arm64-", r.language, ".iso");
    ConcatIsAssociative(front, "arm64-", r.language + ".iso");
    ConcatIsAssociative(windows + p + "-" + pin, "-", LanguagePart(r));
    ConcatIsAssociative(windows + p + "-", pin, "-" + LanguagePart(r));
    ConcatIsAssociative(windows + p, "-", pin + ("-" + LanguagePart(r)));
    ConcatIsAssociative(windows, p, "-" + (pin + ("-" + LanguagePart(r))));
  }

  lemma EqualPinsWantAlike(a: ResolvedSpec, b: ResolvedSpec, build: Build)
    requires Decided(a) && Decided(b) && a.product == b.product && Pin(a) == Pin(b)
    ensures Wanted(a, build) == Wanted(b, build)
  {
    PinShape(a);
    PinShape(b);
    if IsSeries(a) {
      SeriesWants(a, build);
      SeriesWants(b, build);
      if a.version != "" {
        VersionNamesRow(Release(a.product, a.version, a.series), Release(b.product, b.version, b.series));
      }
    }
  }

  function Numbered(build: string): Build {
    Build("", build, "arm64", 0, "")
  }

  /** The number a decided pin wants for itself. */
  function OwnNumber(r: ResolvedSpec): string {
    if r.build != "" then r.build else if r.series != "" then r.series else "26100"
  }

  lemma WantsOwnNumber(r: ResolvedSpec)
    requires Decided(r)
    ensures Wanted(r, Numbered(OwnNumber(r)))
  {
    if IsSeries(r) {
      SeriesWants(r, Numbered(r.series));
    } else if IsLatest(r) {
      ShippedNumbers();
    }
  }

  lemma ShippedNumbers()
    ensures IsGABuild("26100") && IsGABuild("26200") && "26100" != "26200"
  {
    assert GA_RELEASES[0].series == "26200" && GA_RELEASES[1].series == "26100";
    SeriesStopsAtDot("26100", "");
    SeriesStopsAtDot("26200", "");
    assert "26100" + "" == "26100" && "26200" + "" == "26200";
    assert "26100"[2] != "26200"[2];
  }

  lemma DifferentSeries(a: ResolvedSpec, b: ResolvedSpec)
    requires Decided(a) && Decided(b) && IsSeries(a) && IsSeries(b) && Pin(a) != Pin(b)
    ensures a.series != b.series
  {
    if a.series == b.series {
      if a.version != "" {
        SeriesNamesRow(Release(a.product, a.version, a.series));
      }
      if b.version != "" {
        SeriesNamesRow(Release(b.product, b.version, b.series));
      }
    }
  }

  /** Some build tells two pins apart. */
  lemma DifferentPinsDiffer(a: ResolvedSpec, b: ResolvedSpec) returns (build: Build)
    requires Decided(a) && Decided(b) && Pin(a) != Pin(b)
    ensures Wanted(a, build) != Wanted(b, build)
  {
    PinShape(a);
    PinShape(b);
    if IsLatest(a) || (IsSeries(a) && IsExact(b)) {
      build := WiderWantsMore(b, a);
    } else if IsSeries(a) && IsSeries(b) {
      DifferentSeries(a, b);
      build := Numbered(a.series);
      SeriesWants(a, build);
      SeriesWants(b, build);
    } else {
      build := WiderWantsMore(a, b);
    }
  }

  /** A wider specification wants a build that a narrower one does not. */
  lemma WiderWantsMore(narrow: ResolvedSpec, wide: ResolvedSpec) returns (build: Build)
    requires Decided(narrow) && Decided(wide) && Pin(narrow) != Pin(wide)
    requires (IsExact(narrow) && !IsLatest(wide)) || (!IsLatest(narrow) && IsLatest(wide))
    ensures Wanted(wide, build) && !Wanted(narrow, build)
  {
    PinShape(narrow);
    PinShape(wide);
    ShippedNumbers();
    if IsExact(narrow) {
      build := Numbered(OwnNumber(wide));
      WantsOwnNumber(wide);
    } else {
      build := Numbered(if narrow.series == "26100" then "26200" else "26100");
      SeriesWants(narrow, build);
    }
  }

  /** The cache file name is exactly as fine as the media: two decided specifications share a
      name if and only if they agree on product and language and want the same builds, however
      each was pinned. */
  lemma SameNameIffSameMedia(a: ResolvedSpec, b: ResolvedSpec)
    requires Decided(a) && Decided(b)
    ensures ISOName(a) == ISOName(b)
            <==> && a.product == b.product && a.language == b.language
                 && forall build :: Wanted(a, build) == Wanted(b, build)
  {
    NameIsInjective(a, b);
    if a.product == b.product {
      if Pin(a) == Pin(b) {
        forall build ensures Wanted(a, build) == Wanted(b, build) {
          EqualPinsWantAlike(a, b, build);
        }
      } else {
        var build := DifferentPinsDiffer(a, b);
      }
    }
  }

  /** Hence, of any two inputs that Resolve accepts, equal names select the same builds in the
      same order from any candidates. */
  lemma SameNameSelectsSame(s: MediaSpec, t: MediaSpec, candidates: seq<Build>)
    requires Resolve(s).Ok? && Resolve(t).Ok?
    requires ISOName(Resolve(s).value) == ISOName(Resolve(t).value)
    ensures var a, b := Resolve(s).value, Resolve(t).value;
            Selected((x: Build) => Wanted(a, x), candidates)
            == Selected((x: Build) => Wanted(b, x), candidates)
  {
    ResolveDecides(s);
    ResolveDecides(t);
    var a, b := Resolve(s).value, Resolve(t).value;
    SameNameIffSameMedia(a, b);
    SelectedAgree((x: Build) => Wanted(a, x), (x: Build) => Wanted(b, x), candidates);
  }

  lemma BuildBranchKeepsEdition(r: ResolvedSpec, edition: string, build: string, version: string, product: string)
    requires ResolveBuild(r, build, version, product).Ok?
    ensures ResolveBuild(r.(edition := edition), build, version, product)
            == Ok(ResolveBuild(r, build, version, product).value.(edition := edition))
  {
  }

  lemma NameBranchKeepsEdition(r: ResolvedSpec, edition: string, version: string, product: string)
    requires ResolveName(r, version, product).Ok?
    ensures ResolveName(r.(edition := edition), version, product)
            == Ok(ResolveName(r, version, product).value.(edition := edition))
  {
  }

  lemma AxesKeepEdition(r: ResolvedSpec, edition: string, product: string, version: string, build: string)
    requires ResolveAxes(r, product, version, build).Ok?
    ensures var result := ResolveAxes(r, product, version, build).value;
            && ResolveAxes(r.(edition := edition), product, version, build) == Ok(result.(edition := edition))
            && result.edition == r.edition && result.language == r.language
  {
    if BuildForm(version) {
      BuildBranchKeepsEdition(r, edition, version, "", product);
    } else if build != "" {
      BuildBranchKeepsEdition(r, edition, build, version, product);
    } else {
      NameBranchKeepsEdition(r, edition, version, product);
    }
  }

  /** The edition decides the media too, yet it is not in the name: changing it alone changes
      the resolved edition and nothing else. */
  lemma EditionIsNotInName(s: MediaSpec, edition: string)
    requires Resolve(s).Ok?
    ensures var r, e := Resolve(s).value, Or(Upper(Trimmed(edition)), "PROFESSIONAL");
            && Resolve(s.(edition := edition)) == Ok(r.(edition := e))
            && ISOName(r.(edition := e)) == ISOName(r)
  {
    AxesKeepEdition(Defaults(s), Or(Upper(Trimmed(edition)), "PROFESSIONAL"),
                    Trimmed(s.product), Lower(Trimmed(s.version)), Trimmed(s.build));
  }

  // ----- Stating a result back

  lemma {:induction false} TrimLeftEnds(s: string)
    ensures var t := TrimLeft(s);
            |t| <= |s| && (t != "" ==> !IsSpace(t[0]) && t[|t| - 1] == s[|s| - 1])
  {
    if s != "" && IsSpace(s[0]) {
      TrimLeftEnds(s[1..]);
    }
  }

  lemma {:induction false} TrimRightEnds(s: string)
    ensures var t := TrimRight(s);
            t <= s && (t != "" ==> !IsSpace(t[|t| - 1]))
  {
    if s != "" && IsSpace(s[|s| - 1]) {
      TrimRightEnds(s[..|s| - 1]);
    }
  }

  /** Neither end is white space, so trimming changes nothing. */
  predicate IsTrimmed(s: string) {
    s != "" ==> !IsSpace(s[0]) && !IsSpace(s[|s| - 1])
  }

  lemma TrimmedIsTrimmed(s: string)
    ensures IsTrimmed(Trimmed(s))
  {
    TrimLeftEnds(s);
    TrimRightEnds(TrimLeft(s));
  }

  lemma TrimmedStays(s: string)
    requires IsTrimmed(s)
    ensures Trimmed(s) == s
  {
  }

  /** A lower-case or upper-case axis, filled or stated, reads back as it is. */
  lemma AxisReadsBack(s: string, fallback: string)
    requires IsTrimmed(fallback) && fallback != ""
    ensures Lower(fallback) == fallback ==>
              var axis := Or(Lower(Trimmed(s)), fallback);
              axis != "" && Lower(Trimmed(axis)) == axis
    ensures Upper(fallback) == fallback ==>
              var axis := Or(Upper(Trimmed(s)), fallback);
              axis != "" && Upper(Trimmed(axis)) == axis
  {
    TrimmedIsTrimmed(s);
    TrimmedStays(fallback);
    if Trimmed(s) != "" {
      LowerTwice(Trimmed(s));
      UpperTwice(Trimmed(s));
      TrimmedStays(Lower(Trimmed(s)));
      TrimmedStays(Upper(Trimmed(s)));
    }
  }

  lemma UpperTwice(s: string)
    ensures Upper(Upper(s)) == Upper(s)
  {
  }

  /** A result written out as a specification, every axis stated. */
  function StatedBack(r: ResolvedSpec): MediaSpec {
    MediaSpec(r.os, r.product, r.arch, if r.latest then "latest" else r.version,
              if !r.buildPinned then "" else Or(r.build, r.series), r.edition, r.language)
  }

  ghost predicate ReadsBack(r: ResolvedSpec) {
    && r.language != "" && Lower(Trimmed(r.language)) == r.language
    && r.edition != "" && Upper(Trimmed(r.edition)) == r.edition
  }

  lemma DefaultsReadBack(s: MediaSpec)
    ensures ReadsBack(Defaults(s))
  {
    assert Upper("PROFESSIONAL") == "PROFESSIONAL" && Lower("en-us") == "en-us";
    AxisReadsBack(s.edition, "PROFESSIONAL");
    AxisReadsBack(s.language, "en-us");
  }

  lemma ResolvedReadsBack(s: MediaSpec)
    requires Resolve(s).Ok?
    ensures ReadsBack(Resolve(s).value)
  {
    AxesKeepEdition(Defaults(s), "", Trimmed(s.product), Lower(Trimmed(s.version)), Trimmed(s.build));
    DefaultsReadBack(s);
  }

  lemma PlainText()
    ensures Lower(Trimmed("windows")) == "windows" && Lower(Trimmed("arm64")) == "arm64"
    ensures Trimmed("10") == "10" && Trimmed("11") == "11"
    ensures Lower(Trimmed("latest")) == "latest" && Trimmed("") == ""
  {
    TrimmedStays("windows");
    TrimmedStays("arm64");
    TrimmedStays("10");
    TrimmedStays("11");
    TrimmedStays("latest");
  }

  /** What resolving reads from a result stated back. */
  lemma StatedBackReads(r: ResolvedSpec)
    requires Decided(r) && ReadsBack(r)
    ensures var s := StatedBack(r);
            Resolve(s) == ResolveAxes(Blank(r), r.product, Lower(Trimmed(s.version)), Trimmed(s.build))
  {
    PlainText();
  }

  function Blank(r: ResolvedSpec): ResolvedSpec {
    ResolvedSpec("windows", "", "", "", "", "arm64", r.edition, r.language, false, false)
  }

  /** A decided version name is plain and cannot be taken for a build or for "latest". */
  lemma VersionReadsBack(r: ResolvedSpec)
    requires Decided(r) && !r.latest
    ensures Trimmed(r.version) == r.version
    ensures !BuildForm(Lower(r.version)) && Lower(r.version) != "latest"
    ensures r.version == "" <==> Lower(r.version) == ""
  {
    if r.version != "" {
      var row := Release(r.product, r.version, r.series);
      var i :| 0 <= i < |GA_RELEASES| && GA_RELEASES[i] == row;
      VersionShape(i);
      TrimmedStays(r.version);
    }
  }

  lemma NameResolvesSame(r: ResolvedSpec, base: ResolvedSpec)
    requires Decided(r) && IsSeries(r) && !r.buildPinned
    requires base == Blank(r)
    ensures ResolveName(base, Lower(r.version), r.product) == Ok(r)
  {
    VersionReadsBack(r);
    LowerTwice(r.version);
    var row := Release(r.product, r.version, r.series);
    var found := ReleaseForVersion(r.product, Lower(r.version));
    assert found.Some?;
    VersionNamesRow(row, found.value);
  }

  lemma PinHasForm(r: ResolvedSpec)
    requires Decided(r) && r.buildPinned
    ensures var pin := Or(r.build, r.series); BuildForm(pin) && pin[..5] == r.series
  {
    assert r.series[..5] == r.series;
  }

  lemma FormHasDigitEnds(pin: string)
    requires BuildForm(pin)
    ensures IsDigit(pin[0]) && IsDigit(pin[|pin| - 1])
  {
    assert pin[0] == pin[..5][0];
    if |pin| == 5 {
      assert pin[4] == pin[..5][4];
    } else {
      assert pin[|pin| - 1] == pin[6..][|pin| - 7];
    }
  }

  lemma PinReadsBack(r: ResolvedSpec)
    requires Decided(r) && r.buildPinned
    ensures var pin := Or(r.build, r.series);
            && Trimmed(pin) == pin && BuildForm(pin) && pin[..5] == r.series
            && r.build == if '.' in pin then pin else ""
  {
    PinHasForm(r);
    var pin := Or(r.build, r.series);
    FormHasDigitEnds(pin);
    TrimmedStays(pin);
    SeriesOfForm(pin);
  }

  lemma PinDerives(r: ResolvedSpec)
    requires Decided(r) && r.buildPinned
    ensures var pin := Or(r.build, r.series);
            BuildForm(pin) && DerivedRelease(pin) == Release(r.product, r.version, r.series)
  {
    PinHasForm(r);
    SeriesOfForm(Or(r.build, r.series));
    if r.version != "" {
      SeriesNamesRow(Release(r.product, r.version, r.series));
    }
  }

  lemma PinResolvesSame(r: ResolvedSpec, base: ResolvedSpec, pin: string)
    requires Decided(r) && r.buildPinned && pin == Or(r.build, r.series)
    requires base == Blank(r)
    ensures ResolveBuild(base, pin, Lower(r.version), r.product) == Ok(r)
  {
    PinReadsBack(r);
    VersionReadsBack(r);
    LowerTwice(r.version);
    PinDerives(r);
  }

  lemma StatedBackResolvesSame(r: ResolvedSpec)
    requires Decided(r) && ReadsBack(r)
    ensures Resolve(StatedBack(r)) == Ok(r)
  {
    StatedBackReads(r);
    PlainText();
    if !r.latest {
      VersionReadsBack(r);
      if r.buildPinned {
        PinReadsBack(r);
        PinResolvesSame(r, Blank(r), Or(r.build, r.series));
      } else {
        NameResolvesSame(r, Blank(r));
      }
    }
  }

  /** Resolving is idempotent: a result stated back in full, cross-checks included, resolves to
      itself. */
  lemma ResolveIsIdempotent(s: MediaSpec)
    requires Resolve(s).Ok?
    ensures Resolve(StatedBack(Resolve(s).value)) == Resolve(s)
  {
    ResolveDecides(s);
    ResolvedReadsBack(s);
    StatedBackResolvesSame(Resolve(s).value);
  }
}
