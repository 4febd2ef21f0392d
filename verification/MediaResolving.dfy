/**
 * What resolving makes of every axis, stated or not, and what it refuses, in terms of the texts
 * handed in and the table of shipped releases.
 */
module MediaResolving {
  import opened MediaNaming
  import opened MediaSpec
  import opened Wrappers

  // ----- Texts as they are compared

  /** Space, tab, newline, vertical tab, form feed and carriage return. */
  lemma SpaceCharacters(c: char)
    ensures IsSpace(c) <==> c == ' ' || 9 <= c as int <= 13
  {
  }

  ghost predicate OnlySpaces(s: string) {
    forall i :: 0 <= i < |s| ==> IsSpace(s[i])
  }

  lemma {:induction false} LeftSpacesAreTrimmed(a: string, s: string)
    requires OnlySpaces(a) && (s == "" || !IsSpace(s[0]))
    ensures TrimLeft(a + s) == s
  {
    if a == "" {
      assert a + s == s;
    } else {
      assert (a + s)[1..] == a[1..] + s;
      LeftSpacesAreTrimmed(a[1..], s);
    }
  }

  lemma {:induction false} RightSpacesAreTrimmed(s: string, b: string)
    requires OnlySpaces(b) && (s == "" || !IsSpace(s[|s| - 1]))
    ensures TrimRight(s + b) == s
  {
    if b == "" {
      assert s + b == s;
    } else {
      assert (s + b)[..|s + b| - 1] == s + b[..|b| - 1];
      RightSpacesAreTrimmed(s, b[..|b| - 1]);
    }
  }

  /** White space is trimmed at both ends, and nothing else. */
  lemma SpacesAreTrimmed(a: string, s: string, b: string)
    requires OnlySpaces(a) && OnlySpaces(b) && s != "" && !IsSpace(s[0]) && !IsSpace(s[|s| - 1])
    ensures Trimmed(a + s + b) == s
  {
    assert a + s + b == a + (s + b);
    LeftSpacesAreTrimmed(a, s + b);
    RightSpacesAreTrimmed(s, b);
  }

  /** Letters change case, other characters do not. */
  lemma CaseOfCharacters(c: char)
    ensures LowerChar(c) as int == if 65 <= c as int <= 90 then c as int + 32 else c as int
    ensures UpperChar(c) as int == if 97 <= c as int <= 122 then c as int - 32 else c as int
  {
  }

  /** Five digits, or five digits, a dot and at least one more. */
  lemma BuildFormIff(s: string)
    ensures BuildForm(s) <==>
            || (|s| == 5 && AllDigits(s))
            || exists series, qfe :: s == series + "." + qfe && |series| == 5 && qfe != "" && AllDigits(series + qfe)
  {
    if BuildForm(s) && |s| > 5 {
      var series, qfe := s[..5], s[6..];
      assert s == series + "." + qfe;
      assert AllDigits(series + qfe);
    }
    if |s| == 5 && AllDigits(s) {
      assert s[..5] == s;
    }
    if series, qfe :| s == series + "." + qfe && |series| == 5 && qfe != "" && AllDigits(series + qfe) {
      assert s[..5] == series && s[6..] == qfe;
      assert forall i :: 0 <= i < 5 ==> series[i] == (series + qfe)[i];
      assert forall i :: 0 <= i < |qfe| ==> qfe[i] == (series + qfe)[5 + i];
    }
  }

  // ----- The releases that builds and version names belong to

  /** A build is of a series when it is the series itself or continues it after a dot. */
  predicate IsOf(build: string, series: string) {
    build == series || series + "." <= build
  }

  /** A build's release: the row of its series or, off the table, the product that the series falls
      into, Windows 11 from 22000 on, without a version name. */
  ghost predicate IsReleaseOf(r: Release, build: string)
    requires BuildForm(build)
  {
    if exists row :: row in GA_RELEASES && IsOf(build, row.series) then r in GA_RELEASES && IsOf(build, r.series)
    else r == Release(if Atoi(build[..5]) >= 22000 then "11" else "10", "", build[..5])
  }

  lemma SeriesStartsBuild(build: string, series: string)
    requires BuildForm(build) && |series| == 5 && AllDigits(series) && build[..5] == series
    ensures IsOf(build, series)
  {
    if |build| == 5 {
      assert build == series;
    } else {
      assert build[..6] == series + ".";
    }
  }

  lemma SeriesOfBuild(build: string, series: string)
    requires BuildForm(build) && |series| == 5 && AllDigits(series)
    ensures IsOf(build, series) <==> BuildSeries(build) == series
  {
    SeriesOfForm(build);
    if build[..5] == series {
      SeriesStartsBuild(build, series);
    }
    if IsOf(build, series) {
      assert build[..5] == series;
    }
  }

  lemma DerivedReleaseIs(build: string)
    requires BuildForm(build)
    ensures IsReleaseOf(DerivedRelease(build), build)
  {
    SeriesOfForm(build);
    forall row | row in GA_RELEASES ensures IsOf(build, row.series) <==> BuildSeries(build) == row.series {
      RowShape(row);
      SeriesOfBuild(build, row.series);
    }
    var found := ReleaseForBuild(build);
    if found.None? {
      forall row | row in GA_RELEASES ensures !IsOf(build, row.series) {
        var i :| 0 <= i < |GA_RELEASES| && GA_RELEASES[i] == row;
      }
    }
  }

  /** Series numbers are read in base ten. */
  lemma BaseTen(s: string)
    requires |s| == 5 && AllDigits(s)
    ensures Atoi(s) == 10000 * Digit(s[0]) + 1000 * Digit(s[1]) + 100 * Digit(s[2]) + 10 * Digit(s[3]) + Digit(s[4])
  {
    var s4, s3, s2, s1 := s[..4], s[..3], s[..2], s[..1];
    assert s4[..3] == s3 && s3[..2] == s2 && s2[..1] == s1 && s1[..0] == "";
    assert Atoi(s1) == Digit(s[0]) && Atoi(s2) == 10 * Atoi(s1) + Digit(s[1]);
    assert Atoi(s3) == 10 * Atoi(s2) + Digit(s[2]) && Atoi(s4) == 10 * Atoi(s3) + Digit(s[3]);
  }

  lemma ReleaseIsUnique(r: Release, t: Release, build: string)
    requires BuildForm(build) && IsReleaseOf(r, build) && IsReleaseOf(t, build)
    ensures r == t
  {
    if r in GA_RELEASES && t in GA_RELEASES && IsOf(build, r.series) && IsOf(build, t.series) {
      RowShape(r);
      RowShape(t);
      SeriesOfBuild(build, r.series);
      SeriesOfBuild(build, t.series);
      SeriesNamesRow(r);
      SeriesNamesRow(t);
    }
  }

  /** A shipped release of this version name, of the product if one is stated. */
  ghost predicate IsNamed(r: Release, version: string, product: string) {
    r in GA_RELEASES && EqualFold(version, r.version) && (product == "" || product == r.product)
  }

  lemma NameDecidesRelease(version: string, product: string)
    requires product == "" || product == "10" || product == "11"
    ensures ReleaseForName(version, product).None? ==> forall r :: !IsNamed(r, version, product)
    ensures ReleaseForName(version, product).Some? ==>
              var found := ReleaseForName(version, product).value;
              && IsNamed(found, version, product)
              && forall r :: IsNamed(r, version, product) && r.product == "11" ==> found.product == "11"
  {
    forall r | IsNamed(r, version, product)
      ensures ReleaseForName(version, product).Some?
      ensures r.product == "11" ==> ReleaseForName(version, product).value.product == "11"
    {
      RowShape(r);
      var i :| 0 <= i < |GA_RELEASES| && GA_RELEASES[i] == r;
      assert ReleaseForVersion(r.product, version).Some?;
    }
  }

  // ----- What is refused

  /** The build's release is compatible with what else is stated. */
  ghost predicate FitsBuild(build: string, version: string, product: string)
    requires BuildForm(build)
  {
    exists r :: IsReleaseOf(r, build) && (version == "" || EqualFold(version, r.version)) &&
                (product == "" || product == r.product)
  }

  /** Only Windows on arm64 is known; a version may be given as a build; a stated build must have the
      form of one and agree with version and product; a version name must have shipped. */
  ghost predicate IsAccepted(os: string, arch: string, product: string, version: string, build: string) {
    && (os == "" || os == "windows") && (arch == "" || arch == "arm64")
    && (product == "" || product == "10" || product == "11")
    && if BuildForm(version) then (build == "" || build == version) && FitsBuild(version, "", product)
       else if build != "" then version != "latest" && BuildForm(build) && FitsBuild(build, version, product)
       else version == "" || version == "latest" || exists r :: IsNamed(r, version, product)
  }

  lemma BuildIsAcceptedIff(r: ResolvedSpec, build: string, version: string, product: string)
    requires BuildForm(build) && version != "latest"
    ensures ResolveBuild(r, build, version, product).Ok? <==> FitsBuild(build, version, product)
  {
    DerivedReleaseIs(build);
    var release := DerivedRelease(build);
    forall t | IsReleaseOf(t, build) ensures t == release {
      ReleaseIsUnique(t, release, build);
    }
  }

  lemma NothingIsNoBuild()
    ensures !BuildForm("") && !BuildForm("latest")
  {
    assert !IsDigit("latest"[..5][0]);
  }

  /** Resolving succeeds exactly for such texts. */
  lemma ResolveAcceptsIff(s: MediaSpec)
    ensures Resolve(s).Ok? <==>
            IsAccepted(Lower(Trimmed(s.os)), Lower(Trimmed(s.arch)), Trimmed(s.product),
                       Lower(Trimmed(s.version)), Trimmed(s.build))
  {
    var product, version, build := Trimmed(s.product), Lower(Trimmed(s.version)), Trimmed(s.build);
    NothingIsNoBuild();
    if BuildForm(version) {
      BuildIsAcceptedIff(Defaults(s), version, "", product);
    } else if build != "" {
      if BuildForm(build) && version != "latest" {
        BuildIsAcceptedIff(Defaults(s), build, version, product);
      }
    } else if product == "" || product == "10" || product == "11" {
      NameDecidesRelease(version, product);
    }
  }

  /** Why a supported product is refused: two different builds, "latest" beside a build, a build not
      in the form of one or of another version or product, or a version name that never shipped. */
  lemma RefusedPin(r: ResolvedSpec, product: string, version: string, build: string)
    requires r.os == "windows" && r.arch == "arm64" && (product == "" || product == "10" || product == "11")
    ensures BuildForm(version) && build != "" && build != version ==>
              ResolveAxes(r, product, version, build) == Err(VersionBuildConflict)
    ensures version == "latest" && build != "" ==> ResolveAxes(r, product, version, build) == Err(LatestWithBuild)
    ensures version != "latest" && !BuildForm(version) && build != "" && !BuildForm(build) ==>
              ResolveAxes(r, product, version, build) == Err(InvalidBuild)
    ensures version != "" && version != "latest" && !BuildForm(version) && BuildForm(build) ==>
              forall t :: IsReleaseOf(t, build) && !EqualFold(version, t.version) ==>
                            ResolveAxes(r, product, version, build) == Err(BuildIsOtherVersion)
    ensures version == "" && BuildForm(build) && product != "" ==>
              forall t :: IsReleaseOf(t, build) && t.product != product ==>
                            ResolveAxes(r, product, version, build) == Err(BuildIsOtherProduct)
    ensures version != "" && version != "latest" && !BuildForm(version) && build == "" &&
            (forall t :: !IsNamed(t, version, product)) ==>
              ResolveAxes(r, product, version, build) == Err(UnknownVersion)
  {
    NothingIsNoBuild();
    NameDecidesRelease(version, product);
    if BuildForm(build) {
      DerivedReleaseIs(build);
      forall t | IsReleaseOf(t, build) ensures t == DerivedRelease(build) {
        ReleaseIsUnique(t, DerivedRelease(build), build);
      }
    }
  }

  // ----- What is made of it

  /** The product, version, series and build of a result, whatever was stated: the release of a
      stated build; the newest, of Windows 11 unless stated otherwise; the release of a stated
      version name, of Windows 11 if it shipped for both; or the default of the product. */
  ghost predicate IsResult(r: ResolvedSpec, product: string, version: string, build: string) {
    var release := Release(r.product, r.version, r.series);
    var pin := if BuildForm(version) then version else build;
    if pin != "" then
      && BuildForm(pin) && IsReleaseOf(release, pin)
      && r.build == (if |pin| > 5 then pin else "") && r.buildPinned && !r.latest
    else
      && r.build == "" && !r.buildPinned && r.latest == (version == "latest")
      && if version == "latest" then release == Release(if product == "" then "11" else product, "", "")
         else if version != "" then
           && IsNamed(release, version, product)
           && (release.product == "10" ==> forall t :: IsNamed(t, version, product) ==> t.product != "11")
         else release == if product == "10" then Release("10", "22H2", "19045") else Release("11", "24H2", "26100")
  }

  lemma BuildFields(r: ResolvedSpec, build: string, version: string, product: string)
    requires IsBlank(r) && BuildForm(build) && ResolveBuild(r, build, version, product).Ok?
    ensures var t := ResolveBuild(r, build, version, product).value;
            && Release(t.product, t.version, t.series) == DerivedRelease(build)
            && t.build == (if |build| > 5 then build else "") && t.buildPinned && !t.latest
  {
    SeriesOfForm(build);
  }

  lemma BuildResult(r: ResolvedSpec, build: string, version: string, product: string)
    requires IsBlank(r) && BuildForm(build) && ResolveBuild(r, build, version, product).Ok?
    ensures var t := ResolveBuild(r, build, version, product).value;
            && IsReleaseOf(Release(t.product, t.version, t.series), build)
            && t.build == (if |build| > 5 then build else "") && t.buildPinned && !t.latest
  {
    BuildFields(r, build, version, product);
    DerivedReleaseIs(build);
  }

  lemma DefaultRows()
    ensures ReleaseForVersion("11", "24H2") == Some(Release("11", "24H2", "26100"))
    ensures ReleaseForVersion("10", "22H2") == Some(Release("10", "22H2", "19045"))
  {
    assert GA_RELEASES[1] == Release("11", "24H2", "26100") && GA_RELEASES[5] == Release("10", "22H2", "19045");
    VersionNamesRow(GA_RELEASES[1], ReleaseForVersion("11", "24H2").value);
    VersionNamesRow(GA_RELEASES[5], ReleaseForVersion("10", "22H2").value);
  }

  lemma NameResult(r: ResolvedSpec, version: string, product: string)
    requires IsBlank(r) && (product == "" || product == "10" || product == "11") && !BuildForm(version)
    requires ResolveName(r, version, product).Ok?
    ensures IsResult(ResolveName(r, version, product).value, product, version, "")
  {
    DefaultRows();
    DifferentProducts();
    if version != "" && version != "latest" {
      NameDecidesRelease(version, product);
    }
  }

  /** A successful Resolve yields exactly that, and the other axes as stated or by default. */
  lemma ResolveYields(s: MediaSpec)
    requires Resolve(s).Ok?
    ensures var r := Resolve(s).value;
            && IsResult(r, Trimmed(s.product), Lower(Trimmed(s.version)), Trimmed(s.build))
            && r.os == "windows" && r.arch == "arm64"
            && r.edition == (if Trimmed(s.edition) == "" then "PROFESSIONAL" else Upper(Trimmed(s.edition)))
            && r.language == (if Trimmed(s.language) == "" then "en-us" else Lower(Trimmed(s.language)))
  {
    var product, version, build := Trimmed(s.product), Lower(Trimmed(s.version)), Trimmed(s.build);
    NothingIsNoBuild();
    assert |Upper(Trimmed(s.edition))| == |Trimmed(s.edition)| && |Lower(Trimmed(s.language))| == |Trimmed(s.language)|;
    if BuildForm(version) {
      BuildResult(Defaults(s), version, "", product);
    } else if build != "" {
      BuildResult(Defaults(s), build, version, product);
    } else {
      NameResult(Defaults(s), version, product);
    }
  }

  /** At most one result is like that, so it is what Resolve yields. */
  lemma ResultIsUnique(r: ResolvedSpec, t: ResolvedSpec, product: string, version: string, build: string)
    requires IsResult(r, product, version, build) && IsResult(t, product, version, build)
    ensures r.product == t.product && r.version == t.version && r.series == t.series && r.build == t.build
    ensures r.buildPinned == t.buildPinned && r.latest == t.latest
  {
    var a, b := Release(r.product, r.version, r.series), Release(t.product, t.version, t.series);
    var pin := if BuildForm(version) then version else build;
    if pin != "" {
      ReleaseIsUnique(a, b, pin);
    } else if version != "" && version != "latest" {
      RowShape(a);
      RowShape(b);
      VersionNamesRow(a, b);
    }
  }

  // ----- Which builds are wanted

  /** Of a decided specification: the build itself, the builds of the series, or any shipped one. */
  lemma WantedIff(r: ResolvedSpec, b: Build)
    requires Decided(r)
    ensures Wanted(r, b) <==>
            if r.build != "" then b.build == r.build
            else if r.series != "" then IsOf(b.build, r.series)
            else exists row :: row in GA_RELEASES && IsOf(b.build, row.series)
  {
    if r.build == "" && r.series != "" {
      SeriesWants(r, b);
    } else if r.latest {
      ShippedIff(b.build);
    }
  }

  lemma ShippedIff(build: string)
    ensures IsGABuild(build) <==> exists row :: row in GA_RELEASES && IsOf(build, row.series)
  {
    forall row | row in GA_RELEASES ensures IsOf(build, row.series) <==> BuildSeries(build) == row.series {
      RowShape(row);
      OfSeriesIff(build, row.series);
    }
    if IsGABuild(build) {
      assert ReleaseForBuild(build).value in GA_RELEASES;
    }
    if row :| row in GA_RELEASES && BuildSeries(build) == row.series {
      var i :| 0 <= i < |GA_RELEASES| && GA_RELEASES[i] == row;
    }
  }

  lemma OfSeriesIff(build: string, series: string)
    requires '.' !in series
    ensures IsOf(build, series) <==> BuildSeries(build) == series
  {
    if IsOf(build, series) {
      var tail := build[|series|..];
      assert series + tail == build;
      SeriesStopsAtDot(series, tail);
    }
    SeriesIsStart(build);
  }

  lemma {:induction false} SeriesIsStart(build: string)
    ensures BuildSeries(build) == build || BuildSeries(build) + "." <= build
  {
    if build != "" && build[0] != '.' {
      SeriesIsStart(build[1..]);
      assert build == [build[0]] + build[1..];
      assert [build[0]] + (BuildSeries(build[1..]) + ".") == BuildSeries(build) + ".";
    }
  }
}
