/**
 * The directory of assembled installer images, keyed by ISOName, with the older fixed name
 * kept as a link to the latest fetch. Listing, downloading and assembling are an outcome
 * handed in.
 */
module MediaCache {
  import opened MediaNaming
  import opened MediaSpec
  import opened Wrappers

  /** An image file, with the specification it was made for. */
  datatype Image = Image(spec: ResolvedSpec, empty: bool, bootable: bool)

  datatype Entry = File(image: Image) | Link(target: string)

  type Dir = map<string, Entry>

  /** Assembling succeeds, or fails leaving what it had written, if anything. */
  datatype Outcome = Assembled(bootable: bool) | Failed(left: Option<Image>)

  const LEGACY_NAME := "windows-arm64-en-us.iso"

  const NOTHING_STATED := MediaSpec("", "", "", "", "", "", "")

  function DefaultSpec(): ResolvedSpec {
    DefaultResolves();
    Resolve(NOTHING_STATED).value
  }

  lemma DefaultResolves()
    ensures Resolve(NOTHING_STATED)
            == Ok(ResolvedSpec("windows", "11", "24H2", "26100", "", "arm64", "PROFESSIONAL", "en-us", false, false))
  {
    var row := Release("11", "24H2", "26100");
    assert GA_RELEASES[1] == row;
    var found := ReleaseForVersion("11", "24H2");
    assert found.Some?;
    VersionNamesRow(row, found.value);
    assert Trimmed("") == "" && Lower("") == "" && Upper("") == "";
  }

  /** Its cache file is windows-11-24h2-arm64-en-us.iso. */
  lemma DefaultName()
    ensures ISOName(DefaultSpec()) == "windows-" + "11" + "-" + "24h2" + "-" + "arm64" + "-" + "en-us" + ".iso"
  {
    DefaultResolves();
    assert Lower("24H2") == "24h2";
  }

  // ----- Looking for a cached image

  /** Follows a link, as stat does. */
  function Stat(dir: Dir, p: string): Option<Image> {
    if p !in dir then None
    else
      match dir[p]
      case File(image) => Some(image)
      case Link(target) =>
        if target in dir && dir[target].File? then Some(dir[target].image) else None
  }

  predicate Usable(dir: Dir, p: string) {
    Stat(dir, p).Some? && !Stat(dir, p).value.empty && Stat(dir, p).value.bootable
  }

  /** A non-empty image that cannot boot is removed; an empty one is only passed over. */
  function Swept(dir: Dir, p: string): Dir {
    if Stat(dir, p).Some? && !Stat(dir, p).value.empty && !Usable(dir, p) then dir - {p} else dir
  }

  /** The first usable path from i on, and the directory left behind. */
  function LookupFrom(dir: Dir, paths: seq<string>, i: nat): (Dir, Option<Image>)
    requires i <= |paths|
    decreases |paths| - i
  {
    if i == |paths| then (dir, None)
    else if Usable(dir, paths[i]) then (dir, Stat(dir, paths[i]))
    else LookupFrom(Swept(dir, paths[i]), paths, i + 1)
  }

  function CachedPaths(name: string, isDefault: bool): seq<string> {
    [name] + if isDefault then [LEGACY_NAME] else []
  }

  /** Points the old name at an image, unless a real file stands there. */
  function Aliased(dir: Dir, name: string): Dir {
    if name == LEGACY_NAME || (LEGACY_NAME in dir && dir[LEGACY_NAME].File?) then dir
    else dir[LEGACY_NAME := Link(name)]
  }

  /** One fetch under the given name: the directory after it and the image it hands out. */
  function FetchedAs(dir: Dir, name: string, isDefault: bool, r: ResolvedSpec, outcome: Outcome): (Dir, Option<Image>) {
    var (swept, hit) := LookupFrom(dir, CachedPaths(name, isDefault), 0);
    if hit.Some? then (swept, hit)
    else
      match outcome
      case Failed(left) => (if left.None? then swept else swept[name := File(left.value)], None)
      case Assembled(bootable) =>
        var image := Image(r, false, bootable);
        (Aliased(swept[name := File(image)], name), Some(image))
  }

  function Fetched(dir: Dir, r: ResolvedSpec, outcome: Outcome): (Dir, Option<Image>) {
    FetchedAs(dir, ISOName(r), r == DefaultSpec(), r, outcome)
  }

  class Cache {
    var dir: Dir

    method Fetch(r: ResolvedSpec, outcome: Outcome) returns (result: Option<Image>)
      modifies this
      ensures (dir, result) == Fetched(old(dir), r, outcome)
    {
      var isoPath := ISOName(r);
      var cachedPaths := [isoPath];
      if r == DefaultSpec() {
        cachedPaths := cachedPaths + [LEGACY_NAME];
      }
      assert cachedPaths == CachedPaths(isoPath, r == DefaultSpec());
      result := FindCached(cachedPaths);
      if result.Some? {
        return;
      }
      match outcome {
        case Failed(left) =>
          if left.Some? {
            dir := dir[isoPath := File(left.value)];
          }
          return None;
        case Assembled(bootable) =>
          var image := Image(r, false, bootable);
          dir := dir[isoPath := File(image)];
          RefreshLegacyAlias(isoPath);
          return Some(image);
      }
    }

    method FindCached(cachedPaths: seq<string>) returns (result: Option<Image>)
      modifies this
      ensures (dir, result) == LookupFrom(old(dir), cachedPaths, 0)
    {
      var i := 0;
      while i < |cachedPaths|
        invariant 0 <= i <= |cachedPaths|
        invariant LookupFrom(dir, cachedPaths, i) == LookupFrom(old(dir), cachedPaths, 0)
      {
        var p := cachedPaths[i];
        var info := Stat(dir, p);
        if info.Some? && !info.value.empty {
          if info.value.bootable {
            return info;
          }
          dir := dir - {p};
        }
        i := i + 1;
      }
      return None;
    }

    method RefreshLegacyAlias(isoPath: string)
      modifies this
      ensures dir == Aliased(old(dir), isoPath)
    {
      if isoPath == LEGACY_NAME {
        return;
      }
      if LEGACY_NAME in dir && dir[LEGACY_NAME].File? {
        return;
      }
      dir := dir - {LEGACY_NAME};
      dir := dir[LEGACY_NAME := Link(isoPath)];
      assert dir == Aliased(old(dir), isoPath);
    }
  }

  /** A file that is neither empty nor unbootable is handed out, and the directory left alone. */
  lemma BootableFileIsHandedOut(dir: Dir, r: ResolvedSpec, outcome: Outcome)
    requires ISOName(r) in dir && dir[ISOName(r)].File?
    requires !dir[ISOName(r)].image.empty && dir[ISOName(r)].image.bootable
    ensures Fetched(dir, r, outcome) == (dir, Some(dir[ISOName(r)].image))
  {
  }

  /** A file that cannot boot is removed, and an image assembled in its place. */
  lemma UnbootableFileIsReplaced(dir: Dir, r: ResolvedSpec, bootable: bool)
    requires ISOName(r) in dir && dir[ISOName(r)].File? && r != DefaultSpec()
    requires !dir[ISOName(r)].image.empty && !dir[ISOName(r)].image.bootable
    ensures Fetched(dir, r, Failed(None)) == (dir - {ISOName(r)}, None)
    ensures var image := Image(r, false, bootable);
            && Fetched(dir, r, Assembled(bootable)).1 == Some(image)
            && ISOName(r) in Fetched(dir, r, Assembled(bootable)).0
            && (ISOName(r) != LEGACY_NAME ==> Fetched(dir, r, Assembled(bootable)).0[ISOName(r)] == File(image))
  {
    LookupIsTwoSteps(dir, ISOName(r), false);
  }

  /** After a fetch that assembled an image the old name links to it, unless a real file stands
      there, which is left alone; everything else is as it was. */
  lemma AliasLinksToNewest(dir: Dir, r: ResolvedSpec, bootable: bool, p: string)
    requires ISOName(r) !in dir && r != DefaultSpec() && ISOName(r) != LEGACY_NAME
    ensures var after := Fetched(dir, r, Assembled(bootable)).0;
            && (p == LEGACY_NAME ==>
                  p in after && after[p] == if p in dir && dir[p].File? then dir[p] else Link(ISOName(r)))
            && (p != LEGACY_NAME && p != ISOName(r) ==> (p in after <==> p in dir) && (p in dir ==> after[p] == dir[p]))
  {
    LookupIsTwoSteps(dir, ISOName(r), false);
  }

  /** Whatever is handed out is the image just assembled, or a non-empty one that boots. */
  lemma OnlyBootableIsHandedOut(dir: Dir, r: ResolvedSpec, outcome: Outcome)
    requires Fetched(dir, r, outcome).1.Some?
    ensures var image := Fetched(dir, r, outcome).1.value;
            (!image.empty && image.bootable) || (outcome.Assembled? && image == Image(r, false, outcome.bootable))
  {
    LookupIsTwoSteps(dir, ISOName(r), r == DefaultSpec());
  }

  // ----- What is handed out

  /** Every file but the old name's holds what its name says; a real file there is a default
      image from before names carried the specification. */
  ghost predicate Truthful(dir: Dir, nameOf: ResolvedSpec -> string, decided: ResolvedSpec -> bool, default: string) {
    && (forall p :: p in dir && dir[p].File? ==> decided(dir[p].image.spec))
    && (forall p :: p in dir && p != LEGACY_NAME ==> dir[p].File? && nameOf(dir[p].image.spec) == p)
    && (LEGACY_NAME in dir ==>
          match dir[LEGACY_NAME]
          case File(image) => nameOf(image.spec) == default
          case Link(target) => target != LEGACY_NAME)
  }

  ghost predicate LeavesOwn(outcome: Outcome, r: ResolvedSpec) {
    outcome.Failed? && outcome.left.Some? ==> outcome.left.value.spec == r
  }

  lemma LookupIsTwoSteps(dir: Dir, name: string, isDefault: bool)
    ensures var swept := Swept(dir, name);
            LookupFrom(dir, CachedPaths(name, isDefault), 0)
            == if Usable(dir, name) then (dir, Stat(dir, name))
               else if !isDefault then (swept, None)
               else if Usable(swept, LEGACY_NAME) then (swept, Stat(swept, LEGACY_NAME))
               else (Swept(swept, LEGACY_NAME), None)
  {
    var paths, swept := CachedPaths(name, isDefault), Swept(dir, name);
    if isDefault {
      assert LookupFrom(swept, paths, 1)
          == if Usable(swept, LEGACY_NAME) then (swept, Stat(swept, LEGACY_NAME))
             else LookupFrom(Swept(swept, LEGACY_NAME), paths, 2);
    } else {
      assert LookupFrom(swept, paths, 1) == (swept, None);
    }
  }

  lemma SweepKeepsTruthful(
      dir: Dir, nameOf: ResolvedSpec -> string, decided: ResolvedSpec -> bool, default: string, p: string)
    requires Truthful(dir, nameOf, decided, default)
    ensures Truthful(Swept(dir, p), nameOf, decided, default)
  {
  }

  lemma FetchAsKeepsTruthful(
      dir: Dir, nameOf: ResolvedSpec -> string, decided: ResolvedSpec -> bool, default: string,
      isDefault: bool, r: ResolvedSpec, outcome: Outcome)
    requires Truthful(dir, nameOf, decided, default) && decided(r) && nameOf(r) != LEGACY_NAME && LeavesOwn(outcome, r)
    ensures Truthful(FetchedAs(dir, nameOf(r), isDefault, r, outcome).0, nameOf, decided, default)
  {
    var name := nameOf(r);
    LookupIsTwoSteps(dir, name, isDefault);
    SweepKeepsTruthful(dir, nameOf, decided, default, name);
    SweepKeepsTruthful(Swept(dir, name), nameOf, decided, default, LEGACY_NAME);
  }

  /** The usable image that a fetch under this name comes upon. */
  function Found(dir: Dir, name: string, isDefault: bool): Option<Image> {
    if Usable(dir, name) then Stat(dir, name)
    else if isDefault && Usable(dir, LEGACY_NAME) then Stat(dir, LEGACY_NAME)
    else None
  }

  /** The old name stands in for the default image while linking to another specification's. */
  predicate AliasMisleads(dir: Dir, name: string, isDefault: bool) {
    && isDefault && !Usable(dir, name) && Usable(dir, LEGACY_NAME)
    && LEGACY_NAME in dir && dir[LEGACY_NAME].Link? && dir[LEGACY_NAME].target != name
  }

  predicate FoundOtherEdition(dir: Dir, name: string, isDefault: bool, edition: string) {
    Found(dir, name, isDefault).Some? && Found(dir, name, isDefault).value.spec.edition != edition
  }

  lemma FetchAsIsRightIff(
      dir: Dir, nameOf: ResolvedSpec -> string, decided: ResolvedSpec -> bool, default: string,
      isDefault: bool, r: ResolvedSpec, outcome: Outcome)
    requires Truthful(dir, nameOf, decided, default) && decided(r) && (isDefault ==> nameOf(r) == default)
    requires nameOf(r) != LEGACY_NAME && FetchedAs(dir, nameOf(r), isDefault, r, outcome).1.Some?
    ensures var spec := FetchedAs(dir, nameOf(r), isDefault, r, outcome).1.value.spec;
            && decided(spec)
            && (nameOf(spec) == nameOf(r) && spec.edition == r.edition <==>
                  && !AliasMisleads(dir, nameOf(r), isDefault)
                  && !FoundOtherEdition(dir, nameOf(r), isDefault, r.edition))
  {
    LookupIsTwoSteps(dir, nameOf(r), isDefault);
  }

  // ----- With the names in use

  function NameOf(): ResolvedSpec -> string {
    (r: ResolvedSpec) => ISOName(r)
  }

  lemma NoSpecHasLegacyName(r: ResolvedSpec)
    requires Decided(r)
    ensures ISOName(r) != LEGACY_NAME
  {
    NameParts(r);
    assert ISOName(r)[8] == r.product[0] != LEGACY_NAME[8];
  }

  ghost predicate HoldsWhatItSays(dir: Dir) {
    Truthful(dir, NameOf(), r => Decided(r), ISOName(DefaultSpec()))
  }

  /** No fetch makes a name lie. */
  lemma FetchKeepsTruthful(dir: Dir, r: ResolvedSpec, outcome: Outcome)
    requires HoldsWhatItSays(dir) && Decided(r) && LeavesOwn(outcome, r)
    ensures HoldsWhatItSays(Fetched(dir, r, outcome).0)
  {
    NoSpecHasLegacyName(r);
    FetchAsKeepsTruthful(dir, NameOf(), x => Decided(x), ISOName(DefaultSpec()), r == DefaultSpec(), r, outcome);
  }

  /** An image made for spec is one that r asks for. */
  ghost predicate Serves(spec: ResolvedSpec, r: ResolvedSpec) {
    && spec.product == r.product && spec.language == r.language && spec.edition == r.edition
    && forall build :: Wanted(spec, build) == Wanted(r, build)
  }

  lemma NameAndEditionServe(spec: ResolvedSpec, r: ResolvedSpec)
    requires Decided(spec) && Decided(r)
    ensures ISOName(spec) == ISOName(r) && spec.edition == r.edition <==> Serves(spec, r)
  {
    SameNameIffSameMedia(spec, r);
  }

  /** A fetch hands out an image of the product, language, edition and builds it was asked for
      exactly when the alias does not mislead and the usable image it comes upon, if any, was
      made for the same edition. */
  lemma FetchIsRightIff(dir: Dir, r: ResolvedSpec, outcome: Outcome)
    requires HoldsWhatItSays(dir) && Decided(r) && Fetched(dir, r, outcome).1.Some?
    ensures Serves(Fetched(dir, r, outcome).1.value.spec, r)
            <==> && !AliasMisleads(dir, ISOName(r), r == DefaultSpec())
                 && !FoundOtherEdition(dir, ISOName(r), r == DefaultSpec(), r.edition)
  {
    NoSpecHasLegacyName(r);
    var spec := Fetched(dir, r, outcome).1.value.spec;
    FetchAsIsRightIff(dir, NameOf(), x => Decided(x), ISOName(DefaultSpec()), r == DefaultSpec(), r, outcome);
    NameAndEditionServe(spec, r);
  }

  datatype Fetch = Fetch(spec: ResolvedSpec, outcome: Outcome)

  function After(dir: Dir, fetch: Fetch): Dir {
    Fetched(dir, fetch.spec, fetch.outcome).0
  }

  /** The directory after a run of fetches. */
  ghost function Run(after: (Dir, Fetch) -> Dir, dir: Dir, fetches: seq<Fetch>): Dir {
    if fetches == [] then dir
    else after(Run(after, dir, fetches[..|fetches| - 1]), fetches[|fetches| - 1])
  }

  lemma {:induction false} RunKeeps(after: (Dir, Fetch) -> Dir, inv: Dir -> bool, ok: Fetch -> bool,
                                    dir: Dir, fetches: seq<Fetch>)
    requires forall d, f :: inv(d) && ok(f) ==> inv(after(d, f))
    requires inv(dir) && forall i :: 0 <= i < |fetches| ==> ok(fetches[i])
    ensures inv(Run(after, dir, fetches))
  {
    if fetches != [] {
      RunKeeps(after, inv, ok, dir, fetches[..|fetches| - 1]);
    }
  }

  ghost predicate IsOwnFetch(f: Fetch) {
    Decided(f.spec) && LeavesOwn(f.outcome, f.spec)
  }

  /** Through any run of fetches the names stay truthful. */
  lemma RunKeepsTruthful(dir: Dir, fetches: seq<Fetch>)
    requires HoldsWhatItSays(dir) && forall i :: 0 <= i < |fetches| ==> IsOwnFetch(fetches[i])
    ensures HoldsWhatItSays(Run(After, dir, fetches))
  {
    forall d, f | HoldsWhatItSays(d) && IsOwnFetch(f) ensures HoldsWhatItSays(After(d, f)) {
      FetchKeepsTruthful(d, f.spec, f.outcome);
    }
    RunKeeps(After, d => HoldsWhatItSays(d), f => IsOwnFetch(f), dir, fetches);
  }

  lemma SecondFetchAsHitsFirst(name: string, r: ResolvedSpec, later: ResolvedSpec, d: bool, e: bool, outcome: Outcome)
    requires name != LEGACY_NAME
    ensures var dir := FetchedAs(map[], name, d, r, Assembled(true)).0;
            FetchedAs(dir, name, e, later, outcome).1 == Some(Image(r, false, true))
  {
    LookupIsTwoSteps(map[], name, d);
    LookupIsTwoSteps(FetchedAs(map[], name, d, r, Assembled(true)).0, name, e);
  }

  /** How another edition's image is come upon: the second of two fetches that differ in the
      edition alone is handed the first one's. */
  lemma SecondEditionGetsFirst(s: MediaSpec, edition: string, outcome: Outcome)
    requires Resolve(s).Ok?
    ensures Resolve(s.(edition := edition)).Ok?
    ensures var r, later := Resolve(s).value, Resolve(s.(edition := edition)).value;
            Fetched(Fetched(map[], r, Assembled(true)).0, later, outcome).1 == Some(Image(r, false, true))
  {
    ResolveDecides(s);
    var r := Resolve(s).value;
    EditionIsNotInName(s, edition);
    NoSpecHasLegacyName(r);
    var later := Resolve(s.(edition := edition)).value;
    SecondFetchAsHitsFirst(ISOName(r), r, later, r == DefaultSpec(), later == DefaultSpec(), outcome);
  }

  const HOME := NOTHING_STATED.(edition := "HOME")

  lemma HomeReads()
    ensures Or(Upper(Trimmed("HOME")), "PROFESSIONAL") == "HOME" != "PROFESSIONAL"
  {
    TrimmedStays("HOME");
    assert |"HOME"| != |"PROFESSIONAL"|;
  }

  lemma HomeResolves()
    ensures Resolve(HOME) == Ok(DefaultSpec().(edition := "HOME")) && DefaultSpec().edition == "PROFESSIONAL"
    ensures "HOME" != "PROFESSIONAL"
  {
    HomeReads();
    EditionIsNotInName(NOTHING_STATED, "HOME");
    DefaultResolves();
  }

  /** So fetching the default and then its HOME edition hands out PROFESSIONAL for HOME. */
  lemma HomeGetsProfessional(outcome: Outcome)
    ensures Resolve(HOME).Ok? && Resolve(HOME).value.edition == "HOME" && DefaultSpec().edition == "PROFESSIONAL"
    ensures var dir := Fetched(map[], DefaultSpec(), Assembled(true)).0;
            Fetched(dir, Resolve(HOME).value, outcome).1 == Some(Image(DefaultSpec(), false, true))
    ensures !Serves(DefaultSpec(), Resolve(HOME).value)
  {
    HomeResolves();
    SecondEditionGetsFirst(NOTHING_STATED, "HOME", outcome);
  }

  lemma FirstFetchAsBecomesDefault(name: string, default: string, r: ResolvedSpec, d: ResolvedSpec, outcome: Outcome)
    requires name != default && name != LEGACY_NAME && default != LEGACY_NAME
    ensures var dir := FetchedAs(map[], name, false, r, Assembled(true)).0;
            FetchedAs(dir, default, true, d, outcome).1 == Some(Image(r, false, true))
  {
    LookupIsTwoSteps(map[], name, false);
    var dir := FetchedAs(map[], name, false, r, Assembled(true)).0;
    LookupIsTwoSteps(dir, default, true);
  }

  /** How such a link comes about: after any other specification's first fetch into an empty
      directory, the default specification is handed that image. */
  lemma FirstFetchBecomesDefault(s: MediaSpec, outcome: Outcome)
    requires Resolve(s).Ok? && ISOName(Resolve(s).value) != ISOName(DefaultSpec())
    ensures var r := Resolve(s).value;
            var dir := Fetched(map[], r, Assembled(true)).0;
            Fetched(dir, DefaultSpec(), outcome).1 == Some(Image(r, false, true))
  {
    var r := Resolve(s).value;
    ResolveDecides(s);
    NoSpecHasLegacyName(r);
    ResolveDecides(NOTHING_STATED);
    NoSpecHasLegacyName(DefaultSpec());
    FirstFetchAsBecomesDefault(ISOName(r), ISOName(DefaultSpec()), r, DefaultSpec(), outcome);
  }

  const SERIES_26200 := NOTHING_STATED.(build := "26200")

  lemma SeriesResolves()
    ensures Resolve(SERIES_26200)
            == Ok(ResolvedSpec("windows", "11", "25H2", "26200", "", "arm64", "PROFESSIONAL", "en-us", false, true))
  {
    TrimmedStays("26200");
    assert Trimmed("") == "" && Lower("") == "" && Upper("") == "";
    SeriesDerives();
  }

  lemma SeriesDerives()
    ensures BuildForm("26200") && '.' !in "26200"
    ensures DerivedRelease("26200") == Release("11", "25H2", "26200")
  {
    var row := Release("11", "25H2", "26200");
    assert GA_RELEASES[0] == row;
    SeriesNamesRow(row);
    SeriesOfForm("26200");
    assert "26200"[..5] == "26200";
  }

  /** Such a specification exists: pinning the series of Windows 11 25H2. */
  lemma AnotherReleaseHasAnotherName()
    ensures Resolve(SERIES_26200).Ok? && ISOName(Resolve(SERIES_26200).value) != ISOName(DefaultSpec())
  {
    SeriesResolves();
    DefaultResolves();
    ResolveDecides(SERIES_26200);
    ResolveDecides(NOTHING_STATED);
    NameIsInjective(Resolve(SERIES_26200).value, DefaultSpec());
    assert Lower("25H2")[1] == '5' && Lower("24H2")[1] == '4';
  }
}
