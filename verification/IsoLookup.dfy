/** Finding a file's extent by path, over a tree of ISO 9660 directories. */
module IsoLookup {
  import opened Bytes
  import opened Wrappers
  import opened ImageFile
  import opened ElTorito
  import opened IsoDirectory
  import opened Splitting

  const DOT: byte := 0x2E
  const SLASH: byte := 0x2F

  // ----- Matching a wanted name, tolerating ISO 9660 Level 1 mangling

  function Cut(s: seq<byte>, sep: byte): (r: (seq<byte>, seq<byte>))
    ensures sep !in r.0
    ensures s == r.0 + (if sep in s then [sep] + r.1 else [])
  {
    if s == [] then ([], [])
    else if s[0] == sep then ([], s[1..])
    else
      var (head, tail) := Cut(s[1..], sep);
      ([s[0]] + head, tail)
  }

  function Truncated(s: seq<byte>, n: nat): seq<byte> {
    if |s| > n then s[..n] else s
  }

  predicate MatchesEightDotThree(candidate: seq<byte>, want: seq<byte>) {
    var (stem, ext) := Cut(want, DOT);
    Cut(candidate, DOT) == (Truncated(stem, 8), Truncated(ext, 3))
  }

  predicate Tolerates(candidate: seq<byte>, upper: seq<byte>) {
    candidate <= upper || MatchesEightDotThree(candidate, upper)
  }

  /** The keys a look-up may settle on: the exact one if listed, else any tolerated one. */
  function Candidates(keys: set<seq<byte>>, want: seq<byte>): set<seq<byte>> {
    var upper := Upper(want);
    if upper in keys then {upper} else set k | k in keys && Tolerates(k, upper)
  }

  /** Map iteration picks an arbitrary one of several tolerated names. */
  method LookupISOEntry(entries: map<seq<byte>, DirEntry>, want: seq<byte>) returns (r: Option<DirEntry>)
    ensures var c := Candidates(entries.Keys, want);
            if c == {} then r == None else exists k :: k in c && r == Some(entries[k])
  {
    var upper := Upper(want);
    if upper in entries {
      return Some(entries[upper]);
    }
    var todo := entries.Keys;
    while todo != {}
      invariant todo <= entries.Keys
      invariant forall k :: k in entries.Keys - todo ==> !Tolerates(k, upper)
    {
      var name :| name in todo;
      if Tolerates(name, upper) {
        assert name in Candidates(entries.Keys, want);
        return Some(entries[name]);
      }
      todo := todo - {name};
    }
    return None;
  }

  /** The 8.3 form of a name: its stem cut to eight bytes, its extension to three. */
  function LevelOneName(name: seq<byte>): seq<byte> {
    var (stem, ext) := Cut(name, DOT);
    if DOT in name then Truncated(stem, 8) + [DOT] + Truncated(ext, 3) else Truncated(stem, 8)
  }

  lemma {:induction false} CutHead(head: seq<byte>, tail: seq<byte>, sep: byte)
    requires sep !in head
    ensures Cut(head, sep) == (head, [])
    ensures Cut(head + ([sep] + tail), sep) == (head, tail)
  {
    if head != [] {
      CutHead(head[1..], tail, sep);
      assert [head[0]] + head[1..] == head;
      assert (head + ([sep] + tail))[1..] == head[1..] + ([sep] + tail);
    } else {
      assert ([] + ([sep] + tail))[1..] == tail;
    }
  }

  lemma LevelOneNameIsTolerated(upper: seq<byte>)
    ensures Tolerates(LevelOneName(upper), upper)
  {
    var (stem, ext) := Cut(upper, DOT);
    CutHead(Truncated(stem, 8), Truncated(ext, 3), DOT);
    if DOT in upper {
      assert LevelOneName(upper) == Truncated(stem, 8) + ([DOT] + Truncated(ext, 3));
    } else {
      assert ext == [] by { CutHead(upper, [], DOT); }
    }
  }

  /** A name truncated to Level 1 is still found under its full spelling. */
  lemma LevelOneNameIsCandidate(keys: set<seq<byte>>, want: seq<byte>)
    requires LevelOneName(Upper(want)) in keys
    ensures Candidates(keys, want) != {}
    ensures Upper(want) !in keys ==> LevelOneName(Upper(want)) in Candidates(keys, want)
  {
    var upper := Upper(want);
    LevelOneNameIsTolerated(upper);
    assert LevelOneName(upper) in Candidates(keys, want) || upper in keys;
  }

  /** EFISYS_NOPROMPT.BIN is EFISYS_N.BIN at Level 1. */
  lemma LevelOneNameOfEfisys()
    ensures var stem: seq<byte> := [0x45, 0x46, 0x49, 0x53, 0x59, 0x53, 0x5F, 0x4E];
            var rest: seq<byte> := [0x4F, 0x50, 0x52, 0x4F, 0x4D, 0x50, 0x54];
            var ext: seq<byte> := [0x42, 0x49, 0x4E];
            LevelOneName(stem + rest + ([DOT] + ext)) == stem + [DOT] + ext
  {
    var stem: seq<byte> := [0x45, 0x46, 0x49, 0x53, 0x59, 0x53, 0x5F, 0x4E];
    var rest: seq<byte> := [0x4F, 0x50, 0x52, 0x4F, 0x4D, 0x50, 0x54];
    var ext: seq<byte> := [0x42, 0x49, 0x4E];
    CutHead(stem + rest, ext, DOT);
    assert (stem + rest)[..8] == stem;
    assert DOT in stem + rest + ([DOT] + ext) by {
      assert (stem + rest + ([DOT] + ext))[15] == DOT;
    }
  }

  /** Short for a name: its stem cut to eight bytes and its extension to three, with or
      without a dot when nothing follows it. */
  predicate IsShortened(key: seq<byte>, upper: seq<byte>) {
    var (stem, ext) := Cut(upper, DOT);
    || key == Truncated(stem, 8) + ([DOT] + Truncated(ext, 3))
    || (ext == [] && key == Truncated(stem, 8))
  }

  lemma ToleratesIff(key: seq<byte>, upper: seq<byte>)
    ensures Tolerates(key, upper) <==> key <= upper || IsShortened(key, upper)
  {
    var (stem, ext) := Cut(upper, DOT);
    CutHead(Truncated(stem, 8), Truncated(ext, 3), DOT);
    if MatchesEightDotThree(key, upper) && DOT !in key {
      CutHead(key, [], DOT);
    }
  }

  /** An unlisted name is not found exactly when no listed key is a prefix of it or short for
      it; otherwise the entry of such a key is what is found. */
  lemma UnlistedNameIsMissingIff(img: seq<byte>, table: map<seq<byte>, DirEntry>,
                                 name: seq<byte>, r: Result<DirEntry, IsoError>)
    requires Upper(name) !in table && MayFindIn(img, table, [name], r)
    ensures r == Err(NotFound)
            <==> forall key :: key in table ==> !(key <= Upper(name)) && !IsShortened(key, Upper(name))
    ensures r != Err(NotFound) ==>
              exists key :: key in table && (key <= Upper(name) || IsShortened(key, Upper(name))) && r == Ok(table[key])
  {
    forall key ensures Tolerates(key, Upper(name)) <==> key <= Upper(name) || IsShortened(key, Upper(name)) {
      ToleratesIff(key, Upper(name));
    }
    var c := Candidates(table.Keys, name);
    forall key | key in table && Tolerates(key, Upper(name)) ensures key in c {
    }
  }

  // ----- Following a path on disk

  /** A possible outcome of resolving parts from a directory. */
  ghost predicate MayFind(img: seq<byte>, dir: DirEntry, parts: seq<seq<byte>>, r: Result<DirEntry, IsoError>)
    requires |parts| > 0
    decreases |parts|, 1
  {
    match Listing(img, dir.extent, dir.size)
    case Err(e) => r == Err(e)
    case Ok(table) => MayFindIn(img, table, parts, r)
  }

  /** The same, once the directory has been listed. */
  ghost predicate MayFindIn(img: seq<byte>, table: map<seq<byte>, DirEntry>,
                            parts: seq<seq<byte>>, r: Result<DirEntry, IsoError>)
    requires |parts| > 0
    decreases |parts|, 0
  {
    var c := Candidates(table.Keys, parts[0]);
    if c == {} then r == Err(NotFound)
    else exists k :: k in c && (if |parts| == 1 then r == Ok(table[k]) else MayFind(img, table[k], parts[1..], r))
  }

  function TrimSlashes(s: seq<byte>): seq<byte> {
    if s == [] then []
    else if s[0] == SLASH then TrimSlashes(s[1..])
    else if s[|s| - 1] == SLASH then TrimSlashes(s[..|s| - 1])
    else s
  }

  function PathParts(path: seq<byte>): (parts: seq<seq<byte>>)
    ensures |parts| > 0
  {
    Split(TrimSlashes(path), SLASH)
  }

  ghost predicate OnlySlashes(s: seq<byte>) {
    forall i :: 0 <= i < |s| ==> s[i] == SLASH
  }

  /** Slashes are trimmed at both ends, and nothing else. */
  lemma {:induction false} SlashesAreTrimmed(a: seq<byte>, s: seq<byte>, b: seq<byte>)
    requires OnlySlashes(a) && OnlySlashes(b) && s != [] && s[0] != SLASH && s[|s| - 1] != SLASH
    ensures TrimSlashes(a + s + b) == s
    decreases |a| + |b|
  {
    var all := a + s + b;
    if a != [] {
      assert all[1..] == a[1..] + s + b;
      SlashesAreTrimmed(a[1..], s, b);
    } else if b != [] {
      assert all[0] == s[0] && all[..|all| - 1] == a + s + b[..|b| - 1];
      SlashesAreTrimmed(a, s, b[..|b| - 1]);
    } else {
      assert all == s;
    }
  }

  lemma TrimmedAlready(s: seq<byte>)
    requires s != [] && s[0] != SLASH && s[|s| - 1] != SLASH
    ensures TrimSlashes(s) == s && TrimSlashes([SLASH] + s) == s
  {
    assert ([SLASH] + s)[1..] == s;
  }

  lemma {:induction false} JoinedEnds(parts: seq<seq<byte>>)
    requires |parts| > 0 && SeparatorFree(parts, SLASH)
    requires forall i :: 0 <= i < |parts| ==> parts[i] != []
    ensures var s := Join(parts, SLASH);
            s != [] && s[0] == parts[0][0] && s[|s| - 1] == parts[|parts| - 1][|parts[|parts| - 1]| - 1]
  {
    if |parts| > 1 {
      JoinedEnds(parts[1..]);
    }
  }

  /** A path is taken apart into the names it was joined from. */
  lemma PathPartsOfJoined(parts: seq<seq<byte>>)
    requires |parts| > 0 && SeparatorFree(parts, SLASH)
    requires forall i :: 0 <= i < |parts| ==> parts[i] != []
    ensures PathParts(Join(parts, SLASH)) == parts
    ensures PathParts([SLASH] + Join(parts, SLASH)) == parts
  {
    JoinedEnds(parts);
    var last := parts[|parts| - 1];
    assert parts[0][0] in parts[0] && last[|last| - 1] in last;
    TrimmedAlready(Join(parts, SLASH));
    JoinThenSplit(parts, SLASH);
  }

  /** The root directory's record inside the primary volume descriptor. */
  function RootEntry(pvd: Sector): DirEntry {
    DirEntry(Le32(pvd, 156 + 2), Le32(pvd, 156 + 10), true)
  }

  /** The record there is encoded like any other (ECMA-119 section 9.1): its extent, its size and
      its directory flag are read back. */
  lemma RootEntryReadsRecord(pvd: Sector, entry: DirEntry, date: seq<byte>)
    requires |date| == 7 && entry.isDir && pvd[156..190] == EncodeRecord([0], entry, date, [])
    ensures RootEntry(pvd) == entry
  {
    var rec := pvd[156..190];
    EncodedRecordReadsBack([0], entry, date, []);
    assert pvd[158] == rec[2] && pvd[159] == rec[3] && pvd[160] == rec[4] && pvd[161] == rec[5];
    assert pvd[166] == rec[10] && pvd[167] == rec[11] && pvd[168] == rec[12] && pvd[169] == rec[13];
  }

  /** Sector k is the first type 1 descriptor, with only CD001 descriptors of other types and no
      terminator before it. */
  ghost predicate IsPrimary(img: seq<byte>, k: nat) {
    && 16 <= k < 32 && Readable(img, k)
    && (forall j: nat :: 16 <= j <= k ==> TaggedAt(img, j, [0x43, 0x44, 0x30, 0x30, 0x31]))
    && (forall j: nat :: 16 <= j < k ==> img[j * 2048] != 1 && img[j * 2048] != 255)
    && img[k * 2048] == 1
  }

  /** It holds the record of the given root directory. */
  ghost predicate HasRoot(img: seq<byte>, k: nat, entry: DirEntry, date: seq<byte>) {
    && IsPrimary(img, k) && |date| == 7 && entry.isDir
    && img[k * 2048 + 156..k * 2048 + 190] == EncodeRecord([0], entry, date, [])
  }

  lemma RootOfPrimary(img: seq<byte>, k: nat, entry: DirEntry, date: seq<byte>)
    requires HasRoot(img, k, entry, date)
    ensures RootEntry(SectorAt(img, k)) == entry
  {
    SliceOfSector(img, k, 156, 190);
    RootEntryReadsRecord(SectorAt(img, k), entry, date);
  }

  lemma TagIsCD001(img: seq<byte>, j: nat)
    requires Readable(img, j)
    ensures TaggedAt(img, j, [0x43, 0x44, 0x30, 0x30, 0x31]) <==> MagicOf(SectorAt(img, j)).CD001?
    ensures SectorAt(img, j)[0] == img[j * 2048]
  {
    TaggedLikeMagic(img, j, 0x43, 0x44, 0x30, 0x30, 0x31);
  }

  lemma {:induction false} PrimaryIsFound(img: seq<byte>, lba: nat, k: nat)
    requires IsPrimary(img, k) && 16 <= lba <= k
    ensures PrimaryFrom(img, lba) == Ok(SectorAt(img, k))
    decreases k - lba
  {
    TagIsCD001(img, lba);
    if lba < k {
      PrimaryIsFound(img, lba + 1, k);
    }
  }

  /** Every sector from 16 up to this one is a CD001 descriptor that the search passes. */
  ghost predicate OnlyOthersBefore(img: seq<byte>, lba: nat) {
    forall j: nat :: 16 <= j < lba ==>
      && Readable(img, j) && TaggedAt(img, j, [0x43, 0x44, 0x30, 0x30, 0x31])
      && img[j * 2048] != 1 && img[j * 2048] != 255
  }

  lemma {:induction false} FoundIsPrimary(img: seq<byte>, lba: nat) returns (k: nat)
    requires 16 <= lba && OnlyOthersBefore(img, lba) && PrimaryFrom(img, lba).Ok?
    ensures IsPrimary(img, k) && PrimaryFrom(img, lba) == Ok(SectorAt(img, k))
    decreases 32 - lba
  {
    TagIsCD001(img, lba);
    if img[lba * 2048] == 1 {
      k := lba;
    } else {
      k := FoundIsPrimary(img, lba + 1);
    }
  }

  /** The search finds a descriptor exactly when there is such a sector. */
  lemma PrimaryIff(img: seq<byte>, s: Sector)
    ensures PrimaryFrom(img, 16) == Ok(s) <==> exists k: nat :: IsPrimary(img, k) && s == SectorAt(img, k)
  {
    if PrimaryFrom(img, 16).Ok? {
      var k := FoundIsPrimary(img, 16);
    }
    forall k: nat | IsPrimary(img, k) ensures PrimaryFrom(img, 16) == Ok(SectorAt(img, k)) {
      PrimaryIsFound(img, 16, k);
    }
  }

  /** A possible outcome of resolving parts from the root directory. */
  ghost predicate MayReturn(img: seq<byte>, parts: seq<seq<byte>>, r: Result<DirEntry, IsoError>)
    requires |parts| > 0
  {
    var pvd := PrimaryFrom(img, 16);
    if pvd.Err? then r == Err(pvd.error) else MayFind(img, RootEntry(pvd.value), parts, r)
  }

  /** Look-up starts at that directory. */
  lemma LookupStartsAtRoot(img: seq<byte>, k: nat, entry: DirEntry, date: seq<byte>,
                           parts: seq<seq<byte>>, r: Result<DirEntry, IsoError>)
    requires HasRoot(img, k, entry, date) && |parts| > 0
    ensures MayReturn(img, parts, r) <==> MayFind(img, entry, parts, r)
  {
    PrimaryIsFound(img, 16, k);
    RootOfPrimary(img, k, entry, date);
  }

  method FindFileExtent(f: ImageFile, path: seq<byte>) returns (r: Result<DirEntry, IsoError>)
    ensures MayReturn(f.bytes, PathParts(path), r)
  {
    var pvd := ReadPrimaryVolumeDescriptor(f);
    if pvd.Err? {
      return Err(pvd.error);
    }
    var dir := RootEntry(pvd.value);
    var parts := Split(TrimSlashes(path), SLASH);
    ghost var root := dir;
    var i := 0;
    while i < |parts|
      invariant 0 <= i < |parts|
      invariant forall o :: MayFind(f.bytes, dir, parts[i..], o) ==> MayFind(f.bytes, root, parts, o)
      decreases |parts| - i
    {
      var entries := ReadDirectoryRecords(f, dir.extent, dir.size);
      if entries.Err? {
        assert MayFind(f.bytes, dir, parts[i..], Err(entries.error));
        return Err(entries.error);
      }
      var e := LookupISOEntry(entries.value, parts[i]);
      if e.None? {
        assert MayFind(f.bytes, dir, parts[i..], Err(NotFound));
        return Err(NotFound);
      }
      if i == |parts| - 1 {
        assert MayFind(f.bytes, dir, parts[i..], Ok(e.value));
        return Ok(e.value);
      }
      forall o | MayFind(f.bytes, e.value, parts[i + 1..], o)
        ensures MayFind(f.bytes, dir, parts[i..], o)
      {
        assert parts[i..][1..] == parts[i + 1..];
      }
      dir := e.value;
      i := i + 1;
    }
    r := Err(NotFound);
  }
}
