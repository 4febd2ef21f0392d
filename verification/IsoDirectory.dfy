/** ISO 9660 volume descriptors and directory records (ECMA-119 sections 6.8.1, 8.4 and 9.1). */
module IsoDirectory {
  import opened Bytes
  import opened Wrappers
  import opened ImageFile
  import opened ElTorito
  import opened Splitting

  datatype DirEntry = DirEntry(extent: uint32, size: uint32, isDir: bool)

  datatype IsoError =
    | ShortRead(lba: nat)
    | NoPrimaryVolumeDescriptor
    | Malformed // a record whose fields reach outside the directory: the reader crashes
    | NotFound

  // ----- The primary volume descriptor

  function PrimaryFrom(img: seq<byte>, lba: nat): Result<Sector, IsoError>
    decreases 32 - lba
  {
    if lba >= 32 then Err(NoPrimaryVolumeDescriptor)
    else if !Readable(img, lba) then Err(ShortRead(lba))
    else
      var s := SectorAt(img, lba);
      if !MagicOf(s).CD001? then Err(NoPrimaryVolumeDescriptor)
      else if s[0] == 1 then Ok(s)
      else if s[0] == 255 then Err(NoPrimaryVolumeDescriptor)
      else PrimaryFrom(img, lba + 1)
  }

  method ReadPrimaryVolumeDescriptor(f: ImageFile) returns (r: Result<Sector, IsoError>)
    ensures r == PrimaryFrom(f.bytes, 16)
  {
    var lba := 16;
    while lba < 32
      invariant 16 <= lba <= 32
      invariant PrimaryFrom(f.bytes, 16) == PrimaryFrom(f.bytes, lba)
    {
      var s := f.ReadSector(lba);
      if s.None? {
        return Err(ShortRead(lba));
      }
      if !MagicOf(s.value).CD001? {
        break;
      }
      if s.value[0] == 1 {
        return Ok(s.value);
      }
      if s.value[0] == 255 {
        break;
      }
      lba := lba + 1;
    }
    return Err(NoPrimaryVolumeDescriptor);
  }

  // ----- Directory records

  /** The key an entry is listed under: its name without the version, in upper case. */
  function Key(name: seq<byte>): seq<byte> {
    Upper(Split(name, 0x3B)[0])
  }

  /** The key of a name with a version, and of one without. */
  lemma VersionIsCutOff(base: seq<byte>, version: seq<byte>)
    requires 0x3B !in base
    ensures Key(base) == Upper(base) && Key(base + ([0x3B] + version)) == Upper(base)
  {
    SplitFree(base, 0x3B);
    SplitFirst(base, version, 0x3B);
  }

  /** "boot.wim;1" is listed as "BOOT.WIM". */
  lemma KeyOfBootWim()
    ensures Key([0x62, 0x6F, 0x6F, 0x74, 0x2E, 0x77, 0x69, 0x6D, 0x3B, 0x31])
            == [0x42, 0x4F, 0x4F, 0x54, 0x2E, 0x57, 0x49, 0x4D]
  {
    var base: seq<byte> := [0x62, 0x6F, 0x6F, 0x74, 0x2E, 0x77, 0x69, 0x6D];
    VersionIsCutOff(base, [0x31]);
    assert base + ([0x3B] + [0x31]) == [0x62, 0x6F, 0x6F, 0x74, 0x2E, 0x77, 0x69, 0x6D, 0x3B, 0x31];
    assert Upper(base) == [0x42, 0x4F, 0x4F, 0x54, 0x2E, 0x57, 0x49, 0x4D];
  }

  /** Whether name denotes the directory itself or its parent. */
  predicate IsDotName(name: seq<byte>) {
    name == [0] || name == [1]
  }

  lemma DotNames(name: seq<byte>)
    ensures IsDotName(name) <==> |name| == 1 && name[0] <= 1
  {
  }

  /** The fields the reader looks at lie inside the directory. */
  predicate IsRecordAt(data: seq<byte>, i: nat) {
    i + 33 <= |data| && data[i] >= 33 && i + 33 + data[i + 32] <= |data|
  }

  function NameAt(data: seq<byte>, i: nat): seq<byte>
    requires IsRecordAt(data, i)
  {
    data[i + 33..i + 33 + data[i + 32]]
  }

  function EntryAt(data: seq<byte>, i: nat): DirEntry
    requires IsRecordAt(data, i)
  {
    DirEntry(Le32(data, i + 2), Le32(data, i + 10), data[i + 25] / 2 % 2 == 1)
  }

  /** Enters the record at offset i, unless it is one of the two dot records; a later
      record replaces an earlier one with the same key. */
  function Entered(entries: map<seq<byte>, DirEntry>, data: seq<byte>, i: nat): map<seq<byte>, DirEntry>
    requires IsRecordAt(data, i)
  {
    var name := NameAt(data, i);
    if IsDotName(name) then entries else entries[Key(name) := EntryAt(data, i)]
  }

  function NextSector(i: nat): (r: nat)
    ensures i < r <= i + 2048
  {
    (i / 2048 + 1) * 2048
  }

  /** The offsets at which the reader finds records, from offset i on. */
  function StartsFrom(data: seq<byte>, i: nat): Result<seq<nat>, IsoError>
    decreases |data| - i
  {
    if i >= |data| then Ok([])
    else if data[i] == 0 then StartsFrom(data, NextSector(i))
    else if i + data[i] > |data| then Ok([])
    else if !IsRecordAt(data, i) then Err(Malformed)
    else Prepended(i, StartsFrom(data, i + data[i]))
  }

  function Prepended(i: nat, rest: Result<seq<nat>, IsoError>): Result<seq<nat>, IsoError> {
    match rest
    case Ok(tail) => Ok([i] + tail)
    case Err(e) => Err(e)
  }

  ghost predicate AreRecords(data: seq<byte>, starts: seq<nat>) {
    forall k :: 0 <= k < |starts| ==> IsRecordAt(data, starts[k])
  }

  /** Entering the records at the given offsets, in order. */
  ghost function EnteredAll(data: seq<byte>, starts: seq<nat>): map<seq<byte>, DirEntry>
    requires AreRecords(data, starts)
  {
    if |starts| == 0 then map[]
    else Entered(EnteredAll(data, starts[..|starts| - 1]), data, starts[|starts| - 1])
  }

  lemma {:induction false} StartsAreRecords(data: seq<byte>, i: nat)
    ensures StartsFrom(data, i).Ok? ==> AreRecords(data, StartsFrom(data, i).value)
    decreases |data| - i
  {
    if i < |data| {
      if data[i] == 0 {
        StartsAreRecords(data, NextSector(i));
      } else if i + data[i] <= |data| && IsRecordAt(data, i) {
        StartsAreRecords(data, i + data[i]);
      }
    }
  }

  predicate RegionReadable(img: seq<byte>, extent: uint32, size: uint32) {
    size == 0 || extent as nat * 2048 + size <= |img|
  }

  function Region(img: seq<byte>, extent: uint32, size: uint32): (r: seq<byte>)
    requires RegionReadable(img, extent, size)
    ensures |r| == size
  {
    if size == 0 then [] else img[extent as nat * 2048..extent as nat * 2048 + size]
  }

  /** What a directory's bytes list. */
  ghost function Listed(data: seq<byte>): Result<map<seq<byte>, DirEntry>, IsoError> {
    match StartsFrom(data, 0)
    case Ok(starts) => (StartsAreRecords(data, 0); Ok(EnteredAll(data, starts)))
    case Err(e) => Err(e)
  }

  ghost function Listing(img: seq<byte>, extent: uint32, size: uint32): Result<map<seq<byte>, DirEntry>, IsoError> {
    if !RegionReadable(img, extent, size) then Err(ShortRead(extent))
    else Listed(Region(img, extent, size))
  }

  method ReadDirectoryRecords(f: ImageFile, extent: uint32, size: uint32)
    returns (r: Result<map<seq<byte>, DirEntry>, IsoError>)
    ensures r == Listing(f.bytes, extent, size)
  {
    if !RegionReadable(f.bytes, extent, size) {
      return Err(ShortRead(extent));
    }
    r := ParseRecords(Region(f.bytes, extent, size));
  }

  method ParseRecords(data: seq<byte>) returns (r: Result<map<seq<byte>, DirEntry>, IsoError>)
    ensures r == Listed(data)
  {
    var entries := map[];
    ghost var seen: seq<nat> := [];
    var i := 0;
    while i < |data|
      invariant 0 <= i && IsParsed(data, seen, i, entries)
      decreases |data| - i
    {
      var recLen := data[i];
      if recLen == 0 {
        ParsingSkips(data, seen, i, entries);
        i := (i / 2048 + 1) * 2048;
      } else if i + recLen > |data| {
        break;
      } else if recLen < 33 || i + 33 + data[i + 32] > |data| {
        ParsingFails(data, seen, i, entries);
        return Err(Malformed);
      } else {
        ReadOneMore(data, seen, i);
        entries := WithRecord(entries, data, i);
        seen := seen + [i];
        i := i + recLen;
      }
    }
    ParsingEnds(data, seen, i, entries);
    return Ok(entries);
  }

  /** The records before offset i are those at the offsets seen. */
  ghost predicate ReadUpTo(data: seq<byte>, seen: seq<nat>, i: nat) {
    && AreRecords(data, seen)
    && StartsFrom(data, 0) == After(seen, StartsFrom(data, i))
  }

  ghost predicate IsParsed(data: seq<byte>, seen: seq<nat>, i: nat, entries: map<seq<byte>, DirEntry>) {
    ReadUpTo(data, seen, i) && entries == EnteredAll(data, seen)
  }

  lemma ParsingSkips(data: seq<byte>, seen: seq<nat>, i: nat, entries: map<seq<byte>, DirEntry>)
    requires i < |data| && data[i] == 0 && IsParsed(data, seen, i, entries)
    ensures IsParsed(data, seen, NextSector(i), entries)
  {
  }

  lemma ParsingFails(data: seq<byte>, seen: seq<nat>, i: nat, entries: map<seq<byte>, DirEntry>)
    requires i < |data| && data[i] != 0 && i + data[i] <= |data| && !IsRecordAt(data, i)
    requires IsParsed(data, seen, i, entries)
    ensures Listed(data) == Err(Malformed)
  {
  }

  lemma ParsingEnds(data: seq<byte>, seen: seq<nat>, i: nat, entries: map<seq<byte>, DirEntry>)
    requires StartsFrom(data, i) == Ok([]) && IsParsed(data, seen, i, entries)
    ensures Listed(data) == Ok(entries)
  {
  }

  lemma ReadOneMore(data: seq<byte>, seen: seq<nat>, i: nat)
    requires ReadUpTo(data, seen, i) && IsRecordAt(data, i) && i + data[i] <= |data|
    ensures ReadUpTo(data, seen + [i], i + data[i])
    ensures EnteredAll(data, seen + [i]) == Entered(EnteredAll(data, seen), data, i)
  {
    AfterPrepended(seen, i, StartsFrom(data, i + data[i]));
    assert (seen + [i])[..|seen|] == seen;
  }

  ghost function After(seen: seq<nat>, rest: Result<seq<nat>, IsoError>): (r: Result<seq<nat>, IsoError>)
    ensures seen == [] ==> r == rest
    ensures rest == Ok([]) ==> r == Ok(seen)
  {
    match rest
    case Ok(tail) =>
      assert seen == [] ==> seen + tail == tail;
      assert tail == [] ==> seen + tail == seen;
      Ok(seen + tail)
    case Err(e) => Err(e)
  }

  lemma AfterPrepended(seen: seq<nat>, i: nat, rest: Result<seq<nat>, IsoError>)
    ensures After(seen, Prepended(i, rest)) == After(seen + [i], rest)
  {
    if rest.Ok? {
      assert seen + ([i] + rest.value) == seen + [i] + rest.value;
    }
  }

  method WithRecord(entries: map<seq<byte>, DirEntry>, data: seq<byte>, i: nat)
    returns (r: map<seq<byte>, DirEntry>)
    requires IsRecordAt(data, i)
    ensures r == Entered(entries, data, i)
  {
    var name := data[i + 33..i + 33 + data[i + 32]];
    if name != [0] && name != [1] {
      var key := Upper(Split(name, 0x3B)[0]);
      r := entries[key := DirEntry(Le32(data, i + 2), Le32(data, i + 10), data[i + 25] / 2 % 2 == 1)];
    } else {
      r := entries;
    }
  }

  // ----- Laying a directory out (ECMA-119 section 6.8.1)

  /** A record that states its own length and keeps its name inside itself. */
  predicate WellFormed(rec: seq<byte>) {
    |rec| >= 33 && rec[0] == |rec| && 33 + rec[32] <= |rec|
  }

  type Record = rec: seq<byte> | WellFormed(rec) witness [33] + seq(32, _ => 0)

  ghost predicate HoldsRecord(data: seq<byte>, i: nat, rec: Record) {
    i + |rec| <= |data| && data[i..i + |rec|] == rec
  }

  /** Zero fill between two records: none, or up to a sector boundary. */
  ghost predicate ZeroFill(data: seq<byte>, from: nat, to: nat) {
    && from <= to <= |data|
    && IsZero(data[from..to])
    && (from < to ==> to % 2048 == 0)
  }

  /** Where record k of a layout ends; "record -1" ends at offset 0. */
  ghost function EndOf(recs: seq<Record>, starts: seq<nat>, k: int): nat
    requires -1 <= k < |recs| == |starts|
  {
    if k == -1 then 0 else starts[k] + |recs[k]|
  }

  ghost predicate ZeroFillBefore(data: seq<byte>, recs: seq<Record>, starts: seq<nat>, k: nat)
    requires k < |recs| == |starts|
  {
    ZeroFill(data, EndOf(recs, starts, k - 1), starts[k])
  }

  /** The records lie in order at the given offsets, with only zero fill around them. */
  ghost predicate LaidOut(data: seq<byte>, recs: seq<Record>, starts: seq<nat>) {
    && |starts| == |recs|
    && (forall k :: 0 <= k < |recs| ==> HoldsRecord(data, starts[k], recs[k]))
    && (forall k {:trigger ZeroFillBefore(data, recs, starts, k)} ::
          0 <= k < |recs| ==> ZeroFillBefore(data, recs, starts, k))
    && EndOf(recs, starts, |recs| - 1) <= |data|
    && IsZero(data[EndOf(recs, starts, |recs| - 1)..])
  }

  lemma {:induction false} ZeroFillIsSkipped(data: seq<byte>, from: nat, to: nat)
    requires ZeroFill(data, from, to)
    ensures StartsFrom(data, from) == StartsFrom(data, to)
    decreases |data| - from
  {
    if from < to {
      assert data[from] == data[from..to][0] == 0;
      assert NextSector(from) <= to;
      ZeroFillIsSkipped(data, NextSector(from), to);
    }
  }

  lemma {:induction false} ZeroTailIsSkipped(data: seq<byte>, from: nat)
    requires from <= |data| && IsZero(data[from..])
    ensures StartsFrom(data, from) == Ok([])
    decreases |data| - from
  {
    if from < |data| {
      assert data[from] == data[from..][0] == 0;
      if NextSector(from) < |data| {
        ZeroTailIsSkipped(data, NextSector(from));
      }
    }
  }

  lemma HeldRecordIsFound(data: seq<byte>, i: nat, rec: Record)
    requires HoldsRecord(data, i, rec)
    ensures IsRecordAt(data, i)
    ensures StartsFrom(data, i) == Prepended(i, StartsFrom(data, i + |rec|))
  {
    assert data[i] == rec[0] && data[i + 32] == rec[32];
  }

  lemma ReadingTakesOneRecord(data: seq<byte>, recs: seq<Record>, starts: seq<nat>, k: nat)
    requires LaidOut(data, recs, starts) && k < |recs|
    ensures StartsFrom(data, EndOf(recs, starts, k - 1))
            == Prepended(starts[k], StartsFrom(data, EndOf(recs, starts, k)))
  {
    assert ZeroFillBefore(data, recs, starts, k);
    ZeroFillIsSkipped(data, EndOf(recs, starts, k - 1), starts[k]);
    HeldRecordIsFound(data, starts[k], recs[k]);
  }

  lemma FirstOfTail(starts: seq<nat>, k: nat)
    requires k < |starts|
    ensures [starts[k]] + starts[k + 1..] == starts[k..]
  {
  }

  /** Reading inverts the layout: the reader stops exactly where records were laid. */
  lemma {:induction false} ReadingInvertsLayout(data: seq<byte>, recs: seq<Record>, starts: seq<nat>, k: nat)
    requires LaidOut(data, recs, starts) && k <= |recs|
    ensures StartsFrom(data, EndOf(recs, starts, k - 1)) == Ok(starts[k..])
    decreases |recs| - k
  {
    if k == |recs| {
      ZeroTailIsSkipped(data, EndOf(recs, starts, k - 1));
      assert starts[k..] == [];
    } else {
      ReadingTakesOneRecord(data, recs, starts, k);
      ReadingInvertsLayout(data, recs, starts, k + 1);
      FirstOfTail(starts, k);
    }
  }

  // ----- What a laid-out directory lists

  /** Entering a list of records, in order. */
  ghost function RecordTable(recs: seq<Record>): map<seq<byte>, DirEntry> {
    if |recs| == 0 then map[]
    else Entered(RecordTable(recs[..|recs| - 1]), recs[|recs| - 1], 0)
  }

  lemma HeldRecordEnters(data: seq<byte>, i: nat, rec: Record, entries: map<seq<byte>, DirEntry>)
    requires HoldsRecord(data, i, rec)
    ensures IsRecordAt(data, i) && Entered(entries, data, i) == Entered(entries, rec, 0)
  {
    HeldRecordIsFound(data, i, rec);
    assert forall k :: 0 <= k < |rec| ==> data[i + k] == rec[k];
    assert NameAt(data, i) == NameAt(rec, 0);
    HeldFields(data, i, rec);
  }

  lemma HeldFields(data: seq<byte>, i: nat, rec: Record)
    requires HoldsRecord(data, i, rec) && IsRecordAt(data, i)
    ensures EntryAt(data, i) == EntryAt(rec, 0)
  {
    var held := data[i..i + |rec|];
    assert data[i + 2] == held[2] && data[i + 3] == held[3] && data[i + 4] == held[4] && data[i + 5] == held[5];
    assert data[i + 10] == held[10] && data[i + 11] == held[11] && data[i + 12] == held[12] && data[i + 13] == held[13];
    assert data[i + 25] == held[25];
  }

  lemma {:induction false} HeldRecordsEnter(data: seq<byte>, recs: seq<Record>, starts: seq<nat>)
    requires |starts| == |recs|
    requires forall k :: 0 <= k < |recs| ==> HoldsRecord(data, starts[k], recs[k])
    ensures AreRecords(data, starts) && EnteredAll(data, starts) == RecordTable(recs)
  {
    if |recs| > 0 {
      var n := |recs| - 1;
      HeldRecordsEnter(data, recs[..n], starts[..n]);
      HeldRecordEnters(data, starts[n], recs[n], RecordTable(recs[..n]));
      assert forall k :: 0 <= k < n ==> starts[..n][k] == starts[k];
    }
  }

  /** A laid-out directory lists exactly its records: nothing is missed, nothing invented. */
  lemma LaidOutDirectoryListsItsRecords(data: seq<byte>, recs: seq<Record>, starts: seq<nat>)
    requires LaidOut(data, recs, starts)
    ensures Listed(data) == Ok(RecordTable(recs))
  {
    ReadingInvertsLayout(data, recs, starts, 0);
    assert starts[0..] == starts;
    HeldRecordsEnter(data, recs, starts);
  }

  // ----- One record (ECMA-119 section 9.1)

  function PutBe32(n: uint32): (s: seq<byte>)
    ensures |s| == 4
  {
    var le := PutLe32(n);
    [le[3], le[2], le[1], le[0]]
  }

  /** A directory record with both-endian extent and size, padded to even length before
      the system use field. */
  function EncodeRecord(name: seq<byte>, entry: DirEntry, date: seq<byte>, systemUse: seq<byte>): (rec: seq<byte>)
    requires |date| == 7 && 33 + |name| + 1 + |systemUse| <= 255
    ensures |rec| >= 33 + |name|
  {
    var pad := if |name| % 2 == 0 then 1 else 0;
    var flags: byte := if entry.isDir then 2 else 0;
    [33 + |name| + pad + |systemUse|, 0]
    + PutLe32(entry.extent) + PutBe32(entry.extent)
    + PutLe32(entry.size) + PutBe32(entry.size)
    + date
    + [flags, 0, 0, 1, 0, 0, 1, |name|]
    + name + seq(pad, _ => 0) + systemUse
  }

  /** The reader recovers the name and the entry of an encoded record. */
  lemma EncodedRecordReadsBack(name: seq<byte>, entry: DirEntry, date: seq<byte>, systemUse: seq<byte>)
    requires |date| == 7 && 33 + |name| + 1 + |systemUse| <= 255
    ensures var rec := EncodeRecord(name, entry, date, systemUse);
            WellFormed(rec) && NameAt(rec, 0) == name && EntryAt(rec, 0) == entry
  {
    var rec := EncodeRecord(name, entry, date, systemUse);
    var extent, size := PutLe32(entry.extent), PutLe32(entry.size);
    assert rec[2] == extent[0] && rec[3] == extent[1] && rec[4] == extent[2] && rec[5] == extent[3];
    assert rec[10] == size[0] && rec[11] == size[1] && rec[12] == size[2] && rec[13] == size[3];
    assert rec[32] == |name|;
    assert rec[33..33 + |name|] == name;
  }
}
