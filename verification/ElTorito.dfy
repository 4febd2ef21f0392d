/**
 * El Torito boot records and boot catalogs (El Torito specification 1.0, sections 2.0 to 2.2):
 * finding and reading those of an image, and building a catalog.
 */
module ElTorito {
  import opened Bytes
  import opened Wrappers
  import opened ImageFile

  datatype Magic = CD001 | BEA01 | NSR02 | NSR03 | TEA01 | BOOT2 | Foreign

  const EL_TORITO_ID: seq<byte> := // "EL TORITO SPECIFICATION"
    [0x45, 0x4C, 0x20, 0x54, 0x4F, 0x52, 0x49, 0x54, 0x4F, 0x20, 0x53, 0x50,
     0x45, 0x43, 0x49, 0x46, 0x49, 0x43, 0x41, 0x54, 0x49, 0x4F, 0x4E]

  const WINKIT_ID: seq<byte> := [0x77, 0x69, 0x6E, 0x6B, 0x69, 0x74] // "winkit"

  /** The sector claimed for an injected boot catalog. */
  const CATALOG_LBA: uint32 := 15

  datatype Error =
    | ReadFailed(lba: nat)
    | NoBootRecord
    | BadValidationEntry
    | NotEfi(platformID: byte)
    | NotBootable
    | EmptyBootImage
    | CatalogSectorInUse
    | UnexpectedUdfLayout
    | NoRoomToShift
    | AlreadyBootable
    | UnsupportedLayout

  datatype ElToritoInfo = ElToritoInfo(platformID: byte, bootable: bool, loadRBA: uint32, sectorCount: uint16)

  /** The five-byte identifier at offset 1 of a volume structure descriptor. */
  function MagicOf(s: Sector): Magic {
    if HasTag(s, 0x43, 0x44, 0x30, 0x30, 0x31) then CD001
    else if HasTag(s, 0x42, 0x45, 0x41, 0x30, 0x31) then BEA01
    else if HasTag(s, 0x4E, 0x53, 0x52, 0x30, 0x32) then NSR02
    else if HasTag(s, 0x4E, 0x53, 0x52, 0x30, 0x33) then NSR03
    else if HasTag(s, 0x54, 0x45, 0x41, 0x30, 0x31) then TEA01
    else if HasTag(s, 0x42, 0x4F, 0x4F, 0x54, 0x32) then BOOT2
    else Foreign
  }

  predicate HasTag(s: Sector, b1: byte, b2: byte, b3: byte, b4: byte, b5: byte) {
    s[1] == b1 && s[2] == b2 && s[3] == b3 && s[4] == b4 && s[5] == b5
  }

  lemma TagBytes(s: Sector)
    ensures s[1..6] == [s[1], s[2], s[3], s[4], s[5]]
  {
  }

  /** The five bytes after a sector's first one. */
  predicate TaggedAt(img: seq<byte>, lba: nat, tag: seq<byte>)
    requires |tag| == 5
  {
    Readable(img, lba) && img[lba * 2048 + 1..lba * 2048 + 6] == tag
  }

  lemma TaggedLikeMagic(img: seq<byte>, lba: nat, b1: byte, b2: byte, b3: byte, b4: byte, b5: byte)
    ensures TaggedAt(img, lba, [b1, b2, b3, b4, b5]) <==>
            Readable(img, lba) && HasTag(SectorAt(img, lba), b1, b2, b3, b4, b5)
  {
    if Readable(img, lba) {
      SliceOfSector(img, lba, 1, 6);
      TagBytes(SectorAt(img, lba));
    }
  }

  predicate IsUdfRecognitionMagic(m: Magic) {
    m.BEA01? || m.NSR02? || m.NSR03? || m.TEA01? || m.BOOT2?
  }

  predicate IsBootRecord(s: Sector) {
    MagicOf(s).CD001? && s[0] == 0 && s[7..30] == EL_TORITO_ID
  }

  predicate IsSetTerminator(s: Sector) {
    MagicOf(s).CD001? && s[0] == 255
  }

  // ----- Finding the boot record

  /** Whether a scan for the boot record moves on past this sector. Only a scan that
      skips the UDF recognition sequence gets past a UDF magic. */
  predicate Passable(s: Sector, skipUdf: bool) {
    if MagicOf(s).CD001? then !IsBootRecord(s) && !IsSetTerminator(s)
    else skipUdf && IsUdfRecognitionMagic(MagicOf(s))
  }

  /** Which sectors are passed when UDF ones are skipped, by the five bytes at offset 1. */
  lemma PassableByTag(s: Sector)
    ensures Passable(s, true) <==>
            || (s[1..6] == [0x43, 0x44, 0x30, 0x30, 0x31] && s[0] != 255 && !(s[0] == 0 && s[7..30] == EL_TORITO_ID))
            || s[1..6] == [0x42, 0x45, 0x41, 0x30, 0x31]
            || s[1..6] == [0x4E, 0x53, 0x52, 0x30, 0x32] || s[1..6] == [0x4E, 0x53, 0x52, 0x30, 0x33]
            || s[1..6] == [0x54, 0x45, 0x41, 0x30, 0x31] || s[1..6] == [0x42, 0x4F, 0x4F, 0x54, 0x32]
  {
    TagBytes(s);
  }

  function CatalogPointer(s: Sector): uint32 {
    Le32(s, 0x47)
  }

  /** The boot catalog's sector, taken from the first boot record at or after lba. */
  function CatalogFrom(img: seq<byte>, lba: nat, limit: nat, skipUdf: bool): Result<uint32, Error>
    decreases limit - lba
  {
    if lba >= limit then Err(NoBootRecord)
    else if !Readable(img, lba) then Err(ReadFailed(lba))
    else
      var s := SectorAt(img, lba);
      if IsBootRecord(s) then Ok(CatalogPointer(s))
      else if Passable(s, skipUdf) then CatalogFrom(img, lba + 1, limit, skipUdf)
      else Err(NoBootRecord)
  }

  /** A scan succeeds exactly when some boot record in range has only passable
      sectors before it, and it yields the catalog named by that record. */
  lemma {:induction false} CatalogFromFindsFirstRecord(img: seq<byte>, lba: nat, limit: nat, skipUdf: bool, c: uint32)
    ensures CatalogFrom(img, lba, limit, skipUdf) == Ok(c) <==>
            exists k: nat :: lba <= k < limit && FirstRecordAt(img, lba, k, skipUdf) &&
              CatalogPointer(SectorAt(img, k)) == c
    decreases limit - lba
  {
    if lba < limit && Readable(img, lba) {
      var s := SectorAt(img, lba);
      if IsBootRecord(s) {
        assert FirstRecordAt(img, lba, lba, skipUdf);
        assert !Passable(s, skipUdf);
        forall k: nat | lba < k ensures !FirstRecordAt(img, lba, k, skipUdf) {
        }
      } else {
        CatalogFromFindsFirstRecord(img, lba + 1, limit, skipUdf, c);
        forall k: nat | lba < k
          ensures FirstRecordAt(img, lba, k, skipUdf)
                  <==> Passable(s, skipUdf) && FirstRecordAt(img, lba + 1, k, skipUdf)
        {
        }
      }
    }
  }

  /** Sector k is a boot record that a scan starting at lba reaches. */
  ghost predicate FirstRecordAt(img: seq<byte>, lba: nat, k: nat, skipUdf: bool) {
    && Readable(img, k)
    && IsBootRecord(SectorAt(img, k))
    && forall j: nat :: lba <= j < k ==> Passable(SectorAt(img, j), skipUdf)
  }

  method FindCatalog(f: ImageFile, limit: nat, skipUdf: bool) returns (r: Result<uint32, Error>)
    ensures r == CatalogFrom(f.bytes, 16, limit, skipUdf)
  {
    var lba := 16;
    while lba < limit
      invariant 16 <= lba
      invariant CatalogFrom(f.bytes, 16, limit, skipUdf) == CatalogFrom(f.bytes, lba, limit, skipUdf)
    {
      var read := f.ReadSector(lba);
      if read.None? {
        return Err(ReadFailed(lba));
      }
      var s := read.value;
      if !MagicOf(s).CD001? {
        if !(skipUdf && IsUdfRecognitionMagic(MagicOf(s))) {
          return Err(NoBootRecord);
        }
      } else if s[0] == 0 && s[7..30] == EL_TORITO_ID {
        return Ok(Le32(s, 0x47));
      } else if s[0] == 255 {
        return Err(NoBootRecord);
      }
      lba := lba + 1;
    }
    return Err(NoBootRecord);
  }

  // ----- Reading the boot entry

  function ReadCatalog(img: seq<byte>, lba: nat): Result<ElToritoInfo, Error> {
    if !Readable(img, lba) then Err(ReadFailed(lba))
    else
      var cat := SectorAt(img, lba);
      if cat[0] != 0x01 || cat[0x1E] != 0x55 || cat[0x1F] != 0xAA then Err(BadValidationEntry)
      else Ok(ElToritoInfo(cat[1], cat[0x20] == 0x88, Le32(cat, 0x28), Le16(cat, 0x26)))
  }

  function Inspect(img: seq<byte>): Result<ElToritoInfo, Error> {
    match CatalogFrom(img, 16, 64, true)
    case Ok(lba) => ReadCatalog(img, lba)
    case Err(e) => Err(e)
  }

  method InspectElTorito(f: ImageFile) returns (r: Result<ElToritoInfo, Error>)
    ensures r == Inspect(f.bytes)
  {
    var lba := FindCatalog(f, 64, true);
    if lba.Err? {
      return Err(lba.error);
    }
    var read := f.ReadSector(lba.value);
    if read.None? {
      return Err(ReadFailed(lba.value));
    }
    var cat := read.value;
    if cat[0] != 0x01 || cat[0x1E] != 0x55 || cat[0x1F] != 0xAA {
      return Err(BadValidationEntry);
    }
    var entry := cat[0x20..0x40];
    return Ok(ElToritoInfo(cat[1], entry[0] == 0x88, Le32(entry, 8), Le16(entry, 6)));
  }

  /** None means that firmware can boot the image. */
  function EfiBootProblem(img: seq<byte>): Option<Error> {
    match Inspect(img)
    case Err(e) => Some(e)
    case Ok(info) =>
      if info.platformID != 0xEF then Some(NotEfi(info.platformID))
      else if !info.bootable then Some(NotBootable)
      else None
  }

  /** The sector of the first boot record among sectors 16 to 63. */
  ghost predicate FirstRecordIs(img: seq<byte>, k: nat) {
    16 <= k < 64 && FirstRecordAt(img, 16, k, true)
  }

  /** The catalog at lba has a valid header, and its default entry is a bootable EFI one. */
  ghost predicate IsEfiCatalog(img: seq<byte>, lba: nat) {
    && Readable(img, lba)
    && img[lba * 2048] == 0x01 && img[lba * 2048 + 0x1E] == 0x55 && img[lba * 2048 + 0x1F] == 0xAA
    && img[lba * 2048 + 1] == 0xEF && img[lba * 2048 + 0x20] == 0x88
  }

  /** Firmware boots an image whose first boot record names such a catalog. */
  ghost predicate IsEfiBootable(img: seq<byte>) {
    exists k: nat :: FirstRecordIs(img, k) && IsEfiCatalog(img, CatalogPointer(SectorAt(img, k)))
  }

  lemma ScanFromFirstRecord(img: seq<byte>, k: nat)
    requires FirstRecordIs(img, k)
    ensures CatalogFrom(img, 16, 64, true) == Ok(CatalogPointer(SectorAt(img, k)))
  {
    CatalogFromFindsFirstRecord(img, 16, 64, true, CatalogPointer(SectorAt(img, k)));
  }

  /** What is wrong with an image whose first boot record is known, from the bytes of the catalog
      it names: the first fault in this order. */
  lemma BootFaultOfCatalog(img: seq<byte>, k: nat, lba: nat)
    requires FirstRecordIs(img, k) && CatalogPointer(SectorAt(img, k)) == lba
    ensures !Readable(img, lba) ==> EfiBootProblem(img) == Some(ReadFailed(lba))
    ensures Readable(img, lba) ==>
              var at := lba * 2048;
              if img[at] != 0x01 || img[at + 0x1E] != 0x55 || img[at + 0x1F] != 0xAA then
                EfiBootProblem(img) == Some(BadValidationEntry)
              else if img[at + 1] != 0xEF then EfiBootProblem(img) == Some(NotEfi(img[at + 1]))
              else if img[at + 0x20] != 0x88 then EfiBootProblem(img) == Some(NotBootable)
              else EfiBootProblem(img) == None
  {
    ScanFromFirstRecord(img, k);
  }

  /** Without a boot record that the scan reaches, the fault is the first sector it cannot read, if
      only passable ones precede that, and otherwise the missing record. */
  lemma BootFaultWithoutRecord(img: seq<byte>)
    requires forall k: nat :: !FirstRecordIs(img, k)
    ensures EfiBootProblem(img) == Some(NoBootRecord) || exists j: nat :: StopsUnread(img, j)
    ensures forall j: nat :: StopsUnread(img, j) ==> EfiBootProblem(img) == Some(ReadFailed(j))
  {
    var scan := CatalogFrom(img, 16, 64, true);
    if scan.Ok? {
      CatalogFromFindsFirstRecord(img, 16, 64, true, scan.value);
      var k: nat :| 16 <= k < 64 && FirstRecordAt(img, 16, k, true);
      assert FirstRecordIs(img, k);
    } else {
      ScanStops(img, 16);
      forall j: nat | StopsUnread(img, j) ensures scan == Err(ReadFailed(j)) {
        ScanReaches(img, 16, j);
      }
    }
  }

  /** The scan gets to sector j and cannot read it. */
  ghost predicate StopsUnread(img: seq<byte>, j: nat) {
    16 <= j < 64 && !Readable(img, j) && forall i: nat :: 16 <= i < j ==> IsPassableAt(img, i)
  }

  ghost predicate IsPassableAt(img: seq<byte>, lba: nat) {
    Readable(img, lba) && Passable(SectorAt(img, lba), true)
  }

  lemma {:induction false} ScanStops(img: seq<byte>, lba: nat)
    requires 16 <= lba <= 64 && forall i: nat :: 16 <= i < lba ==> IsPassableAt(img, i)
    requires CatalogFrom(img, lba, 64, true).Err?
    ensures CatalogFrom(img, lba, 64, true) == Err(NoBootRecord) || exists j: nat :: StopsUnread(img, j)
    decreases 64 - lba
  {
    if lba < 64 {
      if !Readable(img, lba) {
        assert StopsUnread(img, lba);
      } else if Passable(SectorAt(img, lba), true) {
        assert IsPassableAt(img, lba);
        ScanStops(img, lba + 1);
      }
    }
  }

  lemma {:induction false} ScanReaches(img: seq<byte>, lba: nat, j: nat)
    requires 16 <= lba <= j && StopsUnread(img, j)
    ensures CatalogFrom(img, lba, 64, true) == Err(ReadFailed(j))
    decreases j - lba
  {
    if lba < j {
      assert IsPassableAt(img, lba);
      ScanReaches(img, lba + 1, j);
    }
  }

  /** The check accepts exactly the images that firmware boots. */
  lemma NoProblemIffBootable(img: seq<byte>)
    ensures EfiBootProblem(img) == None <==> IsEfiBootable(img)
  {
    if k: nat :| FirstRecordIs(img, k) {
      var lba := CatalogPointer(SectorAt(img, k));
      BootFaultOfCatalog(img, k, lba);
      ScanFromFirstRecord(img, k);
      forall j: nat | FirstRecordIs(img, j) ensures CatalogPointer(SectorAt(img, j)) == lba {
        ScanFromFirstRecord(img, j);
      }
    } else {
      BootFaultWithoutRecord(img);
    }
  }

  method RequireEFIBootable(f: ImageFile) returns (r: Option<Error>)
    ensures r == EfiBootProblem(f.bytes)
    ensures r == None <==> IsEfiBootable(f.bytes)
  {
    NoProblemIffBootable(f.bytes);
    var info := InspectElTorito(f);
    if info.Err? {
      return Some(info.error);
    }
    if info.value.platformID != 0xEF {
      return Some(NotEfi(info.value.platformID));
    }
    if !info.value.bootable {
      return Some(NotBootable);
    }
    return None;
  }

  // ----- The boot catalog

  /** Sum of the first n 16-bit words. */
  function WordSum(s: seq<byte>, n: nat): int
    requires 2 * n <= |s|
  {
    if n == 0 then 0 else WordSum(s, n - 1) + Le16(s, 2 * n - 2)
  }

  /** Changing one word changes the sum by the difference. */
  lemma {:induction false} WordSumUpdate(s: seq<byte>, t: seq<byte>, k: nat, n: nat)
    requires |s| == |t| && 2 * n <= |s| && 2 * k + 2 <= |s|
    requires forall i :: 0 <= i < |s| && i != 2 * k && i != 2 * k + 1 ==> s[i] == t[i]
    ensures WordSum(t, n) == WordSum(s, n) + if k < n then Le16(t, 2 * k) - Le16(s, 2 * k) else 0
  {
    if n > 0 {
      WordSumUpdate(s, t, k, n - 1);
    }
  }

  /** The number of 512-byte virtual sectors the firmware is told to load. */
  function VirtualSectors(imageLength: nat): uint16 {
    var n := (imageLength + 511) / 512;
    if n > 0xFFFF then 0xFFFF else n
  }

  /** A catalog whose default entry boots a no-emulation EFI image. */
  ghost predicate IsBootCatalog(cat: Sector, loadRBA: uint32, sectorCount: uint16) {
    // validation entry
    && cat[0] == 0x01 && cat[1] == 0xEF && cat[2] == cat[3] == 0
    && cat[4..10] == WINKIT_ID
    && IsZero(cat[10..0x1C])
    && cat[0x1E] == 0x55 && cat[0x1F] == 0xAA
    && WordSum(cat, 16) % 0x1_0000 == 0
    // default entry
    && cat[0x20] == 0x88 && IsZero(cat[0x21..0x26])
    && Le16(cat, 0x26) == sectorCount
    && Le32(cat, 0x28) == loadRBA
    && IsZero(cat[0x2C..])
  }

  lemma WrapAdd(a: int, b: int)
    ensures (a % 0x1_0000 + b) % 0x1_0000 == (a + b) % 0x1_0000
  {
  }

  method WrappingWordSum(entry: seq<byte>) returns (sum: uint16)
    requires |entry| == 32
    ensures sum == WordSum(entry, 16) % 0x1_0000
  {
    sum := 0;
    var i := 0;
    while i < 32
      invariant 0 <= i <= 32 && i % 2 == 0
      invariant sum == WordSum(entry, i / 2) % 0x1_0000
    {
      WrapAdd(WordSum(entry, i / 2), Le16(entry, i));
      sum := (sum as int + Le16(entry, i)) % 0x1_0000;
      i := i + 2;
    }
  }

  /** Completes a validation entry: its checksum word makes all 16 words sum to zero. */
  method SignValidationEntry(entry: seq<byte>) returns (signed: seq<byte>)
    requires |entry| == 32 && entry[0x1C] == entry[0x1D] == 0
    ensures |signed| == 32 && WordSum(signed, 16) % 0x1_0000 == 0
    ensures signed[..0x1C] == entry[..0x1C] && signed[0x1E..] == entry[0x1E..]
  {
    var sum := WrappingWordSum(entry);
    var checksum := Negated16(sum);
    signed := ReplaceWord14(entry, checksum);
    WordSumUpdate(entry, signed, 14, 16);
    assert WordSum(signed, 16) == WordSum(entry, 16) + checksum;
    WrapAdd(WordSum(entry, 16), checksum);
  }

  function Negated16(n: uint16): (r: uint16)
    ensures r == (if n == 0 then 0 else 0x1_0000 - n as int)
  {
    (0x1_0000 - n as int) % 0x1_0000
  }

  function ReplaceWord14(entry: seq<byte>, word: uint16): (r: seq<byte>)
    requires |entry| == 32
    ensures |r| == 32 && Le16(r, 28) == word
    ensures r[..0x1C] == entry[..0x1C] && r[0x1E..] == entry[0x1E..]
    ensures forall i :: 0 <= i < 32 && i != 28 && i != 29 ==> entry[i] == r[i]
  {
    var w := PutLe16(word);
    entry[0x1C := w[0]][0x1D := w[1]]
  }

  method MakeBootCatalog(imageLength: nat, imageLBA: nat) returns (cat: Sector)
    ensures IsBootCatalog(cat, imageLBA % 0x1_0000_0000, VirtualSectors(imageLength))
  {
    var validation := SignValidationEntry([0x01, 0xEF, 0, 0] + WINKIT_ID + seq(18, _ => 0) + [0, 0, 0x55, 0xAA]);
    var virtualSectors := (imageLength + 511) / 512;
    if virtualSectors > 0xFFFF {
      virtualSectors := 0xFFFF;
    }
    cat := CatalogSector(validation, virtualSectors, imageLBA % 0x1_0000_0000);
  }

  /** The validation entry followed by the default entry. */
  function CatalogSector(validation: seq<byte>, sectorCount: uint16, loadRBA: uint32): (cat: Sector)
    requires |validation| == 32 && WordSum(validation, 16) % 0x1_0000 == 0
    requires validation[..0x1C] == [0x01, 0xEF, 0, 0] + WINKIT_ID + seq(18, _ => 0)
    requires validation[0x1E..] == [0x55, 0xAA]
    ensures IsBootCatalog(cat, loadRBA, sectorCount)
  {
    var entry: seq<byte> := [0x88] + seq(5, _ => 0) + PutLe16(sectorCount) + PutLe32(loadRBA);
    var cat := validation + entry + seq(2048 - 44, _ => 0);
    WordSumPrefix(validation, cat, 16);
    DecodesValidation(cat, validation);
    DecodesEntry(cat, validation, entry, loadRBA, sectorCount);
    cat
  }

  lemma DecodesValidation(cat: Sector, validation: seq<byte>)
    requires |validation| == 32 && cat[..32] == validation
    requires validation[..0x1C] == [0x01, 0xEF, 0, 0] + WINKIT_ID + seq(18, _ => 0)
    requires validation[0x1E..] == [0x55, 0xAA]
    ensures cat[0] == 0x01 && cat[1] == 0xEF && cat[2] == cat[3] == 0
    ensures cat[4..10] == WINKIT_ID
    ensures IsZero(cat[10..0x1C])
    ensures cat[0x1E] == 0x55 && cat[0x1F] == 0xAA
  {
    var head := validation[..0x1C];
    assert forall i :: 0 <= i < 0x1C ==> cat[i] == validation[i] == head[i];
    assert validation[0x1E] == validation[0x1E..][0] && validation[0x1F] == validation[0x1E..][1];
    assert forall i :: 10 <= i < 0x1C ==> cat[i] == 0;
  }

  lemma DecodesEntry(cat: Sector, validation: seq<byte>, entry: seq<byte>, loadRBA: uint32, sectorCount: uint16)
    requires |validation| == 32
    requires entry == [0x88] + seq(5, _ => 0) + PutLe16(sectorCount) + PutLe32(loadRBA)
    requires cat == validation + entry + seq(2048 - 44, _ => 0)
    ensures cat[0x20] == 0x88 && IsZero(cat[0x21..0x26])
    ensures Le16(cat, 0x26) == sectorCount
    ensures Le32(cat, 0x28) == loadRBA
    ensures IsZero(cat[0x2C..])
  {
    var c, r := PutLe16(sectorCount), PutLe32(loadRBA);
    assert forall i :: 0 <= i < 12 ==> cat[0x20 + i] == entry[i];
    assert forall i :: 0 <= i < 2 ==> entry[6 + i] == c[i];
    assert forall i :: 0 <= i < 4 ==> entry[8 + i] == r[i];
  }

  lemma {:induction false} WordSumPrefix(s: seq<byte>, t: seq<byte>, n: nat)
    requires 2 * n <= |s| <= |t| && s == t[..|s|]
    ensures WordSum(s, n) == WordSum(t, n)
  {
    if n > 0 {
      WordSumPrefix(s, t, n - 1);
    }
  }
}
