/**
 * Makes an ISO image EFI-bootable in place: a boot record at sector 17, a boot catalog in
 * the system area, the boot image appended at the end of the file.
 */
module EfiBootInjection {
  import opened Bytes
  import opened Wrappers
  import opened ImageFile
  import opened ElTorito

  /** NSR at sector 17 means pure UDF; what follows NSR is shifted down by one sector. */
  predicate IsUdfLayout(img: seq<byte>)
    requires Readable(img, 17)
  {
    var m := MagicOf(SectorAt(img, 17));
    m.NSR02? || m.NSR03?
  }

  /** Why an image cannot be made bootable, or None when it can. */
  function Rejection(img: seq<byte>, bootImage: seq<byte>): Option<Error> {
    if bootImage == [] then Some(EmptyBootImage)
    else if !Readable(img, 15) then Some(ReadFailed(15))
    else if !IsZero(SectorAt(img, 15)) then Some(CatalogSectorInUse)
    else if !Readable(img, 17) then Some(ReadFailed(17))
    else if IsUdfLayout(img) then
      if !Readable(img, 18) then Some(ReadFailed(18))
      else if !MagicOf(SectorAt(img, 18)).TEA01? then Some(UnexpectedUdfLayout)
      else if !Readable(img, 19) then Some(ReadFailed(19))
      else if !IsZero(SectorAt(img, 19)) then Some(NoRoomToShift)
      else None
    else if IsBootRecord(SectorAt(img, 17)) then Some(AlreadyBootable)
    else if !IsSetTerminator(SectorAt(img, 17)) then Some(UnsupportedLayout)
    else if !Readable(img, 18) then Some(ReadFailed(18))
    else None
  }

  const CD001_TAG: seq<byte> := [0x43, 0x44, 0x30, 0x30, 0x31]
  const NSR02_TAG: seq<byte> := [0x4E, 0x53, 0x52, 0x30, 0x32]
  const NSR03_TAG: seq<byte> := [0x4E, 0x53, 0x52, 0x30, 0x33]
  const TEA01_TAG: seq<byte> := [0x54, 0x45, 0x41, 0x30, 0x31]

  /** By the bytes of sectors 15 and 17 to 19: an ISO 9660 image whose descriptors end at sector
      17, or a pure UDF one with NSR and TEA01 at sectors 17 and 18 and room at 19. */
  predicate IsInjectable(img: seq<byte>) {
    && Readable(img, 18) && (forall i :: 15 * 2048 <= i < 16 * 2048 ==> img[i] == 0)
    && ((TaggedAt(img, 17, CD001_TAG) && img[17 * 2048] == 255) ||
        ((TaggedAt(img, 17, NSR02_TAG) || TaggedAt(img, 17, NSR03_TAG)) && TaggedAt(img, 18, TEA01_TAG) &&
         Readable(img, 19) && forall i :: 19 * 2048 <= i < 20 * 2048 ==> img[i] == 0))
  }

  lemma TagsAtSectors(img: seq<byte>)
    ensures TaggedAt(img, 17, CD001_TAG) <==> Readable(img, 17) && MagicOf(SectorAt(img, 17)).CD001?
    ensures TaggedAt(img, 17, NSR02_TAG) <==> Readable(img, 17) && MagicOf(SectorAt(img, 17)).NSR02?
    ensures TaggedAt(img, 17, NSR03_TAG) <==> Readable(img, 17) && MagicOf(SectorAt(img, 17)).NSR03?
    ensures TaggedAt(img, 18, TEA01_TAG) <==> Readable(img, 18) && MagicOf(SectorAt(img, 18)).TEA01?
  {
    TaggedLikeMagic(img, 17, 0x43, 0x44, 0x30, 0x30, 0x31);
    TaggedLikeMagic(img, 17, 0x4E, 0x53, 0x52, 0x30, 0x32);
    TaggedLikeMagic(img, 17, 0x4E, 0x53, 0x52, 0x30, 0x33);
    TaggedLikeMagic(img, 18, 0x54, 0x45, 0x41, 0x30, 0x31);
  }

  lemma ZeroSector(img: seq<byte>, lba: nat)
    requires Readable(img, lba)
    ensures IsZero(SectorAt(img, lba)) <==> forall i :: lba * 2048 <= i < lba * 2048 + 2048 ==> img[i] == 0
  {
    if IsZero(SectorAt(img, lba)) {
      forall i | lba * 2048 <= i < lba * 2048 + 2048 ensures img[i] == 0 {
        assert SectorAt(img, lba)[i - lba * 2048] == 0;
      }
    }
  }

  /** An injection is accepted exactly for a boot image and such an image. */
  lemma AcceptedIff(img: seq<byte>, bootImage: seq<byte>)
    ensures Rejection(img, bootImage).None? <==> bootImage != [] && IsInjectable(img)
  {
    TagsAtSectors(img);
    if Readable(img, 15) {
      ZeroSector(img, 15);
    }
    if Readable(img, 19) {
      ZeroSector(img, 19);
    }
  }

  /** What an occupied sector 17 is refused for: being a boot record, or, on ISO 9660 media, any
      descriptor but a set terminator, a Joliet one included. */
  lemma OccupiedSector17(img: seq<byte>, bootImage: seq<byte>)
    requires bootImage != [] && Readable(img, 17) && forall i :: 15 * 2048 <= i < 16 * 2048 ==> img[i] == 0
    requires !TaggedAt(img, 17, NSR02_TAG) && !TaggedAt(img, 17, NSR03_TAG)
    requires !(TaggedAt(img, 17, CD001_TAG) && img[17 * 2048] == 255)
    ensures Rejection(img, bootImage) ==
            var at := 17 * 2048;
            if TaggedAt(img, 17, CD001_TAG) && img[at] == 0 && img[at + 7..at + 30] == EL_TORITO_ID
            then Some(AlreadyBootable)
            else Some(UnsupportedLayout)
  {
    TagsAtSectors(img);
    ZeroSector(img, 15);
    SliceOfSector(img, 17, 7, 30);
  }

  /** The boot record descriptor (El Torito specification 1.0, section 2.0). */
  function BootRecordSector(): (s: Sector)
    ensures IsBootRecord(s) && CatalogPointer(s) == CATALOG_LBA && s[6] == 1
    ensures IsZero(s[30..0x47]) && IsZero(s[0x4B..])
  {
    var head: seq<byte> := [0, 0x43, 0x44, 0x30, 0x30, 0x31, 1];
    var s := head + EL_TORITO_ID + seq(41, _ => 0) + PutLe32(CATALOG_LBA) + seq(2048 - 75, _ => 0);
    assert s[7..30] == EL_TORITO_ID;
    assert forall i :: 0 <= i < 4 ==> s[0x47 + i] == PutLe32(CATALOG_LBA)[i];
    s
  }

  /** The first sector of the appended boot image. */
  function ImageLBA(pre: seq<byte>): nat {
    SectorAligned(|pre|) / 2048
  }

  /** The sector after the last rewritten volume descriptor. */
  function RewriteEnd(pre: seq<byte>): nat
    requires Readable(pre, 17)
  {
    if IsUdfLayout(pre) then 20 else 19
  }

  /** The complete effect of a successful injection: which sectors hold what, and that
      nothing else of the original moved. */
  ghost predicate Injected(pre: seq<byte>, bootImage: seq<byte>, post: seq<byte>)
    requires Rejection(pre, bootImage).None?
  {
    var end := SectorAligned(|pre|);
    && |post| == end + SectorAligned(|bootImage|)
    && IsBootCatalog(SectorAt(post, 15), ImageLBA(pre) % 0x1_0000_0000, VirtualSectors(|bootImage|))
    && SectorAt(post, 17) == BootRecordSector()
    && (if IsUdfLayout(pre) then
          SectorAt(post, 18) == SectorAt(pre, 17) && SectorAt(post, 19) == SectorAt(pre, 18)
        else
          SectorAt(post, 18) == SectorAt(pre, if IsZero(SectorAt(pre, 18)) then 17 else 18))
    && (forall i :: 0 <= i < |pre| && !(15 <= i / 2048 < 16) && !(17 <= i / 2048 < RewriteEnd(pre)) ==>
          post[i] == pre[i])
    && IsZero(post[|pre|..end])
    && post[end..end + |bootImage|] == bootImage
    && IsZero(post[end + |bootImage|..])
  }

  /** Writing one sector inside an image changes that sector and no other. */
  lemma SplicedSector(img: seq<byte>, lba: nat, data: Sector, k: nat)
    requires Readable(img, lba) && Readable(img, k)
    ensures Readable(Spliced(img, lba * 2048, data), k)
    ensures SectorAt(Spliced(img, lba * 2048, data), k) == if k == lba then data else SectorAt(img, k)
  {
  }

  /** The image once sector 17 has been copied out of the way. */
  ghost predicate Shifted(pre: seq<byte>, img: seq<byte>)
    requires Readable(pre, 18) && (IsUdfLayout(pre) ==> Readable(pre, 19))
  {
    && |img| == |pre|
    && (forall i :: 0 <= i < |pre| && !(18 <= i / 2048 < RewriteEnd(pre)) ==> img[i] == pre[i])
    && (if IsUdfLayout(pre) then
          SectorAt(img, 18) == SectorAt(pre, 17) && SectorAt(img, 19) == SectorAt(pre, 18)
        else
          SectorAt(img, 18) == SectorAt(pre, if IsZero(SectorAt(pre, 18)) then 17 else 18))
  }

  /** Checks that the image has an accepted layout and frees sector 17. */
  method FreeSector17(f: ImageFile, ghost bootImage: seq<byte>) returns (r: Option<Error>)
    requires bootImage != []
    modifies f
    ensures r == Rejection(old(f.bytes), bootImage)
    ensures r.Some? ==> f.bytes == old(f.bytes)
    ensures r.None? ==> Shifted(old(f.bytes), f.bytes)
  {
    var catSector := f.ReadSector(CATALOG_LBA);
    if catSector.None? {
      return Some(ReadFailed(CATALOG_LBA));
    }
    if catSector.value != seq(2048, _ => 0) {
      return Some(CatalogSectorInUse);
    }
    var s17 := f.ReadSector(17);
    if s17.None? {
      return Some(ReadFailed(17));
    }
    var magic := MagicOf(s17.value);
    if magic.NSR02? || magic.NSR03? {
      r := ShiftRecognitionSequence(f, s17.value);
    } else if magic.CD001? && s17.value[0] == 0 && s17.value[7..30] == EL_TORITO_ID {
      return Some(AlreadyBootable);
    } else if magic.CD001? && s17.value[0] == 255 {
      r := MoveSetTerminator(f, s17.value);
    } else {
      return Some(UnsupportedLayout);
    }
  }

  method ShiftRecognitionSequence(f: ImageFile, s17: Sector) returns (r: Option<Error>)
    requires Readable(f.bytes, 17) && s17 == SectorAt(f.bytes, 17) && IsUdfLayout(f.bytes)
    modifies f
    ensures r == if !Readable(old(f.bytes), 18) then Some(ReadFailed(18))
                 else if !MagicOf(SectorAt(old(f.bytes), 18)).TEA01? then Some(UnexpectedUdfLayout)
                 else if !Readable(old(f.bytes), 19) then Some(ReadFailed(19))
                 else if !IsZero(SectorAt(old(f.bytes), 19)) then Some(NoRoomToShift)
                 else None
    ensures r.Some? ==> f.bytes == old(f.bytes)
    ensures r.None? ==> Shifted(old(f.bytes), f.bytes)
  {
    var s18 := f.ReadSector(18);
    if s18.None? {
      return Some(ReadFailed(18));
    }
    if !MagicOf(s18.value).TEA01? {
      return Some(UnexpectedUdfLayout);
    }
    var s19 := f.ReadSector(19);
    if s19.None? {
      return Some(ReadFailed(19));
    }
    if s19.value != seq(2048, _ => 0) {
      return Some(NoRoomToShift);
    }
    f.WriteAt(s18.value, 19 * 2048);
    SplicedSector(old(f.bytes), 19, s18.value, 19);
    ghost var mid := f.bytes;
    f.WriteAt(s17, 18 * 2048);
    SplicedSector(mid, 18, s17, 18);
    SplicedSector(mid, 18, s17, 19);
    return None;
  }

  method MoveSetTerminator(f: ImageFile, s17: Sector) returns (r: Option<Error>)
    requires Readable(f.bytes, 17) && s17 == SectorAt(f.bytes, 17) && !IsUdfLayout(f.bytes)
    modifies f
    ensures r == if Readable(old(f.bytes), 18) then None else Some(ReadFailed(18))
    ensures r.Some? ==> f.bytes == old(f.bytes)
    ensures r.None? ==> Shifted(old(f.bytes), f.bytes)
  {
    var s18 := f.ReadSector(18);
    if s18.None? {
      return Some(ReadFailed(18));
    }
    if s18.value == seq(2048, _ => 0) {
      f.WriteAt(s17, 18 * 2048);
      SplicedSector(old(f.bytes), 18, s17, 18);
    }
    return None;
  }

  method AddElToritoEFIBoot(f: ImageFile, bootImage: seq<byte>) returns (r: Option<Error>)
    modifies f
    ensures r == Rejection(old(f.bytes), bootImage)
    ensures r.Some? ==> f.bytes == old(f.bytes)
    ensures r.None? ==> Injected(old(f.bytes), bootImage, f.bytes)
  {
    if |bootImage| == 0 {
      return Some(EmptyBootImage);
    }
    r := FreeSector17(f, bootImage);
    if r.None? {
      WriteBootData(f, bootImage, old(f.bytes));
    }
  }

  /** Appends the boot image, then writes the catalog and the boot record. */
  method WriteBootData(f: ImageFile, bootImage: seq<byte>, ghost pre: seq<byte>)
    requires Rejection(pre, bootImage).None? && Shifted(pre, f.bytes)
    modifies f
    ensures Injected(pre, bootImage, f.bytes)
  {
    ghost var shifted := f.bytes;
    var imageLBA := AppendBootImage(f, bootImage);
    var cat := MakeBootCatalog(|bootImage|, imageLBA);
    f.WriteAt(cat, CATALOG_LBA * 2048);
    f.WriteAt(BootRecordSector(), 17 * 2048);
    InjectionIsComplete(pre, bootImage, shifted, ZeroPadded(bootImage), cat);
  }

  /** Appends the boot image sector-aligned at the end of the file. */
  method AppendBootImage(f: ImageFile, bootImage: seq<byte>) returns (imageLBA: nat)
    requires bootImage != []
    modifies f
    ensures f.bytes == Spliced(old(f.bytes), SectorAligned(|old(f.bytes)|), ZeroPadded(bootImage))
    ensures imageLBA == SectorAligned(|old(f.bytes)|) / 2048
  {
    var size := |f.bytes|;
    var pad := size % 2048;
    if pad != 0 {
      size := size + 2048 - pad;
    }
    SectorAlignedByPadding(|f.bytes|);
    f.WriteAt(ZeroPadded(bootImage), size);
    imageLBA := size / 2048;
  }

  function ZeroPadded(bootImage: seq<byte>): (padded: seq<byte>)
    ensures |padded| == SectorAligned(|bootImage|)
    ensures padded[..|bootImage|] == bootImage && IsZero(padded[|bootImage|..])
  {
    bootImage + seq(SectorAligned(|bootImage|) - |bootImage|, _ => 0)
  }

  /** The image after the three writes that follow the shift. */
  function Assembled(shifted: seq<byte>, end: nat, padded: seq<byte>, cat: Sector): seq<byte> {
    Spliced(Spliced(Spliced(shifted, end, padded), 15 * 2048, cat), 17 * 2048, BootRecordSector())
  }

  lemma AssembledBytes(shifted: seq<byte>, end: nat, padded: seq<byte>, cat: Sector)
    requires Readable(shifted, 18) && |shifted| <= end
    ensures var post := Assembled(shifted, end, padded, cat);
            && |post| == end + |padded|
            && (forall i :: 0 <= i < |shifted| && i / 2048 != 15 && i / 2048 != 17 ==> post[i] == shifted[i])
            && IsZero(post[|shifted|..end])
            && post[end..] == padded
  {
    var post := Assembled(shifted, end, padded, cat);
    assert forall i :: end <= i < |post| ==> post[i] == padded[i - end];
  }

  lemma AssembledSectors(shifted: seq<byte>, end: nat, padded: seq<byte>, cat: Sector)
    requires Readable(shifted, 18) && |shifted| <= end
    ensures var post := Assembled(shifted, end, padded, cat);
            && Readable(post, 18)
            && SectorAt(post, 15) == cat
            && SectorAt(post, 17) == BootRecordSector()
            && forall k: nat :: k > 17 && Readable(shifted, k) ==>
                  Readable(post, k) && SectorAt(post, k) == SectorAt(shifted, k)
  {
    var appended := Spliced(shifted, end, padded);
    var catalogued := Spliced(appended, 15 * 2048, cat);
    SplicedSector(appended, 15, cat, 15);
    SplicedSector(catalogued, 17, BootRecordSector(), 15);
    SplicedSector(catalogued, 17, BootRecordSector(), 17);
    forall k: nat | k > 17 && Readable(shifted, k)
      ensures Readable(Assembled(shifted, end, padded, cat), k)
      ensures SectorAt(Assembled(shifted, end, padded, cat), k) == SectorAt(shifted, k)
    {
      assert SectorAt(appended, k) == SectorAt(shifted, k);
      SplicedSector(appended, 15, cat, k);
      SplicedSector(catalogued, 17, BootRecordSector(), k);
    }
  }

  lemma InjectionIsComplete(pre: seq<byte>, bootImage: seq<byte>, shifted: seq<byte>, padded: seq<byte>, cat: Sector)
    requires Rejection(pre, bootImage).None? && Shifted(pre, shifted)
    requires |padded| == SectorAligned(|bootImage|) && padded[..|bootImage|] == bootImage
             && IsZero(padded[|bootImage|..])
    requires IsBootCatalog(cat, ImageLBA(pre) % 0x1_0000_0000, VirtualSectors(|bootImage|))
    ensures Injected(pre, bootImage, Assembled(shifted, SectorAligned(|pre|), padded, cat))
  {
    var end := SectorAligned(|pre|);
    var post := Assembled(shifted, end, padded, cat);
    AssembledSectors(shifted, end, padded, cat);
    AssembledBytes(shifted, end, padded, cat);
    assert post[end..end + |bootImage|] == post[end..][..|bootImage|];
    assert post[end + |bootImage|..] == post[end..][|bootImage|..];
  }
}
