/** Repoints the default boot entry of a bootable image by patching six bytes of its catalog. */
module BootRepointing {
  import opened Bytes
  import opened Wrappers
  import opened ImageFile
  import opened ElTorito
  import opened EfiBootInjection
  import opened ElToritoProperties

  /** Why an image's boot entry cannot be repointed. The catalog is located by a scan
      that, unlike inspection, stops at a UDF magic and at sector 32. */
  function RepointProblem(img: seq<byte>): Option<Error> {
    match Inspect(img)
    case Err(e) => Some(e)
    case Ok(_) =>
      match CatalogFrom(img, 16, 32, false)
      case Err(e) => Some(e)
      case Ok(_) => None
  }

  /** Post differs from pre in six bytes of the catalog at lba, which hold the new entry. */
  ghost predicate Repointed(pre: seq<byte>, lba: nat, loadRBA: uint32, sectorCount: uint16, post: seq<byte>) {
    var entry := lba * 2048 + 0x20;
    && |post| == |pre| && Readable(pre, lba)
    && Le16(post, entry + 6) == sectorCount
    && Le32(post, entry + 8) == loadRBA
    && forall i :: 0 <= i < |pre| && !(entry + 6 <= i < entry + 12) ==> post[i] == pre[i]
  }

  method SetElToritoBootImage(f: ImageFile, loadRBA: uint32, sectorCount: uint16) returns (r: Option<Error>)
    modifies f
    ensures r == RepointProblem(old(f.bytes))
    ensures r.Some? ==> f.bytes == old(f.bytes)
    ensures r.None? ==> Repointed(old(f.bytes), CatalogFrom(old(f.bytes), 16, 32, false).value,
                                  loadRBA, sectorCount, f.bytes)
  {
    var info := InspectElTorito(f);
    if info.Err? {
      return Some(info.error);
    }
    var catalog := FindCatalog(f, 32, false);
    if catalog.Err? {
      return Some(catalog.error);
    }
    ScannersAgree(f.bytes, 16, 32, 64);
    PatchBootEntry(f, catalog.value, loadRBA, sectorCount);
    return None;
  }

  method PatchBootEntry(f: ImageFile, lba: nat, loadRBA: uint32, sectorCount: uint16)
    requires Readable(f.bytes, lba)
    modifies f
    ensures Repointed(old(f.bytes), lba, loadRBA, sectorCount, f.bytes)
  {
    var entryOff := lba * 2048 + 0x20;
    var count, address := PutLe16(sectorCount), PutLe32(loadRBA);
    PatchedBytes(f.bytes, entryOff + 6, count, address);
    f.WriteAt(count, entryOff + 6);
    f.WriteAt(address, entryOff + 8);
  }

  lemma PatchedBytes(img: seq<byte>, off: nat, count: seq<byte>, address: seq<byte>)
    requires |count| == 2 && |address| == 4 && off + 6 <= |img|
    ensures var post := Spliced(Spliced(img, off, count), off + 2, address);
            && |post| == |img|
            && Le16(post, off) == Le16(count, 0)
            && Le32(post, off + 2) == Le32(address, 0)
            && forall i :: 0 <= i < |img| && !(off <= i < off + 6) ==> post[i] == img[i]
  {
    var post := Spliced(Spliced(img, off, count), off + 2, address);
    assert post[off] == count[0] && post[off + 1] == count[1];
    assert post[off + 2] == address[0] && post[off + 3] == address[1];
    assert post[off + 4] == address[2] && post[off + 5] == address[3];
  }

  /** Where the strict scan finds a catalog, inspection uses the same one. */
  lemma {:induction false} ScannersAgree(img: seq<byte>, lba: nat, limit: nat, wider: nat)
    requires limit <= wider
    ensures CatalogFrom(img, lba, limit, false).Ok? ==>
              CatalogFrom(img, lba, wider, true) == CatalogFrom(img, lba, limit, false)
    decreases limit - lba
  {
    if lba < limit {
      ScannersAgree(img, lba + 1, limit, wider);
    }
  }

  /** The two images hold the same bytes outside offsets 0x26 to 0x2B of each sector, the
      only place where a repointing can land. */
  ghost predicate SameDescriptors(a: seq<byte>, b: seq<byte>) {
    && |a| == |b|
    && forall i :: 0 <= i < |a| && !(0x26 <= i % 2048 < 0x2C) ==> a[i] == b[i]
  }

  lemma SameDescriptorSector(a: seq<byte>, b: seq<byte>, lba: nat)
    requires SameDescriptors(a, b) && Readable(a, lba)
    ensures var s, t := SectorAt(a, lba), SectorAt(b, lba);
            && MagicOf(s) == MagicOf(t) && s[0] == t[0]
            && s[7..30] == t[7..30] && CatalogPointer(s) == CatalogPointer(t)
  {
    var s, t := SectorAt(a, lba), SectorAt(b, lba);
    forall i | 0 <= i < 0x26 || 0x2C <= i < 2048 ensures s[i] == t[i] {
      assert (lba * 2048 + i) % 2048 == i;
    }
  }

  /** Repointing never hides or moves a boot record, even when the catalog overlaps the
      volume descriptors. */
  lemma {:induction false} SameCatalog(a: seq<byte>, b: seq<byte>, lba: nat, limit: nat, skipUdf: bool)
    requires SameDescriptors(a, b)
    ensures CatalogFrom(a, lba, limit, skipUdf) == CatalogFrom(b, lba, limit, skipUdf)
    decreases limit - lba
  {
    if lba < limit && Readable(a, lba) {
      SameDescriptorSector(a, b, lba);
      SameCatalog(a, b, lba + 1, limit, skipUdf);
    }
  }

  /** After repointing, inspection reports the new address and count and nothing else new. */
  lemma RepointedEntryReadsBack(pre: seq<byte>, loadRBA: uint32, sectorCount: uint16, post: seq<byte>)
    requires RepointProblem(pre).None?
    requires Repointed(pre, CatalogFrom(pre, 16, 32, false).value, loadRBA, sectorCount, post)
    ensures Inspect(post) == Ok(Inspect(pre).value.(loadRBA := loadRBA, sectorCount := sectorCount))
    ensures RepointProblem(post).None?
    ensures EfiBootProblem(post) == EfiBootProblem(pre)
  {
    var lba: nat := CatalogFrom(pre, 16, 32, false).value;
    ScannersAgree(pre, 16, 32, 64);
    RepointedKeepsDescriptors(pre, lba, loadRBA, sectorCount, post);
    SameCatalog(pre, post, 16, 64, true);
    SameCatalog(pre, post, 16, 32, false);
    RepointedCatalog(pre, lba, loadRBA, sectorCount, post);
  }

  lemma RepointedKeepsDescriptors(pre: seq<byte>, lba: nat, loadRBA: uint32, sectorCount: uint16, post: seq<byte>)
    requires Repointed(pre, lba, loadRBA, sectorCount, post)
    ensures SameDescriptors(pre, post)
  {
    forall i | 0 <= i < |pre| && !(0x26 <= i % 2048 < 0x2C)
      ensures pre[i] == post[i]
    {
      OffsetInSector(lba, i);
    }
  }

  lemma RepointedCatalog(pre: seq<byte>, lba: nat, loadRBA: uint32, sectorCount: uint16, post: seq<byte>)
    requires Repointed(pre, lba, loadRBA, sectorCount, post)
    ensures var was, now := ReadCatalog(pre, lba), ReadCatalog(post, lba);
            if was.Err? then now == was
            else now == Ok(was.value.(loadRBA := loadRBA, sectorCount := sectorCount))
  {
    var cat, cat' := SectorAt(pre, lba), SectorAt(post, lba);
    assert forall i :: 0 <= i < 0x26 ==> cat'[i] == post[lba * 2048 + i] == pre[lba * 2048 + i] == cat[i];
    assert forall i :: 0x26 <= i < 0x2C ==> cat'[i] == post[lba * 2048 + i];
  }

  lemma OffsetInSector(lba: nat, i: nat)
    ensures lba * 2048 + 0x26 <= i < lba * 2048 + 0x2C ==> 0x26 <= i % 2048 < 0x2C
  {
  }

  /** An image whose entry can be read can be repointed exactly when its boot record lies
      before sector 32 and every sector from 16 to the record is a CD001 descriptor. */
  lemma RepointableWhenOnlyIsoDescriptorsPrecede(img: seq<byte>)
    requires Inspect(img).Ok?
    ensures RepointProblem(img).None? <==>
            exists k: nat :: 16 <= k < 32 && FirstRecordAt(img, 16, k, true) &&
                             forall j: nat :: 16 <= j <= k ==> MagicOf(SectorAt(img, j)).CD001?
  {
    var strict := CatalogFrom(img, 16, 32, false);
    if strict.Ok? {
      CatalogFromFindsFirstRecord(img, 16, 32, false, strict.value);
      var k: nat :| 16 <= k < 32 && FirstRecordAt(img, 16, k, false);
      assert FirstRecordAt(img, 16, k, true);
    }
    if k: nat :| 16 <= k < 32 && FirstRecordAt(img, 16, k, true)
                 && forall j: nat :: 16 <= j <= k ==> MagicOf(SectorAt(img, j)).CD001?
    {
      assert FirstRecordAt(img, 16, k, false);
      CatalogFromFindsFirstRecord(img, 16, 32, false, CatalogPointer(SectorAt(img, k)));
    }
  }

  /** An injected image can be repointed exactly when sector 16, which the injection never touches,
      is a CD001 descriptor other than a set terminator and, should it be a boot record itself,
      names a catalog that reads. On pure UDF media, whose sector 16 is BEA01, it never can. */
  lemma InjectedImageRepointable(pre: seq<byte>, bootImage: seq<byte>, post: seq<byte>)
    requires Rejection(pre, bootImage).None? && Injected(pre, bootImage, post)
    ensures Readable(pre, 16)
    ensures RepointProblem(post).None? <==>
            var s := SectorAt(pre, 16);
            && MagicOf(s).CD001? && !IsSetTerminator(s)
            && (IsBootRecord(s) ==> ReadCatalog(post, CatalogPointer(s)).Ok?)
  {
    InspectionReachesInjectedCatalog(pre, bootImage, post);
    InjectedHead(pre, bootImage, post);
    var s := SectorAt(pre, 16);
    if Passable(s, true) {
      InjectedImageBoots(pre, bootImage, post);
    }
    assert CatalogFrom(post, 17, 32, false).Ok?;
  }
}
