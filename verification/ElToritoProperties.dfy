/**
 * What an injection and the inspection after it promise together: when an injected image
 * boots, what its entry loads, that it cannot be injected twice, and that it keeps its UDF
 * recognition sequence.
 */
module ElToritoProperties {
  import opened Bytes
  import opened Wrappers
  import opened ImageFile
  import opened ElTorito
  import opened EfiBootInjection

  // ----- Injection, then inspection

  /** Sector 16 is not touched, and sector 17 is the record that follows it. */
  lemma InjectedHead(pre: seq<byte>, bootImage: seq<byte>, post: seq<byte>)
    requires Rejection(pre, bootImage).None? && Injected(pre, bootImage, post)
    ensures Readable(pre, 16) && Readable(post, 17)
    ensures SectorAt(post, 16) == SectorAt(pre, 16)
    ensures IsBootRecord(SectorAt(post, 17))
  {
    assert forall i :: 16 * 2048 <= i < 17 * 2048 ==> i / 2048 == 16 && post[i] == pre[i];
  }

  /** Inspection reads the injected catalog exactly when sector 16, which injection never
      looks at, lets the scan through to sector 17 or is a record of the same catalog. */
  lemma InspectionReachesInjectedCatalog(pre: seq<byte>, bootImage: seq<byte>, post: seq<byte>)
    requires Rejection(pre, bootImage).None? && Injected(pre, bootImage, post)
    ensures Readable(pre, 16)
    ensures CatalogFrom(post, 16, 64, true) == Ok(CATALOG_LBA) <==>
            var s := SectorAt(pre, 16);
            Passable(s, true) || (IsBootRecord(s) && CatalogPointer(s) == CATALOG_LBA)
  {
    InjectedHead(pre, bootImage, post);
    assert CatalogFrom(post, 17, 64, true) == Ok(CATALOG_LBA);
  }

  /** Injecting and inspecting round-trip: the entry is a bootable EFI entry that loads
      the boot image, and firmware accepts the image. */
  lemma InjectedImageBoots(pre: seq<byte>, bootImage: seq<byte>, post: seq<byte>)
    requires Rejection(pre, bootImage).None? && Injected(pre, bootImage, post)
    requires Readable(pre, 16) && Passable(SectorAt(pre, 16), true)
    ensures Inspect(post) == Ok(ElToritoInfo(0xEF, true, ImageLBA(pre) % 0x1_0000_0000, VirtualSectors(|bootImage|)))
    ensures EfiBootProblem(post) == None
  {
    InspectionReachesInjectedCatalog(pre, bootImage, post);
  }

  /** The recorded load address is the boot image's first sector, and the bytes there
      are the boot image, exactly when fewer than 2^32 sectors precede it. */
  lemma LoadAddressNamesBootImage(pre: seq<byte>, bootImage: seq<byte>, post: seq<byte>)
    requires Rejection(pre, bootImage).None? && Injected(pre, bootImage, post)
    ensures var rba: uint32 := ImageLBA(pre) % 0x1_0000_0000;
            && (rba == ImageLBA(pre) <==> ImageLBA(pre) < 0x1_0000_0000)
            && (rba == ImageLBA(pre) ==>
                  && rba * 2048 + SectorAligned(|bootImage|) == |post|
                  && post[rba * 2048..rba * 2048 + |bootImage|] == bootImage)
  {
    var lba := ImageLBA(pre);
    assert lba * 2048 == SectorAligned(|pre|);
    WrapsUnlessSmall(lba);
  }

  lemma WrapsUnlessSmall(n: nat)
    ensures n % 0x1_0000_0000 == n <==> n < 0x1_0000_0000
  {
  }

  /** The sector count covers the boot image to the last partial sector, stops at
      0xFFFF, and never reaches past the appended region. */
  lemma SectorCountCoversBootImage(length: nat)
    ensures VirtualSectors(length) * 512 <= SectorAligned(length)
    ensures length <= 0xFFFF * 512 <==> length <= VirtualSectors(length) * 512
    ensures VirtualSectors(length) * 512 < length + 512
    ensures length > 0xFFFF * 512 ==> VirtualSectors(length) == 0xFFFF
  {
    var n := (length + 511) / 512;
    assert length <= 512 * n < length + 512;
    var sectors := (length + 2047) / 2048;
    assert n <= 4 * sectors;
  }

  /** Injecting twice is always refused. */
  lemma SecondInjectionIsRejected(pre: seq<byte>, bootImage: seq<byte>, post: seq<byte>, again: seq<byte>)
    requires Rejection(pre, bootImage).None? && Injected(pre, bootImage, post)
    requires again != []
    ensures Rejection(post, again) == Some(CatalogSectorInUse)
  {
    assert SectorAt(post, 15)[0] != 0;
  }

  // ----- The UDF volume recognition sequence (ECMA-167 part 2, clause 8.3)

  /** The recognition descriptors from sector lba on, as a reader that skips foreign
      CD001 descriptors sees them, optionally ending at the first TEA01. */
  function RecognitionSequence(img: seq<byte>, lba: nat, endAtTea: bool): seq<Sector>
    decreases |img| - lba * 2048
  {
    if !Readable(img, lba) then []
    else
      var s := SectorAt(img, lba);
      var m := MagicOf(s);
      if m.CD001? then RecognitionSequence(img, lba + 1, endAtTea)
      else if !IsUdfRecognitionMagic(m) then []
      else if m.TEA01? && endAtTea then [s]
      else [s] + RecognitionSequence(img, lba + 1, endAtTea)
  }

  /** Post holds a foreign descriptor at 17 and pre's NSR and TEA01 one sector later. */
  predicate ShiftedUdf(pre: seq<byte>, post: seq<byte>) {
    && Readable(pre, 19) && Readable(post, 19)
    && SectorAt(post, 16) == SectorAt(pre, 16)
    && MagicOf(SectorAt(post, 17)).CD001?
    && IsUdfLayout(pre) && SectorAt(post, 18) == SectorAt(pre, 17)
    && MagicOf(SectorAt(pre, 18)).TEA01? && SectorAt(post, 19) == SectorAt(pre, 18)
    && MagicOf(SectorAt(pre, 19)).Foreign?
  }

  lemma InjectionShiftsUdf(pre: seq<byte>, bootImage: seq<byte>, post: seq<byte>)
    requires Rejection(pre, bootImage).None? && Injected(pre, bootImage, post) && IsUdfLayout(pre)
    ensures ShiftedUdf(pre, post)
  {
    InjectedHead(pre, bootImage, post);
    assert SectorAt(pre, 19)[1] == 0;
  }

  lemma ShiftedRecognition(pre: seq<byte>, post: seq<byte>, endAtTea: bool)
    requires ShiftedUdf(pre, post)
    ensures RecognitionSequence(post, 17, endAtTea) ==
            RecognitionSequence(pre, 17, endAtTea) + if endAtTea then [] else RecognitionSequence(post, 20, false)
  {
    var nsr, tea := SectorAt(pre, 17), SectorAt(pre, 18);
    assert RecognitionSequence(pre, 19, endAtTea) == [];
    assert RecognitionSequence(pre, 18, endAtTea) == [tea];
    assert RecognitionSequence(pre, 17, endAtTea) == [nsr] + [tea];
    var rest := if endAtTea then [] else RecognitionSequence(post, 20, false);
    assert RecognitionSequence(post, 19, endAtTea) == [tea] + rest;
    assert RecognitionSequence(post, 18, endAtTea) == [nsr] + RecognitionSequence(post, 19, endAtTea);
    assert RecognitionSequence(post, 17, endAtTea) == RecognitionSequence(post, 18, endAtTea);
  }

  lemma RecognitionFromSector16(pre: seq<byte>, post: seq<byte>, endAtTea: bool)
    requires ShiftedUdf(pre, post)
    requires MagicOf(SectorAt(pre, 16)).CD001? || IsUdfRecognitionMagic(MagicOf(SectorAt(pre, 16)))
    ensures RecognitionSequence(post, 16, endAtTea) ==
            RecognitionSequence(pre, 16, endAtTea) + if endAtTea then [] else RecognitionSequence(post, 20, false)
  {
    ShiftedRecognition(pre, post, endAtTea);
    var s := SectorAt(pre, 16);
    var before, after := RecognitionSequence(pre, 17, endAtTea), RecognitionSequence(post, 17, endAtTea);
    if !MagicOf(s).CD001? && !(MagicOf(s).TEA01? && endAtTea) {
      assert RecognitionSequence(pre, 16, endAtTea) == [s] + before;
      assert RecognitionSequence(post, 16, endAtTea) == [s] + after;
    }
  }

  /** On UDF media a reader of the extended area sees the same descriptors in the same
      order; a reader that goes on past TEA01 sees them followed by whatever sector 20
      starts, so for it nothing changes exactly when sector 20 starts no sequence. */
  lemma InjectionKeepsRecognitionSequence(pre: seq<byte>, bootImage: seq<byte>, post: seq<byte>)
    requires Rejection(pre, bootImage).None? && Injected(pre, bootImage, post) && IsUdfLayout(pre)
    requires Readable(pre, 16)
             && (MagicOf(SectorAt(pre, 16)).CD001? || IsUdfRecognitionMagic(MagicOf(SectorAt(pre, 16))))
    ensures RecognitionSequence(post, 16, true) == RecognitionSequence(pre, 16, true)
    ensures RecognitionSequence(post, 16, false)
            == RecognitionSequence(pre, 16, false) + RecognitionSequence(post, 20, false)
    ensures RecognitionSequence(post, 16, false) == RecognitionSequence(pre, 16, false) <==>
            RecognitionSequence(post, 20, false) == []
  {
    InjectionShiftsUdf(pre, bootImage, post);
    RecognitionFromSector16(pre, post, true);
    RecognitionFromSector16(pre, post, false);
  }
}
