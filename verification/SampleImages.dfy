/**
 * Small images on which the operations differ: two that an injection accepts and that what
 * follows then refuses, one without a primary volume descriptor and one of pure UDF media; and
 * bootable ones that differ in platform and boot indicator.
 */
module SampleImages {
  import opened BootRepointing
  import opened Bytes
  import opened EfiBootInjection
  import opened ElTorito
  import opened ElToritoProperties
  import opened ImageFile
  import opened Wrappers

  /** A volume structure descriptor with nothing but its type and identifier. */
  function Descriptor(kind: byte, b1: byte, b2: byte, b3: byte, b4: byte, b5: byte): (s: Sector)
    ensures s[0] == kind && HasTag(s, b1, b2, b3, b4, b5)
  {
    [kind, b1, b2, b3, b4, b5] + seq(2042, _ => 0)
  }

  function SetTerminator(): (s: Sector)
    ensures IsSetTerminator(s)
  {
    Descriptor(255, 0x43, 0x44, 0x30, 0x30, 0x31)
  }

  function Zeros(sectors: nat): (s: seq<byte>)
    ensures |s| == sectors * 2048 && IsZero(s)
  {
    seq(sectors * 2048, _ => 0)
  }

  // ----- An image whose sector 16 is no descriptor

  /** A set terminator at sector 17, and nothing else. */
  function BareImage(): seq<byte> {
    Zeros(17) + SetTerminator() + Zeros(1)
  }

  lemma BareSectors()
    ensures var img := BareImage();
            && |img| == 19 * 2048
            && IsZero(SectorAt(img, 15)) && IsZero(SectorAt(img, 16)) && IsZero(SectorAt(img, 18))
            && SectorAt(img, 17) == SetTerminator()
  {
    var img := BareImage();
    assert forall i :: 0 <= i < 17 * 2048 ==> img[i] == Zeros(17)[i];
    assert forall i :: 18 * 2048 <= i < 19 * 2048 ==> img[i] == Zeros(1)[i - 18 * 2048];
  }

  lemma BareImageIsAccepted(bootImage: seq<byte>)
    requires bootImage != []
    ensures Rejection(BareImage(), bootImage).None?
  {
    BareSectors();
  }

  /** The injection accepts the image and succeeds, and yet inspection then finds no boot
      record: the image does not boot. */
  lemma BareImageDoesNotBoot(bootImage: seq<byte>, post: seq<byte>)
    requires bootImage != []
    ensures Rejection(BareImage(), bootImage).None?
    ensures Injected(BareImage(), bootImage, post) ==>
              Inspect(post) == Err(NoBootRecord) && EfiBootProblem(post) == Some(NoBootRecord)
  {
    BareImageIsAccepted(bootImage);
    if Injected(BareImage(), bootImage, post) {
      BareSectors();
      InjectedHead(BareImage(), bootImage, post);
      assert MagicOf(SectorAt(post, 16)).Foreign?;
    }
  }

  // ----- Pure UDF media

  /** BEA01, NSR02 and TEA01 at sectors 16 to 18, and a free sector 19. */
  function UdfImage(): seq<byte> {
    Zeros(16) + Descriptor(0, 0x42, 0x45, 0x41, 0x30, 0x31) + Descriptor(0, 0x4E, 0x53, 0x52, 0x30, 0x32)
    + Descriptor(0, 0x54, 0x45, 0x41, 0x30, 0x31) + Zeros(1)
  }

  lemma SectorsInOrder(head: seq<byte>, s16: Sector, s17: Sector, s18: Sector, s19: Sector)
    requires |head| == 16 * 2048
    ensures var img := head + s16 + s17 + s18 + s19;
            && |img| == 20 * 2048 && SectorAt(img, 15) == head[15 * 2048..]
            && SectorAt(img, 16) == s16 && SectorAt(img, 17) == s17
            && SectorAt(img, 18) == s18 && SectorAt(img, 19) == s19
  {
  }

  lemma UdfSectors()
    ensures var img := UdfImage();
            && |img| == 20 * 2048
            && IsZero(SectorAt(img, 15)) && IsZero(SectorAt(img, 19))
            && MagicOf(SectorAt(img, 16)).BEA01? && MagicOf(SectorAt(img, 17)).NSR02?
            && MagicOf(SectorAt(img, 18)).TEA01?
  {
    SectorsInOrder(Zeros(16), Descriptor(0, 0x42, 0x45, 0x41, 0x30, 0x31),
                   Descriptor(0, 0x4E, 0x53, 0x52, 0x30, 0x32), Descriptor(0, 0x54, 0x45, 0x41, 0x30, 0x31), Zeros(1));
  }

  lemma UdfImageIsAccepted(bootImage: seq<byte>)
    requires bootImage != []
    ensures Rejection(UdfImage(), bootImage).None?
  {
    UdfSectors();
  }

  lemma InjectedUdfImage(img: seq<byte>, bootImage: seq<byte>, post: seq<byte>)
    requires Rejection(img, bootImage).None? && Injected(img, bootImage, post)
    requires Readable(img, 16) && MagicOf(SectorAt(img, 16)).BEA01?
    ensures EfiBootProblem(post) == None && RepointProblem(post).Some?
  {
    InjectedImageBoots(img, bootImage, post);
    InjectedImageRepointable(img, bootImage, post);
  }

  /** The injected image boots, and yet its entry cannot be repointed. */
  lemma UdfImageBootsButCannotBeRepointed(bootImage: seq<byte>, post: seq<byte>)
    requires bootImage != []
    ensures Rejection(UdfImage(), bootImage).None?
    ensures Injected(UdfImage(), bootImage, post) ==> EfiBootProblem(post) == None && RepointProblem(post).Some?
  {
    UdfImageIsAccepted(bootImage);
    if Injected(UdfImage(), bootImage, post) {
      UdfSectors();
      InjectedUdfImage(UdfImage(), bootImage, post);
    }
  }

  // ----- A Joliet image

  /** A primary descriptor, a supplementary one, and the set terminator. */
  function JolietImage(): seq<byte> {
    Zeros(16) + Descriptor(1, 0x43, 0x44, 0x30, 0x30, 0x31) + Descriptor(2, 0x43, 0x44, 0x30, 0x30, 0x31)
    + SetTerminator() + Zeros(1)
  }

  /** Its sector 17 is in use, so the injection refuses it. */
  lemma JolietImageIsRefused(bootImage: seq<byte>)
    requires bootImage != []
    ensures Rejection(JolietImage(), bootImage) == Some(UnsupportedLayout)
  {
    SectorsInOrder(Zeros(16), Descriptor(1, 0x43, 0x44, 0x30, 0x30, 0x31),
                   Descriptor(2, 0x43, 0x44, 0x30, 0x30, 0x31), SetTerminator(), Zeros(1));
    RefusedAt17(JolietImage(), bootImage);
  }

  lemma RefusedAt17(img: seq<byte>, bootImage: seq<byte>)
    requires bootImage != [] && |img| == 20 * 2048 && IsZero(SectorAt(img, 15))
    requires MagicOf(SectorAt(img, 17)).CD001? && SectorAt(img, 17)[0] == 2
    ensures Rejection(img, bootImage) == Some(UnsupportedLayout)
  {
    TagsAtSectors(img);
    ZeroSector(img, 15);
    OccupiedSector17(img, bootImage);
  }

  // ----- Catalogs that read and that firmware refuses

  /** A valid catalog header for a platform, and the boot indicator of the default entry. */
  function Catalog(platform: byte, indicator: byte): (s: Sector)
    ensures s[0] == 0x01 && s[1] == platform && s[0x1E] == 0x55 && s[0x1F] == 0xAA && s[0x20] == indicator
  {
    [0x01, platform] + seq(28, _ => 0) + [0x55, 0xAA, indicator] + seq(2015, _ => 0)
  }

  /** A primary volume descriptor at sector 16 and a boot record at 17 that names sector 15. */
  function BootableImage(platform: byte, indicator: byte): seq<byte> {
    Zeros(15) + Catalog(platform, indicator) + Descriptor(1, 0x43, 0x44, 0x30, 0x30, 0x31) + BootRecordSector()
  }

  lemma LastSectors(head: seq<byte>, s15: Sector, s16: Sector, s17: Sector)
    requires |head| == 15 * 2048
    ensures var img := head + s15 + s16 + s17;
            && |img| == 18 * 2048
            && SectorAt(img, 15) == s15 && SectorAt(img, 16) == s16 && SectorAt(img, 17) == s17
  {
  }

  lemma BootableSectors(img: seq<byte>, platform: byte, indicator: byte)
    requires img == BootableImage(platform, indicator)
    ensures |img| == 18 * 2048 && SectorAt(img, 17) == BootRecordSector()
    ensures SectorAt(img, 15) == Catalog(platform, indicator)
    ensures FirstRecordIs(img, 17)
  {
    LastSectors(Zeros(15), Catalog(platform, indicator), Descriptor(1, 0x43, 0x44, 0x30, 0x30, 0x31),
                BootRecordSector());
  }

  /** An image booted by a BIOS is refused for its platform, an EFI one whose entry is not marked
      bootable for that, and an EFI one that is marked is accepted. */
  lemma PlatformAndIndicatorDecide(platform: byte, indicator: byte)
    ensures EfiBootProblem(BootableImage(platform, indicator)) ==
            if platform != 0xEF then Some(NotEfi(platform))
            else if indicator != 0x88 then Some(NotBootable)
            else None
  {
    var img := BootableImage(platform, indicator);
    BootableSectors(img, platform, indicator);
    var cat := SectorAt(img, 15);
    assert forall i :: 0 <= i < 2048 ==> cat[i] == img[15 * 2048 + i];
    BootFaultOfCatalog(img, 17, 15);
  }

  /** A BIOS-only image and an EFI image that is not bootable, handed to the check itself. */
  method RefuseSamples(bios: ImageFile, unmarked: ImageFile) returns (r: Option<Error>, s: Option<Error>)
    requires bios.bytes == BootableImage(0x00, 0x88) && unmarked.bytes == BootableImage(0xEF, 0x00)
    ensures r == Some(NotEfi(0x00)) && s == Some(NotBootable)
  {
    PlatformAndIndicatorDecide(0x00, 0x88);
    PlatformAndIndicatorDecide(0xEF, 0x00);
    r := RequireEFIBootable(bios);
    s := RequireEFIBootable(unmarked);
  }

  // ----- The operations on the first two images

  /** Both runs happen: the images are handed to the operations themselves. */
  method InjectSamples(bootImage: seq<byte>, bare: ImageFile, udf: ImageFile)
    returns (r: Option<Error>, s: Option<Error>, boots: Option<Error>, repoints: Option<Error>)
    requires bootImage != [] && bare != udf && bare.bytes == BareImage() && udf.bytes == UdfImage()
    modifies bare, udf
    ensures r == None && s == None && boots == Some(NoBootRecord) && repoints.Some?
  {
    BareImageIsAccepted(bootImage);
    UdfImageIsAccepted(bootImage);
    r := AddElToritoEFIBoot(bare, bootImage);
    BareImageDoesNotBoot(bootImage, bare.bytes);
    boots := RequireEFIBootable(bare);
    s := AddElToritoEFIBoot(udf, bootImage);
    UdfImageBootsButCannotBeRepointed(bootImage, udf.bytes);
    repoints := SetElToritoBootImage(udf, 0, 0);
  }
}
