# winkit: what its image surgery, caches and protocols keep

Winkit builds and patches Windows installation media and provisions virtual machines from them.
This project models the parts of it that change binary images and persistent state in place, and
proves what they promise over every input, every run and every interleaving.

- **Boot images.** `ImageFile` is a file of bytes written in place. `ElTorito` reads and builds boot
  catalogs (El Torito specification 1.0), `EfiBootInjection` turns an image into a bootable one by
  rewriting sectors 15 and 17 to 19 and appending a boot image, `BootRepointing` patches the six
  bytes of its default entry, and `ElToritoProperties` connects them: what one writes, the others
  read. `SampleImages` holds images on which they do not, and some that the checks refuse.
- **ISO 9660 directories.** `IsoDirectory` reads ECMA-119 directory records, `IsoLookup` follows a
  path on disk with the tolerance for Level 1 names, and `IsoTree` proves both against a tree of
  directories, before and after an injection.
- **FAT images.** `FatCluster` resolves the padding whose size depends on itself, with `MapSums` for
  sums over maps; `FatDirectoryPatch` restores the true size of one file in its directory entry, and
  `ExactFiles` says what the loop over all files makes of every entry.
- **Protocols.** `SftpServer` is the accept loop, the connection handlers and `Close` as atomic steps
  under one mutex; `ResumableDownload` a download against a server that may cut any transfer;
  `DownloadCache` the marker protocol that three fetchers share, under crashes; `LogTailer`, on top
  of `Lines`, the incremental tailing of growing logs; `MediaCache` the directory of assembled
  images with its legacy alias.
- **Transformations and names.** `WimPatch` groups registry writes by hive, `WimPatchLifecycle`
  manages the temporary directories of a patch, `RegistryText` encodes registry strings, `CacheKey`
  builds the byte stream that keys a cached root file system and `CacheKeyProperties` says which
  recipes it tells apart, `MediaSpec` and `MediaNaming` resolve and name installation media, with
  `MediaResolving` on what is made of each text, `GuestHostname`, on top of `Utf8`, derives a computer
  name and `RegisterDump` finds a register in a text dump.

`Splitting`, `Bytes` and `Wrappers` hold shared vocabulary. Code that works step by step is modelled
as methods over classes or loops; each is proved against a function or predicate of the old state,
and the lemmas are about those. Protocols are state machines whose runs are sequences of steps.

Where the code falls short of what its comments say, the model keeps the code, shows an input that
fails, and proves exactly when the promise holds:

- An injected image is found bootable only if sector 16, which the injection never reads, lets the
  scan pass or is itself a boot record naming the same catalog (`InspectionReachesInjectedCatalog`);
  `BareImageDoesNotBoot` is an accepted image that does not boot.
- Repointing fails on images whose boot record follows UDF descriptors, although inspection reads
  them (`RepointableWhenOnlyIsoDescriptorsPrecede`, `InjectedImageRepointable`, with
  `UdfImageBootsButCannotBeRepointed`).
- Looking up a name that is not on the image returns another file's extent when a listed name is a
  prefix of it or short for it (`MissingPathIff`); BOOT is taken for BOOTMGR
  (`BootIsMistakenForBootmgr`, on a directory written out in `BootSectorIsMistaken`).
- Exact files that share a short name and a padded size get their true sizes in the order in which a
  map is read, not in that of their owners (`GroupIsRightIff`, for two files `SameNamesAreRightIff`); a
  file that fills its clusters takes no slot, so even patching in slot order goes wrong
  (`FullFileFirstFails`). Anything before a file's own slot that passes for it, such as contents with a
  matching 32-byte stretch, takes its patch (`OwnSlotIsPatchedIff`, `ContentsLikeASlotFail`). The
  read-back that follows the loop then reports an error. Otherwise all sizes are restored
  (`ExactFilesAreRestored`).
- A second caller of the server's `Close` returns while connections are still being served
  (`SecondCloseReturnsEarly`); only the call that set the flag guarantees more (`CloseGuaranteesIff`).
- Sharing one `.part` name between two processes can leave a marker beside a partial payload
  (`FixedPartNeedsExclusion`); exclusion can be done without exactly when every process has a temporary
  name of its own (`NoExclusionNeededIff`).
- A log file replaced by one at least as long as the cursor loses its first lines, also when it was
  seen empty in between (`ReplacementForwardedWholeIff`).
- Without a digest, a listed size that is too small makes a prefix pass for the whole file
  (`SizeMustNotBeTooSmall`); with one, a listed size that differs makes a complete file be fetched again
  every time (`CompleteFileIsKeptIff`), so a complete download can be lost to an attempt that breaks off
  (`TwoUncutAnywhereSufficeIff`).
- Two spellings of one hive path in a patch set lose the writes of one of them
  (`GroupingIsFaithfulIff`).
- Two recipes can share a cache key when a text contains a NUL (`HeadersWithNulCollide`,
  `ContentsWithNulCollide`), when an argument name contains an equals sign and its first part can take
  its place (`ArgumentNamesCollide`), or when a file followed by another contains the text that starts a
  key and the longer name can take its place (`FileNamesCollide`). With no NUL, equals sign or tag in
  any of these places none do (`StreamDeterminesRecipe`).
- The image cache name leaves out the edition, although it is documented to hold every deciding axis
  (`EditionIsNotInName`), so a fetch of one edition is handed another's image
  (`SecondEditionGetsFirst`, `HomeGetsProfessional`).
- The legacy alias follows the latest fetch of any specification, and the default specification takes
  it for its own image (`FirstFetchBecomesDefault`, `FetchIsRightIff`).
- A computer name cut inside a UTF-8 character is no valid text, and deriving it again changes it
  (`CutCharacterIsReplaced`), unless what is left looks like the start of U+FFFD
  (`DerivingTwiceIsOnceIff`).
- A register name that overlaps itself across white space can be skipped (`SearchIsRightIff`).

## Model

| member | source | states |
|---|---|---|
| ElTorito.CatalogFromFindsFirstRecord | media/isokit/isokit.go:215-244 | A descriptor scan succeeds with a catalog if and only if some boot record in range names it and only passable sectors precede that record. |
| ElTorito.InspectElTorito | media/isokit/isokit.go:206-261 | Reads platform, bootable flag, load address and sector count of the default entry, with every error case, leaving the file alone. |
| ElTorito.RequireEFIBootable | media/isokit/isokit.go:1234-1246 | Accepts an image if and only if, by its bytes, the first boot record in sectors 16 to 63 names a readable catalog with a valid header, the EFI platform and the bootable mark. |
| ElTorito.BootFaultOfCatalog | media/isokit/isokit.go:206-261 | Otherwise names the first fault: catalog unreadable, header invalid, another platform, or not marked bootable. |
| ElTorito.BootFaultWithoutRecord | media/isokit/isokit.go:215-244 | Without a boot record the fault is the first sector that the scan reaches and cannot read, or else the missing record. |
| ElTorito.PassableByTag | media/isokit/isokit.go:1069-1077 | Which sectors a scan that skips UDF passes, by tag and type. |
| ElTorito.SignValidationEntry | media/isokit/isokit.go:1202-1206 | The wrapping checksum makes the sixteen words of the validation entry sum to 0 modulo 65536 and touches no other byte. |
| ElTorito.MakeBootCatalog | media/isokit/isokit.go:1196-1216 | The built sector is a valid catalog with the capped sector count and the load address truncated to 32 bits. |
| EfiBootInjection.AddElToritoEFIBoot | media/isokit/isokit.go:1101-1229 | Fails exactly for the stated reasons, in order, and then leaves the image byte-identical; on success only sectors 15, 17, 18, 19 and the tail change, each to the stated contents. |
| EfiBootInjection.AcceptedIff | media/isokit/isokit.go:1101-1186 | By the bytes of sectors 15 and 17 to 19, an image is accepted if and only if sector 15 is zero and 17 is a set terminator, or NSR with TEA01 and a zero sector behind it. |
| EfiBootInjection.OccupiedSector17 | media/isokit/isokit.go:1147-1186 | Any other sector 17 is refused, a boot record as already bootable and everything else, a Joliet descriptor included, as an unsupported layout. |
| EfiBootInjection.ShiftRecognitionSequence | media/isokit/isokit.go:1148-1169 | On UDF media NSR and TEA01 end up one sector later, or nothing changes. |
| EfiBootInjection.AppendBootImage | media/isokit/isokit.go:1116-1119 | The boot image is appended zero-padded at the next sector boundary after the end of the file, and that sector number is returned. |
| ElToritoProperties.InspectionReachesInjectedCatalog | media/isokit/isokit.go:215-244 | After an injection, inspection reaches the injected catalog if and only if sector 16 is passable or is itself a record of that catalog. |
| SampleImages.BareImageDoesNotBoot | media/isokit/isokit.go:1135-1228 | An image with a set terminator at sector 17 and nothing at 15, 16 and 18 is accepted, and after every injection inspection finds no boot record. |
| SampleImages.UdfImageBootsButCannotBeRepointed | media/isokit/isokit.go:1421-1438 | A pure UDF image is accepted, boots after every injection, and its entry cannot be repointed. |
| SampleImages.InjectSamples | media/isokit/isokit.go:1101-1284 | Handed to the operations themselves, both images are injected, and then the one fails the boot check and the other the repointing. |
| SampleImages.JolietImageIsRefused | media/isokit/isokit.go:1147-1186 | An image with a supplementary descriptor at sector 17 is refused. |
| SampleImages.RefuseSamples | media/isokit/isokit.go:1234-1246 | A BIOS-only image and an EFI image that is not marked bootable, handed to the check itself, are refused for that. |
| ElToritoProperties.InjectedImageBoots | media/isokit/isokit.go:1188-1246 | With a passable sector 16, injecting and inspecting round-trip to an EFI, bootable entry with the expected address and count, and firmware accepts the image. |
| ElToritoProperties.LoadAddressNamesBootImage | media/isokit/isokit.go:1188-1216 | The recorded address is the boot image's first sector if and only if fewer than 2^32 sectors precede it, and then the bytes there are the boot image up to the end of the file. |
| ElToritoProperties.SectorCountCoversBootImage | media/isokit/isokit.go:1208-1215 | The sector count covers the boot image exactly up to 65535 virtual sectors and never reaches past the appended region. |
| ElToritoProperties.SecondInjectionIsRejected | media/isokit/isokit.go:1135-1141 | An injected image is always refused a second injection. |
| ElToritoProperties.InjectionKeepsRecognitionSequence | media/isokit/isokit.go:1147-1169 | On UDF media the recognition sequence, read with foreign CD001 descriptors skipped, holds the same descriptors in the same order. |
| BootRepointing.SetElToritoBootImage | media/isokit/isokit.go:1253-1284 | On failure nothing changes; on success exactly the six bytes of count and address change. |
| BootRepointing.ScannersAgree | media/isokit/isokit.go:1421-1438 | Whenever the strict scan finds a catalog, inspection uses the same one. |
| BootRepointing.SameCatalog | media/isokit/isokit.go:1271-1282 | Patching those byte positions never hides or moves a boot record, even if the catalog lies among the descriptors. |
| BootRepointing.RepointedEntryReadsBack | media/isokit/isokit.go:1253-1284 | Inspection then reports the new address and count, the same platform and bootable flag, and the same verdict of firmware. |
| BootRepointing.RepointableWhenOnlyIsoDescriptorsPrecede | media/isokit/isokit.go:1253-1269 | An inspectable image can be repointed if and only if its boot record lies below sector 32 with CD001 descriptors only before it. |
| BootRepointing.InjectedImageRepointable | media/isokit/isokit.go:1421-1438 | An injected image can be repointed if and only if sector 16 is a CD001 descriptor, no set terminator and, if a boot record itself, one whose catalog reads. |
| IsoDirectory.ReadPrimaryVolumeDescriptor | media/isokit/isokit.go:1369-1386 | Returns the first type 1 descriptor before any foreign sector or terminator, or the error that stops the search. |
| IsoLookup.PrimaryIff | media/isokit/isokit.go:1369-1386 | A descriptor is found if and only if it is the first of type 1 in sectors 16 to 31 with only CD001 ones of other types, and no terminator, before it. |
| IsoDirectory.VersionIsCutOff | media/isokit/isokit.go:1405-1412 | An entry is listed under its name without the version, in upper case; "boot.wim;1" is worked out in `KeyOfBootWim`. |
| IsoDirectory.ReadDirectoryRecords | media/isokit/isokit.go:1388-1419 | Terminates on every input and lists exactly the records met, later duplicates winning, or fails as stated. |
| IsoDirectory.ReadingInvertsLayout | media/isokit/isokit.go:1395-1417 | On records packed without crossing sectors and zero-filled between, the reader stops exactly where records were laid. |
| IsoDirectory.LaidOutDirectoryListsItsRecords | media/isokit/isokit.go:1388-1419 | A laid-out directory lists exactly its records: none missed, none invented. |
| IsoDirectory.EncodedRecordReadsBack | media/isokit/isokit.go:1405-1415 | Name, extent, size and directory flag of a record encoded as in section 9.1 of ECMA-119 are read back. |
| IsoLookup.LookupISOEntry | media/isokit/isokit.go:1444-1455 | Returns the exact entry if there is one, otherwise some tolerated one, and none only when none is tolerated, for any map iteration order. |
| IsoLookup.LevelOneNameIsCandidate | media/isokit/isokit.go:1457-1469 | A name truncated to 8.3 is found under its full spelling. |
| IsoLookup.PathPartsOfJoined | media/isokit/isokit.go:1051 | A path, with or without leading slash, is taken apart into the names it was joined from. |
| IsoLookup.SlashesAreTrimmed | media/isokit/isokit.go:1051 | Any slashes at either end of a path are dropped, and nothing else. |
| IsoLookup.RootEntryReadsRecord | media/isokit/isokit.go:1047-1049 | The root directory is read off the record encoded at offset 156 of the descriptor. |
| IsoLookup.FindFileExtent | media/isokit/isokit.go:1035-1067 | Its result is one of the outcomes of following the path through the directories on disk, or the descriptor error. |
| IsoTree.LookupFollowsTree | media/isokit/isokit.go:1052-1066 | On a tree of laid-out directories, walked by exact upper-case names, look-up returns exactly the extent of the node a path reaches, and a path with an unlisted name has exactly the outcomes of looking up its rest in the directory that does not list it. |
| IsoTree.LookupReturnsNode | media/isokit/isokit.go:1035-1067 | From the bytes alone: when the primary descriptor holds the root's record and the directories are laid out, looking up a listed path returns the extent of the node it reaches, and nothing else. |
| IsoTree.MissingPathIff | media/isokit/isokit.go:1444-1469 | A path whose last name is not listed is reported missing if and only if no listed key is a prefix of that name or its 8.3 form; otherwise the extent of such a key's file is returned. |
| IsoTree.UnmistakenPathIsMissing | media/isokit/isokit.go:1057-1060 | A path with an unlisted name anywhere, for which nothing can be mistaken, is reported missing. |
| IsoTree.BootIsMistakenForBootmgr | media/isokit/isokit.go:1449-1453 | In a directory that lists BOOT alone, looking up BOOTMGR returns BOOT's extent. |
| IsoTree.BootSectorIsMistaken | media/isokit/isokit.go:1449-1453 | Such a directory, encoded in one sector of an image: the look-up of BOOTMGR returns the entry of BOOT and nothing else. |
| IsoTree.OutcomesSurviveInjection | media/isokit/isokit.go:1035-1067 | When the injection rewrites no directory, paths through the directories have the same outcomes before and after it, found, missing or mistaken. |
| IsoTree.LookupSurvivesInjection | media/isokit/isokit.go:1035-1067 | After such an injection the same holds of the injected image, with the root's record as it was before, and the contents of a file outside the sectors actually rewritten are unchanged. |
| FatCluster.PaddedLengthIsFirstBoundary | media/isokit/isokit.go:513-527 | Padding ends on the first cluster boundary at or after the end of the data. |
| FatCluster.ClusterTable | media/isokit/isokit.go:474-507 | The cluster size by the bytes of files, with its four thresholds. |
| FatCluster.NextClusterIsMonotone | media/isokit/isokit.go:492-507 | Padding to larger clusters never leads to smaller ones. |
| FatCluster.ResolvePadding | media/isokit/isokit.go:540-561 | The iteration from 512 ends at the least fixed point in at most five of its eight passes, whatever the files. |
| FatCluster.FilesFillClusters | media/isokit/isokit.go:529-564 | Every file written then fills whole clusters of the volume formatted for the files as written, also when a name in both maps was counted twice. |
| FatDirectoryPatch.PatchFATFileSize | media/isokit/isokit.go:598-640 | Changes the size field of the first plain file slot with the given name and size and no other byte, or fails and changes nothing. |
| FatDirectoryPatch.ShortNameOfParts | media/isokit/isokit.go:642-663 | A name with an extension has the short name of its upper-cased, space-filled parts, and none if and only if a part is too long. |
| FatDirectoryPatch.ShortNameWithoutDot | media/isokit/isokit.go:642-663 | The same for a name without an extension. |
| FatDirectoryPatch.ShortNameOfVioser | media/isokit/isokit.go:642-663 | "vioser.inf" has the short name "VIOSER  INF". |
| FatDirectoryPatch.PlainFileAttributes | media/isokit/isokit.go:616-623 | Volume labels, directories and long-name slots are no file slots. |
| ExactFiles.BaseFollowsLastSlash | media/isokit/isokit.go:605-608 | The name looked for is what follows the last slash of the path. |
| FatDirectoryPatch.PatchLeavesOtherNames | media/isokit/isokit.go:568-573 | Patching one file leaves the slots of every other short name as they were. |
| FatDirectoryPatch.PatchedSlotIsPassedOver | media/isokit/isokit.go:615-631 | A patched slot has the new size; of the slots that matched, all others go on matching, and this one if and only if the size did not change. |
| ExactFiles.PatchExactFiles | media/isokit/isokit.go:568-573 | On success every exact file has been patched once, in some order; on failure those before the first file that has no short name or no matching slot. |
| ExactFiles.SlotsGetSizesInOrder | media/isokit/isokit.go:568-573 | Over any list of files, the slots matching a short name and padded size end up, in ascending order, with the true sizes below the padded one in the order of patching, and then with the padded size. |
| ExactFiles.GroupIsRightIff | media/isokit/isokit.go:568-573 | Every matching slot gets the size that is rightfully its own if and only if those sizes, in slot order, are that sequence. |
| ExactFiles.OwnSlotIsPatchedIff | media/isokit/isokit.go:593-631 | A file that alone has its short name and padded size gets its true size in its own slot if and only if that is the padded size, or no earlier piece of the image, tables and file contents included, holds a 32-byte stretch that passes for the slot, and no earlier entry of the directory does. |
| ExactFiles.SameNamesAreRightIff | media/isokit/isokit.go:568-573 | Among any files, two that share a short name and padded size both get their true size if and only if these are equal, or the first one patched is below the padded size and owns the earlier slot, or it fills its clusters and owns the later one. |
| ExactFiles.FullFileFirstFails | media/isokit/isokit.go:568-573 | An image with two such files on which patching in slot order gives both the wrong size. |
| ExactFiles.ContentsLikeASlotFail | media/isokit/isokit.go:588-598 | An image on which the patch changes a file's contents and leaves the entry alone. |
| ExactFiles.PaddedFilesStandOut | media/isokit/isokit.go:529-564 | After padding to clusters, a true size that is the padded size of another file of that short name belongs to a file that was not padded. |
| ExactFiles.ExactFilesAreRestored | media/isokit/isokit.go:529-573 | When nothing but a file's own slot passes for it, the padding and the loop leave every file's true size in its slot, in whatever order the map is read. |
| SftpServer.ReachableInvariant | sftpshare/sftpshare.go:182-229 | Every interleaving of accept loop, handlers and Close callers keeps the server's invariant. |
| SftpServer.OpenHandlersAreTracked | sftpshare/sftpshare.go:205-229 | The tracked set always contains every open connection with a handler, and nothing without a handler or one about to start. |
| SftpServer.NothingOpenAfterClose | sftpshare/sftpshare.go:182-221 | Once the Close call that set the flag has returned, only the connection the accept loop has not yet checked can be open, and none once the loop has returned. |
| SftpServer.SecondCloseReturnsEarly | sftpshare/sftpshare.go:184-187 | A run in which another Close call returns while a connection is being served. |
| SftpServer.CloseGuaranteesIff | sftpshare/sftpshare.go:182-203 | That nothing but the unchecked connection is open after a returned Close call, in every run, is guaranteed if and only if the call set the flag. |
| SftpServer.OpenConnectionsAwaitTheSetter | sftpshare/sftpshare.go:188-201 | While the server is closed, every open connection but the unchecked one is still in the list of the call that set the flag. |
| SftpServer.ServerWindsDown | sftpshare/sftpshare.go:205-229 | After Close, every step but another Close call uses up a finite amount of work. |
| SftpServer.AtRestNothingIsLeft | sftpshare/sftpshare.go:182-229 | When no other step is possible, the loop has returned, nothing is open and nothing is tracked. |
| SftpServer.CallCanFinish | sftpshare/sftpshare.go:182-203 | A Close call under way can finish in steps of its own, whatever everyone else does not do. |
| SftpServer.OthersDoNotBlock | sftpshare/sftpshare.go:182-203 | What a Close caller can do next stays possible through every step of anyone else. |
| SftpServer.AtRestEveryCallIsOver | sftpshare/sftpshare.go:182-203 | When no step but a further Close call is possible, every call has returned. |
| ResumableDownload.Disk.DownloadOne | media/uupdump/download.go:130-226 | The file and the result after one attempt, for every pair of replies and every previous content. |
| ResumableDownload.FirstReplyDecides | media/uupdump/download.go:147-226 | What each reply to the first request does to an unfinished file, by the bytes it brings. |
| ResumableDownload.RefusedRangeIsRetried | media/uupdump/download.go:160-169 | After a refused range the file is asked for whole, and the answer replaces any leftover. |
| ResumableDownload.UncutAttemptCompletesPrefix | media/uupdump/download.go:130-240 | An attempt whose replies are not cut, from a prefix, succeeds with the whole file, with a digest or without one when the listed size is not too small. |
| ResumableDownload.SuccessHasDigest | media/uupdump/download.go:218-223 | With a digest, success leaves exactly the expected content whatever the server sent, and content failing the digest never stays. |
| ResumableDownload.AttemptKeepsPrefix | media/uupdump/download.go:141-226 | Against a faithful server every attempt keeps the disk a prefix of the remote file. |
| ResumableDownload.ReportedSizeIsFileSize | media/uupdump/download.go:138-225 | The size reported on success is that of the file on disk. |
| ResumableDownload.TwoUncutAttemptsComplete | media/uupdump/download.go:130-240 | With a digest, from any disk state and whatever size is listed, any run with two attempts whose replies are not cut, the last one included, ends with the remote file on disk; if the size fits, wherever the two are. |
| ResumableDownload.UncutEndCompletesPrefix | media/uupdump/download.go:130-240 | From a prefix, a run that ends in an uncut attempt ends with the remote file on disk, with a digest or without one when the listed size is not too small. |
| ResumableDownload.OneUncutCompletesPrefix | media/uupdump/download.go:130-240 | From a prefix and with a fitting size, one uncut attempt anywhere in a run is enough. |
| ResumableDownload.TwoUncutAnywhereSufficeIff | media/uupdump/download.go:130-240 | Two uncut attempts anywhere in a run are enough, in every run, if and only if the listed size fits or the file is empty. |
| ResumableDownload.OneUncutAttemptMayOnlyClear | media/uupdump/download.go:218-223 | Two are needed in general: from some disk state one uncut attempt only removes the file. |
| ResumableDownload.SizeMustNotBeTooSmall | media/uupdump/download.go:228-240 | Without a digest, a prefix is reported complete only when it is, against every faithful server, if and only if the listed size is absent or not too small. |
| ResumableDownload.CompleteFileIsKeptIff | media/uupdump/download.go:233-238 | A complete file survives every further attempt if and only if the listed size fits it or it is empty. |
| DownloadCache.CacheIsCrashSafe | wsl/distro.go:150-202 | Through any run of attempts with a crash between any two steps and outside deletions, the marker implies an absent or complete payload, and an attempt that succeeded left a complete one, present unless it was deleted after that attempt had found or placed it. |
| DownloadCache.BereftByLaterDeletion | wsl/distro.go:159-165 | An attempt loses its payload only to a deletion at a moment when it had found or placed it; earlier deletions, stale markers included, take nothing away. |
| DownloadCache.UniqueTempNeedsNoExclusion | unattend/download.go:50-112 | With temporary names of their own any number of processes may share the cache, with the same guarantee for each success. |
| DownloadCache.FixedPartNeedsExclusion | wsl/wsl.go:154-164 | With one part name, a run of two processes leaves the marker beside a partial payload. |
| DownloadCache.NoExclusionNeededIff | wsl/wsl.go:94-164 | Every run of any number of processes keeps a consistent cache consistent if and only if temporary names are unique. |
| DownloadCache.CacheDir.Obtain | wsl/wsl.go:94-164 | One attempt as coded takes exactly the steps of the protocol; it is a hit, changing nothing, if and only if the cache is not bypassed and marker and payload are there; otherwise it succeeds, with a complete payload and the marker, if and only if no operation fails. |
| DownloadCache.SoloSuccessHasPayload | unattend/download.go:50-73 | An attempt that is alone and reports success leaves the complete payload in place. |
| LogTailer.LogTailer.Tail | cmd/winkit-service/peagent.go:98-151 | One poll moves cursors and output as the polling function says, including files that shrink, vanish or change while read. |
| LogTailer.PollLeavesOtherFiles | cmd/winkit-service/peagent.go:98-151 | Polling one file leaves cursor and output of every other alone. |
| LogTailer.TailingForwardsEachLineOnce | cmd/winkit-service/peagent.go:110-150 | For any append-only history and any placement of polls among those of other files, the output is exactly the non-empty complete lines up to the cursor, each once and in order, and the cursor is past every newline the last poll saw. |
| LogTailer.TailingCatchesUp | cmd/winkit-service/peagent.go:127-150 | Once the last newline has been seen, the output equals splitting the whole file into lines, so all schedules agree. |
| LogTailer.EveryLineIsForwardedOnce | cmd/winkit-service/peagent.go:110-150 | The same read off the bytes: the text up to the cursor is raw lines each ended by a newline, and the output is those lines in order, each cut after its last byte that is no carriage return, without those that have none; no newline the last poll saw lies behind the cursor. |
| LogTailer.CrlfLineIsForwarded | cmd/winkit-service/peagent.go:142-146 | A line ended by CR LF is forwarded without either, also when a poll falls between the two bytes. |
| LogTailer.ReplacementForwardedWholeIff | cmd/winkit-service/peagent.go:110-116 | A replaced file is forwarded whole by the poll that sees it, whatever its contents, if and only if it is shorter than the cursor or too short to hold a line, and the same when a poll saw it empty before. |
| LogTailer.NoticedReplacementIsTracked | cmd/winkit-service/peagent.go:110-113 | A replacement noticed by its smaller size is tracked from its start like a new file. |
| WimPatch.GroupRegistryWrites | winpe/wim_patch.go:80-101 | The groups are one per hive, in order of first mention, each with all of its DWORD patches and all of its key writes in order. |
| WimPatch.GroupsAreDistinct | winpe/wim_patch.go:80-101 | No hive has two groups. |
| WimPatch.GroupingPreservesMeaning | winpe/wim_patch.go:80-140 | Extracting each hive once, applying its group and staging it equals, in image and in failure, applying all DWORD patches and then all key writes one by one. |
| WimPatch.GroupingIsFaithfulIff | winpe/wim_patch.go:83-90 | For a given patch set, grouped and sequential patching agree on every image if and only if no two of its spellings name one file. |
| WimPatch.EveryGroupingIsFaithfulIff | winpe/wim_patch.go:83-90 | They agree for every patch set if and only if spellings and files correspond. |
| WimPatch.SeparateStagingKeepsOnlyLast | winpe/wim_patch.go:103-105 | Extracting separately for each write would keep only the last write to a hive. |
| WimPatchLifecycle.Workspace.PatchWIM | winpe/wim_patch.go:17-72 | In every run, every error exit included, the event log stays safe and no temporary directory is left; the patch succeeds if and only if no call fails, and then one hive for each group was staged. |
| WimPatchLifecycle.EachDirectoryIsRemovedOnce | winpe/wim_patch.go:31-36 | In a safe log with nothing left, each directory made is removed afterwards and only once. |
| WimPatchLifecycle.OverwriteFindsStagedFiles | winpe/wim_patch.go:28-44 | No directory with a staged hive is removed before the overwrite has read it. |
| RegistryText.Utf16RoundTrip | winpe/wsl1_registry.go:21-28 | Decoding inverts the UTF-16 encoding on every text of scalar values, surrogate pairs included (sections 2.1 and 2.2 of RFC 2781). |
| RegistryText.EncodeUtf16LE | winpe/wsl1_registry.go:21-28 | The bytes are the little-endian code units of the text and one NUL. |
| RegistryText.SurrogatesOfDeseret | winpe/wsl1_registry.go:21-28 | U+10437 is encoded as 0xD801, 0xDC37. |
| RegistryText.BytesOfLetter | winpe/wsl1_registry.go:21-28 | "A" is encoded as 0x41, 0, 0, 0. |
| RegistryText.SzRoundTripIff | winpe/wsl1_registry.go:19-28 | A string reads back from REG_SZ data if and only if it contains no NUL. |
| RegistryText.EncodeMultiSz | winpe/wim_patch_types.go:43-51 | The bytes are the little-endian code units of the joined strings and two NULs. |
| RegistryText.BytesOfOneString | winpe/wim_patch_types.go:43-51 | The list of "A" is encoded as 0x41 and five zero bytes. |
| RegistryText.MultiSzRoundTripIff | winpe/wim_patch_types.go:41-51 | A list reads back from REG_MULTI_SZ data if and only if its strings are non-empty and contain no NUL. |
| RegistryText.MultiSzIsInjective | winpe/wim_patch_types.go:43-51 | On such lists the encoding is injective. |
| RegistryText.EmptyStringEncodesLikeNone | winpe/wim_patch_types.go:43-51 | Off them it is not: no strings and one empty string encode alike. |
| CacheKey.WriteStream | wsl/wsl.go:61-79 | Whatever order the maps are read in, the bytes fed to the hash are the header followed by the entries in ascending order of tagged keys. |
| CacheKey.StreamIsUnique | wsl/wsl.go:64-79 | A recipe has only one such stream, so the key does not depend on map iteration order. |
| CacheKeyProperties.StreamSpelledOut | wsl/wsl.go:61-79 | The stream of any recipe with one argument and one file, spelled out. |
| CacheKeyProperties.StreamDeterminesRecipe | wsl/wsl.go:58-79 | Over NUL-free recipes with no equals sign in an argument name and no "file:" in the contents of any but the last file, streams are equal if and only if the recipes are, whatever arguments and files each has: every change invalidates. |
| CacheKeyProperties.StreamDeterminesValues | wsl/wsl.go:58-79 | Between NUL-free recipes with the same arguments and files those two conditions are not needed. |
| CacheKeyProperties.ArgumentNamesCollide | wsl/wsl.go:73-75 | In any recipe, an argument name with an equals sign gives another recipe with the same stream, if the part before the sign keeps the name's place among the keys. |
| CacheKeyProperties.FileNamesCollide | wsl/wsl.go:75-78 | In any recipe, a file whose contents have "file:" in them and that another file follows gives another recipe with the same stream, if the name that grows keeps its place among the keys. |
| CacheKeyProperties.OneArgumentIsDeterminedIff | wsl/wsl.go:73-75 | For a recipe with one argument, no other NUL-free recipe has its stream if and only if neither name nor value has an equals sign. |
| CacheKeyProperties.TwoFilesAreDeterminedIff | wsl/wsl.go:75-78 | For a recipe with two files, no other NUL-free recipe has its stream if and only if, in the first contents followed by the second key, cutting at any other "file:" leaves the names out of order. |
| CacheKeyProperties.HeadersWithNulCollide | wsl/wsl.go:63 | Any recipe whose build file contains a NUL shares its streams with another. |
| CacheKeyProperties.ContentsWithNulCollide | wsl/wsl.go:76-77 | Two different recipes with the same keys and stream, once a file contains a NUL. |
| MediaSpec.FilterGA | media/uupdump/spec.go:206-218 | Splits candidates into shipped and other builds in order, unless a build was pinned, when all are kept. |
| MediaSpec.SelectMedia | media/uupdump/uupdump.go:148-159 | Matching and then filtering keeps exactly the wanted candidates in order. |
| MediaNaming.ResolveDecides | media/uupdump/spec.go:58-163 | A successful Resolve yields an exact build, a series or the latest ladder, consistent with the table of shipped releases. |
| MediaNaming.StatedAxesAreHonoured | media/uupdump/spec.go:84-151 | Every product, version and build the caller stated holds of the result, and a build is pinned exactly when one was stated. |
| MediaNaming.ResolveIsIdempotent | media/uupdump/spec.go:58-163 | A result stated back in full, as product, version, build and the rest at once, passes every cross-check and resolves to itself. |
| MediaResolving.ResolveAcceptsIff | media/uupdump/spec.go:58-163 | Resolve succeeds if and only if os and arch are unstated or the supported ones, a stated product is 10 or 11, a stated build has the form of one and its release agrees with what else is stated, and a stated version name has shipped. |
| MediaResolving.RefusedPin | media/uupdump/spec.go:92-151 | Which error each conflicting or unknown pin gives. |
| MediaResolving.ResolveYields | media/uupdump/spec.go:58-163 | Every axis of the result: the release of a build, Windows 11 for "latest" and for names that shipped for both products, 24H2 and 22H2 when no version is stated, and the texts or defaults of the rest. |
| MediaResolving.ResultIsUnique | media/uupdump/spec.go:58-163 | Those conditions leave only one product, version, series and build. |
| MediaResolving.BuildFormIff | media/uupdump/spec.go:52-53 | A build is five digits, or five digits, a dot and more digits. |
| MediaResolving.SpacesAreTrimmed | media/uupdump/spec.go:59-64 | White space around a stated text does not matter. |
| MediaResolving.WantedIff | media/uupdump/spec.go:190-218 | A decided specification wants the build it names, the builds of its series, or any shipped one. |
| MediaNaming.ChosenBuildsBelong | media/uupdump/spec.go:190-218 | Every build chosen for a pinned or named specification belongs to its series, and its release in the table is that of the result. |
| MediaNaming.NameIsInjective | media/uupdump/spec.go:223-238 | File names are equal if and only if product, pin and language are, although a language may contain dashes. |
| MediaNaming.SameNameIffSameMedia | media/uupdump/spec.go:190-238 | Two decided specifications share a file name if and only if they agree on product and language and want the same builds, however each was pinned. |
| MediaNaming.SameNameSelectsSame | media/uupdump/spec.go:220-238 | Of any two inputs that Resolve accepts, equal names select the same builds in the same order from any candidates. |
| MediaNaming.EditionIsNotInName | media/uupdump/spec.go:220-238 | Changing the edition changes the resolved edition and nothing else, so the name stays the same. |
| MediaCache.DefaultResolves | media/uupdump/spec.go:44-50 | Nothing stated means Windows 11 24H2, series 26100, arm64, PROFESSIONAL, en-us, with no build pinned. |
| MediaCache.DefaultName | media/uupdump/spec.go:223-238 | Its cache file is windows-11-24h2-arm64-en-us.iso. |
| MediaCache.Cache.Fetch | media/uupdump/uupdump.go:112-189 | The directory after a fetch and the image handed out, for every directory and every outcome of assembling. |
| MediaCache.BootableFileIsHandedOut | media/uupdump/uupdump.go:114-136 | A cached file that is not empty and boots is handed out, and the directory left alone. |
| MediaCache.UnbootableFileIsReplaced | media/uupdump/uupdump.go:114-189 | One that does not boot is removed, and replaced by an assembled image. |
| MediaCache.AliasLinksToNewest | media/uupdump/uupdump.go:228-244 | After a fetch that assembled an image the old name links to it, unless a real file stands there. |
| MediaCache.OnlyBootableIsHandedOut | media/uupdump/uupdump.go:114-189 | Whatever is handed out was just assembled, or is not empty and boots. |
| MediaCache.RunKeepsTruthful | media/uupdump/uupdump.go:112-189 | Through any run of fetches every file but the alias holds an image of a decided specification of its name. |
| MediaCache.FetchIsRightIff | media/uupdump/uupdump.go:114-137 | A fetch hands out an image of the product, language, edition and builds it was asked for if and only if the alias does not mislead and the usable image it comes upon, if any, was made for the same edition. |
| MediaCache.SecondEditionGetsFirst | media/uupdump/uupdump.go:112-137 | The second of two fetches that differ in the edition alone is handed the first one's image. |
| MediaCache.HomeGetsProfessional | media/uupdump/uupdump.go:112-137 | Fetching the default and then HOME hands out PROFESSIONAL for HOME. |
| MediaCache.FirstFetchBecomesDefault | media/uupdump/uupdump.go:228-244 | After any other specification's first fetch into an empty directory, the default specification is handed that image. |
| MediaCache.AnotherReleaseHasAnotherName | media/uupdump/spec.go:223-238 | Such a specification exists: pinning series 26200. |
| Utf8.CutIsValidIff | winpe/hostname.go:33-35 | Valid UTF-8 may be cut exactly where no continuation byte follows. |
| Utf8.ValidIff | winpe/hostname.go:19-28 | Texts that decode without a replacement are exactly the encodings of section 3 of RFC 3629. |
| GuestHostname.GuestHostname | winpe/hostname.go:19-40 | Terminates, as each pass over double dashes shortens, and returns the name that replacing broken bytes, squeezing, trimming and truncating define. |
| GuestHostname.ForbiddenCharacters | winpe/hostname.go:20-26 | The characters that become dashes, spelled out. |
| GuestHostname.SeparatorsBecomeOneDash | winpe/hostname.go:19-32 | Any run of such characters and dashes between two words becomes one dash. |
| GuestHostname.HostnameIsLegal | winpe/hostname.go:14-40 | For any input the name has 1 to 15 bytes, no forbidden character, no double dash and no dash at either end. |
| GuestHostname.HostnameFixesLegalNames | winpe/hostname.go:19-40 | A name is left alone if and only if it is legal and either valid UTF-8 or, at fifteen bytes, ending inside a U+FFFD. |
| GuestHostname.HostnameIsValidIff | winpe/hostname.go:33-35 | The name is valid UTF-8 if and only if the cut to fifteen bytes, if any, falls between two characters. |
| GuestHostname.DerivingTwiceIsOnceIff | winpe/hostname.go:19-40 | Deriving twice is deriving once if and only if that holds or the bytes left of the cut character look like the start of U+FFFD. |
| GuestHostname.CutCharacterIsReplaced | winpe/hostname.go:19-40 | Fourteen letters and U+00E9 give a name that deriving again changes. |
| GuestHostname.AsciiIsDerivedOnce | winpe/hostname.go:19-40 | For ASCII cell IDs deriving twice is deriving once. |
| GuestHostname.NameSpellsCellID | winpe/hostname.go:16-39 | The name's own bytes are a non-empty prefix of those of the cell ID, broken bytes replaced, all of them when it fits, and the default stands in when there are none. |
| RegisterDump.ExtractRegister | internal/diag/regparse.go:14-31 | Terminates for every name, the empty one included, and returns the token at the search's hit, or "". |
| RegisterDump.RegisterIsRead | internal/diag/regparse.go:14-35 | Of a text with the name at its start or behind a separator, the value is what follows up to the next space, newline, tab or carriage return. |
| RegisterDump.SearchIsRightIff | internal/diag/regparse.go:5-31 | The result is the token after the first occurrence at the start of a token, or "" without one, on every dump, if and only if the name does not overlap itself across a boundary. |
| RegisterDump.WhitespaceFreeNamesAreSafe | internal/diag/regparse.go:14-35 | For names free of white space it always is. |

## Left out

- Failing writes: in the image models a read may fail, a write does not; so a half-written image after
  an I/O error is not captured.
- Panics: a directory record whose name runs past its end makes the original panic; the model reports
  it as malformed.
- Non-ASCII text: upper and lower case, white space and case folding are those of ASCII; computer
  names and cache keys are bytes, registry strings are scalar values.
- 64-bit overflow of file offsets and sizes.
- `CreateFATImage` and go-diskfs: how a FAT image is formatted and its files written; the final
  read-back of exact files, which reports sizes that went to the wrong slot.
- IsoLookup.LookupISOEntry: among several tolerated names any may be returned, as map iteration may.
- HTTP, TLS and SSH, progress reports, contexts and cancellation; a server is what it answers.
- `DownloadFiles`: starting several downloads at once; each works on a file of its own.
- ResumableDownload.Disk.DownloadOne: a digest is taken to identify the content, so collisions are not
  modelled; hash, size and file errors of the operating system are left out.
- DownloadCache.CacheDir.Obtain: creating the directory and the request that precedes the first file
  operation are folded into the failure to create the part file; the payload's bytes are only partial
  or complete.
- CacheKey.WriteStream: the hash itself, its truncation to four bytes and the image slug in the file
  name are left out; equal streams are what equal names rest on.
- CacheKeyProperties.StreamDeterminesRecipe: that each of its conditions is needed is proved by
  families of colliding recipes, and as an equivalence only for recipes with one argument or two files.
- LogTailer.LogTailer.Tail: the timestamp, the event name derived from the path and the JSON form of
  an output line.
- WimPatch.GroupingPreservesMeaning: a hive is an abstract value and a write an abstract operation on
  it that may fail; wimlib and go-regedit are not modelled.
- WimPatchLifecycle.Workspace.PatchWIM: the added files and trees can only fail or succeed before the
  hives are patched.
- MediaSpec.SelectMedia: listing and merging search results, which also consider product and delta
  builds, precede it.
- MediaCache.Cache.Fetch: the pre-specification download under the old name is taken for a default
  image; the ladder of up to four assembling attempts is one outcome, and the
  directory is changed by fetches only.
- `DiagnoseISO`, ISO mastering, cabinet files, unattended-setup XML, scripts, the command line, the
  terminal interface and virtual-machine start-up.
