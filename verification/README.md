# BACKRabbit: offline images, archives and device protocols

BACKRabbit removes root patches from phone firmware and writes stock data back. This project models
the parts of it that take data apart and put it together again, and proves what each promises:

- **Ramdisk archives.** `CpioFormat` is the newc format (`Records`, `Dumped` write, `ReadRecord`, `Load`
  read), `Hex`, `Utf8`, `NameOrder` and `Paths` its hexadecimal fields, names, map order and name
  normalisation. `CpioBackup` says what `backup`, `rm` and `restore` leave behind, `CpioPatch` and
  `TextPatch` what patching the fstab files does. `CpioArchive` is the archive object whose methods run the
  loops: the record reader, the writer, the merge walk of `backup`, `restore`, the in-place filter.
  `CpioRoundTrip` and `CpioInverse` hold the theorems, `CpioFailures` the archives `restore` fails on.
- **Boot images.** `Format` recognises blocks. `BootHeader` has the eight header layouts behind one set of
  accessors, where an absent field reads 0 and swallows writes; `BootStructs` writes the same headers as their
  packed structs, member by member. `BootLayout` finds the nine page-aligned blocks, lays them out as the writer
  does, and compares the two; `BootKernel` takes a kernel block apart (MTK header, zImage header, payload, zImage
  tail, device tree); `BootVendor` has the vendor ramdisk table; `BootRepack` says what `unpack` leaves as files
  and what `repack` makes of any files; `BootTail` the vendor marks, vbmeta and AVB footer; `BootParts` says all
  of these in terms of the bytes that stand in the image; `HeaderFile` is the text form of a header. `BootWriter`
  is `repack` as it runs, writing block after block and patching the result. `BootRoundTrip`, `BootFiles` (with
  compression) and `BootWhole` hold the theorems, `BootSamples` small images they speak about or fail on.
- **Streams.** `Lz4Legacy` has the two legacy LZ4 framings with their encoder and decoder objects, `Payload`
  the extraction of a boot image from an OTA payload (`PayloadProofs`: what it means).
- **Device side.** `SparseRepair` has the audit of all partitions and the repair of differing sectors from
  images the manifest vouches for (`SparseRepairProofs`), against what the interface `IFirehoseClient` promises;
  `Firehose` has the client of this repository behind that interface, over a transport. `Sahara` is the programmer
  upload and its state machine (`SaharaProofs`), `AdbKey` the two encodings of an RSA public key, `SparseImages`
  the expansion and flashing of sparse images (`SparseImageProofs`).

`Bytes` holds bytes, fixed-width integers and the few sequence facts all of them use.

Code that updates fields, buffers or files in place is a class or a method over an array, proved equal to a
function of the old state; the theorems are lemmas about those functions. Foreign code is a parameter: xz and
the kernel and block compressors are pairs of functions, assumed inverse where a theorem needs it; digests
are a parameter of which at most freedom from collision on the data at hand is assumed; the partition table
and the way a device's storage reacts to a write are parameters too.

## Where the code and its promises part

Each entry names the lemma with the exact condition and the lemma with an input on which the promise fails.

- `restore` clears the archive when nothing was backed up and nothing recorded; a kept `n` that is compressed
  and a kept `n.xz` that is not share one backup name; uncompressed `.rmlist` and `.magisk` entries of the
  root land on control names; names that are not normalised, or contain a NUL, cannot be removed again.
  Exactly: `CpioInverse.RestoreUndoesBackup`. Inputs: `CpioFailures`, one lemma for each.
- The fstab filter is not idempotent. A second pass changes nothing exactly when the bytes kept around removed
  flags nowhere spell a new flag (`TextPatch.FilteredTwice`); one pass is enough when every removed flag is
  followed by the end, a byte that no pattern contains, or another flag (`TextPatch.OnePassIsEnough`). Input:
  `veravbify` becomes `verify` (`TextPatch.FilteringIsNotIdempotent`). The filter's three name exclusions can
  never apply to a name that starts with `fstab` (`CpioPatch.PatchTouchesOnlyFlags`).
- A device tree less than 40 bytes behind a rejected magic may not be seen, and no other is missed
  (`BootKernel.FindDtbFinds`, input: `BootKernel.TreeNotSeen`).
- The walk that tells LG's LZ4 streams apart adds sizes in 32 bits. It is never left when a wrapped sum leads it
  back to an offset it came from (`Format.WalkIsLeft`, input: `Format.BlockThatLeadsBack`).
- A recompressed zImage kernel within the last four bytes below the original's size has no room for the size
  word behind it (`BootKernel.ZImageKeepsSize`, input: `BootKernel.NoRoomForSizeWord`). A block that is written
  keeps its size and every byte outside the kernel exactly unless a shorter file is put in raw
  (`BootKernel.RecompressionKeepsBlock`).
- In a version 0 image an extra block of one to four bytes, in 32 bits, turns the header into a later version
  (`BootRoundTrip.RepackIsRecognised`, input: `BootSamples.OneByteExtraChangesLayout`); extra and recovery DTBO
  sizes stay when their files are missing (`BootRoundTrip.SizesStatedExactly`, input:
  `BootSamples.MissingExtraKeepsSize`).
- `repack` aligns a ramdisk only when its file is there. An MTK header written without one does not fill its page,
  and what is written next starts inside that page, where parsing does not look. Exactly: `BootRepack.Misplaces`
  in `BootRoundTrip.RepackParsesExactly` (which file it is: `BootLayout.InPlaceExactly`); input:
  `BootSamples.MtkHeaderMisplacesSecond`.
- A decompressed file that itself looks compressed is put in as it is, and unpacks to something else
  (`BootFiles.FilesComeBackExactly`, `BootFiles.PieceComesBack`).
- Two ramdisk table entries may share a file, for instance an unnamed one and one named `ramdisk`; the later
  one's bytes then stand for both (`BootVendor.EntriesPreserved`, input: `BootSamples.SharedFileLosesBytes`).
  `unpack` and `repack` format names into buffers of 40 and 64 bytes and name the same file exactly when the
  name fits both (`BootVendor.NamesAgreeExactly`, input: `BootSamples.LongNameIsLookedForElsewhere`).
- The vbmeta offset in the AVB footer is written relative to the file and followed relative to the payload, so
  the copied vbmeta is found again exactly when there is no head (`BootTail.TailRecovered`, input:
  `BootSamples.BlobLosesVbmeta`).
- A ZERO operation of a payload writes as many bytes as it has blocks. The file is the meant one exactly when
  blocks are single bytes or no zeroed extent ends behind all data (`PayloadProofs.FileIsMeantExactly`, input:
  `PayloadProofs.TwoBlocksBecomeTwoBytes`); zero-extended it always is (`PayloadProofs.ExtractMeansManifest`).
  An operation with data writes all of it at its first extent, which is what is meant when its extents are
  contiguous as far as the data goes (input where they are not: `PayloadProofs.SecondExtentIgnored`).
- A dumped header file without OS version leaves the target's (`HeaderFile.VersionReproduced`, input:
  `HeaderFile.NoVersionLeavesTargets`).
- The sparse repair compares whole sectors: bytes of the image past the last one stay as they are
  (`SparseRepairProofs.SparseEqualsFull`, input: `SparseRepairProofs.PartSectorStays`). A dry run also counts
  sectors that only one side has, and does not ask whether the image is genuine
  (`SparseRepairProofs.DryRunPredicts`, inputs: `SparseRepairProofs.DryRunCountsMore`,
  `SparseRepairProofs.DryRunPromisesMore`). Whether an image is genuine is asked once for all names that differ in
  letter case only (`SparseRepairProofs.VerdictIsFirsts`, input: `SparseRepairProofs.VerdictSharedByCase`);
  names that differ in more get their own answer (`SparseRepairProofs.OwnVerdict`). Sector addresses from two gigabytes on lose their upper bits on the
  image side only (`SparseRepairProofs.OwnBytesExactly`, input: `SparseRepairProofs.SecondSectorFarAway`); the
  audit of this repository never lists one (`SparseRepairProofs.AuditedAddressesAreOwn`), so it takes an audit
  result made by another caller.
- A partition's size in bytes is a 32-bit number: a read gives the partition exactly below two gigabytes
  (`SparseRepairProofs.ReadIsPartitionExactly`). Beyond, the audit says Error (input:
  `SparseRepairProofs.TwoGigabytesUnread`) or compares a beginning only, down to nothing, and the repair reports
  Repaired (input: `SparseRepairProofs.FourGigabytesUnseen`); `SparseRepairProofs.AuditThenRepair` says what a run
  leaves in partitions of any size.
- The receive helper of `FirehoseClient` returns how much it received and leaves its caller's buffer as it was. No
  command is ever seen acknowledged, so the channel is never configured and every read and write by partition
  name throws (`Firehose.NeverAcknowledged`, `Firehose.EveryCallThrows`). Where the partition table comes from an
  override of `PrintGptAsync`, a program command throws exactly when it is answered (`Firehose.AnsweredThrowsExactly`,
  input: `Firehose.AcknowledgedThrows`). All results of `SparseRepairProofs` are about clients that do what the
  interface says, as a helper that fills its buffer makes this one (`Firehose.DeliveredIsWrite`).
- A Sahara session reaches command mode without a byte of the loader sent when the first request lies beyond
  the file (`SaharaProofs.UploadCompletesExactly`, input: `SaharaProofs.NothingUploaded`).
- An mpint of value zero is written as one zero byte where section 5 of RFC 4251 asks for none
  (`AdbKey.MpintIsMinimal`, input: `AdbKey.ZeroHasAByte`).
- A fill chunk of a sparse image moves the write position by its data size, not by its blocks
  (`SparseImageProofs.PlacedByBlocks`, input: `SparseImageProofs.FillByPatternMovesShort`), and only 16 bits of
  the magic are compared, which refuses every image with the 32-bit magic (`SparseImageProofs.LongMagicRefused`).

## Model

The `knowledge-base/canary-27007_*` files are one physical line each; the function meant is named in the last column.

| member | source | states |
|---|---|---|
| Hex.X8u | knowledge-base/canary-27007_cpio.rs:1 | `x8u`: the loop reads exactly the number its eight hexadecimal digits spell, and fails on anything else |
| Hex.FieldOfPrint | knowledge-base/canary-27007_cpio.rs:1 | `dump`/`x8u`: every 32-bit field printed with eight digits is read back |
| Hex.DigitsExactly | knowledge-base/canary-27007_cpio.rs:1 | `dump`/`x8u`: small digits are written, both cases read, nothing else |
| Utf8.EncodingIsRead | knowledge-base/canary-27007_cpio.rs:1 | `Utf8CStr`/`String` names: the encoding of every scalar value is accepted, at its length |
| Utf8.OnlyEncodingsAreRead | knowledge-base/canary-27007_cpio.rs:1 | and nothing else is |
| Paths.NormPathIdempotent | knowledge-base/canary-27007_cpio.rs:1 | `norm_path`: normalised paths are fixed points |
| Paths.NormPathOfSpelled | knowledge-base/canary-27007_cpio.rs:1 | `norm_path`: however many slashes stand before, between and behind its pieces, one each stays between them |
| Paths.EveryPathIsSpelled | knowledge-base/canary-27007_cpio.rs:1 | every path is such a spelling of some pieces |
| NameOrder.LessExactly | knowledge-base/canary-27007_cpio.rs:1 | `BTreeMap<String, _>`: keys are ordered by the first byte in which they differ, a name before its extensions |
| NameOrder.AscendingUnique | knowledge-base/canary-27007_cpio.rs:1 | the map's order: one set of names has one ascending list, so iteration is determined |
| CpioRoundTrip.RecordReadsBack | knowledge-base/canary-27007_cpio.rs:1 | `dump`/`load_from_data`: a written record reads back as its name and entry, and reading continues right behind it, both alignments included |
| CpioRoundTrip.TrailerReadsBack | knowledge-base/canary-27007_cpio.rs:1 | `load_from_data`: after the trailer, reading stops or continues at the next magic |
| CpioRoundTrip.LoadUndoesDump | knowledge-base/canary-27007_cpio.rs:1 | a dumped archive loads back as itself if and only if every name is NUL-free, none is `.`, `..` or the trailer's, and every field fits 32 bits |
| CpioRoundTrip.LoadFromStorable | knowledge-base/canary-27007_cpio.rs:1 | whatever the bytes, what loads is an archive the format can carry |
| CpioRoundTrip.DumpLoadDump | knowledge-base/canary-27007_cpio.rs:1 | dump, load, dump is byte-identical for every file that loads |
| CpioRoundTrip.LoadJoined | knowledge-base/canary-27007_cpio.rs:1 | `load_from_data`: any number of archives joined with zero words load as their left-to-right override |
| CpioRoundTrip.RecordByMembers | knowledge-base/canary-27007_cpio.rs:1 | `dump`: a record is the header of `CpioHeader` member by member, the name with its NUL, the data, padded; the trailer too |
| CpioRoundTrip.HeaderRead | knowledge-base/canary-27007_cpio.rs:1 | `load_from_data`: any such header, whatever its unused members hold, gives the entry of its mode, owner, device and data, or the error |
| CpioRoundTrip.DumpedInOrder | knowledge-base/canary-27007_cpio.rs:1 | `dump`: records in name order, inodes counted up from 300000, then the trailer |
| CpioArchive.LoadFromData | knowledge-base/canary-27007_cpio.rs:1 | `load_from_data`: the loop yields `Load` of the bytes, error or archive |
| CpioArchive.ReadOne | knowledge-base/canary-27007_cpio.rs:1 | `load_from_data`: one turn, with every error and both special names |
| CpioArchive.Find | knowledge-base/canary-27007_cpio.rs:1 | `load_from_data`: the scan after a trailer finds the first magic or none |
| CpioArchive.WriteEntry | knowledge-base/canary-27007_cpio.rs:1 | `dump`: header, name, data and the padding counted by `pos` are the record |
| CpioArchive.WriteEntries | knowledge-base/canary-27007_cpio.rs:1 | `dump`: the records in name order, with inodes counted up |
| CpioArchive.Cpio.Dump | knowledge-base/canary-27007_cpio.rs:1 | `dump`: the file is `Dumped` of the entries |
| CpioArchive.Cpio.Rm | knowledge-base/canary-27007_cpio.rs:1 | `rm`: the normalised name goes, and with the recursive flag everything below it |
| CpioBackup.RmTakesEntryAndBelow | knowledge-base/canary-27007_cpio.rs:1 | `rm`: for a path spelled with any slashes, the entry its pieces name goes, with the recursive flag every entry below it, and all others stay as they are |
| CpioArchive.Cpio.Backup | knowledge-base/canary-27007_cpio.rs:1 | `backup`: loads the original, strips both archives and adds exactly the kept entries and the removal list; unchanged when the original does not load |
| CpioArchive.Walk | knowledge-base/canary-27007_cpio.rs:1 | `backup`: the merge finds exactly the set-level answer: originals that are missing or differ in data are kept, names only the current archive has are listed, nothing else |
| CpioArchive.Cpio.Restore | knowledge-base/canary-27007_cpio.rs:1 | `restore`: the loops leave `Restore` of the old entries, clearing case included |
| CpioArchive.Cpio.Patch | knowledge-base/canary-27007_cpio.rs:1 | `patch`: every entry becomes what `CpioPatch` says, in one pass over the map |
| CpioArchive.PatchOne | knowledge-base/canary-27007_cpio.rs:1 | `patch`: one entry, with its exclusions and the two filters in order |
| CpioInverse.KeptComesBack | knowledge-base/canary-27007_cpio.rs:1 | `compress`/`decompress` with names: which name and entry a kept entry comes back as, the `.xz` case included |
| CpioInverse.RmListRemoves | knowledge-base/canary-27007_cpio.rs:1 | `restore`: splitting the removal list and removing each piece removes exactly the listed names |
| CpioInverse.RestoreUndoesBackup | knowledge-base/canary-27007_cpio.rs:1 | `restore` after `backup` gives exactly the original's names and data, with the original's whole entry wherever data differed or the name was missing, if and only if the archives are `Invertible` |
| CpioInverse.BackupTwice | knowledge-base/canary-27007_cpio.rs:1 | `backup` again from the same original changes nothing |
| CpioInverse.MagiskEntryIgnored | knowledge-base/canary-27007_cpio.rs:1 | an added `.backup/.magisk` changes nothing about `restore` |
| CpioInverse.BackupAdds | knowledge-base/canary-27007_cpio.rs:1 | `backup`: every entry stays; the directory and, when names are new, the list of them are added, with their modes |
| CpioInverse.BackupAddsOnly | knowledge-base/canary-27007_cpio.rs:1 | `backup`: nothing else is added but kept entries, each under its own name, with `.xz` exactly when compressed |
| CpioInverse.RegularByType | knowledge-base/canary-27007_cpio.rs:1 | `compress`/`decompress`/`patch`: a regular file is told by the type bits of its mode alone |
| CpioFailures.UnchangedIsCleared | knowledge-base/canary-27007_cpio.rs:1 | `restore`: an unchanged archive is cleared |
| CpioFailures.CompressedNameClashes | knowledge-base/canary-27007_cpio.rs:1 | `backup`: a compressed `a` and a link `a.xz` clash, and one is lost |
| CpioFailures.ControlNamesClash | knowledge-base/canary-27007_cpio.rs:1 | `backup`: links named `.rmlist` and `.magisk` land on control names |
| CpioFailures.PackedLookAlike | knowledge-base/canary-27007_cpio.rs:1 | `restore`: a file `a.xz` kept without compression comes back as `a` |
| CpioFailures.UnnormalisedStays | knowledge-base/canary-27007_cpio.rs:1 | `rm`: a new entry `/a` is recorded and not removed |
| CpioFailures.NulStays | knowledge-base/canary-27007_cpio.rs:1 | `restore`: a new entry with a NUL in its name is not removed |
| CpioPatch.PatchTouchesOnlyFlags | knowledge-base/canary-27007_cpio.rs:1 | `patch`: which entry can go, that only data changes, and exactly when it does |
| CpioPatch.FstabBecomes | knowledge-base/canary-27007_cpio.rs:1 | `patch`: what every regular `fstab*` file becomes, switch by switch: the encryption filter runs on what the verity filter left |
| CpioPatch.DroppedFlagsGone | knowledge-base/canary-27007_cpio.rs:1 | `patch`: a dropped kind of flag stands in the result exactly when kept bytes spell one across removed flags |
| TextPatch.MatchPatterns | knowledge-base/canary-27007_patch.rs:1 | `match_patterns!`: the matcher's loops give `Match` |
| TextPatch.MatchExactly | knowledge-base/canary-27007_patch.rs:1 | `match_patterns!`: it finds a flag exactly when a pattern stands there, and takes comma, pattern and value |
| TextPatch.LongestTaken | knowledge-base/canary-27007_patch.rs:1 | `match_patterns!`: of several listed flags that stand there the longest goes |
| TextPatch.FlagGoes | knowledge-base/canary-27007_patch.rs:1 | a flag with any value and with or without a comma before it goes, and what follows is read on |
| TextPatch.VerityIsPlain | knowledge-base/canary-27007_patch.rs:1 | `patch_verity`: its six flags by name; none is found inside another first, none holds a separator |
| TextPatch.EncryptionIsPlain | knowledge-base/canary-27007_patch.rs:1 | `patch_encryption`: the same for its three |
| TextPatch.RemovePattern | knowledge-base/canary-27007_patch.rs:1 | `remove_pattern`: the buffer's first `sz` bytes become the left-to-right filtered original, the rest zero, in place with overlapping read and write |
| TextPatch.FilteredFixed | knowledge-base/canary-27007_patch.rs:1 | a text stays as it is exactly when no flag stands anywhere in it |
| TextPatch.FilteredTwice | knowledge-base/canary-27007_patch.rs:1 | a second pass changes nothing exactly when nowhere in the input the bytes kept around removed flags spell a new flag |
| TextPatch.LeavesFlagExactly | knowledge-base/canary-27007_patch.rs:1 | a filtered text holds none of some flags exactly when what stays spells none |
| TextPatch.OnePassIsEnough | knowledge-base/canary-27007_patch.rs:1 | one pass is enough for every text whose removed flags are followed by the end, a byte of no pattern, or another flag |
| TextPatch.FilteringIsNotIdempotent | knowledge-base/canary-27007_patch.rs:1 | `patch_verity`: the input for which a second pass removes more |
| Format.FormatIsSignature | knowledge-base/canary-27007_format.cpp:1 | `check_fmt`: each format is answered exactly for buffers with one of its signatures, in whatever order they are asked; zImage and unknown for the rest |
| Format.DetectFmtLg | knowledge-base/canary-27007_bootimg.cpp:1 | `check_fmt_lg`: the loop over block sizes, 32-bit sums included, is left with the walk's answer wherever the walk does not circle |
| Format.WalkIsLeft | knowledge-base/canary-27007_bootimg.cpp:1 | `check_fmt_lg`: some number of turns leaves the loop exactly when the walk does not come to an offset again |
| Format.BlockThatLeadsBack | knowledge-base/canary-27007_bootimg.cpp:1 | `check_fmt_lg`: a block size of 2^32 - 4 leads back to itself |
| Lz4Legacy.LZ4Encoder.WriteChunk | knowledge-base/canary-27007_compress.cpp:1 | `LZ4_encoder::write_chunk`: size and block appended, 32-bit total counted; failure on an empty result |
| Lz4Legacy.LZ4Encoder.Finish | knowledge-base/canary-27007_compress.cpp:1 | `LZ4_encoder`'s destructor: the LG trailer |
| Lz4Legacy.Encode | knowledge-base/canary-27007_compress.cpp:1 | `LZ4_encoder` over all chunks: magic, frames, trailer |
| Lz4Legacy.FramesByBlocks | knowledge-base/canary-27007_compress.cpp:1 | `LZ4_encoder`: blocks of eight mebibytes, each behind its compressed length |
| Lz4Legacy.EncodedEnds | knowledge-base/canary-27007_compress.cpp:1 | `LZ4_encoder`: four magic bytes first, the LG trailer last |
| Lz4Legacy.LZ4Decoder.WriteChunk | knowledge-base/canary-27007_compress.cpp:1 | `LZ4_decoder::write_chunk`: size, magic or block, by the pending size |
| Lz4Legacy.Decode | knowledge-base/canary-27007_compress.cpp:1 | `LZ4_decoder` over a stream cut by its requested chunk sizes |
| Lz4Legacy.DecodeUndoesEncode | knowledge-base/canary-27007_compress.cpp:1 | both variants decode to the input, for every input; no size is taken for the magic |
| Lz4Legacy.VariantsToldApart | knowledge-base/canary-27007_compress.cpp:1 | `LZ4_encoder` and `check_fmt_lg`: below 4 GiB a stream is reported as LG's exactly when it was written with the LG trailer and is not empty |
| Payload.ExtractBoot | knowledge-base/canary-27007_payload.rs:1 | `do_extract_boot_from_payload`: sort, forward-only reading, seeks and writes give `Extract`, error or file |
| Payload.Perform | knowledge-base/canary-27007_payload.rs:1 | one operation: skip, read, decode, write |
| PayloadProofs.SortKeeps | knowledge-base/canary-27007_payload.rs:1 | the stable sort keeps the operations and whether they can be read forwards |
| PayloadProofs.ExtractSucceeds | knowledge-base/canary-27007_payload.rs:1 | extraction succeeds exactly when every operation can be carried out alone and no pair of data ranges makes the reader go back |
| PayloadProofs.ExtractMeansManifest | knowledge-base/canary-27007_payload.rs:1 | with disjoint destinations, contiguous as far as the data goes, the zero-extended image is what the operations in manifest order give, each reading its own slice |
| PayloadProofs.FileIsMeantExactly | knowledge-base/canary-27007_payload.rs:1 | under the same conditions the file is that image, its length included, exactly when blocks are single bytes or every zeroed extent ends no later than some operation's data |
| PayloadProofs.TwoBlocksBecomeTwoBytes | knowledge-base/canary-27007_payload.rs:1 | ZERO: two blocks of 4096 bytes become a file of two bytes |
| PayloadProofs.SecondExtentIgnored | knowledge-base/canary-27007_payload.rs:1 | REPLACE: two bytes for two extents that are apart are both written at the first |
| BootHeader.GetAfterSet | knowledge-base/canary-27007_bootimg.hpp:1 | accessors: a written field reads back, an absent one reads 0, all others keep their values, in every layout |
| BootHeader.OffsetsApart | knowledge-base/canary-27007_bootimg.hpp:1 | header structs: no two fields overlap |
| BootStructs.AccessorsRead | knowledge-base/canary-27007_bootimg.hpp:1 | header structs: for each of the eight layouts written member by member, every accessor reads the member of its name; one without reads 0, or the fixed page size |
| BootStructs.AccessorsWrite | knowledge-base/canary-27007_bootimg.hpp:1 | and writes that member, or nothing |
| BootStructs.IdWritten | knowledge-base/canary-27007_bootimg.hpp:1 | `id` and `recovery_dtbo_offset` are their members |
| BootStructs.TextsRead | knowledge-base/canary-27007_bootimg.hpp:1 | `name`, `cmdline`, `extra_cmdline`: the texts shown are those of the members |
| BootStructs.TextsWritten | knowledge-base/canary-27007_bootimg.hpp:1 | the same members are written, cut and cleared as `load_hdr_file` does |
| BootStructs.LayoutByVersion | knowledge-base/canary-27007_bootimg.cpp:1 | `create_hdr`: the layout is the one the version member names, Samsung's for an impossible page size, none without the magic |
| BootStructs.LoaderShifts | knowledge-base/canary-27007_bootimg.cpp:1 | `create_hdr`: the payload is shifted exactly for the five command lines and the name of the Nook and Acclaim loaders |
| BootLayout.BootImg.ParseImage | knowledge-base/canary-27007_bootimg.cpp:1 | `parse_image`: header and the nine `get_block` lines find what `Parse` says, or fail as it does |
| BootLayout.BootImg.GetBlock | knowledge-base/canary-27007_bootimg.cpp:1 | `get_block`: the block, the aligned step, the bounds check |
| BootLayout.PackedParses | knowledge-base/canary-27007_bootimg.cpp:1 | wherever a payload with matching header and aligned blocks stands, parsing finds header and every block |
| BootStructs.ImageTakenApart | knowledge-base/canary-27007_bootimg.cpp:1 | `parse_image`: an image of named blocks in the order of the format is taken apart into exactly these blocks |
| BootParts.FilesByName | knowledge-base/canary-27007_bootimg.cpp:1 | `unpack`: each block goes to the file of its name; kernel and ramdisk are taken apart where they stand |
| BootLayout.HeldParses | knowledge-base/canary-27007_bootimg.cpp:1 | the same wherever header and blocks stand at the places the sizes say, whatever lies between them |
| BootLayout.InPlaceExactly | knowledge-base/canary-27007_bootimg.cpp:1 | `repack`/`parse_image`: every written block stands where parsing looks exactly unless the second block ends inside a page, is not aligned, and what is written next is not empty |
| BootKernel.FindDtbOffset | knowledge-base/canary-27007_bootimg.cpp:1 | `find_dtb_offset`: the search loop; what it returns is a magic with plausible sizes, and nothing when no such tree stands outside a rejected magic's 40 bytes |
| BootKernel.FindDtbFinds | knowledge-base/canary-27007_bootimg.cpp:1 | `find_dtb_offset`: what is found is a magic with plausible sizes, and every plausible tree before it stands less than 40 bytes behind a rejected magic |
| BootKernel.TreeNotSeen | knowledge-base/canary-27007_bootimg.cpp:1 | `find_dtb_offset`: a plausible tree eight bytes behind a rejected magic is not found |
| BootKernel.TreeByItsBytes | knowledge-base/canary-27007_bootimg.cpp:1 | `find_dtb_offset`: what a plausible tree is, by its bytes |
| BootKernel.TreeIsCutOff | knowledge-base/canary-27007_bootimg.cpp:1 | `parse_image`: the first tree of the block is cut off where it begins, to the end of the block |
| BootKernel.CutOffIsTree | knowledge-base/canary-27007_bootimg.cpp:1 | `parse_image`: what is cut off is a tree; nothing is when there is none or one begins the block |
| BootKernel.MtkIsCutOff | knowledge-base/canary-27007_bootimg.cpp:1 | `parse_image`: an MTK header is cut off exactly when its magic begins the block |
| BootKernel.ZImageIsCutOff | knowledge-base/canary-27007_bootimg.cpp:1 | `parse_image`: a zImage is taken apart exactly when its magic, a gzip header and an end word are there, and where each part begins and ends |
| BootKernel.PartsPartition | knowledge-base/canary-27007_bootimg.cpp:1 | `parse_image`: the kernel's parts add up to the block exactly when they nest |
| BootKernel.KernelRestored | knowledge-base/canary-27007_bootimg.cpp:1 | `repack`: original parts put back give the block byte for byte and its size |
| BootKernel.ZImageKeepsSize | knowledge-base/canary-27007_bootimg.cpp:1 | `repack`: what stands in a zImage's kernel place, and exactly when a recompressed kernel has no result |
| BootKernel.NoRoomForSizeWord | knowledge-base/canary-27007_bootimg.cpp:1 | `repack`: a kernel of ten bytes recompressed to eight has none |
| BootKernel.ZImageBlockKept | knowledge-base/canary-27007_bootimg.cpp:1 | `repack`: whatever fills the kernel's place, the zImage and the total kernel size stay, and every byte outside that place |
| BootKernel.RecompressionKeepsBlock | knowledge-base/canary-27007_bootimg.cpp:1 | `repack`: from the files: the block keeps size and surroundings exactly unless a shorter file is put in raw |
| BootParts.KernelRecompressed | knowledge-base/canary-27007_bootimg.cpp:1 | `repack`: a gzip kernel of a zImage with zopfli, others in their own format |
| BootParts.RamdiskIsCutOff | knowledge-base/canary-27007_bootimg.cpp:1 | `parse_image`: the same for an MTK ramdisk, and nothing with a table |
| BootParts.RamdiskRecompressed | knowledge-base/canary-27007_bootimg.cpp:1 | `repack`: a version 4 boot ramdisk as legacy LZ4, others in their own format |
| BootParts.CompressedByOrder | knowledge-base/canary-27007_format.hpp:1 | `COMPRESSED`, `COMPRESSED_ANY`: the formats between gzip and lzop in the enumeration |
| BootVendor.UnpackTable | knowledge-base/canary-27007_bootimg.cpp:1 | `unpack`: the loop over table entries leaves one file per name |
| BootVendor.RepackTable | knowledge-base/canary-27007_bootimg.cpp:1 | `repack`: the loop over table entries writes the section and the new table |
| BootVendor.EntryTiles | knowledge-base/canary-27007_bootimg.cpp:1 | `repack`: each entry starts at the sum of the sizes before it and describes its own file's data |
| BootVendor.SizesAddUp | knowledge-base/canary-27007_bootimg.cpp:1 | `repack`: the sizes total the ramdisk section |
| BootVendor.EntriesDisjoint | knowledge-base/canary-27007_bootimg.cpp:1 | `repack`: entries describe disjoint parts |
| BootVendor.EntriesPreserved | knowledge-base/canary-27007_bootimg.cpp:1 | `unpack`/`repack`: with names that fit both buffers, every entry keeps its bytes exactly when entries that share a file held the same |
| BootVendor.NamesAgreeExactly | knowledge-base/canary-27007_bootimg.cpp:1 | `unpack`/`repack` name the same file exactly when the name is shorter than 40 bytes |
| BootVendor.TableReadsBack | knowledge-base/canary-27007_bootimg.hpp:1 | `vendor_ramdisk_table_entry_v4`: a written table reads back |
| BootParts.NamesCut | knowledge-base/canary-27007_bootimg.cpp:1 | `unpack`/`repack`: file names cut to 39 and 63 bytes |
| BootParts.EntryByStruct | knowledge-base/canary-27007_bootimg.hpp:1 | `vendor_ramdisk_table_entry_v4`, member by member: read, written back, and the name of its file |
| BootRepack.NewHeaderReads | knowledge-base/canary-27007_bootimg.cpp:1 | `repack`: each field of the new header is its last edit or the old value, whatever digest and offset are written |
| BootRoundTrip.SizesStatedExactly | knowledge-base/canary-27007_bootimg.cpp:1 | `repack`: the new header states every block's size exactly when the files are describable: each block has a field its size fits, no extra or recovery DTBO file is merely missing, the table holds its entries and nothing else, and a zImage kernel is not replaced by a shorter raw file |
| BootRepack.RecognisedInPlace | knowledge-base/canary-27007_bootimg.cpp:1 | `create_hdr`: the new header is taken for the same layout |
| BootRoundTrip.RepackParses | knowledge-base/canary-27007_bootimg.cpp:1 | `repack`/`parse_image`: for any files, where the header is recognised, parsing finds it and all nine blocks as written and where they were written exactly when it states their sizes, no MTK header alone misplaces the next block, and the file reaches to the last block's page end, in every layout |
| BootRoundTrip.RepackParsesExactly | knowledge-base/canary-27007_bootimg.cpp:1 | `repack`/`parse_image`: for any files and a kernel whose parts nest, exactly when the files are describable, no extra block of a version 0 image is one to four bytes long, no MTK header alone misplaces the next block, and the file reaches to the last block's page end |
| BootRoundTrip.RepackIsRecognised | knowledge-base/canary-27007_bootimg.cpp:1 | `create_hdr` finds the repacked header behind the head, as the same layout, exactly unless a version 0 image gets an extra block of one to four bytes, in 32 bits |
| BootRoundTrip.ShiftedIsRecognised | knowledge-base/canary-27007_bootimg.cpp:1 | `create_hdr` finds it again behind a NOOKHD or ACCLAIM loader |
| BootRoundTrip.DtboFoundAtOffset | knowledge-base/canary-27007_bootimg.cpp:1 | `repack`: `recovery_dtbo_offset` is where the recovery DTBO stands in the file, aligned or not |
| BootRoundTrip.OffsetNeedsFile | knowledge-base/canary-27007_bootimg.cpp:1 | `repack`: without a recovery DTBO file the recorded offset stays; the header's own size is always written |
| BootRoundTrip.UnpackRepack | knowledge-base/canary-27007_bootimg.cpp:1 | `unpack`/`repack` without (de)compression: same layout, same fields, same blocks, an MTK header's size word excepted; every header byte outside size fields, digest and recovery DTBO offset is kept |
| BootRoundTrip.VendorUnpackRepack | knowledge-base/canary-27007_bootimg.cpp:1 | the same for vendor images with a ramdisk table, which is read back as written |
| BootRoundTrip.VendorEntriesPreserved | knowledge-base/canary-27007_bootimg.cpp:1 | in that image every entry describes its old bytes exactly when shared files agreed |
| BootFiles.PieceComesBack | knowledge-base/canary-27007_bootimg.cpp:1 | `unpack`/`repack`/`unpack`: a decompressed block's file, written again, unpacks to itself exactly unless it was taken for compressed |
| BootFiles.ZImageComesBack | knowledge-base/canary-27007_bootimg.cpp:1 | the same for a zImage kernel with its padding, or with the original put back |
| BootFiles.VendorEntryComesBack | knowledge-base/canary-27007_bootimg.cpp:1 | the same for an entry of a vendor ramdisk table: its file is the decompressed data, and comes back from the new section |
| BootFiles.FilesComeBackExactly | knowledge-base/canary-27007_bootimg.cpp:1 | outside zImages: kernel, ramdisk and extra file come back exactly when none of them is taken for compressed |
| BootFiles.RepackedFilesAgain | knowledge-base/canary-27007_bootimg.cpp:1 | `unpack`, `repack`, `unpack` with (de)compression: the image is parsed as written, and where it is taken apart as it was put together the files are the same exactly when those three come back |
| BootTail.TailRecovered | knowledge-base/canary-27007_bootimg.cpp:1 | `repack`/`parse_image`: marks, footer and recorded payload end are found again, and none where there was none; the vbmeta exactly when there is no head |
| BootTail.VbmetaCopied | knowledge-base/canary-27007_bootimg.cpp:1 | `repack`: the whole vbmeta stands at the recorded offset; with patched flags they are 3 and only they differ |
| BootParts.MarksByText | knowledge-base/canary-27007_bootimg.cpp:1 | `parse_image`: the Samsung and LG marks are seen exactly when they stand behind the payload |
| BootParts.FooterFollowed | knowledge-base/canary-27007_bootimg.cpp:1 | `parse_image`: an `AvbFooter` at the end of the file is found and its vbmeta offset followed, exactly when the magics stand there |
| BootParts.FooterRewritten | knowledge-base/canary-27007_bootimg.cpp:1 | `repack`: the new footer is the old one with the new image size and vbmeta offset |
| BootParts.TailPlaces | knowledge-base/canary-27007_bootimg.cpp:1 | `repack`: where marks, padding and vbmeta go, by their alignments |
| BootTail.NeverShorter | knowledge-base/canary-27007_bootimg.cpp:1 | `repack`: except for ChromeOS the output is not shorter than the input |
| BootWriter.Repack | knowledge-base/canary-27007_bootimg.cpp:1 | `repack`: writing and patching step by step gives head, patched header, patched blocks, aligned only where the code aligns, and tail |
| BootWriter.WriteKernel | knowledge-base/canary-27007_bootimg.cpp:1 | `repack`: the kernel block and its size |
| BootWriter.WriteRamdisk | knowledge-base/canary-27007_bootimg.cpp:1 | `repack`: the ramdisk block, plain or from a table |
| BootWriter.WriteTail | knowledge-base/canary-27007_bootimg.cpp:1 | `repack`: marks, alignment, vbmeta, padding, and the recorded offsets |
| BootWriter.PatchMtkHeaders | knowledge-base/canary-27007_bootimg.cpp:1 | `repack`: both MTK size words, and nothing else in the image |
| BootWriter.PatchFooter | knowledge-base/canary-27007_bootimg.cpp:1 | `repack`: footer and vbmeta flags, and nothing else |
| BootWriter.EditHeader | knowledge-base/canary-27007_bootimg.cpp:1 | `repack`: the header edits one by one |
| BootWhole.WholeImageBackAgain | knowledge-base/canary-27007_bootimg.cpp:1 | a whole image behind any head: layout, header, blocks (a vendor image's new ramdisk section and table included), vendor mark and footer are found again, the vbmeta's bytes stand in it and are found exactly when there is no head, and it is not shorter |
| BootSamples.SampleQualifies | knowledge-base/canary-27007_bootimg.cpp:1 | `parse_image`: an image with a kernel, a vbmeta and a footer, behind any head, meets every condition of the result above |
| BootSamples.BlobLosesVbmeta | knowledge-base/canary-27007_bootimg.cpp:1 | `repack`/`parse_image`: behind a blob head the source's vbmeta is found and the repacked image's is not |
| BootSamples.OneByteExtraChangesLayout | knowledge-base/canary-27007_bootimg.cpp:1 | `repack`/`create_hdr`: an extra file of one byte changes a version 0 header's layout |
| BootSamples.MissingExtraKeepsSize | knowledge-base/canary-27007_bootimg.cpp:1 | `repack`: without the extra file its size stays, and the blocks are not found as written |
| BootSamples.MtkHeaderMisplacesSecond | knowledge-base/canary-27007_bootimg.cpp:1 | `repack`/`parse_image`: an MTK image without its ramdisk file and with a second file: describable, written 512 bytes into a page, not found |
| BootSamples.SharedFileLosesBytes | knowledge-base/canary-27007_bootimg.cpp:1 | `unpack`/`repack`: an unnamed entry and one named `ramdisk` end up with the same bytes |
| BootSamples.LongNameIsLookedForElsewhere | knowledge-base/canary-27007_bootimg.cpp:1 | `unpack`/`repack`: a name without terminator leads to two different files |
| HeaderFile.Header.LoadHdrFile | knowledge-base/canary-27007_bootimg.cpp:1 | `load_hdr_file`: the callback over all lines leaves `Load` of the header |
| HeaderFile.Header.LoadCmdline | knowledge-base/canary-27007_bootimg.cpp:1 | `load_hdr_file`: both command line fields, cleared and filled |
| HeaderFile.DumpLoads | knowledge-base/canary-27007_bootimg.cpp:1 | `dump_hdr_file`/`load_hdr_file` between any two layouts: the joined command line arrives, a non-zero OS version and patch level arrive bit for bit, the name up to 15 bytes, all other fields stay |
| HeaderFile.VersionReproduced | knowledge-base/canary-27007_bootimg.cpp:1 | exactly when OS version and patch level are the source's |
| HeaderFile.FileReproduced | knowledge-base/canary-27007_bootimg.cpp:1 | exactly when dumping again gives the same file |
| HeaderFile.NoVersionLeavesTargets | knowledge-base/canary-27007_bootimg.cpp:1 | `load_hdr_file`: a dump without OS version leaves the target's |
| HeaderFile.CmdlineSet | knowledge-base/canary-27007_bootimg.cpp:1 | `load_hdr_file`: a line of up to 512 + 1024 bytes reads back whole |
| HeaderFile.OrIsBitwise | knowledge-base/canary-27007_bootimg.cpp:1 | `load_hdr_file`: the packed version is combined bit by bit |
| HeaderFile.VersionLinesByText | knowledge-base/canary-27007_bootimg.cpp:1 | `dump_hdr_file`: the two version lines by their text |
| HeaderFile.VersionLinesLoaded | knowledge-base/canary-27007_bootimg.cpp:1 | `load_hdr_file`: what these lines do, by their text |
| HeaderFile.OtherLinesLoaded | knowledge-base/canary-27007_bootimg.cpp:1 | `load_hdr_file`: the other lines, and that unknown keys change nothing |
| HeaderFile.SignedNumber | knowledge-base/canary-27007_bootimg.cpp:1 | `sscanf`: a number behind blanks, with a sign or without |
| SparseRepair.RunFullGptAudit | BACKRabbit.Protocol.Firehose/Rescue/PartitionDiagnostics.cs:313-419 | the audit of every partition, with its four statuses and the list of differing sectors |
| SparseRepair.Compare | BACKRabbit.Protocol.Firehose/Rescue/PartitionDiagnostics.cs:366-385 | the byte loops list exactly the differing whole sectors |
| SparseRepair.Client.GetPartitionInfo | BACKRabbit.Protocol.Firehose/FirehoseClient.cs:335-348 | the first entry of that name, letter case aside |
| SparseRepair.Client.WritePartition | BACKRabbit.Protocol.Firehose/IFirehoseClient.cs:24-25 | the call writes at the partition's start and returns, or throws and changes nothing; it throws for an unknown partition |
| SparseRepair.Client.WritePartitionBlocks | BACKRabbit.Protocol.Firehose/IFirehoseClient.cs:27-35 | the same at start plus sector |
| Firehose.FirehoseClient.ReadWithTimeout | BACKRabbit.Protocol.Firehose/FirehoseClient.cs:122-135 | the helper returns the length received and leaves the buffer unchanged |
| Firehose.FirehoseClient.SendCommand | BACKRabbit.Protocol.Firehose/FirehoseClient.cs:85-120 | the receive loop: until silence, an ACK or NAK and one more piece, or a megabyte |
| Firehose.FirehoseClient.ConfigureChannel | BACKRabbit.Protocol.Firehose/FirehoseClient.cs:63-78 | configuring fails unless the collected answer ends in an acknowledgement |
| Firehose.FirehoseClient.PrintTable | BACKRabbit.Protocol.Firehose/FirehoseClient.cs:305-332 | the partitions of an acknowledged answer, or an exception |
| Firehose.FirehoseClient.ReadPartition | BACKRabbit.Protocol.Firehose/FirehoseClient.cs:148-181 | table, command, then up to the 32-bit size, less when nothing more comes |
| Firehose.FirehoseClient.Exchange | BACKRabbit.Protocol.Firehose/FirehoseClient.cs:201-229 | program command, answer, data, answer: what is sent, thrown and returned |
| Firehose.FirehoseClient.WritePartition | BACKRabbit.Protocol.Firehose/FirehoseClient.cs:184-230 | table, then the exchange at the partition's start |
| Firehose.FirehoseClient.WritePartitionBlocks | BACKRabbit.Protocol.Firehose/FirehoseClient.cs:239-289 | table, then the exchange at start plus sector |
| Firehose.NeverAcknowledged | BACKRabbit.Protocol.Firehose/FirehoseClient.cs:85-135 | whatever the device sends, no command is acknowledged and no table read |
| Firehose.EveryCallThrows | BACKRabbit.Protocol.Firehose/FirehoseClient.cs:148-289 | so every read and write by name throws |
| Firehose.AnsweredThrowsExactly | BACKRabbit.Protocol.Firehose/FirehoseClient.cs:201-229 | a program command throws exactly when it is answered, and its data is never seen acknowledged |
| Firehose.AcknowledgedThrows | BACKRabbit.Protocol.Firehose/FirehoseClient.cs:201-229 | a device that answers ACK twice: an exception here, success with a helper that delivers |
| Firehose.DeliveredIsWrite | BACKRabbit.Protocol.Firehose/IFirehoseClient.cs:24-35 | with such a helper the exchange is the call the repair is modelled against |
| Firehose.CollectsExactly | BACKRabbit.Protocol.Firehose/FirehoseClient.cs:85-120 | with such a helper: exactly when the receive loop goes on and what it returns, for any pieces |
| Firehose.PaddingDropped | BACKRabbit.Protocol.Firehose/FirehoseClient.cs:85-120 | padding around a response is dropped, and padding alone holds nothing |
| Firehose.PartitionsInOrder | BACKRabbit.Protocol.Firehose/FirehoseClient.cs:305-332 | the table is the partitions of the fragments, in order |
| Firehose.WriteConversation | BACKRabbit.Protocol.Firehose/FirehoseClient.cs:184-289 | with such a helper, a write by name over table, command and data: exactly when it throws and what it returns |
| Firehose.ReadConversation | BACKRabbit.Protocol.Firehose/FirehoseClient.cs:148-181 | with such a helper, a read by name gives the 32-bit size of what is sent, or less |
| Firehose.CommandsSent | BACKRabbit.Protocol.Firehose/FirehoseClient.cs:184-289 | what is sent: table, program command with start and whole sectors, data unless it throws |
| SparseRepair.PartitionRestorer.WriteDiffering | BACKRabbit.Protocol.Firehose/Rescue/PartitionRestorer.cs:245-270 | the write loop, with skipped addresses, 32-bit offsets and exceptions |
| SparseRepair.PartitionRestorer.VerifyWritten | BACKRabbit.Protocol.Firehose/Rescue/PartitionRestorer.cs:275-312 | the read-back loop counts the sectors that match |
| SparseRepair.PartitionRestorer.SparseRepair | BACKRabbit.Protocol.Firehose/Rescue/PartitionRestorer.cs:176-331 | the whole run, partition after partition, with the verdicts it keeps |
| SparseRepair.PartitionRestorer.VerifyStockIntegrity | BACKRabbit.Protocol.Firehose/Rescue/PartitionRestorer.cs:575-621 | the answer given before under that name, letter case aside, or else whether the manifest has the image's digest; kept for the next time |
| SparseRepair.PartitionRestorer.LookupManifestHash | BACKRabbit.Protocol.Firehose/Rescue/PartitionRestorer.cs:551-561 | the digest of the first manifest entry with the partition's or its file's name |
| SparseRepairProofs.GenuineByFirstEntry | BACKRabbit.Protocol.Firehose/Rescue/PartitionRestorer.cs:551-621 | an image is genuine exactly when its digest is the one of the first manifest entry with the partition's name or `<name>.img` |
| SparseRepairProofs.NeverRestored | BACKRabbit.Protocol.Firehose/Rescue/PartitionRestorer.cs:20-27 | the five partitions that are never restored, letter case aside |
| SparseRepairProofs.AuditedStatus | BACKRabbit.Protocol.Firehose/Rescue/PartitionDiagnostics.cs:325-400 | what each audit status says, and what is counted |
| SparseRepairProofs.ReportedReasons | BACKRabbit.Protocol.Firehose/Rescue/PartitionRestorer.cs:184-324 | which result is reported for which reason, and exactly when a run is broken off |
| SparseRepairProofs.EveryMismatchReported | BACKRabbit.Protocol.Firehose/Rescue/PartitionRestorer.cs:176-331 | a run that is not broken off reports every differing partition, once and in order |
| SparseRepairProofs.SkippedExactly | BACKRabbit.Protocol.Firehose/Rescue/PartitionRestorer.cs:245-270 | a sector is skipped exactly when the image does not hold all of it, and else sent to its place |
| SparseRepairProofs.FarSectorThrows | BACKRabbit.Protocol.Firehose/Rescue/PartitionRestorer.cs:245-270 | addresses around and above two gigabytes make the run throw |
| SparseRepairProofs.RepairedMeansStock | BACKRabbit.Protocol.Firehose/Rescue/PartitionRestorer.cs:233-324 | on any device: a live run leaves a partition alone unless its verdict is good, and then reports Repaired exactly when every written address reads back as stock |
| SparseRepairProofs.NothingSent | BACKRabbit.Protocol.Firehose/Rescue/PartitionRestorer.cs:184-243 | dry run, blocklist, missing image, matching partitions and bad verdicts send nothing |
| SparseRepairProofs.DryRunSendsNothing | BACKRabbit.Protocol.Firehose/Rescue/PartitionRestorer.cs:215-231 | a whole dry run leaves the device alone |
| SparseRepairProofs.StockOnly | BACKRabbit.Protocol.Firehose/Rescue/PartitionRestorer.cs:233-270 | on any device, for every run, thrown out of or not: each sector sent is one of an allowed partition's image, and the image its verdict is about is the one the manifest names |
| SparseRepairProofs.VerdictIsFirsts | BACKRabbit.Protocol.Firehose/Rescue/PartitionRestorer.cs:575-621 | over every run, the verdict on an entry is about the first checked image of that name, letter case aside |
| SparseRepairProofs.OwnVerdict | BACKRabbit.Protocol.Firehose/Rescue/PartitionRestorer.cs:575-621 | a partition whose name differs from all before in more than letter case gets the verdict on its own image |
| SparseRepairProofs.VerdictSharedByCase | BACKRabbit.Protocol.Firehose/Rescue/PartitionRestorer.cs:495-496 | partitions `a` and `A`: the image of `A`, which the manifest does not name, is written on the verdict about `a` |
| SparseRepairProofs.WritesLand | BACKRabbit.Protocol.Firehose/Rescue/PartitionRestorer.cs:245-270 | exactly the listed sectors take the image's bytes |
| SparseRepairProofs.AuditCovers | BACKRabbit.Protocol.Firehose/Rescue/PartitionDiagnostics.cs:366-385 | the audit's list names every sector that differs in what was read and compared |
| SparseRepairProofs.ReadIsPartitionExactly | BACKRabbit.Protocol.Firehose/FirehoseClient.cs:167-180 | a read gives the partition's data exactly when that is less than two gigabytes |
| SparseRepairProofs.FourGigabytesUnseen | BACKRabbit.Protocol.Firehose/FirehoseClient.cs:167-180 | a partition of four gigabytes: Mismatch without addresses, then Repaired with nothing written |
| SparseRepairProofs.TwoGigabytesUnread | BACKRabbit.Protocol.Firehose/FirehoseClient.cs:167-180 | a partition of two gigabytes: the audit says Error |
| SparseRepairProofs.SectorsRestored | BACKRabbit.Protocol.Firehose/Rescue/PartitionRestorer.cs:245-270 | in a partition of any size, a list that covers the differences below a bound restores the image up to it and touches no other byte of the unit |
| SparseRepairProofs.SparseEqualsFull | BACKRabbit.Protocol.Firehose/FirehoseClient.cs:184-289 | sparse repair and full write leave the same unit exactly when the image's part past the compared sectors was there already |
| SparseRepairProofs.OthersKeepData | BACKRabbit.Protocol.Firehose/FirehoseClient.cs:239-289 | partitions apart from the repaired one keep their data |
| SparseRepairProofs.AuditThenRepair | BACKRabbit.Protocol.Firehose/Rescue/PartitionRestorer.cs:176-331 | a whole run over disjoint partitions of any size: nothing throws or fails verification, each partition that has a genuine image and may be written is restored as far as it is read, every other byte stays |
| SparseRepairProofs.DryRunPredicts | BACKRabbit.Protocol.Firehose/Rescue/PartitionRestorer.cs:215-243 | a dry run's report against the live one's: the status agrees exactly on good verdicts, the addresses then, the count exactly for near-equal lengths |
| SparseRepairProofs.OwnBytesExactly | BACKRabbit.Protocol.Firehose/Rescue/PartitionRestorer.cs:251-266 | when a sector is written, the bytes sent there are the image's own exactly when its address is below two gigabytes |
| SparseRepairProofs.SecondSectorFarAway | BACKRabbit.Protocol.Firehose/Rescue/PartitionRestorer.cs:251-266 | an address one sector behind four gigabytes gets the image's second sector |
| SparseRepairProofs.AuditedAddressesAreOwn | BACKRabbit.Protocol.Firehose/Rescue/PartitionDiagnostics.cs:366-385 | the audit lists offsets of whole sectors of the image only |
| SparseRepairProofs.PartSectorStays | BACKRabbit.Protocol.Firehose/FirehoseClient.cs:184-289 | one differing byte behind the last whole sector: the full write changes it, the repair does not |
| SparseRepairProofs.DryRunCountsMore | BACKRabbit.Protocol.Firehose/Rescue/PartitionRestorer.cs:215-231 | a partition one sector longer than its image: the dry run reports one sector more |
| SparseRepairProofs.DryRunPromisesMore | BACKRabbit.Protocol.Firehose/Rescue/PartitionRestorer.cs:215-243 | an image the manifest does not list: the dry run says Repaired, the live run skips it |
| Sahara.SaharaStateMachine.TransitionTo | BACKRabbit.Protocol.Firehose/SaharaStateMachine.cs:24-32 | a refused transition throws and changes nothing |
| Sahara.SaharaStateMachine.SetChipInfo | BACKRabbit.Protocol.Firehose/SaharaStateMachine.cs:34-38 | chip information is set even when the transition throws |
| Sahara.SaharaStateMachine.SetError | BACKRabbit.Protocol.Firehose/SaharaStateMachine.cs:40-44 | error from any state |
| SaharaProofs.CallsExactly | BACKRabbit.Protocol.Firehose/SaharaStateMachine.cs:24-62 | each call, exactly: when it is refused, what it changes |
| SaharaProofs.LastErrorKept | BACKRabbit.Protocol.Firehose/SaharaStateMachine.cs:40-44 | over every run the error kept is the last one set |
| Sahara.SaharaLoaderUploader.Upload | BACKRabbit.Protocol.Firehose/SaharaLoaderUploader.cs:27-61 | the request loop: replies, end of transfer, every exception, and the machine's states |
| Sahara.FirehoseClient.InitializeSession | BACKRabbit.Protocol.Firehose/FirehoseClient.cs:38-58 | the handshake up to command mode |
| SaharaProofs.RepliesAreSlices | BACKRabbit.Protocol.Firehose/SaharaLoaderUploader.cs:40-51 | data is sent exactly for requests inside the file, and is then the file's bytes from there |
| SaharaProofs.RepliesExactly | BACKRabbit.Protocol.Firehose/SaharaLoaderUploader.cs:34-51 | which packets get data, which end the upload and, by exclusion, which make it throw |
| SaharaProofs.RequestAnswered | BACKRabbit.Protocol.Firehose/SaharaLoaderUploader.cs:34-51 | a request by its bytes, and the packet that answers it |
| SaharaProofs.UploadStops | BACKRabbit.Protocol.Firehose/SaharaLoaderUploader.cs:32-52 | how far any upload reads, how many packets it sends, and whether it completes |
| SaharaProofs.EveryReply | BACKRabbit.Protocol.Firehose/SaharaLoaderUploader.cs:32-52 | over every run, each packet sent answers the request at that point |
| SaharaProofs.FileReassembled | BACKRabbit.Protocol.Firehose/SaharaLoaderUploader.cs:32-52 | consecutive requests, then end of transfer: the device has exactly what it asked for |
| SaharaProofs.WholeFileSent | BACKRabbit.Protocol.Firehose/SaharaLoaderUploader.cs:32-52 | requests that cover the file reassemble it |
| SaharaProofs.EveryRunStepwise | BACKRabbit.Protocol.Firehose/SaharaStateMachine.cs:24-62 | any calls in any order visit states by allowed steps only |
| SaharaProofs.EveryPathIsRun | BACKRabbit.Protocol.Firehose/SaharaStateMachine.cs:24-62 | and every path of allowed steps and errors is some run's |
| SaharaProofs.ErrorFreeRunsClimb | BACKRabbit.Protocol.Firehose/SaharaStateMachine.cs:46-62 | without errors the rank climbs, but for a continuing upload |
| SaharaProofs.CommandModeEarned | BACKRabbit.Protocol.Firehose/SaharaStateMachine.cs:46-62 | over every run, command mode comes right after greeting, upload and completion |
| SaharaProofs.UploadCompletesExactly | BACKRabbit.Protocol.Firehose/SaharaLoaderUploader.cs:32-52 | an upload completes exactly when the device, after requests inside the file alone, ends the transfer or asks beyond the file |
| SaharaProofs.SessionReachesCommandMode | BACKRabbit.Protocol.Firehose/FirehoseClient.cs:38-58 | exactly which packet lists bring a session to command mode, and what was then known, sent and visited |
| SaharaProofs.NothingUploaded | BACKRabbit.Protocol.Firehose/SaharaLoaderUploader.cs:45-46 | a first request beyond the file reaches command mode with nothing of the file sent |
| SaharaProofs.HelloAnswersGreeting | BACKRabbit.Protocol.Firehose/SaharaChipInfo.cs:41-49 | the hello response carries the device's minimum version and packet size |
| SaharaProofs.GreetingRead | BACKRabbit.Protocol.Firehose/SaharaChipInfo.cs:19-27 | a hello request of four words gives version, minimum version, packet size and mode in that order |
| SaharaProofs.FullGreetingRead | BACKRabbit.Protocol.Firehose/SaharaChipInfo.cs:28-39 | a full one also chip id, key hash and serial number |
| SaharaProofs.ShortGreetingRead | BACKRabbit.Protocol.Firehose/SaharaChipInfo.cs:28-39 | one that ends before has none of them |
| SaharaProofs.ResponseEchoesGreeting | BACKRabbit.Protocol.Firehose/FirehoseClient.cs:38-58 | for any packets: a session answers exactly a full hello request, with 48 bytes of which 4 to 12 are the request's own |
| SaharaProofs.UsedMachineAnswersNothing | BACKRabbit.Protocol.Firehose/FirehoseClient.cs:38-58 | on a machine that is not disconnected the greeting is stored and nothing answered |
| SaharaProofs.SessionReads | BACKRabbit.Protocol.Firehose/FirehoseClient.cs:38-58 | how many packets a session reads |
| AdbKey.WriteSshMpint | BACKRabbit.Protocol.Adb/AdbKeyManager.cs:242-259 | trim, sign byte, length: the mpint |
| AdbKey.EncodeSshRsaPublicKey | BACKRabbit.Protocol.Adb/AdbKeyManager.cs:214-223 | the blob of section 6.6 of RFC 4253 |
| AdbKey.ParseSshRsaPublicKey | BACKRabbit.Protocol.Adb/AdbKeyManager.cs:173-203 | the cursor parser, none on any malformed blob |
| AdbKey.FoldExponent | BACKRabbit.Protocol.Adb/AdbKeyManager.cs:152-154 | the shift loop keeps the exponent's low 32 bits |
| AdbKey.EncodeAndroidPubkeyModulus | BACKRabbit.Protocol.Adb/AdbKeyManager.cs:121-166 | strip, pad or cut, words, exponent: the Android form |
| AdbKey.MpintIsMinimal | BACKRabbit.Protocol.Adb/AdbKeyManager.cs:242-259 | value kept, not negative, minimal exactly when not zero |
| AdbKey.ZeroHasAByte | BACKRabbit.Protocol.Adb/AdbKeyManager.cs:251-257 | zero is written as one zero byte |
| AdbKey.ParseOfEncode | BACKRabbit.Protocol.Adb/AdbKeyManager.cs:173-223 | parsing an encoded key gives its mpints |
| AdbKey.ParsesExactly | BACKRabbit.Protocol.Adb/AdbKeyManager.cs:173-203 | a blob gives a key exactly when it begins with the algorithm's name and the key's two strings |
| AdbKey.KeyReencoded | BACKRabbit.Protocol.Adb/AdbKeyManager.cs:121-223 | the parsed key's Android form is the original's, for keys of any size |
| AdbKey.AndroidIsFaithful | BACKRabbit.Protocol.Adb/AdbKeyManager.cs:121-166 | the 264 bytes: 64 words, the exponent's low 32 bits, the modulus' low 2048 bits; and exactly when each survives |
| AdbKey.AndroidTellsKeysApart | BACKRabbit.Protocol.Adb/AdbKeyManager.cs:121-166 | keys that fit have the same form exactly when they are the same numbers |
| SparseImages.ParseImage | BACKRabbit.Protocol.Fastboot/SparseImage.cs:24-69 | header checks and chunk loop, 32-bit offsets and early ends included |
| SparseImages.SparseImage.ToRawImage | BACKRabbit.Protocol.Fastboot/SparseImage.cs:71-100 | the chunk loop over one buffer, or the exception |
| SparseImages.CopyPattern | BACKRabbit.Protocol.Fastboot/SparseImage.cs:86-91 | the fill loop in place |
| SparseImages.FlashChunks | BACKRabbit.Protocol.Fastboot/FastbootClient.cs:176-202 | what the chunk loop sends |
| SparseImageProofs.LaidOutImageParses | BACKRabbit.Protocol.Fastboot/SparseImage.cs:24-69 | an image laid out in this format is read back field by field and chunk by chunk |
| SparseImageProofs.CutOffImageParses | BACKRabbit.Protocol.Fastboot/SparseImage.cs:24-69 | an image that ends inside its last chunk's data: that chunk is read with no data |
| SparseImageProofs.LongMagicRefused | BACKRabbit.Protocol.Fastboot/SparseImage.cs:28-31 | an image that begins with the 32-bit magic 0xED26FF3A is refused |
| SparseImageProofs.PositionReached | BACKRabbit.Protocol.Fastboot/SparseImage.cs:77-97 | the write position is the sum of the chunks' advances |
| SparseImageProofs.PlacedByBlocks | BACKRabbit.Protocol.Fastboot/SparseImage.cs:77-97 | chunks stand at the block size times the blocks before them exactly when each advances by its blocks |
| SparseImageProofs.FillByPatternMovesShort | BACKRabbit.Protocol.Fastboot/SparseImage.cs:86-91 | a fill chunk of one block that carries its four-byte pattern advances by less |
| SparseImageProofs.RawImageIs | BACKRabbit.Protocol.Fastboot/SparseImage.cs:71-100 | well-sized chunks expand to their contents one after the other, then zeros |
| SparseImageProofs.ChunkStandsAt | BACKRabbit.Protocol.Fastboot/SparseImage.cs:71-100 | where each chunk's contents stand |
| SparseImageProofs.FlashSendsImage | BACKRabbit.Protocol.Fastboot/FastbootClient.cs:176-202 | what is flashed is the expanded image without its DontCare ranges, each piece behind its length |

## Left out

- Older copies (`canary-27005_*`, `canary-27006_*`) and the 27008 and 28001 headers: the same algorithms.
- Compression libraries, digests, RSA, X.509: parameters, with inverse or collision assumptions where stated.
- `chunk_out_stream` cuts streams into the sizes its user asks for, `align_to` rounds up, `parse_prop_file` gives key and value pairs in order, `Utf8CStr` paths and protobuf parsing give their values: assumed, not modelled.
- AVB1 signatures (signing and verifying), the checksums of DHTB and blob heads, and the scan of `boot_img`'s constructor over ChromeOS, DHTB and blob heads: a head is only the bytes in front of the payload.
- BootLayout.BootImg.ParseImage: AMONET headers; for any image with a second boot magic 1024 bytes on, `create_hdr` gives no header here.
- BootHeader.GetAfterSet: the 64-bit recovery offset, id, name and command line are not among its fields; they are treated on their own.
- BootWriter.Repack: the header file's edits are modelled in `HeaderFile` and not combined with a repacked image; the new digest is a parameter of 32 bytes, and a file that ends before a block is reached reads as nothing there.
- Format.DetectFmtLg: on a walk that circles the code does not return; `CheckFmtLg` gives LZ4_LEGACY there.
- HeaderFile.Header.LoadHdrFile: a line whose numbers cannot all be scanned leaves the header as it is, where the code would use uninitialised numbers.
- HeaderFile.FileReproduced: line breaks inside values, and the trimming of lines, are outside the pairs modelled.
- BootTail.TailRecovered: with a head in front the vbmeta is not found again, for the reason given above; a DHTB head's own mark and checksum are not part of `BootWhole.WholeImageBackAgain`.
- SparseRepair.Client.GetPartitionInfo: letter case is folded for ASCII letters only.
- SparseRepair.Client.WritePartition: whether a call throws, and what it returns, are functions of the device; a table command that throws (one Error entry in the audit) is not part of that client.
- Firehose.FirehoseClient.SendCommand: waiting times and XML text; fragments of a response are what a parameter takes out of the trimmed text, and the other commands (erase, peek, poke, power) go the same way.
- BootWhole.WholeImageBackAgain: an MTK ramdisk has more than its header; behind a header alone a vendor mark is written inside its page.
- BootFiles.RepackedFilesAgain: that the new kernel and ramdisk are taken apart as they were put together is a condition on the written bytes.
- SparseRepair.PartitionRestorer.SparseRepair: log output, cancellation, and image files that change during a run. `add_sparse_repair.py` holds an earlier text of the method, without the manifest check and with Skipped for a missing image.
- SparseRepair.PartitionRestorer.VerifyStockIntegrity: reading and parsing `manifest.json`; the manifest is its list of entries, empty when the file is missing or malformed.
- Full restore (`RestoreAsync`) and the wiping of user data in `Rescue/PartitionRestorer.cs`.
- Sahara.FirehoseClient.InitializeSession: the `configure` exchange after command mode is reached is `Firehose.FirehoseClient.ConfigureChannel`; the serial number is kept as bytes.
- SparseImages.FlashChunks: responses, progress events and the device's side of fastboot.
- AdbKey.ParseSshRsaPublicKey: PEM, Base64, key generation and signing around it.
- Listing, extraction to files and display of archives; USB, ADB, download mode, firmware sourcing, user interfaces.
