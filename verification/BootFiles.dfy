/** Unpacking with decompression, repacking with compression, and unpacking again: when the files are the same. */
module BootFiles {
  import opened Bytes
  import opened Format
  import opened BootHeader
  import opened BootLayout
  import opened BootKernel
  import opened BootVendor
  import opened BootRepack
  import opened BootRoundTrip

  // ----- one file

  /** What is compressed from `file`, with `tail` behind it, is recognised as compressed and decompresses to it. */
  predicate Inverse(c: Codec, how: Fmt, file: bytes, tail: bytes) {
    var w := c.compress(how, file) + tail;
    c.compress(how, file) != [] && Compressed(CheckFmtLg(w)) && c.decompress(CheckFmtLg(w), w) == file
  }

  /** The written bytes are unpacked to the file they were written from. */
  predicate ComesBack(c: Codec, w: bytes, file: Option<bytes>) {
    Dumped(c, false, CheckFmtLg(w), w) == file
  }

  /** A file that `repack` takes for compressed and puts in as it is, and that does not decompress to itself. */
  predicate TakenForCompressed(c: Codec, fmt: Fmt, file: bytes) {
    Compressed(fmt) && Compressed(CheckFmt(file)) && c.decompress(CheckFmtLg(file), file) != file
  }

  lemma LgIsAsCompressed(s: bytes)
    ensures Compressed(CheckFmtLg(s)) <==> Compressed(CheckFmt(s))
  {
    hide CheckFmt, Walk;
  }

  /**
   * A block's file, written in the block's own format or another compressed one, is unpacked to the same
   * file exactly unless it was taken for compressed.
   */
  lemma PieceComesBack(c: Codec, block: bytes, fmt: Fmt, how: Fmt)
    requires block != [] && (fmt == CheckFmtLg(block) || Compressed(fmt))
    requires var file := Dumped(c, false, CheckFmtLg(block), block).value;
             file != [] && (Compressed(fmt) && !CompressedAny(CheckFmt(file)) ==> Inverse(c, how, file, []))
    ensures var file := Dumped(c, false, CheckFmtLg(block), block).value;
            ComesBack(c, Written(c, false, fmt, how, file), Some(file)) <==> !TakenForCompressed(c, fmt, file)
  {
    hide CheckFmt, CheckFmtLg;
    var file := Dumped(c, false, CheckFmtLg(block), block).value;
    LgIsAsCompressed(file);
    LgIsAsCompressed(block);
    assert c.compress(how, file) + [] == c.compress(how, file);
  }

  /** In a zImage, a recompressed kernel with its padding comes back, and so does the original put back for one that is too large. */
  lemma ZImageComesBack(c: Codec, img: bytes, k: Kernel)
    requires k.zImage && k.fmt == CheckFmtLg(Slice(img, k.at, k.size)) && Compressed(k.fmt)
    requires var file := Dumped(c, false, k.fmt, Slice(img, k.at, k.size));
             file.Some? && !CompressedAny(CheckFmt(file.value)) && Body(c, false, img, k, file).Some?
             && var w := c.compress(HowToCompress(k), file.value);
                |w| + 4 <= k.size ==> Inverse(c, HowToCompress(k), file.value, Zeros(k.size - |w| - 4) + LE32(|file.value| % U32))
    ensures var file := Dumped(c, false, k.fmt, Slice(img, k.at, k.size));
            ComesBack(c, Body(c, false, img, k, file).value, file)
  {
    hide CheckFmt, CheckFmtLg, Slice, LE32;
    var file := Dumped(c, false, k.fmt, Slice(img, k.at, k.size)).value;
    var w := c.compress(HowToCompress(k), file);
    if |w| + 4 <= k.size {
      var pad := Zeros(k.size - |w| - 4);
      assert w + pad + LE32(|file| % U32) == w + (pad + LE32(|file| % U32));
    }
  }

  // ----- an entry of a vendor ramdisk table

  /** What an entry's file holds after `unpack`: its bytes, decompressed when they are compressed. */
  function VendorFile(c: Codec, data: bytes): bytes {
    if Compressed(CheckFmtLg(data)) then c.decompress(CheckFmtLg(data), data) else data
  }

  /**
   * An entry that no later one shares its file with: `unpack` leaves its decompressed bytes there, and
   * from the section `repack` makes of the files, wherever that stands, the entry unpacks to the same
   * file exactly unless it was taken for compressed.
   */
  lemma VendorEntryComesBack(c: Codec, img: bytes, ramdisk: nat, entries: seq<TableEntry>, k: nat, out: bytes, at: nat)
    requires WellSized(entries) && NamesFit(entries) && k < |entries|
    requires Keeper(entries, FileName(entries[k], UNPACK_BUFFER)) == k
    requires var dir := Unpacked(c, false, img, ramdisk, entries);
             AllThere(entries, dir) && var r := Repacked(c, false, img, ramdisk, entries, dir);
                                       |r.data| < U32 && Holds(out, at, r.data)
    requires var data, fmt := EntryData(img, ramdisk, entries[k]), EntryFmt(img, ramdisk, entries[k]);
             var file := VendorFile(c, data);
             data != [] && file != [] && (Compressed(fmt) && !CompressedAny(CheckFmt(file)) ==> Inverse(c, fmt, file, []))
    ensures var file := VendorFile(c, EntryData(img, ramdisk, entries[k]));
            var name, dir := FileName(entries[k], UNPACK_BUFFER), Unpacked(c, false, img, ramdisk, entries);
            && name in dir && dir[name] == file
            && (EntryFile(c, false, out, at, Repacked(c, false, img, ramdisk, entries, dir).entries[k]) == file
                <==> !TakenForCompressed(c, EntryFmt(img, ramdisk, entries[k]), file))
  {
    hide FileName, Repacked, Unpacked, NameFits, Keeper, CheckFmt, CheckFmtLg, Holds, Slice, NewData;
    var e, dir := entries[k], Unpacked(c, false, img, ramdisk, entries);
    UnpackedKeeps(c, false, img, ramdisk, entries, k);
    NamesAgreeExactly(e);
    EntryTiles(c, false, img, ramdisk, entries, dir, k);
    var r, w := Repacked(c, false, img, ramdisk, entries, dir), NewDataAt(c, false, img, ramdisk, entries, dir, k);
    EntryHeld(out, at, r.data, r.entries[k], w);
    NewDataComesBack(c, img, ramdisk, e);
  }

  lemma EntryHeld(out: bytes, at: nat, section: bytes, e: TableEntry, w: bytes)
    requires Holds(out, at, section) && Holds(section, e.offset, w) && e.size == |w|
    ensures EntryData(out, at, e) == w
  {
    HoldsPart(out, at, section, e.offset, e.offset + |w|);
  }

  lemma NewDataComesBack(c: Codec, img: bytes, ramdisk: nat, e: TableEntry)
    requires var data, fmt := EntryData(img, ramdisk, e), EntryFmt(img, ramdisk, e);
             var file := VendorFile(c, data);
             data != [] && file != [] && (Compressed(fmt) && !CompressedAny(CheckFmt(file)) ==> Inverse(c, fmt, file, []))
    ensures var file := VendorFile(c, EntryData(img, ramdisk, e));
            var w := NewData(c, false, img, ramdisk, e, file);
            && w != [] && EntryFile(c, false, img, ramdisk, e) == file
            && (VendorFile(c, w) == file <==> !TakenForCompressed(c, EntryFmt(img, ramdisk, e), file))
  {
    hide CheckFmt, CheckFmtLg, EntryData;
    var data, fmt := EntryData(img, ramdisk, e), EntryFmt(img, ramdisk, e);
    var file := VendorFile(c, data);
    assert Dumped(c, false, CheckFmtLg(data), data) == Some(file);
    PieceComesBack(c, data, fmt, fmt);
    assert c.compress(fmt, file) + [] == c.compress(fmt, file);
  }

  // ----- the whole image

  /** The ramdisk behind its MTK header, as written. */
  function RamdiskBody(c: Codec, img: bytes, b: Parsed, files: Files): bytes
    requires WellFormed(b)
  {
    var fmt := RamdiskFmt(b, false, RamdiskOf(img, b).fmt);
    if files.ramdisk.Some? then Written(c, false, fmt, fmt, files.ramdisk.value) else []
  }

  /** Parsing takes the new kernel and ramdisk apart where they were put together; nothing in them looks like a part of its own. */
  predicate TakenApartAlike(c: Codec, img: bytes, b: Parsed, files: Files, out: bytes, again: Parsed)
    requires WellFormed(b) && WellFormed(again) && BodyOf(c, false, img, b, files).Some?
  {
    var k, r := KernelOf(out, again), RamdiskOf(out, again);
    && Slice(out, k.at, k.size) == BodyOf(c, false, img, b, files).value
    && Slice(out, k.dtbAt, k.dtbSize) == OrEmpty(files.kernelDtb)
    && Slice(out, r.at, r.size) == RamdiskBody(c, img, b, files)
  }

  lemma KernelFmt(img: bytes, at: nat, size: u32)
    ensures var k := ParseKernel(img, at, size); k.fmt == CheckFmtLg(Slice(img, k.at, k.size))
  {
    hide FindDtb, FindIn, PiggyEnd, Word, CheckFmtLg;
    if size == 0 { NothingIsUnknown(img, at); }
  }

  lemma NothingIsUnknown(img: bytes, at: nat)
    ensures Slice(img, at, 0) == [] && CheckFmtLg([]) == UNKNOWN
  {
  }

  lemma RamdiskFmtIs(img: bytes, at: nat, size: u32)
    ensures var r := ParseRamdisk(img, at, size, false); r.fmt == CheckFmtLg(Slice(img, r.at, r.size))
  {
    hide CheckFmtLg;
    NothingIsUnknown(img, at);
  }

  /** Without a table before, there is none in what parsing must find. */
  lemma NoTableAgain(c: Codec, img: bytes, b: Parsed, files: Files, out: bytes, vendor: bool, again: Parsed)
    requires WellFormed(b) && Writable(c, false, img, b, files) && !HasTable(b)
    requires Parse(out, again.base, vendor) == Some(again) && again.blocks == FinalBlocks(c, false, img, b, files)
    ensures WellFormed(again) && !HasTable(again) && TableOf(again) == []
  {
    hide Parse, Get, NewKernelSize, Writable, KernelOf, RamdiskOf, PatchSize, KernelBytes, RamdiskBytes, BlockPos, BodyOf,
         EntriesOf, ExtraBytes;
    ParsedFacts(out, again.base, vendor, again);
    ParsedBlock(out, again.base, vendor, again, 7);
  }

  /** The blocks that are files as they are, and the extra block, as written. */
  lemma PlainBlocks(c: Codec, img: bytes, b: Parsed)
    requires WellFormed(b) && Writable(c, false, img, b, Unpack(c, false, img, b))
    ensures var files := Unpack(c, false, img, b);
            var final := FinalBlocks(c, false, img, b, files);
            && AsFile(final[2]) == files.second && AsFile(final[4]) == files.recoveryDtbo && AsFile(final[5]) == files.dtb
            && AsFile(final[8]) == files.bootconfig && final[3] == ExtraBytes(c, false, b, files)
  {
    hide KernelOf, RamdiskOf, Writable, NewKernelSize, PatchSize, KernelBytes, RamdiskBytes, BodyOf, BlockPos, NewTable, Unpacked,
         TableOf, HasTable, ExtraBytes, Dumped, Slice;
  }

  /** Which of the three compressed files come back. */
  predicate FilesComeBack(c: Codec, img: bytes, b: Parsed)
    requires WellFormed(b) && BodyOf(c, false, img, b, Unpack(c, false, img, b)).Some?
  {
    var files := Unpack(c, false, img, b);
    && ComesBack(c, BodyOf(c, false, img, b, files).value, files.kernel)
    && ComesBack(c, RamdiskBody(c, img, b, files), files.ramdisk)
    && ComesBack(c, ExtraBytes(c, false, b, files), files.extra)
  }

  /**
   * Unpacking, repacking and unpacking again, all with (de)compression: where the repacked image is
   * parsed and taken apart as it was put together, the files are the same exactly when kernel, ramdisk
   * and extra file each come back.
   */
  lemma UnpackedAgain(c: Codec, img: bytes, vendor: bool, b: Parsed, out: bytes, again: Parsed)
    requires WellFormed(b) && !HasTable(b) && Writable(c, false, img, b, Unpack(c, false, img, b))
    requires Parse(out, again.base, vendor) == Some(again)
    requires again.blocks == FinalBlocks(c, false, img, b, Unpack(c, false, img, b))
    requires WellFormed(again) && TakenApartAlike(c, img, b, Unpack(c, false, img, b), out, again)
    ensures Unpack(c, false, out, again) == Unpack(c, false, img, b) <==> FilesComeBack(c, img, b)
  {
    hide Parse, Get, FinalBlocks, HasTable, TableOf, Writable, ExtraBytes, Dumped, Unpack, KernelOf, RamdiskOf, Slice, BodyOf, RamdiskBody;
    NoTableAgain(c, img, b, Unpack(c, false, img, b), out, vendor, again);
    PlainBlocks(c, img, b);
    UnpackIs(c, out, again);
    UnpackIs(c, img, b);
    DtbFile(c, img, b);
    NoTable(b);
  }

  lemma NoTable(b: Parsed)
    requires WellFormed(b) && !HasTable(b)
    ensures TableOf(b) == []
  {
  }

  /** Unpacking, by the bytes of each part. */
  lemma UnpackIs(c: Codec, img: bytes, b: Parsed)
    requires WellFormed(b) && !HasTable(b)
    ensures var k, r := KernelOf(img, b), RamdiskOf(img, b);
            var kernel, ramdisk := Slice(img, k.at, k.size), Slice(img, r.at, r.size);
            Unpack(c, false, img, b) == Files(
              Dumped(c, false, CheckFmtLg(kernel), kernel), AsFile(Slice(img, k.dtbAt, k.dtbSize)),
              Dumped(c, false, CheckFmtLg(ramdisk), ramdisk), AsFile(b.blocks[2]),
              Dumped(c, false, CheckFmtLg(b.blocks[3]), b.blocks[3]),
              AsFile(b.blocks[4]), AsFile(b.blocks[5]), AsFile(b.blocks[8]), map[])
  {
    KernelFmt(img, BlockPos(b, 0), Get(b.v, b.raw, KernelSize));
    RamdiskFmtIs(img, BlockPos(b, 1), Get(b.v, b.raw, RamdiskSize));
    NoTable(b);
    NoVendorFiles(c, img, b);
    hide Get, BlockPos, ParseKernel, ParseRamdisk, CheckFmtLg, HasTable, TableOf, Dumped, Slice;
  }

  lemma DtbFile(c: Codec, img: bytes, b: Parsed)
    requires WellFormed(b)
    ensures AsFile(OrEmpty(Unpack(c, false, img, b).kernelDtb)) == Unpack(c, false, img, b).kernelDtb
  {
    hide KernelOf, RamdiskOf, Dumped, TableOf, HasTable, Slice;
  }

  lemma NoVendorFiles(c: Codec, img: bytes, b: Parsed)
    requires WellFormed(b) && TableOf(b) == []
    ensures Unpack(c, false, img, b).vendorRamdisk == map[]
  {
    hide KernelOf, RamdiskOf, Dumped, TableOf, HasTable, Slice, BlockPos;
  }

  /** `file`, dumped from a block of format `was` and written in format `fmt`, is neither empty nor beyond the codec. */
  predicate Usable(c: Codec, fmt: Fmt, how: Fmt, file: Option<bytes>) {
    file.Some? ==> file.value != [] && (Compressed(fmt) && !CompressedAny(CheckFmt(file.value)) ==> Inverse(c, how, file.value, []))
  }

  /** Kernel outside a zImage, ramdisk and extra file are within the codec. */
  predicate AllUsable(c: Codec, img: bytes, b: Parsed)
    requires WellFormed(b)
  {
    var files, k, r, e := Unpack(c, false, img, b), KernelOf(img, b), RamdiskOf(img, b), CheckFmtLg(b.blocks[3]);
    && Usable(c, k.fmt, k.fmt, files.kernel)
    && Usable(c, RamdiskFmt(b, false, r.fmt), RamdiskFmt(b, false, r.fmt), files.ramdisk)
    && Usable(c, e, e, files.extra)
  }

  predicate Taken(c: Codec, fmt: Fmt, file: Option<bytes>) {
    file.Some? && TakenForCompressed(c, fmt, file.value)
  }

  lemma FileComesBack(c: Codec, block: bytes, fmt: Fmt, how: Fmt)
    requires fmt == CheckFmtLg(block) || Compressed(fmt)
    requires Usable(c, fmt, how, Dumped(c, false, CheckFmtLg(block), block))
    ensures var file := Dumped(c, false, CheckFmtLg(block), block);
            ComesBack(c, if file.Some? then Written(c, false, fmt, how, file.value) else [], file) <==> !Taken(c, fmt, file)
  {
    hide CheckFmt, CheckFmtLg, Written, TakenForCompressed, Inverse;
    if block != [] { PieceComesBack(c, block, fmt, how); }
  }

  predicate NoneTaken(c: Codec, img: bytes, b: Parsed)
    requires WellFormed(b)
  {
    var files, k, r := Unpack(c, false, img, b), KernelOf(img, b), RamdiskOf(img, b);
    && !Taken(c, k.fmt, files.kernel) && !Taken(c, RamdiskFmt(b, false, r.fmt), files.ramdisk)
    && !Taken(c, CheckFmtLg(b.blocks[3]), files.extra)
  }

  /** Outside zImages: the files come back exactly when none of the three is taken for compressed. */
  lemma FilesComeBackExactly(c: Codec, img: bytes, b: Parsed)
    requires WellFormed(b) && !HasTable(b) && !KernelOf(img, b).zImage && AllUsable(c, img, b)
    ensures BodyOf(c, false, img, b, Unpack(c, false, img, b)).Some?
    ensures FilesComeBack(c, img, b) <==> NoneTaken(c, img, b)
  {
    KernelPiece(c, img, b);
    RamdiskPiece(c, img, b);
    ExtraPiece(c, img, b);
    hide KernelOf, RamdiskOf, HasTable, ComesBack, Taken, Unpack, CheckFmtLg, BodyOf, RamdiskBody, ExtraBytes, AllUsable, RamdiskFmt;
  }

  lemma KernelPiece(c: Codec, img: bytes, b: Parsed)
    requires WellFormed(b) && !KernelOf(img, b).zImage && AllUsable(c, img, b)
    ensures var files := Unpack(c, false, img, b);
            && BodyOf(c, false, img, b, files).Some?
            && (ComesBack(c, BodyOf(c, false, img, b, files).value, files.kernel) <==> !Taken(c, KernelOf(img, b).fmt, files.kernel))
  {
    var k := KernelOf(img, b);
    KernelFmt(img, BlockPos(b, 0), Get(b.v, b.raw, KernelSize));
    hide Get, BlockPos, ParseKernel, ParseRamdisk, CheckFmtLg, HasTable, TableOf, Taken, ComesBack, Slice, Unpacked, CheckFmt,
         Inverse, RamdiskOf;
    FileComesBack(c, Slice(img, k.at, k.size), k.fmt, k.fmt);
  }

  lemma RamdiskPiece(c: Codec, img: bytes, b: Parsed)
    requires WellFormed(b) && !HasTable(b) && AllUsable(c, img, b)
    ensures var files := Unpack(c, false, img, b);
            (ComesBack(c, RamdiskBody(c, img, b, files), files.ramdisk)
             <==> !Taken(c, RamdiskFmt(b, false, RamdiskOf(img, b).fmt), files.ramdisk))
  {
    var r := RamdiskOf(img, b);
    RamdiskFmtIs(img, BlockPos(b, 1), Get(b.v, b.raw, RamdiskSize));
    hide Get, BlockPos, ParseKernel, ParseRamdisk, CheckFmtLg, TableOf, Taken, ComesBack, Slice, Unpacked, CheckFmt, Inverse, KernelOf;
    var fmt := RamdiskFmt(b, false, r.fmt);
    assert fmt == CheckFmtLg(Slice(img, r.at, r.size)) || Compressed(fmt);
    hide RamdiskFmt, RamdiskOf;
    FileComesBack(c, Slice(img, r.at, r.size), fmt, fmt);
  }

  lemma ExtraPiece(c: Codec, img: bytes, b: Parsed)
    requires WellFormed(b) && AllUsable(c, img, b)
    ensures var files := Unpack(c, false, img, b);
            ComesBack(c, ExtraBytes(c, false, b, files), files.extra) <==> !Taken(c, CheckFmtLg(b.blocks[3]), files.extra)
  {
    hide Get, BlockPos, ParseKernel, CheckFmtLg, HasTable, TableOf, Taken, ComesBack, Slice, Unpacked, CheckFmt, Inverse, RamdiskOf,
         KernelOf;
    FileComesBack(c, b.blocks[3], CheckFmtLg(b.blocks[3]), CheckFmtLg(b.blocks[3]));
  }

  /** The unpacked files can be repacked into an image without a ramdisk table that describes them. */
  predicate Repackable(c: Codec, img: bytes, vendor: bool, b: Parsed)
    requires WellFormed(b)
  {
    var files := Unpack(c, false, img, b);
    && Parse(img, b.base, vendor) == Some(b) && HeaderFits(b) && !HasTable(b)
    && Nested(img, BlockPos(b, 0), Get(b.v, b.raw, KernelSize))
    && Writable(c, false, img, b, files) && Describable(c, false, img, b, files) && !ChangesLayout(c, false, b, files)
    && (RamdiskOf(img, b).mtk ==> files.ramdisk.Some?)
  }

  function RecompressedHeader(c: Codec, img: bytes, b: Parsed, dtboAt: u64, id: bytes): (r: Raw)
    requires WellFormed(b) && Writable(c, false, img, b, Unpack(c, false, img, b)) && |id| == 32
    ensures RawOf(b.v, r)
  {
    var files := Unpack(c, false, img, b);
    NewHeader(b, NewBlocks(c, false, img, b, files), NewKernelSize(c, false, img, b, files), files, dtboAt, id)
  }

  /** The repacked image. */
  function Recompressed(c: Codec, img: bytes, b: Parsed, front: bytes, rest: bytes, dtboAt: u64, id: bytes): bytes
    requires WellFormed(b) && Writable(c, false, img, b, Unpack(c, false, img, b)) && |id| == 32
  {
    var files := Unpack(c, false, img, b);
    Image(front, NewSpace(img, b, RecompressedHeader(c, img, b, dtboAt, id)), FinalBlocks(c, false, img, b, files), Aligned(b, files),
          b.page, rest)
  }

  /** It is parsed as written. */
  lemma RecompressedParses(c: Codec, img: bytes, vendor: bool, b: Parsed, front: bytes, rest: bytes, dtboAt: u64, id: bytes)
    requires WellFormed(b) && Repackable(c, img, vendor, b) && |id| == 32
    ensures Parse(Recompressed(c, img, b, front, rest, dtboAt, id), |front|, vendor)
         == Some(Expected(c, false, img, b, Unpack(c, false, img, b), |front|, RecompressedHeader(c, img, b, dtboAt, id)))
  {
    hide Parse, Get, BlockPos, ParseKernel, FinalBlocks, HasTable, TableOf, Writable, Describable, ChangesLayout, Misplaces, NewHeader,
         NewBlocks, NewKernelSize, NewSpace, Image, AllInPlace, PayloadEnd, HeaderFits, Nested, Unpack, RamdiskOf, Aligned, HdrSpace,
         Laid, Expected;
    var files := Unpack(c, false, img, b);
    ParsedFacts(img, b.base, vendor, b);
    InStepWithRamdisk(c, false, img, b, files);
    ReachesWithRamdisk(c, false, img, b, files, front, rest, RecompressedHeader(c, img, b, dtboAt, id));
    RepackParsesExactly(c, false, img, vendor, b, files, front, rest, dtboAt, id);
  }

  lemma RecompressedFound(c: Codec, img: bytes, vendor: bool, b: Parsed, front: bytes, rest: bytes, dtboAt: u64, id: bytes)
    requires WellFormed(b) && Repackable(c, img, vendor, b) && |id| == 32
    ensures var again := Parse(Recompressed(c, img, b, front, rest, dtboAt, id), |front|, vendor);
            && again.Some? && WellFormed(again.value) && again.value.base == |front|
            && again.value.blocks == FinalBlocks(c, false, img, b, Unpack(c, false, img, b))
  {
    hide Parse, FinalBlocks, Recompressed, RecompressedHeader, PayloadEnd, Unpack, Writable, Describable, Nested, HeaderFits;
    RecompressedParses(c, img, vendor, b, front, rest, dtboAt, id);
    var out := Recompressed(c, img, b, front, rest, dtboAt, id);
    ParsedFacts(out, |front|, vendor, Parse(out, |front|, vendor).value);
  }

  /**
   * Main result, for images without a ramdisk table: where the repacked image is taken apart as it was
   * put together, unpacking it gives the same files exactly when kernel, ramdisk and extra file each
   * come back.
   */
  lemma RepackedFilesAgain(c: Codec, img: bytes, vendor: bool, b: Parsed, front: bytes, rest: bytes, dtboAt: u64, id: bytes)
    requires WellFormed(b) && Repackable(c, img, vendor, b) && |id| == 32
    ensures var out := Recompressed(c, img, b, front, rest, dtboAt, id);
            var again := Parse(out, |front|, vendor);
            && again.Some? && WellFormed(again.value)
            && (TakenApartAlike(c, img, b, Unpack(c, false, img, b), out, again.value) ==>
                  (Unpack(c, false, out, again.value) == Unpack(c, false, img, b) <==> FilesComeBack(c, img, b)))
  {
    hide Parse, Get, BlockPos, ParseKernel, FinalBlocks, HasTable, TableOf, Describable, ChangesLayout, Recompressed, HeaderFits, Nested,
         FilesComeBack, TakenApartAlike, Unpack, RamdiskOf, BodyOf;
    RecompressedFound(c, img, vendor, b, front, rest, dtboAt, id);
    var out, files := Recompressed(c, img, b, front, rest, dtboAt, id), Unpack(c, false, img, b);
    var again := Parse(out, |front|, vendor).value;
    if TakenApartAlike(c, img, b, files, out, again) { UnpackedAgain(c, img, vendor, b, out, again); }
  }
}
