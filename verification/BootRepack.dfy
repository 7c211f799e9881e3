/**
 * `unpack` and `repack`: which files a parsed image is taken apart into, which blocks and which
 * header are written from files, and what parsing the written image finds.
 */
module BootRepack {
  import opened Bytes
  import opened Format
  import opened BootHeader
  import opened BootLayout
  import opened BootKernel
  import opened BootVendor

  /** The working directory. */
  datatype Files = Files(kernel: Option<bytes>, kernelDtb: Option<bytes>, ramdisk: Option<bytes>, second: Option<bytes>,
                         extra: Option<bytes>, recoveryDtbo: Option<bytes>, dtb: Option<bytes>, bootconfig: Option<bytes>,
                         vendorRamdisk: map<bytes, bytes>)

  /** The ramdisk block: behind an MTK header, unless a table describes several ramdisks. */
  datatype Ramdisk = Ramdisk(at: nat, size: u32, fmt: Fmt, mtk: bool)

  function ParseRamdisk(img: bytes, at: nat, size: u32, table: bool): Ramdisk {
    if size == 0 || table then Ramdisk(at, size, UNKNOWN, false)
    else if CheckFmtLgAt(img, at, size) != MTK then Ramdisk(at, size, CheckFmtLgAt(img, at, size), false)
    else
      var n := Sub32(size, MTK_HDR_SIZE);
      Ramdisk(at + MTK_HDR_SIZE, n, CheckFmtLgAt(img, at + MTK_HDR_SIZE, n), true)
  }

  predicate WellFormed(b: Parsed) {
    RawOf(b.v, b.raw) && b.page > 0 && |b.blocks| == 9
  }

  function BlockPos(b: Parsed, k: nat): nat
    requires WellFormed(b) && k < 9
  {
    b.base + End(Sizes(b.v, b.raw)[..k], HdrSpace(b.v, b.page), b.page)
  }

  function KernelOf(img: bytes, b: Parsed): Kernel
    requires WellFormed(b)
  {
    ParseKernel(img, BlockPos(b, 0), Get(b.v, b.raw, KernelSize))
  }

  predicate HasTable(b: Parsed)
    requires WellFormed(b)
  {
    Get(b.v, b.raw, TableSize) != 0
  }

  function RamdiskOf(img: bytes, b: Parsed): Ramdisk
    requires WellFormed(b)
  {
    ParseRamdisk(img, BlockPos(b, 1), Get(b.v, b.raw, RamdiskSize), HasTable(b))
  }

  /** The table of a vendor image; parsing insists on the entry size, and the table must hold its entries. */
  predicate TableFits(b: Parsed)
    requires WellFormed(b)
  {
    Get(b.v, b.raw, TableEntrySize) == ENTRY_SIZE && Get(b.v, b.raw, TableEntryNum) * ENTRY_SIZE <= |b.blocks[7]|
  }

  function TableOf(b: Parsed): (t: seq<TableEntry>)
    requires WellFormed(b)
    ensures WellSized(t)
  {
    if HasTable(b) && TableFits(b) then EntriesOf(b.blocks[7], Get(b.v, b.raw, TableEntryNum)) else []
  }

  function AsFile(block: bytes): Option<bytes> {
    if block == [] then None else Some(block)
  }

  /** `unpack`, into an empty directory. */
  function Unpack(c: Codec, skip: bool, img: bytes, b: Parsed): Files
    requires WellFormed(b)
  {
    var k, r := KernelOf(img, b), RamdiskOf(img, b);
    Files(Dumped(c, skip, k.fmt, Slice(img, k.at, k.size)),
          AsFile(Slice(img, k.dtbAt, k.dtbSize)),
          if HasTable(b) then None else Dumped(c, skip, r.fmt, Slice(img, r.at, r.size)),
          AsFile(b.blocks[2]),
          Dumped(c, skip, CheckFmtLg(b.blocks[3]), b.blocks[3]),
          AsFile(b.blocks[4]), AsFile(b.blocks[5]), AsFile(b.blocks[8]),
          Unpacked(c, skip, img, BlockPos(b, 1), TableOf(b)))
  }

  // ----- the new blocks

  function OrEmpty(f: Option<bytes>): bytes {
    if f.Some? then f.value else []
  }

  /** A plain version 4 boot ramdisk is always recompressed as legacy LZ4. */
  function RamdiskFmt(b: Parsed, skip: bool, fmt: Fmt): Fmt
    requires WellFormed(b)
  {
    if !skip && !IsVendor(b.v) && Get(b.v, b.raw, HeaderVersion) == 4 then LZ4_LEGACY else fmt
  }

  function RamdiskBytes(c: Codec, skip: bool, img: bytes, b: Parsed, files: Files): bytes
    requires WellFormed(b) && (HasTable(b) ==> AllThere(TableOf(b), files.vendorRamdisk))
  {
    var r := RamdiskOf(img, b);
    if HasTable(b) then Repacked(c, skip, img, BlockPos(b, 1), TableOf(b), files.vendorRamdisk).data
    else
      var fmt := RamdiskFmt(b, skip, r.fmt);
      (if r.mtk then Slice(img, BlockPos(b, 1), MTK_HDR_SIZE) else [])
      + if files.ramdisk.Some? then Written(c, skip, fmt, fmt, files.ramdisk.value) else []
  }

  function ExtraBytes(c: Codec, skip: bool, b: Parsed, files: Files): bytes
    requires WellFormed(b)
  {
    var fmt := CheckFmtLg(b.blocks[3]);
    if files.extra.Some? then Written(c, skip, fmt, fmt, files.extra.value) else []
  }

  function NewTable(c: Codec, skip: bool, img: bytes, b: Parsed, files: Files): bytes
    requires WellFormed(b) && (HasTable(b) ==> AllThere(TableOf(b), files.vendorRamdisk))
  {
    if HasTable(b) then TableBytes(Repacked(c, skip, img, BlockPos(b, 1), TableOf(b), files.vendorRamdisk).entries) else []
  }

  function BodyOf(c: Codec, skip: bool, img: bytes, b: Parsed, files: Files): Option<bytes>
    requires WellFormed(b)
  {
    Body(c, skip, img, KernelOf(img, b), files.kernel)
  }

  /** Every file a table entry names is there, and the kernel can be written. */
  predicate Writable(c: Codec, skip: bool, img: bytes, b: Parsed, files: Files)
    requires WellFormed(b)
  {
    (HasTable(b) ==> AllThere(TableOf(b), files.vendorRamdisk)) && BodyOf(c, skip, img, b, files).Some?
  }

  /** The nine blocks in file order, before the MTK sizes are patched. */
  function NewBlocks(c: Codec, skip: bool, img: bytes, b: Parsed, files: Files): (r: seq<bytes>)
    requires WellFormed(b) && Writable(c, skip, img, b, files)
    ensures |r| == 9
  {
    var k := KernelOf(img, b);
    [KernelBytes(img, BlockPos(b, 0), k, BodyOf(c, skip, img, b, files).value, OrEmpty(files.kernelDtb)),
     RamdiskBytes(c, skip, img, b, files),
     OrEmpty(files.second),
     ExtraBytes(c, skip, b, files),
     OrEmpty(files.recoveryDtbo),
     OrEmpty(files.dtb),
     b.blocks[6],
     NewTable(c, skip, img, b, files),
     OrEmpty(files.bootconfig)]
  }

  /**
   * Which of the nine blocks `file_align` follows. What is not there is not aligned either, which only
   * matters for an MTK ramdisk without its file: its header is written, and nothing aligns it.
   */
  function Aligned(b: Parsed, files: Files): (al: seq<bool>)
    requires WellFormed(b)
    ensures |al| == 9
  {
    [true, HasTable(b) || files.ramdisk.Some?, files.second.Some?, files.extra.Some?, files.recoveryDtbo.Some?,
     files.dtb.Some?, b.blocks[6] != [], TableOf(b) != [], files.bootconfig.Some?]
  }

  /**
   * An MTK ramdisk header is written without a ramdisk and does not fill its page, and what is written
   * next, the first file or section that is there, is not empty: it starts inside that page.
   */
  predicate Misplaces(c: Codec, skip: bool, img: bytes, b: Parsed, files: Files)
    requires WellFormed(b) && Writable(c, skip, img, b, files)
  {
    var blocks, al := NewBlocks(c, skip, img, b, files), Aligned(b, files);
    && RamdiskOf(img, b).mtk && files.ramdisk.None? && |blocks[1]| % b.page != 0
    && exists k :: 2 <= k < 9 && NextWritten(al, k) && blocks[k] != []
  }

  /** What is neither there nor aligned has no bytes, an MTK ramdisk's header excepted. */
  lemma UnalignedIsEmpty(c: Codec, skip: bool, img: bytes, b: Parsed, files: Files)
    requires WellFormed(b) && Writable(c, skip, img, b, files)
    ensures var blocks, al := NewBlocks(c, skip, img, b, files), Aligned(b, files);
            && al[0] && (forall k :: 2 <= k < 9 && !al[k] ==> blocks[k] == [])
            && (!al[1] && blocks[1] != [] ==> RamdiskOf(img, b).mtk && files.ramdisk.None?)
            && (RamdiskOf(img, b).mtk && files.ramdisk.None? ==> !al[1])
  {
    hide KernelBytes, Repacked, KernelOf, BodyOf, BlockPos, Written, CheckFmt, CheckFmtLg, CheckFmtLgAt, Get, Slice,
         AllThere, TableOf, RamdiskFmt;
  }

  lemma MisplacesExactly(c: Codec, skip: bool, img: bytes, b: Parsed, files: Files)
    requires WellFormed(b) && Writable(c, skip, img, b, files)
    ensures var sizes, al := Lengths(NewBlocks(c, skip, img, b, files)), Aligned(b, files);
            && (OutOfStep(sizes, al, b.page) <==> Misplaces(c, skip, img, b, files))
            && al[0] && forall k :: 2 <= k < 9 && !al[k] ==> sizes[k] == 0
  {
    hide NewBlocks, Writable, RamdiskOf, NextWritten, Aligned;
    UnalignedIsEmpty(c, skip, img, b, files);
    var sizes, blocks, al := Lengths(NewBlocks(c, skip, img, b, files)), NewBlocks(c, skip, img, b, files), Aligned(b, files);
    ZeroFillsPages(b.page);
    assert forall k :: 0 <= k < 9 ==> (sizes[k] != 0 <==> blocks[k] != []);
    if OutOfStep(sizes, al, b.page) {
      var k :| 2 <= k < 9 && NextWritten(al, k) && sizes[k] != 0;
      assert blocks[k] != [];
    }
    if Misplaces(c, skip, img, b, files) {
      var k :| 2 <= k < 9 && NextWritten(al, k) && blocks[k] != [];
      assert sizes[k] != 0;
    }
  }

  lemma ZeroFillsPages(page: nat)
    requires page > 0
    ensures 0 % page == 0
  {
  }

  // ----- the new header

  datatype Edit = Edit(f: Field, n: u32)

  function Apply(v: Variant, raw: Raw, edits: seq<Edit>): (r: Raw)
    requires RawOf(v, raw)
    ensures RawOf(v, r)
  {
    if edits == [] then raw else Set(v, Apply(v, raw, edits[..|edits| - 1]), edits[|edits| - 1].f, edits[|edits| - 1].n)
  }

  /** The last edit of a field, if the layout has it, decides what it reads. */
  function Edited(v: Variant, raw: Raw, edits: seq<Edit>, g: Field): u32
    requires RawOf(v, raw)
  {
    if edits == [] then Get(v, raw, g)
    else
      var last := edits[|edits| - 1];
      if last.f == g && Offset(v, g).Some? then last.n else Edited(v, raw, edits[..|edits| - 1], g)
  }

  lemma {:induction false} GetAfterApply(v: Variant, raw: Raw, edits: seq<Edit>, g: Field)
    requires RawOf(v, raw)
    ensures Get(v, Apply(v, raw, edits), g) == Edited(v, raw, edits, g)
    decreases edits
  {
    hide Get, Set, Offset, RawOf;
    if edits != [] {
      var init, last := edits[..|edits| - 1], edits[|edits| - 1];
      GetAfterApply(v, raw, init, g);
      GetAfterSet(v, Apply(v, raw, init), last.f, last.n, g);
    }
  }

  /** `kernel_size` as added up while writing, with the MTK header counted in. */
  function NewKernelSize(c: Codec, skip: bool, img: bytes, b: Parsed, files: Files): nat
    requires WellFormed(b) && Writable(c, skip, img, b, files)
  {
    var k := KernelOf(img, b);
    KernelSizeSum(k, BodyOf(c, skip, img, b, files).value, OrEmpty(files.kernelDtb)) + if k.mtk then MTK_HDR_SIZE else 0
  }

  /** The size fields `repack` writes; those of absent extra and recovery DTBO files keep their values. */
  function SizeEdits(b: Parsed, blocks: seq<bytes>, kernelSize: nat, files: Files): seq<Edit>
    requires WellFormed(b) && |blocks| == 9
  {
    [Edit(KernelSize, kernelSize % U32), Edit(RamdiskSize, |blocks[1]| % U32), Edit(SecondSize, |blocks[2]| % U32)]
    + (if files.extra.Some? then [Edit(ExtraSize, |blocks[3]| % U32)] else [])
    + (if files.recoveryDtbo.Some? then [Edit(RecoveryDtboSize, |blocks[4]| % U32)] else [])
    + [Edit(DtbSize, |blocks[5]| % U32), Edit(BootconfigSize, |blocks[8]| % U32), Edit(HeaderSize, HdrSize(b.v))]
  }

  /** The header `repack` leaves; `dtboAt` is the place of the recovery DTBO and `id` the new digest. */
  function NewHeader(b: Parsed, blocks: seq<bytes>, kernelSize: nat, files: Files, dtboAt: u64, id: bytes): (r: Raw)
    requires WellFormed(b) && |blocks| == 9 && |id| == 32
    ensures RawOf(b.v, r)
  {
    var sized := Apply(b.v, b.raw, SizeEdits(b, blocks, kernelSize, files));
    SetId(b.v, if files.recoveryDtbo.Some? then SetRecoveryOffset(b.v, sized, dtboAt) else sized, id)
  }

  /** The digest and the 64-bit offset touch none of the 32-bit fields. */
  lemma GetAfterIdAndOffset(v: Variant, raw: Raw, n: u64, id: bytes, g: Field)
    requires RawOf(v, raw) && |id| == 32
    ensures Get(v, SetId(v, raw, id), g) == Get(v, raw, g)
    ensures Get(v, SetRecoveryOffset(v, raw, n), g) == Get(v, raw, g)
  {
    hide Get, LE64, Overwrite;
    if IdAt(v).Some? { GetAfterOther(v, raw, IdAt(v).value, id, g); }
    if v in {V1, V2} { GetAfterOther(v, raw, RECOVERY_OFFSET_AT, LE64(n), g); }
  }

  lemma NewHeaderReads(b: Parsed, blocks: seq<bytes>, kernelSize: nat, files: Files, dtboAt: u64, id: bytes, g: Field)
    requires WellFormed(b) && |blocks| == 9 && |id| == 32
    ensures Get(b.v, NewHeader(b, blocks, kernelSize, files, dtboAt, id), g)
         == Edited(b.v, b.raw, SizeEdits(b, blocks, kernelSize, files), g)
  {
    hide Get, Set, SetId, SetRecoveryOffset, SizeEdits, Apply, Edited, Offset, HdrSize;
    var edits := SizeEdits(b, blocks, kernelSize, files);
    var sized := Apply(b.v, b.raw, edits);
    GetAfterApply(b.v, b.raw, edits, g);
    GetAfterIdAndOffset(b.v, sized, dtboAt, id, g);
    GetAfterIdAndOffset(b.v, SetRecoveryOffset(b.v, sized, dtboAt), dtboAt, id, g);
  }

  lemma {:induction false} EditedSplit(v: Variant, raw: Raw, a: seq<Edit>, b: seq<Edit>, g: Field)
    requires RawOf(v, raw)
    requires forall i :: 0 <= i < |b| ==> b[i].f != g
    ensures Edited(v, raw, a + b, g) == Edited(v, raw, a, g)
    decreases b
  {
    hide Get, Offset;
    if b == [] {
      assert a + b == a;
    } else {
      assert (a + b)[..|a + b| - 1] == a + b[..|b| - 1];
      EditedSplit(v, raw, a, b[..|b| - 1], g);
    }
  }

  /** A field edited once reads the edit. */
  lemma EditedOnce(v: Variant, raw: Raw, edits: seq<Edit>, i: nat)
    requires RawOf(v, raw) && i < |edits| && Offset(v, edits[i].f).Some?
    requires forall j :: i < j < |edits| ==> edits[j].f != edits[i].f
    ensures Edited(v, raw, edits, edits[i].f) == edits[i].n
  {
    hide Get, Offset;
    assert edits == edits[..i + 1] + edits[i + 1..];
    EditedSplit(v, raw, edits[..i + 1], edits[i + 1..], edits[i].f);
  }

  /** A field no edit names, or the layout lacks, reads as before. */
  lemma {:induction false} EditedNever(v: Variant, raw: Raw, edits: seq<Edit>, g: Field)
    requires RawOf(v, raw)
    requires Offset(v, g).None? || forall j :: 0 <= j < |edits| ==> edits[j].f != g
    ensures Edited(v, raw, edits, g) == Get(v, raw, g)
    decreases edits
  {
    hide Get, Offset;
    if edits != [] { EditedNever(v, raw, edits[..|edits| - 1], g); }
  }

  /** A block's size fits its field, and a block without a field is empty. */
  predicate BlockFits(v: Variant, blocks: seq<bytes>, k: nat)
    requires |blocks| == 9 && k < 9
  {
    |blocks[k]| < U32 && (blocks[k] != [] ==> Offset(v, ORDER[k]).Some?)
  }

  /**
   * What the files must satisfy for the header to describe them: a block's size fits its field and
   * a block without a field in this layout is empty, an extra or recovery DTBO block is not just
   * left out (its size field would stay), a ramdisk table holds its entries and nothing else, and a
   * zImage kernel is not replaced by a shorter raw file.
   */
  predicate Describable(c: Codec, skip: bool, img: bytes, b: Parsed, files: Files)
    requires WellFormed(b) && Writable(c, skip, img, b, files)
  {
    && (forall k :: 0 <= k < 9 ==> BlockFits(b.v, NewBlocks(c, skip, img, b, files), k))
    && (files.extra.None? ==> Get(b.v, b.raw, ExtraSize) == 0)
    && (files.recoveryDtbo.None? ==> Get(b.v, b.raw, RecoveryDtboSize) == 0)
    && (HasTable(b) ==>
          Get(b.v, b.raw, TableEntrySize) == ENTRY_SIZE
          && Get(b.v, b.raw, TableEntryNum) * ENTRY_SIZE == Get(b.v, b.raw, TableSize))
    && !RawAndShorter(KernelOf(img, b), skip, files.kernel)
  }

  function SizeOf(blocks: seq<bytes>, kernelSize: nat, k: nat): nat
    requires k < |blocks|
  {
    if k == 0 then kernelSize else |blocks[k]|
  }

  predicate OnlyEdit(edits: seq<Edit>, i: nat, f: Field, n: nat)
    requires i < |edits|
  {
    edits[i] == Edit(f, n % U32) && forall j :: i < j < |edits| ==> edits[j].f != f
  }

  lemma EditsOf(b: Parsed, blocks: seq<bytes>, kernelSize: nat, files: Files, k: nat)
    requires WellFormed(b) && |blocks| == 9 && k < 9
    ensures var edits := SizeEdits(b, blocks, kernelSize, files);
            var edited := k in {0, 1, 2, 5, 8} || (k == 3 && files.extra.Some?) || (k == 4 && files.recoveryDtbo.Some?);
            if edited
            then exists i :: 0 <= i < |edits| && OnlyEdit(edits, i, ORDER[k], SizeOf(blocks, kernelSize, k))
            else forall j :: 0 <= j < |edits| ==> edits[j].f != ORDER[k]
  {
    var x, r := if files.extra.Some? then 1 else 0, if files.recoveryDtbo.Some? then 1 else 0;
    var edits := SizeEdits(b, blocks, kernelSize, files);
    var i := if k < 4 then k else if k == 4 then 3 + x else if k == 5 then 3 + x + r else 4 + x + r;
    assert |edits| == 6 + x + r;
    if k in {0, 1, 2, 5, 8} || (k == 3 && files.extra.Some?) || (k == 4 && files.recoveryDtbo.Some?) {
      assert OnlyEdit(edits, i, ORDER[k], SizeOf(blocks, kernelSize, k));
    }
  }

  /** Whether `repack` sets block `k`'s size field. */
  predicate SizeSet(files: Files, k: nat) {
    k in {0, 1, 2, 5, 8} || (k == 3 && files.extra.Some?) || (k == 4 && files.recoveryDtbo.Some?)
  }

  /** What the new header says about block `k`. */
  function StatedSize(b: Parsed, blocks: seq<bytes>, kernelSize: nat, files: Files, k: nat): nat
    requires WellFormed(b) && |blocks| == 9 && k < 9
  {
    if Offset(b.v, ORDER[k]).None? then 0
    else if SizeSet(files, k) then SizeOf(blocks, kernelSize, k) % U32
    else Get(b.v, b.raw, ORDER[k])
  }

  lemma SizeStated(b: Parsed, blocks: seq<bytes>, size: nat, files: Files, dtboAt: u64, id: bytes, k: nat)
    requires WellFormed(b) && |blocks| == 9 && |id| == 32 && k < 9
    ensures Get(b.v, NewHeader(b, blocks, size, files, dtboAt, id), ORDER[k]) == StatedSize(b, blocks, size, files, k)
  {
    hide NewHeader, SizeEdits, Get, Offset, Edited;
    var edits := SizeEdits(b, blocks, size, files);
    NewHeaderReads(b, blocks, size, files, dtboAt, id, ORDER[k]);
    EditsOf(b, blocks, size, files, k);
    if Offset(b.v, ORDER[k]).None? {
      EditedNever(b.v, b.raw, edits, ORDER[k]);
      AbsentReadsZero(b.v, b.raw, ORDER[k], k);
    } else if SizeSet(files, k) {
      var i :| 0 <= i < |edits| && OnlyEdit(edits, i, ORDER[k], SizeOf(blocks, size, k));
      EditedOnce(b.v, b.raw, edits, i);
    } else {
      EditedNever(b.v, b.raw, edits, ORDER[k]);
    }
  }

  /** The new header states every block's size. */
  predicate SizesStated(c: Codec, skip: bool, img: bytes, b: Parsed, files: Files)
    requires WellFormed(b) && Writable(c, skip, img, b, files)
  {
    var blocks, size := NewBlocks(c, skip, img, b, files), NewKernelSize(c, skip, img, b, files);
    forall k :: 0 <= k < 9 ==> StatedSize(b, blocks, size, files, k) == |blocks[k]|
  }

  lemma AbsentReadsZero(v: Variant, raw: Raw, f: Field, k: nat)
    requires RawOf(v, raw) && k < 9 && f == ORDER[k] && Offset(v, f).None?
    ensures Get(v, raw, f) == 0
  {
  }

  lemma AbsentFilesAreEmpty(c: Codec, skip: bool, img: bytes, b: Parsed, files: Files)
    requires WellFormed(b) && Writable(c, skip, img, b, files)
    ensures files.extra.None? ==> NewBlocks(c, skip, img, b, files)[3] == []
    ensures files.recoveryDtbo.None? ==> NewBlocks(c, skip, img, b, files)[4] == []
  {
    hide KernelBytes, RamdiskBytes, NewTable, KernelOf, BodyOf, BlockPos, Writable, CheckFmtLg;
  }

  // ----- recognising the new header

  /** The header bytes that `create_hdr` looks at. */
  predicate Dispatches(v: Variant, i: nat) {
    if IsVendor(v) then 8 <= i < 12
    else i < 8 || 36 <= i < 40 || (40 <= i < 44 && v != V0) || 48 <= i < 94 || 1024 <= i < 1032
  }

  predicate KeepsDispatch(v: Variant, raw: Raw, r: Raw)
    requires RawOf(v, raw) && RawOf(v, r)
  {
    forall i :: 0 <= i < HdrSize(v) && Dispatches(v, i) ==> r[i] == raw[i]
  }

  lemma SetKeepsDispatch(v: Variant, raw: Raw, f: Field, n: u32)
    requires RawOf(v, raw) && f !in {PageSize, HeaderVersion, OsVersion}
    ensures KeepsDispatch(v, raw, Set(v, raw, f, n))
  {
  }

  lemma {:induction false} ApplyKeepsDispatch(v: Variant, raw: Raw, edits: seq<Edit>)
    requires RawOf(v, raw) && forall j :: 0 <= j < |edits| ==> edits[j].f !in {PageSize, HeaderVersion, OsVersion}
    ensures KeepsDispatch(v, raw, Apply(v, raw, edits))
    decreases edits
  {
    hide Set, Dispatches;
    if edits != [] {
      var init, last := edits[..|edits| - 1], edits[|edits| - 1];
      ApplyKeepsDispatch(v, raw, init);
      SetKeepsDispatch(v, Apply(v, raw, init), last.f, last.n);
    }
  }

  lemma OthersKeepDispatch(v: Variant, raw: Raw, n: u64, id: bytes)
    requires RawOf(v, raw) && |id| == 32
    ensures KeepsDispatch(v, raw, SetId(v, raw, id)) && KeepsDispatch(v, raw, SetRecoveryOffset(v, raw, n))
  {
    hide LE64;
  }

  lemma NewHeaderKeepsDispatch(b: Parsed, blocks: seq<bytes>, kernelSize: nat, files: Files, dtboAt: u64, id: bytes)
    requires WellFormed(b) && |blocks| == 9 && |id| == 32
    ensures KeepsDispatch(b.v, b.raw, NewHeader(b, blocks, kernelSize, files, dtboAt, id))
  {
    var edits := SizeEdits(b, blocks, kernelSize, files);
    assert forall j :: 0 <= j < |edits| ==> edits[j].f !in {PageSize, HeaderVersion, OsVersion};
    hide Set, SetId, SetRecoveryOffset, Apply, Dispatches, SizeEdits, HdrSize;
    ApplyKeepsDispatch(b.v, b.raw, edits);
    var sized := Apply(b.v, b.raw, edits);
    OthersKeepDispatch(b.v, sized, dtboAt, id);
    OthersKeepDispatch(b.v, SetRecoveryOffset(b.v, sized, dtboAt), dtboAt, id);
  }

  /** Two images agree on `n` bytes, at `x` in one and at `y` in the other. */
  predicate Agree(a: bytes, x: nat, b: bytes, y: nat, n: nat) {
    x + n <= |a| && y + n <= |b| && a[x..x + n] == b[y..y + n]
  }

  lemma AgreeingMatch(a: bytes, x: nat, b: bytes, y: nat, piece: bytes)
    requires Agree(a, x, b, y, |piece|)
    ensures MatchAt(a, x, piece) == MatchAt(b, y, piece)
  {
  }

  lemma AgreeingWord(a: bytes, x: nat, b: bytes, y: nat)
    requires Agree(a, x, b, y, 4)
    ensures Word(a, x) == Word(b, y)
  {
    var s, t := a[x..x + 4], b[y..y + 4];
    assert forall i :: 0 <= i < 4 ==> s[i] == a[x + i];
    assert forall i :: 0 <= i < 4 ==> t[i] == b[y + i];
    assert s[0] == t[0] && s[1] == t[1] && s[2] == t[2] && s[3] == t[3];
  }

  /** Agreement where a plain boot header is told from its relatives. */
  predicate AgreeOnHead(a: bytes, x: nat, b: bytes, y: nat) {
    && Agree(a, x, b, y, 8) && Agree(a, x + 36, b, y + 36, 4)
    && Agree(a, x + 48, b, y + 48, 46) && Agree(a, x + 1024, b, y + 1024, 8)
  }

  lemma AgreeingShift(a: bytes, x: nat, b: bytes, y: nat)
    requires AgreeOnHead(a, x, b, y)
    ensures Shift(a, x) == Shift(b, y)
  {
    forall i | 0 <= i < |NOOKHD_MAGICS| ensures MatchAt(a, x + 64, NOOKHD_MAGICS[i]) == MatchAt(b, y + 64, NOOKHD_MAGICS[i]) {
      assert |NOOKHD_MAGICS[i]| <= 30;
      AgreePart(a, x + 48, b, y + 48, 46, 16, |NOOKHD_MAGICS[i]|);
      AgreeingMatch(a, x + 64, b, y + 64, NOOKHD_MAGICS[i]);
    }
    AgreePart(a, x + 48, b, y + 48, 46, 0, |ACCLAIM_MAGIC|);
    AgreeingMatch(a, x + 48, b, y + 48, ACCLAIM_MAGIC);
  }

  lemma AgreePart(a: bytes, x: nat, b: bytes, y: nat, n: nat, from: nat, m: nat)
    requires Agree(a, x, b, y, n) && from + m <= n
    ensures Agree(a, x + from, b, y + from, m)
  {
    var piece := a[x..x + n];
    HoldsPart(a, x, piece, from, from + m);
    HoldsPart(b, y, piece, from, from + m);
  }

  /** Outside the vendor and PXA layouts, the same head leads to the same shift or to the same refusal. */
  lemma AgreeingCreate(a: bytes, x: nat, b: bytes, y: nat)
    requires AgreeOnHead(a, x, b, y) && Word(a, x + 36) < PXA_LIMIT
    ensures CreateHdr(b, y, false) == if MaybeAmonet(a, x) then None else MakeHdr(b, y + Shift(a, x))
  {
    hide Shift;
    AgreeingWord(a, x + 36, b, y + 36);
    AgreeingMatch(a, x + 1024, b, y + 1024, BOOT_MAGIC);
    AgreeingShift(a, x, b, y);
  }

  /** A version 0 header keeps being one only while its extra size is not read as a later version. */
  predicate StaysItself(v: Variant, r: Raw)
    requires RawOf(v, r)
  {
    v == V0 ==> VersionOf(Get(v, r, ExtraSize)) == V0
  }

  /** The new header, where it now stands, agrees with the old one on what `create_hdr` reads. */
  lemma HeaderAgrees(img: bytes, b: Parsed, out: bytes, at: nat, r: Raw)
    requires RawOf(b.v, b.raw) && b.base + HdrSize(b.v) <= |img| && img[b.base..b.base + HdrSize(b.v)] == b.raw
    requires RawOf(b.v, r) && KeepsDispatch(b.v, b.raw, r) && Holds(out, at, r)
    ensures IsVendor(b.v) ==> Agree(img, b.base + 8, out, at + 8, 4)
    ensures !IsVendor(b.v) ==> AgreeOnHead(img, b.base, out, at)
    ensures !IsVendor(b.v) && b.v != V0 ==> Agree(img, b.base + 40, out, at + 40, 4)
  {
    HoldsPointwise(out, at, r);
    forall i | 0 <= i < HdrSize(b.v) && Dispatches(b.v, i) ensures out[at + i] == img[b.base + i] {
      assert out[at + i] == r[i] == b.raw[i] == img[b.base..b.base + HdrSize(b.v)][i];
    }
    AgreeFrom(img, b, out, at);
  }

  lemma AgreeFrom(img: bytes, b: Parsed, out: bytes, at: nat)
    requires b.base + HdrSize(b.v) <= |img| && at + HdrSize(b.v) <= |out|
    requires forall i :: 0 <= i < HdrSize(b.v) && Dispatches(b.v, i) ==> out[at + i] == img[b.base + i]
    ensures IsVendor(b.v) ==> Agree(img, b.base + 8, out, at + 8, 4)
    ensures !IsVendor(b.v) ==> AgreeOnHead(img, b.base, out, at)
    ensures !IsVendor(b.v) && b.v != V0 ==> Agree(img, b.base + 40, out, at + 40, 4)
  {
    if IsVendor(b.v) {
      AgreeRange(img, b, out, at, 8, 4);
    } else {
      AgreeRange(img, b, out, at, 0, 8);
      AgreeRange(img, b, out, at, 36, 4);
      AgreeRange(img, b, out, at, 48, 46);
      AgreeRange(img, b, out, at, 1024, 8);
      if b.v != V0 { AgreeRange(img, b, out, at, 40, 4); }
    }
  }

  lemma AgreeRange(img: bytes, b: Parsed, out: bytes, at: nat, from: nat, n: nat)
    requires b.base + HdrSize(b.v) <= |img| && at + HdrSize(b.v) <= |out| && from + n <= HdrSize(b.v)
    requires forall i :: 0 <= i < HdrSize(b.v) && Dispatches(b.v, i) ==> out[at + i] == img[b.base + i]
    requires forall i :: from <= i < from + n ==> Dispatches(b.v, i)
    ensures Agree(img, b.base + from, out, at + from, n)
  {
    var s, t := img[b.base + from..b.base + from + n], out[at + from..at + from + n];
    forall i | 0 <= i < n ensures s[i] == t[i] {
      assert Dispatches(b.v, from + i);
      assert s[i] == img[b.base + (from + i)] && t[i] == out[at + (from + i)];
    }
  }

  /** A header standing at the start of its payload is recognised as the same layout again. */
  lemma RecognisedInPlace(img: bytes, vendor: bool, b: Parsed, out: bytes, at: nat, r: Raw)
    requires Parse(img, b.base, vendor) == Some(b)
    requires RawOf(b.v, r) && KeepsDispatch(b.v, b.raw, r) && StaysItself(b.v, r) && Holds(out, at, r)
    ensures CreateHdr(out, at, vendor) == Some(Found(at, b.v))
  {
    hide Shift, KeepsDispatch, Get, BlocksAt, End, Sizes, HdrSpace, MatchAt;
    HeaderAgrees(img, b, out, at, r);
    HeldSlice(out, at, r);
    if vendor {
      AgreeingWord(img, b.base + 8, out, at + 8);
    } else {
      AgreeingWord(img, b.base + 36, out, at + 36);
      if b.v != Pxa {
        AgreeingCreate(img, b.base, out, at);
        AgreeingMatch(img, b.base, out, at, BOOT_MAGIC);
        if b.v == V0 {
          VersionFieldOfV0(out, at, r);
        } else {
          AgreeingWord(img, b.base + 40, out, at + 40);
        }
      }
    }
  }

  /** A version 0 image gets an extra block whose size, in 32 bits, reads as a later version. */
  predicate ChangesLayout(c: Codec, skip: bool, b: Parsed, files: Files)
    requires WellFormed(b)
  {
    b.v == V0 && files.extra.Some? && 1 <= |ExtraBytes(c, skip, b, files)| % U32 <= 4
  }

  /** A version 0 header is recognised as one exactly when its extra size is not read as a later version. */
  lemma V0RecognisedExactly(img: bytes, b: Parsed, out: bytes, at: nat, r: Raw)
    requires Parse(img, b.base, false) == Some(b) && b.v == V0
    requires RawOf(V0, r) && KeepsDispatch(V0, b.raw, r) && Holds(out, at, r)
    ensures CreateHdr(out, at, false) == Some(Found(at, VersionOf(Get(V0, r, ExtraSize))))
    ensures CreateHdr(out, at, false) == Some(Found(at, V0)) <==> StaysItself(V0, r)
  {
    hide Shift, KeepsDispatch, Get, BlocksAt, End, Sizes, HdrSpace, MatchAt;
    HeaderAgrees(img, b, out, at, r);
    AgreeingWord(img, b.base + 36, out, at + 36);
    AgreeingCreate(img, b.base, out, at);
    AgreeingMatch(img, b.base, out, at, BOOT_MAGIC);
    VersionFieldOfV0(out, at, r);
  }

  lemma VersionFieldOfV0(out: bytes, at: nat, r: Raw)
    requires RawOf(V0, r) && Holds(out, at, r)
    ensures Word(out, at + 40) == Get(V0, r, ExtraSize)
  {
    HoldsPointwise(out, at, r);
    assert forall i :: 40 <= i < 44 ==> out[at + i] == r[i];
  }
}
