/** Parsing what `repack` wrote: for any files, and for the files `unpack` left. */
module BootRoundTrip {
  import opened Bytes
  import opened Format
  import opened BootHeader
  import opened BootLayout
  import opened BootKernel
  import opened BootVendor
  import opened BootRepack

  /** The size word of an MTK header. */
  function PatchSize(block: bytes, mtk: bool, n: nat): (r: bytes)
    ensures |r| == |block|
    ensures !mtk ==> r == block
    ensures forall i :: 0 <= i < |block| && !(4 <= i < 8) ==> r[i] == block[i]
  {
    if mtk && 8 <= |block| then Overwrite(block, 4, LE32(n % U32)) else block
  }

  /** The blocks with the size words of their MTK headers rewritten. */
  function WithMtkSizes(blocks: seq<bytes>, kernelMtk: bool, ramdiskMtk: bool, kernelSize: nat): (r: seq<bytes>)
    requires |blocks| == 9
    ensures |r| == 9
  {
    blocks[0 := PatchSize(blocks[0], kernelMtk, if kernelMtk && kernelSize >= MTK_HDR_SIZE then kernelSize - MTK_HDR_SIZE else 0)]
          [1 := PatchSize(blocks[1], ramdiskMtk, if ramdiskMtk && |blocks[1]| >= MTK_HDR_SIZE then |blocks[1]| - MTK_HDR_SIZE else 0)]
  }

  /** The blocks as they end up in the file. */
  function FinalBlocks(c: Codec, skip: bool, img: bytes, b: Parsed, files: Files): (r: seq<bytes>)
    requires WellFormed(b) && Writable(c, skip, img, b, files)
    ensures |r| == 9
  {
    WithMtkSizes(NewBlocks(c, skip, img, b, files), KernelOf(img, b).mtk, RamdiskOf(img, b).mtk, NewKernelSize(c, skip, img, b, files))
  }

  /** The header's room in the image, with the new header laid over the copied one. */
  function NewSpace(img: bytes, b: Parsed, r: Raw): (s: bytes)
    requires WellFormed(b) && RawOf(b.v, r)
  {
    var space := Slice(img, b.base, HdrSpace(b.v, b.page));
    if |r| <= |space| then Overwrite(space, 0, r) else space
  }

  /** What `repack` writes: the head, the payload, and whatever follows it. */
  function Image(front: bytes, space: bytes, blocks: seq<bytes>, al: seq<bool>, page: nat, rest: bytes): bytes
    requires page > 0 && |blocks| == |al|
  {
    front + Laid(space, blocks, al, page) + rest
  }

  const DTBO_BLOCK := 4

  /** Where the recovery DTBO is written, behind `front` bytes. */
  function DtboAt(front: nat, b: Parsed, blocks: seq<bytes>, al: seq<bool>): u64
    requires WellFormed(b) && |blocks| == |al| == 9
  {
    (front + LaidEnd(Lengths(blocks)[..DTBO_BLOCK], al[..DTBO_BLOCK], HdrSpace(b.v, b.page), b.page)) % U64
  }

  // ----- facts about a parsed image

  lemma ParsedFacts(img: bytes, p: nat, vendor: bool, b: Parsed)
    requires Parse(img, p, vendor) == Some(b)
    ensures WellFormed(b) && b.page == Get(b.v, b.raw, PageSize)
    ensures b.base + HdrSize(b.v) <= |img| && img[b.base..b.base + HdrSize(b.v)] == b.raw
    ensures CreateHdr(img, p, vendor) == Some(Found(b.base, b.v))
    ensures b.base + End(Sizes(b.v, b.raw), HdrSpace(b.v, b.page), b.page) <= |img|
    ensures b.base + HdrSpace(b.v, b.page) <= |img|
  {
    hide CreateHdr, Get, HdrSpace, HdrSize, AlignTo, BlocksAt;
    var found := CreateHdr(img, p, vendor).value;
    assert found == Found(found.base, found.v);
    EndPrefix(Sizes(b.v, b.raw), HdrSpace(b.v, b.page), b.page, 0);
  }

  lemma ParsedBlock(img: bytes, p: nat, vendor: bool, b: Parsed, k: nat)
    requires Parse(img, p, vendor) == Some(b) && k < 9
    ensures WellFormed(b) && BlockPos(b, k) + Get(b.v, b.raw, ORDER[k]) <= |img|
    ensures b.blocks[k] == Slice(img, BlockPos(b, k), Get(b.v, b.raw, ORDER[k]))
    ensures |b.blocks[k]| == Get(b.v, b.raw, ORDER[k])
  {
    hide CreateHdr, Get, HdrSpace, HdrSize, AlignTo, BlocksAt, End;
    BlockAt(img, b.base, Sizes(b.v, b.raw), HdrSpace(b.v, b.page), b.page, k);
  }

  /** The header fits in its room: pages are not smaller than the header. */
  predicate HeaderFits(b: Parsed)
    requires WellFormed(b)
  {
    HdrSize(b.v) <= HdrSpace(b.v, b.page)
  }

  // ----- any files

  /** The whole kernel block is inside the file. */
  lemma KernelInside(img: bytes, p: nat, vendor: bool, b: Parsed)
    requires Parse(img, p, vendor) == Some(b) && WellFormed(b)
    ensures BlockPos(b, 0) + Get(b.v, b.raw, KernelSize) <= |img|
  {
    hide Parse, Get, BlockPos;
    ParsedBlock(img, p, vendor, b, 0);
  }

  /** The kernel's size field gets the block's size unless a zImage kernel is replaced by a shorter raw file. */
  lemma KernelStatedExactly(c: Codec, skip: bool, img: bytes, p: nat, vendor: bool, b: Parsed, files: Files)
    requires Parse(img, p, vendor) == Some(b) && WellFormed(b) && Writable(c, skip, img, b, files)
    requires Nested(img, BlockPos(b, 0), Get(b.v, b.raw, KernelSize))
    requires BlockFits(b.v, NewBlocks(c, skip, img, b, files), 0)
    ensures var blocks := NewBlocks(c, skip, img, b, files);
            (StatedSize(b, blocks, NewKernelSize(c, skip, img, b, files), files, 0) == |blocks[0]|)
              <==> !RawAndShorter(KernelOf(img, b), skip, files.kernel)
  {
    hide Parse, Get, BlockPos, Nested, ParseKernel, KernelBytes, KernelSizeSum, Body, RamdiskBytes, NewTable, HasTable, TableOf,
         AllThere, ExtraBytes, Offset, RawAndShorter;
    var at, size, k := BlockPos(b, 0), Get(b.v, b.raw, KernelSize), KernelOf(img, b);
    KernelInside(img, p, vendor, b);
    KernelBlockLength(img, at, size, BodyOf(c, skip, img, b, files).value, OrEmpty(files.kernelDtb));
    if Offset(b.v, KernelSize).None? {
      AbsentReadsZero(b.v, b.raw, KernelSize, 0);
      EmptyIsNoZImage(img, at, skip, files.kernel);
    } else if k.zImage {
      PartsInPlace(img, at, size);
      BodyFillsSlot(c, skip, img, k, files.kernel);
      ShorterThan(c, skip, img, k, files.kernel);
    } else {
      OnlyZImages(k, skip, files.kernel);
    }
  }

  lemma EmptyIsNoZImage(img: bytes, at: nat, skip: bool, file: Option<bytes>)
    ensures !RawAndShorter(ParseKernel(img, at, 0), skip, file)
  {
  }

  lemma OnlyZImages(k: Kernel, skip: bool, file: Option<bytes>)
    ensures RawAndShorter(k, skip, file) ==> k.zImage
  {
  }

  lemma ShorterThan(c: Codec, skip: bool, img: bytes, k: Kernel, file: Option<bytes>)
    requires k.zImage && k.at + k.size <= |img| && Body(c, skip, img, k, file).Some?
    ensures RawAndShorter(k, skip, file) ==> |Body(c, skip, img, k, file).value| < k.size
  {
    hide LE32, CheckFmt;
  }

  /** The new table is as long as the old one exactly when that held its entries and nothing else. */
  lemma TableStatedExactly(c: Codec, skip: bool, img: bytes, p: nat, vendor: bool, b: Parsed, files: Files)
    requires Parse(img, p, vendor) == Some(b) && WellFormed(b) && (HasTable(b) ==> AllThere(TableOf(b), files.vendorRamdisk))
    ensures |NewTable(c, skip, img, b, files)| == Get(b.v, b.raw, TableSize)
       <==> (HasTable(b) ==> Get(b.v, b.raw, TableEntrySize) == ENTRY_SIZE
                             && Get(b.v, b.raw, TableEntryNum) * ENTRY_SIZE == Get(b.v, b.raw, TableSize))
  {
    hide Parse, Get, BlockPos, EntriesOf, Repacked, TableBytes, AllThere;
    ParsedBlock(img, p, vendor, b, 7);
    if HasTable(b) {
      TableLength(Repacked(c, skip, img, BlockPos(b, 1), TableOf(b), files.vendorRamdisk).entries);
    }
  }

  lemma NewBlocksAre(c: Codec, skip: bool, img: bytes, b: Parsed, files: Files)
    requires WellFormed(b) && Writable(c, skip, img, b, files)
    ensures NewBlocks(c, skip, img, b, files)[3] == ExtraBytes(c, skip, b, files)
    ensures NewBlocks(c, skip, img, b, files)[6] == b.blocks[6]
    ensures NewBlocks(c, skip, img, b, files)[7] == NewTable(c, skip, img, b, files)
  {
    hide KernelBytes, RamdiskBytes, NewTable, KernelOf, BodyOf, BlockPos, Writable, ExtraBytes;
  }

  /** In a nested, parsed image the sizes are stated exactly when the files are describable. */
  lemma StatedExactly(c: Codec, skip: bool, img: bytes, p: nat, vendor: bool, b: Parsed, files: Files)
    requires Parse(img, p, vendor) == Some(b) && WellFormed(b) && Writable(c, skip, img, b, files)
    requires Nested(img, BlockPos(b, 0), Get(b.v, b.raw, KernelSize))
    ensures SizesStated(c, skip, img, b, files) <==> Describable(c, skip, img, b, files)
  {
    hide Parse, Get, BlockPos, Nested, KernelOf, NewBlocks, NewKernelSize, Writable, NewTable, HasTable, ExtraBytes, Offset,
         RawAndShorter;
    var blocks, size := NewBlocks(c, skip, img, b, files), NewKernelSize(c, skip, img, b, files);
    NewBlocksAre(c, skip, img, b, files);
    AbsentFilesAreEmpty(c, skip, img, b, files);
    ParsedBlock(img, p, vendor, b, 6);
    if SizesStated(c, skip, img, b, files) {
      forall k | 0 <= k < 9 ensures BlockFits(b.v, blocks, k) { assert StatedSize(b, blocks, size, files, k) == |blocks[k]|; }
    }
    if forall k :: 0 <= k < 9 ==> BlockFits(b.v, blocks, k) {
      KernelStatedExactly(c, skip, img, p, vendor, b, files);
      TableExactly(c, skip, img, p, vendor, b, files);
      forall k | 0 <= k < 9
        ensures k != 0 && k != 7 ==>
                  (StatedSize(b, blocks, size, files, k) == |blocks[k]|
                   <==> (k == 3 && files.extra.None? ==> Get(b.v, b.raw, ExtraSize) == 0)
                        && (k == 4 && files.recoveryDtbo.None? ==> Get(b.v, b.raw, RecoveryDtboSize) == 0))
      {
        assert BlockFits(b.v, blocks, k);
        if Offset(b.v, ORDER[k]).None? { AbsentReadsZero(b.v, b.raw, ORDER[k], k); }
      }
      OneByOne(c, skip, img, b, files);
    }
  }

  lemma OneByOne(c: Codec, skip: bool, img: bytes, b: Parsed, files: Files)
    requires WellFormed(b) && Writable(c, skip, img, b, files)
    ensures var blocks, size := NewBlocks(c, skip, img, b, files), NewKernelSize(c, skip, img, b, files);
            SizesStated(c, skip, img, b, files) <==>
              (StatedSize(b, blocks, size, files, 0) == |blocks[0]| && StatedSize(b, blocks, size, files, 1) == |blocks[1]|
               && StatedSize(b, blocks, size, files, 2) == |blocks[2]| && StatedSize(b, blocks, size, files, 3) == |blocks[3]|
               && StatedSize(b, blocks, size, files, 4) == |blocks[4]| && StatedSize(b, blocks, size, files, 5) == |blocks[5]|
               && StatedSize(b, blocks, size, files, 6) == |blocks[6]| && StatedSize(b, blocks, size, files, 7) == |blocks[7]|
               && StatedSize(b, blocks, size, files, 8) == |blocks[8]|)
  {
    hide NewBlocks, NewKernelSize, Writable, StatedSize;
  }

  /** What block 7's stated size says about the table. */
  lemma TableExactly(c: Codec, skip: bool, img: bytes, p: nat, vendor: bool, b: Parsed, files: Files)
    requires Parse(img, p, vendor) == Some(b) && WellFormed(b) && Writable(c, skip, img, b, files)
    requires BlockFits(b.v, NewBlocks(c, skip, img, b, files), 7)
    ensures var blocks := NewBlocks(c, skip, img, b, files);
            (StatedSize(b, blocks, NewKernelSize(c, skip, img, b, files), files, 7) == |blocks[7]|)
              <==> (HasTable(b) ==> Get(b.v, b.raw, TableEntrySize) == ENTRY_SIZE
                                    && Get(b.v, b.raw, TableEntryNum) * ENTRY_SIZE == Get(b.v, b.raw, TableSize))
  {
    hide Parse, Get, BlockPos, KernelOf, NewBlocks, NewKernelSize, NewTable, HasTable, BodyOf, Offset, TableOf, AllThere;
    NewBlocksAre(c, skip, img, b, files);
    TableStatedExactly(c, skip, img, p, vendor, b, files);
    if Offset(b.v, TableSize).None? { AbsentReadsZero(b.v, b.raw, TableSize, 7); }
  }

  /** The new header states every block's size exactly when the files are describable. */
  lemma SizesStatedExactly(c: Codec, skip: bool, img: bytes, p: nat, vendor: bool, b: Parsed, files: Files, dtboAt: u64, id: bytes)
    requires Parse(img, p, vendor) == Some(b) && WellFormed(b) && Writable(c, skip, img, b, files) && |id| == 32
    requires Nested(img, BlockPos(b, 0), Get(b.v, b.raw, KernelSize))
    ensures var blocks := NewBlocks(c, skip, img, b, files);
            var r := NewHeader(b, blocks, NewKernelSize(c, skip, img, b, files), files, dtboAt, id);
            (forall k :: 0 <= k < 9 ==> Get(b.v, r, ORDER[k]) == |blocks[k]|) <==> Describable(c, skip, img, b, files)
  {
    hide Parse, Get, BlockPos, Nested, NewBlocks, NewKernelSize, NewHeader, Offset, Writable, StatedSize, Describable;
    var blocks, size := NewBlocks(c, skip, img, b, files), NewKernelSize(c, skip, img, b, files);
    forall k | 0 <= k < 9
      ensures Get(b.v, NewHeader(b, blocks, size, files, dtboAt, id), ORDER[k]) == StatedSize(b, blocks, size, files, k)
    {
      SizeStated(b, blocks, size, files, dtboAt, id, k);
    }
    StatedExactly(c, skip, img, p, vendor, b, files);
  }

  /** Every block stands where parsing looks for it. */
  predicate AllInPlace(c: Codec, skip: bool, img: bytes, b: Parsed, files: Files)
    requires WellFormed(b) && Writable(c, skip, img, b, files)
  {
    InPlace(Lengths(FinalBlocks(c, skip, img, b, files)), Aligned(b, files), HdrSpace(b.v, b.page), b.page)
  }

  /** Where the last block's page ends, as parsing counts. */
  function PayloadEnd(c: Codec, skip: bool, img: bytes, b: Parsed, files: Files): nat
    requires WellFormed(b) && Writable(c, skip, img, b, files)
  {
    End(Lengths(FinalBlocks(c, skip, img, b, files)), HdrSpace(b.v, b.page), b.page)
  }

  /** What parsing the written file must find: the new header and the nine blocks as written. */
  function Expected(c: Codec, skip: bool, img: bytes, b: Parsed, files: Files, at: nat, r: Raw): Parsed
    requires WellFormed(b) && Writable(c, skip, img, b, files)
  {
    Parsed(b.v, at, r, b.page, FinalBlocks(c, skip, img, b, files), PayloadEnd(c, skip, img, b, files))
  }

  lemma AllInPlaceExactly(c: Codec, skip: bool, img: bytes, b: Parsed, files: Files)
    requires WellFormed(b) && Writable(c, skip, img, b, files)
    ensures AllInPlace(c, skip, img, b, files) <==> !Misplaces(c, skip, img, b, files)
  {
    hide NewBlocks, Writable, FinalBlocks, Misplaces, InPlace, OutOfStep, Aligned, HdrSpace;
    SpaceIsAligned(b.v, b.page);
    FinalSizes(c, skip, img, b, files);
    MisplacesExactly(c, skip, img, b, files);
    InPlaceExactly(Lengths(NewBlocks(c, skip, img, b, files)), Aligned(b, files), HdrSpace(b.v, b.page), b.page);
  }

  lemma FinalSizes(c: Codec, skip: bool, img: bytes, b: Parsed, files: Files)
    requires WellFormed(b) && Writable(c, skip, img, b, files)
    ensures Lengths(FinalBlocks(c, skip, img, b, files)) == Lengths(NewBlocks(c, skip, img, b, files))
  {
    hide NewBlocks, Writable, FinalBlocks;
    forall k | 0 <= k < 9 ensures |FinalBlocks(c, skip, img, b, files)[k]| == |NewBlocks(c, skip, img, b, files)[k]| {
      FinalLengths(c, skip, img, b, files, k);
    }
  }

  /**
   * Whatever files are repacked: where the written header is recognised, parsing the file finds it
   * and each of the nine blocks exactly as written, each at the offset it was written at, if and only
   * if the header states the blocks' sizes, every block stands where parsing looks for it, and the file
   * reaches to the end of the last block's page.
   */
  lemma RepackParses(c: Codec, skip: bool, img: bytes, p: nat, vendor: bool, b: Parsed, files: Files,
                     front: bytes, rest: bytes, dtboAt: u64, id: bytes, newP: nat)
    requires Parse(img, p, vendor) == Some(b) && WellFormed(b) && HeaderFits(b) && |id| == 32
    requires Writable(c, skip, img, b, files)
    requires var r := NewHeader(b, NewBlocks(c, skip, img, b, files), NewKernelSize(c, skip, img, b, files), files, dtboAt, id);
             var out := Image(front, NewSpace(img, b, r), FinalBlocks(c, skip, img, b, files), Aligned(b, files), b.page, rest);
             CreateHdr(out, newP, vendor) == Some(Found(|front|, b.v))
    ensures var r := NewHeader(b, NewBlocks(c, skip, img, b, files), NewKernelSize(c, skip, img, b, files), files, dtboAt, id);
            var out := Image(front, NewSpace(img, b, r), FinalBlocks(c, skip, img, b, files), Aligned(b, files), b.page, rest);
            (Parse(out, newP, vendor) == Some(Expected(c, skip, img, b, files, |front|, r)) && AllInPlace(c, skip, img, b, files))
              <==> (SizesStated(c, skip, img, b, files) && !Misplaces(c, skip, img, b, files)
                    && |front| + PayloadEnd(c, skip, img, b, files) <= |out|)
  {
    hide CreateHdr, Get, HdrSpace, HdrSize, Parse, NewHeader, NewBlocks, NewKernelSize, Writable, StatedSize,
         FinalBlocks, LE32, Holds, Offset, Image, AllInPlace, Misplaces, Aligned, End, NewSpace;
    ParsedFacts(img, p, vendor, b);
    var news, size := NewBlocks(c, skip, img, b, files), NewKernelSize(c, skip, img, b, files);
    var r := NewHeader(b, news, size, files, dtboAt, id);
    var blocks := FinalBlocks(c, skip, img, b, files);
    var out := Image(front, NewSpace(img, b, r), blocks, Aligned(b, files), b.page, rest);
    PageKept(b, news, size, files, dtboAt, id);
    AllInPlaceExactly(c, skip, img, b, files);
    forall k | 0 <= k < 9
      ensures |blocks[k]| == |news[k]| && Get(b.v, r, ORDER[k]) == StatedSize(b, news, size, files, k)
    {
      SizeStated(b, news, size, files, dtboAt, id, k);
      FinalLengths(c, skip, img, b, files, k);
    }
    if SizesStated(c, skip, img, b, files) && AllInPlace(c, skip, img, b, files) && |front| + PayloadEnd(c, skip, img, b, files) <= |out| {
      BlocksHeld(c, skip, img, b, files, front, rest, r);
      HeldParses(out, newP, vendor, |front|, b.v, r, blocks);
    }
    if Parse(out, newP, vendor) == Some(Expected(c, skip, img, b, files, |front|, r)) {
      forall k | 0 <= k < 9 ensures StatedSize(b, news, size, files, k) == |news[k]| {
        ParsedBlock(out, newP, vendor, Parse(out, newP, vendor).value, k);
      }
      ParsedReaches(out, newP, vendor, Parse(out, newP, vendor).value);
    }
  }

  lemma ParsedReaches(img: bytes, p: nat, vendor: bool, b: Parsed)
    requires Parse(img, p, vendor) == Some(b)
    ensures b.base + b.end <= |img|
  {
    hide CreateHdr, Get, HdrSpace, HdrSize, AlignTo, BlocksAt, Sizes, End;
  }

  /** The written file holds the header, and each block that is in place where parsing looks. */
  lemma BlocksHeld(c: Codec, skip: bool, img: bytes, b: Parsed, files: Files, front: bytes, rest: bytes, r: Raw)
    requires WellFormed(b) && Writable(c, skip, img, b, files) && RawOf(b.v, r) && HeaderFits(b)
    requires b.base + HdrSpace(b.v, b.page) <= |img| && AllInPlace(c, skip, img, b, files)
    requires var out := Image(front, NewSpace(img, b, r), FinalBlocks(c, skip, img, b, files), Aligned(b, files), b.page, rest);
             |front| + PayloadEnd(c, skip, img, b, files) <= |out|
    ensures var blocks := FinalBlocks(c, skip, img, b, files);
            var out := Image(front, NewSpace(img, b, r), blocks, Aligned(b, files), b.page, rest);
            Holds(out, |front|, r) && AllHeld(out, |front|, blocks, HdrSpace(b.v, b.page), b.page)
  {
    hide HdrSpace, HdrSize, FinalBlocks, Writable, Holds, End, LaidEnd, Laid, Aligned, NewSpace, Image;
    var space, blocks, al := NewSpace(img, b, r), FinalBlocks(c, skip, img, b, files), Aligned(b, files);
    var out := Image(front, space, blocks, al, b.page, rest);
    SpaceStartsWithHeader(img, b, r);
    ImageHoldsPayload(front, space, blocks, al, b.page, rest);
    LaidSpace(space, blocks, al, b.page, out, |front|);
    HoldsPart(out, |front|, space, 0, |r|);
    forall k | 0 <= k < 9 ensures Holds(out, |front| + End(Lengths(blocks)[..k], HdrSpace(b.v, b.page), b.page), blocks[k]) {
      if blocks[k] == [] {
        EndPrefix(Lengths(blocks), HdrSpace(b.v, b.page), b.page, k);
        EmptyHeld(out, |front| + End(Lengths(blocks)[..k], HdrSpace(b.v, b.page), b.page));
      } else {
        LaidHolds(space, blocks, al, b.page, out, |front|, k);
        assert Lengths(blocks)[k] != 0;
      }
    }
  }

  /** Unless an MTK ramdisk lacks its file, all is in step and the payload ends where parsing says. */
  lemma InStepWithRamdisk(c: Codec, skip: bool, img: bytes, b: Parsed, files: Files)
    requires WellFormed(b) && Writable(c, skip, img, b, files) && (RamdiskOf(img, b).mtk ==> files.ramdisk.Some?)
    ensures !Misplaces(c, skip, img, b, files)
    ensures LaidEnd(Lengths(FinalBlocks(c, skip, img, b, files)), Aligned(b, files), HdrSpace(b.v, b.page), b.page)
         == PayloadEnd(c, skip, img, b, files)
  {
    hide NewBlocks, Writable, FinalBlocks, Aligned, HdrSpace, RamdiskOf, End, LaidEnd;
    var sizes, al, start := Lengths(NewBlocks(c, skip, img, b, files)), Aligned(b, files), HdrSpace(b.v, b.page);
    SpaceIsAligned(b.v, b.page);
    FinalSizes(c, skip, img, b, files);
    UnalignedIsEmpty(c, skip, img, b, files);
    ZeroFillsPages(b.page);
    NothingYet(sizes, al, start, b.page);
    assert forall k :: 0 <= k < 9 && !al[k] ==> sizes[k] == 0;
    StayInStep(sizes, al, start, b.page, 0, 9);
    assert sizes[..9] == sizes && al[..9] == al;
  }

  /** So whatever follows, the written file reaches there. */
  lemma ReachesWithRamdisk(c: Codec, skip: bool, img: bytes, b: Parsed, files: Files, front: bytes, rest: bytes, r: Raw)
    requires WellFormed(b) && Writable(c, skip, img, b, files) && (RamdiskOf(img, b).mtk ==> files.ramdisk.Some?)
    requires RawOf(b.v, r) && HeaderFits(b) && b.base + HdrSpace(b.v, b.page) <= |img|
    ensures var final, al := FinalBlocks(c, skip, img, b, files), Aligned(b, files);
            && |Laid(NewSpace(img, b, r), final, al, b.page)| == PayloadEnd(c, skip, img, b, files)
            && |front| + PayloadEnd(c, skip, img, b, files) <= |Image(front, NewSpace(img, b, r), final, al, b.page, rest)|
  {
    hide Writable, FinalBlocks, Aligned, HdrSpace, RamdiskOf, PayloadEnd, LaidEnd, Laid, NewSpace;
    InStepWithRamdisk(c, skip, img, b, files);
    SpaceStartsWithHeader(img, b, r);
    LaidLength(NewSpace(img, b, r), FinalBlocks(c, skip, img, b, files), Aligned(b, files), b.page);
  }

  lemma EmptyHeld(s: bytes, at: nat)
    requires at <= |s|
    ensures Holds(s, at, [])
  {
  }

  lemma ImageHoldsPayload(front: bytes, space: bytes, blocks: seq<bytes>, al: seq<bool>, page: nat, rest: bytes)
    requires page > 0 && |blocks| == |al|
    ensures Holds(Image(front, space, blocks, al, page, rest), |front|, Laid(space, blocks, al, page))
  {
    hide Laid, Holds;
    HoldsMiddle(front, Laid(space, blocks, al, page), rest);
  }

  lemma FinalLengths(c: Codec, skip: bool, img: bytes, b: Parsed, files: Files, k: nat)
    requires WellFormed(b) && Writable(c, skip, img, b, files) && k < 9
    ensures |FinalBlocks(c, skip, img, b, files)[k]| == |NewBlocks(c, skip, img, b, files)[k]|
  {
    hide NewBlocks, KernelOf, RamdiskOf, Writable, LE32, NewKernelSize;
  }

  lemma SpaceStartsWithHeader(img: bytes, b: Parsed, r: Raw)
    requires WellFormed(b) && RawOf(b.v, r) && HeaderFits(b) && b.base + HdrSpace(b.v, b.page) <= |img|
    ensures |NewSpace(img, b, r)| == HdrSpace(b.v, b.page) && StartsWith(NewSpace(img, b, r), r)
  {
    hide HdrSpace, HdrSize;
  }

  lemma PageKept(b: Parsed, blocks: seq<bytes>, kernelSize: nat, files: Files, dtboAt: u64, id: bytes)
    requires WellFormed(b) && |blocks| == 9 && |id| == 32
    ensures Get(b.v, NewHeader(b, blocks, kernelSize, files, dtboAt, id), PageSize) == Get(b.v, b.raw, PageSize)
  {
    var edits := SizeEdits(b, blocks, kernelSize, files);
    assert forall j :: 0 <= j < |edits| ==> edits[j].f != PageSize;
    hide Get, NewHeader, SizeEdits, Edited, Offset;
    NewHeaderReads(b, blocks, kernelSize, files, dtboAt, id, PageSize);
    EditedNever(b.v, b.raw, edits, PageSize);
  }

  lemma RecoveryOffsetReads(v: Variant, raw: Raw, n: u64, id: bytes)
    requires RawOf(v, raw) && v in {V1, V2} && |id| == 32
    ensures var r := SetId(v, SetRecoveryOffset(v, raw, n), id);
            ReadLE32(r, RECOVERY_OFFSET_AT) == n % U32 && ReadLE32(r, RECOVERY_OFFSET_AT + 4) == n / U32
  {
    hide LE32, ReadLE32;
    var r := SetId(v, SetRecoveryOffset(v, raw, n), id);
    RecoveryOffsetHeld(v, raw, n, id);
    HoldsConcat(r, RECOVERY_OFFSET_AT, LE32(n % U32), LE32(n / U32));
    WordHeld(r, RECOVERY_OFFSET_AT, n % U32);
    WordHeld(r, RECOVERY_OFFSET_AT + 4, n / U32);
  }

  lemma RecoveryOffsetHeld(v: Variant, raw: Raw, n: u64, id: bytes)
    requires RawOf(v, raw) && v in {V1, V2} && |id| == 32
    ensures Holds(SetId(v, SetRecoveryOffset(v, raw, n), id), RECOVERY_OFFSET_AT, LE64(n))
  {
    hide LE64;
    HoldsPointwise(SetId(v, SetRecoveryOffset(v, raw, n), id), RECOVERY_OFFSET_AT, LE64(n));
  }

  /** In versions 1 and 2 the new header's 64-bit offset is where the recovery DTBO stands in the file, in step or not. */
  lemma DtboFoundAtOffset(c: Codec, skip: bool, img: bytes, b: Parsed, files: Files, front: bytes, rest: bytes, id: bytes)
    requires WellFormed(b) && HeaderFits(b) && |id| == 32 && Writable(c, skip, img, b, files) && b.base + HdrSpace(b.v, b.page) <= |img|
    requires b.v in {V1, V2} && files.recoveryDtbo.Some?
    ensures var blocks, al := NewBlocks(c, skip, img, b, files), Aligned(b, files);
            var at := DtboAt(|front|, b, blocks, al);
            var r := NewHeader(b, blocks, NewKernelSize(c, skip, img, b, files), files, at, id);
            var out := Image(front, NewSpace(img, b, r), FinalBlocks(c, skip, img, b, files), al, b.page, rest);
            && ReadLE32(r, RECOVERY_OFFSET_AT) + ReadLE32(r, RECOVERY_OFFSET_AT + 4) * U32 == at
            && (|out| < U64 ==> Holds(out, at, files.recoveryDtbo.value))
  {
    hide NewBlocks, NewKernelSize, Writable, HdrSpace, Laid, LaidEnd, SizeEdits, Apply, ReadLE32, Holds, KernelOf, RamdiskOf, SetId,
         SetRecoveryOffset, NewSpace, Aligned, FinalBlocks, Image;
    var blocks, final, al := NewBlocks(c, skip, img, b, files), FinalBlocks(c, skip, img, b, files), Aligned(b, files);
    var at := DtboAt(|front|, b, blocks, al);
    var r := NewHeader(b, blocks, NewKernelSize(c, skip, img, b, files), files, at, id);
    RecoveryOffsetReads(b.v, Apply(b.v, b.raw, SizeEdits(b, blocks, NewKernelSize(c, skip, img, b, files), files)), at, id);
    FinalSizes(c, skip, img, b, files);
    DtboBlockIs(c, skip, img, b, files);
    SpaceStartsWithHeader(img, b, r);
    BlockStandsAt(front, NewSpace(img, b, r), final, al, b.page, rest, DTBO_BLOCK);
  }

  lemma DtboBlockIs(c: Codec, skip: bool, img: bytes, b: Parsed, files: Files)
    requires WellFormed(b) && Writable(c, skip, img, b, files) && files.recoveryDtbo.Some?
    ensures FinalBlocks(c, skip, img, b, files)[DTBO_BLOCK] == files.recoveryDtbo.value
  {
    hide KernelBytes, RamdiskBytes, NewTable, KernelOf, RamdiskOf, BodyOf, BlockPos, Writable, NewKernelSize, PatchSize;
  }

  /** In a whole image, each block stands where the ones before it end. */
  lemma BlockStandsAt(front: bytes, space: bytes, blocks: seq<bytes>, al: seq<bool>, page: nat, rest: bytes, k: nat)
    requires page > 0 && |blocks| == |al| && k < |blocks|
    ensures var at, out := |front| + LaidEnd(Lengths(blocks)[..k], al[..k], |space|, page), Image(front, space, blocks, al, page, rest);
            at <= |out| && Holds(out, at, blocks[k])
  {
    hide Laid, LaidEnd, Holds, Image;
    var out := Image(front, space, blocks, al, page, rest);
    ImageHoldsPayload(front, space, blocks, al, page, rest);
    LaidHolds(space, blocks, al, page, out, |front|, k);
    HeldIsInside(out, |front| + LaidEnd(Lengths(blocks)[..k], al[..k], |space|, page), blocks[k]);
  }

  lemma HeldIsInside(s: bytes, at: nat, piece: bytes)
    requires Holds(s, at, piece)
    ensures at <= |s|
  {
  }

  // ----- the header is recognised again

  /** What a repacked version 0 header's extra size reads as, from the files. */
  lemma StaysItselfExactly(c: Codec, skip: bool, img: bytes, vendor: bool, b: Parsed, files: Files, dtboAt: u64, id: bytes)
    requires Parse(img, b.base, vendor) == Some(b) && WellFormed(b) && Writable(c, skip, img, b, files) && |id| == 32
    ensures var r := NewHeader(b, NewBlocks(c, skip, img, b, files), NewKernelSize(c, skip, img, b, files), files, dtboAt, id);
            StaysItself(b.v, r) <==> !ChangesLayout(c, skip, b, files)
  {
    hide Parse, Get, NewHeader, NewBlocks, NewKernelSize, Writable, ExtraBytes;
    if b.v == V0 {
      if vendor { VendorIsNotV0(img, b.base, b); } else { V0IsItself(img, b); }
      NewBlocksAre(c, skip, img, b, files);
      SizeStated(b, NewBlocks(c, skip, img, b, files), NewKernelSize(c, skip, img, b, files), files, dtboAt, id, 3);
    }
  }

  /** With nothing but the head in front, the new header is found as it was written unless the files change its layout. */
  lemma RepackIsRecognised(c: Codec, skip: bool, img: bytes, vendor: bool, b: Parsed, files: Files,
                           front: bytes, rest: bytes, dtboAt: u64, id: bytes)
    requires Parse(img, b.base, vendor) == Some(b) && WellFormed(b) && HeaderFits(b) && |id| == 32
    requires Writable(c, skip, img, b, files)
    ensures var r := NewHeader(b, NewBlocks(c, skip, img, b, files), NewKernelSize(c, skip, img, b, files), files, dtboAt, id);
            var out := Image(front, NewSpace(img, b, r), FinalBlocks(c, skip, img, b, files), Aligned(b, files), b.page, rest);
            CreateHdr(out, |front|, vendor) == Some(Found(|front|, b.v)) <==> !ChangesLayout(c, skip, b, files)
  {
    hide CreateHdr, Get, HdrSpace, HdrSize, Parse, Laid, NewHeader, NewBlocks, NewKernelSize, Writable, FinalBlocks,
         Holds, KeepsDispatch, StaysItself, ChangesLayout, Image, NewSpace, Aligned;
    ParsedFacts(img, b.base, vendor, b);
    var blocks, size := NewBlocks(c, skip, img, b, files), NewKernelSize(c, skip, img, b, files);
    var r := NewHeader(b, blocks, size, files, dtboAt, id);
    var space, final := NewSpace(img, b, r), FinalBlocks(c, skip, img, b, files);
    var out := Image(front, space, final, Aligned(b, files), b.page, rest);
    SpaceStartsWithHeader(img, b, r);
    ImageHoldsPayload(front, space, final, Aligned(b, files), b.page, rest);
    LaidSpace(space, final, Aligned(b, files), b.page, out, |front|);
    HoldsPart(out, |front|, space, 0, |r|);
    NewHeaderKeepsDispatch(b, blocks, size, files, dtboAt, id);
    StaysItselfExactly(c, skip, img, vendor, b, files, dtboAt, id);
    if StaysItself(b.v, r) {
      RecognisedInPlace(img, vendor, b, out, |front|, r);
    } else {
      OnlyV0Changes(b.v, r);
      if vendor { VendorIsNotV0(img, b.base, b); }
      V0RecognisedExactly(img, b, out, |front|, r);
    }
  }

  lemma OnlyV0Changes(v: Variant, r: Raw)
    requires RawOf(v, r) && !StaysItself(v, r)
    ensures v == V0
  {
  }

  /**
   * Main result: whatever files are repacked, parsing the written file finds the same layout, the new
   * header and each of the nine blocks exactly as written and where it was written if and only if the
   * files are describable, no extra block of a version 0 image is one to four bytes long, in 32 bits,
   * no MTK ramdisk header without a ramdisk puts the next block out of step, and the file reaches to
   * the end of the last block's page.
   */
  lemma RepackParsesExactly(c: Codec, skip: bool, img: bytes, vendor: bool, b: Parsed, files: Files,
                            front: bytes, rest: bytes, dtboAt: u64, id: bytes)
    requires Parse(img, b.base, vendor) == Some(b) && WellFormed(b) && HeaderFits(b) && |id| == 32
    requires Writable(c, skip, img, b, files) && Nested(img, BlockPos(b, 0), Get(b.v, b.raw, KernelSize))
    ensures var r := NewHeader(b, NewBlocks(c, skip, img, b, files), NewKernelSize(c, skip, img, b, files), files, dtboAt, id);
            var out := Image(front, NewSpace(img, b, r), FinalBlocks(c, skip, img, b, files), Aligned(b, files), b.page, rest);
            (Parse(out, |front|, vendor) == Some(Expected(c, skip, img, b, files, |front|, r)) && AllInPlace(c, skip, img, b, files))
              <==> (Describable(c, skip, img, b, files) && !ChangesLayout(c, skip, b, files) && !Misplaces(c, skip, img, b, files)
                    && |front| + PayloadEnd(c, skip, img, b, files) <= |out|)
  {
    hide CreateHdr, Get, HdrSpace, HdrSize, Parse, NewHeader, NewBlocks, NewKernelSize, Writable, FinalBlocks, BlockPos, Aligned,
         Nested, Describable, SizesStated, ChangesLayout, Image, NewSpace, HeaderFits, Misplaces, AllInPlace, PayloadEnd;
    RepackIsRecognised(c, skip, img, vendor, b, files, front, rest, dtboAt, id);
    StatedExactly(c, skip, img, b.base, vendor, b, files);
    var r := NewHeader(b, NewBlocks(c, skip, img, b, files), NewKernelSize(c, skip, img, b, files), files, dtboAt, id);
    var out := Image(front, NewSpace(img, b, r), FinalBlocks(c, skip, img, b, files), Aligned(b, files), b.page, rest);
    if !ChangesLayout(c, skip, b, files) {
      RepackParses(c, skip, img, b.base, vendor, b, files, front, rest, dtboAt, id, |front|);
    } else if Parse(out, |front|, vendor).Some? {
      ParsedFacts(out, |front|, vendor, Parse(out, |front|, vendor).value);
    }
  }

  /** Behind a NOOKHD or ACCLAIM loader, which is copied to the front, the shifted header is found again. */
  lemma ShiftedIsRecognised(img: bytes, b: Parsed, out: bytes, r: Raw)
    requires Parse(img, 0, false) == Some(b) && b.base > 0
    requires StartsWith(out, img[..b.base]) && Holds(out, b.base, r)
    requires RawOf(b.v, r) && KeepsDispatch(b.v, b.raw, r) && StaysItself(b.v, r)
    ensures CreateHdr(out, 0, false) == Some(Found(b.base, b.v))
  {
    hide Shift, KeepsDispatch, Get, BlocksAt, End, Sizes, HdrSpace, MatchAt, Holds, Agree, Word, HdrSize, StartsWith, Offset;
    ParsedFacts(img, 0, false, b);
    ShiftIsFar(img, 0);
    FrontAgrees(img, out, b.base);
    AgreeingWord(img, 36, out, 36);
    AgreeingCreate(img, 0, out, 0);
    HeaderAgrees(img, b, out, b.base, r);
    AgreeingMatch(img, b.base, out, b.base, BOOT_MAGIC);
    if b.v == V0 {
      VersionFieldOfV0(out, b.base, r);
    } else {
      AgreeingWord(img, b.base + 40, out, b.base + 40);
    }
  }

  lemma ShiftIsFar(img: bytes, p: nat)
    ensures Shift(img, p) == 0 || Shift(img, p) >= ACCLAIM_PRE_HEADER_SZ
  {
  }

  lemma FrontAgrees(img: bytes, out: bytes, n: nat)
    requires 1032 <= n <= |img| && StartsWith(out, img[..n])
    ensures AgreeOnHead(img, 0, out, 0)
  {
    assert Agree(img, 0, out, 0, n);
    AgreePart(img, 0, out, 0, n, 0, 8);
    AgreePart(img, 0, out, 0, n, 36, 4);
    AgreePart(img, 0, out, 0, n, 48, 46);
    AgreePart(img, 0, out, 0, n, 1024, 8);
  }

  // ----- the files unpack left

  /** The kernel's and the ramdisk's parts nest, and an MTK ramdisk has content. */
  predicate Intact(img: bytes, b: Parsed)
    requires WellFormed(b)
  {
    && Nested(img, BlockPos(b, 0), Get(b.v, b.raw, KernelSize))
    && (RamdiskOf(img, b).mtk ==> Get(b.v, b.raw, RamdiskSize) > MTK_HDR_SIZE)
  }

  lemma KernelBlockBack(c: Codec, img: bytes, p: nat, vendor: bool, b: Parsed)
    requires Parse(img, p, vendor) == Some(b) && WellFormed(b) && Intact(img, b)
    ensures var files, k := Unpack(c, true, img, b), KernelOf(img, b);
            && BodyOf(c, true, img, b, files) == Some(Slice(img, k.at, k.size))
            && KernelBytes(img, BlockPos(b, 0), k, Slice(img, k.at, k.size), OrEmpty(files.kernelDtb)) == b.blocks[0]
            && KernelSizeSum(k, Slice(img, k.at, k.size), OrEmpty(files.kernelDtb)) + (if k.mtk then MTK_HDR_SIZE else 0) == |b.blocks[0]|
            && (k.mtk ==> |b.blocks[0]| >= MTK_HDR_SIZE)
  {
    hide Parse, BlockPos, Get, ParseKernel, Nested, KernelBytes, KernelSizeSum, RamdiskOf, Unpacked, TableOf, CheckFmtLg;
    ParsedBlock(img, p, vendor, b, 0);
    KernelRestored(img, BlockPos(b, 0), Get(b.v, b.raw, KernelSize));
    MtkIsInside(img, BlockPos(b, 0), Get(b.v, b.raw, KernelSize));
  }

  lemma MtkIsInside(img: bytes, at: nat, size: u32)
    requires Nested(img, at, size)
    ensures ParseKernel(img, at, size).mtk ==> size >= MTK_HDR_SIZE
  {
    hide ParseKernel, Nested;
    PartsPartition(img, at, size);
  }

  lemma RamdiskBlockBack(c: Codec, img: bytes, p: nat, vendor: bool, b: Parsed)
    requires Parse(img, p, vendor) == Some(b) && WellFormed(b) && Intact(img, b) && !HasTable(b)
    ensures RamdiskBytes(c, true, img, b, Unpack(c, true, img, b)) == b.blocks[1]
    ensures RamdiskOf(img, b).mtk ==> |b.blocks[1]| > MTK_HDR_SIZE && Unpack(c, true, img, b).ramdisk.Some?
  {
    hide Parse, BlockPos, Get, ParseKernel, Nested, KernelOf, Unpacked, TableOf, CheckFmtLgAt, CheckFmtLg, Slice, KernelBytes;
    ParsedBlock(img, p, vendor, b, 1);
    var r, at, size := RamdiskOf(img, b), BlockPos(b, 1), Get(b.v, b.raw, RamdiskSize);
    if r.mtk {
      SlicesJoin(img, at, MTK_HDR_SIZE, size - MTK_HDR_SIZE);
      SliceLength(img, r.at, r.size);
    }
  }

  lemma UnpackedWritable(c: Codec, img: bytes, p: nat, vendor: bool, b: Parsed)
    requires Parse(img, p, vendor) == Some(b) && WellFormed(b) && Intact(img, b) && !HasTable(b)
    ensures var files := Unpack(c, true, img, b);
            && Writable(c, true, img, b, files)
            && NewBlocks(c, true, img, b, files) == b.blocks
            && NewKernelSize(c, true, img, b, files) == |b.blocks[0]|
            && (files.extra.None? ==> b.blocks[3] == []) && (files.recoveryDtbo.None? ==> b.blocks[4] == [])
            && (RamdiskOf(img, b).mtk ==> files.ramdisk.Some?)
  {
    hide Parse, BlockPos, Get, KernelOf, Unpacked, TableOf, CheckFmtLg, Slice, KernelBytes, KernelSizeSum, RamdiskBytes,
         RamdiskOf, Intact, BodyOf;
    ParsedFacts(img, p, vendor, b);
    KernelBlockBack(c, img, p, vendor, b);
    RamdiskBlockBack(c, img, p, vendor, b);
    ParsedBlock(img, p, vendor, b, 7);
    var blocks := NewBlocks(c, true, img, b, Unpack(c, true, img, b));
    assert b.blocks[7] == [];
    assert forall k :: 0 <= k < 9 ==> blocks[k] == b.blocks[k];
  }

  lemma UnpackedStated(c: Codec, img: bytes, vendor: bool, b: Parsed)
    requires Parse(img, b.base, vendor) == Some(b) && WellFormed(b) && Intact(img, b) && !HasTable(b)
    ensures var files := Unpack(c, true, img, b);
            Writable(c, true, img, b, files) && SizesStated(c, true, img, b, files) && !ChangesLayout(c, true, b, files)
  {
    hide Parse, BlockPos, Get, KernelOf, Unpack, RamdiskOf, Intact, NewBlocks, NewKernelSize, Writable, Offset, ExtraBytes, HasTable;
    UnpackedWritable(c, img, b.base, vendor, b);
    NewBlocksAre(c, true, img, b, Unpack(c, true, img, b));
    forall k | 0 <= k < 9 ensures StatedSize(b, b.blocks, |b.blocks[0]|, Unpack(c, true, img, b), k) == |b.blocks[k]| {
      ParsedBlock(img, b.base, vendor, b, k);
      if Offset(b.v, ORDER[k]).None? { AbsentReadsZero(b.v, b.raw, ORDER[k], k); }
    }
    if b.v == V0 {
      ParsedBlock(img, b.base, vendor, b, 3);
      if vendor { VendorIsNotV0(img, b.base, b); } else { V0IsItself(img, b); }
    }
  }

  lemma V0IsItself(img: bytes, b: Parsed)
    requires Parse(img, b.base, false) == Some(b) && b.v == V0
    ensures WellFormed(b) && VersionOf(Get(V0, b.raw, ExtraSize)) == V0
  {
    hide Shift, BlocksAt, End, Sizes, HdrSpace, MatchAt, AlignTo;
    ParsedFacts(img, b.base, false, b);
    VersionFieldOfV0(img, b.base, b.raw);
    ShiftIsFar(img, b.base);
  }

  lemma VendorIsNotV0(img: bytes, p: nat, b: Parsed)
    requires Parse(img, p, true) == Some(b)
    ensures b.v != V0
  {
    hide BlocksAt, End, Sizes, HdrSpace, AlignTo;
  }

  /** Every field but the header size reads as in the original. */
  predicate FieldsKept(v: Variant, raw: Raw, r: Raw)
    requires RawOf(v, raw) && RawOf(v, r)
  {
    forall f: Field :: f != HeaderSize ==> Get(v, r, f) == Get(v, raw, f)
  }

  lemma SizesKeptField(b: Parsed, blocks: seq<bytes>, kernelSize: nat, files: Files, dtboAt: u64, id: bytes, f: Field)
    requires WellFormed(b) && |blocks| == 9 && |id| == 32 && f != HeaderSize
    requires kernelSize == |blocks[0]| && forall k :: 0 <= k < 9 ==> |blocks[k]| == Get(b.v, b.raw, ORDER[k])
    ensures Get(b.v, NewHeader(b, blocks, kernelSize, files, dtboAt, id), f) == Get(b.v, b.raw, f)
  {
    hide Get, NewHeader, Edited, Offset, HdrSize;
    var edits := SizeEdits(b, blocks, kernelSize, files);
    NewHeaderReads(b, blocks, kernelSize, files, dtboAt, id, f);
    assert forall j :: 0 <= j < |edits| && edits[j].f == f ==> edits[j].n == Get(b.v, b.raw, f) by {
      assert forall k :: 0 <= k < 9 ==> Get(b.v, b.raw, ORDER[k]) == |blocks[k]| % U32;
    }
    hide SizeEdits;
    EditedSame(b.v, b.raw, edits, f);
  }

  lemma {:induction false} EditedSame(v: Variant, raw: Raw, edits: seq<Edit>, g: Field)
    requires RawOf(v, raw) && forall j :: 0 <= j < |edits| && edits[j].f == g ==> edits[j].n == Get(v, raw, g)
    ensures Edited(v, raw, edits, g) == Get(v, raw, g)
    decreases edits
  {
    hide Get, Offset;
    if edits != [] { EditedSame(v, raw, edits[..|edits| - 1], g); }
  }

  const SIZE_FIELDS: set<Field> := {KernelSize, RamdiskSize, SecondSize, ExtraSize, RecoveryDtboSize, DtbSize, BootconfigSize, HeaderSize}

  /** The header bytes `repack` writes to: size fields, digest and the recovery DTBO's offset. */
  predicate Rewritten(v: Variant, i: nat) {
    || (exists f: Field :: f in SIZE_FIELDS && Offset(v, f).Some? && Offset(v, f).value <= i < Offset(v, f).value + 4)
    || (IdAt(v).Some? && IdAt(v).value <= i < IdAt(v).value + 32)
    || (v in {V1, V2} && RECOVERY_OFFSET_AT <= i < RECOVERY_OFFSET_AT + 8)
  }

  /** Name, command line, addresses and whatever else the header holds. */
  predicate OtherBytesKept(v: Variant, raw: Raw, r: Raw)
    requires RawOf(v, raw) && RawOf(v, r)
  {
    forall i :: 0 <= i < HdrSize(v) && !Rewritten(v, i) ==> r[i] == raw[i]
  }

  lemma SetKeepsBytes(v: Variant, raw: Raw, f: Field, n: u32)
    requires RawOf(v, raw) && f in SIZE_FIELDS
    ensures OtherBytesKept(v, raw, Set(v, raw, f, n))
  {
    hide LE32, HdrSize, Offset;
  }

  lemma {:induction false} ApplyKeepsBytes(v: Variant, raw: Raw, edits: seq<Edit>)
    requires RawOf(v, raw) && forall j :: 0 <= j < |edits| ==> edits[j].f in SIZE_FIELDS
    ensures OtherBytesKept(v, raw, Apply(v, raw, edits))
    decreases edits
  {
    hide Set, Rewritten, HdrSize;
    if edits != [] {
      var init, last := edits[..|edits| - 1], edits[|edits| - 1];
      ApplyKeepsBytes(v, raw, init);
      SetKeepsBytes(v, Apply(v, raw, init), last.f, last.n);
    }
  }

  lemma OthersKeepBytes(v: Variant, raw: Raw, n: u64, id: bytes)
    requires RawOf(v, raw) && |id| == 32
    ensures OtherBytesKept(v, raw, SetId(v, raw, id)) && OtherBytesKept(v, raw, SetRecoveryOffset(v, raw, n))
  {
    hide LE64, HdrSize, Offset;
  }

  /** The new header keeps every other byte of the old one. */
  lemma NewHeaderKeepsBytes(b: Parsed, blocks: seq<bytes>, kernelSize: nat, files: Files, dtboAt: u64, id: bytes)
    requires WellFormed(b) && |blocks| == 9 && |id| == 32
    ensures OtherBytesKept(b.v, b.raw, NewHeader(b, blocks, kernelSize, files, dtboAt, id))
  {
    var edits := SizeEdits(b, blocks, kernelSize, files);
    assert forall j :: 0 <= j < |edits| ==> edits[j].f in SIZE_FIELDS;
    hide Set, SetId, SetRecoveryOffset, Apply, Rewritten, SizeEdits, HdrSize;
    ApplyKeepsBytes(b.v, b.raw, edits);
    var sized := Apply(b.v, b.raw, edits);
    OthersKeepBytes(b.v, sized, dtboAt, id);
    OthersKeepBytes(b.v, SetRecoveryOffset(b.v, sized, dtboAt), dtboAt, id);
  }

  lemma OffsetApart(v: Variant, f: Field)
    requires v in {V1, V2} && Offset(v, f).Some?
    ensures Offset(v, f).value + 4 <= 1636 || Offset(v, f).value >= 1644
  {
  }

  lemma {:induction false} ApplyKeepsOffset(v: Variant, raw: Raw, edits: seq<Edit>, i: nat)
    requires RawOf(v, raw) && v in {V1, V2} && 1636 <= i < 1644
    ensures i < |raw| && Apply(v, raw, edits)[i] == raw[i]
    decreases edits
  {
    hide LE32, Offset;
    if edits != [] {
      ApplyKeepsOffset(v, raw, edits[..|edits| - 1], i);
      var f := edits[|edits| - 1].f;
      if Offset(v, f).Some? { OffsetApart(v, f); }
    }
  }

  /** Without a recovery DTBO file its recorded offset stays; the header's own size is always written. */
  lemma OffsetNeedsFile(b: Parsed, blocks: seq<bytes>, kernelSize: nat, files: Files, dtboAt: u64, id: bytes)
    requires WellFormed(b) && |blocks| == 9 && |id| == 32
    ensures files.recoveryDtbo.None? && b.v in {V1, V2} ==>
              Holds(NewHeader(b, blocks, kernelSize, files, dtboAt, id), 1636, b.raw[1636..1644])
    ensures Offset(b.v, HeaderSize).Some? ==>
              Get(b.v, NewHeader(b, blocks, kernelSize, files, dtboAt, id), HeaderSize) == HdrSize(b.v)
  {
    hide SizeEdits, Get, LE64;
    NewHeaderReads(b, blocks, kernelSize, files, dtboAt, id, HeaderSize);
    if Offset(b.v, HeaderSize).Some? { HeaderSizeEdited(b, blocks, kernelSize, files); }
    if files.recoveryDtbo.None? && b.v in {V1, V2} {
      var r := NewHeader(b, blocks, kernelSize, files, dtboAt, id);
      forall i | 1636 <= i < 1644 ensures r[i] == b.raw[i] {
        ApplyKeepsOffset(b.v, b.raw, SizeEdits(b, blocks, kernelSize, files), i);
      }
      HoldsPointwise(r, 1636, b.raw[1636..1644]);
    }
  }

  lemma HeaderSizeEdited(b: Parsed, blocks: seq<bytes>, kernelSize: nat, files: Files)
    requires WellFormed(b) && |blocks| == 9 && Offset(b.v, HeaderSize).Some?
    ensures Edited(b.v, b.raw, SizeEdits(b, blocks, kernelSize, files), HeaderSize) == HdrSize(b.v)
  {
    hide Get;
    var edits := SizeEdits(b, blocks, kernelSize, files);
    assert edits[|edits| - 1] == Edit(HeaderSize, HdrSize(b.v));
  }

  /** The original blocks, with each MTK header's size word giving the size of what follows it. */
  function OriginalBlocks(img: bytes, b: Parsed): (r: seq<bytes>)
    requires WellFormed(b)
  {
    WithMtkSizes(b.blocks, KernelOf(img, b).mtk, RamdiskOf(img, b).mtk, |b.blocks[0]|)
  }

  /** What parsing the repacked image must find. */
  predicate BackAgain(img: bytes, b: Parsed, again: Option<Parsed>, at: nat) {
    && again.Some? && WellFormed(b) && WellFormed(again.value)
    && again.value.v == b.v && again.value.base == at && again.value.page == b.page
    && again.value.blocks == OriginalBlocks(img, b)
    && FieldsKept(b.v, b.raw, again.value.raw) && OtherBytesKept(b.v, b.raw, again.value.raw)
  }

  /**
   * Main result: unpacking without decompression and repacking without compression gives an image
   * in which parsing finds the same layout, the same header fields, and every block with the
   * original bytes, an MTK header's size word excepted, which now states its content's size.
   */
  lemma UnpackRepack(c: Codec, img: bytes, vendor: bool, b: Parsed, front: bytes, rest: bytes, dtboAt: u64, id: bytes)
    requires Parse(img, b.base, vendor) == Some(b) && WellFormed(b) && Intact(img, b) && !HasTable(b)
    requires HeaderFits(b) && |id| == 32
    ensures var files := Unpack(c, true, img, b);
            && Writable(c, true, img, b, files)
            && var r := NewHeader(b, NewBlocks(c, true, img, b, files), NewKernelSize(c, true, img, b, files), files, dtboAt, id);
               var out := Image(front, NewSpace(img, b, r), FinalBlocks(c, true, img, b, files), Aligned(b, files), b.page, rest);
               BackAgain(img, b, Parse(out, |front|, vendor), |front|)
  {
    hide CreateHdr, Parse, BlockPos, Get, KernelOf, Unpack, RamdiskOf, Intact, NewBlocks, NewKernelSize, Writable, NewHeader,
         SizesStated, ChangesLayout, HasTable, HdrSpace, HdrSize, KernelBytes, OriginalBlocks, OtherBytesKept, FinalBlocks, Image,
         NewSpace, Aligned, Misplaces, AllInPlace, PayloadEnd, Laid, LaidEnd;
    var files := Unpack(c, true, img, b);
    ParsedFacts(img, b.base, vendor, b);
    UnpackedWritable(c, img, b.base, vendor, b);
    UnpackedStated(c, img, vendor, b);
    var r := NewHeader(b, b.blocks, |b.blocks[0]|, files, dtboAt, id);
    forall k | 0 <= k < 9 ensures |b.blocks[k]| == Get(b.v, b.raw, ORDER[k]) { ParsedBlock(img, b.base, vendor, b, k); }
    forall f: Field | f != HeaderSize ensures Get(b.v, r, f) == Get(b.v, b.raw, f) {
      SizesKeptField(b, b.blocks, |b.blocks[0]|, files, dtboAt, id, f);
    }
    NewHeaderKeepsBytes(b, b.blocks, |b.blocks[0]|, files, dtboAt, id);
    RepackIsRecognised(c, true, img, vendor, b, files, front, rest, dtboAt, id);
    InStepWithRamdisk(c, true, img, b, files);
    ReachesWithRamdisk(c, true, img, b, files, front, rest, r);
    RepackParses(c, true, img, b.base, vendor, b, files, front, rest, dtboAt, id, |front|);
    FinalIsOriginal(c, img, b, files);
  }

  lemma FinalIsOriginal(c: Codec, img: bytes, b: Parsed, files: Files)
    requires WellFormed(b) && Writable(c, true, img, b, files)
    requires NewBlocks(c, true, img, b, files) == b.blocks && NewKernelSize(c, true, img, b, files) == |b.blocks[0]|
    ensures FinalBlocks(c, true, img, b, files) == OriginalBlocks(img, b)
  {
    hide KernelOf, RamdiskOf, NewBlocks, NewKernelSize, Writable, PatchSize;
  }

  // ----- a vendor image with a ramdisk table

  /** The table holds exactly its entries, and their files' names fit the buffers they are formatted into. */
  predicate TableIntact(b: Parsed)
    requires WellFormed(b)
  {
    && HasTable(b) && TableFits(b) && NamesFit(TableOf(b))
    && Get(b.v, b.raw, TableSize) == Get(b.v, b.raw, TableEntryNum) * ENTRY_SIZE
  }

  function NewSection(c: Codec, img: bytes, b: Parsed): Section
    requires WellFormed(b) && TableIntact(b)
  {
    EntriesPreserved(c, img, BlockPos(b, 1), TableOf(b));
    Repacked(c, true, img, BlockPos(b, 1), TableOf(b), Unpacked(c, true, img, BlockPos(b, 1), TableOf(b)))
  }

  lemma VendorSection(c: Codec, img: bytes, b: Parsed)
    requires WellFormed(b) && TableIntact(b)
    ensures var files, s := Unpack(c, true, img, b), NewSection(c, img, b);
            && AllThere(TableOf(b), files.vendorRamdisk)
            && RamdiskBytes(c, true, img, b, files) == s.data
            && NewTable(c, true, img, b, files) == TableBytes(s.entries)
            && |TableBytes(s.entries)| == Get(b.v, b.raw, TableSize)
  {
    hide BlockPos, Get, KernelOf, Unpacked, CheckFmtLg, Slice, RamdiskOf, Repacked, TableBytes, NamesFit, AllThere, EntriesOf, TableOf;
    EntriesPreserved(c, img, BlockPos(b, 1), TableOf(b));
    TableLength(NewSection(c, img, b).entries);
    TableCount(b);
  }

  lemma VendorWritable(c: Codec, img: bytes, p: nat, b: Parsed)
    requires Parse(img, p, true) == Some(b) && WellFormed(b) && Intact(img, b) && TableIntact(b)
    ensures var files, s := Unpack(c, true, img, b), NewSection(c, img, b);
            && Writable(c, true, img, b, files)
            && NewBlocks(c, true, img, b, files) == b.blocks[1 := s.data][7 := TableBytes(s.entries)]
            && NewKernelSize(c, true, img, b, files) == |b.blocks[0]|
            && (files.extra.None? ==> b.blocks[3] == []) && (files.recoveryDtbo.None? ==> b.blocks[4] == [])
            && |TableBytes(s.entries)| == |b.blocks[7]|
  {
    hide Parse, BlockPos, Get, KernelOf, Unpacked, TableOf, CheckFmtLg, Slice, KernelBytes, KernelSizeSum, RamdiskBytes,
         RamdiskOf, Intact, BodyOf, TableIntact, NewSection, NewTable, AllThere, TableBytes, HasTable;
    ParsedFacts(img, p, true, b);
    KernelBlockBack(c, img, p, true, b);
    VendorSection(c, img, b);
    ParsedBlock(img, p, true, b, 7);
    assert HasTable(b) by { TableIsThere(b); }
    var s, blocks := NewSection(c, img, b), NewBlocks(c, true, img, b, Unpack(c, true, img, b));
    assert forall k :: 0 <= k < 9 ==> blocks[k] == b.blocks[1 := s.data][7 := TableBytes(s.entries)][k];
  }

  lemma TableIsThere(b: Parsed)
    requires WellFormed(b) && TableIntact(b)
    ensures HasTable(b)
  {
  }

  lemma TableCount(b: Parsed)
    requires WellFormed(b) && TableIntact(b)
    ensures |TableOf(b)| == Get(b.v, b.raw, TableEntryNum)
  {
    hide EntriesOf, Get;
  }

  lemma VendorHasNoKernel(img: bytes, b: Parsed)
    requires WellFormed(b) && IsVendor(b.v)
    ensures !KernelOf(img, b).mtk && (HasTable(b) ==> !RamdiskOf(img, b).mtk) && HeaderFits(b)
  {
    hide BlockPos, AlignTo;
  }

  lemma ParsedVendor(img: bytes, p: nat, b: Parsed)
    requires Parse(img, p, true) == Some(b)
    ensures IsVendor(b.v)
  {
    hide BlocksAt, End, Sizes, HdrSpace, AlignTo;
  }

  lemma VendorStated(c: Codec, img: bytes, p: nat, b: Parsed)
    requires Parse(img, p, true) == Some(b) && WellFormed(b) && Intact(img, b) && TableIntact(b)
    requires |NewSection(c, img, b).data| < U32
    ensures var files := Unpack(c, true, img, b);
            Writable(c, true, img, b, files) && SizesStated(c, true, img, b, files) && !ChangesLayout(c, true, b, files)
  {
    hide Parse, BlockPos, Get, KernelOf, Unpack, RamdiskOf, Intact, NewBlocks, NewKernelSize, Writable, Offset, TableIntact,
         NewSection, TableBytes;
    VendorIsNotV0(img, p, b);
    VendorWritable(c, img, p, b);
    ParsedVendor(img, p, b);
    RamdiskHasField(b.v);
    var s, files := NewSection(c, img, b), Unpack(c, true, img, b);
    var blocks := b.blocks[1 := s.data][7 := TableBytes(s.entries)];
    forall k | 0 <= k < 9 ensures StatedSize(b, blocks, |b.blocks[0]|, files, k) == |blocks[k]| {
      ParsedBlock(img, p, true, b, k);
      if Offset(b.v, ORDER[k]).None? { AbsentReadsZero(b.v, b.raw, ORDER[k], k); }
    }
  }

  lemma RamdiskHasField(v: Variant)
    ensures Offset(v, RamdiskSize).Some?
  {
  }

  /** Whether entry `k` of one image's table describes the bytes entry `k` of the other's does. */
  predicate SameEntry(img: bytes, b: Parsed, again: Parsed, k: nat)
    requires WellFormed(b) && WellFormed(again) && k < |TableOf(b)| && |TableOf(again)| == |TableOf(b)|
  {
    var was, now := EntryData(img, BlockPos(b, 1), TableOf(b)[k]), TableOf(again)[k];
    now.size == |was| && Holds(again.blocks[1], now.offset, was)
  }

  /** What parsing a repacked vendor image must find. */
  predicate VendorBackAgain(img: bytes, b: Parsed, s: Section, again: Option<Parsed>, at: nat) {
    && again.Some? && WellFormed(b) && WellFormed(again.value)
    && again.value.v == b.v && again.value.base == at && again.value.page == b.page
    && again.value.blocks == b.blocks[1 := s.data][7 := TableBytes(s.entries)]
    && OtherBytesKept(b.v, b.raw, again.value.raw)
    && HasTable(again.value) && TableFits(again.value) && TableOf(again.value) == s.entries
  }

  /**
   * Main result for images with a ramdisk table: unpacking and repacking without (de)compression
   * gives an image whose table tiles its ramdisk block and whose other blocks are the original's.
   */
  lemma VendorUnpackRepack(c: Codec, img: bytes, b: Parsed, front: bytes, rest: bytes, dtboAt: u64, id: bytes)
    requires Parse(img, b.base, true) == Some(b) && WellFormed(b) && Intact(img, b) && TableIntact(b)
    requires |NewSection(c, img, b).data| < U32 && |id| == 32
    ensures var files := Unpack(c, true, img, b);
            && Writable(c, true, img, b, files)
            && var r := NewHeader(b, NewBlocks(c, true, img, b, files), NewKernelSize(c, true, img, b, files), files, dtboAt, id);
               var out := Image(front, NewSpace(img, b, r), FinalBlocks(c, true, img, b, files), Aligned(b, files), b.page, rest);
               VendorBackAgain(img, b, NewSection(c, img, b), Parse(out, |front|, true), |front|)
  {
    hide CreateHdr, Parse, BlockPos, Get, KernelOf, Unpack, RamdiskOf, Intact, NewBlocks, NewKernelSize, Writable, NewHeader,
         SizesStated, ChangesLayout, HasTable, HdrSpace, HdrSize, KernelBytes, OtherBytesKept, FinalBlocks, Image, NewSpace, TableIntact,
         NewSection, Aligned, Misplaces, AllInPlace, PayloadEnd, Laid, LaidEnd,
         BootRepack.TableFits, TableOf, TableBytes, SizeEdits;
    var files, s := Unpack(c, true, img, b), NewSection(c, img, b);
    ParsedFacts(img, b.base, true, b);
    ParsedVendor(img, b.base, b);
    VendorHasNoKernel(img, b);
    VendorWritable(c, img, b.base, b);
    VendorStated(c, img, b.base, b);
    VendorIsNotV0(img, b.base, b);
    RepackIsRecognised(c, true, img, true, b, files, front, rest, dtboAt, id);
    var blocks := NewBlocks(c, true, img, b, files);
    var r := NewHeader(b, blocks, NewKernelSize(c, true, img, b, files), files, dtboAt, id);
    assert HasTable(b) by { TableIsThere(b); }
    InStepWithRamdisk(c, true, img, b, files);
    ReachesWithRamdisk(c, true, img, b, files, front, rest, r);
    RepackParses(c, true, img, b.base, true, b, files, front, rest, dtboAt, id, |front|);
    FinalIsNew(c, img, b, files);
    var out := Image(front, NewSpace(img, b, r), blocks, Aligned(b, files), b.page, rest);
    NewHeaderKeepsBytes(b, blocks, NewKernelSize(c, true, img, b, files), files, dtboAt, id);
    TableReread(c, img, b, Parse(out, |front|, true).value, files, dtboAt, id);
  }

  lemma FinalIsNew(c: Codec, img: bytes, b: Parsed, files: Files)
    requires WellFormed(b) && Writable(c, true, img, b, files) && !KernelOf(img, b).mtk && !RamdiskOf(img, b).mtk
    ensures FinalBlocks(c, true, img, b, files) == NewBlocks(c, true, img, b, files)
  {
    hide KernelOf, RamdiskOf, NewBlocks, NewKernelSize, Writable;
  }

  /** The fields of the table are not edited, so the new table is read with the old count. */
  lemma TableReread(c: Codec, img: bytes, b: Parsed, again: Parsed, files: Files, dtboAt: u64, id: bytes)
    requires WellFormed(b) && TableIntact(b) && Writable(c, true, img, b, files) && |id| == 32
    requires WellFormed(again) && again.v == b.v
    requires again.raw == NewHeader(b, NewBlocks(c, true, img, b, files), NewKernelSize(c, true, img, b, files), files, dtboAt, id)
    requires again.blocks[7] == TableBytes(NewSection(c, img, b).entries)
    ensures HasTable(again) && TableFits(again) && TableOf(again) == NewSection(c, img, b).entries
  {
    hide Get, NewHeader, NewBlocks, NewKernelSize, Writable, BlockPos, Unpacked, NamesFit, EntriesOf, TableBytes, Holds, Repacked;
    var s, blocks, size := NewSection(c, img, b), NewBlocks(c, true, img, b, files), NewKernelSize(c, true, img, b, files);
    UneditedField(b, blocks, size, files, dtboAt, id, TableSize);
    UneditedField(b, blocks, size, files, dtboAt, id, TableEntryNum);
    UneditedField(b, blocks, size, files, dtboAt, id, TableEntrySize);
    TableCount(b);
    TableLength(s.entries);
    assert again.blocks[7] + [] == again.blocks[7];
    HoldsMiddle([], again.blocks[7], []);
    assert [] + again.blocks[7] + [] == again.blocks[7];
    TableReadsBack(s.entries, again.blocks[7]);
  }

  lemma UneditedField(b: Parsed, blocks: seq<bytes>, kernelSize: nat, files: Files, dtboAt: u64, id: bytes, f: Field)
    requires WellFormed(b) && |blocks| == 9 && |id| == 32 && f in {TableSize, TableEntryNum, TableEntrySize}
    ensures Get(b.v, NewHeader(b, blocks, kernelSize, files, dtboAt, id), f) == Get(b.v, b.raw, f)
  {
    var edits := SizeEdits(b, blocks, kernelSize, files);
    assert forall j :: 0 <= j < |edits| ==> edits[j].f != f;
    hide Get, NewHeader, SizeEdits, Edited, Offset;
    NewHeaderReads(b, blocks, kernelSize, files, dtboAt, id, f);
    EditedNever(b.v, b.raw, edits, f);
  }

  /**
   * In that image every entry describes the bytes it described before exactly when entries kept in
   * one file held the same bytes.
   */
  lemma VendorEntriesPreserved(c: Codec, img: bytes, b: Parsed, again: Option<Parsed>, at: nat)
    requires WellFormed(b) && TableIntact(b) && |NewSection(c, img, b).data| < U32
    requires VendorBackAgain(img, b, NewSection(c, img, b), again, at)
    ensures |TableOf(again.value)| == |TableOf(b)|
    ensures (forall k :: 0 <= k < |TableOf(b)| ==> SameEntry(img, b, again.value, k))
       <==> SharedFilesAgree(img, BlockPos(b, 1), TableOf(b))
  {
    hide BlockPos, Unpacked, NamesFit, EntriesOf, TableBytes, Holds, Repacked, TableOf, HasTable, BootRepack.TableFits,
         SharedFilesAgree, NewDataAt, EntryData, AllThere;
    var entries, ramdisk := TableOf(b), BlockPos(b, 1);
    var dir := Unpacked(c, true, img, ramdisk, entries);
    EntriesPreserved(c, img, ramdisk, entries);
    forall k | 0 <= k < |entries|
      ensures SameEntry(img, b, again.value, k) <==> NewDataAt(c, true, img, ramdisk, entries, dir, k) == EntryData(img, ramdisk, entries[k])
    {
      EntryTiles(c, true, img, ramdisk, entries, dir, k);
      HeldTwice(again.value.blocks[1], NewSection(c, img, b).entries[k].offset,
                NewDataAt(c, true, img, ramdisk, entries, dir, k), EntryData(img, ramdisk, entries[k]));
    }
  }

  lemma HeldTwice(s: bytes, at: nat, a: bytes, b: bytes)
    requires Holds(s, at, a)
    ensures |a| == |b| && Holds(s, at, b) <==> a == b
  {
  }
}
