/** Small images: one that meets the conditions of the whole-image result, and those on which `repack` falls short. */
module BootSamples {
  import opened Bytes
  import opened Format
  import opened BootHeader
  import opened BootLayout
  import opened BootKernel
  import opened BootVendor
  import opened BootRepack
  import opened BootRoundTrip
  import opened BootTail
  import opened BootWhole

  const PAGE := 4096

  // ----- a header page with two words set

  function Words(a: nat, x: u32, b: nat, y: u32): (r: bytes)
    requires 8 <= a && a + 4 <= b && b + 4 <= 48
    ensures |r| == PAGE
  {
    Overwrite(Overwrite(Overwrite(Zeros(PAGE), 0, BOOT_MAGIC), a, LE32(x)), b, LE32(y))
  }

  lemma MagicPageReads(at: nat)
    requires 8 <= at && at + 4 <= PAGE
    ensures ReadLE32(Overwrite(Zeros(PAGE), 0, BOOT_MAGIC), at) == 0
  {
  }

  lemma WordsRead(a: nat, x: u32, b: nat, y: u32, at: nat)
    requires 8 <= a && a + 4 <= b && b + 4 <= 48 && 8 <= at && at + 4 <= PAGE
    requires at == a || at + 4 <= a || a + 4 <= at
    requires at == b || at + 4 <= b || b + 4 <= at
    ensures ReadLE32(Words(a, x, b, y), at) == if at == a then x else if at == b then y else 0
  {
    hide LE32, ReadLE32, Overwrite;
    var page := Overwrite(Zeros(PAGE), 0, BOOT_MAGIC);
    MagicPageReads(at);
    ReadAfterWrite(page, a, x);
    ReadAfterWrite(Overwrite(page, a, LE32(x)), b, y);
  }

  lemma WordsBytes(a: nat, x: u32, b: nat, y: u32)
    requires 8 <= a && a + 4 <= b && b + 4 <= 48
    ensures Words(a, x, b, y)[..8] == BOOT_MAGIC
    ensures forall i :: 48 <= i < PAGE ==> Words(a, x, b, y)[i] == 0
  {
    hide LE32;
  }

  lemma HeldWord(s: bytes, base: nat, page: bytes, at: nat)
    requires Holds(s, base, page) && at + 4 <= |page|
    ensures Word(s, base + at) == ReadLE32(page, at)
  {
    HoldsPointwise(s, base, page);
    assert forall i :: at <= i < at + 4 ==> s[base + i] == page[i];
  }

  /** Such a page is taken for a header of the version its word 40 names. */
  lemma PageIsHeader(s: bytes, base: nat, a: nat, x: u32, b: nat, y: u32)
    requires 8 <= a && a + 4 <= b && b + 4 <= 48 && Holds(s, base, Words(a, x, b, y))
    requires ReadLE32(Words(a, x, b, y), 36) < PXA_LIMIT
    ensures CreateHdr(s, base, false) == Some(Found(base, VersionOf(ReadLE32(Words(a, x, b, y), 40))))
  {
    hide Words, ReadLE32, Holds, MatchAt;
    var page := Words(a, x, b, y);
    WordsBytes(a, x, b, y);
    HeldWord(s, base, page, 36);
    HeldWord(s, base, page, 40);
    HoldsPart(s, base, page, 0, 8);
    HeldMatches(s, base, BOOT_MAGIC);
    HeldByte(s, base, page, 1024);
    NoMatch(s, base + 1024, BOOT_MAGIC, 0);
    HeldByte(s, base, page, 64);
    HeldByte(s, base, page, 48);
    NotShifted(s, base);
  }

  lemma HeldMatches(s: bytes, base: nat, piece: bytes)
    requires Holds(s, base, piece)
    ensures MatchAt(s, base, piece)
  {
  }

  lemma HeldByte(s: bytes, base: nat, page: bytes, i: nat)
    requires Holds(s, base, page) && i < |page|
    ensures base + i < |s| && s[base + i] == page[i]
  {
    HoldsPointwise(s, base, page);
  }

  lemma NotShifted(s: bytes, p: nat)
    requires p + 64 < |s| && s[p + 64] == 0 && s[p + 48] == 0
    ensures Shift(s, p) == 0
  {
    hide MatchAt;
    forall i | 0 <= i < |NOOKHD_MAGICS| ensures !MatchAt(s, p + 64, NOOKHD_MAGICS[i]) { NoMatch(s, p + 64, NOOKHD_MAGICS[i], 0); }
    NoMatch(s, p + 48, ACCLAIM_MAGIC, 0);
  }

  // ----- a kernel of one byte, a vbmeta and a footer

  function Nothing(n: nat): (r: seq<bytes>)
    ensures |r| == n && forall k :: 0 <= k < n ==> r[k] == []
  {
    seq(n, _ => [])
  }

  lemma {:induction false} NothingMore(space: bytes, blocks: seq<bytes>, n: nat)
    ensures Packed(space, blocks + Nothing(n), PAGE) == Packed(space, blocks, PAGE)
    decreases n
  {
    hide Packed;
    if n == 0 {
      assert blocks + Nothing(0) == blocks;
    } else {
      var all := blocks + Nothing(n);
      assert all[..|all| - 1] == blocks + Nothing(n - 1);
      NothingMore(space, blocks, n - 1);
      LastIsEmpty(space, all);
    }
  }

  lemma LastIsEmpty(space: bytes, blocks: seq<bytes>)
    requires blocks != [] && blocks[|blocks| - 1] == []
    ensures Packed(space, blocks, PAGE) == Packed(space, blocks[..|blocks| - 1], PAGE)
  {
  }

  lemma OneBlock(space: bytes, block: bytes)
    ensures Packed(space, [block], PAGE) == space + Padded(block, PAGE)
  {
    assert [block][..0] == [];
  }

  const KERNEL: bytes := [0x4B]
  const PAYLOAD := 8192
  const VBMETA_SIZE := 256
  const VBMETA: bytes := AVB_MAGIC + Zeros(VBMETA_SIZE - 4)

  function Blocks(): (r: seq<bytes>)
    ensures |r| == 9 && r[0] == KERNEL && forall k :: 0 < k < 9 ==> r[k] == []
  {
    [KERNEL] + Nothing(8)
  }

  /** A version 3 header that names the kernel. */
  function KernelPage(): (r: bytes)
    ensures |r| == PAGE
  {
    Words(8, 1, 40, 3)
  }

  function Footer(): (r: bytes)
    ensures |r| == FOOTER_SIZE
  {
    Overwrite(Overwrite(Overwrite(Zeros(FOOTER_SIZE), 0, AVB_FOOTER_MAGIC), 20, BE64(PAYLOAD)), VBMETA_SIZE_AT, BE64(VBMETA_SIZE))
  }

  /** A page with the start of a vbmeta in front and the footer at its end. */
  function TailPage(): (r: bytes)
    ensures |r| == PAGE
  {
    Overwrite(Overwrite(Zeros(PAGE), 0, AVB_MAGIC), PAGE - FOOTER_SIZE, Footer())
  }

  function Sample(front: bytes): (img: bytes)
    ensures |img| == |front| + PAYLOAD + PAGE
  {
    PayloadIs();
    front + Packed(KernelPage(), Blocks(), PAGE) + TailPage()
  }

  function SampleParsed(front: bytes): Parsed {
    Parsed(V3, |front|, KernelPage()[..HdrSize(V3)], PAGE, Blocks(), PAYLOAD)
  }

  lemma PayloadIs()
    ensures Packed(KernelPage(), Blocks(), PAGE) == KernelPage() + Padded(KERNEL, PAGE)
    ensures |Packed(KernelPage(), Blocks(), PAGE)| == PAYLOAD
  {
    hide Words, Packed;
    NothingMore(KernelPage(), [KERNEL], 8);
    OneBlock(KernelPage(), KERNEL);
  }

  lemma PrefixReads(s: bytes, n: nat, at: nat)
    requires at + 4 <= n <= |s|
    ensures ReadLE32(s[..n], at) == ReadLE32(s, at)
  {
  }

  lemma KernelPageReads(f: Field)
    ensures Get(V3, KernelPage()[..HdrSize(V3)], f)
         == if f == PageSize then PAGE else if f == KernelSize then 1 else if f == HeaderVersion then 3 else 0
  {
    hide ReadLE32, Words;
    if Offset(V3, f).Some? {
      WordsRead(8, 1, 40, 3, Offset(V3, f).value);
      PrefixReads(KernelPage(), HdrSize(V3), Offset(V3, f).value);
    }
  }

  lemma SampleIsHeld(front: bytes)
    ensures Holds(Sample(front), |front|, Packed(KernelPage(), Blocks(), PAGE))
    ensures Holds(Sample(front), |front|, KernelPage())
  {
    hide Packed, KernelPage, Blocks, TailPage, Padded, Holds;
    PayloadIs();
    HoldsMiddle(front, Packed(KernelPage(), Blocks(), PAGE), TailPage());
    HoldsConcat(Sample(front), |front|, KernelPage(), Padded(KERNEL, PAGE));
  }

  lemma KernelPageIsHeader(s: bytes, base: nat)
    requires Holds(s, base, KernelPage())
    ensures CreateHdr(s, base, false) == Some(Found(base, V3))
  {
    hide Words, ReadLE32, Holds, CreateHdr;
    WordsRead(8, 1, 40, 3, 36);
    WordsRead(8, 1, 40, 3, 40);
    PageIsHeader(s, base, 8, 1, 40, 3);
  }

  lemma SampleParses(front: bytes)
    ensures Parse(Sample(front), |front|, false) == Some(SampleParsed(front))
  {
    hide Get, Packed, Parse, CreateHdr, ReadLE32, Holds, Sample, KernelPage;
    var space := KernelPage();
    PayloadIs();
    SampleIsHeld(front);
    KernelPageIsHeader(Sample(front), |front|);
    KernelPageReads(PageSize);
    forall k | 0 <= k < 9 ensures |Blocks()[k]| == Get(V3, space[..HdrSize(V3)], ORDER[k]) { KernelPageReads(ORDER[k]); }
    PackedParses(Sample(front), |front|, false, |front|, V3, space[..HdrSize(V3)], space, Blocks());
  }

  lemma FooterReads(s: bytes, at: nat)
    requires Holds(s, at, Footer())
    ensures MatchAt(s, at, AVB_FOOTER_MAGIC) && Big(s, at + 20) == PAYLOAD && Big(s, at + VBMETA_SIZE_AT) == VBMETA_SIZE
  {
    hide BE64, Big;
    var f := Footer();
    assert f[0..4] == AVB_FOOTER_MAGIC && f[20..28] == BE64(PAYLOAD) && f[28..36] == BE64(VBMETA_SIZE);
    HoldsPart(s, at, f, 0, 4);
    HoldsPart(s, at, f, 20, 28);
    HoldsPart(s, at, f, 28, 36);
    BigOfBE64(s, at + 20, PAYLOAD);
    BigOfBE64(s, at + 28, VBMETA_SIZE);
  }

  lemma TailPageHolds(s: bytes, at: nat)
    requires Holds(s, at, TailPage())
    ensures Holds(s, at, VBMETA) && Holds(s, at + PAGE - FOOTER_SIZE, Footer())
  {
    hide Footer;
    var t := TailPage();
    assert t[0..VBMETA_SIZE] == VBMETA;
    assert t[PAGE - FOOTER_SIZE..PAGE] == Footer();
    HoldsPart(s, at, t, 0, VBMETA_SIZE);
    HoldsPart(s, at, t, PAGE - FOOTER_SIZE, PAGE);
  }

  lemma SampleTailHeld(front: bytes)
    ensures var img, at := Sample(front), |front| + PAYLOAD;
            && Holds(img, at, VBMETA) && MatchAt(img, at, AVB_MAGIC)
            && !MatchAt(img, at, SEANDROID_MAGIC) && !MatchAt(img, at, LG_BUMP_MAGIC)
            && Holds(img, at + PAGE - FOOTER_SIZE, Footer())
  {
    hide Packed, Footer, Holds, KernelPage, Blocks, TailPage, MatchAt;
    var img, at := Sample(front), |front| + PAYLOAD;
    PayloadIs();
    assert front + Packed(KernelPage(), Blocks(), PAGE) + TailPage() + [] == img;
    HoldsMiddle(front + Packed(KernelPage(), Blocks(), PAGE), TailPage(), []);
    TailPageHolds(img, at);
    HeldByte(img, at, VBMETA, 1);
    HoldsPart(img, at, VBMETA, 0, 4);
    assert VBMETA[0..4] == AVB_MAGIC;
    HeldMatches(img, at, AVB_MAGIC);
    NoMatch(img, at, SEANDROID_MAGIC, 1);
    NoMatch(img, at, LG_BUMP_MAGIC, 1);
  }

  /** What parsing finds behind the payload: no vendor mark, the footer, the vbmeta. */
  lemma SampleTail(front: bytes)
    ensures ParseTail(Sample(front), |front|, PAYLOAD)
         == Tail(false, false, Some(|front| + PAYLOAD + PAGE - FOOTER_SIZE), Some(|front| + PAYLOAD))
    ensures MarksOf(Sample(front), SampleParsed(front)).vbmeta == Some(VBMETA)
  {
    hide Footer, Holds, Big, KernelPage, Blocks, Sample, MatchAt, SEANDROID_MAGIC, LG_BUMP_MAGIC, VBMETA;
    var img, at := Sample(front), |front| + PAYLOAD;
    SampleTailHeld(front);
    FooterReads(img, at + PAGE - FOOTER_SIZE);
    assert |VBMETA| == VBMETA_SIZE by { VbmetaLength(); }
    HeldSlice(img, at, VBMETA);
  }

  lemma VbmetaLength()
    ensures |VBMETA| == VBMETA_SIZE && VBMETA[..4] == AVB_MAGIC
  {
  }

  lemma SampleTailFits(front: bytes)
    requires |front| < 0x1000_0000
    ensures TailFits(Sample(front), SampleParsed(front), |front|, PAYLOAD)
  {
    hide Sample, KernelPage, Blocks, ParseTail, HdrSize;
    SampleTail(front);
    var m := MarksOf(Sample(front), SampleParsed(front));
    VbmetaLength();
    assert !m.seandroid && !m.lgBump && !m.chromeos;
    assert MarkBytes(m) == [];
  }

  lemma OneByteKernel(img: bytes, at: nat)
    requires at + 1 <= |img| && img[at] == KERNEL[0]
    ensures Nested(img, at, 1)
  {
    assert Slice(img, at, 1) == KERNEL;
    OneByteFmt();
    assert FindDtb(img, at, 1, 0) == None;
  }

  lemma OneByteFmt()
    ensures CheckFmtLg(KERNEL) == UNKNOWN
  {
  }

  lemma SampleIsIntact(front: bytes)
    ensures WellFormed(SampleParsed(front)) && Intact(Sample(front), SampleParsed(front)) && !HasTable(SampleParsed(front))
  {
    var img, b := Sample(front), SampleParsed(front);
    assert BlockPos(b, 0) == |front| + PAGE by { assert Sizes(b.v, b.raw)[..0] == []; }
    hide Get, Sample, KernelPage, BlockPos, Nested, HdrSize;
    KernelPageReads(KernelSize);
    KernelPageReads(RamdiskSize);
    KernelPageReads(TableSize);
    SampleKernel(front);
    OneByteKernel(img, |front| + PAGE);
  }

  lemma SampleKernel(front: bytes)
    ensures |Sample(front)| > |front| + PAGE && Sample(front)[|front| + PAGE] == KERNEL[0]
  {
    hide KernelPage, Blocks, TailPage, Packed;
    PayloadIs();
    var pay := Packed(KernelPage(), Blocks(), PAGE);
    assert pay[PAGE] == KERNEL[0];
    assert Sample(front)[|front| + PAGE] == pay[PAGE];
  }

  /** The sample, behind any head, meets every condition of the whole-image result. */
  lemma SampleQualifies(front: bytes)
    requires |front| < 0x1000_0000
    ensures var img, b := Sample(front), SampleParsed(front);
            && Parse(img, b.base, false) == Some(b) && WellFormed(b) && Intact(img, b) && !HasTable(b)
            && HeaderFits(b) && b.base + b.end <= |img| && TailFits(img, b, |front|, b.end) && MarksOf(img, b).vbmeta.Some?
  {
    hide Parse, Sample, Intact, HasTable, KernelPage, TailFits, MarksOf;
    SampleParses(front);
    SampleIsIntact(front);
    SampleTailFits(front);
    SampleTail(front);
  }

  // ----- a head in front

  const BLOB_HEADER_SIZE := 104

  function BlobHead(): (r: bytes)
    ensures |r| == BLOB_HEADER_SIZE && StartsWith(r, TEGRABLOB_MAGIC)
  {
    TEGRABLOB_MAGIC + Zeros(BLOB_HEADER_SIZE - |TEGRABLOB_MAGIC|)
  }

  /**
   * Behind a blob head parsing finds the source's vbmeta. In the repacked image that vbmeta stands
   * where the footer says, from the start of the file, and parsing does not find it there.
   */
  lemma BlobLosesVbmeta(c: Codec, dtboAt: u64, id: bytes, patchFlags: bool)
    requires |id| == 32
    ensures var img, b := Sample(BlobHead()), SampleParsed(BlobHead());
            && Parse(img, BLOB_HEADER_SIZE, false) == Some(b) && WellFormed(b) && b.base + b.end <= |img|
            && ParseTail(img, BLOB_HEADER_SIZE, b.end).vbmeta == Some(BLOB_HEADER_SIZE + PAYLOAD)
            && Writable(c, true, img, b, Unpack(c, true, img, b)) && NewEnd(c, img, b) == b.end && TailFits(img, b, BLOB_HEADER_SIZE, b.end)
            && var out, at := Again(c, img, b, BlobHead(), dtboAt, id, patchFlags), BLOB_HEADER_SIZE + PAYLOAD;
               && VbmetaStands(out, at, VBMETA, patchFlags)
               && BLOB_HEADER_SIZE + b.end <= |out| && ParseTail(out, BLOB_HEADER_SIZE, b.end).vbmeta != Some(at)
  {
    hide Parse, Sample, Intact, HasTable, KernelPage, TailFits, MarksOf, Again, Writable, Unpack, ParseTail, VbmetaStands, BackAgain,
         BlobHead, VbmetaAt, TableIntact, NewSection, PayloadEnd;
    var front := BlobHead();
    var img, b := Sample(front), SampleParsed(front);
    SampleQualifies(front);
    SampleTail(front);
    EndIsKept(c, img, false, b);
    WholeImageBackAgain(c, img, false, b, front, dtboAt, id, patchFlags);
    SampleVbmetaAt(front);
  }

  lemma SampleVbmetaAt(front: bytes)
    ensures VbmetaAt(MarksOf(Sample(front), SampleParsed(front)), |front|, PAYLOAD, PAGE) == |front| + PAYLOAD
  {
    hide Sample, KernelPage, Blocks, ParseTail, HdrSize;
    SampleTail(front);
    assert MarkBytes(MarksOf(Sample(front), SampleParsed(front))) == [];
  }

  // ----- version 0 and its extra block

  /** A version 0 header that names nothing but an extra block of `n` bytes, and that block. */
  function ExtraImage(n: nat): bytes
    requires n == 0 || 4 < n <= PAGE
  {
    Packed(Words(36, PAGE, 40, n), Nothing(9)[3 := Zeros(n)], PAGE)
  }

  function ExtraParsed(n: nat): Parsed
    requires n == 0 || 4 < n <= PAGE
  {
    Parsed(V0, 0, Words(36, PAGE, 40, n)[..HdrSize(V0)], PAGE, Nothing(9)[3 := Zeros(n)], |ExtraImage(n)|)
  }

  const NO_FILES := Files(None, None, None, None, None, None, None, None, map[])

  lemma ExtraPageReads(n: nat, f: Field)
    requires n == 0 || 4 < n <= PAGE
    ensures Get(V0, Words(36, PAGE, 40, n)[..HdrSize(V0)], f)
         == if f == PageSize then PAGE else if f == ExtraSize then n else 0
  {
    hide ReadLE32, Words;
    if Offset(V0, f).Some? {
      WordsRead(36, PAGE, 40, n, Offset(V0, f).value);
      PrefixReads(Words(36, PAGE, 40, n), HdrSize(V0), Offset(V0, f).value);
    }
  }

  lemma ExtraIsHeader(s: bytes, n: nat)
    requires (n == 0 || 4 < n <= PAGE) && Holds(s, 0, Words(36, PAGE, 40, n))
    ensures CreateHdr(s, 0, false) == Some(Found(0, V0))
  {
    hide Words, ReadLE32, Holds, CreateHdr;
    WordsRead(36, PAGE, 40, n, 36);
    WordsRead(36, PAGE, 40, n, 40);
    PageIsHeader(s, 0, 36, PAGE, 40, n);
  }

  lemma ExtraIsHeld(n: nat)
    requires n == 0 || 4 < n <= PAGE
    ensures Holds(ExtraImage(n), 0, Packed(Words(36, PAGE, 40, n), Nothing(9)[3 := Zeros(n)], PAGE))
    ensures Holds(ExtraImage(n), 0, Words(36, PAGE, 40, n))
  {
    hide Words, Packed, Holds;
    assert [] + ExtraImage(n) + [] == ExtraImage(n);
    HoldsMiddle([], ExtraImage(n), []);
    PackedSpace(Words(36, PAGE, 40, n), Nothing(9)[3 := Zeros(n)], PAGE, ExtraImage(n), 0);
  }

  lemma ExtraParses(n: nat)
    requires n == 0 || 4 < n <= PAGE
    ensures Parse(ExtraImage(n), 0, false) == Some(ExtraParsed(n))
  {
    hide Get, Packed, Parse, CreateHdr, Words, ReadLE32, Holds;
    var space, blocks := Words(36, PAGE, 40, n), Nothing(9)[3 := Zeros(n)];
    ExtraIsHeld(n);
    ExtraIsHeader(ExtraImage(n), n);
    ExtraPageReads(n, PageSize);
    forall k | 0 <= k < 9 ensures |blocks[k]| == Get(V0, space[..HdrSize(V0)], ORDER[k]) { ExtraPageReads(n, ORDER[k]); }
    PackedParses(ExtraImage(n), 0, false, 0, V0, space[..HdrSize(V0)], space, blocks);
  }

  lemma ExtraRuns(c: Codec, n: nat, files: Files)
    requires (n == 0 || 4 < n <= PAGE) && files.kernel.None?
    ensures var img, b := ExtraImage(n), ExtraParsed(n);
            && WellFormed(b) && HeaderFits(b) && Writable(c, true, img, b, files)
            && Nested(img, BlockPos(b, 0), Get(b.v, b.raw, KernelSize))
  {
    hide Get, ExtraImage, Words, BlockPos;
    ExtraPageReads(n, KernelSize);
    ExtraPageReads(n, TableSize);
  }

  lemma NoMtkRamdisk(n: nat)
    requires n == 0 || 4 < n <= PAGE
    ensures WellFormed(ExtraParsed(n)) && !RamdiskOf(ExtraImage(n), ExtraParsed(n)).mtk
  {
    hide Get, ExtraImage, Words, BlockPos;
    ExtraPageReads(n, RamdiskSize);
  }

  /** An extra file of one byte: the repacked version 0 header is not taken for one. */
  lemma OneByteExtraChangesLayout(c: Codec, rest: bytes, dtboAt: u64, id: bytes)
    requires |id| == 32
    ensures var img, b, files := ExtraImage(0), ExtraParsed(0), NO_FILES.(extra := Some([1]));
            && Parse(img, 0, false) == Some(b) && WellFormed(b) && Writable(c, true, img, b, files)
            && var r := NewHeader(b, NewBlocks(c, true, img, b, files), NewKernelSize(c, true, img, b, files), files, dtboAt, id);
               var out := Image([], NewSpace(img, b, r), FinalBlocks(c, true, img, b, files), Aligned(b, files), b.page, rest);
               CreateHdr(out, 0, false) != Some(Found(0, V0))
  {
    hide Parse, CreateHdr, ExtraImage, Words, Writable, NewHeader, NewBlocks, NewKernelSize, FinalBlocks, NewSpace, Image, HeaderFits,
         Nested, BlockPos, Get, CheckFmtLg;
    var files := NO_FILES.(extra := Some([1]));
    ExtraParses(0);
    ExtraRuns(c, 0, files);
    RepackIsRecognised(c, true, ExtraImage(0), false, ExtraParsed(0), files, [], rest, dtboAt, id);
  }

  /** An extra block whose file is missing: the header still states its size, and parsing does not find the blocks as written. */
  lemma MissingExtraKeepsSize(c: Codec, rest: bytes, dtboAt: u64, id: bytes)
    requires |id| == 32
    ensures var img, b, files := ExtraImage(8), ExtraParsed(8), NO_FILES;
            && Parse(img, 0, false) == Some(b) && WellFormed(b) && Writable(c, true, img, b, files)
            && var r := NewHeader(b, NewBlocks(c, true, img, b, files), NewKernelSize(c, true, img, b, files), files, dtboAt, id);
               var out := Image([], NewSpace(img, b, r), FinalBlocks(c, true, img, b, files), Aligned(b, files), b.page, rest);
               Parse(out, 0, false) != Some(Expected(c, true, img, b, files, 0, r))
  {
    hide Parse, CreateHdr, ExtraImage, Words, Writable, NewHeader, NewBlocks, NewKernelSize, FinalBlocks, NewSpace, Image, HeaderFits,
         Nested, BlockPos, Get, KernelOf, HasTable, ChangesLayout, Aligned, Expected, AllInPlace, Misplaces, RamdiskOf;
    ExtraParses(8);
    ExtraPageReads(8, ExtraSize);
    ExtraRuns(c, 8, NO_FILES);
    NoMtkRamdisk(8);
    InStepWithRamdisk(c, true, ExtraImage(8), ExtraParsed(8), NO_FILES);
    AllInPlaceExactly(c, true, ExtraImage(8), ExtraParsed(8), NO_FILES);
    RepackParsesExactly(c, true, ExtraImage(8), false, ExtraParsed(8), NO_FILES, [], rest, dtboAt, id);
  }

  // ----- an MTK ramdisk without its file

  const MTK_RAMDISK: bytes := MTK_MAGIC + Zeros(509)

  /** A version 0 image with nothing but an MTK ramdisk: the header and one byte. */
  function MtkImage(): bytes {
    Packed(Words(16, 513, 36, PAGE), Nothing(9)[1 := MTK_RAMDISK], PAGE)
  }

  function MtkParsed(): Parsed {
    Parsed(V0, 0, Words(16, 513, 36, PAGE)[..HdrSize(V0)], PAGE, Nothing(9)[1 := MTK_RAMDISK], |MtkImage()|)
  }

  /** The ramdisk's file is gone, and there is a second file of one byte. */
  const SECOND_ONLY := NO_FILES.(second := Some([1]))

  lemma MtkPageReads(f: Field)
    ensures Get(V0, Words(16, 513, 36, PAGE)[..HdrSize(V0)], f) == if f == PageSize then PAGE else if f == RamdiskSize then 513 else 0
  {
    hide ReadLE32, Words;
    if Offset(V0, f).Some? {
      WordsRead(16, 513, 36, PAGE, Offset(V0, f).value);
      PrefixReads(Words(16, 513, 36, PAGE), HdrSize(V0), Offset(V0, f).value);
    }
  }

  lemma MtkIsHeld()
    ensures Holds(MtkImage(), 0, Packed(Words(16, 513, 36, PAGE), Nothing(9)[1 := MTK_RAMDISK], PAGE))
    ensures Holds(MtkImage(), 0, Words(16, 513, 36, PAGE))
  {
    hide Words, Packed, Holds;
    assert [] + MtkImage() + [] == MtkImage();
    HoldsMiddle([], MtkImage(), []);
    PackedSpace(Words(16, 513, 36, PAGE), Nothing(9)[1 := MTK_RAMDISK], PAGE, MtkImage(), 0);
  }

  lemma MtkIsHeader()
    ensures CreateHdr(MtkImage(), 0, false) == Some(Found(0, V0))
  {
    hide Words, ReadLE32, Holds, CreateHdr, MtkImage;
    MtkIsHeld();
    WordsRead(16, 513, 36, PAGE, 36);
    WordsRead(16, 513, 36, PAGE, 40);
    PageIsHeader(MtkImage(), 0, 16, 513, 36, PAGE);
  }

  lemma MtkParses()
    ensures Parse(MtkImage(), 0, false) == Some(MtkParsed())
  {
    hide Get, Packed, Parse, CreateHdr, Words, ReadLE32, Holds;
    var space, blocks := Words(16, 513, 36, PAGE), Nothing(9)[1 := MTK_RAMDISK];
    MtkIsHeld();
    MtkIsHeader();
    MtkPageReads(PageSize);
    forall k | 0 <= k < 9 ensures |blocks[k]| == Get(V0, space[..HdrSize(V0)], ORDER[k]) { MtkPageReads(ORDER[k]); }
    PackedParses(MtkImage(), 0, false, 0, V0, space[..HdrSize(V0)], space, blocks);
  }

  lemma MtkFmt()
    ensures |MTK_RAMDISK| == 513 && CheckFmtLg(MTK_RAMDISK) == MTK
  {
    var s := MTK_RAMDISK;
    assert s[0] == 0x88 && s[..4] == MTK_MAGIC && s[..3][0] == 0x88;
    hide StartsWith;
    Differ(s, CHROMEOS_MAGIC, 0);
    Differ(s, BOOT_MAGIC, 0);
    Differ(s, VENDOR_BOOT_MAGIC, 0);
    Differ(s, GZIP1_MAGIC, 0);
    Differ(s, GZIP2_MAGIC, 0);
    Differ(s, LZOP_MAGIC, 0);
    Differ(s, XZ_MAGIC, 0);
    Differ(s, BZIP_MAGIC, 0);
    Differ(s, LZ41_MAGIC, 0);
    Differ(s, LZ42_MAGIC, 0);
    Differ(s, LZ4_LEG_MAGIC, 0);
    MtkStarts(s);
  }

  lemma MtkStarts(s: bytes)
    requires |s| >= 4 && s[..4] == MTK_MAGIC
    ensures StartsWith(s, MTK_MAGIC)
  {
  }

  lemma MtkRamdisk()
    ensures WellFormed(MtkParsed()) && RamdiskOf(MtkImage(), MtkParsed()).mtk && BlockPos(MtkParsed(), 1) == PAGE
    ensures Slice(MtkImage(), PAGE, MTK_HDR_SIZE) == MTK_RAMDISK[..MTK_HDR_SIZE]
  {
    hide Get, Parse, MtkImage, CheckFmtLg, Words, Sizes;
    MtkParses();
    MtkFmt();
    var img, b := MtkImage(), MtkParsed();
    ParsedBlock(img, 0, false, b, 1);
    MtkPageReads(RamdiskSize);
    MtkPageReads(TableSize);
    MtkPageReads(KernelSize);
    FirstIsEmpty(b);
    assert Slice(img, PAGE, 513) == MTK_RAMDISK;
    assert img[PAGE..PAGE + 513][..MTK_HDR_SIZE] == img[PAGE..PAGE + MTK_HDR_SIZE];
  }

  lemma FirstIsEmpty(b: Parsed)
    requires WellFormed(b) && b.base == 0 && b.page == PAGE && b.v == V0 && Get(b.v, b.raw, KernelSize) == 0
    ensures BlockPos(b, 1) == PAGE
  {
    hide Get;
    var one := Sizes(b.v, b.raw)[..1];
    assert |one| == 1 && one[0] == 0 && one[..0] == [];
    assert End(one[..0], PAGE, PAGE) == PAGE;
    assert End(one, PAGE, PAGE) == AlignTo(PAGE + 0, PAGE);
  }

  lemma MtkRuns(c: Codec)
    ensures var img, b := MtkImage(), MtkParsed();
            && WellFormed(b) && HeaderFits(b) && Writable(c, true, img, b, SECOND_ONLY)
            && Nested(img, BlockPos(b, 0), Get(b.v, b.raw, KernelSize))
            && NewBlocks(c, true, img, b, SECOND_ONLY) == Nothing(9)[1 := MTK_RAMDISK[..MTK_HDR_SIZE]][2 := [1]]
            && Aligned(b, SECOND_ONLY) == [true, false, true, false, false, false, false, false, false]
            && !RawAndShorter(KernelOf(img, b), true, None)
  {
    MtkRamdisk();
    hide Get, MtkImage, Words, BlockPos, CheckFmtLgAt, Slice, RamdiskOf;
    MtkPageReads(KernelSize);
    MtkPageReads(TableSize);
    EmptySlice(MtkImage(), BlockPos(MtkParsed(), 0));
    var blocks := NewBlocks(c, true, MtkImage(), MtkParsed(), SECOND_ONLY);
    assert |MTK_RAMDISK[..MTK_HDR_SIZE]| == MTK_HDR_SIZE;
    assert blocks[1] == MTK_RAMDISK[..MTK_HDR_SIZE] + [];
    var want := Nothing(9)[1 := MTK_RAMDISK[..MTK_HDR_SIZE]][2 := [1]];
    assert blocks[0] == [];
    assert blocks[2] == [1] && blocks[3] == [] && blocks[4] == [] && blocks[5] == [];
    assert blocks[6] == [] && blocks[7] == [] && blocks[8] == [];
    assert forall k :: 0 <= k < 9 ==> blocks[k] == want[k];
  }

  lemma MtkSizes(c: Codec)
    ensures WellFormed(MtkParsed()) && Writable(c, true, MtkImage(), MtkParsed(), SECOND_ONLY)
    ensures Lengths(FinalBlocks(c, true, MtkImage(), MtkParsed(), SECOND_ONLY)) == [0, 512, 1, 0, 0, 0, 0, 0, 0]
  {
    hide MtkImage, Words, Get, NewBlocks, Writable, FinalBlocks, HeaderFits, Nested, Aligned, KernelOf;
    MtkRuns(c);
    FinalSizes(c, true, MtkImage(), MtkParsed(), SECOND_ONLY);
    assert |MTK_RAMDISK[..MTK_HDR_SIZE]| == 512 by { MtkFmt(); }
    var blocks := NewBlocks(c, true, MtkImage(), MtkParsed(), SECOND_ONLY);
    assert |blocks[0]| == 0 && |blocks[1]| == 512 && |blocks[2]| == 1;
    assert Lengths(blocks) == [0, 512, 1, 0, 0, 0, 0, 0, 0];
  }

  lemma MtkDescribable(c: Codec)
    ensures var img, b := MtkImage(), MtkParsed();
            && WellFormed(b) && Writable(c, true, img, b, SECOND_ONLY)
            && Describable(c, true, img, b, SECOND_ONLY) && !ChangesLayout(c, true, b, SECOND_ONLY)
            && Misplaces(c, true, img, b, SECOND_ONLY)
  {
    MtkRuns(c);
    MtkRamdisk();
    hide MtkImage, Words, Get, NewBlocks, Writable, HeaderFits, Nested, Aligned, KernelOf, RamdiskOf, BlockPos, Slice, MTK_RAMDISK;
    MtkPageReads(ExtraSize);
    MtkPageReads(RecoveryDtboSize);
    MtkPageReads(TableSize);
    MtkFmt();
    var blocks, al := NewBlocks(c, true, MtkImage(), MtkParsed(), SECOND_ONLY), Aligned(MtkParsed(), SECOND_ONLY);
    assert |blocks[0]| == 0 && |blocks[1]| == 512 && blocks[2] == [1];
    assert NextWritten(al, 2);
  }

  lemma SmallLaidEnd()
    ensures var sizes: seq<nat>, al := [0, 512, 1, 0, 0, 0, 0, 0, 0], [true, false, true, false, false, false, false, false, false];
            && LaidEnd(sizes, al, PAGE, PAGE) == 2 * PAGE && LaidEnd(sizes[..2], al[..2], PAGE, PAGE) == PAGE + 512
            && End(sizes[..2], PAGE, PAGE) == 2 * PAGE
  {
    var sizes: seq<nat>, al := [0, 512, 1, 0, 0, 0, 0, 0, 0], [true, false, true, false, false, false, false, false, false];
    assert sizes[..2] == [0, 512] && [0, 512][..1] == [0] && al[..2] == [true, false] && [true, false][..1] == [true];
    assert [0][..0] == [] && [true][..0] == [];
    assert LaidEnd([0], [true], PAGE, PAGE) == PAGE && End([0], PAGE, PAGE) == PAGE;
    assert sizes[..3][..2] == sizes[..2] && al[..3][..2] == al[..2];
    assert LaidEnd(sizes[..3], al[..3], PAGE, PAGE) == 2 * PAGE;
    NothingWritten(sizes, al, PAGE, PAGE, 3, 9);
    assert sizes[..9] == sizes && al[..9] == al;
  }

  /** Where the second block of the file that `repack` writes stands, and how long that file is. */
  lemma MtkSecondStands(c: Codec, rest: bytes, r: Raw)
    requires RawOf(V0, r)
    ensures var img, b := MtkImage(), MtkParsed();
            && WellFormed(b) && Writable(c, true, img, b, SECOND_ONLY)
            && var out := Image([], NewSpace(img, b, r), FinalBlocks(c, true, img, b, SECOND_ONLY), Aligned(b, SECOND_ONLY), b.page, rest);
               && Holds(out, PAGE + MTK_HDR_SIZE, FinalBlocks(c, true, img, b, SECOND_ONLY)[2])
               && |out| == 2 * PAGE + |rest| && out[2 * PAGE..] == rest
  {
    hide MtkImage, Words, Get, NewBlocks, Writable, FinalBlocks, HeaderFits, Nested, Aligned, KernelOf, Laid, LaidEnd, End, Holds,
         NewSpace, Parse;
    MtkRuns(c);
    MtkSizes(c);
    MtkParses();
    SmallLaidEnd();
    var img, b := MtkImage(), MtkParsed();
    ParsedFacts(img, 0, false, b);
    SpaceStartsWithHeader(img, b, r);
    var space, blocks, al := NewSpace(img, b, r), FinalBlocks(c, true, img, b, SECOND_ONLY), Aligned(b, SECOND_ONLY);
    LaidLength(space, blocks, al, PAGE);
    BlockStandsAt([], space, blocks, al, PAGE, rest, 2);
  }

  /**
   * The ramdisk's file is missing: its MTK header is written, the second block right behind it, and
   * parsing does not find that block, although the files are describable.
   */
  lemma MtkHeaderMisplacesSecond(c: Codec, rest: bytes, dtboAt: u64, id: bytes)
    requires |id| == 32 && (rest != [] ==> rest[0] != 1)
    ensures var img, b, files := MtkImage(), MtkParsed(), SECOND_ONLY;
            && Parse(img, 0, false) == Some(b) && WellFormed(b) && Writable(c, true, img, b, files)
            && Describable(c, true, img, b, files) && !ChangesLayout(c, true, b, files)
            && var r := NewHeader(b, NewBlocks(c, true, img, b, files), NewKernelSize(c, true, img, b, files), files, dtboAt, id);
               var out := Image([], NewSpace(img, b, r), FinalBlocks(c, true, img, b, files), Aligned(b, files), b.page, rest);
               && Holds(out, PAGE + MTK_HDR_SIZE, [1])
               && Parse(out, 0, false) != Some(Expected(c, true, img, b, files, 0, r))
  {
    hide MtkImage, Words, Get, NewBlocks, Writable, FinalBlocks, HeaderFits, Nested, Aligned, KernelOf, NewSpace, Parse, Image,
         NewHeader, NewKernelSize, Describable, ChangesLayout, Misplaces, Holds, PayloadEnd;
    var img, b, files := MtkImage(), MtkParsed(), SECOND_ONLY;
    MtkParses();
    MtkRuns(c);
    MtkDescribable(c);
    MtkSizes(c);
    SecondIsOne(c);
    var r := NewHeader(b, NewBlocks(c, true, img, b, files), NewKernelSize(c, true, img, b, files), files, dtboAt, id);
    MtkSecondStands(c, rest, r);
    var out := Image([], NewSpace(img, b, r), FinalBlocks(c, true, img, b, files), Aligned(b, files), b.page, rest);
    var e := Expected(c, true, img, b, files, 0, r);
    if 2 * PAGE < |out| { assert out[2 * PAGE] == out[2 * PAGE..][0]; }
    if Parse(out, 0, false) == Some(e) { SecondReadAt(out, e); }
  }

  lemma SecondIsOne(c: Codec)
    ensures WellFormed(MtkParsed()) && Writable(c, true, MtkImage(), MtkParsed(), SECOND_ONLY)
    ensures FinalBlocks(c, true, MtkImage(), MtkParsed(), SECOND_ONLY)[2] == [1]
  {
    MtkRuns(c);
    hide MtkImage, Words, Get, NewBlocks, Writable, HeaderFits, Nested, Aligned, KernelOf, RamdiskOf, NewKernelSize, PatchSize;
  }

  /** Behind an empty kernel and a ramdisk block of 512 bytes, parsing takes a second block of one byte from the third page. */
  lemma SecondReadAt(out: bytes, e: Parsed)
    requires Parse(out, 0, false) == Some(e) && e.v == V0 && e.base == 0 && e.page == PAGE && |e.blocks| == 9
    requires Lengths(e.blocks) == [0, 512, 1, 0, 0, 0, 0, 0, 0] && e.blocks[2] == [1]
    ensures 2 * PAGE < |out| && out[2 * PAGE] == 1
  {
    hide Get, Parse, End;
    ParsedFacts(out, 0, false, e);
    forall k | 0 <= k < 9 ensures Get(e.v, e.raw, ORDER[k]) == |e.blocks[k]| { ParsedBlock(out, 0, false, e, k); }
    assert Sizes(e.v, e.raw) == Lengths(e.blocks);
    SmallLaidEnd();
    ParsedBlock(out, 0, false, e, 2);
    assert BlockPos(e, 2) == 2 * PAGE;
  }

  // ----- a shared ramdisk file

  /** An unnamed entry and one named "ramdisk", with different bytes. */
  function SharedEntries(): (r: seq<TableEntry>)
    ensures WellSized(r)
  {
    [TableEntry(1, 0, Zeros(ENTRY_SIZE - 8)), TableEntry(1, 1, Overwrite(Zeros(ENTRY_SIZE - 8), 4, Ascii("ramdisk")))]
  }

  lemma {:induction false} CStrAt(s: bytes, name: bytes)
    requires StartsWith(s, name) && NulFree(name) && |name| < |s| && s[|name|] == 0
    ensures CStr(s) == name
    decreases name
  {
    if name != [] {
      assert s[0] == name[0];
      assert s[1..][..|name| - 1] == name[1..];
      assert NulFree(name[1..]);
      CStrAt(s[1..], name[1..]);
    }
  }

  lemma SharedNames()
    ensures NamesFit(SharedEntries())
    ensures FileName(SharedEntries()[0], UNPACK_BUFFER) == FileName(SharedEntries()[1], UNPACK_BUFFER)
  {
    hide CStr;
    var name := Ascii("ramdisk");
    var a, b := SharedEntries()[0].rest[4..], SharedEntries()[1].rest[4..];
    assert b[..7] == name && b[7] == 0;
    CStrAt(a, []);
    CStrAt(b, name);
    assert name + CPIO_SUFFIX == RAMDISK_FILE;
  }

  /** Both entries are kept in one file, and one of them comes back with the other's bytes. */
  lemma SharedFileLosesBytes(c: Codec)
    ensures var img: bytes, entries := [1, 2], SharedEntries();
            var dir := Unpacked(c, true, img, 0, entries);
            && AllThere(entries, dir)
            && exists k :: 0 <= k < |entries| && NewDataAt(c, true, img, 0, entries, dir, k) != EntryData(img, 0, entries[k])
  {
    hide FileName, Unpacked, AllThere, NewDataAt, NamesFit;
    var img: bytes, entries := [1, 2], SharedEntries();
    SharedNames();
    EntriesPreserved(c, img, 0, entries);
    assert EntryData(img, 0, entries[0]) == [1] && EntryData(img, 0, entries[1]) == [2];
    assert !SharedFilesAgree(img, 0, entries);
  }

  // ----- a name that runs over its field

  function Letters(n: nat): (r: bytes)
    ensures |r| == n && NulFree(r)
  {
    seq(n, _ => 0x61)
  }

  /** A name without a terminator in its 32 bytes that goes on into the board id: `repack` looks for another file than `unpack` wrote. */
  lemma LongNameIsLookedForElsewhere()
    ensures var e := TableEntry(0, 0, Zeros(4) + Letters(40) + Zeros(ENTRY_SIZE - 52));
            FileName(e, UNPACK_BUFFER) != FileName(e, REPACK_BUFFER)
  {
    hide CStr;
    var rest := Zeros(4) + Letters(40) + Zeros(ENTRY_SIZE - 52);
    assert rest[4..] == Letters(40) + Zeros(ENTRY_SIZE - 52);
    assert rest[4..][..40] == Letters(40);
    CStrAt(rest[4..], Letters(40));
    NamesAgreeExactly(TableEntry(0, 0, rest));
  }
}
