/** A whole image, head, payload and tail, repacked from the files `unpack` left and parsed again. */
module BootWhole {
  import opened Bytes
  import opened BootHeader
  import opened BootLayout
  import opened BootKernel
  import BootVendor
  import opened BootRepack
  import opened BootRoundTrip
  import opened BootTail

  const VBMETA_SIZE_AT := 28

  /** What parsing the source's tail hands to `repack`. */
  function MarksOf(img: bytes, b: Parsed): (m: Marks)
    requires b.base + b.end <= |img|
    ensures ValidMarks(m)
  {
    var t := ParseTail(img, b.base, b.end);
    if t.vbmeta.Some? then
      Marks(t.seandroid, t.lgBump, false, false, img[t.footer.value..],
            Some(Slice(img, t.vbmeta.value, Big(img, t.footer.value + VBMETA_SIZE_AT))))
    else
      Marks(t.seandroid, t.lgBump, false, false, [], None)
  }

  /** The unpacked image's payload, repacked, and where parsing finds its end. */
  function NewEnd(c: Codec, img: bytes, b: Parsed): nat
    requires WellFormed(b) && Writable(c, true, img, b, Unpack(c, true, img, b))
  {
    PayloadEnd(c, true, img, b, Unpack(c, true, img, b))
  }

  /** The unpacked image repacked behind a head; needs room for the footer. */
  function Again(c: Codec, img: bytes, b: Parsed, front: bytes, dtboAt: u64, id: bytes, patchFlags: bool): bytes
    requires WellFormed(b) && b.base + b.end <= |img| && Writable(c, true, img, b, Unpack(c, true, img, b)) && |id| == 32
    requires FooterFits(MarksOf(img, b), |front|, NewEnd(c, img, b), b.page, |img|)
  {
    var files := Unpack(c, true, img, b);
    var r := NewHeader(b, NewBlocks(c, true, img, b, files), NewKernelSize(c, true, img, b, files), files, dtboAt, id);
    Image(front, NewSpace(img, b, r), FinalBlocks(c, true, img, b, files), Aligned(b, files), b.page,
          Rest(MarksOf(img, b), |front|, NewEnd(c, img, b), b.page, |img|, patchFlags))
  }

  /** The source's vbmeta has its magic inside its recorded size, and behind `payload` bytes the new offsets fit 32 bits. */
  predicate TailFits(img: bytes, b: Parsed, head: nat, payload: nat)
    requires WellFormed(b) && b.base + b.end <= |img|
  {
    var m := MarksOf(img, b);
    && FooterFits(m, head, payload, b.page, |img|)
    && VbmetaUsable(m, head, payload, b.page)
    && (m.vbmeta.None? ==> var n := |Unpatched(m, head, payload, b.page, |img|)|; n == 0 || n >= FOOTER_SIZE)
  }

  /** What parsing the repacked image's tail behind `payload` bytes must find, in terms of the source's tail. */
  predicate TailBackAgain(img: bytes, b: Parsed, out: bytes, head: nat, payload: nat, patchFlags: bool)
    requires WellFormed(b) && b.base + b.end <= |img|
  {
    && head + payload <= |out|
    && var m, was, now := MarksOf(img, b), ParseTail(img, b.base, b.end), ParseTail(out, head, payload);
       && now.seandroid == was.seandroid && now.lgBump == was.lgBump
       && (was.vbmeta.None? ==> now.footer.None? && now.vbmeta.None?)
       && (was.vbmeta.Some? ==>
             var at := VbmetaAt(m, head, payload, b.page);
             && now.footer == Some(|out| - FOOTER_SIZE)
             && Big(out, |out| - FOOTER_SIZE + 12) == TotalAt(m, head, payload)
             && VbmetaStands(out, at, m.vbmeta.value, patchFlags)
             && (now.vbmeta == Some(at) <==> head == 0))
  }

  lemma ParsedEnd(img: bytes, p: nat, vendor: bool, b: Parsed)
    requires Parse(img, p, vendor) == Some(b)
    ensures WellFormed(b) && b.end == End(Lengths(b.blocks), HdrSpace(b.v, b.page), b.page) && b.base + b.end <= |img|
  {
    hide CreateHdr, Get, HdrSpace, HdrSize, AlignTo, BlocksAt, End, Parse;
    ParsedFacts(img, p, vendor, b);
    EndBySizes(img, p, vendor, b);
    forall k | 0 <= k < 9 ensures |b.blocks[k]| == Get(b.v, b.raw, ORDER[k]) { ParsedBlock(img, p, vendor, b, k); }
    assert Lengths(b.blocks) == Sizes(b.v, b.raw);
  }

  lemma EndBySizes(img: bytes, p: nat, vendor: bool, b: Parsed)
    requires Parse(img, p, vendor) == Some(b)
    ensures WellFormed(b) && b.end == End(Sizes(b.v, b.raw), HdrSpace(b.v, b.page), b.page) && b.base + b.end <= |img|
  {
    hide CreateHdr, Get, HdrSpace, HdrSize, AlignTo, BlocksAt, Sizes, End;
    ParsedFacts(img, p, vendor, b);
  }

  /** Without a ramdisk table the payload ends where it did. */
  lemma EndIsKept(c: Codec, img: bytes, vendor: bool, b: Parsed)
    requires Parse(img, b.base, vendor) == Some(b) && WellFormed(b) && Intact(img, b) && !HasTable(b)
    ensures Writable(c, true, img, b, Unpack(c, true, img, b)) && NewEnd(c, img, b) == b.end
  {
    hide Parse, Intact, HasTable, HdrSpace, FinalBlocks, Writable, Unpack, NewBlocks, NewKernelSize, End;
    UnpackedWritable(c, img, b.base, vendor, b);
    FinalSizes(c, true, img, b, Unpack(c, true, img, b));
    ParsedEnd(img, b.base, vendor, b);
  }

  /** The table of a vendor image, if it has one, holds exactly its entries, and the new section fits its field. */
  predicate TableUsable(c: Codec, img: bytes, b: Parsed)
    requires WellFormed(b)
  {
    HasTable(b) ==> TableIntact(b) && |NewSection(c, img, b).data| < U32
  }

  /** What parsing the repacked payload must find, with and without a ramdisk table. */
  predicate PayloadBackAgain(c: Codec, img: bytes, b: Parsed, again: Option<Parsed>, at: nat)
    requires WellFormed(b) && TableUsable(c, img, b)
  {
    if HasTable(b) then VendorBackAgain(img, b, NewSection(c, img, b), again, at) else BackAgain(img, b, again, at)
  }

  lemma TablesAreVendors(img: bytes, p: nat, b: Parsed)
    requires Parse(img, p, false) == Some(b)
    ensures WellFormed(b) && !HasTable(b)
  {
    hide BlocksAt, End, Sizes, HdrSpace, AlignTo, Shift;
  }

  /** Either way the files can be repacked, an MTK ramdisk has its file, and parsing finds what it must. */
  lemma PayloadReturns(c: Codec, img: bytes, vendor: bool, b: Parsed, front: bytes, rest: bytes, dtboAt: u64, id: bytes)
    requires Parse(img, b.base, vendor) == Some(b) && WellFormed(b) && Intact(img, b) && TableUsable(c, img, b)
    requires HeaderFits(b) && |id| == 32
    ensures var files := Unpack(c, true, img, b);
            && Writable(c, true, img, b, files) && (RamdiskOf(img, b).mtk ==> files.ramdisk.Some?)
            && var r := NewHeader(b, NewBlocks(c, true, img, b, files), NewKernelSize(c, true, img, b, files), files, dtboAt, id);
               var out := Image(front, NewSpace(img, b, r), FinalBlocks(c, true, img, b, files), Aligned(b, files), b.page, rest);
               && PayloadBackAgain(c, img, b, Parse(out, |front|, vendor), |front|)
               && Parse(out, |front|, vendor).value.blocks == FinalBlocks(c, true, img, b, files)
  {
    hide Parse, Intact, HasTable, KernelOf, RamdiskOf, NewBlocks, NewKernelSize, NewHeader, Writable, Unpack, NewSpace, HeaderFits,
         Image, OriginalBlocks, FinalBlocks, TableIntact, NewSection, FieldsKept, OtherBytesKept, Aligned, BootVendor.TableBytes;
    var files := Unpack(c, true, img, b);
    if HasTable(b) {
      if !vendor { TablesAreVendors(img, b.base, b); }
      ParsedVendor(img, b.base, b);
      VendorHasNoKernel(img, b);
      VendorUnpackRepack(c, img, b, front, rest, dtboAt, id);
      VendorWritable(c, img, b.base, b);
      FinalIsNew(c, img, b, files);
    } else {
      UnpackRepack(c, img, vendor, b, front, rest, dtboAt, id);
      UnpackedWritable(c, img, b.base, vendor, b);
      FinalIsOriginal(c, img, b, files);
    }
  }

  /**
   * Main result for a whole image: parsing the repacked one finds the layout, the header and every
   * block again, or for a vendor image with a ramdisk table the new section and table, the same vendor
   * mark, and a footer exactly when the source had a vbmeta, with the payload's end recorded; the
   * source's vbmeta stands in it byte for byte, its patched flags excepted, and is found by parsing
   * exactly when there is no head; and the image has not become shorter.
   */
  lemma WholeImageBackAgain(c: Codec, img: bytes, vendor: bool, b: Parsed, front: bytes, dtboAt: u64, id: bytes, patchFlags: bool)
    requires Parse(img, b.base, vendor) == Some(b) && WellFormed(b) && Intact(img, b) && TableUsable(c, img, b)
    requires HeaderFits(b) && |id| == 32 && b.base + b.end <= |img|
    requires Writable(c, true, img, b, Unpack(c, true, img, b)) ==> TailFits(img, b, |front|, NewEnd(c, img, b))
    ensures Writable(c, true, img, b, Unpack(c, true, img, b))
    ensures var out := Again(c, img, b, front, dtboAt, id, patchFlags);
            && PayloadBackAgain(c, img, b, Parse(out, |front|, vendor), |front|)
            && Parse(out, |front|, vendor).value.end == NewEnd(c, img, b)
            && TailBackAgain(img, b, out, |front|, NewEnd(c, img, b), patchFlags)
            && |out| >= |img|
  {
    hide Parse, Intact, HasTable, KernelOf, RamdiskOf, NewBlocks, NewKernelSize, NewHeader, Writable, Unpack, NewSpace, HeaderFits,
         Laid, Rest, FooterFits, FinalBlocks, PayloadBackAgain, HdrSpace, TailBackAgain, MarksOf, TableUsable, Aligned, TailFits,
         PayloadEnd;
    var m, files := MarksOf(img, b), Unpack(c, true, img, b);
    PayloadReturns(c, img, vendor, b, front, [], dtboAt, id);
    var end := NewEnd(c, img, b);
    assert FooterFits(m, |front|, end, b.page, |img|) by { FitsFooter(img, b, |front|, end); }
    var rest := Rest(m, |front|, end, b.page, |img|, patchFlags);
    PayloadReturns(c, img, vendor, b, front, rest, dtboAt, id);
    ParsedFacts(img, b.base, vendor, b);
    var r := NewHeader(b, NewBlocks(c, true, img, b, files), NewKernelSize(c, true, img, b, files), files, dtboAt, id);
    ReachesWithRamdisk(c, true, img, b, files, front, rest, r);
    var pay := front + Laid(NewSpace(img, b, r), FinalBlocks(c, true, img, b, files), Aligned(b, files), b.page);
    var out := Again(c, img, b, front, dtboAt, id, patchFlags);
    assert out == pay + rest;
    TailOfPayload(img, b, pay, m, |front|, end, patchFlags);
    SameEnd(c, img, vendor, b, out, |front|);
  }

  lemma FitsFooter(img: bytes, b: Parsed, head: nat, payload: nat)
    requires WellFormed(b) && b.base + b.end <= |img| && TailFits(img, b, head, payload)
    ensures FooterFits(MarksOf(img, b), head, payload, b.page, |img|)
  {
    hide FooterFits, Unpatched, MarksOf, VbmetaUsable;
  }

  lemma SameEnd(c: Codec, img: bytes, vendor: bool, b: Parsed, out: bytes, at: nat)
    requires WellFormed(b) && TableUsable(c, img, b) && Writable(c, true, img, b, Unpack(c, true, img, b))
    requires PayloadBackAgain(c, img, b, Parse(out, at, vendor), at)
    requires Parse(out, at, vendor).value.blocks == FinalBlocks(c, true, img, b, Unpack(c, true, img, b))
    ensures Parse(out, at, vendor).value.end == NewEnd(c, img, b)
  {
    hide Parse, HasTable, FinalBlocks, Writable, Unpack, HdrSpace, End, FieldsKept, OtherBytesKept, NewSection, OriginalBlocks,
         TableIntact, BootVendor.TableBytes, TableOf, BootRepack.TableFits;
    ParsedEnd(out, at, vendor, Parse(out, at, vendor).value);
  }

  /** The tail behind any payload. */
  lemma TailOfPayload(img: bytes, b: Parsed, pay: bytes, m: Marks, head: nat, payload: nat, patchFlags: bool)
    requires WellFormed(b) && b.base + b.end <= |img| && TailFits(img, b, head, payload) && m == MarksOf(img, b)
    requires |pay| == head + payload
    ensures var out := pay + Rest(m, head, payload, b.page, |img|, patchFlags);
            TailBackAgain(img, b, out, head, payload, patchFlags) && |out| >= |img|
  {
    hide Rest, Unpatched, FooterFits, VbmetaUsable, VbmetaAt, TotalAt, Big, ParseTail, TailBackAgain, VbmetaStands;
    RestLength(m, head, payload, b.page, |img|, patchFlags);
    TailRecovered(pay, m, head, b.page, |img|, patchFlags);
    NeverShorter(pay, m, head, b.page, |img|, patchFlags);
    if m.vbmeta.Some? { VbmetaCopied(pay, m, head, b.page, |img|, patchFlags); }
    RecoveredIsSource(img, b, pay + Rest(m, head, payload, b.page, |img|, patchFlags), m, head, payload, patchFlags);
  }

  lemma RestLength(m: Marks, head: nat, payload: nat, page: nat, size: nat, patchFlags: bool)
    requires page > 0 && ValidMarks(m) && FooterFits(m, head, payload, page, size)
    ensures |Rest(m, head, payload, page, size, patchFlags)| == |Unpatched(m, head, payload, page, size)|
  {
    hide Unpatched, Rest;
    RestParts(m, head, payload, page, size, patchFlags);
  }

  lemma RecoveredIsSource(img: bytes, b: Parsed, out: bytes, m: Marks, head: nat, payload: nat, patchFlags: bool)
    requires WellFormed(b) && b.base + b.end <= |img| && m == MarksOf(img, b) && head + payload <= |out|
    requires Recovered(ParseTail(out, head, payload), out, m, head, payload, b.page)
    requires m.vbmeta.Some? ==> VbmetaStands(out, VbmetaAt(m, head, payload, b.page), m.vbmeta.value, patchFlags)
    ensures TailBackAgain(img, b, out, head, payload, patchFlags)
  {
    hide VbmetaAt, TotalAt, Big, VbmetaStands;
    LgOnlyWithoutSeandroid(img, b.base, b.end);
  }

  lemma LgOnlyWithoutSeandroid(img: bytes, base: nat, end: nat)
    requires base + end <= |img|
    ensures var t := ParseTail(img, base, end); t.lgBump ==> !t.seandroid
  {
    hide Big;
  }
}
