/** `repack` as it runs: writing block after block, then patching the written image. */
module BootWriter {
  import opened Bytes
  import opened Format
  import opened BootHeader
  import opened BootLayout
  import opened BootKernel
  import opened BootVendor
  import opened BootRepack
  import opened BootRoundTrip
  import BootTail

  // ----- overwriting inside a written image

  lemma OverwriteLeft(a: bytes, b: bytes, at: nat, patch: bytes)
    requires at + |patch| <= |a|
    ensures Overwrite(a + b, at, patch) == Overwrite(a, at, patch) + b
  {
  }

  lemma OverwriteRight(a: bytes, b: bytes, at: nat, patch: bytes)
    requires |a| <= at && at + |patch| <= |a| + |b|
    ensures Overwrite(a + b, at, patch) == a + Overwrite(b, at - |a|, patch)
  {
  }

  lemma PaddedPatched(block: bytes, page: nat, at: nat, patch: bytes)
    requires page > 0 && at + |patch| <= |block|
    ensures Overwrite(Padded(block, page), at, patch) == Padded(Overwrite(block, at, patch), page)
  {
    hide AlignTo;
    OverwriteLeft(block, Zeros(AlignTo(|block|, page) - |block|), at, patch);
  }

  /** A block and its alignment, if it has one, behind what is written. */
  function Next(before: bytes, block: bytes, aligned: bool, page: nat): bytes
    requires page > 0
  {
    if aligned then Padded(before + block, page) else before + block
  }

  lemma NextPatched(before: bytes, block: bytes, aligned: bool, page: nat, at: nat, patch: bytes)
    requires page > 0 && at + |patch| <= |before|
    ensures Overwrite(Next(before, block, aligned, page), at, patch) == Next(Overwrite(before, at, patch), block, aligned, page)
    ensures at + |patch| <= |Next(before, block, aligned, page)|
  {
    hide Overwrite, Padded;
    OverwriteLeft(before, block, at, patch);
    PaddedPatched(before + block, page, at, patch);
  }

  lemma {:induction false} LaidSpacePatched(space: bytes, blocks: seq<bytes>, al: seq<bool>, page: nat, at: nat, patch: bytes)
    requires page > 0 && |blocks| == |al| && at + |patch| <= |space|
    ensures |space| <= |Laid(space, blocks, al, page)|
    ensures Overwrite(Laid(space, blocks, al, page), at, patch) == Laid(Overwrite(space, at, patch), blocks, al, page)
    decreases blocks
  {
    hide Overwrite, Padded;
    if blocks != [] {
      var n := |blocks| - 1;
      LaidSpacePatched(space, blocks[..n], al[..n], page, at, patch);
      NextPatched(Laid(space, blocks[..n], al[..n], page), blocks[n], al[n], page, at, patch);
    }
  }

  /** Patching `off` bytes into block `k` of the blocks laid out. */
  lemma {:induction false} LaidBlockPatched(space: bytes, blocks: seq<bytes>, al: seq<bool>, page: nat, k: nat, off: nat, patch: bytes)
    requires page > 0 && |blocks| == |al| && k < |blocks| && off + |patch| <= |blocks[k]|
    ensures var at := |Laid(space, blocks[..k], al[..k], page)| + off;
            && at + |patch| <= |Laid(space, blocks, al, page)|
            && Overwrite(Laid(space, blocks, al, page), at, patch)
               == Laid(space, blocks[k := Overwrite(blocks[k], off, patch)], al, page)
    decreases blocks
  {
    hide Overwrite, Padded;
    var n, patched := |blocks| - 1, blocks[k := Overwrite(blocks[k], off, patch)];
    var front := Laid(space, blocks[..n], al[..n], page);
    if k < n {
      assert blocks[..k] == blocks[..n][..k] && al[..k] == al[..n][..k];
      LaidBlockPatched(space, blocks[..n], al[..n], page, k, off, patch);
      NextPatched(front, blocks[n], al[n], page, |Laid(space, blocks[..k], al[..k], page)| + off, patch);
      assert patched[..n] == blocks[..n][k := Overwrite(blocks[k], off, patch)];
    } else {
      OverwriteRight(front, blocks[n], |front| + off, patch);
      PaddedPatched(front + blocks[n], page, |front| + off, patch);
      assert patched[..n] == blocks[..n];
    }
  }

  // ----- the output file

  class ImageWriter {
    var out: bytes
    const header: nat

    constructor (front: bytes)
      ensures out == front && header == |front|
    {
      out, header := front, |front|;
    }

    method Write(b: bytes)
      modifies this
      ensures out == old(out) + b
    {
      out := out + b;
    }

    /** `file_align`, relative to the start of the header. */
    method FileAlign(page: nat)
      requires page > 0 && header <= |out|
      modifies this
      ensures out == old(out) + Zeros(AlignTo(|old(out)| - header, page) - (|old(out)| - header))
    {
      var pos := |out| - header;
      out := out + Zeros(AlignTo(pos, page) - pos);
    }

    /** Writing into the mapped output. */
    method Patch(at: nat, b: bytes)
      requires at + |b| <= |out|
      modifies this
      ensures out == Overwrite(old(out), at, b)
    {
      out := Overwrite(out, at, b);
    }
  }

  /** A block, and its alignment where the code has one. */
  method WriteBlock(w: ImageWriter, ghost front: bytes, ghost space: bytes, ghost before: seq<bytes>, ghost al: seq<bool>,
                    block: bytes, aligned: bool, page: nat)
    requires page > 0 && |before| == |al| && w.header == |front| && w.out == front + Laid(space, before, al, page)
    modifies w
    ensures w.out == front + Laid(space, before + [block], al + [aligned], page)
  {
    hide AlignTo, Laid;
    LaidSnoc(space, before, al, block, aligned, page);
    w.Write(block);
    ghost var all := Laid(space, before, al, page) + block;
    assert w.out == front + all;
    if aligned {
      w.FileAlign(page);
      assert w.out == front + Padded(all, page);
    }
  }

  lemma LaidSnoc(space: bytes, before: seq<bytes>, al: seq<bool>, block: bytes, aligned: bool, page: nat)
    requires page > 0 && |before| == |al|
    ensures Laid(space, before + [block], al + [aligned], page) == Next(Laid(space, before, al, page), block, aligned, page)
    ensures Laid(space, [], [], page) == space
  {
    assert (before + [block])[..|before|] == before && (al + [aligned])[..|al|] == al;
  }

  /** The kernel proper; inside a zImage the result is put back or padded to the original size. */
  method WriteBody(c: Codec, skip: bool, img: bytes, k: Kernel, file: Option<bytes>, head: bytes) returns (block: bytes, size: nat)
    requires Body(c, skip, img, k, file).Some? && k.at + k.size <= |img|
    ensures block == head + Body(c, skip, img, k, file).value
    ensures size == if k.zImage then k.size else |Body(c, skip, img, k, file).value|
  {
    SliceLength(img, k.at, k.size);
    hide Slice, Written, CheckFmt, LE32;
    block := head;
    if file.Some? {
      var w := Written(c, skip, k.fmt, HowToCompress(k), file.value);
      block := block + w;
      size := |w|;
      if k.zImage {
        if size > k.size {
          block := block[..|block| - size];
          assert block == head;
          block := block + Slice(img, k.at, k.size);
        } else if !skip {
          var pad := Zeros(k.size - size - 4);
          block := block + pad + LE32(|file.value|);
          assert block == head + (w + pad + LE32(|file.value|));
        }
        size := k.size;
      }
    } else {
      block := block + Slice(img, k.at, k.size);
      size := k.size;
    }
  }

  /** The kernel block: MTK and zImage headers, the kernel or its replacement, zImage tail, device tree. */
  method WriteKernel(c: Codec, skip: bool, img: bytes, at: nat, k: Kernel, file: Option<bytes>, dtb: Option<bytes>)
    returns (block: bytes, size: nat)
    requires Body(c, skip, img, k, file).Some? && k.at + k.size <= |img|
    ensures block == KernelBytes(img, at, k, Body(c, skip, img, k, file).value, OrEmpty(dtb))
    ensures size == KernelSizeSum(k, Body(c, skip, img, k, file).value, OrEmpty(dtb))
  {
    hide Slice, Body;
    block := if k.mtk then Slice(img, at, MTK_HDR_SIZE) else [];
    if k.zImage {
      block := block + Slice(img, at + if k.mtk then MTK_HDR_SIZE else 0, k.hdrSize);
    }
    block, size := WriteBody(c, skip, img, k, file, block);
    if k.zImage {
      size := size + k.hdrSize;
      block := block + Slice(img, k.tailAt, k.tailSize);
      size := size + k.tailSize;
    }
    if dtb.Some? {
      block := block + dtb.value;
      size := size + |dtb.value|;
    }
  }

  /** The ramdisk block: several files with a new table, or an MTK header and one file. */
  method WriteRamdisk(c: Codec, skip: bool, img: bytes, b: Parsed, files: Files) returns (block: bytes, table: seq<TableEntry>)
    requires WellFormed(b) && (HasTable(b) ==> AllThere(TableOf(b), files.vendorRamdisk))
    ensures block == RamdiskBytes(c, skip, img, b, files)
    ensures WellSized(table) && TableBytes(table) == NewTable(c, skip, img, b, files)
  {
    hide Repacked, TableOf, Slice, Written, Get, BlockPos, RamdiskFmt;
    var r := RamdiskOf(img, b);
    if HasTable(b) {
      var size;
      table, block, size := RepackTable(c, skip, img, BlockPos(b, 1), TableOf(b), files.vendorRamdisk);
    } else {
      block, table := if r.mtk then Slice(img, BlockPos(b, 1), MTK_HDR_SIZE) else [], [];
      if files.ramdisk.Some? {
        var fmt := RamdiskFmt(b, skip, r.fmt);
        block := block + Written(c, skip, fmt, fmt, files.ramdisk.value);
      }
    }
  }

  /** The size fields, set one by one. */
  method EditHeader(b: Parsed, blocks: seq<bytes>, kernelSize: nat, files: Files, dtboAt: u64, id: bytes) returns (hdr: Raw)
    requires WellFormed(b) && |blocks| == 9 && |id| == 32
    ensures hdr == NewHeader(b, blocks, kernelSize, files, dtboAt, id)
  {
    hide Set, SetId, SetRecoveryOffset, Apply;
    var v := b.v;
    hdr := b.raw;
    ghost var edits: seq<Edit> := [];
    ApplySnoc(v, b.raw, edits, Edit(KernelSize, kernelSize % U32));
    hdr := Set(v, hdr, KernelSize, kernelSize % U32);
    edits := edits + [Edit(KernelSize, kernelSize % U32)];
    ApplySnoc(v, b.raw, edits, Edit(RamdiskSize, |blocks[1]| % U32));
    hdr := Set(v, hdr, RamdiskSize, |blocks[1]| % U32);
    edits := edits + [Edit(RamdiskSize, |blocks[1]| % U32)];
    ApplySnoc(v, b.raw, edits, Edit(SecondSize, |blocks[2]| % U32));
    hdr := Set(v, hdr, SecondSize, |blocks[2]| % U32);
    edits := edits + [Edit(SecondSize, |blocks[2]| % U32)];
    if files.extra.Some? {
      ApplySnoc(v, b.raw, edits, Edit(ExtraSize, |blocks[3]| % U32));
      hdr := Set(v, hdr, ExtraSize, |blocks[3]| % U32);
      edits := edits + [Edit(ExtraSize, |blocks[3]| % U32)];
    }
    if files.recoveryDtbo.Some? {
      ApplySnoc(v, b.raw, edits, Edit(RecoveryDtboSize, |blocks[4]| % U32));
      hdr := Set(v, hdr, RecoveryDtboSize, |blocks[4]| % U32);
      edits := edits + [Edit(RecoveryDtboSize, |blocks[4]| % U32)];
    }
    ApplySnoc(v, b.raw, edits, Edit(DtbSize, |blocks[5]| % U32));
    hdr := Set(v, hdr, DtbSize, |blocks[5]| % U32);
    edits := edits + [Edit(DtbSize, |blocks[5]| % U32)];
    ApplySnoc(v, b.raw, edits, Edit(BootconfigSize, |blocks[8]| % U32));
    hdr := Set(v, hdr, BootconfigSize, |blocks[8]| % U32);
    edits := edits + [Edit(BootconfigSize, |blocks[8]| % U32)];
    ApplySnoc(v, b.raw, edits, Edit(HeaderSize, HdrSize(v)));
    hdr := Set(v, hdr, HeaderSize, HdrSize(v));
    edits := edits + [Edit(HeaderSize, HdrSize(v))];
    assert edits == SizeEdits(b, blocks, kernelSize, files);
    if files.recoveryDtbo.Some? {
      hdr := SetRecoveryOffset(v, hdr, dtboAt);
    }
    hdr := SetId(v, hdr, id);
  }

  lemma ApplySnoc(v: Variant, raw: Raw, edits: seq<Edit>, e: Edit)
    requires RawOf(v, raw)
    ensures Apply(v, raw, []) == raw
    ensures Apply(v, raw, edits + [e]) == Set(v, Apply(v, raw, edits), e.f, e.n)
  {
    hide Set;
    assert (edits + [e])[..|edits|] == edits;
  }

  // ----- patching the whole image

  lemma ImageBlockPatched(front: bytes, space: bytes, blocks: seq<bytes>, al: seq<bool>, page: nat, rest: bytes, k: nat, off: nat,
                          patch: bytes)
    requires page > 0 && |blocks| == |al| && k < |blocks| && off + |patch| <= |blocks[k]|
    ensures var out, at := Image(front, space, blocks, al, page, rest), |front| + |Laid(space, blocks[..k], al[..k], page)| + off;
            at + |patch| <= |out|
            && Overwrite(out, at, patch) == Image(front, space, blocks[k := Overwrite(blocks[k], off, patch)], al, page, rest)
  {
    hide Overwrite, Laid;
    var laid, at := Laid(space, blocks, al, page), |Laid(space, blocks[..k], al[..k], page)| + off;
    LaidBlockPatched(space, blocks, al, page, k, off, patch);
    OverwriteRight(front, laid, |front| + at, patch);
    OverwriteLeft(front + laid, rest, |front| + at, patch);
  }

  lemma ImageSpacePatched(front: bytes, space: bytes, blocks: seq<bytes>, al: seq<bool>, page: nat, rest: bytes, patch: bytes)
    requires page > 0 && |blocks| == |al| && |patch| <= |space|
    ensures var out := Image(front, space, blocks, al, page, rest);
            |front| + |patch| <= |out|
            && Overwrite(out, |front|, patch) == Image(front, Overwrite(space, 0, patch), blocks, al, page, rest)
  {
    hide Overwrite, Laid;
    var laid := Laid(space, blocks, al, page);
    LaidSpacePatched(space, blocks, al, page, 0, patch);
    OverwriteRight(front, laid, |front|, patch);
    OverwriteLeft(front + laid, rest, |front|, patch);
  }

  lemma ImageRestPatched(front: bytes, space: bytes, blocks: seq<bytes>, al: seq<bool>, page: nat, rest: bytes, at: nat, patch: bytes)
    requires page > 0 && |blocks| == |al| && at + |patch| <= |rest|
    ensures var out, from := Image(front, space, blocks, al, page, rest), |front| + |Laid(space, blocks, al, page)| + at;
            from + |patch| <= |out|
            && Overwrite(out, from, patch) == Image(front, space, blocks, al, page, Overwrite(rest, at, patch))
  {
    hide Overwrite, Laid;
    OverwriteRight(front + Laid(space, blocks, al, page), rest, |front| + |Laid(space, blocks, al, page)| + at, patch);
  }

  /** The bytes after the payload: mark, page alignment, vbmeta on its own alignment, padding. */
  method WriteTail(w: ImageWriter, m: BootTail.Marks, page: nat, size: nat) returns (total: nat, vbmetaAt: nat)
    requires page > 0 && w.header <= |w.out|
    modifies w
    ensures total == BootTail.TotalAt(m, w.header, |old(w.out)| - w.header)
    ensures m.vbmeta.Some? ==> vbmetaAt == BootTail.VbmetaAt(m, w.header, |old(w.out)| - w.header, page)
    ensures w.out == old(w.out) + BootTail.Unpatched(m, w.header, |old(w.out)| - w.header, page, size)
  {
    hide AlignTo, BootTail.MarkBytes;
    ghost var before, head := w.out, w.header;
    ghost var payload := |before| - head;
    var marks := BootTail.MarkBytes(m);
    w.Write(marks);
    total, vbmetaAt := |w.out|, 0;
    w.FileAlign(page);
    ghost var paged := marks + Zeros(BootTail.Gap(payload + |marks|, page));
    assert w.out == before + paged;
    if m.vbmeta.Some? {
      w.FileAlign(BootTail.VBMETA_ALIGN);
      vbmetaAt := |w.out|;
      w.Write(m.vbmeta.value);
      assert w.out == before + (paged + (Zeros(BootTail.Gap(AlignTo(payload + |marks|, page), BootTail.VBMETA_ALIGN)) + m.vbmeta.value));
    }
    ghost var all := w.out;
    if !m.chromeos && |w.out| < size {
      w.Write(Zeros(size - |w.out|));
    }
  }

  /** Everything the run relies on besides the files: sizes that fit, and MTK blocks that have their headers. */
  predicate Runnable(c: Codec, skip: bool, img: bytes, b: Parsed, files: Files)
    requires WellFormed(b) && Writable(c, skip, img, b, files)
  {
    var k, r := KernelOf(img, b), RamdiskOf(img, b);
    && HeaderFits(b) && b.base + HdrSpace(b.v, b.page) <= |img|
    && k.at + k.size <= |img|
    && (k.mtk ==> |NewBlocks(c, skip, img, b, files)[0]| >= MTK_HDR_SIZE && NewKernelSize(c, skip, img, b, files) >= MTK_HDR_SIZE)
    && (r.mtk ==> |NewBlocks(c, skip, img, b, files)[1]| >= MTK_HDR_SIZE)
  }

  /** The contents of the blocks, in their order in the file. */
  method BuildBlocks(c: Codec, skip: bool, img: bytes, b: Parsed, files: Files) returns (blocks: seq<bytes>, kernelSize: nat)
    requires WellFormed(b) && Writable(c, skip, img, b, files) && Runnable(c, skip, img, b, files)
    ensures blocks == NewBlocks(c, skip, img, b, files) && kernelSize == NewKernelSize(c, skip, img, b, files)
  {
    hide KernelOf, HasTable, TableOf, AllThere, KernelBytes, KernelSizeSum, RamdiskBytes, NewTable, TableBytes, BlockPos, ExtraBytes,
         HeaderFits, HdrSpace, RamdiskOf;
    var kernel := KernelOf(img, b);
    var first, size := WriteKernel(c, skip, img, BlockPos(b, 0), kernel, files.kernel, files.kernelDtb);
    kernelSize := size + if kernel.mtk then MTK_HDR_SIZE else 0;
    var ramdisk, table := WriteRamdisk(c, skip, img, b, files);
    blocks := [first, ramdisk, OrEmpty(files.second), ExtraBytes(c, skip, b, files), OrEmpty(files.recoveryDtbo),
               OrEmpty(files.dtb), b.blocks[6], TableBytes(table), OrEmpty(files.bootconfig)];
  }

  /** The blocks one after the other, those aligned that have an alignment in the code. */
  method WriteBlocks(c: Codec, skip: bool, img: bytes, b: Parsed, files: Files, w: ImageWriter, ghost front: bytes, space: bytes)
    returns (blocks: seq<bytes>, kernelSize: nat, dtboAt: u64)
    requires WellFormed(b) && Writable(c, skip, img, b, files) && Runnable(c, skip, img, b, files)
    requires |space| == HdrSpace(b.v, b.page) && w.header == |front| && w.out == front + space
    modifies w
    ensures blocks == NewBlocks(c, skip, img, b, files) && kernelSize == NewKernelSize(c, skip, img, b, files)
    ensures w.out == front + Laid(space, blocks, Aligned(b, files), b.page) && dtboAt == DtboAt(|front|, b, blocks, Aligned(b, files))
  {
    hide NewBlocks, NewKernelSize, Writable, HdrSpace, Laid, KernelOf, Runnable, LaidEnd, Aligned;
    blocks, kernelSize := BuildBlocks(c, skip, img, b, files);
    var at := WriteAll(w, front, space, blocks, Aligned(b, files), b.page);
    dtboAt := at % U64;
  }

  /** Also notes where the recovery DTBO starts. */
  method WriteAll(w: ImageWriter, ghost front: bytes, ghost space: bytes, blocks: seq<bytes>, al: seq<bool>, page: nat)
    returns (dtboAt: nat)
    requires page > 0 && w.header == |front| && w.out == front + space && |blocks| == |al| == 9
    modifies w
    ensures w.out == front + Laid(space, blocks, al, page)
    ensures dtboAt == |front| + LaidEnd(Lengths(blocks)[..DTBO_BLOCK], al[..DTBO_BLOCK], |space|, page)
  {
    hide Laid, LaidEnd;
    dtboAt := 0;
    LaidSnoc(space, [], [], [], false, page);
    for k := 0 to |blocks|
      invariant w.out == front + Laid(space, blocks[..k], al[..k], page)
      invariant k > DTBO_BLOCK ==> dtboAt == |front| + LaidEnd(Lengths(blocks)[..DTBO_BLOCK], al[..DTBO_BLOCK], |space|, page)
    {
      if k == DTBO_BLOCK {
        LaidLength(space, blocks[..k], al[..k], page);
        assert Lengths(blocks[..k]) == Lengths(blocks)[..k];
        dtboAt := |w.out|;
      }
      WriteBlock(w, front, space, blocks[..k], al[..k], blocks[k], al[k], page);
      assert blocks[..k] + [blocks[k]] == blocks[..k + 1] && al[..k] + [al[k]] == al[..k + 1];
    }
    assert blocks[..|blocks|] == blocks && al[..|al|] == al;
  }

  /** `repack`, from the parsed source image to the bytes of the new one. */
  method Repack(c: Codec, skip: bool, img: bytes, b: Parsed, files: Files, m: BootTail.Marks, front: bytes, id: bytes,
                patchFlags: bool) returns (out: bytes)
    requires WellFormed(b) && Writable(c, skip, img, b, files) && Runnable(c, skip, img, b, files) && |id| == 32
    requires BootTail.ValidMarks(m)
    requires BootTail.FooterFits(m, |front|, |Payload(c, skip, img, b, files)|, b.page, |img|)
    ensures var blocks, al := NewBlocks(c, skip, img, b, files), Aligned(b, files);
            var hdr := NewHeader(b, blocks, NewKernelSize(c, skip, img, b, files), files, DtboAt(|front|, b, blocks, al), id);
            out == Image(front, NewSpace(img, b, hdr), FinalBlocks(c, skip, img, b, files), al, b.page,
                         BootTail.Rest(m, |front|, |Payload(c, skip, img, b, files)|, b.page, |img|, patchFlags))
  {
    hide NewBlocks, NewKernelSize, NewHeader, Writable, HdrSpace, Laid, KernelOf, RamdiskOf, Slice, LE32, BootTail.Unpatched,
         BootTail.NewFooter, BE32, BootTail.VbmetaAt, BootTail.TotalAt, Overwrite, BootTail.FooterFits, Image, HdrSize,
         BootTail.ValidMarks, Image, LaidEnd, DtboAt, Aligned, FinalBlocks;
    var page, space := b.page, Slice(img, b.base, HdrSpace(b.v, b.page));
    ghost var al := Aligned(b, files);
    SliceLength(img, b.base, HdrSpace(b.v, b.page));
    // Write blocks
    var w := new ImageWriter(front);
    w.Write(space);
    var blocks, kernelSize, dtboAt := WriteBlocks(c, skip, img, b, files, w, front, space);
    ghost var payload := |Laid(space, blocks, al, page)|;
    var total, vbmetaAt := WriteTail(w, m, page, |img|);
    ghost var u := BootTail.Unpatched(m, |front|, payload, page, |img|);
    assert w.out == Image(front, space, blocks, al, page, u) by { ImageIs(front, space, blocks, al, page, u); }
    // Patch the image: MTK headers, the boot header, the AVB footer
    FirstAligned(b, files);
    PatchMtkHeaders(b, KernelOf(img, b).mtk, RamdiskOf(img, b).mtk, w, front, space, blocks, al, kernelSize, u);
    ghost var final := FinalBlocks(c, skip, img, b, files);
    FinalIs(c, skip, img, b, files);
    FinalSizes(c, skip, img, b, files);
    var hdr := EditHeader(b, blocks, kernelSize, files, dtboAt, id);
    NewSpaceIs(img, b, hdr);
    ImageSpacePatched(front, space, final, al, page, u, hdr);
    w.Patch(|front|, hdr);
    ghost var newSpace := Overwrite(space, 0, hdr);
    assert |Laid(newSpace, final, al, page)| == payload by { SameLength(space, newSpace, blocks, final, al, page); }
    if m.vbmeta.Some? {
      PatchFooter(w, m, front, newSpace, final, al, page, u, |img|, patchFlags, total, vbmetaAt);
    } else {
      assert BootTail.Rest(m, |front|, payload, page, |img|, patchFlags) == u by { RestWithoutVbmeta(m, |front|, payload, page, |img|, patchFlags); }
    }
    out := w.out;
  }

  /** What is written before anything is patched. */
  function Payload(c: Codec, skip: bool, img: bytes, b: Parsed, files: Files): bytes
    requires WellFormed(b) && Writable(c, skip, img, b, files)
  {
    Laid(Slice(img, b.base, HdrSpace(b.v, b.page)), NewBlocks(c, skip, img, b, files), Aligned(b, files), b.page)
  }

  lemma FirstAligned(b: Parsed, files: Files)
    requires WellFormed(b)
    ensures Aligned(b, files)[0]
  {
  }

  lemma FinalIs(c: Codec, skip: bool, img: bytes, b: Parsed, files: Files)
    requires WellFormed(b) && Writable(c, skip, img, b, files)
    ensures FinalBlocks(c, skip, img, b, files)
         == WithMtkSizes(NewBlocks(c, skip, img, b, files), KernelOf(img, b).mtk, RamdiskOf(img, b).mtk, NewKernelSize(c, skip, img, b, files))
  {
    hide NewBlocks, KernelOf, RamdiskOf, NewKernelSize, Writable, PatchSize;
  }

  lemma ImageIs(front: bytes, space: bytes, blocks: seq<bytes>, al: seq<bool>, page: nat, rest: bytes)
    requires page > 0 && |blocks| == |al|
    ensures Image(front, space, blocks, al, page, rest) == front + Laid(space, blocks, al, page) + rest
  {
  }

  lemma NewSpaceIs(img: bytes, b: Parsed, hdr: Raw)
    requires WellFormed(b) && RawOf(b.v, hdr) && HeaderFits(b) && b.base + HdrSpace(b.v, b.page) <= |img|
    ensures |hdr| <= |Slice(img, b.base, HdrSpace(b.v, b.page))|
    ensures NewSpace(img, b, hdr) == Overwrite(Slice(img, b.base, HdrSpace(b.v, b.page)), 0, hdr)
  {
    hide Overwrite, HdrSpace, HdrSize;
  }

  lemma RestWithoutVbmeta(m: BootTail.Marks, head: nat, payload: nat, page: nat, size: nat, patchFlags: bool)
    requires page > 0 && BootTail.ValidMarks(m) && m.vbmeta.None?
    ensures BootTail.FooterFits(m, head, payload, page, size)
    ensures BootTail.Rest(m, head, payload, page, size, patchFlags) == BootTail.Unpatched(m, head, payload, page, size)
  {
    hide BootTail.Unpatched;
  }

  lemma SameLength(space: bytes, newSpace: bytes, blocks: seq<bytes>, final: seq<bytes>, al: seq<bool>, page: nat)
    requires page > 0 && |space| == |newSpace| && |blocks| == |final| == |al| && Lengths(final) == Lengths(blocks)
    ensures |Laid(newSpace, final, al, page)| == |Laid(space, blocks, al, page)|
  {
    hide Laid, LaidEnd;
    LaidLength(space, blocks, al, page);
    LaidLength(newSpace, final, al, page);
  }

  /** A word written over bytes 4 to 8 of block `k`, which starts at `at`. */
  method PatchWord(w: ImageWriter, ghost front: bytes, ghost space: bytes, ghost blocks: seq<bytes>, ghost al: seq<bool>, page: nat,
                   ghost rest: bytes, ghost k: nat, at: nat, n: nat)
    requires page > 0 && |blocks| == |al| && k < |blocks| && |blocks[k]| >= MTK_HDR_SIZE
    requires at == |front| + |Laid(space, blocks[..k], al[..k], page)| && w.out == Image(front, space, blocks, al, page, rest)
    modifies w
    ensures w.out == Image(front, space, blocks[k := PatchSize(blocks[k], true, n)], al, page, rest)
  {
    hide LE32, Image, Overwrite, Laid;
    ImageBlockPatched(front, space, blocks, al, page, rest, k, 4, LE32(n % U32));
    w.Patch(at + 4, LE32(n % U32));
  }

  lemma FirstBlocksAt(space: bytes, blocks: seq<bytes>, al: seq<bool>, page: nat)
    requires page > 0 && |blocks| == |al| > 0 && al[0]
    ensures |Laid(space, blocks[..0], al[..0], page)| == |space|
    ensures |Laid(space, blocks[..1], al[..1], page)| == AlignTo(|space| + |blocks[0]|, page)
  {
    hide AlignTo;
    assert blocks[..1] == [] + [blocks[0]] && al[..1] == [] + [al[0]];
    LaidSnoc(space, [], [], blocks[0], true, page);
  }

  /** The size words of the MTK headers. */
  method PatchMtkHeaders(b: Parsed, kernelMtk: bool, ramdiskMtk: bool, w: ImageWriter, ghost front: bytes, ghost space: bytes,
                         blocks: seq<bytes>, ghost al: seq<bool>, kernelSize: nat, ghost rest: bytes)
    requires WellFormed(b) && |space| == HdrSpace(b.v, b.page) && |blocks| == |al| == 9 && al[0]
    requires kernelMtk ==> |blocks[0]| >= MTK_HDR_SIZE && kernelSize >= MTK_HDR_SIZE
    requires ramdiskMtk ==> |blocks[1]| >= MTK_HDR_SIZE
    requires w.header == |front| && w.out == Image(front, space, blocks, al, b.page, rest)
    modifies w
    ensures w.out == Image(front, space, WithMtkSizes(blocks, kernelMtk, ramdiskMtk, kernelSize), al, b.page, rest)
  {
    hide Image, Laid, HdrSpace, AlignTo, PatchSize, LE32;
    ghost var final := blocks;
    FirstBlocksAt(space, blocks, al, b.page);
    if kernelMtk {
      PatchWord(w, front, space, final, al, b.page, rest, 0, w.header + HdrSpace(b.v, b.page), kernelSize - MTK_HDR_SIZE);
      final := final[0 := PatchSize(blocks[0], true, kernelSize - MTK_HDR_SIZE)];
      FirstBlocksAt(space, final, al, b.page);
    }
    Unpatched(blocks);
    if ramdiskMtk {
      PatchWord(w, front, space, final, al, b.page, rest, 1, w.header + AlignTo(HdrSpace(b.v, b.page) + |blocks[0]|, b.page),
                |blocks[1]| - MTK_HDR_SIZE);
      final := final[1 := PatchSize(blocks[1], true, |blocks[1]| - MTK_HDR_SIZE)];
    }
    assert final == WithMtkSizes(blocks, kernelMtk, ramdiskMtk, kernelSize);
  }

  lemma Unpatched(blocks: seq<bytes>)
    ensures forall k :: 0 <= k < |blocks| ==> blocks[k := PatchSize(blocks[k], false, 0)] == blocks
  {
    hide LE32, Overwrite;
  }

  /** The AVB footer at the end of the file, and the flags of the copied vbmeta. */
  method PatchFooter(w: ImageWriter, m: BootTail.Marks, ghost front: bytes, ghost space: bytes, ghost blocks: seq<bytes>, ghost al: seq<bool>,
                     page: nat, ghost u: bytes, ghost size: nat, patchFlags: bool, total: nat, vbmetaAt: nat)
    requires page > 0 && |blocks| == |al| && BootTail.ValidMarks(m) && m.vbmeta.Some? && w.header == |front|
    requires var payload := |Laid(space, blocks, al, page)|;
             u == BootTail.Unpatched(m, |front|, payload, page, size) && BootTail.FooterFits(m, |front|, payload, page, size)
    requires total == BootTail.TotalAt(m, |front|, |Laid(space, blocks, al, page)|)
    requires vbmetaAt == BootTail.VbmetaAt(m, |front|, |Laid(space, blocks, al, page)|, page)
    requires w.out == Image(front, space, blocks, al, page, u)
    modifies w
    ensures w.out == Image(front, space, blocks, al, page, BootTail.Rest(m, |front|, |Laid(space, blocks, al, page)|, page, size, patchFlags))
  {
    hide Laid, BootTail.Unpatched, Overwrite, BootTail.BE64, AlignTo, BootTail.MarkBytes, BE32, Image, BootTail.VbmetaAt,
         BootTail.TotalAt, BootTail.NewFooter, BootTail.ValidMarks;
    ghost var payload := |Laid(space, blocks, al, page)|;
    assert vbmetaAt >= |front| + payload by { VbmetaBehind(m, |front|, payload, page); }
    var footer := BootTail.NewFooter(m, total % U32, vbmetaAt % U32);
    ImageEnd(front, space, blocks, al, page, u);
    ImageRestPatched(front, space, blocks, al, page, u, |u| - BootTail.FOOTER_SIZE, footer);
    w.Patch(|w.out| - BootTail.FOOTER_SIZE, footer);
    ghost var footed := Overwrite(u, |u| - BootTail.FOOTER_SIZE, footer);
    if patchFlags {
      ImageRestPatched(front, space, blocks, al, page, footed, vbmetaAt - |front| - payload + BootTail.VBMETA_FLAGS, BE32(3));
      w.Patch(vbmetaAt + BootTail.VBMETA_FLAGS, BE32(3));
    }
  }

  lemma VbmetaBehind(m: BootTail.Marks, head: nat, payload: nat, page: nat)
    requires page > 0
    ensures BootTail.VbmetaAt(m, head, payload, page) >= head + payload
  {
    hide AlignTo, BootTail.MarkBytes;
    BootTail.AlignsUp(payload + |BootTail.MarkBytes(m)|, page);
  }

  lemma ImageEnd(front: bytes, space: bytes, blocks: seq<bytes>, al: seq<bool>, page: nat, rest: bytes)
    requires page > 0 && |blocks| == |al|
    ensures |Image(front, space, blocks, al, page, rest)| == |front| + |Laid(space, blocks, al, page)| + |rest|
  {
  }
}
