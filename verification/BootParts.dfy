/**
 * The parts of a boot image by their bytes: which block becomes which file, an MTK ramdisk, entries of
 * the vendor ramdisk table, and the marks, footer and vbmeta behind the payload.
 */
module BootParts {
  import opened Bytes
  import opened Format
  import opened BootHeader
  import opened BootLayout
  import opened BootKernel
  import opened BootVendor
  import opened BootRepack
  import opened BootTail
  import opened BootStructs

  // ----- which block becomes which file

  /** An image in the format's form, of one page size and without a ramdisk table. */
  predicate IsImage(img: bytes, p: nat, vendor: bool, base: nat, v: Variant, raw: Raw, space: bytes, b: Blocks, page: nat) {
    && CreateHdr(img, p, vendor) == Some(Found(base, v)) && RawOf(v, raw)
    && page > 0 && Get(v, raw, PageSize) == page && SizesByName(v, raw, b) && StartsWith(space, raw)
    && (if IsVendor(v) then |space| == AlignTo(HdrSize(v), page) else |space| == page)
    && Holds(img, base, Image(space, b, page))
  }

  /** No file for an empty block. */
  function NonEmpty(block: bytes): Option<bytes> {
    if |block| == 0 then None else Some(block)
  }

  /** Main result: `unpack` puts every block into the file of its name; kernel and ramdisk are taken apart where they stand. */
  lemma FilesByName(c: Codec, skip: bool, img: bytes, p: nat, vendor: bool, base: nat, v: Variant, raw: Raw, space: bytes, b: Blocks, page: nat)
    requires IsImage(img, p, vendor, base, v, raw, space, b, page)
    ensures Parse(img, p, vendor).Some? && WellFormed(Parse(img, p, vendor).value)
    ensures var d := Parse(img, p, vendor).value;
            var f := Unpack(c, skip, img, d);
            && f.second == NonEmpty(b.second) && f.recoveryDtbo == NonEmpty(b.recoveryDtbo) && f.dtb == NonEmpty(b.dtb)
            && f.bootconfig == NonEmpty(b.bootconfig)
            && f.extra == Dumped(c, skip, CheckFmtLg(b.extra), b.extra)
            && (b.vendorRamdiskTable != [] ==> f.ramdisk == None)
            && KernelOf(img, d) == ParseKernel(img, base + |space|, |b.kernel|)
            && RamdiskOf(img, d)
                 == ParseRamdisk(img, base + AlignTo(|space| + |b.kernel|, page), |b.ramdisk|, b.vendorRamdiskTable != [])
  {
    hide CreateHdr, Get, HdrSize, Holds, Parse, Image, AlignTo, Dumped, CheckFmtLg, ParseKernel, ParseRamdisk, Slice, TableOf, Unpacked;
    ImageTakenApart(img, p, vendor, base, v, raw, space, b, page);
    var d := Parse(img, p, vendor).value;
    FirstTwoPlaces(d, |b.kernel|);
    SpaceIs(v, page);
  }

  lemma SpaceIs(v: Variant, page: nat)
    requires page > 0
    ensures HdrSpace(v, page) == if IsVendor(v) then AlignTo(HdrSize(v), page) else page
  {
  }

  lemma FirstTwoPlaces(d: Parsed, kernel: nat)
    requires WellFormed(d) && Get(d.v, d.raw, KernelSize) == kernel
    ensures BlockPos(d, 0) == d.base + HdrSpace(d.v, d.page)
    ensures BlockPos(d, 1) == d.base + AlignTo(HdrSpace(d.v, d.page) + kernel, d.page)
  {
    hide AlignTo, Get, HdrSpace, HdrSize;
    var s := Sizes(d.v, d.raw);
    assert s[..0] == [] && s[..1] == [kernel] && [kernel][..0] == [];
  }

  // ----- an MTK ramdisk

  /** The header of an MTK ramdisk is cut off exactly when its magic begins the block, and never where a table describes the ramdisks. */
  lemma RamdiskIsCutOff(img: bytes, at: nat, size: u32)
    requires size > 0
    ensures var r := ParseRamdisk(img, at, size, false);
            && (r.mtk <==> StartsWith(Slice(img, at, size), [0x88, 0x16, 0x88, 0x58]))
            && r.at == at + (if r.mtk then 512 else 0) && r.size == (size - if r.mtk then 512 else 0) % U32
            && r.fmt == CheckFmtLg(Slice(img, r.at, r.size))
    ensures ParseRamdisk(img, at, size, true) == Ramdisk(at, size, UNKNOWN, false)
  {
    hide Slice, StartsWith, CheckFmtLg;
    MtkBySignature(Slice(img, at, size));
  }

  /** A boot ramdisk under a version 4 header is compressed as legacy LZ4, whatever it was before; any other in its own format. */
  lemma RamdiskRecompressed(c: Codec, img: bytes, b: Parsed, files: Files)
    requires WellFormed(b) && !HasTable(b) && files.ramdisk.Some? && !CompressedAny(CheckFmt(files.ramdisk.value))
    ensures var r := RamdiskOf(img, b);
            var how := if !IsVendor(b.v) && Get(b.v, b.raw, HeaderVersion) == 4 then LZ4_LEGACY else r.fmt;
            RamdiskBytes(c, false, img, b, files)
              == (if r.mtk then Slice(img, BlockPos(b, 1), 512) else [])
                 + if Compressed(how) then c.compress(how, files.ramdisk.value) else files.ramdisk.value
  {
    hide CheckFmt, CheckFmtLgAt, Slice, BlockPos, TableOf;
  }

  /** A gzip kernel inside a zImage is compressed with zopfli, every other one in its own format. */
  lemma KernelRecompressed(c: Codec, k: Kernel, file: bytes)
    requires !CompressedAny(CheckFmt(file)) && Compressed(k.fmt)
    ensures Written(c, false, k.fmt, HowToCompress(k), file) == c.compress(if k.zImage && k.fmt == GZIP then ZOPFLI else k.fmt, file)
    ensures Written(c, true, k.fmt, HowToCompress(k), file) == file
  {
    hide CheckFmt;
  }

  /** The formats in the order of the enumeration; those that are compressed are the ones from gzip to before lzop. */
  const FORMATS: seq<Fmt> :=
    [UNKNOWN, CHROMEOS, AOSP, AOSP_VENDOR, DHTB, BLOB, GZIP, ZOPFLI, XZ, LZMA, BZIP2, LZ4, LZ4_LEGACY, LZ4_LG, LZOP, MTK, DTB, ZIMAGE]

  lemma CompressedByOrder(i: nat)
    requires i < |FORMATS|
    ensures FORMATS[6] == GZIP && FORMATS[14] == LZOP
    ensures (Compressed(FORMATS[i]) <==> 6 <= i < 14) && (CompressedAny(FORMATS[i]) <==> 6 <= i <= 14)
  {
  }

  // ----- entries of the ramdisk table

  /** An entry as its struct: size, offset, type, 32 bytes of name, 64 bytes of board id. */
  function EntryStruct(size: u32, offset: u32, kind: u32, name: bytes, board: bytes): bytes {
    LE32(size) + LE32(offset) + LE32(kind) + name + board
  }

  /** Main result: it is read field by field, written back as it was, and its file is called after its name. */
  lemma EntryByStruct(table: bytes, at: nat, size: u32, offset: u32, kind: u32, name: bytes, board: bytes)
    requires |name| == 32 && |board| == 64 && Holds(table, at, EntryStruct(size, offset, kind, name, board))
    ensures at + 108 <= |table|
    ensures var e := EntryAt(table, at);
            && e == TableEntry(size, offset, LE32(kind) + name + board)
            && EntryBytes(e) == EntryStruct(size, offset, kind, name, board)
            && (!NulFree(name) ==> FullName(e) == if CStr(name) == [] then Ascii("ramdisk.cpio") else CStr(name) + Ascii(".cpio"))
  {
    hide LE32, ReadLE32, Holds, CStr;
    var rest := LE32(kind) + name + board;
    var e := TableEntry(size, offset, rest);
    assert EntryBytes(e) == EntryStruct(size, offset, kind, name, board);
    HoldsInside(table, at, EntryBytes(e));
    EntryReadsBack(table, at, e);
    assert rest[4..] == name + board;
    if !NulFree(name) { CStrStops(name, board); }
  }

  /** `unpack` cuts a file name to 39 bytes, `repack` to 63. */
  lemma NamesCut(e: TableEntry)
    requires |e.rest| == 100
    ensures var name := FullName(e);
            && FileName(e, UNPACK_BUFFER) == name[..Min(|name|, 39)]
            && FileName(e, REPACK_BUFFER) == name[..Min(|name|, 63)]
  {
    hide FullName;
  }

  lemma HoldsInside(s: bytes, at: nat, piece: bytes)
    requires Holds(s, at, piece)
    ensures at + |piece| <= |s|
  {
  }

  // ----- behind the payload

  const LG_BUMP: bytes := [0x41, 0xA9, 0xE4, 0x67, 0x74, 0x4D, 0x1D, 0x1B, 0xA4, 0x29, 0xF2, 0xEC, 0xEA, 0x65, 0x52, 0x79]

  lemma TailMagics()
    ensures SEANDROID_MAGIC == Ascii("SEANDROIDENFORCE") && LG_BUMP_MAGIC == LG_BUMP
    ensures AVB_FOOTER_MAGIC == Ascii("AVBf") && AVB_MAGIC == Ascii("AVB0")
  {
  }

  /** Main result: Samsung's mark is seen exactly when it stands right behind the payload, LG's when it does there instead. */
  lemma MarksByText(img: bytes, base: nat, end: nat)
    requires base + end <= |img|
    ensures var t := ParseTail(img, base, end);
            && (t.seandroid <==> Holds(img, base + end, Ascii("SEANDROIDENFORCE")))
            && (t.lgBump <==> Holds(img, base + end, LG_BUMP))
    ensures var m := Marks(true, false, true, false, [], None);
            MarkBytes(m) == Ascii("SEANDROIDENFORCE") + [0xFF, 0xFF, 0xFF, 0xFF] && MarkBytes(m.(dhtb := false)) == Ascii("SEANDROIDENFORCE")
            && MarkBytes(m.(seandroid := false, lgBump := true)) == LG_BUMP && MarkBytes(m.(seandroid := false)) == []
  {
    hide Ascii, FooterOf, Big, SEANDROID_MAGIC, LG_BUMP_MAGIC, AVB_MAGIC;
    TailMagics();
    SixteenBytes();
    NotBothMarks(img, base + end);
  }

  lemma SixteenBytes()
    ensures |Ascii("SEANDROIDENFORCE")| == 16 == |LG_BUMP|
  {
  }

  lemma NotBothMarks(img: bytes, at: nat)
    ensures !(Holds(img, at, Ascii("SEANDROIDENFORCE")) && Holds(img, at, LG_BUMP))
  {
    HoldsPointwise(img, at, Ascii("SEANDROIDENFORCE"));
    HoldsPointwise(img, at, LG_BUMP);
    assert Ascii("SEANDROIDENFORCE")[0] == 0x53 && LG_BUMP[0] == 0x41;
  }

  /** Eight bytes, most significant first. */
  function Big64(n: u64): (b: bytes)
    ensures |b| == 8
  {
    BE32(n / U32) + BE32(n % U32)
  }

  /** The footer as its struct. */
  datatype Footer = Footer(major: u32, minor: u32, originalImageSize: u64, vbmetaOffset: u64, vbmetaSize: u64, reserved: bytes)

  function FooterBytes(f: Footer): bytes {
    Ascii("AVBf") + BE32(f.major) + BE32(f.minor) + Big64(f.originalImageSize) + Big64(f.vbmetaOffset) + Big64(f.vbmetaSize) + f.reserved
  }

  /** Where a member of a struct begins, after members of the given widths. */
  function Before(widths: seq<nat>, n: nat): nat
    requires n <= |widths|
  {
    if n == 0 then 0 else Before(widths, n - 1) + widths[n - 1]
  }

  /** The vbmeta header: magic, two versions, sizes of two blocks, algorithm, ten offsets and sizes, rollback index, flags. */
  const VBMETA_WIDTHS: seq<nat> := [4, 4, 4, 8, 8, 4, 8, 8, 8, 8, 8, 8, 8, 8, 8, 8, 8, 4]

  lemma FlagsPlace()
    ensures |VBMETA_WIDTHS| == 18 && Before(VBMETA_WIDTHS, 17) == VBMETA_FLAGS && VBMETA_WIDTHS[17] == 4
  {
    var w := VBMETA_WIDTHS;
    assert Before(w, 6) == 32;
    assert Before(w, 12) == 80;
  }

  lemma BigOfBig64(s: bytes, at: nat, n: u64)
    requires Holds(s, at, Big64(n))
    ensures at + 8 <= |s| && Big(s, at) == n
  {
    hide BE32, ReadBE32, Holds;
    HoldsConcat(s, at, BE32(n / U32), BE32(n % U32));
    BigWordHeld(s, at, n / U32);
    BigWordHeld(s, at + 4, n % U32);
    HoldsInside(s, at, Big64(n));
  }

  lemma FooterLength(f: Footer)
    requires |f.reserved| == 28
    ensures |FooterBytes(f)| == 64
  {
    hide BE32;
  }

  lemma FooterHeld(s: bytes, at: nat, f: Footer)
    requires |f.reserved| == 28 && Holds(s, at, FooterBytes(f))
    ensures at + 64 <= |s| && MatchAt(s, at, AVB_FOOTER_MAGIC)
    ensures Big(s, at + 12) == f.originalImageSize && Big(s, at + 20) == f.vbmetaOffset
  {
    hide BE32, Big64, Holds, Big;
    TailMagics();
    var a, b, c, d := Ascii("AVBf"), BE32(f.major) + BE32(f.minor), Big64(f.originalImageSize), Big64(f.vbmetaOffset);
    var rest := Big64(f.vbmetaSize) + f.reserved;
    assert FooterBytes(f) == a + (b + (c + (d + rest)));
    HoldsConcat(s, at, a, b + (c + (d + rest)));
    HoldsConcat(s, at + 4, b, c + (d + rest));
    HoldsConcat(s, at + 12, c, d + rest);
    HoldsConcat(s, at + 20, d, rest);
    BigOfBig64(s, at + 12, f.originalImageSize);
    BigOfBig64(s, at + 20, f.vbmetaOffset);
    FooterLength(f);
    HoldsInside(s, at, FooterBytes(f));
    HeldMatches(s, at, a);
  }

  lemma HeldMatches(s: bytes, at: nat, piece: bytes)
    ensures Holds(s, at, piece) <==> MatchAt(s, at, piece)
  {
  }

  /**
   * Main result: a footer that ends a file is found, and the vbmeta exactly when its magic stands at
   * the footer's offset from the payload's start; without a footer's magic there, neither is.
   */
  lemma FooterFollowed(img: bytes, base: nat, end: nat, f: Footer)
    requires base + end < |img| && |f.reserved| == 28
    ensures |img| >= 64 && Holds(img, |img| - 64, FooterBytes(f)) ==>
              var t := ParseTail(img, base, end);
              && t.footer == Some(|img| - 64) && Big(img, |img| - 64 + 12) == f.originalImageSize
              && t.vbmeta == if Holds(img, base + f.vbmetaOffset, Ascii("AVB0")) then Some(base + f.vbmetaOffset) else None
    ensures |img| < 64 || !Holds(img, |img| - 64, Ascii("AVBf")) ==>
              ParseTail(img, base, end).footer == None && ParseTail(img, base, end).vbmeta == None
  {
    hide FooterBytes, Holds, Big, Ascii, MatchAt;
    TailMagics();
    if |img| >= 64 {
      HeldMatches(img, |img| - 64, Ascii("AVBf"));
      HeldMatches(img, base + f.vbmetaOffset, Ascii("AVB0"));
      if Holds(img, |img| - 64, FooterBytes(f)) { FooterHeld(img, |img| - 64, f); }
    }
  }

  /** The footer `repack` writes is the old one with the new image size and the new vbmeta offset. */
  lemma FooterRewritten(m: Marks, f: Footer, total: u32, vbmeta: u32)
    requires |f.reserved| == 28 && m.vbmeta.Some? && m.footer == FooterBytes(f)
    ensures ValidMarks(m)
    ensures NewFooter(m, total, vbmeta) == FooterBytes(f.(originalImageSize := total, vbmetaOffset := vbmeta))
  {
    TailMagics();
    FooterLength(f);
    hide BE32, Ascii;
    assert BE32(total / U32) == BE32(0) == BE32(vbmeta / U32) && total % U32 == total && vbmeta % U32 == vbmeta;
    ZeroWord();
  }

  lemma ZeroWord()
    ensures BE32(0) == [0, 0, 0, 0]
  {
  }

  /**
   * Where `repack` puts what follows the payload: the mark right behind it; then zeros up to a page;
   * the vbmeta on the next 4096 bytes from there, counted from the payload's start.
   */
  lemma TailPlaces(m: Marks, head: nat, payload: nat, page: nat, size: nat)
    requires page > 0
    ensures var end, at := payload + |MarkBytes(m)|, VbmetaAt(m, head, payload, page) - head;
            && at % 4096 == 0 && end <= at < end + page + 4096
            && (page == 4096 ==> at < end + 4096)
    ensures m.vbmeta.None? ==>
              var n := payload + |Unpatched(m, head, payload, page, size)|;
              && payload + |MarkBytes(m)| <= n && (n < payload + |MarkBytes(m)| + page || head + n == size)
              && (m.chromeos || head + n > size ==> n % page == 0)
  {
    hide MarkBytes, AlignTo;
    var end := payload + |MarkBytes(m)|;
    AlignedIsMultiple(end, page);
    AlignedIsMultiple(AlignTo(end, page), 4096);
    if page == 4096 { AlreadyAligned(AlignTo(end, 4096), 4096); }
  }

  lemma AlreadyAligned(n: nat, page: nat)
    requires page > 0 && n % page == 0
    ensures AlignTo(n, page) == n
  {
  }
}
