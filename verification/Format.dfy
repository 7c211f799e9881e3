/** Recognising a block by its first bytes: `check_fmt` and its magic numbers. */
module Format {
  import opened Bytes

  datatype Fmt =
    | UNKNOWN | CHROMEOS | AOSP | AOSP_VENDOR | DHTB | BLOB
    | GZIP | ZOPFLI | XZ | LZMA | BZIP2 | LZ4 | LZ4_LEGACY | LZ4_LG | LZOP
    | MTK | DTB | ZIMAGE

  const BOOT_MAGIC: bytes := [0x41, 0x4E, 0x44, 0x52, 0x4F, 0x49, 0x44, 0x21]         // "ANDROID!"
  const VENDOR_BOOT_MAGIC: bytes := [0x56, 0x4E, 0x44, 0x52, 0x42, 0x4F, 0x4F, 0x54]  // "VNDRBOOT"
  const CHROMEOS_MAGIC: bytes := [0x43, 0x48, 0x52, 0x4F, 0x4D, 0x45, 0x4F, 0x53]     // "CHROMEOS"
  const GZIP1_MAGIC: bytes := [0x1F, 0x8B]
  const GZIP2_MAGIC: bytes := [0x1F, 0x9E]
  const LZOP_MAGIC: bytes := [0x89, 0x4C, 0x5A, 0x4F]
  const XZ_MAGIC: bytes := [0xFD, 0x37, 0x7A, 0x58, 0x5A]
  const BZIP_MAGIC: bytes := [0x42, 0x5A, 0x68]
  const LZ4_LEG_MAGIC: bytes := [0x02, 0x21, 0x4C, 0x18]
  const LZ41_MAGIC: bytes := [0x03, 0x21, 0x4C, 0x18]
  const LZ42_MAGIC: bytes := [0x04, 0x22, 0x4D, 0x18]
  const MTK_MAGIC: bytes := [0x88, 0x16, 0x88, 0x58]
  const DTB_MAGIC: bytes := [0xD0, 0x0D, 0xFE, 0xED]
  const DHTB_MAGIC: bytes := [0x44, 0x48, 0x54, 0x42, 0x01, 0x00, 0x00, 0x00]
  const TEGRABLOB_MAGIC: bytes := Ascii("-SIGNED-BY-SIGNBLOB-")
  const ZIMAGE_MAGIC: bytes := [0x18, 0x28, 0x6F, 0x01]

  /** `piece` stands at `at`; a comparison that would run past the end does not match. */
  predicate MatchAt(buf: bytes, at: nat, piece: bytes) {
    at + |piece| <= |buf| && buf[at..at + |piece|] == piece
  }

  function CheckFmt(buf: bytes): Fmt {
    if StartsWith(buf, CHROMEOS_MAGIC) then CHROMEOS
    else if StartsWith(buf, BOOT_MAGIC) then AOSP
    else if StartsWith(buf, VENDOR_BOOT_MAGIC) then AOSP_VENDOR
    else if StartsWith(buf, GZIP1_MAGIC) || StartsWith(buf, GZIP2_MAGIC) then GZIP
    else if StartsWith(buf, LZOP_MAGIC) then LZOP
    else if StartsWith(buf, XZ_MAGIC) then XZ
    else if |buf| >= 13 && buf[..3] == [0x5D, 0x00, 0x00] && (buf[12] == 0xFF || buf[12] == 0x00) then LZMA
    else if StartsWith(buf, BZIP_MAGIC) then BZIP2
    else if StartsWith(buf, LZ41_MAGIC) || StartsWith(buf, LZ42_MAGIC) then LZ4
    else if StartsWith(buf, LZ4_LEG_MAGIC) then LZ4_LEGACY
    else if StartsWith(buf, MTK_MAGIC) then MTK
    else if StartsWith(buf, DTB_MAGIC) then DTB
    else if StartsWith(buf, DHTB_MAGIC) then DHTB
    else if StartsWith(buf, TEGRABLOB_MAGIC) then BLOB
    else if |buf| >= 0x28 && MatchAt(buf, 0x24, ZIMAGE_MAGIC) then ZIMAGE
    else UNKNOWN
  }

  /** The signature of a format at the start of a buffer, by the bytes themselves. */
  predicate Signed(f: Fmt, buf: bytes) {
    match f
    case CHROMEOS => StartsWith(buf, Ascii("CHROMEOS"))
    case AOSP => StartsWith(buf, Ascii("ANDROID!"))
    case AOSP_VENDOR => StartsWith(buf, Ascii("VNDRBOOT"))
    case GZIP => StartsWith(buf, [0x1F, 0x8B]) || StartsWith(buf, [0x1F, 0x9E])
    case LZOP => StartsWith(buf, [0x89] + Ascii("LZO"))
    case XZ => StartsWith(buf, [0xFD] + Ascii("7zXZ"))
    case LZMA => StartsWith(buf, [0x5D, 0, 0]) && |buf| > 12 && buf[12] in {0, 0xFF}
    case BZIP2 => StartsWith(buf, Ascii("BZh"))
    case LZ4 => StartsWith(buf, [3, 0x21, 0x4C, 0x18]) || StartsWith(buf, [4, 0x22, 0x4D, 0x18])
    case LZ4_LEGACY => StartsWith(buf, [2, 0x21, 0x4C, 0x18])
    case MTK => StartsWith(buf, [0x88, 0x16, 0x88, 0x58])
    case DTB => StartsWith(buf, [0xD0, 0x0D, 0xFE, 0xED])
    case DHTB => StartsWith(buf, Ascii("DHTB") + [1, 0, 0, 0])
    case BLOB => StartsWith(buf, Ascii("-SIGNED-BY-SIGNBLOB-"))
    case _ => false
  }

  lemma FirstByte(buf: bytes, p: bytes)
    requires p != [] && StartsWith(buf, p)
    ensures buf[0] == p[0]
  {
    assert buf[..|p|][0] == p[0];
  }

  /** A signature is told by its first byte; only gzip's and LZ4's two share a format. */
  lemma SignedFirst(f: Fmt, buf: bytes)
    requires Signed(f, buf)
    ensures buf != [] && buf[0] in FirstBytes(f)
  {
    match f
    case CHROMEOS => FirstByte(buf, Ascii("CHROMEOS"));
    case AOSP => FirstByte(buf, Ascii("ANDROID!"));
    case AOSP_VENDOR => FirstByte(buf, Ascii("VNDRBOOT"));
    case GZIP => if StartsWith(buf, [0x1F, 0x8B]) { FirstByte(buf, [0x1F, 0x8B]); } else { FirstByte(buf, [0x1F, 0x9E]); }
    case LZOP => FirstByte(buf, [0x89] + Ascii("LZO"));
    case XZ => FirstByte(buf, [0xFD] + Ascii("7zXZ"));
    case LZMA => FirstByte(buf, [0x5D, 0, 0]);
    case BZIP2 => FirstByte(buf, Ascii("BZh"));
    case LZ4 =>
      if StartsWith(buf, [3, 0x21, 0x4C, 0x18]) { FirstByte(buf, [3, 0x21, 0x4C, 0x18]); }
      else { FirstByte(buf, [4, 0x22, 0x4D, 0x18]); }
    case LZ4_LEGACY => FirstByte(buf, [2, 0x21, 0x4C, 0x18]);
    case MTK => FirstByte(buf, [0x88, 0x16, 0x88, 0x58]);
    case DTB => FirstByte(buf, [0xD0, 0x0D, 0xFE, 0xED]);
    case DHTB => FirstByte(buf, Ascii("DHTB") + [1, 0, 0, 0]);
    case BLOB => FirstByte(buf, Ascii("-SIGNED-BY-SIGNBLOB-"));
  }

  function FirstBytes(f: Fmt): set<int> {
    match f
    case CHROMEOS => {0x43} case AOSP => {0x41} case AOSP_VENDOR => {0x56} case GZIP => {0x1F}
    case LZOP => {0x89} case XZ => {0xFD} case LZMA => {0x5D} case BZIP2 => {0x42} case LZ4 => {3, 4}
    case LZ4_LEGACY => {2} case MTK => {0x88} case DTB => {0xD0} case DHTB => {0x44} case BLOB => {0x2D}
    case _ => {}
  }

  lemma MagicsAreSignatures()
    ensures BOOT_MAGIC == Ascii("ANDROID!") && VENDOR_BOOT_MAGIC == Ascii("VNDRBOOT") && CHROMEOS_MAGIC == Ascii("CHROMEOS")
    ensures LZOP_MAGIC == [0x89] + Ascii("LZO") && XZ_MAGIC == [0xFD] + Ascii("7zXZ") && BZIP_MAGIC == Ascii("BZh")
    ensures DHTB_MAGIC == Ascii("DHTB") + [1, 0, 0, 0]
  {
  }

  lemma ThreeBytes(buf: bytes)
    ensures StartsWith(buf, [0x5D, 0, 0]) <==> |buf| >= 3 && buf[..3] == [0x5D, 0x00, 0x00]
  {
  }

  /** What `check_fmt` answers has the signature it answers for. */
  lemma AnswerIsSigned(buf: bytes)
    ensures CheckFmt(buf) in {UNKNOWN, ZIMAGE} || Signed(CheckFmt(buf), buf)
    ensures CheckFmt(buf) in {UNKNOWN, ZIMAGE} ==> forall f :: !Signed(f, buf)
  {
    hide Ascii, StartsWith;
    MagicsAreSignatures();
    ThreeBytes(buf);
  }

  /** Without a signature, only the magic at byte 36 is left to be recognised. */
  lemma ZImageByMagic(buf: bytes)
    requires CheckFmt(buf) in {UNKNOWN, ZIMAGE}
    ensures CheckFmt(buf) == ZIMAGE
       <==> |buf| >= 40 && buf[36] == 0x18 && buf[37] == 0x28 && buf[38] == 0x6F && buf[39] == 1
  {
    hide StartsWith, Ascii;
    if |buf| >= 40 { assert buf[36..40] == [buf[36], buf[37], buf[38], buf[39]]; }
  }

  /**
   * Main result: the order of the questions does not matter. A buffer is taken for a format exactly
   * when it starts with one of its signatures; for a zImage when its magic stands at byte 36 and no
   * other signature at the start; and for nothing known otherwise.
   */
  lemma FormatIsSignature(buf: bytes, f: Fmt)
    ensures f != ZIMAGE && f != UNKNOWN ==> (CheckFmt(buf) == f <==> Signed(f, buf))
    ensures CheckFmt(buf) == ZIMAGE
       <==> (forall g :: !Signed(g, buf)) && |buf| >= 40 && buf[36] == 0x18 && buf[37] == 0x28 && buf[38] == 0x6F && buf[39] == 1
  {
    hide Signed, CheckFmt;
    AnswerIsSigned(buf);
    if Signed(f, buf) { SignedFirst(f, buf); }
    if CheckFmt(buf) in {UNKNOWN, ZIMAGE} { ZImageByMagic(buf); } else { SignedFirst(CheckFmt(buf), buf); }
  }

  /** `COMPRESSED` and `COMPRESSED_ANY`: the formats between GZIP and LZOP. */
  predicate Compressed(f: Fmt) {
    f in {GZIP, ZOPFLI, XZ, LZMA, BZIP2, LZ4, LZ4_LEGACY, LZ4_LG}
  }

  predicate CompressedAny(f: Fmt) {
    Compressed(f) || f == LZOP
  }

  /** How the walk over legacy LZ4 blocks ends: past the last block, in a block that overruns, or never. */
  datatype Chain = Ends | Overruns | Circles

  /** Behind the block at `off`, in the 32 bits of the code's sum. */
  function NextBlock(buf: bytes, off: nat): nat
    requires off + 4 <= |buf|
  {
    (off + 4 + ReadLE32(buf, off)) % U32
  }

  /** The loop goes round once more at `off`. */
  predicate StepsOn(buf: bytes, off: nat) {
    off + 4 <= |buf| && NextBlock(buf, off) <= |buf|
  }

  function Unseen(buf: bytes, seen: set<int>): set<int> {
    set n | 0 <= n <= |buf| && n !in seen
  }

  /**
   * The walk of `check_fmt_lg` from `off` on, after the offsets in `seen`. A sum that wraps leads
   * back, and a walk that comes to an offset again goes round for ever.
   */
  function Walk(buf: bytes, off: nat, seen: set<int>): Chain
    decreases Unseen(buf, seen)
  {
    if off + 4 > |buf| then Ends
    else if NextBlock(buf, off) > |buf| then Overruns
    else if off in seen then Circles
    else
      assert off in Unseen(buf, seen) && off !in Unseen(buf, seen + {off});
      Walk(buf, NextBlock(buf, off), seen + {off})
  }

  /** Where the loop stands after `n` turns; none once it is left. */
  function After(buf: bytes, off: nat, n: nat): Option<nat>
    decreases n
  {
    if n == 0 then Some(off)
    else if StepsOn(buf, off) then After(buf, NextBlock(buf, off), n - 1)
    else None
  }

  /** Offsets that lead on to one another, or to `off`. */
  predicate LeadTo(buf: bytes, seen: set<int>, off: nat) {
    forall x: nat | x in seen :: StepsOn(buf, x) && (NextBlock(buf, x) in seen || NextBlock(buf, x) == off)
  }

  /** Offsets that lead on to one another only. */
  predicate Closed(buf: bytes, all: set<int>) {
    forall x: nat | x in all :: StepsOn(buf, x) && NextBlock(buf, x) in all
  }

  lemma OneLess(buf: bytes, off: nat, seen: set<int>)
    requires off <= |buf| && off !in seen
    ensures Unseen(buf, seen + {off}) < Unseen(buf, seen)
  {
    assert off in Unseen(buf, seen) && off !in Unseen(buf, seen + {off});
  }

  lemma {:induction false} CirclesClosed(buf: bytes, off: nat, seen: set<int>) returns (all: set<int>)
    requires Walk(buf, off, seen) == Circles && LeadTo(buf, seen, off)
    ensures seen + {off} <= all && Closed(buf, all)
    decreases Unseen(buf, seen)
  {
    hide NextBlock, Unseen;
    all := seen;
    if off !in seen {
      OneLess(buf, off, seen);
      assert LeadTo(buf, seen + {off}, NextBlock(buf, off));
      all := CirclesClosed(buf, NextBlock(buf, off), seen + {off});
    }
  }

  lemma {:induction false} ClosedGoesOn(buf: bytes, off: nat, all: set<int>, n: nat)
    requires off in all && Closed(buf, all)
    ensures After(buf, off, n).Some?
    decreases n
  {
    if n > 0 { ClosedGoesOn(buf, NextBlock(buf, off), all, n - 1); }
  }

  lemma {:induction false} LeftAfter(buf: bytes, off: nat, seen: set<int>) returns (n: nat)
    requires Walk(buf, off, seen) != Circles
    ensures After(buf, off, n).None?
    decreases Unseen(buf, seen)
  {
    if StepsOn(buf, off) {
      OneLess(buf, off, seen);
      n := LeftAfter(buf, NextBlock(buf, off), seen + {off});
      n := n + 1;
    } else {
      n := 1;
    }
  }

  /** The loop of `check_fmt_lg` is left after some number of turns exactly when its walk does not circle. */
  lemma WalkIsLeft(buf: bytes, off: nat)
    ensures Walk(buf, off, {}) != Circles <==> exists n: nat :: After(buf, off, n).None?
  {
    if Walk(buf, off, {}) == Circles {
      var all := CirclesClosed(buf, off, {});
      forall n: nat ensures After(buf, off, n).Some? { ClosedGoesOn(buf, off, all, n); }
    } else {
      var n := LeftAfter(buf, off, {});
    }
  }

  /** A block of 2^32 - 4 bytes leads back to its own size word. */
  lemma BlockThatLeadsBack()
    ensures Walk(LZ4_LEG_MAGIC + [0xFC, 0xFF, 0xFF, 0xFF], 4, {}) == Circles
  {
    var buf := LZ4_LEG_MAGIC + [0xFC, 0xFF, 0xFF, 0xFF];
    assert ReadLE32(buf, 4) == 0xFFFF_FFFC;
    assert NextBlock(buf, 4) == 4;
  }

  /** `check_fmt_lg`: a legacy LZ4 stream whose last block would overrun ends in a size, as LG's do. */
  function CheckFmtLg(buf: bytes): Fmt {
    var fmt := CheckFmt(buf);
    if fmt == LZ4_LEGACY && Walk(buf, 4, {}) == Overruns then LZ4_LG else fmt
  }

  /** The same walk as a loop over the running offset, which is left exactly when the walk does not circle. */
  method DetectFmtLg(buf: bytes) returns (fmt: Fmt)
    requires CheckFmt(buf) == LZ4_LEGACY ==> Walk(buf, 4, {}) != Circles
    ensures fmt == CheckFmtLg(buf)
  {
    fmt := CheckFmt(buf);
    if fmt == LZ4_LEGACY {
      var off: nat := 4;
      ghost var seen: set<int> := {};
      while off + 4 <= |buf|
        invariant Walk(buf, off, seen) == Walk(buf, 4, {})
        decreases Unseen(buf, seen)
      {
        var blockSize := ReadLE32(buf, off);
        ghost var here := off;
        off := off + 4;
        if (off + blockSize) % U32 > |buf| { return LZ4_LG; }
        off := (off + blockSize) % U32;
        OneLess(buf, here, seen);
        seen := seen + {here};
      }
    }
  }
}
