/**
 * Inside the kernel block: an MTK header, a zImage wrapper, the kernel proper, the end of the
 * zImage and an appended device tree. `parse_image` takes them apart, `repack` writes them again.
 */
module BootKernel {
  import opened Bytes
  import opened Format

  const MTK_HDR_SIZE := 512
  const FDT_HEADER_SIZE := 40
  const GZIP_PIGGY: bytes := GZIP1_MAGIC + [0x08, 0x00]

  function BigWord(img: bytes, at: nat): u32 {
    if at + 4 <= |img| then ReadBE32(img, at) else 0
  }

  function Sub32(a: u32, b: u32): (r: u32)
    ensures b <= a ==> r == a - b
  {
    (a - b) % U32
  }

  /** `memmem` in `n` bytes from `at`, looking from offset `from` on. */
  function FindIn(img: bytes, at: nat, n: nat, from: nat, piece: bytes): (r: Option<nat>)
    ensures r.Some? ==> from <= r.value && r.value + |piece| <= n
    decreases n - from
  {
    if from + |piece| > n then None
    else if MatchAt(img, at + from, piece) then Some(from)
    else FindIn(img, at, n, from + 1, piece)
  }

  /** A device tree at `curr` whose sizes stay inside and whose first node begins. */
  predicate IsFdt(img: bytes, at: nat, sz: nat, curr: nat)
    requires curr <= sz
  {
    var total, struct := BigWord(img, at + curr + 4), BigWord(img, at + curr + 8);
    total <= sz - curr && struct <= sz - curr && BigWord(img, at + curr + struct) == 1
  }

  /** `find_dtb_offset`: a rejected candidate is stepped over by a whole header. */
  function FindDtb(img: bytes, at: nat, sz: nat, from: nat): (r: Option<nat>)
    ensures r.Some? ==> r.value + 4 <= sz
    decreases sz - from
  {
    if from >= sz then None
    else
      match FindIn(img, at, sz, from, DTB_MAGIC)
      case None => None
      case Some(curr) => if IsFdt(img, at, sz, curr) then Some(curr) else FindDtb(img, at, sz, curr + FDT_HEADER_SIZE)
  }

  predicate StandsIn(img: bytes, at: nat, n: nat, piece: bytes, j: nat) {
    j + |piece| <= n && MatchAt(img, at + j, piece)
  }

  /** Whether the magic of a device tree stands at `j`. */
  predicate HasDtbMagic(img: bytes, at: nat, sz: nat, j: nat) {
    StandsIn(img, at, sz, DTB_MAGIC, j)
  }

  /** A tree at `j` that the search does not see: a magic at most a header's length before it was rejected. */
  predicate Shadowed(img: bytes, at: nat, sz: nat, from: nat, j: nat)
    requires j <= sz
  {
    exists q :: from <= q < j && j < q + 40 && HasDtbMagic(img, at, sz, q) && !IsFdt(img, at, sz, q)
  }

  /** The first place of a piece: it stands there and nowhere before. */
  lemma {:induction false} FindInFirst(img: bytes, at: nat, n: nat, from: nat, piece: bytes)
    ensures var r := FindIn(img, at, n, from, piece);
            && (r.Some? ==> StandsIn(img, at, n, piece, r.value))
            && (forall j :: from <= j && (r.None? || j < r.value) ==> !StandsIn(img, at, n, piece, j))
    decreases n - from
  {
    hide MatchAt;
    if from + |piece| <= n && !MatchAt(img, at + from, piece) { FindInFirst(img, at, n, from + 1, piece); }
  }

  /**
   * What the search finds: a magic with plausible sizes behind it; and every plausible tree before
   * it, or anywhere when it finds none, stands less than a header behind a rejected magic.
   */
  lemma {:induction false} FindDtbFinds(img: bytes, at: nat, sz: nat, from: nat)
    ensures var r := FindDtb(img, at, sz, from);
            && (r.Some? ==> from <= r.value <= sz && HasDtbMagic(img, at, sz, r.value) && IsFdt(img, at, sz, r.value))
            && (forall j :: from <= j <= sz && (r.None? || j < r.value) && HasDtbMagic(img, at, sz, j) && IsFdt(img, at, sz, j)
                  ==> Shadowed(img, at, sz, from, j))
    decreases sz - from
  {
    hide FindIn, IsFdt, MatchAt;
    if from < sz {
      FindInFirst(img, at, sz, from, DTB_MAGIC);
      var hit := FindIn(img, at, sz, from, DTB_MAGIC);
      if hit.Some? && !IsFdt(img, at, sz, hit.value) {
        var next, r := hit.value + FDT_HEADER_SIZE, FindDtb(img, at, sz, from);
        FindDtbFinds(img, at, sz, next);
        forall j | from <= j <= sz && (r.None? || j < r.value) && HasDtbMagic(img, at, sz, j) && IsFdt(img, at, sz, j)
          ensures Shadowed(img, at, sz, from, j)
        {
          if j >= next {
            var q :| next <= q < j && j < q + 40 && HasDtbMagic(img, at, sz, q) && !IsFdt(img, at, sz, q);
            assert from <= q;
          } else {
            assert HasDtbMagic(img, at, sz, hit.value);
          }
        }
      }
    }
  }

  /** A rejected magic with a device tree eight bytes behind it. */
  const REJECTED_THEN_TREE: bytes := DTB_MAGIC + [0xFF, 0xFF, 0xFF, 0xFF]
                                     + DTB_MAGIC + [0, 0, 0, 16, 0, 0, 0, 12, 0, 0, 0, 1]

  lemma TreeNotSeen()
    ensures var img := REJECTED_THEN_TREE;
            HasDtbMagic(img, 0, |img|, 8) && IsFdt(img, 0, |img|, 8) && FindDtb(img, 0, |img|, 0) == None
  {
    var img := REJECTED_THEN_TREE;
    assert |img| == 24;
    assert img[0..4] == DTB_MAGIC && img[8..12] == DTB_MAGIC;
    assert BigWord(img, 4) == 0xFFFF_FFFF && BigWord(img, 12) == 16 && BigWord(img, 16) == 12 && BigWord(img, 20) == 1;
    assert FindIn(img, 0, 24, 0, DTB_MAGIC) == Some(0);
    assert FindDtb(img, 0, 24, 40) == None;
  }

  method FindDtbOffset(img: bytes, at: nat, sz: nat) returns (r: Option<nat>)
    ensures r == FindDtb(img, at, sz, 0)
    ensures r.Some? ==> r.value <= sz && HasDtbMagic(img, at, sz, r.value) && IsFdt(img, at, sz, r.value)
    ensures forall j: nat :: j <= sz && (r.None? || j < r.value) && HasDtbMagic(img, at, sz, j) && IsFdt(img, at, sz, j)
              ==> Shadowed(img, at, sz, 0, j)
  {
    hide FindIn, IsFdt, HasDtbMagic, Shadowed;
    FindDtbFinds(img, at, sz, 0);
    var curr := 0;
    while curr < sz
      invariant FindDtb(img, at, sz, curr) == FindDtb(img, at, sz, 0)
      decreases sz - curr
    {
      var hit := FindIn(img, at, sz, curr, DTB_MAGIC);
      if hit.None? { return None; }
      curr := hit.value;
      if IsFdt(img, at, sz, curr) { return Some(curr); }
      curr := curr + FDT_HEADER_SIZE;
    }
    return None;
  }

  /**
   * The kernel as parsed. Sizes are 32-bit and wrap as the code's do; `hdrSize` and `tailSize`
   * count only with `zImage`.
   */
  datatype Kernel = Kernel(at: nat, size: u32, fmt: Fmt, mtk: bool, zImage: bool, hdrSize: nat, tailAt: nat, tailSize: u32,
                           dtbAt: nat, dtbSize: nat)

  function CutDtb(img: bytes, at: nat, size: u32): Kernel {
    var dtb := FindDtb(img, at, size, 0);
    var n := if dtb.Some? && dtb.value > 0 then dtb.value else size;
    Kernel(at, n, CheckFmtLgAt(img, at, n), false, false, 0, 0, 0, at + n, size - n)
  }

  function CheckFmtLgAt(img: bytes, at: nat, n: nat): Fmt {
    CheckFmtLg(Slice(img, at, n))
  }

  function CutMtk(img: bytes, k: Kernel): Kernel {
    if k.fmt != MTK then k
    else
      var at, n := k.at + MTK_HDR_SIZE, Sub32(k.size, MTK_HDR_SIZE);
      k.(at := at, size := n, fmt := CheckFmtLgAt(img, at, n), mtk := true)
  }

  /** The last of the sixteen words before the end that lies in the final 255 bytes of the zImage. */
  function PiggyEnd(img: bytes, at: nat, zSize: u32, i: nat): Option<u32>
    requires i <= 16
  {
    if i == 0 then None
    else
      var w := Word(img, at + zSize - 64 + 4 * (i - 1));
      if w > Sub32(zSize, 0xFF) && w < zSize then Some(w) else PiggyEnd(img, at, zSize, i - 1)
  }

  function CutZImage(img: bytes, k: Kernel): Kernel {
    if k.fmt != ZIMAGE then k
    else
      match FindIn(img, k.at, k.size, 0, GZIP_PIGGY)
      case None => k
      case Some(hdrSize) =>
        var zSize := Sub32(Word(img, k.at + 44), Word(img, k.at + 40));
        match PiggyEnd(img, k.at, zSize, 16)
        case None => k
        case Some(end) =>
          var at, n := k.at + hdrSize, Sub32(end, hdrSize);
          k.(at := at, size := n, fmt := CheckFmtLgAt(img, at, n), zImage := true, hdrSize := hdrSize,
             tailAt := k.at + end, tailSize := Sub32(k.size, end))
  }

  /** The kernel part of `parse_image`, for a block of `size` bytes at `at`. */
  function ParseKernel(img: bytes, at: nat, size: u32): Kernel {
    if size == 0 then Kernel(at, 0, UNKNOWN, false, false, 0, 0, 0, at, 0)
    else CutZImage(img, CutMtk(img, CutDtb(img, at, size)))
  }

  /** Sizes nest: nothing was cut from a part too small for it. */
  predicate Nested(img: bytes, at: nat, size: u32) {
    size == 0 ||
    var d := CutDtb(img, at, size);
    var m := CutMtk(img, d);
    var z := CutZImage(img, m);
    && (m.mtk ==> d.size >= MTK_HDR_SIZE)
    && (z.zImage ==> z.tailAt <= m.at + m.size && z.at <= z.tailAt)
  }

  function Total(k: Kernel): nat {
    (if k.mtk then MTK_HDR_SIZE else 0) + (if k.zImage then k.hdrSize else 0) + k.size
    + (if k.zImage then k.tailSize else 0) + k.dtbSize
  }

  /** The parts add up to the block exactly when they nest; otherwise a 32-bit size has wrapped. */
  lemma PartsPartition(img: bytes, at: nat, size: u32)
    ensures Total(ParseKernel(img, at, size)) == size <==> Nested(img, at, size)
  {
    hide FindDtb, FindIn, PiggyEnd, CheckFmtLgAt, Word;
  }

  // ----- where each part is cut

  /** Behind a magic with its two sizes, a device tree is plausible when both stay in the block and a node begins at the second. */
  lemma TreeByItsBytes(img: bytes, at: nat, size: nat, j: nat, total: u32, first: u32)
    requires j + 4 <= size && Holds(img, at + j, [0xD0, 0x0D, 0xFE, 0xED] + BE32(total) + BE32(first))
    ensures HasDtbMagic(img, at, size, j)
    ensures IsFdt(img, at, size, j)
       <==> total <= size - j && first <= size - j && Holds(img, at + j + first, [0, 0, 0, 1])
  {
    hide BE32, ReadBE32;
    HoldsConcat(img, at + j, [0xD0, 0x0D, 0xFE, 0xED] + BE32(total), BE32(first));
    HoldsConcat(img, at + j, [0xD0, 0x0D, 0xFE, 0xED], BE32(total));
    BigWordHeld(img, at + j + 4, total);
    BigWordHeld(img, at + j + 8, first);
    BigOne(img, at + j + first);
  }

  lemma BigWordHeld(img: bytes, at: nat, n: u32)
    requires Holds(img, at, BE32(n))
    ensures BigWord(img, at) == n
  {
    ReadBE32OfBE32(n);
    HoldsPointwise(img, at, BE32(n));
    assert forall i :: 0 <= i < 4 ==> img[at + i] == BE32(n)[i];
  }

  lemma BigOne(img: bytes, at: nat)
    ensures BigWord(img, at) == 1 <==> Holds(img, at, [0, 0, 0, 1])
  {
    HoldsPointwise(img, at, [0, 0, 0, 1]);
    if at + 4 <= |img| {
      assert forall i :: 0 <= i < 4 ==> [0, 0, 0, 1][i] == if i == 3 then 1 else 0;
    }
  }

  predicate Tree(img: bytes, at: nat, size: nat, j: nat) {
    j <= size && HasDtbMagic(img, at, size, j) && IsFdt(img, at, size, j)
  }

  /** The first tree of the block, with every magic that was rejected before it a whole header away. */
  predicate FirstTree(img: bytes, at: nat, size: nat, j: nat) {
    && Tree(img, at, size, j)
    && forall i: nat :: i < j && HasDtbMagic(img, at, size, i) ==> !Tree(img, at, size, i) && i + 40 <= j
  }

  lemma FirstTreeFound(img: bytes, at: nat, size: u32, j: nat)
    requires FirstTree(img, at, size, j)
    ensures FindDtb(img, at, size, 0) == Some(j)
  {
    hide IsFdt, MatchAt;
    FindDtbFinds(img, at, size, 0);
  }

  /** Main result: the first tree is cut off where it begins, to the end of the block. */
  lemma TreeIsCutOff(img: bytes, at: nat, size: u32, j: nat)
    requires j > 0 && FirstTree(img, at, size, j)
    ensures var k := ParseKernel(img, at, size); k.dtbAt == at + j && k.dtbSize == size - j
  {
    hide FindDtb, FindIn, PiggyEnd, CheckFmtLgAt, Word, FirstTree;
    FirstTreeFound(img, at, size, j);
    assert size > 0 by { TreeInside(img, at, size, j); }
  }

  lemma TreeInside(img: bytes, at: nat, size: nat, j: nat)
    requires FirstTree(img, at, size, j)
    ensures j + 4 <= size
  {
  }

  /** What is cut off is such a tree; and nothing is where there is none, or where one begins the block. */
  lemma CutOffIsTree(img: bytes, at: nat, size: u32)
    ensures var k := ParseKernel(img, at, size);
            && k.dtbAt + k.dtbSize == at + size
            && (k.dtbSize > 0 ==> 0 < k.dtbAt - at && Tree(img, at, size, k.dtbAt - at))
            && ((forall j: nat :: j > 0 ==> !Tree(img, at, size, j)) || FirstTree(img, at, size, 0) ==> k.dtbSize == 0)
  {
    hide FindIn, PiggyEnd, CheckFmtLgAt, Word, IsFdt, HasDtbMagic, Shadowed;
    if size > 0 {
      CutKeepsTree(img, at, size);
      FindDtbFinds(img, at, size, 0);
      if FirstTree(img, at, size, 0) { FirstTreeFound(img, at, size, 0); }
    }
  }

  lemma CutKeepsTree(img: bytes, at: nat, size: u32)
    requires size > 0
    ensures var k, d := ParseKernel(img, at, size), CutDtb(img, at, size);
            k.dtbAt == d.dtbAt && k.dtbSize == d.dtbSize
  {
    hide FindDtb, FindIn, PiggyEnd, CheckFmtLgAt, Word;
  }

  /** Main result: an MTK header is cut off exactly when its magic begins the block, and nothing else is before the kernel then. */
  lemma MtkIsCutOff(img: bytes, at: nat, size: u32)
    requires size > 0
    ensures var k := ParseKernel(img, at, size);
            && (k.mtk <==> StartsWith(Slice(img, at, k.dtbAt - at), [0x88, 0x16, 0x88, 0x58]))
            && (!k.zImage ==> k.at == at + MtkPart(k) && (k.mtk ==> k.size == Sub32(k.dtbAt - at, MTK_HDR_SIZE))
                                                       && (!k.mtk ==> k.size == k.dtbAt - at))
  {
    hide FindDtb, FindIn, PiggyEnd, Word, Slice, StartsWith, CheckFmtLg;
    MtkBySignature(Slice(img, at, CutDtb(img, at, size).size));
    CutKeepsTree(img, at, size);
  }

  lemma MtkBySignature(block: bytes)
    ensures CheckFmtLg(block) == MTK <==> StartsWith(block, [0x88, 0x16, 0x88, 0x58])
    ensures CheckFmtLg(block) == ZIMAGE <==> CheckFmt(block) == ZIMAGE
  {
    hide CheckFmt, StartsWith;
    FormatIsSignature(block, MTK);
  }

  /** The difference of the zImage's end and start, which are its words at 44 and 40. */
  predicate EndsPiggy(img: bytes, z: nat, i: nat, end: u32) {
    var zSize := (Word(img, z + 44) - Word(img, z + 40)) % U32;
    i < 16 && Word(img, z + zSize - 64 + 4 * i) == end < zSize && (zSize - 255) % U32 < end
  }

  /** The `n`-th of the sixteen words ends the piggy and none behind it does, up to the `i`-th. */
  ghost predicate LastToEnd(img: bytes, z: nat, n: nat, i: nat, end: u32) {
    EndsPiggy(img, z, n, end) && forall m: nat, e :: n < m < i ==> !EndsPiggy(img, z, m, e)
  }

  lemma {:induction false} PiggyEndIsLast(img: bytes, z: nat, zSize: u32, i: nat)
    requires i <= 16 && zSize == (Word(img, z + 44) - Word(img, z + 40)) % U32
    ensures var r := PiggyEnd(img, z, zSize, i);
            && (r.Some? ==> exists n: nat :: n < i && LastToEnd(img, z, n, i, r.value))
            && (r.None? ==> forall m: nat, e :: m < i ==> !EndsPiggy(img, z, m, e))
    decreases i
  {
    hide Word;
    if i > 0 {
      var w := Word(img, z + zSize - 64 + 4 * (i - 1));
      if EndsPiggy(img, z, i - 1, w) {
        assert LastToEnd(img, z, i - 1, i, w);
      } else {
        PiggyEndIsLast(img, z, zSize, i - 1);
        var r := PiggyEnd(img, z, zSize, i - 1);
        if r.Some? {
          var n: nat :| n < i - 1 && LastToEnd(img, z, n, i - 1, r.value);
          assert LastToEnd(img, z, n, i, r.value);
        }
      }
    }
  }

  /** Header, compressed kernel and tail of a zImage in the `n` bytes at `z`. */
  ghost predicate ZImageParts(img: bytes, z: nat, n: nat, k: Kernel) {
    && StandsIn(img, z, n, [0x1F, 0x8B, 0x08, 0x00], k.hdrSize) && k.at == z + k.hdrSize
    && (forall h: nat :: h < k.hdrSize ==> !StandsIn(img, z, n, [0x1F, 0x8B, 0x08, 0x00], h))
    && exists i: nat, end: u32 :: LastToEnd(img, z, i, 16, end) && k.tailAt == z + end
                                  && k.size == (end - k.hdrSize) % U32 && k.tailSize == (n - end) % U32
  }

  lemma ZImageOf(img: bytes, m: Kernel)
    requires !m.zImage
    ensures var k := CutZImage(img, m);
            && (k.zImage <==> m.fmt == ZIMAGE && (exists h: nat :: StandsIn(img, m.at, m.size, [0x1F, 0x8B, 0x08, 0x00], h))
                              && exists i: nat, end: u32 :: EndsPiggy(img, m.at, i, end))
            && (k.zImage ==> ZImageParts(img, m.at, m.size, k))
            && (!k.zImage ==> k == m)
  {
    hide FindIn, PiggyEnd, Word, StandsIn, CheckFmtLgAt;
    var zSize := Sub32(Word(img, m.at + 44), Word(img, m.at + 40));
    FindInFirst(img, m.at, m.size, 0, GZIP_PIGGY);
    PiggyEndIsLast(img, m.at, zSize, 16);
    assert GZIP_PIGGY == [0x1F, 0x8B, 0x08, 0x00];
  }

  /**
   * Main result: a zImage is taken apart exactly when its magic is in the block, a compressed kernel
   * begins somewhere in it and one of the sixteen words before its end can end that kernel; the kernel
   * begins at the first such place and ends at the last such word.
   */
  lemma ZImageIsCutOff(img: bytes, at: nat, size: u32)
    requires size > 0
    ensures var k := ParseKernel(img, at, size);
            var z, n := at + MtkPart(k), (k.dtbAt - at - MtkPart(k)) % U32;
            && (k.zImage <==> CheckFmt(Slice(img, z, n)) == ZIMAGE && (exists h: nat :: StandsIn(img, z, n, [0x1F, 0x8B, 0x08, 0x00], h))
                              && exists i: nat, end: u32 :: EndsPiggy(img, z, i, end))
            && (k.zImage ==> ZImageParts(img, z, n, k))
            && (!k.zImage ==> k.at == z && k.size == n)
  {
    hide FindDtb, Slice, CutZImage, ZImageParts, StandsIn, EndsPiggy, CheckFmtLg;
    var d := CutDtb(img, at, size);
    var m := CutMtk(img, d);
    ZImageOf(img, m);
    MtkBySignature(Slice(img, m.at, m.size));
    KeepsOthers(img, m);
  }

  lemma KeepsOthers(img: bytes, m: Kernel)
    ensures var k := CutZImage(img, m);
            k.mtk == m.mtk && k.dtbAt == m.dtbAt && k.dtbSize == m.dtbSize
  {
    hide FindIn, PiggyEnd, Word, CheckFmtLgAt;
  }

  // ----- writing it again

  datatype Codec = Codec(compress: (Fmt, bytes) -> bytes, decompress: (Fmt, bytes) -> bytes)

  /** A file as `repack` writes it: compressed when the block was and the file is not. */
  function Written(c: Codec, skip: bool, fmt: Fmt, how: Fmt, file: bytes): bytes {
    if !skip && !CompressedAny(CheckFmt(file)) && Compressed(fmt) then c.compress(how, file) else file
  }

  /** A block's file as `unpack` leaves it: none for an empty block. */
  function Dumped(c: Codec, skip: bool, fmt: Fmt, block: bytes): Option<bytes> {
    if block == [] then None
    else if !skip && Compressed(fmt) then Some(c.decompress(fmt, block)) else Some(block)
  }

  /** zImage kernels are compressed with zopfli, which yields the same format. */
  function HowToCompress(k: Kernel): Fmt {
    if k.zImage && k.fmt == GZIP then ZOPFLI else k.fmt
  }

  /**
   * The kernel proper as written. Inside a zImage a result that is too large is replaced by the
   * original, and one that is smaller is padded so that it ends in the uncompressed size; no
   * padding of that kind exists for a result within the last four bytes.
   */
  function Body(c: Codec, skip: bool, img: bytes, k: Kernel, file: Option<bytes>): Option<bytes> {
    if file.None? then Some(Slice(img, k.at, k.size))
    else
      var w := Written(c, skip, k.fmt, HowToCompress(k), file.value);
      if !k.zImage then Some(w)
      else if |w| > k.size then Some(Slice(img, k.at, k.size))
      else if skip then Some(w)
      else if |w| + 4 <= k.size && |file.value| < U32 then Some(w + Zeros(k.size - |w| - 4) + LE32(|file.value|))
      else None
  }

  function KernelBytes(img: bytes, start: nat, k: Kernel, body: bytes, dtb: bytes): bytes {
    var z := start + if k.mtk then MTK_HDR_SIZE else 0;
    (if k.mtk then Slice(img, start, MTK_HDR_SIZE) else [])
    + (if k.zImage then Slice(img, z, k.hdrSize) else [])
    + body
    + (if k.zImage then Slice(img, k.tailAt, k.tailSize) else [])
    + dtb
  }

  /** `kernel_size` as `repack` adds it up, before the MTK header is counted in. */
  function KernelSizeSum(k: Kernel, body: bytes, dtb: bytes): nat {
    (if k.zImage then k.size + k.hdrSize + k.tailSize else |body|) + |dtb|
  }

  /** Consecutive slices join. */
  lemma SlicesJoin(img: bytes, at: nat, m: nat, n: nat)
    requires at + m + n <= |img|
    ensures Slice(img, at, m) + Slice(img, at + m, n) == Slice(img, at, m + n)
  {
  }

  /** Where the parts of a nested kernel stand. */
  lemma PartsInPlace(img: bytes, at: nat, size: u32)
    requires Nested(img, at, size)
    ensures var k := ParseKernel(img, at, size);
            && k.at == at + (if k.mtk then MTK_HDR_SIZE else 0) + (if k.zImage then k.hdrSize else 0)
            && (k.zImage ==> k.tailAt == k.at + k.size)
            && k.dtbAt == k.at + k.size + (if k.zImage then k.tailSize else 0)
            && k.dtbAt + k.dtbSize == at + size
  {
    hide FindDtb, FindIn, PiggyEnd, CheckFmtLgAt, Word;
  }

  /**
   * With the original kernel and device tree put back, the block is written byte for byte as it
   * was, and the sizes add up to its size.
   */
  lemma KernelRestored(img: bytes, at: nat, size: u32)
    requires Nested(img, at, size) && at + size <= |img|
    ensures var k := ParseKernel(img, at, size);
            var body, dtb := Slice(img, k.at, k.size), Slice(img, k.dtbAt, k.dtbSize);
            && KernelBytes(img, at, k, body, dtb) == Slice(img, at, size)
            && KernelSizeSum(k, body, dtb) + (if k.mtk then MTK_HDR_SIZE else 0) == size
  {
    hide ParseKernel, Nested, Slice, KernelBytes, KernelSizeSum;
    PartsInPlace(img, at, size);
    var k := ParseKernel(img, at, size);
    BytesAsSlices(img, at, k);
    FiveSlices(img, at, MtkPart(k), HeadPart(k), k.size, TailPart(k), k.dtbSize);
    SizesSum(img, at, size);
  }

  lemma SizesSum(img: bytes, at: nat, size: u32)
    requires Nested(img, at, size) && at + size <= |img|
    ensures var k := ParseKernel(img, at, size);
            KernelSizeSum(k, Slice(img, k.at, k.size), Slice(img, k.dtbAt, k.dtbSize)) + MtkPart(k) == size
  {
    hide ParseKernel, Nested, Slice;
    PartsInPlace(img, at, size);
    var k := ParseKernel(img, at, size);
    SliceLength(img, k.at, k.size);
    SliceLength(img, k.dtbAt, k.dtbSize);
  }

  function MtkPart(k: Kernel): nat { if k.mtk then MTK_HDR_SIZE else 0 }
  function HeadPart(k: Kernel): nat { if k.zImage then k.hdrSize else 0 }
  function TailPart(k: Kernel): nat { if k.zImage then k.tailSize else 0 }

  lemma BytesAsSlices(img: bytes, at: nat, k: Kernel)
    requires k.at == at + MtkPart(k) + HeadPart(k) && (k.zImage ==> k.tailAt == k.at + k.size)
    requires k.dtbAt == k.at + k.size + TailPart(k)
    ensures KernelBytes(img, at, k, Slice(img, k.at, k.size), Slice(img, k.dtbAt, k.dtbSize))
         == Slice(img, at, MtkPart(k)) + Slice(img, at + MtkPart(k), HeadPart(k)) + Slice(img, k.at, k.size)
            + Slice(img, k.at + k.size, TailPart(k)) + Slice(img, k.dtbAt, k.dtbSize)
  {
    EmptySlice(img, at);
    EmptySlice(img, at + MtkPart(k));
    EmptySlice(img, k.at + k.size);
    hide Slice;
  }

  lemma FiveSlices(img: bytes, at: nat, a: nat, b: nat, c: nat, d: nat, e: nat)
    requires at + a + b + c + d + e <= |img|
    ensures Slice(img, at, a) + Slice(img, at + a, b) + Slice(img, at + a + b, c) + Slice(img, at + a + b + c, d)
            + Slice(img, at + a + b + c + d, e)
         == Slice(img, at, a + b + c + d + e)
  {
    hide Slice;
    SlicesJoin(img, at, a, b);
    SlicesJoin(img, at, a + b, c);
    SlicesJoin(img, at, a + b + c, d);
    SlicesJoin(img, at, a + b + c + d, e);
  }

  lemma EmptySlice(img: bytes, at: nat)
    ensures Slice(img, at, 0) == []
  {
  }

  lemma SliceLength(img: bytes, at: nat, n: nat)
    requires at + n <= |img|
    ensures |Slice(img, at, n)| == n
  {
  }

  /**
   * Whatever file replaces the kernel of a zImage, its place keeps its size when the result is
   * written compressed, and a padded result ends in the uncompressed size; there is no result
   * exactly when the compressed kernel is within four bytes of the original without exceeding it.
   */
  lemma ZImageKeepsSize(c: Codec, img: bytes, k: Kernel, file: bytes)
    requires k.zImage && k.at + k.size <= |img| && |file| < U32
    ensures var w, b := Written(c, false, k.fmt, HowToCompress(k), file), Body(c, false, img, k, Some(file));
            && (b.None? <==> k.size < |w| + 4 && |w| <= k.size)
            && (b.Some? ==> |b.value| == k.size)
            && (b.Some? && |w| <= k.size ==> StartsWith(b.value, w) && EndsWith(b.value, LE32(|file|)))
            && (|w| > k.size ==> b == Some(Slice(img, k.at, k.size)))
  {
    hide Written, LE32;
    var w := Written(c, false, k.fmt, HowToCompress(k), file);
    if |w| + 4 <= k.size {
      var b := w + Zeros(k.size - |w| - 4) + LE32(|file|);
      assert b[..|w|] == w && b[|b| - 4..] == LE32(|file|);
    }
  }

  /** A file that is written as it is into a zImage and is shorter than the kernel there; nothing pads it. */
  predicate RawAndShorter(k: Kernel, skip: bool, file: Option<bytes>) {
    k.zImage && skip && file.Some? && |file.value| < k.size
  }

  lemma BodyFillsSlot(c: Codec, skip: bool, img: bytes, k: Kernel, file: Option<bytes>)
    requires k.zImage && k.at + k.size <= |img| && Body(c, skip, img, k, file).Some?
    ensures |Body(c, skip, img, k, file).value| == k.size <==> !RawAndShorter(k, skip, file)
  {
    hide LE32, CheckFmt;
  }

  /** Outside the kernel proper, a block of other content has the original's bytes. */
  predicate SameAround(img: bytes, at: nat, size: nat, k: Kernel, block: bytes) {
    && |block| == size && at + size <= |img|
    && forall i :: 0 <= i < size && !(k.at <= at + i < k.at + k.size) ==> block[i] == img[at + i]
  }

  /** What stands before and behind the kernel proper of a zImage. */
  function BeforeSlot(img: bytes, at: nat, k: Kernel): bytes {
    (if k.mtk then Slice(img, at, MTK_HDR_SIZE) else []) + Slice(img, at + MtkPart(k), k.hdrSize)
  }

  function BehindSlot(img: bytes, k: Kernel): bytes {
    Slice(img, k.tailAt, k.tailSize) + Slice(img, k.dtbAt, k.dtbSize)
  }

  lemma AroundSlot(img: bytes, at: nat, k: Kernel, body: bytes)
    requires k.zImage
    ensures KernelBytes(img, at, k, body, Slice(img, k.dtbAt, k.dtbSize)) == BeforeSlot(img, at, k) + body + BehindSlot(img, k)
  {
    hide Slice;
  }

  lemma SlotLength(img: bytes, at: nat, size: u32)
    requires Nested(img, at, size) && at + size <= |img| && ParseKernel(img, at, size).zImage
    ensures var k := ParseKernel(img, at, size);
            && k.at >= at && |BeforeSlot(img, at, k)| == k.at - at && k.at - at + k.size + |BehindSlot(img, k)| == size
            && KernelSizeSum(k, Slice(img, k.at, k.size), Slice(img, k.dtbAt, k.dtbSize)) == size - MtkPart(k)
            && |Slice(img, k.at, k.size)| == k.size
  {
    hide ParseKernel, Nested, Slice;
    var k := ParseKernel(img, at, size);
    PartsInPlace(img, at, size);
    SliceLength(img, k.at, k.size);
    SliceLength(img, k.dtbAt, k.dtbSize);
    SliceLength(img, at, MtkPart(k));
    SliceLength(img, at + MtkPart(k), HeadPart(k));
    SliceLength(img, k.tailAt, k.tailSize);
  }

  lemma SlotReplaced(img: bytes, at: nat, size: nat, before: bytes, was: bytes, now: bytes, after: bytes)
    requires |was| == |now| && at + size <= |img| && before + was + after == Slice(img, at, size)
    ensures |before + now + after| == size && Holds(before + now + after, |before|, now)
    ensures forall i :: 0 <= i < size && !(|before| <= i < |before| + |now|) ==> (before + now + after)[i] == img[at + i]
  {
    var first, second := before + was + after, before + now + after;
    forall i | 0 <= i < size && !(|before| <= i < |before| + |now|) ensures second[i] == img[at + i] {
      SliceByte(img, at, size, i);
      assert second[i] == first[i];
    }
    HoldsMiddle(before, now, after);
  }

  /**
   * Main result: whatever replaces the kernel of a zImage, if its place is filled, the zImage and the
   * whole block keep their sizes and every byte outside that place.
   */
  lemma ZImageBlockKept(img: bytes, at: nat, size: u32, body: bytes)
    requires Nested(img, at, size) && at + size <= |img|
    requires var k := ParseKernel(img, at, size); k.zImage && |body| == k.size
    ensures var k := ParseKernel(img, at, size);
            var dtb := Slice(img, k.dtbAt, k.dtbSize);
            && SameAround(img, at, size, k, KernelBytes(img, at, k, body, dtb))
            && KernelSizeSum(k, body, dtb) + (if k.mtk then MTK_HDR_SIZE else 0) == size
            && Holds(KernelBytes(img, at, k, body, dtb), k.at - at, body)
  {
    hide ParseKernel, Nested, Slice, KernelBytes, BeforeSlot, BehindSlot, Holds;
    var k := ParseKernel(img, at, size);
    var was := Slice(img, k.at, k.size);
    KernelRestored(img, at, size);
    SlotLength(img, at, size);
    AroundSlot(img, at, k, was);
    AroundSlot(img, at, k, body);
    SlotReplaced(img, at, size, BeforeSlot(img, at, k), was, body, BehindSlot(img, k));
  }

  lemma SliceByte(img: bytes, at: nat, n: nat, i: nat)
    requires at + n <= |img| && i < n
    ensures |Slice(img, at, n)| == n && Slice(img, at, n)[i] == img[at + i]
  {
  }

  /**
   * The same from the files: a block is written for every file but one that is compressed to within
   * the last four bytes, and the block's size stays exactly unless a shorter file is written raw.
   */
  lemma RecompressionKeepsBlock(c: Codec, skip: bool, img: bytes, at: nat, size: u32, file: Option<bytes>)
    requires Nested(img, at, size) && at + size <= |img| && ParseKernel(img, at, size).zImage
    requires Body(c, skip, img, ParseKernel(img, at, size), file).Some?
    ensures var k := ParseKernel(img, at, size);
            var body, dtb := Body(c, skip, img, k, file).value, Slice(img, k.dtbAt, k.dtbSize);
            && KernelSizeSum(k, body, dtb) + (if k.mtk then MTK_HDR_SIZE else 0) == size
            && (SameAround(img, at, size, k, KernelBytes(img, at, k, body, dtb)) <==> !RawAndShorter(k, skip, file))
  {
    hide ParseKernel, Nested, Slice, Body, KernelBytes, RawAndShorter;
    var k := ParseKernel(img, at, size);
    var body, dtb := Body(c, skip, img, k, file).value, Slice(img, k.dtbAt, k.dtbSize);
    PartsInPlace(img, at, size);
    BodyFillsSlot(c, skip, img, k, file);
    KernelRestored(img, at, size);
    SliceLength(img, at, size);
    SliceLength(img, k.at, k.size);
    LengthByBody(img, at, k, body, Slice(img, k.at, k.size), dtb);
    if |body| == k.size { ZImageBlockKept(img, at, size, body); }
  }

  lemma LengthByBody(img: bytes, at: nat, k: Kernel, a: bytes, b: bytes, dtb: bytes)
    ensures |KernelBytes(img, at, k, a, dtb)| - |a| == |KernelBytes(img, at, k, b, dtb)| - |b|
  {
  }

  /** A kernel of ten bytes and a file that compresses to eight: there is no room for the size word. */
  lemma NoRoomForSizeWord(img: bytes)
    ensures var k := Kernel(0, 10, GZIP, false, true, 0, 10, 0, 10, 0);
            Body(Codec((_, _) => Zeros(8), (_, x) => x), false, img, k, Some([])).None?
  {
  }

  /** A nested kernel block is as long as the sizes added up for it, but for the bytes a zImage body is short of its place. */
  lemma KernelBlockLength(img: bytes, at: nat, size: u32, body: bytes, dtb: bytes)
    requires Nested(img, at, size) && at + size <= |img|
    ensures var k := ParseKernel(img, at, size);
            |KernelBytes(img, at, k, body, dtb)| + (if k.zImage then k.size - |body| else 0)
              == KernelSizeSum(k, body, dtb) + if k.mtk then MTK_HDR_SIZE else 0
  {
    hide ParseKernel, Nested, Slice;
    var k := ParseKernel(img, at, size);
    PartsInPlace(img, at, size);
    SliceLength(img, at, MtkPart(k));
    SliceLength(img, at + MtkPart(k), HeadPart(k));
    if k.zImage { SliceLength(img, k.tailAt, k.tailSize); }
  }
}
