/** What a parsed, expanded or flashed sparse image contains. */
module SparseImageProofs {
  import opened Bytes
  import opened SparseImages

  // ----- parsing a laid-out image

  function HeaderBytes(h: Header): (b: bytes)
    ensures |b| == FILE_HEADER
  {
    [0x26, 0xED] + LE16(h.major) + LE16(h.minor) + LE16(h.fileHeaderSize) + LE16(h.chunkHeaderSize)
    + LE32(h.blockSize) + LE32(h.totalBlocks) + LE32(h.totalChunks) + LE32(h.checksum)
  }

  function HeadBytes(c: Chunk): (b: bytes)
    requires |c.data| + CHUNK_HEADER < U32
    ensures |b| == CHUNK_HEADER
  {
    LE16(c.kind) + LE16(c.reserved) + LE32(c.blocks) + LE32(|c.data| + CHUNK_HEADER)
  }

  predicate Layable(chunks: seq<Chunk>) {
    forall k :: 0 <= k < |chunks| ==> chunks[k].dataSize == |chunks[k].data| < 0x7FFF_0000
  }

  /** Chunk after chunk: head and data. */
  function ChunkBytes(chunks: seq<Chunk>): bytes
    requires Layable(chunks)
  {
    if chunks == [] then [] else HeadBytes(chunks[0]) + chunks[0].data + ChunkBytes(chunks[1..])
  }

  lemma Words16(s: bytes, at: nat, n: u16)
    requires Holds(s, at, LE16(n))
    ensures at + 2 <= |s| && ReadLE16(s, at) == n
  {
    HoldsPointwise(s, at, LE16(n));
    assert s[at] == LE16(n)[0] && s[at + 1] == LE16(n)[1];
  }

  lemma HeadParses(s: bytes, at: nat, c: Chunk, h: Header)
    requires |c.data| == c.dataSize < 0x7FFF_0000 && h.chunkHeaderSize == CHUNK_HEADER && Holds(s, at, HeadBytes(c))
    ensures at + CHUNK_HEADER <= |s| && ChunkHead(s, at, h) == c.(data := [])
  {
    hide LE16, LE32, ReadLE16, ReadLE32, Holds;
    var a, b, d, e := LE16(c.kind), LE16(c.reserved), LE32(c.blocks), LE32(|c.data| + CHUNK_HEADER);
    HoldsConcat(s, at, a + b + d, e);
    HoldsConcat(s, at, a + b, d);
    HoldsConcat(s, at, a, b);
    Words16(s, at, c.kind);
    Words16(s, at + 2, c.reserved);
    WordHeld(s, at + 4, c.blocks);
    WordHeld(s, at + 8, |c.data| + CHUNK_HEADER);
  }

  /** Chunks in front of chunks that are read. */
  function InFront(chunks: seq<Chunk>, more: Option<seq<Chunk>>): Option<seq<Chunk>> {
    if more.None? then None else Some(chunks + more.value)
  }

  lemma OneChunkParses(s: bytes, at: nat, c: Chunk, h: Header, n: nat)
    requires |c.data| == c.dataSize < 0x7FFF_0000 && |s| < 0x8000_0000 && h.chunkHeaderSize == CHUNK_HEADER
    requires Holds(s, at, HeadBytes(c)) && Holds(s, at + CHUNK_HEADER, c.data)
    ensures ParseChunks(s, h, at, n + 1) == InFront([c], ParseChunks(s, h, at + CHUNK_HEADER + |c.data|, n))
  {
    HeadParses(s, at, c, h);
    DataParses(s, at + CHUNK_HEADER, c);
    hide HeadBytes, Holds, ChunkHead, WithData;
  }

  /** Chunks are read one after the other, and reading goes on behind them. */
  lemma {:induction false} ChunksParse(s: bytes, at: nat, chunks: seq<Chunk>, h: Header, n: nat)
    requires Layable(chunks) && Holds(s, at, ChunkBytes(chunks)) && |s| < 0x8000_0000 && h.chunkHeaderSize == CHUNK_HEADER
    ensures ParseChunks(s, h, at, |chunks| + n) == InFront(chunks, ParseChunks(s, h, at + |ChunkBytes(chunks)|, n))
    decreases chunks
  {
    hide HeadBytes, Holds, ParseChunks;
    if chunks == [] {
      NothingAhead(ParseChunks(s, h, at, n));
    } else {
      var c, rest := chunks[0], ChunkBytes(chunks[1..]);
      HoldsConcat(s, at, HeadBytes(c) + c.data, rest);
      HoldsConcat(s, at, HeadBytes(c), c.data);
      OneChunkParses(s, at, c, h, |chunks| - 1 + n);
      ChunksParse(s, at + CHUNK_HEADER + |c.data|, chunks[1..], h, n);
      OneAhead(chunks, ParseChunks(s, h, at + |ChunkBytes(chunks)|, n));
    }
  }

  lemma NothingAhead(more: Option<seq<Chunk>>)
    ensures more.Some? ==> [] + more.value == more.value
  {
  }

  lemma OneAhead(chunks: seq<Chunk>, more: Option<seq<Chunk>>)
    requires chunks != []
    ensures more.Some? ==> [chunks[0]] + (chunks[1..] + more.value) == chunks + more.value
  {
  }

  lemma DataParses(s: bytes, at: nat, c: Chunk)
    requires |c.data| == c.dataSize < 0x7FFF_0000 && Holds(s, at, c.data) && |s| < 0x8000_0000
    ensures at <= |s| && WithData(s, at, c.(data := [])) == (c, at + |c.data|)
  {
  }

  /**
   * Main result for the parser: an image laid out with the header sizes of this format is read back
   * as it was, field by field and chunk by chunk, whatever follows it.
   */
  lemma LaidOutImageParses(m: Image, rest: bytes)
    requires m.h.fileHeaderSize == FILE_HEADER && m.h.chunkHeaderSize == CHUNK_HEADER && m.h.totalChunks == |m.chunks|
    requires Layable(m.chunks) && |HeaderBytes(m.h) + ChunkBytes(m.chunks) + rest| < 0x8000_0000
    ensures Parse(HeaderBytes(m.h) + ChunkBytes(m.chunks) + rest) == Some(m)
  {
    hide HeaderBytes, ChunkBytes, ParseHeader, ParseChunks, Holds;
    var s, h, c := HeaderBytes(m.h) + ChunkBytes(m.chunks) + rest, HeaderBytes(m.h), ChunkBytes(m.chunks);
    HoldsMiddle([], h, c + rest);
    assert [] + h + (c + rest) == s;
    HoldsMiddle(h, c, rest);
    HeaderParses(s, m.h);
    ChunksParse(s, FILE_HEADER, m.chunks, m.h, 0);
    NoMoreChunks(s, m.h, FILE_HEADER + |c|);
    assert m.chunks + [] == m.chunks;
  }

  /** An image that ends inside the data of its last chunk: the chunk is read, with its size and no data at all. */
  lemma CutOffImageParses(h: Header, chunks: seq<Chunk>, last: Chunk, part: bytes)
    requires h.fileHeaderSize == FILE_HEADER && h.chunkHeaderSize == CHUNK_HEADER && h.totalChunks == |chunks| + 1
    requires Layable(chunks) && last.dataSize == |last.data| < 0x7FFF_0000 && |part| < |last.data|
    requires |HeaderBytes(h) + ChunkBytes(chunks) + HeadBytes(last)| + |last.data| < 0x8000_0000
    ensures Parse(HeaderBytes(h) + ChunkBytes(chunks) + HeadBytes(last) + part) == Some(Image(h, chunks + [last.(data := [])]))
  {
    hide HeaderBytes, ChunkBytes, HeadBytes, ParseHeader, Holds, ParseChunks;
    var a, b, c := HeaderBytes(h), ChunkBytes(chunks), HeadBytes(last);
    var s := a + b + c + part;
    HoldsMiddle([], a, b + c + part);
    assert [] + a + (b + c + part) == s;
    HoldsMiddle(a, b, c + part);
    assert a + b + (c + part) == s;
    HoldsMiddle(a + b, c, part);
    HeaderParses(s, h);
    LastChunkParses(s, |a + b|, last, h);
    ChunksParse(s, FILE_HEADER, chunks, h, 1);
  }

  lemma LastChunkParses(s: bytes, at: nat, last: Chunk, h: Header)
    requires last.dataSize == |last.data| < 0x7FFF_0000 && h.chunkHeaderSize == CHUNK_HEADER
    requires Holds(s, at, HeadBytes(last)) && |s| < at + CHUNK_HEADER + |last.data| < 0x8000_0000
    ensures ParseChunks(s, h, at, 1) == Some([last.(data := [])])
  {
    HeadParses(s, at, last, h);
    NoDataYet(s, at + CHUNK_HEADER, last.(data := []));
    NoMoreChunks(s, h, at + CHUNK_HEADER);
    OneMoreChunk(s, h, at, 0);
    assert [last.(data := [])] + [] == [last.(data := [])];
  }

  lemma OneMoreChunk(s: bytes, h: Header, at: nat, n: nat)
    requires at + CHUNK_HEADER <= |s| && h.chunkHeaderSize == CHUNK_HEADER
    ensures var (chunk, next) := WithData(s, at + CHUNK_HEADER, ChunkHead(s, at, h));
            ParseChunks(s, h, at, n + 1) == InFront([chunk], ParseChunks(s, h, next, n))
  {
    hide ChunkHead, WithData;
  }

  lemma NoDataYet(s: bytes, from: nat, c: Chunk)
    requires from <= |s| < from + c.dataSize < 0x8000_0000
    ensures WithData(s, from, c) == (c, from)
  {
  }

  lemma NoMoreChunks(s: bytes, h: Header, at: int)
    ensures ParseChunks(s, h, at, 0) == Some([])
  {
  }

  lemma MagicBytes()
    ensures LE16(MAGIC) == [0x26, 0xED]
  {
  }

  lemma HeaderParses(s: bytes, h: Header)
    requires Holds(s, 0, HeaderBytes(h))
    ensures ParseHeader(s) == Some(h)
  {
    hide LE16, LE32, ReadLE16, ReadLE32, Holds;
    var shorts := LE16(MAGIC) + LE16(h.major) + LE16(h.minor) + LE16(h.fileHeaderSize) + LE16(h.chunkHeaderSize);
    var longs := LE32(h.blockSize) + LE32(h.totalBlocks) + LE32(h.totalChunks) + LE32(h.checksum);
    MagicBytes();
    assert HeaderBytes(h) == shorts + longs;
    HoldsConcat(s, 0, shorts, longs);
    ShortsParse(s, h);
    LongsParse(s, h);
  }

  lemma ShortsParse(s: bytes, h: Header)
    requires Holds(s, 0, LE16(MAGIC) + LE16(h.major) + LE16(h.minor) + LE16(h.fileHeaderSize) + LE16(h.chunkHeaderSize))
    ensures |s| >= 10 && ReadLE16(s, 0) == MAGIC && ReadLE16(s, 2) == h.major && ReadLE16(s, 4) == h.minor
    ensures ReadLE16(s, 6) == h.fileHeaderSize && ReadLE16(s, 8) == h.chunkHeaderSize
  {
    hide LE16, ReadLE16, Holds;
    var a, b, c, d, e := LE16(MAGIC), LE16(h.major), LE16(h.minor), LE16(h.fileHeaderSize), LE16(h.chunkHeaderSize);
    HoldsConcat(s, 0, a + b + c + d, e);
    HoldsConcat(s, 0, a + b + c, d);
    HoldsConcat(s, 0, a + b, c);
    HoldsConcat(s, 0, a, b);
    Words16(s, 0, MAGIC);
    Words16(s, 2, h.major);
    Words16(s, 4, h.minor);
    Words16(s, 6, h.fileHeaderSize);
    Words16(s, 8, h.chunkHeaderSize);
  }

  lemma LongsParse(s: bytes, h: Header)
    requires Holds(s, 10, LE32(h.blockSize) + LE32(h.totalBlocks) + LE32(h.totalChunks) + LE32(h.checksum))
    ensures |s| >= 26 && ReadLE32(s, 10) == h.blockSize && ReadLE32(s, 14) == h.totalBlocks
    ensures ReadLE32(s, 18) == h.totalChunks && ReadLE32(s, 22) == h.checksum
  {
    hide LE32, ReadLE32, Holds;
    var a, b, c, d := LE32(h.blockSize), LE32(h.totalBlocks), LE32(h.totalChunks), LE32(h.checksum);
    HoldsConcat(s, 10, a + b + c, d);
    HoldsConcat(s, 10, a + b, c);
    HoldsConcat(s, 10, a, b);
    WordHeld(s, 10, h.blockSize);
    WordHeld(s, 14, h.totalBlocks);
    WordHeld(s, 18, h.totalChunks);
    WordHeld(s, 22, h.checksum);
  }

  /** Only the first sixteen bits are compared: an image that starts with the 32-bit magic 0xED26FF3A is refused. */
  lemma LongMagicRefused(s: bytes)
    requires StartsWith(s, [0x3A, 0xFF, 0x26, 0xED])
    ensures Parse(s).None?
  {
    assert s[..4][0] == s[0] && s[..4][1] == s[1];
  }

  // ----- where chunks land

  function SumBlocks(chunks: seq<Chunk>): nat {
    if chunks == [] then 0 else SumBlocks(chunks[..|chunks| - 1]) + chunks[|chunks| - 1].blocks
  }

  /** How far a chunk moves the write position. */
  function Advance(c: Chunk, blockSize: u32): nat {
    if c.kind == 0xCAC1 then |c.data| else if c.kind == 0xCAC2 then c.dataSize else if c.kind == 0xCAC3 then c.blocks * blockSize else 0
  }

  function Position(chunks: seq<Chunk>, blockSize: u32): nat {
    if chunks == [] then 0 else Position(chunks[..|chunks| - 1], blockSize) + Advance(chunks[|chunks| - 1], blockSize)
  }

  lemma PlaceAdvances(c: Chunk, blockSize: u32, raw: bytes, offset: u64)
    requires Place(c, blockSize, raw, offset).Some?
    ensures Place(c, blockSize, raw, offset).value.1 == (offset + Advance(c, blockSize)) % U64
  {
    hide FillFrom, Overwrite, Int32;
  }

  lemma ModuloSum(a: nat, b: nat)
    ensures (a % U64 + b) % U64 == (a + b) % U64
  {
    assert a == a / U64 * U64 + a % U64;
  }

  /** The position after any placed chunks is the sum of their advances. */
  lemma {:induction false} PositionReached(chunks: seq<Chunk>, blockSize: u32, raw: bytes)
    requires PlaceAll(chunks, blockSize, raw).Some?
    ensures PlaceAll(chunks, blockSize, raw).value.1 == Position(chunks, blockSize) % U64
    decreases |chunks|
  {
    hide Place, Advance;
    if chunks != [] {
      var init, last := chunks[..|chunks| - 1], chunks[|chunks| - 1];
      var before := PlaceAll(init, blockSize, raw).value;
      PositionReached(init, blockSize, raw);
      PlaceAdvances(last, blockSize, before.0, before.1);
      ModuloSum(Position(init, blockSize), Advance(last, blockSize));
    }
  }

  /** Where the chunks before `k` end: by their data, and by the blocks they declare. */
  predicate StandsByBlocks(chunks: seq<Chunk>, blockSize: u32, k: nat)
    requires k <= |chunks|
  {
    Position(chunks[..k], blockSize) == blockSize * SumBlocks(chunks[..k])
  }

  predicate MovesByBlocks(c: Chunk, blockSize: u32) {
    Advance(c, blockSize) == blockSize * c.blocks
  }

  lemma PositionStep(chunks: seq<Chunk>, blockSize: u32, k: nat)
    requires k < |chunks|
    ensures StandsByBlocks(chunks, blockSize, 0)
    ensures StandsByBlocks(chunks, blockSize, k) ==> (StandsByBlocks(chunks, blockSize, k + 1) <==> MovesByBlocks(chunks[k], blockSize))
  {
    hide Advance;
    assert chunks[..k + 1][..k] == chunks[..k];
    var n, b := SumBlocks(chunks[..k]), chunks[k].blocks;
    assert blockSize * (n + b) == blockSize * n + blockSize * b;
  }

  lemma {:induction false} AllStand(chunks: seq<Chunk>, blockSize: u32, k: nat)
    requires k <= |chunks| && forall i :: 0 <= i < |chunks| ==> MovesByBlocks(chunks[i], blockSize)
    ensures StandsByBlocks(chunks, blockSize, k)
    decreases k
  {
    hide MovesByBlocks, Position, SumBlocks;
    if k > 0 {
      hide StandsByBlocks;
      AllStand(chunks, blockSize, k - 1);
      PositionStep(chunks, blockSize, k - 1);
    } else {
      NothingStands(chunks, blockSize);
    }
  }

  lemma NothingStands(chunks: seq<Chunk>, blockSize: u32)
    ensures StandsByBlocks(chunks, blockSize, 0)
  {
    assert chunks[..0] == [];
  }

  /**
   * Chunks stand at the block size times the number of blocks before them, for every chunk and at the
   * end, exactly when every chunk moves the position by the blocks it declares.
   */
  lemma PlacedByBlocks(chunks: seq<Chunk>, blockSize: u32)
    ensures (forall k :: 0 <= k <= |chunks| ==> StandsByBlocks(chunks, blockSize, k))
       <==> (forall k :: 0 <= k < |chunks| ==> MovesByBlocks(chunks[k], blockSize))
  {
    hide MovesByBlocks, StandsByBlocks;
    if forall k :: 0 <= k <= |chunks| ==> StandsByBlocks(chunks, blockSize, k) {
      forall k | 0 <= k < |chunks| ensures MovesByBlocks(chunks[k], blockSize) {
        PositionStep(chunks, blockSize, k);
        assert StandsByBlocks(chunks, blockSize, k) && StandsByBlocks(chunks, blockSize, k + 1);
      }
    }
    if forall k :: 0 <= k < |chunks| ==> MovesByBlocks(chunks[k], blockSize) {
      forall k | 0 <= k <= |chunks| ensures StandsByBlocks(chunks, blockSize, k) { AllStand(chunks, blockSize, k); }
    }
  }

  /** A fill chunk for one block that carries its four-byte pattern and nothing else. */
  lemma FillByPatternMovesShort()
    ensures !MovesByBlocks(Chunk(FILL, 0, 1, 4, [1, 2, 3, 4]), 4096)
  {
  }

  // ----- the expanded image

  function Repeated(p: bytes, n: nat): (r: bytes)
    ensures |r| == n * |p|
  {
    if n == 0 then [] else p + Repeated(p, n - 1)
  }

  /** Data as long as the blocks declared, and a whole number of patterns in a fill chunk. */
  predicate WellSized(c: Chunk, blockSize: u32) {
    && (c.kind == 0xCAC1 ==> |c.data| == c.dataSize == c.blocks * blockSize)
    && (c.kind == 0xCAC2 ==> |c.data| >= 4 && c.dataSize == c.blocks * blockSize && c.dataSize % 4 == 0)
    && (c.kind !in {0xCAC1, 0xCAC2, 0xCAC3} ==> c.blocks == 0)
  }

  function Expansion(c: Chunk, blockSize: u32): (r: bytes)
    requires WellSized(c, blockSize)
    ensures |r| == c.blocks * blockSize
  {
    if c.kind == 0xCAC1 then c.data
    else if c.kind == 0xCAC2 then Repeated(c.data[..4], c.dataSize / 4)
    else Zeros(c.blocks * blockSize)
  }

  predicate AllWellSized(chunks: seq<Chunk>, blockSize: u32) {
    forall k :: 0 <= k < |chunks| ==> WellSized(chunks[k], blockSize)
  }

  function Expanded(chunks: seq<Chunk>, blockSize: u32): bytes
    requires AllWellSized(chunks, blockSize)
  {
    if chunks == [] then []
    else Expanded(chunks[..|chunks| - 1], blockSize) + Expansion(chunks[|chunks| - 1], blockSize)
  }

  lemma {:induction false} ExpandedLength(chunks: seq<Chunk>, blockSize: u32)
    requires AllWellSized(chunks, blockSize)
    ensures |Expanded(chunks, blockSize)| == blockSize * SumBlocks(chunks)
    decreases |chunks|
  {
    hide WellSized, Expansion;
    if chunks != [] {
      var init, last := chunks[..|chunks| - 1], chunks[|chunks| - 1];
      ExpandedLength(init, blockSize);
      assert blockSize * SumBlocks(chunks) == blockSize * SumBlocks(init) + blockSize * last.blocks;
    }
  }

  lemma FillStep(raw: bytes, p: bytes, at: nat, i: nat, size: nat)
    requires |p| == 4 && i + 4 <= size && at + size <= |raw| < 0x8000_0000
    ensures FillFrom(raw, p, at, i, size) == FillFrom(Overwrite(raw, at + i, p), p, at, i + 4, size)
  {
    hide Overwrite;
    assert Int32(at + i) == at + i;
  }

  lemma FillEnds(raw: bytes, p: bytes, at: nat, i: nat)
    ensures FillFrom(raw, p, at, i, i) == Some(raw)
  {
  }

  /** The fill loop writes whole patterns one after the other. */
  lemma {:induction false} FillRepeats(raw: bytes, p: bytes, at: nat, i: nat, n: nat)
    requires |p| == 4 && at + i + 4 * n <= |raw| < 0x8000_0000
    ensures |Repeated(p, n)| == 4 * n
    ensures FillFrom(raw, p, at, i, i + 4 * n) == Some(Overwrite(raw, at + i, Repeated(p, n)))
    decreases n
  {
    hide Overwrite, FillFrom;
    if n == 0 {
      FillEnds(raw, p, at, i);
      OverwriteNothing(raw, at + i);
    } else {
      FillStep(raw, p, at, i, i + 4 * n);
      FillRepeats(Overwrite(raw, at + i, p), p, at, i + 4, n - 1);
      OverwriteTwice(raw, at + i, p, Repeated(p, n - 1));
    }
  }

  lemma OverwriteTwice(raw: bytes, at: nat, a: bytes, b: bytes)
    requires at + |a| + |b| <= |raw|
    ensures Overwrite(Overwrite(raw, at, a), at + |a|, b) == Overwrite(raw, at, a + b)
  {
  }

  lemma DataPlaced(c: Chunk, blockSize: u32, before: bytes, n: nat)
    requires c.kind == 0xCAC1 && |c.data| <= n && |before| + n < 0x8000_0000
    ensures Place(c, blockSize, before + Zeros(n), |before|) == Some((before + c.data + Zeros(n - |c.data|), |before| + |c.data|))
  {
    hide Overwrite;
    OverwriteZeros(before, c.data, n);
  }

  lemma PatternPlaced(c: Chunk, blockSize: u32, before: bytes, n: nat)
    requires c.kind == 0xCAC2 && |c.data| >= 4 && c.dataSize % 4 == 0 && c.dataSize <= n && |before| + n < 0x8000_0000
    ensures Place(c, blockSize, before + Zeros(n), |before|)
         == Some((before + Repeated(c.data[..4], c.dataSize / 4) + Zeros(n - c.dataSize), |before| + c.dataSize))
  {
    hide FillFrom, Repeated;
    FillPlaced(c.data, before, c.dataSize, n);
    assert Pattern(c) == c.data[..4];
  }

  lemma GapPlaced(c: Chunk, blockSize: u32, before: bytes, size: nat, n: nat)
    requires c.kind !in {0xCAC1, 0xCAC2} && size == (if c.kind == 0xCAC3 then c.blocks * blockSize else 0)
    requires size <= n && |before| + n < 0x8000_0000
    ensures Place(c, blockSize, before + Zeros(n), |before|) == Some((before + Zeros(size) + Zeros(n - size), |before| + size))
  {
    SkippedZeros(before, size, n);
  }

  /** One chunk after the ones before it, into zeros. */
  lemma ChunkPlaced(c: Chunk, blockSize: u32, before: bytes, n: nat)
    requires WellSized(c, blockSize) && c.blocks * blockSize <= n && |before| + n < 0x8000_0000
    ensures Place(c, blockSize, before + Zeros(n), |before|)
         == Some((before + Expansion(c, blockSize) + Zeros(n - c.blocks * blockSize), |before| + c.blocks * blockSize))
  {
    hide Place, Repeated;
    if c.kind == 0xCAC1 {
      DataPlaced(c, blockSize, before, n);
    } else if c.kind == 0xCAC2 {
      PatternPlaced(c, blockSize, before, n);
    } else {
      GapPlaced(c, blockSize, before, c.blocks * blockSize, n);
    }
  }

  lemma FillPlaced(data: bytes, before: bytes, size: nat, n: nat)
    requires |data| >= 4 && size % 4 == 0 && size <= n && |before| + n < 0x8000_0000
    ensures FillFrom(before + Zeros(n), data[..4], |before|, 0, size) == Some(before + Repeated(data[..4], size / 4) + Zeros(n - size))
  {
    hide Overwrite, FillFrom, Repeated;
    FillRepeats(before + Zeros(n), data[..4], |before|, 0, size / 4);
    OverwriteZeros(before, Repeated(data[..4], size / 4), n);
  }

  lemma SkippedZeros(before: bytes, size: nat, n: nat)
    requires size <= n
    ensures before + Zeros(n) == before + Zeros(size) + Zeros(n - size)
  {
  }

  lemma OverwriteZeros(before: bytes, x: bytes, n: nat)
    requires |x| <= n
    ensures Overwrite(before + Zeros(n), |before|, x) == before + x + Zeros(n - |x|)
  {
  }

  lemma {:induction false} AllPlaced(chunks: seq<Chunk>, blockSize: u32, n: nat)
    requires AllWellSized(chunks, blockSize) && |Expanded(chunks, blockSize)| <= n < 0x8000_0000
    ensures var e := Expanded(chunks, blockSize);
            PlaceAll(chunks, blockSize, Zeros(n)) == Some((e + Zeros(n - |e|), |e|))
    decreases |chunks|
  {
    hide Place, WellSized, Expansion;
    if chunks == [] {
      assert [] + Zeros(n) == Zeros(n);
    } else {
      var init, last := chunks[..|chunks| - 1], chunks[|chunks| - 1];
      AllPlaced(init, blockSize, n);
      var before := Expanded(init, blockSize);
      ChunkPlaced(last, blockSize, before, n - |before|);
    }
  }

  /** Everything declared fits the image, and the image a 32-bit array. */
  predicate Fits(m: Image) {
    && AllWellSized(m.chunks, m.h.blockSize) && SumBlocks(m.chunks) <= m.h.totalBlocks
    && m.h.totalBlocks * m.h.blockSize < 0x8000_0000
  }

  lemma RoomForAll(m: Image)
    requires Fits(m)
    ensures RawSize(m.h) == m.h.totalBlocks * m.h.blockSize
    ensures |Expanded(m.chunks, m.h.blockSize)| <= RawSize(m.h)
  {
    hide Expanded, WellSized;
    ExpandedLength(m.chunks, m.h.blockSize);
    assert m.h.blockSize * SumBlocks(m.chunks) <= m.h.blockSize * m.h.totalBlocks;
  }

  /** Main result: expanding never throws, gives the chunks' contents one after the other, and zeros to the declared size. */
  lemma RawImageIs(m: Image)
    requires Fits(m)
    ensures var e := Expanded(m.chunks, m.h.blockSize);
            |e| <= RawSize(m.h) && ToRaw(m) == Some(e + Zeros(RawSize(m.h) - |e|))
  {
    hide Expanded, PlaceAll, WellSized;
    RoomForAll(m);
    AllPlaced(m.chunks, m.h.blockSize, RawSize(m.h));
  }

  lemma {:induction false} ExpandedHolds(chunks: seq<Chunk>, blockSize: u32, rest: bytes, k: nat)
    requires AllWellSized(chunks, blockSize) && k < |chunks|
    ensures Holds(Expanded(chunks, blockSize) + rest, blockSize * SumBlocks(chunks[..k]), Expansion(chunks[k], blockSize))
    decreases |chunks|
  {
    hide WellSized, Expansion, Holds;
    var init, last := chunks[..|chunks| - 1], chunks[|chunks| - 1];
    var x := Expansion(last, blockSize);
    if k < |init| {
      ExpandedHolds(init, blockSize, x + rest, k);
      assert init[..k] == chunks[..k];
      assert Expanded(init, blockSize) + (x + rest) == Expanded(chunks, blockSize) + rest;
    } else {
      ExpandedLength(init, blockSize);
      HoldsMiddle(Expanded(init, blockSize), x, rest);
    }
  }

  /** Chunk `k`'s contents stand at the block size times the blocks before it. */
  lemma ChunkStandsAt(m: Image, k: nat)
    requires Fits(m) && k < |m.chunks|
    ensures ToRaw(m).Some?
    ensures Holds(ToRaw(m).value, m.h.blockSize * SumBlocks(m.chunks[..k]), Expansion(m.chunks[k], m.h.blockSize))
  {
    hide Expanded, ToRaw, WellSized, Expansion, Holds;
    RawImageIs(m);
    ExpandedHolds(m.chunks, m.h.blockSize, Zeros(RawSize(m.h) - |Expanded(m.chunks, m.h.blockSize)|), k);
  }

  // ----- what is flashed

  function JoinedData(sent: seq<Transfer>): bytes {
    if sent == [] then [] else JoinedData(sent[..|sent| - 1]) + sent[|sent| - 1].data
  }

  /** An image with the ranges of its DontCare chunks cut out. */
  function Kept(chunks: seq<Chunk>, blockSize: u32, raw: bytes): bytes
    requires blockSize * SumBlocks(chunks) <= |raw|
  {
    if chunks == [] then []
    else
      var init, last := chunks[..|chunks| - 1], chunks[|chunks| - 1];
      assert blockSize * SumBlocks(chunks) == blockSize * SumBlocks(init) + blockSize * last.blocks;
      Kept(init, blockSize, raw)
      + if last.kind == 0xCAC3 then [] else raw[blockSize * SumBlocks(init)..blockSize * SumBlocks(chunks)]
  }

  /** The data of one chunk, behind an announcement of its length. */
  lemma TransferIsExpansion(c: Chunk, blockSize: u32)
    requires WellSized(c, blockSize) && c.blocks * blockSize < 0x8000_0000
    ensures TransferOf(c) == Some(if c.kind == 0xCAC1 || c.kind == 0xCAC2 then [Transfer(c.blocks * blockSize, Expansion(c, blockSize))] else [])
  {
    hide FillFrom, Overwrite, Repeated;
    if c.kind == 0xCAC2 {
      assert Pattern(c) == c.data[..4];
      FillRepeats(Zeros(c.dataSize), c.data[..4], 0, 0, c.dataSize / 4);
      OverwriteZeros([], Expansion(c, blockSize), c.dataSize);
      assert [] + Zeros(c.dataSize) == Zeros(c.dataSize);
      assert [] + Expansion(c, blockSize) + Zeros(0) == Expansion(c, blockSize);
    }
  }

  lemma JoinedSnoc(sent: seq<Transfer>, t: Transfer)
    ensures JoinedData(sent + [t]) == JoinedData(sent) + t.data
  {
    assert (sent + [t])[..|sent|] == sent;
  }

  predicate Announced(sent: seq<Transfer>) {
    forall k :: 0 <= k < |sent| ==> sent[k].announced == |sent[k].data|
  }

  lemma KeptSnoc(chunks: seq<Chunk>, blockSize: u32, raw: bytes, rest: bytes)
    requires AllWellSized(chunks, blockSize) && raw == Expanded(chunks, blockSize) + rest && chunks != []
    ensures var init, last := chunks[..|chunks| - 1], chunks[|chunks| - 1];
            && blockSize * SumBlocks(init) <= blockSize * SumBlocks(chunks) <= |raw|
            && Kept(chunks, blockSize, raw) == Kept(init, blockSize, raw) + if last.kind == 0xCAC3 then [] else Expansion(last, blockSize)
  {
    hide WellSized, Expansion;
    var init, last := chunks[..|chunks| - 1], chunks[|chunks| - 1];
    ExpandedLength(chunks, blockSize);
    ExpandedLength(init, blockSize);
    assert raw[|Expanded(init, blockSize)|..|Expanded(chunks, blockSize)|] == Expansion(last, blockSize);
  }

  lemma {:induction false} FlashedSoFar(chunks: seq<Chunk>, blockSize: u32, raw: bytes, rest: bytes)
    requires AllWellSized(chunks, blockSize) && raw == Expanded(chunks, blockSize) + rest && |raw| < 0x8000_0000
    ensures blockSize * SumBlocks(chunks) <= |raw|
    ensures Flash(chunks).Some? && Announced(Flash(chunks).value)
    ensures JoinedData(Flash(chunks).value) == Kept(chunks, blockSize, raw)
    decreases |chunks|
  {
    hide WellSized, Expansion, TransferOf, JoinedData;
    if chunks == [] {
      NothingSent();
    } else {
      hide Kept;
      var init, last := chunks[..|chunks| - 1], chunks[|chunks| - 1];
      var x := Expansion(last, blockSize);
      assert Expanded(chunks, blockSize) + rest == Expanded(init, blockSize) + (x + rest);
      FlashedSoFar(init, blockSize, raw, x + rest);
      KeptSnoc(chunks, blockSize, raw, rest);
      hide SumBlocks, Expanded;
      TransferIsExpansion(last, blockSize);
      var sent := Flash(init).value;
      assert sent + [] == sent;
      if last.kind in {0xCAC1, 0xCAC2} {
        JoinedSnoc(sent, Transfer(last.blocks * blockSize, x));
      } else if last.kind != 0xCAC3 {
        NothingElse(last, blockSize);
      }
    }
  }

  lemma NothingSent()
    ensures JoinedData([]) == []
  {
  }

  lemma NothingElse(c: Chunk, blockSize: u32)
    requires WellSized(c, blockSize) && c.kind !in {0xCAC1, 0xCAC2, 0xCAC3}
    ensures Expansion(c, blockSize) == []
  {
  }

  /** Main result for flashing: what is sent, each piece behind its length, is the expanded image without its DontCare ranges. */
  lemma FlashSendsImage(m: Image)
    requires Fits(m)
    ensures ToRaw(m).Some? && m.h.blockSize * SumBlocks(m.chunks) <= |ToRaw(m).value|
    ensures Flash(m.chunks).Some? && Announced(Flash(m.chunks).value)
    ensures JoinedData(Flash(m.chunks).value) == Kept(m.chunks, m.h.blockSize, ToRaw(m).value)
  {
    hide Expanded, ToRaw, Flash, Kept, WellSized, Announced;
    RawImageIs(m);
    RoomForAll(m);
    ExpandedLength(m.chunks, m.h.blockSize);
    FlashedSoFar(m.chunks, m.h.blockSize, ToRaw(m).value, Zeros(RawSize(m.h) - |Expanded(m.chunks, m.h.blockSize)|));
  }
}
