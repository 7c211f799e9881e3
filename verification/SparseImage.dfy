/**
 * Sparse images as `SparseImage` reads and expands them and `FlashSparseAsync` sends them: a header,
 * then chunks of raw data, of a repeated pattern, or of blocks to leave alone.
 */
module SparseImages {
  import opened Bytes

  type u16 = n: int | 0 <= n < 0x1_0000

  const MAGIC: u16 := 0xED26
  const RAW: u16 := 0xCAC1
  const FILL: u16 := 0xCAC2
  const DONT_CARE: u16 := 0xCAC3
  const FILE_HEADER := 26
  const CHUNK_HEADER := 12

  datatype Header = Header(
    major: u16, minor: u16, fileHeaderSize: u16, chunkHeaderSize: u16,
    blockSize: u32, totalBlocks: u32, totalChunks: u32, checksum: u32)

  datatype Chunk = Chunk(kind: u16, reserved: u16, blocks: u32, dataSize: u32, data: bytes)

  datatype Image = Image(h: Header, chunks: seq<Chunk>)

  function LE16(n: u16): (b: bytes)
    ensures |b| == 2
  {
    [n % 256, n / 256]
  }

  function ReadLE16(s: bytes, at: nat): u16
    requires at + 2 <= |s|
  {
    s[at] as int + 256 * (s[at + 1] as int)
  }

  // ----- parsing

  function ParseHeader(s: bytes): Option<Header> {
    if |s| < FILE_HEADER || ReadLE16(s, 0) != MAGIC then None
    else Some(Header(ReadLE16(s, 2), ReadLE16(s, 4), ReadLE16(s, 6), ReadLE16(s, 8),
                     ReadLE32(s, 10), ReadLE32(s, 14), ReadLE32(s, 18), ReadLE32(s, 22)))
  }

  /** The chunk at `offset`, without its data. */
  function ChunkHead(s: bytes, offset: nat, h: Header): Chunk
    requires offset + CHUNK_HEADER <= |s|
  {
    Chunk(ReadLE16(s, offset), ReadLE16(s, offset + 2), ReadLE32(s, offset + 4),
          (ReadLE32(s, offset + 8) - h.chunkHeaderSize) % U32, [])
  }

  /** The data behind a chunk's header is taken when it is all there; its size counts as a 32-bit number with sign. */
  function WithData(s: bytes, from: nat, c: Chunk): (r: (Chunk, int))
    requires from <= |s|
  {
    var size := Int32(c.dataSize);
    if c.dataSize > 0 && Int32(from + size) <= |s| then (c.(data := SkipTake(s, from, size)), Int32(from + size)) else (c, from)
  }

  /** Up to `n` bytes from `from` on. */
  function SkipTake(s: bytes, from: nat, n: int): bytes
    requires from <= |s|
  {
    if n <= 0 then [] else if from + n <= |s| then s[from..from + n] else s[from..]
  }

  /** The remaining chunks: they stop early where no header fits, and a header that runs out of bytes throws. */
  function ParseChunks(s: bytes, h: Header, offset: int, n: nat): Option<seq<Chunk>>
    decreases n
  {
    if n == 0 || offset + h.chunkHeaderSize > |s| then Some([])
    else if offset < 0 || offset + CHUNK_HEADER > |s| then None
    else
      var (chunk, next) := WithData(s, offset + h.chunkHeaderSize, ChunkHead(s, offset, h));
      var rest := ParseChunks(s, h, next, n - 1);
      if rest.None? then None else Some([chunk] + rest.value)
  }

  function Parse(s: bytes): Option<Image> {
    var h := ParseHeader(s);
    if h.None? then None
    else
      var chunks := ParseChunks(s, h.value, h.value.fileHeaderSize, h.value.totalChunks);
      if chunks.None? then None else Some(Image(h.value, chunks.value))
  }

  // ----- expanding

  /** The fill loop: the pattern at every fourth byte from `at` on; a copy that does not fit throws. */
  function FillFrom(raw: bytes, pattern: bytes, at: int, i: nat, size: nat): (r: Option<bytes>)
    ensures r.Some? ==> |r.value| == |raw|
    decreases size - i
  {
    if i >= size then Some(raw)
    else
      var p := Int32(at + i);
      if p < 0 || p + |pattern| > |raw| then None else FillFrom(Overwrite(raw, p, pattern), pattern, at, i + 4, size)
  }

  function Pattern(c: Chunk): (p: bytes)
    ensures |p| <= 4 && |p| <= |c.data|
  {
    if |c.data| <= 4 then c.data else c.data[..4]
  }

  function Place(c: Chunk, blockSize: u32, raw: bytes, offset: u64): (r: Option<(bytes, u64)>)
    ensures r.Some? ==> |r.value.0| == |raw|
  {
    var at := Int32(offset);
    if c.kind == RAW then
      if at < 0 || at + |c.data| > |raw| then None else Some((Overwrite(raw, at, c.data), (offset + |c.data|) % U64))
    else if c.kind == FILL then
      var filled := FillFrom(raw, Pattern(c), at, 0, c.dataSize);
      if filled.None? then None else Some((filled.value, (offset + c.dataSize) % U64))
    else if c.kind == DONT_CARE then Some((raw, (offset + c.blocks * blockSize) % U64))
    else Some((raw, offset))
  }

  function PlaceAll(chunks: seq<Chunk>, blockSize: u32, raw: bytes): (r: Option<(bytes, u64)>)
    ensures r.Some? ==> |r.value.0| == |raw|
  {
    if chunks == [] then Some((raw, 0))
    else
      var placed := PlaceAll(chunks[..|chunks| - 1], blockSize, raw);
      if placed.None? then None else Place(chunks[|chunks| - 1], blockSize, placed.value.0, placed.value.1)
  }

  function RawSize(h: Header): u32 {
    (h.totalBlocks * h.blockSize) % U32
  }

  /** `ToRawImage`; none when a copy throws. */
  function ToRaw(m: Image): Option<bytes> {
    var placed := PlaceAll(m.chunks, m.h.blockSize, Zeros(RawSize(m.h)));
    if placed.None? then None else Some(placed.value.0)
  }

  // ----- flashing

  /** One data phase: the size announced, then the bytes. */
  datatype Transfer = Transfer(announced: int, data: bytes)

  function TransferOf(c: Chunk): Option<seq<Transfer>> {
    if c.kind == RAW then Some([Transfer(Int32(c.dataSize), c.data)])
    else if c.kind == FILL then
      var filled := FillFrom(Zeros(c.dataSize), Pattern(c), 0, 0, c.dataSize);
      if filled.None? then None else Some([Transfer(|filled.value|, filled.value)])
    else Some([])
  }

  /** What the chunk loop of `FlashSparseAsync` sends. */
  function Flash(chunks: seq<Chunk>): Option<seq<Transfer>> {
    if chunks == [] then Some([])
    else
      var sent, last := Flash(chunks[..|chunks| - 1]), TransferOf(chunks[|chunks| - 1]);
      if sent.None? || last.None? then None else Some(sent.value + last.value)
  }

  // ----- the methods

  method CopyTo(src: bytes, raw: array<byte>, at: nat)
    requires at + |src| <= raw.Length
    modifies raw
    ensures raw[..] == Overwrite(old(raw[..]), at, src)
  {
    forall i | 0 <= i < |src| { raw[at + i] := src[i]; }
    CopiedOver(old(raw[..]), raw[..], at, src);
  }

  lemma CopiedOver(was: bytes, now: bytes, at: nat, src: bytes)
    requires at + |src| <= |was| == |now|
    requires forall i :: 0 <= i < |src| ==> now[at + i] == src[i]
    requires forall i :: 0 <= i < |was| && !(at <= i < at + |src|) ==> now[i] == was[i]
    ensures now == Overwrite(was, at, src)
  {
    forall i | 0 <= i < |was| ensures now[i] == Overwrite(was, at, src)[i] {
      if at <= i < at + |src| { assert now[at + (i - at)] == src[i - at]; }
    }
  }

  /** The inner loop over a fill chunk, in place. */
  method CopyPattern(pattern: bytes, raw: array<byte>, at: int, size: nat) returns (ok: bool)
    modifies raw
    ensures ok <==> FillFrom(old(raw[..]), pattern, at, 0, size).Some?
    ensures ok ==> raw[..] == FillFrom(old(raw[..]), pattern, at, 0, size).value
  {
    hide Overwrite, Int32;
    ghost var all := FillFrom(raw[..], pattern, at, 0, size);
    var i := 0;
    while i < size
      invariant FillFrom(raw[..], pattern, at, i, size) == all
      decreases size - i
    {
      var p := Int32(at + i);
      if p < 0 || p + |pattern| > raw.Length { return false; }
      CopyTo(pattern, raw, p);
      i := i + 4;
    }
    ok := true;
  }

  /** One turn of the switch in `ToRawImage`. */
  method PlaceChunk(chunk: Chunk, blockSize: u32, raw: array<byte>, from: u64) returns (ok: bool, offset: u64)
    modifies raw
    ensures ok == Place(chunk, blockSize, old(raw[..]), from).Some?
    ensures ok ==> Place(chunk, blockSize, old(raw[..]), from) == Some((raw[..], offset))
  {
    hide Overwrite, Int32, FillFrom;
    offset, ok := from, true;
    var at := Int32(offset);
    if chunk.kind == RAW {
      if at < 0 || at + |chunk.data| > raw.Length { return false, offset; }
      CopyTo(chunk.data, raw, at);
      offset := (offset + |chunk.data|) % U64;
    } else if chunk.kind == FILL {
      ok := CopyPattern(Pattern(chunk), raw, at, chunk.dataSize);
      offset := (offset + chunk.dataSize) % U64;
    } else if chunk.kind == DONT_CARE {
      offset := (offset + chunk.blocks * blockSize) % U64;
    }
  }

  class SparseImage {
    const m: Image

    constructor (m: Image)
      ensures this.m == m
    {
      this.m := m;
    }

    method ToRawImage() returns (raw: array<byte>, ok: bool)
      ensures fresh(raw)
      ensures ok == ToRaw(m).Some? && (ok ==> raw[..] == ToRaw(m).value)
    {
      hide Place;
      var rawSize := RawSize(m.h);
      raw := new byte[rawSize](_ => 0);
      var offset: u64 := 0;
      ghost var zeros := Zeros(rawSize);
      assert raw[..] == zeros;
      for k := 0 to |m.chunks|
        invariant PlaceAll(m.chunks[..k], m.h.blockSize, zeros) == Some((raw[..], offset))
      {
        assert m.chunks[..k + 1][..k] == m.chunks[..k];
        ok, offset := PlaceChunk(m.chunks[k], m.h.blockSize, raw, offset);
        if !ok {
          StaysUnplaced(m.chunks, m.h.blockSize, zeros, k + 1);
          return;
        }
      }
      assert m.chunks[..|m.chunks|] == m.chunks;
      ok := true;
    }
  }

  lemma {:induction false} StaysUnplaced(chunks: seq<Chunk>, blockSize: u32, raw: bytes, k: nat)
    requires k <= |chunks| && PlaceAll(chunks[..k], blockSize, raw).None?
    ensures PlaceAll(chunks, blockSize, raw).None?
    decreases |chunks|
  {
    hide Place;
    if k == |chunks| {
      assert chunks[..k] == chunks;
    } else {
      assert chunks[..|chunks| - 1][..k] == chunks[..k];
      StaysUnplaced(chunks[..|chunks| - 1], blockSize, raw, k);
    }
  }

  class Usb {
    var sent: seq<Transfer>

    constructor ()
      ensures sent == []
    {
      sent := [];
    }

    method Write(announced: int, data: bytes)
      modifies this
      ensures sent == old(sent) + [Transfer(announced, data)]
    {
      sent := sent + [Transfer(announced, data)];
    }
  }

  /** The chunk loop of `FlashSparseAsync`. */
  method FlashChunks(usb: Usb, chunks: seq<Chunk>) returns (ok: bool)
    requires usb.sent == []
    modifies usb
    ensures ok == Flash(chunks).Some? && (ok ==> usb.sent == Flash(chunks).value)
  {
    hide FillFrom, Int32;
    for k := 0 to |chunks|
      invariant Flash(chunks[..k]) == Some(usb.sent)
    {
      assert chunks[..k + 1][..k] == chunks[..k];
      var chunk := chunks[k];
      if chunk.kind == RAW {
        usb.Write(Int32(chunk.dataSize), chunk.data);
      } else if chunk.kind == FILL {
        var fillData := new byte[chunk.dataSize](_ => 0);
        assert fillData[..] == Zeros(chunk.dataSize);
        ok := CopyPattern(Pattern(chunk), fillData, 0, fillData.Length);
        if !ok {
          StaysUnsent(chunks, k + 1);
          return;
        }
        usb.Write(fillData.Length, fillData[..]);
      } else {
        assert usb.sent + [] == usb.sent;
      }
    }
    assert chunks[..|chunks|] == chunks;
    ok := true;
  }

  lemma {:induction false} StaysUnsent(chunks: seq<Chunk>, k: nat)
    requires k <= |chunks| && Flash(chunks[..k]).None?
    ensures Flash(chunks).None?
    decreases |chunks|
  {
    hide TransferOf;
    if k == |chunks| {
      assert chunks[..k] == chunks;
    } else {
      assert chunks[..|chunks| - 1][..k] == chunks[..k];
      StaysUnsent(chunks[..|chunks| - 1], k);
    }
  }

  /** `Parse`, chunk after chunk. */
  method ParseImage(s: bytes) returns (image: Option<Image>)
    ensures image == Parse(s)
  {
    hide ParseHeader, Int32, ReadLE32, ReadLE16;
    var header := ParseHeader(s);
    if header.None? { return None; }
    var h := header.value;
    var chunks: seq<Chunk>, offset: int, i: nat := [], h.fileHeaderSize, 0;
    ghost var all := ParseChunks(s, h, offset, h.totalChunks);
    assert all.Some? ==> [] + all.value == all.value;
    while i < h.totalChunks
      invariant i <= h.totalChunks
      invariant var rest := ParseChunks(s, h, offset, h.totalChunks - i);
                all == if rest.None? then None else Some(chunks + rest.value)
    {
      assert chunks + [] == chunks;
      if offset + h.chunkHeaderSize > |s| { return Some(Image(h, chunks)); }
      if offset < 0 || offset + CHUNK_HEADER > |s| { return None; }
      var chunk, next := ReadChunk(s, h, offset);
      ghost var rest := ParseChunks(s, h, next, h.totalChunks - i - 1);
      assert rest.Some? ==> chunks + ([chunk] + rest.value) == chunks + [chunk] + rest.value;
      chunks, offset, i := chunks + [chunk], next, i + 1;
    }
    assert chunks + [] == chunks;
    image := Some(Image(h, chunks));
  }

  method ReadChunk(s: bytes, h: Header, from: int) returns (chunk: Chunk, offset: int)
    requires 0 <= from && from + CHUNK_HEADER <= |s| && from + h.chunkHeaderSize <= |s|
    ensures (chunk, offset) == WithData(s, from + h.chunkHeaderSize, ChunkHead(s, from, h))
  {
    chunk, offset := ChunkHead(s, from, h), from + h.chunkHeaderSize;
    var size := Int32(chunk.dataSize);
    if chunk.dataSize > 0 && Int32(offset + size) <= |s| {
      chunk := chunk.(data := SkipTake(s, offset, size));
      offset := Int32(offset + size);
    }
  }
}
