/**
 * The legacy LZ4 framing: `LZ4_encoder`, the stateful `LZ4_decoder`, and how `check_fmt_lg` tells
 * LG's variant, which ends in the total size, from the plain one. The block codec is foreign code
 * and enters as a pair of functions. The chunking base class is not part of this model; what it
 * is relied on for is that it hands over pieces of exactly the current chunk size, and at the end
 * whatever non-empty rest remains.
 */
module Lz4Legacy {
  import opened Bytes
  import opened Format

  const LZ4_UNCOMPRESSED := 0x800000
  const LZ4_COMPRESSED := LZ4_UNCOMPRESSED + LZ4_UNCOMPRESSED / 255 + 16
  const MAGIC_NUMBER: u32 := 0x184C2102

  /** An empty compression and a `None` are the failures. */
  datatype BlockCodec = BlockCodec(compress: bytes -> bytes, decompress: bytes -> Option<bytes>)

  predicate BlockSized(x: bytes) {
    0 < |x| <= LZ4_UNCOMPRESSED
  }

  ghost predicate Sound(c: BlockCodec) {
    forall x :: BlockSized(x) ==> 0 < |c.compress(x)| <= LZ4_COMPRESSED && c.decompress(c.compress(x)) == Some(x)
  }

  // ----- encoding

  function FirstBlock(input: bytes): (b: bytes)
    requires input != []
    ensures BlockSized(b)
  {
    if |input| <= LZ4_UNCOMPRESSED then input else input[..LZ4_UNCOMPRESSED]
  }

  function Frame(c: BlockCodec, block: bytes): bytes {
    if |c.compress(block)| < U32 then LE32(|c.compress(block)|) + c.compress(block) else []
  }

  function Frames(c: BlockCodec, input: bytes): bytes {
    if input == [] then []
    else
      var b := FirstBlock(input);
      Frame(c, b) + Frames(c, input[|b|..])
  }

  function Encoded(c: BlockCodec, lg: bool, input: bytes): bytes {
    LZ4_LEG_MAGIC + Frames(c, input) + if lg then LE32(|input| % U32) else []
  }

  class LZ4Encoder {
    const c: BlockCodec
    const lg: bool
    var inTotal: u32
    var out: bytes

    constructor (c: BlockCodec, lg: bool)
      ensures this.c == c && this.lg == lg && inTotal == 0 && out == LZ4_LEG_MAGIC
    {
      this.c, this.lg := c, lg;
      inTotal, out := 0, LZ4_LEG_MAGIC;
    }

    method WriteChunk(buf: bytes) returns (ok: bool)
      requires BlockSized(buf) && |c.compress(buf)| < U32
      modifies this
      ensures ok == (c.compress(buf) != [])
      ensures out == old(out) + if ok then Frame(c, buf) else []
      ensures inTotal == if ok then (old(inTotal) + |buf|) % U32 else old(inTotal)
    {
      var block := c.compress(buf);
      if block == [] { return false; }
      out := out + (LE32(|block|) + block);
      inTotal := (inTotal + |buf|) % U32;
      return true;
    }

    /** The destructor: LG appends the number of bytes taken in. */
    method Finish()
      modifies this
      ensures out == old(out) + (if lg then LE32(inTotal) else []) && inTotal == old(inTotal)
    {
      if lg { out := out + LE32(inTotal); }
    }
  }

  lemma NextFrame(c: BlockCodec, input: bytes, at: nat)
    requires at < |input|
    ensures var b := FirstBlock(input[at..]);
            0 < |b| <= |input| - at && Frames(c, input[at..]) == Frame(c, b) + Frames(c, input[at + |b|..])
  {
    hide Frame;
    var b := FirstBlock(input[at..]);
    assert input[at..][|b|..] == input[at + |b|..];
  }

  lemma NoFrames(c: BlockCodec, input: bytes)
    ensures Frames(c, input[|input|..]) == []
  {
    assert input[|input|..] == [];
  }

  method Encode(c: BlockCodec, lg: bool, input: bytes) returns (out: bytes)
    requires Sound(c)
    ensures out == Encoded(c, lg, input)
  {
    hide Frame, LZ4_LEG_MAGIC, LE32, LZ4_COMPRESSED, Frames;
    assert LZ4_COMPRESSED < U32 by { CompressedBound(); }
    var enc := new LZ4Encoder(c, lg);
    var at := 0;
    while at < |input|
      invariant at <= |input| && enc.c == c && enc.lg == lg && fresh(enc)
      invariant enc.inTotal == at % U32
      invariant enc.out + Frames(c, input[at..]) == LZ4_LEG_MAGIC + Frames(c, input)
    {
      var b := FirstBlock(input[at..]);
      NextFrame(c, input, at);
      ghost var was := enc.out;
      var ok := enc.WriteChunk(b);
      at := at + |b|;
      assert was + (Frame(c, b) + Frames(c, input[at..])) == was + Frame(c, b) + Frames(c, input[at..]);
    }
    NoFrames(c, input);
    enc.Finish();
    out := enc.out;
  }

  /** Blocks of eight mebibytes, each behind the length it was compressed to; whatever is left is the last one. */
  lemma FramesByBlocks(c: BlockCodec, block: bytes, more: bytes)
    requires Sound(c) && 0 < |block| <= 0x80_0000 && (more != [] ==> |block| == 0x80_0000)
    ensures |c.compress(block)| < U32
    ensures Frames(c, block + more) == LE32(|c.compress(block)|) + c.compress(block) + Frames(c, more)
  {
    hide LE32, LZ4_COMPRESSED;
    CompressedBound();
    var input := block + more;
    assert BlockSized(block);
    assert FirstBlock(input) == block && input[|block|..] == more;
  }

  /** The stream begins with the four magic bytes; LG's ends in the input's length. */
  lemma EncodedEnds(c: BlockCodec, input: bytes)
    ensures Encoded(c, false, input) == [0x02, 0x21, 0x4C, 0x18] + Frames(c, input)
    ensures Encoded(c, true, input) == [0x02, 0x21, 0x4C, 0x18] + Frames(c, input) + LE32(|input| % 0x1_0000_0000)
    ensures Frames(c, []) == []
  {
    hide LE32;
  }

  // ----- decoding

  datatype State = State(blockSize: u32, chunkSize: nat, out: bytes)

  const START := State(0, 4, [])

  /** `write_chunk`: a size (or the magic) when none is pending, otherwise a block of that size. */
  function Step(c: BlockCodec, s: State, chunk: bytes): Option<State>
    requires s.chunkSize == if s.blockSize == 0 then 4 else s.blockSize
  {
    if |chunk| != s.chunkSize then None
    else if s.blockSize == 0 then
      var n := ReadLE32(chunk, 0);
      if n == MAGIC_NUMBER then Some(s.(blockSize := 0, chunkSize := 4))
      else Some(s.(blockSize := n, chunkSize := n))
    else
      match c.decompress(chunk)
      case None => None
      case Some(x) => Some(State(0, 4, s.out + x))
  }

  /** A pending size of zero leaves nothing to ask for. */
  predicate Ready(s: State) {
    s.chunkSize == if s.blockSize == 0 then 4 else s.blockSize
  }

  datatype Outcome = Done(out: bytes) | Broken

  /** All chunks of `data`; a rest shorter than the chunk size is an error. */
  function Decoded(c: BlockCodec, s: State, data: bytes): Outcome
    decreases |data|
  {
    if data == [] then Done(s.out)
    else if !Ready(s) || |data| < s.chunkSize then Broken
    else
      match Step(c, s, data[..s.chunkSize])
      case None => Broken
      case Some(next) => Decoded(c, next, data[s.chunkSize..])
  }

  class LZ4Decoder {
    const c: BlockCodec
    var blockSize: u32
    var chunkSize: nat
    var out: bytes

    constructor (c: BlockCodec)
      ensures this.c == c && Value() == START
    {
      this.c := c;
      blockSize, chunkSize, out := 0, 4, [];
    }

    function Value(): State
      reads this
    {
      State(blockSize, chunkSize, out)
    }

    method WriteChunk(buf: bytes) returns (ok: bool)
      requires Ready(Value())
      modifies this
      ensures ok == Step(c, old(Value()), buf).Some?
      ensures ok ==> Value() == Step(c, old(Value()), buf).value
    {
      if |buf| != chunkSize { return false; }
      if blockSize == 0 {
        blockSize := ReadLE32(buf, 0);
        if blockSize == MAGIC_NUMBER {
          blockSize := 0;
          chunkSize := 4;
          return true;
        }
        chunkSize := blockSize;
        return true;
      } else {
        var x := c.decompress(buf);
        chunkSize := 4;
        blockSize := 0;
        if x.None? { return false; }
        out := out + x.value;
        return true;
      }
    }
  }

  method Decode(c: BlockCodec, data: bytes) returns (r: Outcome)
    ensures r == Decoded(c, START, data)
  {
    hide Step;
    var dec := new LZ4Decoder(c);
    var rest := data;
    while rest != []
      invariant dec.c == c && fresh(dec)
      invariant Decoded(c, dec.Value(), rest) == Decoded(c, START, data)
      decreases |rest|
    {
      if (dec.blockSize != 0 && dec.chunkSize != dec.blockSize) || (dec.blockSize == 0 && dec.chunkSize != 4)
         || |rest| < dec.chunkSize {
        return Broken;
      }
      ghost var before := dec.Value();
      var chunk := rest[..dec.chunkSize];
      rest := rest[dec.chunkSize..];
      var ok := dec.WriteChunk(chunk);
      if !ok { return Broken; }
    }
    return Done(dec.out);
  }

  // ----- the round trip

  /** A written size is never the magic number, so the decoder takes it for a size. */
  lemma StepSize(c: BlockCodec, s: State, n: u32)
    requires s.blockSize == 0 && s.chunkSize == 4 && 0 < n <= LZ4_COMPRESSED
    ensures Step(c, s, LE32(n)) == Some(State(n, n, s.out))
  {
    ReadLE32OfLE32(n);
  }

  lemma StepMagic(c: BlockCodec)
    ensures Step(c, START, LZ4_LEG_MAGIC) == Some(START)
  {
  }

  lemma DecodedStep(c: BlockCodec, s: State, chunk: bytes, rest: bytes)
    requires chunk != [] && Ready(s) && |chunk| == s.chunkSize && Step(c, s, chunk).Some?
    ensures Decoded(c, s, chunk + rest) == Decoded(c, Step(c, s, chunk).value, rest)
  {
    hide Step;
    var data := chunk + rest;
    assert data[..s.chunkSize] == chunk && data[s.chunkSize..] == rest;
  }

  lemma DecodedFrame(c: BlockCodec, out: bytes, block: bytes, rest: bytes)
    requires Sound(c) && BlockSized(block)
    ensures Decoded(c, State(0, 4, out), Frame(c, block) + rest) == Decoded(c, State(0, 4, out + block), rest)
  {
    hide Decoded, LE32, LZ4_COMPRESSED;
    var s, z := State(0, 4, out), c.compress(block);
    assert LZ4_COMPRESSED < U32 by { CompressedBound(); }
    assert Frame(c, block) + rest == LE32(|z|) + (z + rest);
    StepSize(c, s, |z|);
    DecodedStep(c, s, LE32(|z|), z + rest);
    DecodedStep(c, State(|z|, |z|, out), z, rest);
  }

  lemma CompressedBound()
    ensures LZ4_COMPRESSED < MAGIC_NUMBER < U32
  {
  }

  lemma {:induction false} DecodedFrames(c: BlockCodec, out: bytes, input: bytes, rest: bytes)
    requires Sound(c)
    ensures Decoded(c, State(0, 4, out), Frames(c, input) + rest) == Decoded(c, State(0, 4, out + input), rest)
    decreases |input|
  {
    hide Decoded, Frame;
    if input == [] {
      assert Frames(c, input) + rest == rest && out + input == out;
    } else {
      var b := FirstBlock(input);
      var more := Frames(c, input[|b|..]);
      assert Frames(c, input) + rest == Frame(c, b) + (more + rest);
      DecodedFrame(c, out, b, more + rest);
      DecodedFrames(c, out + b, input[|b|..], rest);
      assert out + b + input[|b|..] == out + input;
    }
  }

  /** Main result: whatever the input, both variants decode to it. */
  lemma DecodeUndoesEncode(c: BlockCodec, lg: bool, input: bytes)
    requires Sound(c)
    ensures Decoded(c, START, Encoded(c, lg, input)) == Done(input)
  {
    hide Frames, LE32, Step;
    var tail: bytes := if lg then LE32(|input| % U32) else [];
    assert Encoded(c, lg, input) == LZ4_LEG_MAGIC + (Frames(c, input) + tail);
    StepMagic(c);
    DecodedStep(c, START, LZ4_LEG_MAGIC, Frames(c, input) + tail);
    DecodedFrames(c, [], input, tail);
    assert [] + input == input;
    if lg { DecodedTotal(c, input, |input| % U32); }
  }

  /** The trailing total is taken for a size that nothing follows. */
  lemma DecodedTotal(c: BlockCodec, out: bytes, total: u32)
    ensures Decoded(c, State(0, 4, out), LE32(total)) == Done(out)
  {
    assert LE32(total) + [] == LE32(total);
    DecodedStep(c, State(0, 4, out), LE32(total), []);
  }

  // ----- telling the variants apart

  /** The walk has only been before `off`. */
  predicate Before(seen: set<int>, off: nat) {
    forall x <- seen :: x < off
  }

  lemma WalkFrame(c: BlockCodec, buf: bytes, off: nat, seen: set<int>, block: bytes)
    requires Sound(c) && BlockSized(block) && |buf| < U32 && Holds(buf, off, Frame(c, block)) && Before(seen, off)
    ensures Walk(buf, off, seen) == Walk(buf, off + |Frame(c, block)|, seen + {off}) && |Frame(c, block)| > 4
  {
    hide LE32, ReadLE32, LZ4_COMPRESSED;
    var z := c.compress(block);
    assert LZ4_COMPRESSED < U32 by { CompressedBound(); }
    HoldsConcat(buf, off, LE32(|z|), z);
    SizeAt(buf, off, |z|);
  }

  lemma SizeAt(buf: bytes, off: nat, n: u32)
    requires Holds(buf, off, LE32(n))
    ensures ReadLE32(buf, off) == n
  {
    ReadLE32OfLE32(n);
    HoldsPointwise(buf, off, LE32(n));
    assert forall i :: 0 <= i < 4 ==> buf[off + i] == LE32(n)[i];
  }

  lemma {:induction false} WalkFrames(c: BlockCodec, buf: bytes, off: nat, seen: set<int>, input: bytes) returns (more: set<int>)
    requires Sound(c) && |buf| < U32 && Holds(buf, off, Frames(c, input)) && Before(seen, off)
    ensures Walk(buf, off, seen) == Walk(buf, off + |Frames(c, input)|, more)
    decreases |input|
  {
    hide Walk, Frame, Holds;
    more := seen;
    if input != [] {
      var b := FirstBlock(input);
      HoldsConcat(buf, off, Frame(c, b), Frames(c, input[|b|..]));
      WalkFrame(c, buf, off, seen, b);
      more := WalkFrames(c, buf, off + |Frame(c, b)|, seen + {off}, input[|b|..]);
    }
  }

  lemma LegacyMagicOnly(buf: bytes)
    requires StartsWith(buf, LZ4_LEG_MAGIC)
    ensures CheckFmt(buf) == LZ4_LEGACY
  {
    assert buf[0] == 0x02 && buf[1] == 0x21;
    hide StartsWith;
    Differ(buf, CHROMEOS_MAGIC, 0);
    Differ(buf, BOOT_MAGIC, 0);
    Differ(buf, VENDOR_BOOT_MAGIC, 0);
    Differ(buf, GZIP1_MAGIC, 0);
    Differ(buf, GZIP2_MAGIC, 0);
    Differ(buf, LZOP_MAGIC, 0);
    Differ(buf, XZ_MAGIC, 0);
    Differ(buf, BZIP_MAGIC, 0);
    Differ(buf, LZ41_MAGIC, 0);
    Differ(buf, LZ42_MAGIC, 0);
  }

  /**
   * Main result: below 4 GiB for stream and input together, a stream is reported as LG's exactly
   * when it was written with the LG trailer and something was compressed.
   */
  lemma VariantsToldApart(c: BlockCodec, lg: bool, input: bytes)
    requires Sound(c) && |Encoded(c, lg, input)| + |input| < U32
    ensures CheckFmtLg(Encoded(c, lg, input)) == if lg && input != [] then LZ4_LG else LZ4_LEGACY
  {
    hide Frames, LE32, ReadLE32, Holds, CheckFmt, LZ4_LEG_MAGIC;
    var tail: bytes := if lg then LE32(|input| % U32) else [];
    var buf, frames := Encoded(c, lg, input), Frames(c, input);
    assert buf == LZ4_LEG_MAGIC + frames + tail;
    assert |LZ4_LEG_MAGIC| == 4 by { MagicLength(); }
    HoldsMiddle(LZ4_LEG_MAGIC, frames, tail);
    HoldsMiddle(LZ4_LEG_MAGIC + frames, tail, []);
    assert LZ4_LEG_MAGIC + frames + tail + [] == buf;
    assert StartsWith(buf, LZ4_LEG_MAGIC);
    LegacyMagicOnly(buf);
    var seen := WalkFrames(c, buf, 4, {}, input);
    if lg {
      SizeAt(buf, 4 + |frames|, |input| % U32);
    }
  }

  lemma MagicLength()
    ensures |LZ4_LEG_MAGIC| == 4
  {
  }
}
