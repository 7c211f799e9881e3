/**
 * Extracting a partition from an OTA payload: the install operations are sorted by the place of
 * their data so that the payload is only ever read forward, and written to their places in the
 * image. The manifest arrives as a datatype; decompression is foreign code.
 */
module Payload {
  import opened Bytes

  datatype Extent = Extent(startBlock: Option<u64>, numBlocks: Option<u64>)

  datatype Kind = REPLACE | ZERO | REPLACE_BZ | REPLACE_XZ | OTHER

  datatype Operation = Operation(kind: Kind, dataOffset: Option<u64>, dataLength: Option<u64>, dst: seq<Extent>)
  {
    /** The sort key: a missing offset counts as 0. */
    function Key(): nat {
      if dataOffset.Some? then dataOffset.value else 0
    }

    function Length(): nat {
      if dataLength.Some? then dataLength.value else 0
    }

    function End(): nat {
      Key() + Length()
    }
  }

  datatype Decoder = Decoder(decompress: bytes -> Option<bytes>)

  // ----- the output file

  /** Zero-extended contents: what is read at `k` of an image that may end earlier. */
  function At(file: bytes, k: nat): byte {
    if k < |file| then file[k] else 0
  }

  /** Seeking and writing; a gap left by the seek reads as zero, and writing nothing extends nothing. */
  function WriteAt(file: bytes, at: nat, data: bytes): (r: bytes)
    ensures forall k: nat :: At(r, k) == if at <= k < at + |data| then data[k - at] else At(file, k)
  {
    if data == [] then file
    else
      var base := if |file| < at then file + Zeros(at - |file|) else file;
      if at + |data| <= |base| then base[..at] + data + base[at + |data|..] else base[..at] + data
  }

  datatype Write = Write(at: nat, data: bytes)

  function WriteAll(file: bytes, ws: seq<Write>): bytes {
    if ws == [] then file
    else
      var last := ws[|ws| - 1];
      WriteAt(WriteAll(file, ws[..|ws| - 1]), last.at, last.data)
  }

  // ----- what the code does with one operation

  datatype Failure =
    | NoLength | NoOffset | BackwardSkip | ShortRead | NoExtent | NoStart | NoCount | Undecodable | Unsupported

  datatype Outcome<T> = Ok(value: T) | Failed(why: Failure)

  /** The next unread byte of the payload, and the image so far. */
  datatype Progress = Progress(pos: nat, file: bytes)

  function Place(startBlock: u64, blockSize: nat): nat {
    startBlock * blockSize % U64
  }

  /** ZERO writes `num_blocks` bytes, not blocks, at each extent. */
  function ZeroWrites(dst: seq<Extent>, blockSize: nat): Outcome<seq<Write>> {
    if dst == [] then Ok([])
    else
      match ZeroWrites(dst[..|dst| - 1], blockSize)
      case Failed(f) => Failed(f)
      case Ok(ws) =>
        var e := dst[|dst| - 1];
        if e.startBlock.None? then Failed(NoStart)
        else if e.numBlocks.None? then Failed(NoCount)
        else Ok(ws + [Write(Place(e.startBlock.value, blockSize), Zeros(e.numBlocks.value))])
  }

  function WritesOf(op: Operation, data: bytes, blockSize: nat, d: Decoder): Outcome<seq<Write>> {
    if op.dst == [] then Failed(NoExtent)
    else if op.dst[0].startBlock.None? then Failed(NoStart)
    else
      var at := Place(op.dst[0].startBlock.value, blockSize);
      match op.kind
      case REPLACE => Ok([Write(at, data)])
      case ZERO => ZeroWrites(op.dst, blockSize)
      case OTHER => Failed(Unsupported)
      case _ =>
        match d.decompress(data)
        case None => Failed(Undecodable)
        case Some(x) => Ok([Write(at, x)])
  }

  /** Reading from a payload whose next unread byte is at `pos`, then writing. */
  function Step(op: Operation, pos: nat, file: bytes, blob: bytes, blockSize: nat, d: Decoder): Outcome<Progress> {
    if op.dataLength.None? then Failed(NoLength)
    else if op.dataOffset.None? then Failed(NoOffset)
    else if op.Key() < pos then Failed(BackwardSkip)
    else if op.End() > |blob| then Failed(ShortRead)
    else
      match WritesOf(op, blob[op.Key()..op.End()], blockSize, d)
      case Failed(f) => Failed(f)
      case Ok(ws) => Ok(Progress(op.End(), WriteAll(file, ws)))
  }

  function Then(so: Outcome<Progress>, op: Operation, blob: bytes, blockSize: nat, d: Decoder): Outcome<Progress> {
    if so.Failed? then so else Step(op, so.value.pos, so.value.file, blob, blockSize, d)
  }

  function Run(ops: seq<Operation>, blob: bytes, blockSize: nat, d: Decoder): Outcome<Progress> {
    if ops == [] then Ok(Progress(0, []))
    else Then(Run(ops[..|ops| - 1], blob, blockSize, d), ops[|ops| - 1], blob, blockSize, d)
  }

  // ----- the stable sort

  /** After every operation whose key is not larger. */
  function Insert(x: Operation, s: seq<Operation>): (r: seq<Operation>)
    ensures |r| == |s| + 1
  {
    if s == [] then [x]
    else if s[|s| - 1].Key() <= x.Key() then s + [x]
    else Insert(x, s[..|s| - 1]) + [s[|s| - 1]]
  }

  function SortByOffset(ops: seq<Operation>): (r: seq<Operation>)
    ensures |r| == |ops|
  {
    if ops == [] then [] else Insert(ops[|ops| - 1], SortByOffset(ops[..|ops| - 1]))
  }

  function Extract(ops: seq<Operation>, blob: bytes, blockSize: nat, d: Decoder): Outcome<Progress> {
    Run(SortByOffset(ops), blob, blockSize, d)
  }

  function ImageOf(o: Outcome<Progress>): Outcome<bytes> {
    if o.Failed? then Failed(o.why) else Ok(o.value.file)
  }

  class OutFile {
    var data: bytes
    var pos: nat

    constructor ()
      ensures data == [] && pos == 0
    {
      data, pos := [], 0;
    }

    method Seek(to: nat)
      modifies this
      ensures pos == to && data == old(data)
    {
      pos := to;
    }

    method WriteBytes(b: bytes)
      modifies this
      ensures data == WriteAt(old(data), old(pos), b) && pos == old(pos) + |b|
    {
      data := WriteAt(data, pos, b);
      pos := pos + |b|;
    }
  }

  /** The extraction loop of `do_extract_boot_from_payload`. */
  method ExtractBoot(ops: seq<Operation>, blob: bytes, blockSize: nat, d: Decoder) returns (r: Outcome<bytes>)
    ensures r == ImageOf(Extract(ops, blob, blockSize, d))
  {
    hide SortByOffset, WriteAt, WritesOf;
    var operations := SortByOffset(ops);
    var out := new OutFile();
    var currDataOffset: nat := 0;
    for i := 0 to |operations|
      invariant fresh(out)
      invariant Run(operations[..i], blob, blockSize, d) == Ok(Progress(currDataOffset, out.data))
    {
      var op := operations[i];
      RunSnoc(operations, i, blob, blockSize, d);
      if op.dataLength.None? { RunFails(operations, i + 1, blob, blockSize, d); return Failed(NoLength); }
      if op.dataOffset.None? { RunFails(operations, i + 1, blob, blockSize, d); return Failed(NoOffset); }
      var dataOffset, dataLen := op.dataOffset.value, op.dataLength.value;
      if dataOffset < currDataOffset { RunFails(operations, i + 1, blob, blockSize, d); return Failed(BackwardSkip); }
      var skip := dataOffset - currDataOffset;
      var from := currDataOffset + skip;
      if from + dataLen > |blob| { RunFails(operations, i + 1, blob, blockSize, d); return Failed(ShortRead); }
      var data := blob[from..from + dataLen];
      currDataOffset := dataOffset + dataLen;
      var failure := Perform(op, data, blockSize, d, out);
      if failure.Some? { RunFails(operations, i + 1, blob, blockSize, d); return Failed(failure.value); }
    }
    assert operations[..|operations|] == operations;
    return Ok(out.data);
  }

  lemma RunSnoc(ops: seq<Operation>, i: nat, blob: bytes, blockSize: nat, d: Decoder)
    requires i < |ops|
    ensures Run(ops[..i + 1], blob, blockSize, d) == Then(Run(ops[..i], blob, blockSize, d), ops[i], blob, blockSize, d)
  {
    hide Step;
    assert ops[..i + 1][..i] == ops[..i];
  }

  /** A failure part-way is the failure of the whole. */
  lemma {:induction false} RunFails(ops: seq<Operation>, i: nat, blob: bytes, blockSize: nat, d: Decoder)
    requires i <= |ops| && Run(ops[..i], blob, blockSize, d).Failed?
    ensures Run(ops, blob, blockSize, d) == Run(ops[..i], blob, blockSize, d)
    decreases |ops| - i
  {
    hide Step;
    if i == |ops| {
      assert ops[..i] == ops;
    } else {
      RunSnoc(ops, i, blob, blockSize, d);
      RunFails(ops, i + 1, blob, blockSize, d);
    }
  }

  /** The `match data_type` of the loop: seek and write, extent by extent for ZERO. */
  method Perform(op: Operation, data: bytes, blockSize: nat, d: Decoder, out: OutFile) returns (failure: Option<Failure>)
    modifies out
    ensures var ws := WritesOf(op, data, blockSize, d);
            if ws.Failed? then failure == Some(ws.why)
            else failure == None && out.data == WriteAll(old(out.data), ws.value)
  {
    hide WriteAt, ZeroWrites;
    if op.dst == [] { return Some(NoExtent); }
    if op.dst[0].startBlock.None? { return Some(NoStart); }
    var outOffset := Place(op.dst[0].startBlock.value, blockSize);
    match op.kind {
      case REPLACE =>
        WriteOne(out.data, outOffset, data);
        out.Seek(outOffset);
        out.WriteBytes(data);
      case ZERO =>
        failure := PerformZero(op.dst, blockSize, out);
        return;
      case OTHER => return Some(Unsupported);
      case _ =>
        var x := d.decompress(data);
        if x.None? { return Some(Undecodable); }
        WriteOne(out.data, outOffset, x.value);
        out.Seek(outOffset);
        out.WriteBytes(x.value);
    }
    return None;
  }

  lemma WriteOne(file: bytes, at: nat, data: bytes)
    ensures WriteAll(file, [Write(at, data)]) == WriteAt(file, at, data)
  {
    hide WriteAt;
    assert [Write(at, data)][..0] == [];
  }

  method PerformZero(dst: seq<Extent>, blockSize: nat, out: OutFile) returns (failure: Option<Failure>)
    modifies out
    ensures var ws := ZeroWrites(dst, blockSize);
            if ws.Failed? then failure == Some(ws.why)
            else failure == None && out.data == WriteAll(old(out.data), ws.value)
  {
    hide WriteAt;
    ghost var before := out.data;
    for i := 0 to |dst|
      invariant ZeroWrites(dst[..i], blockSize).Ok?
      invariant out.data == WriteAll(before, ZeroWrites(dst[..i], blockSize).value)
    {
      assert dst[..i + 1][..i] == dst[..i];
      if dst[i].startBlock.None? { ZeroFails(dst, i + 1, blockSize); return Some(NoStart); }
      var outSeek := Place(dst[i].startBlock.value, blockSize);
      if dst[i].numBlocks.None? { ZeroFails(dst, i + 1, blockSize); return Some(NoCount); }
      ghost var ws := ZeroWrites(dst[..i], blockSize).value;
      assert (ws + [Write(outSeek, Zeros(dst[i].numBlocks.value))])[..|ws|] == ws;
      out.Seek(outSeek);
      out.WriteBytes(Zeros(dst[i].numBlocks.value));
    }
    assert dst[..|dst|] == dst;
    return None;
  }

  lemma {:induction false} ZeroFails(dst: seq<Extent>, i: nat, blockSize: nat)
    requires i <= |dst| && ZeroWrites(dst[..i], blockSize).Failed?
    ensures ZeroWrites(dst, blockSize) == ZeroWrites(dst[..i], blockSize)
    decreases |dst| - i
  {
    if i == |dst| {
      assert dst[..i] == dst;
    } else {
      assert dst[..i + 1][..i] == dst[..i];
      ZeroFails(dst, i + 1, blockSize);
    }
  }
}
