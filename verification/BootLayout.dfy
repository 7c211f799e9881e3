/**
 * The blocks of a boot image: `parse_image` finds them one page-aligned block after the other by
 * the sizes in the header, and `repack` lays them out again in the same order.
 */
module BootLayout {
  import opened Bytes
  import opened Format
  import opened BootHeader

  /** The order of the blocks, by the header field that holds their size. */
  const ORDER: seq<Field> := [KernelSize, RamdiskSize, SecondSize, ExtraSize, RecoveryDtboSize, DtbSize,
                              SignatureSize, TableSize, BootconfigSize]

  function Sizes(v: Variant, raw: Raw): (s: seq<nat>)
    requires RawOf(v, raw)
    ensures |s| == 9
  {
    seq(9, i requires 0 <= i < 9 => Get(v, raw, ORDER[i]))
  }

  /** The aligned position after blocks of the given sizes. */
  function End(sizes: seq<nat>, start: nat, page: nat): (e: nat)
    requires page > 0
    ensures e >= start
  {
    if sizes == [] then start else AlignTo(End(sizes[..|sizes| - 1], start, page) + sizes[|sizes| - 1], page)
  }

  lemma {:induction false} EndGrows(sizes: seq<nat>, start: nat, page: nat, k: nat)
    requires page > 0 && k < |sizes|
    ensures End(sizes[..k], start, page) + sizes[k] <= End(sizes, start, page)
    decreases |sizes|
  {
    var init := sizes[..|sizes| - 1];
    if k < |init| {
      assert init[..k] == sizes[..k];
      EndGrows(init, start, page, k);
    }
  }

  /** A parsed image: the payload starts at `base` and its blocks end `end` bytes later. */
  datatype Parsed = Parsed(v: Variant, base: nat, raw: Raw, page: nat, blocks: seq<bytes>, end: nat)

  function BlocksAt(img: bytes, base: nat, sizes: seq<nat>, start: nat, page: nat): (b: seq<bytes>)
    requires page > 0 && base + End(sizes, start, page) <= |img|
    ensures |b| == |sizes|
  {
    if sizes == [] then []
    else
      var init, last := sizes[..|sizes| - 1], sizes[|sizes| - 1];
      var at := base + End(init, start, page);
      BlocksAt(img, base, init, start, page) + [img[at..at + last]]
  }

  lemma {:induction false} BlockAt(img: bytes, base: nat, sizes: seq<nat>, start: nat, page: nat, k: nat)
    requires page > 0 && base + End(sizes, start, page) <= |img| && k < |sizes|
    ensures var at := base + End(sizes[..k], start, page);
            at + sizes[k] <= |img| && BlocksAt(img, base, sizes, start, page)[k] == img[at..at + sizes[k]]
    decreases |sizes|
  {
    hide AlignTo;
    var init := sizes[..|sizes| - 1];
    EndGrows(sizes, start, page, k);
    if k < |init| {
      assert init[..k] == sizes[..k];
      BlockAt(img, base, init, start, page, k);
    }
  }

  /** `parse_image` up to the payload: header, then the blocks, each checked against the file size. */
  function Parse(img: bytes, p: nat, vendor: bool): Option<Parsed> {
    var found := CreateHdr(img, p, vendor);
    if found.None? then None
    else
      var Found(base, v) := found.value;
      if base + HdrSize(v) > |img| then None
      else
        var raw := img[base..base + HdrSize(v)];
        var page := Get(v, raw, PageSize);
        if page == 0 then None
        else
          var sizes, start := Sizes(v, raw), HdrSpace(v, page);
          if base + End(sizes, start, page) > |img| then None
          else Some(Parsed(v, base, raw, page, BlocksAt(img, base, sizes, start, page), End(sizes, start, page)))
  }

  lemma NoBlocks(img: bytes, base: nat, start: nat, page: nat)
    requires page > 0
    ensures End([], start, page) == start
    ensures base + start <= |img| ==> BlocksAt(img, base, [], start, page) == []
  {
  }

  lemma BlocksSnoc(img: bytes, base: nat, sizes: seq<nat>, start: nat, page: nat, k: nat)
    requires page > 0 && k < |sizes| && base + End(sizes[..k], start, page) <= |img|
    ensures var at, next := base + End(sizes[..k], start, page), base + End(sizes[..k + 1], start, page);
            && next == base + AlignTo(at - base + sizes[k], page)
            && (next <= |img| ==>
                  at + sizes[k] <= |img|
                  && BlocksAt(img, base, sizes[..k + 1], start, page)
                     == BlocksAt(img, base, sizes[..k], start, page) + [img[at..at + sizes[k]]])
  {
    hide AlignTo;
    assert sizes[..k + 1][..k] == sizes[..k];
  }

  class BootImg {
    const img: bytes
    var found: bool
    var v: Variant
    var base: nat
    var raw: Raw
    var page: nat
    var off: nat
    var blocks: seq<bytes>

    constructor (img: bytes)
      ensures this.img == img && !found
    {
      this.img := img;
      found, v, base, raw, page, off, blocks := false, V0, 0, [], 0, 0, [];
    }

    function Value(): Option<Parsed>
      reads this
    {
      if found then Some(Parsed(v, base, raw, page, blocks, off)) else None
    }

    /** `get_block`: note the block, step over it to the next page, check the file size. */
    method GetBlock(size: nat) returns (ok: bool)
      requires page > 0 && base + off <= |img|
      modifies this`off, this`blocks
      ensures off == AlignTo(old(off) + size, page)
      ensures ok == (base + off <= |img|)
      ensures ok ==> blocks == old(blocks) + [img[base + old(off)..base + old(off) + size]]
    {
      var at := base + off;
      off := off + size;
      off := AlignTo(off, page);
      if base + off > |img| { return false; }
      blocks := blocks + [img[at..at + size]];
      return true;
    }

    /** The header, then the nine `get_block` lines. */
    method ParseImage(p: nat, vendor: bool) returns (ok: bool)
      modifies this
      ensures ok == Parse(img, p, vendor).Some?
      ensures ok ==> Value() == Parse(img, p, vendor)
    {
      hide CreateHdr, Get, HdrSpace, AlignTo, HdrSize, End, BlocksAt;
      found := false;
      var hdr := CreateHdr(img, p, vendor);
      if hdr.None? { return false; }
      base, v := hdr.value.base, hdr.value.v;
      if base + HdrSize(v) > |img| { return false; }
      raw := img[base..base + HdrSize(v)];
      page := Get(v, raw, PageSize);
      if page == 0 { return false; }
      off, blocks := HdrSpace(v, page), [];
      ghost var sizes, start, r := Sizes(v, raw), off, raw;
      NoBlocks(img, base, start, page);
      assert sizes[..0] == [];
      if base + off > |img| {
        EndPrefix(sizes, start, page, 0);
        return false;
      }
      for k := 0 to 9
        invariant RawOf(v, raw) && page > 0 && base + off <= |img|
        invariant Unchanged(hdr.value, r, sizes, start)
        invariant off == End(sizes[..k], start, page)
        invariant blocks == BlocksAt(img, base, sizes[..k], start, page)
      {
        BlocksSnoc(img, base, sizes, start, page, k);
        ok := GetBlock(Get(v, raw, ORDER[k]));
        if !ok {
          EndPrefix(sizes, start, page, k + 1);
          return;
        }
      }
      assert sizes[..9] == sizes;
      found := true;
      return true;
    }

    ghost predicate Unchanged(hdr: Found, r: Raw, sizes: seq<nat>, start: nat)
      reads this
    {
      && base == hdr.base && v == hdr.v && raw == r && !found
      && RawOf(v, raw) && page == Get(v, raw, PageSize) && sizes == Sizes(v, raw) && page > 0 && start == HdrSpace(v, page)
    }
  }

  lemma {:induction false} EndPrefix(sizes: seq<nat>, start: nat, page: nat, k: nat)
    requires page > 0 && k <= |sizes|
    ensures End(sizes[..k], start, page) <= End(sizes, start, page)
    decreases |sizes|
  {
    if k < |sizes| {
      var init := sizes[..|sizes| - 1];
      assert init[..k] == sizes[..k];
      EndPrefix(init, start, page, k);
    } else {
      assert sizes[..k] == sizes;
    }
  }

  // ----- laying blocks out

  /** `file_align` after a block. */
  function Padded(block: bytes, page: nat): (r: bytes)
    requires page > 0
    ensures |r| == AlignTo(|block|, page)
  {
    block + Zeros(AlignTo(|block|, page) - |block|)
  }

  function Packed(space: bytes, blocks: seq<bytes>, page: nat): bytes
    requires page > 0
  {
    if blocks == [] then space
    else Packed(space, blocks[..|blocks| - 1], page) + Padded(blocks[|blocks| - 1], page)
  }

  function Lengths(blocks: seq<bytes>): (s: seq<nat>)
    ensures |s| == |blocks| && forall k :: 0 <= k < |s| ==> s[k] == |blocks[k]|
  {
    seq(|blocks|, k requires 0 <= k < |blocks| => |blocks[k]|)
  }

  /** Packed blocks end where the parser's sizes say, on a page boundary. */
  lemma {:induction false} PackedLength(space: bytes, blocks: seq<bytes>, page: nat)
    requires page > 0 && |space| % page == 0
    ensures |Packed(space, blocks, page)| == End(Lengths(blocks), |space|, page)
    ensures |Packed(space, blocks, page)| % page == 0
    decreases blocks
  {
    hide AlignTo;
    if blocks != [] {
      var init, last := blocks[..|blocks| - 1], blocks[|blocks| - 1];
      PackedLength(space, init, page);
      assert Lengths(blocks)[..|init|] == Lengths(init);
      AlignAfter(|Packed(space, init, page)|, |last|, page);
    }
  }

  lemma {:induction false} PackedHolds(space: bytes, blocks: seq<bytes>, page: nat, s: bytes, at: nat, k: nat)
    requires page > 0 && |space| % page == 0 && k < |blocks| && Holds(s, at, Packed(space, blocks, page))
    ensures Holds(s, at + End(Lengths(blocks)[..k], |space|, page), blocks[k])
    decreases blocks
  {
    hide Holds, AlignTo;
    var init, last := blocks[..|blocks| - 1], blocks[|blocks| - 1];
    assert Lengths(blocks)[..k] == Lengths(blocks[..k]) && blocks[..k] == init[..k];
    assert Lengths(init)[..k] == Lengths(init[..k]);
    HoldsConcat(s, at, Packed(space, init, page), Padded(last, page));
    if k < |init| {
      PackedHolds(space, init, page, s, at, k);
    } else {
      PackedLength(space, init, page);
      HoldsConcat(s, at + |Packed(space, init, page)|, last, Zeros(AlignTo(|last|, page) - |last|));
    }
  }

  lemma {:induction false} PackedSpace(space: bytes, blocks: seq<bytes>, page: nat, s: bytes, at: nat)
    requires page > 0 && Holds(s, at, Packed(space, blocks, page))
    ensures Holds(s, at, space)
    decreases blocks
  {
    hide Holds;
    if blocks != [] {
      HoldsConcat(s, at, Packed(space, blocks[..|blocks| - 1], page), Padded(blocks[|blocks| - 1], page));
      PackedSpace(space, blocks[..|blocks| - 1], page, s, at);
    }
  }

  predicate SizesMatch(v: Variant, raw: Raw, blocks: seq<bytes>)
    requires RawOf(v, raw)
  {
    |blocks| == 9 && forall k :: 0 <= k < 9 ==> |blocks[k]| == Get(v, raw, ORDER[k])
  }

  /** Each block is held where the parser's sizes say. */
  predicate AllHeld(img: bytes, base: nat, blocks: seq<bytes>, start: nat, page: nat)
    requires page > 0
  {
    forall k :: 0 <= k < |blocks| ==> Holds(img, base + End(Lengths(blocks)[..k], start, page), blocks[k])
  }

  /**
   * Core of the round trip, for every header layout: where a header and its blocks stand at the places
   * its sizes say, in a file that reaches to the last block's page, parsing finds them, byte for byte.
   */
  lemma HeldParses(img: bytes, p: nat, vendor: bool, base: nat, v: Variant, raw: Raw, blocks: seq<bytes>)
    requires CreateHdr(img, p, vendor) == Some(Found(base, v))
    requires RawOf(v, raw) && SizesMatch(v, raw, blocks) && Get(v, raw, PageSize) > 0 && Holds(img, base, raw)
    requires var page := Get(v, raw, PageSize);
             AllHeld(img, base, blocks, HdrSpace(v, page), page) && base + End(Lengths(blocks), HdrSpace(v, page), page) <= |img|
    ensures var page := Get(v, raw, PageSize);
            Parse(img, p, vendor) == Some(Parsed(v, base, raw, page, blocks, End(Lengths(blocks), HdrSpace(v, page), page)))
  {
    hide CreateHdr, Get, HdrSpace, AlignTo, HdrSize, Holds, End, BlocksAt;
    var page := Get(v, raw, PageSize);
    var start := HdrSpace(v, page);
    assert img[base..base + HdrSize(v)] == raw by { HeldSlice(img, base, raw); }
    HeldSlice(img, base, raw);
    assert Sizes(v, raw) == Lengths(blocks);
    var got := BlocksAt(img, base, Lengths(blocks), start, page);
    forall k | 0 <= k < 9 ensures got[k] == blocks[k] {
      HeldSlice(img, base + End(Lengths(blocks)[..k], start, page), blocks[k]);
      BlockAt(img, base, Lengths(blocks), start, page, k);
    }
    assert got == blocks;
  }

  /** In particular where a payload packed from them stands. */
  lemma PackedParses(img: bytes, p: nat, vendor: bool, base: nat, v: Variant, raw: Raw, space: bytes, blocks: seq<bytes>)
    requires CreateHdr(img, p, vendor) == Some(Found(base, v))
    requires RawOf(v, raw) && SizesMatch(v, raw, blocks) && Get(v, raw, PageSize) > 0
    requires |space| == HdrSpace(v, Get(v, raw, PageSize)) && StartsWith(space, raw)
    requires Holds(img, base, Packed(space, blocks, Get(v, raw, PageSize)))
    ensures var page := Get(v, raw, PageSize);
            Parse(img, p, vendor) == Some(Parsed(v, base, raw, page, blocks, |Packed(space, blocks, page)|))
  {
    hide CreateHdr, Get, HdrSpace, AlignTo, HdrSize, Packed, Holds, End, Parse;
    var page := Get(v, raw, PageSize);
    SpaceIsAligned(v, page);
    PackedSpace(space, blocks, page, img, base);
    HoldsPart(img, base, space, 0, |raw|);
    PackedLength(space, blocks, page);
    PackedFits(img, base, space, blocks, page);
    forall k | 0 <= k < 9 ensures Holds(img, base + End(Lengths(blocks)[..k], |space|, page), blocks[k]) {
      PackedHolds(space, blocks, page, img, base, k);
    }
    HeldParses(img, p, vendor, base, v, raw, blocks);
  }

  lemma HeldSlice(s: bytes, at: nat, piece: bytes)
    requires Holds(s, at, piece)
    ensures at + |piece| <= |s| && s[at..at + |piece|] == piece
  {
  }

  lemma PackedFits(img: bytes, base: nat, space: bytes, blocks: seq<bytes>, page: nat)
    requires page > 0 && Holds(img, base, Packed(space, blocks, page))
    ensures base + |Packed(space, blocks, page)| <= |img|
  {
  }

  lemma SpaceIsAligned(v: Variant, page: nat)
    requires page > 0
    ensures HdrSpace(v, page) % page == 0
  {
    AlignedIsMultiple(HdrSize(v), page);
    MultipleMod(1, page);
    assert 1 * page == page;
  }

  // ----- laying blocks out as `repack` does

  /** Block after block; `file_align` follows those that `al` marks, and only those. */
  function Laid(space: bytes, blocks: seq<bytes>, al: seq<bool>, page: nat): bytes
    requires page > 0 && |blocks| == |al|
  {
    if blocks == [] then space
    else
      var n := |blocks| - 1;
      var all := Laid(space, blocks[..n], al[..n], page) + blocks[n];
      if al[n] then Padded(all, page) else all
  }

  /** Where that ends, from the sizes. */
  function LaidEnd(sizes: seq<nat>, al: seq<bool>, start: nat, page: nat): (e: nat)
    requires page > 0 && |sizes| == |al|
    ensures e >= start
  {
    if sizes == [] then start
    else
      var n := |sizes| - 1;
      var e := LaidEnd(sizes[..n], al[..n], start, page) + sizes[n];
      if al[n] then AlignTo(e, page) else e
  }

  lemma {:induction false} LaidLength(space: bytes, blocks: seq<bytes>, al: seq<bool>, page: nat)
    requires page > 0 && |blocks| == |al|
    ensures |Laid(space, blocks, al, page)| == LaidEnd(Lengths(blocks), al, |space|, page)
    decreases blocks
  {
    hide AlignTo;
    if blocks != [] {
      var n := |blocks| - 1;
      LaidLength(space, blocks[..n], al[..n], page);
      assert Lengths(blocks)[..n] == Lengths(blocks[..n]);
    }
  }

  /** Each block is held where the ones before it end, and the header's room in front of them. */
  lemma {:induction false} LaidHolds(space: bytes, blocks: seq<bytes>, al: seq<bool>, page: nat, s: bytes, at: nat, k: nat)
    requires page > 0 && |blocks| == |al| && k < |blocks| && Holds(s, at, Laid(space, blocks, al, page))
    ensures Holds(s, at + LaidEnd(Lengths(blocks)[..k], al[..k], |space|, page), blocks[k])
    decreases blocks
  {
    hide Holds, AlignTo;
    var n := |blocks| - 1;
    var init := Laid(space, blocks[..n], al[..n], page);
    LaidParts(space, blocks, al, page, s, at);
    assert Lengths(blocks)[..k] == Lengths(blocks[..k]);
    if k < n {
      assert blocks[..k] == blocks[..n][..k] && al[..k] == al[..n][..k];
      assert Lengths(blocks[..n])[..k] == Lengths(blocks[..k]);
      LaidHolds(space, blocks[..n], al[..n], page, s, at, k);
    } else {
      LaidLength(space, blocks[..n], al[..n], page);
    }
  }

  lemma LaidParts(space: bytes, blocks: seq<bytes>, al: seq<bool>, page: nat, s: bytes, at: nat)
    requires page > 0 && |blocks| == |al| && blocks != [] && Holds(s, at, Laid(space, blocks, al, page))
    ensures var n := |blocks| - 1;
            var init := Laid(space, blocks[..n], al[..n], page);
            Holds(s, at, init) && Holds(s, at + |init|, blocks[n])
  {
    hide Holds, AlignTo;
    var n := |blocks| - 1;
    var init := Laid(space, blocks[..n], al[..n], page);
    HoldsConcat(s, at, init + blocks[n], Zeros(AlignTo(|init + blocks[n]|, page) - |init + blocks[n]|));
    HoldsConcat(s, at, init, blocks[n]);
  }

  lemma {:induction false} LaidSpace(space: bytes, blocks: seq<bytes>, al: seq<bool>, page: nat, s: bytes, at: nat)
    requires page > 0 && |blocks| == |al| && Holds(s, at, Laid(space, blocks, al, page))
    ensures Holds(s, at, space)
    decreases blocks
  {
    hide Holds;
    if blocks != [] {
      LaidParts(space, blocks, al, page, s, at);
      LaidSpace(space, blocks[..|blocks| - 1], al[..|blocks| - 1], page, s, at);
    }
  }

  // ----- the two layouts compared

  lemma {:induction false} EndIsAligned(sizes: seq<nat>, start: nat, page: nat)
    requires page > 0 && start % page == 0
    ensures End(sizes, start, page) % page == 0
  {
    hide AlignTo;
    if sizes != [] {
      AlignMultiple(End(sizes[..|sizes| - 1], start, page) + sizes[|sizes| - 1], page);
    }
  }

  lemma AlignMultiple(x: nat, page: nat)
    requires page > 0
    ensures AlignTo(x, page) % page == 0
  {
    assert AlignTo(0 + x, page) % page == 0 by { AlignAfter(0, x, page); }
  }

  /** From a place where both agree, they agree as long as every block is aligned or fills its pages. */
  lemma {:induction false} StayInStep(sizes: seq<nat>, al: seq<bool>, start: nat, page: nat, j: nat, k: nat)
    requires page > 0 && start % page == 0 && |sizes| == |al| && j <= k <= |sizes|
    requires LaidEnd(sizes[..j], al[..j], start, page) == End(sizes[..j], start, page)
    requires forall i :: j <= i < k ==> al[i] || sizes[i] % page == 0
    ensures LaidEnd(sizes[..k], al[..k], start, page) == End(sizes[..k], start, page)
    decreases k
  {
    hide AlignTo;
    if j < k {
      StayInStep(sizes, al, start, page, j, k - 1);
      assert sizes[..k][..k - 1] == sizes[..k - 1] && al[..k][..k - 1] == al[..k - 1];
      if !al[k - 1] {
        EndIsAligned(sizes[..k - 1], start, page);
        FillsPages(End(sizes[..k - 1], start, page), sizes[k - 1], page);
      }
    }
  }

  lemma FillsPages(e: nat, n: nat, page: nat)
    requires page > 0 && e % page == 0 && n % page == 0
    ensures AlignTo(e + n, page) == e + n
  {
    AlignAfter(e, n, page);
  }

  /** Blocks that are neither there nor aligned move nothing. */
  lemma {:induction false} NothingWritten(sizes: seq<nat>, al: seq<bool>, start: nat, page: nat, j: nat, k: nat)
    requires page > 0 && |sizes| == |al| && j <= k <= |sizes|
    requires forall i :: j <= i < k ==> !al[i] && sizes[i] == 0
    ensures LaidEnd(sizes[..k], al[..k], start, page) == LaidEnd(sizes[..j], al[..j], start, page)
    decreases k
  {
    if j < k {
      NothingWritten(sizes, al, start, page, j, k - 1);
      assert sizes[..k][..k - 1] == sizes[..k - 1] && al[..k][..k - 1] == al[..k - 1];
    }
  }

  /** Block `k` is the first thing written behind the second block. */
  predicate NextWritten(al: seq<bool>, k: nat) {
    2 <= k < |al| && al[k] && forall j :: 2 <= j < k ==> !al[j]
  }

  /** The second block ends inside a page and is not aligned, and what is written next is not empty. */
  predicate OutOfStep(sizes: seq<nat>, al: seq<bool>, page: nat)
    requires page > 0 && |sizes| == |al| >= 2
  {
    !al[1] && sizes[1] % page != 0 && exists k :: 2 <= k < |al| && NextWritten(al, k) && sizes[k] != 0
  }

  /** Every block stands where the parser's sizes say. */
  predicate InPlace(sizes: seq<nat>, al: seq<bool>, start: nat, page: nat)
    requires page > 0 && |sizes| == |al|
  {
    forall k :: 0 <= k < |sizes| && sizes[k] != 0 ==> LaidEnd(sizes[..k], al[..k], start, page) == End(sizes[..k], start, page)
  }

  lemma InStepAt(sizes: seq<nat>, al: seq<bool>, start: nat, page: nat, k: nat)
    requires page > 0 && start % page == 0 && |sizes| == |al| >= 2 && al[0]
    requires forall i :: 2 <= i < |sizes| && !al[i] ==> sizes[i] == 0
    requires !OutOfStep(sizes, al, page) && k < |sizes| && sizes[k] != 0
    ensures LaidEnd(sizes[..k], al[..k], start, page) == End(sizes[..k], start, page)
  {
    hide LaidEnd, End;
    NothingYet(sizes, al, start, page);
    if k <= 1 || al[1] || sizes[1] % page == 0 {
      StayInStep(sizes, al, start, page, 0, k);
    } else {
      var j := FirstWritten(al, k);
      Realigned(sizes, al, start, page, j);
      StayInStep(sizes, al, start, page, j + 1, k);
    }
  }

  lemma NothingYet(sizes: seq<nat>, al: seq<bool>, start: nat, page: nat)
    requires page > 0 && |sizes| == |al|
    ensures LaidEnd(sizes[..0], al[..0], start, page) == End(sizes[..0], start, page)
  {
  }

  /** When all but the second block are aligned if they are there: exactly unless the second one puts the next out of step. */
  lemma InPlaceExactly(sizes: seq<nat>, al: seq<bool>, start: nat, page: nat)
    requires page > 0 && start % page == 0 && |sizes| == |al| >= 2 && al[0]
    requires forall i :: 2 <= i < |sizes| && !al[i] ==> sizes[i] == 0
    ensures InPlace(sizes, al, start, page) <==> !OutOfStep(sizes, al, page)
  {
    hide LaidEnd, End;
    if OutOfStep(sizes, al, page) {
      var k :| 2 <= k < |al| && NextWritten(al, k) && sizes[k] != 0;
      BehindShort(sizes, al, start, page, k);
    } else {
      forall k | 0 <= k < |sizes| && sizes[k] != 0
        ensures LaidEnd(sizes[..k], al[..k], start, page) == End(sizes[..k], start, page)
      {
        InStepAt(sizes, al, start, page, k);
      }
    }
  }

  lemma {:induction false} FirstWritten(al: seq<bool>, k: nat) returns (j: nat)
    requires 2 <= k < |al| && al[k]
    ensures j <= k && NextWritten(al, j)
    decreases k
  {
    if i :| 2 <= i < k && al[i] {
      j := FirstWritten(al, i);
    } else {
      j := k;
    }
  }

  /** What is written next starts inside a page. */
  lemma BehindShort(sizes: seq<nat>, al: seq<bool>, start: nat, page: nat, k: nat)
    requires page > 0 && start % page == 0 && |sizes| == |al| && 2 <= k < |al| && al[0] && !al[1] && sizes[1] % page != 0
    requires NextWritten(al, k) && forall i :: 2 <= i < k ==> sizes[i] == 0
    ensures LaidEnd(sizes[..k], al[..k], start, page) == End(sizes[..1], start, page) + sizes[1]
    ensures LaidEnd(sizes[..k], al[..k], start, page) != End(sizes[..k], start, page)
  {
    hide AlignTo;
    StayInStep(sizes, al, start, page, 0, 1);
    NothingWritten(sizes, al, start, page, 2, k);
    assert sizes[..2][..1] == sizes[..1] && al[..2][..1] == al[..1];
    EndIsAligned(sizes[..1], start, page);
    EndIsAligned(sizes[..k], start, page);
    AddMultiple(End(sizes[..1], start, page), sizes[1], page);
  }

  /** An empty file written next is aligned, and all is in step again. */
  lemma Realigned(sizes: seq<nat>, al: seq<bool>, start: nat, page: nat, j: nat)
    requires page > 0 && start % page == 0 && |sizes| == |al| && 2 <= j < |al| && al[0] && !al[1] && sizes[1] % page != 0
    requires NextWritten(al, j) && forall i :: 2 <= i <= j ==> sizes[i] == 0
    ensures LaidEnd(sizes[..j + 1], al[..j + 1], start, page) == End(sizes[..j + 1], start, page)
  {
    hide AlignTo;
    BehindShort(sizes, al, start, page, j);
    assert sizes[..j + 1][..j] == sizes[..j] && al[..j + 1][..j] == al[..j];
    assert sizes[..2][..1] == sizes[..1];
    EndOfEmpties(sizes, start, page, 2, j + 1);
  }

  lemma {:induction false} EndOfEmpties(sizes: seq<nat>, start: nat, page: nat, j: nat, k: nat)
    requires page > 0 && start % page == 0 && j <= k <= |sizes| && forall i :: j <= i < k ==> sizes[i] == 0
    ensures End(sizes[..k], start, page) == End(sizes[..j], start, page)
    decreases k
  {
    if j < k {
      EndOfEmpties(sizes, start, page, j, k - 1);
      assert sizes[..k][..k - 1] == sizes[..k - 1];
      EndIsAligned(sizes[..k - 1], start, page);
    }
  }
}
