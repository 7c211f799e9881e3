/**
 * The ramdisk table of a version 4 vendor image: several ramdisks concatenated in one block, each
 * described by an entry with its size and offset.
 */
module BootVendor {
  import opened Bytes
  import opened Format
  import opened BootKernel

  const ENTRY_SIZE := 108

  /** Size, offset, and the 100 bytes of type, name and board id that are only carried over. */
  datatype TableEntry = TableEntry(size: u32, offset: u32, rest: bytes)

  predicate WellSized(entries: seq<TableEntry>) {
    forall k :: 0 <= k < |entries| ==> |entries[k].rest| == ENTRY_SIZE - 8
  }

  function EntryBytes(e: TableEntry): bytes {
    LE32(e.size) + LE32(e.offset) + e.rest
  }

  function TableBytes(entries: seq<TableEntry>): bytes {
    if entries == [] then [] else TableBytes(entries[..|entries| - 1]) + EntryBytes(entries[|entries| - 1])
  }

  function EntryAt(table: bytes, at: nat): TableEntry
    requires at + ENTRY_SIZE <= |table|
  {
    TableEntry(ReadLE32(table, at), ReadLE32(table, at + 4), table[at + 8..at + ENTRY_SIZE])
  }

  /** The first `n` entries of a table. */
  function EntriesOf(table: bytes, n: nat): (r: seq<TableEntry>)
    requires n * ENTRY_SIZE <= |table|
    ensures |r| == n && WellSized(r)
  {
    if n == 0 then [] else EntriesOf(table, n - 1) + [EntryAt(table, (n - 1) * ENTRY_SIZE)]
  }

  // ----- file names

  const RAMDISK_FILE: bytes := Ascii("ramdisk.cpio")
  const CPIO_SUFFIX: bytes := Ascii(".cpio")

  /** The name of an entry's file. */
  function FullName(e: TableEntry): bytes
    requires |e.rest| == ENTRY_SIZE - 8
  {
    var name := CStr(e.rest[4..]);
    if name == [] then RAMDISK_FILE else name + CPIO_SUFFIX
  }

  /** The file an entry is kept in, cut to the buffer its name is formatted into. */
  function FileName(e: TableEntry, buffer: nat): bytes
    requires |e.rest| == ENTRY_SIZE - 8 && buffer > 0
  {
    if |FullName(e)| < buffer then FullName(e) else FullName(e)[..buffer - 1]
  }

  const UNPACK_BUFFER := 40
  const REPACK_BUFFER := 64

  /** The name fits the smaller of the two buffers. */
  predicate NameFits(e: TableEntry)
    requires |e.rest| == ENTRY_SIZE - 8
  {
    |FullName(e)| < 40
  }

  /** `unpack` and `repack` name the same file exactly when the name fits both buffers. */
  lemma NamesAgreeExactly(e: TableEntry)
    requires |e.rest| == ENTRY_SIZE - 8
    ensures FileName(e, UNPACK_BUFFER) == FileName(e, REPACK_BUFFER) <==> NameFits(e)
  {
    hide FullName;
  }

  // ----- unpack

  function EntryData(img: bytes, ramdisk: nat, e: TableEntry): bytes {
    Slice(img, ramdisk + e.offset, e.size)
  }

  function EntryFmt(img: bytes, ramdisk: nat, e: TableEntry): Fmt {
    CheckFmtLg(EntryData(img, ramdisk, e))
  }

  /** The contents of an entry's file: every entry is written, an empty one as an empty file. */
  function EntryFile(c: Codec, skip: bool, img: bytes, ramdisk: nat, e: TableEntry): bytes {
    var data, fmt := EntryData(img, ramdisk, e), EntryFmt(img, ramdisk, e);
    if !skip && Compressed(fmt) then c.decompress(fmt, data) else data
  }

  /** The directory after writing the files in table order; a repeated name keeps the last. */
  function Unpacked(c: Codec, skip: bool, img: bytes, ramdisk: nat, entries: seq<TableEntry>): map<bytes, bytes>
    requires WellSized(entries)
  {
    if entries == [] then map[]
    else
      var e := entries[|entries| - 1];
      Unpacked(c, skip, img, ramdisk, entries[..|entries| - 1])
        [FileName(e, UNPACK_BUFFER) := EntryFile(c, skip, img, ramdisk, e)]
  }

  method UnpackTable(c: Codec, skip: bool, img: bytes, ramdisk: nat, entries: seq<TableEntry>) returns (dir: map<bytes, bytes>)
    requires WellSized(entries)
    ensures dir == Unpacked(c, skip, img, ramdisk, entries)
  {
    hide EntryFile, FileName;
    dir := map[];
    for k := 0 to |entries|
      invariant dir == Unpacked(c, skip, img, ramdisk, entries[..k])
    {
      assert entries[..k + 1][..k] == entries[..k];
      dir := dir[FileName(entries[k], UNPACK_BUFFER) := EntryFile(c, skip, img, ramdisk, entries[k])];
    }
    assert entries[..|entries|] == entries;
  }

  // ----- repack

  /** The rewritten entries and the ramdisk block they describe. */
  datatype Section = Section(entries: seq<TableEntry>, data: bytes)

  /** What an entry's file becomes in the new block. */
  function NewData(c: Codec, skip: bool, img: bytes, ramdisk: nat, e: TableEntry, file: bytes): bytes {
    Written(c, skip, EntryFmt(img, ramdisk, e), EntryFmt(img, ramdisk, e), file)
  }

  predicate AllThere(entries: seq<TableEntry>, dir: map<bytes, bytes>)
    requires WellSized(entries)
  {
    forall k :: 0 <= k < |entries| ==> FileName(entries[k], REPACK_BUFFER) in dir
  }

  /** Offsets and sizes are 32-bit sums. */
  function Repacked(c: Codec, skip: bool, img: bytes, ramdisk: nat, entries: seq<TableEntry>, dir: map<bytes, bytes>): (r: Section)
    requires WellSized(entries) && AllThere(entries, dir)
    ensures |r.entries| == |entries| && WellSized(r.entries)
  {
    if entries == [] then Section([], [])
    else
      var e := entries[|entries| - 1];
      assert FileName(e, REPACK_BUFFER) in dir;
      var before := Repacked(c, skip, img, ramdisk, entries[..|entries| - 1], dir);
      var w := NewData(c, skip, img, ramdisk, e, dir[FileName(e, REPACK_BUFFER)]);
      Section(before.entries + [TableEntry(|w| % U32, |before.data| % U32, e.rest)], before.data + w)
  }

  method RepackTable(c: Codec, skip: bool, img: bytes, ramdisk: nat, entries: seq<TableEntry>, dir: map<bytes, bytes>)
    returns (table: seq<TableEntry>, data: bytes, size: u32)
    requires WellSized(entries) && AllThere(entries, dir)
    ensures Section(table, data) == Repacked(c, skip, img, ramdisk, entries, dir)
    ensures size == |data| % U32
  {
    hide NewData, FileName, Repacked;
    table, data, size := [], [], 0;
    NothingRepacked(c, skip, img, ramdisk, dir);
    assert entries[..0] == [];
    for k := 0 to |entries|
      invariant AllThere(entries[..k], dir)
      invariant Section(table, data) == Repacked(c, skip, img, ramdisk, entries[..k], dir)
      invariant size == |data| % U32
    {
      ghost var soFar := entries[..k + 1];
      assert soFar[..k] == entries[..k] && AllThere(soFar, dir);
      RepackedSnoc(c, skip, img, ramdisk, soFar, dir);
      var w := NewData(c, skip, img, ramdisk, entries[k], dir[FileName(entries[k], REPACK_BUFFER)]);
      table := table + [TableEntry(|w| % U32, size, entries[k].rest)];
      Wraps(|data|, |w|);
      data := data + w;
      size := (size + |w| % U32) % U32;
    }
    assert entries[..|entries|] == entries;
  }

  lemma NothingRepacked(c: Codec, skip: bool, img: bytes, ramdisk: nat, dir: map<bytes, bytes>)
    ensures WellSized([]) && AllThere([], dir) && Repacked(c, skip, img, ramdisk, [], dir) == Section([], [])
  {
  }

  /** A 32-bit running sum is the sum modulo 2^32. */
  lemma Wraps(a: nat, b: nat)
    ensures (a % U32 + b % U32) % U32 == (a + b) % U32
  {
  }

  // ----- what the new table says

  function SizesBefore(entries: seq<TableEntry>, k: nat): nat
    requires k <= |entries|
  {
    if k == 0 then 0 else SizesBefore(entries, k - 1) + entries[k - 1].size
  }

  lemma {:induction false} SizesBeforePrefix(a: seq<TableEntry>, b: seq<TableEntry>, k: nat)
    requires k <= |a| <= |b| && b[..|a|] == a
    ensures SizesBefore(a, k) == SizesBefore(b, k)
    decreases k
  {
    if k > 0 {
      SizesBeforePrefix(a, b, k - 1);
      assert a[k - 1] == b[..|a|][k - 1];
    }
  }

  /** What the file of entry `k` becomes in the new block. */
  function NewDataAt(c: Codec, skip: bool, img: bytes, ramdisk: nat, entries: seq<TableEntry>, dir: map<bytes, bytes>, k: nat): bytes
    requires WellSized(entries) && AllThere(entries, dir) && k < |entries|
  {
    NewData(c, skip, img, ramdisk, entries[k], dir[FileName(entries[k], REPACK_BUFFER)])
  }

  lemma RepackedSnoc(c: Codec, skip: bool, img: bytes, ramdisk: nat, entries: seq<TableEntry>, dir: map<bytes, bytes>)
    requires WellSized(entries) && AllThere(entries, dir) && entries != []
    ensures var init, n := entries[..|entries| - 1], |entries| - 1;
            && AllThere(init, dir)
            && var before, r := Repacked(c, skip, img, ramdisk, init, dir), Repacked(c, skip, img, ramdisk, entries, dir);
               var w := NewDataAt(c, skip, img, ramdisk, entries, dir, n);
               && r.data == before.data + w
               && r.entries == before.entries + [TableEntry(|w| % U32, |before.data| % U32, entries[n].rest)]
               && forall k :: 0 <= k < n ==>
                    NewDataAt(c, skip, img, ramdisk, init, dir, k) == NewDataAt(c, skip, img, ramdisk, entries, dir, k)
  {
    hide NewData, FileName;
  }

  lemma SizesSnoc(entries: seq<TableEntry>, e: TableEntry)
    ensures SizesBefore(entries + [e], |entries| + 1) == SizesBefore(entries, |entries|) + e.size
  {
    SizesBeforePrefix(entries, entries + [e], |entries|);
  }

  lemma NothingBefore(entries: seq<TableEntry>)
    ensures SizesBefore(entries, 0) == 0
  {
  }

  /** One more entry, of data that leaves the total below 32 bits. */
  lemma OneMoreSize(before: Section, w: bytes, rest: bytes, offset: u32)
    requires SizesBefore(before.entries, |before.entries|) == |before.data| && |before.data + w| < U32
    ensures SizesBefore(before.entries + [TableEntry(|w| % U32, offset, rest)], |before.entries| + 1) == |before.data + w|
  {
    hide SizesBefore;
    SizesSnoc(before.entries, TableEntry(|w| % U32, offset, rest));
  }

  /** The sizes in the new table add up to the block it describes. */
  lemma {:induction false} SizesAddUp(c: Codec, skip: bool, img: bytes, ramdisk: nat, entries: seq<TableEntry>, dir: map<bytes, bytes>)
    requires WellSized(entries) && AllThere(entries, dir)
    requires |Repacked(c, skip, img, ramdisk, entries, dir).data| < U32
    ensures var r := Repacked(c, skip, img, ramdisk, entries, dir); SizesBefore(r.entries, |entries|) == |r.data|
    decreases |entries|
  {
    hide Repacked, NewDataAt, AllThere, SizesBefore;
    if entries == [] {
      NothingRepacked(c, skip, img, ramdisk, dir);
      NothingBefore([]);
    } else {
      RepackedSnoc(c, skip, img, ramdisk, entries, dir);
      var init, n := entries[..|entries| - 1], |entries| - 1;
      var before := Repacked(c, skip, img, ramdisk, init, dir);
      var w := NewDataAt(c, skip, img, ramdisk, entries, dir, n);
      SizesAddUp(c, skip, img, ramdisk, init, dir);
      OneMoreSize(before, w, entries[n].rest, |before.data| % U32);
    }
  }

  /**
   * The new entries tile the block: each starts where the ones before it end, and what it
   * describes is its own file's data.
   */
  lemma {:induction false} EntryTiles(c: Codec, skip: bool, img: bytes, ramdisk: nat, entries: seq<TableEntry>, dir: map<bytes, bytes>, k: nat)
    requires WellSized(entries) && AllThere(entries, dir) && k < |entries|
    requires |Repacked(c, skip, img, ramdisk, entries, dir).data| < U32
    ensures var r, w := Repacked(c, skip, img, ramdisk, entries, dir), NewDataAt(c, skip, img, ramdisk, entries, dir, k);
            && r.entries[k].size == |w| && r.entries[k].offset == SizesBefore(r.entries, k)
            && r.entries[k].rest == entries[k].rest
            && Holds(r.data, r.entries[k].offset, w)
    decreases |entries|
  {
    hide Repacked, NewDataAt, AllThere, Holds;
    RepackedSnoc(c, skip, img, ramdisk, entries, dir);
    var init, n := entries[..|entries| - 1], |entries| - 1;
    var before, r := Repacked(c, skip, img, ramdisk, init, dir), Repacked(c, skip, img, ramdisk, entries, dir);
    var w := NewDataAt(c, skip, img, ramdisk, entries, dir, k);
    SizesBeforePrefix(before.entries, r.entries, k);
    if k < n {
      EntryTiles(c, skip, img, ramdisk, init, dir, k);
      HoldsLonger(before.data, NewDataAt(c, skip, img, ramdisk, entries, dir, n), before.entries[k].offset, w);
    } else {
      SizesAddUp(c, skip, img, ramdisk, init, dir);
      HoldsMiddle(before.data, w, []);
      assert before.data + w + [] == r.data;
    }
  }

  lemma HoldsLonger(s: bytes, more: bytes, at: nat, piece: bytes)
    requires Holds(s, at, piece)
    ensures Holds(s + more, at, piece)
  {
    HoldsPointwise(s, at, piece);
    HoldsPointwise(s + more, at, piece);
  }

  /** Distinct entries of the new table describe disjoint parts of the block, in table order. */
  lemma {:induction false} EntriesDisjoint(entries: seq<TableEntry>, j: nat, k: nat)
    requires j < k <= |entries|
    ensures SizesBefore(entries, j) + entries[j].size <= SizesBefore(entries, k)
    decreases k
  {
    if j < k - 1 { EntriesDisjoint(entries, j, k - 1); }
  }

  // ----- unpack, then repack

  /** The last entry kept in a file, or -1. */
  function Keeper(entries: seq<TableEntry>, name: bytes): (j: int)
    requires WellSized(entries)
    ensures -1 <= j < |entries|
  {
    if entries == [] then -1
    else if FileName(entries[|entries| - 1], UNPACK_BUFFER) == name then |entries| - 1
    else Keeper(entries[..|entries| - 1], name)
  }

  lemma {:induction false} KeeperOf(entries: seq<TableEntry>, k: nat)
    requires WellSized(entries) && k < |entries|
    ensures var name := FileName(entries[k], UNPACK_BUFFER);
            k <= Keeper(entries, name) && FileName(entries[Keeper(entries, name)], UNPACK_BUFFER) == name
    decreases |entries|
  {
    hide FileName;
    if k < |entries| - 1 { KeeperOf(entries[..|entries| - 1], k); }
  }

  lemma {:induction false} UnpackedKeeps(c: Codec, skip: bool, img: bytes, ramdisk: nat, entries: seq<TableEntry>, k: nat)
    requires WellSized(entries) && k < |entries|
    ensures var name, dir := FileName(entries[k], UNPACK_BUFFER), Unpacked(c, skip, img, ramdisk, entries);
            name in dir && Keeper(entries, name) >= 0
            && dir[name] == EntryFile(c, skip, img, ramdisk, entries[Keeper(entries, name)])
    decreases |entries|
  {
    hide EntryFile, FileName;
    var init, last := entries[..|entries| - 1], entries[|entries| - 1];
    if FileName(last, UNPACK_BUFFER) != FileName(entries[k], UNPACK_BUFFER) {
      assert forall i :: 0 <= i < |init| ==> init[i] == entries[i];
      UnpackedKeeps(c, skip, img, ramdisk, init, k);
    }
  }

  predicate NamesFit(entries: seq<TableEntry>)
    requires WellSized(entries)
  {
    forall k :: 0 <= k < |entries| ==> NameFits(entries[k])
  }

  /** Entries kept in one file hold the same bytes; entries with distinct files are not constrained. */
  predicate SharedFilesAgree(img: bytes, ramdisk: nat, entries: seq<TableEntry>)
    requires WellSized(entries)
  {
    forall j, k :: 0 <= j < |entries| && 0 <= k < |entries|
      && FileName(entries[j], UNPACK_BUFFER) == FileName(entries[k], UNPACK_BUFFER)
      ==> EntryData(img, ramdisk, entries[j]) == EntryData(img, ramdisk, entries[k])
  }

  lemma NewDataIsKeepers(c: Codec, img: bytes, ramdisk: nat, entries: seq<TableEntry>, k: nat)
    requires WellSized(entries) && NamesFit(entries) && k < |entries|
    ensures var dir, name := Unpacked(c, true, img, ramdisk, entries), FileName(entries[k], REPACK_BUFFER);
            && name in dir && name == FileName(entries[k], UNPACK_BUFFER) && Keeper(entries, name) >= 0
            && NewData(c, true, img, ramdisk, entries[k], dir[name]) == EntryData(img, ramdisk, entries[Keeper(entries, name)])
  {
    hide EntryFmt, FileName, Keeper, Unpacked, NameFits, EntryData;
    NamesAgreeExactly(entries[k]);
    UnpackedKeeps(c, true, img, ramdisk, entries, k);
  }

  /**
   * Without (de)compression, unpacking and repacking keeps every entry's bytes exactly when
   * entries that share a file (an unnamed one and one named "ramdisk", say) hold the same bytes.
   */
  lemma EntriesPreserved(c: Codec, img: bytes, ramdisk: nat, entries: seq<TableEntry>)
    requires WellSized(entries) && NamesFit(entries)
    ensures var dir := Unpacked(c, true, img, ramdisk, entries);
            && AllThere(entries, dir)
            && ((forall k :: 0 <= k < |entries| ==>
                   NewDataAt(c, true, img, ramdisk, entries, dir, k) == EntryData(img, ramdisk, entries[k]))
                <==> SharedFilesAgree(img, ramdisk, entries))
  {
    hide NewData, FileName, Unpacked, NameFits, EntryData;
    var dir := Unpacked(c, true, img, ramdisk, entries);
    forall k | 0 <= k < |entries|
      ensures FileName(entries[k], REPACK_BUFFER) in dir && FileName(entries[k], REPACK_BUFFER) == FileName(entries[k], UNPACK_BUFFER)
      ensures Keeper(entries, FileName(entries[k], UNPACK_BUFFER)) >= 0
      ensures NewData(c, true, img, ramdisk, entries[k], dir[FileName(entries[k], REPACK_BUFFER)])
           == EntryData(img, ramdisk, entries[Keeper(entries, FileName(entries[k], UNPACK_BUFFER))])
    {
      NewDataIsKeepers(c, img, ramdisk, entries, k);
    }
    forall k | 0 <= k < |entries|
      ensures FileName(entries[Keeper(entries, FileName(entries[k], UNPACK_BUFFER))], UNPACK_BUFFER) == FileName(entries[k], UNPACK_BUFFER)
    {
      KeeperOf(entries, k);
    }
  }

  // ----- the table, read back

  lemma {:induction false} TableLength(entries: seq<TableEntry>)
    requires WellSized(entries)
    ensures |TableBytes(entries)| == |entries| * ENTRY_SIZE
    decreases |entries|
  {
    hide LE32;
    if entries != [] { TableLength(entries[..|entries| - 1]); }
  }

  lemma EntryReadsBack(table: bytes, at: nat, e: TableEntry)
    requires |e.rest| == ENTRY_SIZE - 8 && Holds(table, at, EntryBytes(e))
    ensures EntryAt(table, at) == e
  {
    hide LE32, ReadLE32;
    HoldsConcat(table, at, LE32(e.size) + LE32(e.offset), e.rest);
    HoldsConcat(table, at, LE32(e.size), LE32(e.offset));
    WordHeld(table, at, e.size);
    WordHeld(table, at + 4, e.offset);
  }

  /** The written table reads back entry by entry, whatever follows it. */
  lemma {:induction false} TableReadsBack(entries: seq<TableEntry>, table: bytes)
    requires WellSized(entries) && Holds(table, 0, TableBytes(entries))
    ensures |entries| * ENTRY_SIZE <= |table| && EntriesOf(table, |entries|) == entries
    decreases |entries|
  {
    hide EntryBytes, EntryAt, Holds;
    TableLength(entries);
    TableInside(table, entries);
    if entries != [] {
      var init, last := entries[..|entries| - 1], entries[|entries| - 1];
      HoldsConcat(table, 0, TableBytes(init), EntryBytes(last));
      TableLength(init);
      TableReadsBack(init, table);
      EntryReadsBack(table, |init| * ENTRY_SIZE, last);
      assert entries == init + [last];
    }
  }

  lemma TableInside(table: bytes, entries: seq<TableEntry>)
    requires Holds(table, 0, TableBytes(entries))
    ensures |TableBytes(entries)| <= |table|
  {
  }
}
