/**
 * `load_from_data` undoes `dump`, for exactly the archives the format can carry, and reads a
 * concatenation of dumped archives as one overriding the next.
 */
module CpioRoundTrip {
  import opened Bytes
  import opened Utf8
  import opened NameOrder
  import opened CpioFormat
  import Hex

  lemma {:induction false} FieldsLayout(fs: seq<nat>)
    requires forall i :: 0 <= i < |fs| ==> fs[i] < U32
    ensures |Fields(fs)| == 8 * |fs|
    ensures forall i :: 0 <= i < |fs| ==> Holds(Fields(fs), 8 * i, Hex.Print(fs[i], 8))
  {
    if fs != [] {
      Hex.FieldOfPrint(fs[0]);
      FieldsLayout(fs[1..]);
      var head, tail := Hex.Print(fs[0], 8), Fields(fs[1..]);
      HoldsConcat(head + tail, 0, head, tail);
      forall i | 0 < i < |fs| ensures Holds(Fields(fs), 8 * i, Hex.Print(fs[i], 8)) {
        HoldsShift(head, tail, 8 * (i - 1), Hex.Print(fs[i], 8));
      }
    }
  }

  lemma HoldsShift(head: bytes, tail: bytes, at: nat, piece: bytes)
    requires Holds(tail, at, piece)
    ensures Holds(head + tail, |head| + at, piece)
  {
    HoldsPointwise(tail, at, piece);
    HoldsPointwise(head + tail, |head| + at, piece);
  }

  /** Every field of a header whose numbers fit reads back as written. */
  lemma HeaderReadsBack(data: bytes, pos: nat, fs: seq<nat>)
    requires |fs| == 13 && forall i :: 0 <= i < 13 ==> fs[i] < U32
    requires Holds(data, pos, MAGIC + Fields(fs))
    ensures pos + HEADER_SIZE <= |data| && data[pos..pos + 6] == MAGIC
    ensures forall i :: 0 <= i < 13 ==> FieldAt(data, pos, i) == Some(fs[i])
  {
    hide Fields, Hex.Print, Hex.Parse;
    FieldsLayout(fs);
    HoldsConcat(data, pos, MAGIC, Fields(fs));
    forall i | 0 <= i < 13 ensures FieldAt(data, pos, i) == Some(fs[i]) {
      Hex.FieldOfPrint(fs[i]);
      HoldsPart(data, pos + 6, Fields(fs), 8 * i, 8 * i + 8);
    }
  }

  /** The header and the NUL-terminated name of a record, read back. */
  lemma HeadReadsBack(data: bytes, pos: nat, fs: seq<nat>, name: Name)
    requires |fs| == 13 && forall i :: 0 <= i < 13 ==> fs[i] < U32
    requires NulFree(name) && IsUtf8(name) && fs[11] == |name| + 1
    requires Holds(data, pos, Head(fs, name))
    ensures pos + HEADER_SIZE <= |data|
    ensures ReadRecord(data, pos) == ReadBody(data, pos, name, Align4(pos + HEADER_SIZE + |name| + 1))
    ensures forall i :: 0 <= i < 13 ==> FieldAt(data, pos, i) == Some(fs[i])
  {
    hide Fields, Hex.Print, Hex.Parse, Hex.Field, IsUtf8, FindMagic, ReadBody, CString;
    FieldsLayout(fs);
    HoldsConcat(data, pos, MAGIC + Fields(fs), name + [0]);
    HeaderReadsBack(data, pos, fs);
    CStringOfName(name);
    RecordHead(data, pos, name);
  }

  lemma RecordHead(data: bytes, pos: nat, name: Name)
    requires pos + HEADER_SIZE <= |data| && data[pos..pos + 6] == MAGIC
    requires |name| + 1 < U32 && FieldAt(data, pos, 11) == Some(|name| + 1)
    requires Holds(data, pos + HEADER_SIZE, name + [0]) && CString(name + [0]) == Some(name)
    ensures ReadRecord(data, pos) == ReadBody(data, pos, name, Align4(pos + HEADER_SIZE + |name| + 1))
  {
    hide Fields, Hex.Print, Hex.Parse, Hex.Field, FieldAt, IsUtf8, FindMagic, ReadBody, CString;
  }

  lemma CStringOfName(name: Name)
    requires NulFree(name) && IsUtf8(name)
    ensures CString(name + [0]) == Some(name)
  {
    assert (name + [0])[..|name|] == name;
  }

  lemma PaddedHolds(data: bytes, pos: nat, s: bytes)
    requires pos % 4 == 0 && Holds(data, pos, Padded(s))
    ensures Holds(data, pos, s) && Align4(pos + |s|) == pos + |Padded(s)| <= |data|
  {
    HoldsConcat(data, pos, s, Zeros(Align4(|s|) - |s|));
    AlignShift(pos, |s|);
  }

  /** One written record reads back as its name and entry, and reading goes on right after it. */
  lemma RecordReadsBack(data: bytes, pos: nat, name: Name, e: Entry, inode: u32)
    requires pos % 4 == 0 && Storable(name, e) && IsUtf8(name)
    requires Holds(data, pos, RecordBytes(name, e, inode))
    ensures pos < |data| && ReadRecord(data, pos) == Put(name, e, pos + |RecordBytes(name, e, inode)|)
  {
    hide Fields, Hex.Print, Hex.Parse, Hex.Field, FieldAt, IsUtf8, FindMagic, ReadRecord, ReadBody, Holds, Padded, Align4;
    var fs := EntryFields(name, e, inode);
    var head := Head(fs, name);
    var at := pos + |Padded(head)|;
    FieldsLayout(fs);
    HoldsConcat(data, pos, Padded(head), Padded(e.data));
    PaddedHolds(data, pos, head);
    HeadReadsBack(data, pos, fs, name);
    PaddedHolds(data, at, e.data);
    BodyReadsBack(data, pos, name, e, at);
  }

  lemma BodyReadsBack(data: bytes, pos: nat, name: Name, e: Entry, at: nat)
    requires pos + HEADER_SIZE <= |data| && pos < at && Storable(name, e) && Holds(data, at, e.data)
    requires FieldAt(data, pos, 1) == Some(e.mode) && FieldAt(data, pos, 2) == Some(e.uid)
    requires FieldAt(data, pos, 3) == Some(e.gid) && FieldAt(data, pos, 6) == Some(|e.data|)
    requires FieldAt(data, pos, 9) == Some(e.rdevmajor) && FieldAt(data, pos, 10) == Some(e.rdevminor)
    ensures ReadBody(data, pos, name, at) == Put(name, e, Align4(at + |e.data|))
  {
    hide FieldAt, FindMagic, Align4;
  }

  /** At a written trailer the reader looks for the next magic after it. */
  lemma TrailerReadsBack(data: bytes, pos: nat, inode: u32)
    requires pos % 4 == 0 && Holds(data, pos, TrailerBytes(inode))
    ensures var end := pos + |TrailerBytes(inode)|;
            && end % 4 == 0 && pos < end <= |data|
            && ReadRecord(data, pos) == match FindMagic(data, end) { case None => Stop case Some(n) => Skip(n) }
  {
    hide Fields, Hex.Print, Hex.Parse, Hex.Field, FieldAt, IsUtf8, FindMagic, ReadRecord, Holds, Padded, Align4;
    var fs := TrailerFields(inode);
    FieldsLayout(fs);
    PaddedHolds(data, pos, Head(fs, TRAILER));
    AsciiIsUtf8(TRAILER);
    HeadReadsBack(data, pos, fs, TRAILER);
  }

  lemma {:induction false} AsciiIsUtf8(s: bytes)
    requires forall i :: 0 <= i < |s| ==> s[i] < 0x80
    ensures IsUtf8(s)
  {
    if s != [] { AsciiIsUtf8(s[1..]); }
  }

  /** The sub-archive of the listed names. */
  function Pick(names: seq<Name>, m: Archive): Archive
    requires forall n :: n in names ==> n in m
  {
    map n | n in names :: m[n]
  }

  lemma {:induction false} LoadRecords(data: bytes, pos: nat, names: seq<Name>, m: Archive, inode: nat, acc: Archive)
    requires pos % 4 == 0 && forall n :: n in names ==> n in m && Storable(n, m[n]) && IsUtf8(n)
    requires inode + |names| <= U32 && Holds(data, pos, Records(names, m, inode))
    ensures LoadFrom(data, pos, acc) == LoadFrom(data, pos + |Records(names, m, inode)|, acc + Pick(names, m))
    decreases names
  {
    hide RecordBytes, ReadRecord, Storable, IsUtf8, Holds;
    if names == [] {
      assert acc + Pick(names, m) == acc;
    } else {
      var name := names[0];
      var first := RecordBytes(name, m[name], inode);
      HoldsConcat(data, pos, first, Records(names[1..], m, inode + 1));
      RecordReadsBack(data, pos, name, m[name], inode);
      LoadRecords(data, pos + |first|, names[1..], m, inode + 1, acc[name := m[name]]);
      assert acc[name := m[name]] + Pick(names[1..], m) == acc + Pick(names, m);
    }
  }

  /** Reading a dumped archive from an aligned position, up to the scan after its trailer. */
  lemma LoadDumped(data: bytes, pos: nat, m: Archive, acc: Archive)
    requires AllStorable(m) && WellTyped(m) && FIRST_INODE + |m| < U32
    requires pos % 4 == 0 && Holds(data, pos, Dumped(m))
    ensures var end := pos + |Dumped(m)|;
            && end % 4 == 0 && end <= |data|
            && LoadFrom(data, pos, acc) ==
                 match FindMagic(data, end) { case None => Loaded(acc + m) case Some(n) => LoadFrom(data, n, acc + m) }
  {
    hide TrailerBytes, Records, ReadRecord, Storable, IsUtf8, Holds, FindMagic, Sorted;
    var names := Sorted(m.Keys);
    assert |m| == |m.Keys|;
    HoldsConcat(data, pos, Records(names, m, FIRST_INODE), TrailerBytes(FIRST_INODE + |m|));
    LoadRecords(data, pos, names, m, FIRST_INODE, acc);
    assert Pick(names, m) == m;
    TrailerReadsBack(data, pos + |Records(names, m, FIRST_INODE)|, FIRST_INODE + |m|);
  }

  // ----- what every loaded archive satisfies

  lemma ReadRecordStorable(data: bytes, pos: nat)
    requires pos < |data|
    ensures var s := ReadRecord(data, pos); s.Put? ==> Storable(s.name, s.entry) && IsUtf8(s.name)
  {
  }

  /** Whatever the bytes, a loaded archive has only names and fields the format can carry. */
  lemma {:induction false} LoadFromStorable(data: bytes, pos: nat, acc: Archive)
    requires AllStorable(acc) && WellTyped(acc)
    ensures var r := LoadFrom(data, pos, acc); r.Loaded? ==> AllStorable(r.entries) && WellTyped(r.entries)
    decreases |data| - pos
  {
    if pos < |data| {
      ReadRecordStorable(data, pos);
      match ReadRecord(data, pos)
      case Skip(next) => LoadFromStorable(data, next, acc);
      case Put(name, entry, next) => LoadFromStorable(data, next, acc[name := entry]);
      case _ =>
    }
  }

  /**
   * Main result: below the 32-bit inode limit, a dumped archive loads back unchanged if and only
   * if the format can carry every entry.
   */
  lemma LoadUndoesDump(m: Archive)
    requires WellTyped(m) && FIRST_INODE + |m| < U32
    ensures Load(Dumped(m)) == Loaded(m) <==> AllStorable(m)
  {
    hide LoadFrom, Dumped, Storable, IsUtf8, ReadRecord;
    if AllStorable(m) {
      LoadDumped(Dumped(m), 0, m, map[]);
      assert FindMagic(Dumped(m), |Dumped(m)|).None?;
      assert map[] + m == m;
    } else {
      LoadFromStorable(Dumped(m), 0, map[]);
    }
  }

  /** Loading any bytes and dumping the result gives a fixed point of load-then-dump. */
  lemma DumpLoadDump(data: bytes)
    requires var r := Load(data); r.Loaded? && FIRST_INODE + |r.entries| < U32
    ensures Load(Dumped(Load(data).entries)) == Load(data)
  {
    LoadFromStorable(data, 0, map[]);
    LoadUndoesDump(Load(data).entries);
  }

  // ----- concatenated archives

  /** An archive in a concatenated image, followed by `padWords` zero words. */
  datatype Segment = Segment(archive: Archive, padWords: nat)

  function Joined(segs: seq<Segment>): bytes {
    if segs == [] then [] else Dumped(segs[0].archive) + Zeros(4 * segs[0].padWords) + Joined(segs[1..])
  }

  /** Later archives override earlier ones, name by name. */
  function Overridden(acc: Archive, segs: seq<Segment>): Archive
    decreases segs
  {
    if segs == [] then acc else Overridden(acc + segs[0].archive, segs[1..])
  }

  predicate Joinable(s: Segment) {
    AllStorable(s.archive) && WellTyped(s.archive) && FIRST_INODE + |s.archive| < U32
  }

  lemma {:induction false} FindMagicSkipsZeros(data: bytes, at: nat, n: nat)
    requires at + n <= |data| && forall i :: at <= i < at + n ==> data[i] == 0
    ensures FindMagic(data, at) == FindMagic(data, at + n)
    decreases n
  {
    if n > 0 {
      FindMagicSkipsZeros(data, at + 1, n - 1);
      if at + 6 <= |data| {
        assert data[at..at + 6][0] == 0 && MAGIC[0] == 48;
      } else {
        assert FindMagic(data, at + 1).None?;
      }
    }
  }

  lemma DumpedStartsWithMagic(m: Archive)
    ensures Holds(Dumped(m), 0, MAGIC)
  {
    hide Fields, Hex.Print, Holds, Padded;
    var names, d := Sorted(m.Keys), Dumped(m);
    HoldsMiddle([], d, []);
    assert [] + d + [] == d;
    HoldsConcat(d, 0, Records(names, m, FIRST_INODE), TrailerBytes(FIRST_INODE + |m|));
    if names == [] {
      PaddedStartsWithMagic(d, TrailerFields(FIRST_INODE + |m|), TRAILER);
    } else {
      var e := m[names[0]];
      var head := Head(EntryFields(names[0], e, FIRST_INODE), names[0]);
      HoldsConcat(d, 0, RecordBytes(names[0], e, FIRST_INODE), Records(names[1..], m, FIRST_INODE + 1));
      HoldsConcat(d, 0, Padded(head), Padded(e.data));
      PaddedStartsWithMagic(d, EntryFields(names[0], e, FIRST_INODE), names[0]);
    }
  }

  lemma PaddedStartsWithMagic(d: bytes, fs: seq<nat>, name: Name)
    requires Holds(d, 0, Padded(Head(fs, name)))
    ensures Holds(d, 0, MAGIC)
  {
    hide Fields, Holds;
    var head := Head(fs, name);
    HoldsConcat(d, 0, head, Zeros(Align4(|head|) - |head|));
    HoldsConcat(d, 0, MAGIC + Fields(fs), name + [0]);
    HoldsConcat(d, 0, MAGIC, Fields(fs));
  }

  /** One archive and its padding, then nothing or the next magic. */
  lemma LoadSegment(data: bytes, pos: nat, seg: Segment, rest: bytes, acc: Archive)
    requires Joinable(seg) && pos % 4 == 0 && (rest == [] || Holds(rest, 0, MAGIC))
    requires var whole := Dumped(seg.archive) + Zeros(4 * seg.padWords) + rest; Holds(data, pos, whole) && pos + |whole| == |data|
    ensures var next := pos + |Dumped(seg.archive)| + 4 * seg.padWords;
            && next % 4 == 0 && Holds(data, next, rest) && next + |rest| == |data|
            && LoadFrom(data, pos, acc) == if rest == [] then Loaded(acc + seg.archive) else LoadFrom(data, next, acc + seg.archive)
  {
    hide LoadFrom, Dumped, Storable, IsUtf8, Holds, FindMagic, Joinable;
    var m, z := seg.archive, Zeros(4 * seg.padWords);
    SegmentLoads(seg);
    HoldsConcat(data, pos, Dumped(m) + z, rest);
    HoldsConcat(data, pos, Dumped(m), z);
    LoadDumped(data, pos, m, acc);
    ScanPastZeros(data, pos + |Dumped(m)|, |z|, rest);
  }

  lemma {:induction false} LoadJoinedFrom(data: bytes, pos: nat, segs: seq<Segment>, acc: Archive)
    requires pos % 4 == 0 && forall s :: s in segs ==> Joinable(s)
    requires Holds(data, pos, Joined(segs)) && pos + |Joined(segs)| == |data|
    ensures LoadFrom(data, pos, acc) == Loaded(Overridden(acc, segs))
    decreases segs
  {
    hide LoadFrom, Dumped, Holds, Joinable;
    if segs == [] {
      LoadNothing(data, acc);
    } else {
      var first, more := segs[0], segs[1..];
      assert first in segs && forall s :: s in more ==> s in segs;
      if more != [] { JoinedStartsWithMagic(more); }
      LoadSegment(data, pos, first, Joined(more), acc);
      LoadJoinedFrom(data, pos + |Dumped(first.archive)| + 4 * first.padWords, more, acc + first.archive);
      if more == [] { LoadNothing(data, acc + first.archive); }
    }
  }

  lemma LoadNothing(data: bytes, acc: Archive)
    ensures LoadFrom(data, |data|, acc) == Loaded(acc)
  {
  }

  lemma SegmentLoads(s: Segment)
    requires Joinable(s)
    ensures AllStorable(s.archive) && WellTyped(s.archive) && FIRST_INODE + |s.archive| < U32
  {
  }

  /** After `n` zeros the scan finds the magic at once when `rest` starts with it. */
  lemma ScanPastZeros(data: bytes, at: nat, n: nat, rest: bytes)
    requires Holds(data, at, Zeros(n)) && Holds(data, at + n, rest) && at + n + |rest| == |data|
    ensures rest == [] ==> FindMagic(data, at).None?
    ensures Holds(rest, 0, MAGIC) ==> FindMagic(data, at) == Some(at + n)
  {
    HoldsPointwise(data, at, Zeros(n));
    forall i | at <= i < at + n ensures data[i] == 0 { assert Zeros(n)[i - at] == 0; }
    FindMagicSkipsZeros(data, at, n);
    if Holds(rest, 0, MAGIC) { HoldsPart(data, at + n, rest, 0, |MAGIC|); }
  }

  lemma JoinedStartsWithMagic(segs: seq<Segment>)
    requires segs != []
    ensures Holds(Joined(segs), 0, MAGIC)
  {
    var d, z := Dumped(segs[0].archive), Zeros(4 * segs[0].padWords);
    DumpedStartsWithMagic(segs[0].archive);
    HoldsConcat(Joined(segs), 0, d + z, Joined(segs[1..]));
    HoldsConcat(Joined(segs), 0, d, z);
    HoldsPart(Joined(segs), 0, d, 0, |MAGIC|);
  }

  /**
   * Any number of dumped archives one after the other, with zero words between them, loads as
   * their left-to-right override.
   */
  lemma LoadJoined(segs: seq<Segment>)
    requires forall s :: s in segs ==> Joinable(s)
    ensures Load(Joined(segs)) == Loaded(Overridden(map[], segs))
  {
    LoadJoinedFrom(Joined(segs), 0, segs, map[]);
  }

  // ----- the header by its members

  /** The members of a newc header, in order. */
  datatype CpioHeader = CpioHeader(
    ino: u32, mode: u32, uid: u32, gid: u32, nlink: u32, mtime: u32, filesize: u32, devmajor: u32, devminor: u32,
    rdevmajor: u32, rdevminor: u32, namesize: u32, check: u32)

  function Members(h: CpioHeader): (m: seq<nat>)
    ensures |m| == 13
  {
    [h.ino, h.mode, h.uid, h.gid, h.nlink, h.mtime, h.filesize, h.devmajor, h.devminor, h.rdevmajor, h.rdevminor, h.namesize, h.check]
  }

  /** The magic, then every member with eight digits. */
  function HeaderText(h: CpioHeader): bytes {
    Ascii("070701") + Fields(Members(h))
  }

  /** Main result for the writer: a record is a header of these members, the name with its NUL, and the data, each padded to four bytes. */
  lemma RecordByMembers(name: Name, e: Entry, inode: u32)
    requires |name| + 1 < U32 && |e.data| < U32 && e.rdevmajor < U32 && e.rdevminor < U32
    ensures var h := CpioHeader(inode, e.mode, e.uid, e.gid, 1, 0, |e.data|, 0, 0, e.rdevmajor, e.rdevminor, |name| + 1, 0);
            RecordBytes(name, e, inode) == Padded(HeaderText(h) + (name + [0])) + Padded(e.data)
    ensures TrailerBytes(inode)
         == Padded(HeaderText(CpioHeader(inode, 0x1ED, 0, 0, 1, 0, 0, 0, 0, 0, 0, 11, 0)) + (Ascii("TRAILER!!!") + [0]))
  {
    hide Hex.Print, Fields, Padded;
    assert Ascii("070701") == MAGIC && Ascii("TRAILER!!!") == TRAILER;
  }

  /**
   * Main result for the reader: whatever its other members are, a header with a name and data behind it
   * gives an entry of its mode, owner and device numbers, and its size of data from the next four-byte
   * boundary on; names of the current and parent directory are stepped over.
   */
  lemma HeaderRead(data: bytes, pos: nat, h: CpioHeader, name: Name)
    requires Holds(data, pos, HeaderText(h) + (name + [0])) && h.namesize == |name| + 1 && NulFree(name) && IsUtf8(name)
    ensures pos < |data|
    ensures var at := Align4(pos + 110 + h.namesize);
            && (name in {Ascii("."), Ascii("..")} ==> ReadRecord(data, pos) == Skip(at))
            && (name !in {Ascii("."), Ascii(".."), Ascii("TRAILER!!!")} ==>
                  ReadRecord(data, pos)
                    == if at + h.filesize > |data| then Fail(OutOfBounds)
                       else Put(name, Entry(h.mode, h.uid, h.gid, h.rdevmajor, h.rdevminor, data[at..at + h.filesize]),
                                Align4(at + h.filesize)))
  {
    hide Hex.Print, Hex.Parse, Hex.Field, Fields, ReadRecord, IsUtf8, Holds;
    SpecialNames();
    assert HeaderText(h) + (name + [0]) == Head(Members(h), name);
    HeadReadsBack(data, pos, Members(h), name);
    BodyRead(data, pos, h, name, Align4(pos + 110 + h.namesize));
  }

  lemma SpecialNames()
    ensures Ascii("070701") == MAGIC && Ascii(".") == DOT && Ascii("..") == DOTDOT && Ascii("TRAILER!!!") == TRAILER
  {
  }

  lemma BodyRead(data: bytes, pos: nat, h: CpioHeader, name: Name, at: nat)
    requires pos + HEADER_SIZE <= |data| && pos < at && forall i :: 0 <= i < 13 ==> FieldAt(data, pos, i) == Some(Members(h)[i])
    ensures name in {DOT, DOTDOT} ==> ReadBody(data, pos, name, at) == Skip(at)
    ensures name !in {DOT, DOTDOT, TRAILER} ==>
              ReadBody(data, pos, name, at)
                == if at + h.filesize > |data| then Fail(OutOfBounds)
                   else Put(name, Entry(h.mode, h.uid, h.gid, h.rdevmajor, h.rdevminor, data[at..at + h.filesize]), Align4(at + h.filesize))
  {
    hide FieldAt;
  }

  lemma {:induction false} RecordsJoin(a: seq<Name>, b: seq<Name>, m: Archive, inode: nat)
    requires forall n :: n in a + b ==> n in m
    ensures (forall n :: n in a ==> n in m) && (forall n :: n in b ==> n in m)
    ensures Records(a + b, m, inode) == Records(a, m, inode) + Records(b, m, inode + |a|)
    decreases a
  {
    hide RecordBytes;
    assert forall n :: n in a ==> n in a + b;
    assert forall n :: n in b ==> n in a + b;
    if a == [] {
      assert a + b == b;
    } else {
      assert (a + b)[1..] == a[1..] + b && (a + b)[0] == a[0];
      RecordsJoin(a[1..], b, m, inode + 1);
    }
  }

  lemma DumpedIs(m: Archive, names: seq<Name>)
    requires names == Sorted(m.Keys)
    ensures forall n :: n in names ==> n in m
    ensures Dumped(m) == Records(names, m, 300000) + TrailerBytes(300000 + |m|)
  {
  }

  /** The records stand in name order, the `k`-th under inode 300000 + k, and the trailer under the one behind the last. */
  lemma DumpedInOrder(m: Archive, a: seq<Name>, n: Name, b: seq<Name>)
    requires Sorted(m.Keys) == a + ([n] + b)
    ensures n in m && (forall x :: x in a ==> x in m) && (forall x :: x in b ==> x in m)
    ensures Dumped(m)
         == Records(a, m, 300000) + (RecordBytes(n, m[n], 300000 + |a|) + Records(b, m, 300001 + |a|)) + TrailerBytes(300000 + |m|)
  {
    DumpedIs(m, a + ([n] + b));
    InOrder(m, a, n, b);
  }

  lemma InOrder(m: Archive, a: seq<Name>, n: Name, b: seq<Name>)
    requires forall x :: x in a + ([n] + b) ==> x in m
    ensures n in m && (forall x :: x in a ==> x in m) && (forall x :: x in b ==> x in m)
    ensures Records(a + ([n] + b), m, 300000)
         == Records(a, m, 300000) + (RecordBytes(n, m[n], 300000 + |a|) + Records(b, m, 300001 + |a|))
  {
    hide RecordBytes, Records;
    assert n in a + ([n] + b);
    RecordsJoin(a, [n] + b, m, 300000);
    assert forall x :: x in b ==> x in [n] + b;
    OneRecord(n, b, m, 300000 + |a|);
  }

  lemma OneRecord(n: Name, b: seq<Name>, m: Archive, inode: nat)
    requires n in m && forall x :: x in b ==> x in m
    ensures Records([n] + b, m, inode) == RecordBytes(n, m[n], inode) + Records(b, m, inode + 1)
  {
    hide RecordBytes;
    assert ([n] + b)[1..] == b;
  }
}
