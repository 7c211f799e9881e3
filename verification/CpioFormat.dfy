/**
 * The newc archive format: what `dump` writes for a sorted map of entries, and what
 * `load_from_data` reads back.
 */
module CpioFormat {
  import opened Bytes
  import opened Utf8
  import opened NameOrder
  import Hex

  /** One archive member; `dev_t` is 64 bits wide while the header holds 32. */
  datatype Entry = Entry(mode: u32, uid: u32, gid: u32, rdevmajor: u64, rdevminor: u64, data: bytes)

  /** The `BTreeMap` of a `Cpio`, keyed by the bytes of the name. */
  type Archive = map<Name, Entry>

  const MAGIC: bytes := [0x30, 0x37, 0x30, 0x37, 0x30, 0x31] // "070701"
  const TRAILER: bytes := [0x54, 0x52, 0x41, 0x49, 0x4C, 0x45, 0x52, 0x21, 0x21, 0x21] // "TRAILER!!!"
  const DOT: bytes := [0x2E] // "."
  const DOTDOT: bytes := [0x2E, 0x2E] // ".."
  const HEADER_SIZE := 110
  const FIRST_INODE := 300000
  const TRAILER_MODE := 0x1ED // 0755

  function Align4(x: nat): (y: nat)
    ensures x <= y < x + 4 && y % 4 == 0
  {
    (x + 3) / 4 * 4
  }

  // ----- writing

  lemma AlignShift(base: nat, x: nat)
    requires base % 4 == 0
    ensures Align4(base + x) == base + Align4(x)
  {
  }

  function Fields(fs: seq<nat>): bytes {
    if fs == [] then [] else Hex.Print(fs[0], 8) + Fields(fs[1..])
  }

  /** The thirteen numbers of a header, in order; the link count is 1 and `mtime`, device and check are 0. */
  function HeaderFields(inode: nat, mode: nat, uid: nat, gid: nat, size: nat, rmajor: nat, rminor: nat, nameSize: nat): seq<nat> {
    [inode, mode, uid, gid, 1, 0, size, 0, 0, rmajor, rminor, nameSize, 0]
  }

  function Head(fields: seq<nat>, name: Name): bytes {
    MAGIC + Fields(fields) + (name + [0])
  }

  function Padded(s: bytes): (p: bytes)
    ensures |p| == Align4(|s|) && p[..|s|] == s
  {
    s + Zeros(Align4(|s|) - |s|)
  }

  function EntryFields(name: Name, e: Entry, inode: nat): seq<nat> {
    HeaderFields(inode, e.mode, e.uid, e.gid, |e.data|, e.rdevmajor, e.rdevminor, |name| + 1)
  }

  function RecordBytes(name: Name, e: Entry, inode: nat): (r: bytes)
    ensures |r| % 4 == 0
  {
    Padded(Head(EntryFields(name, e, inode), name)) + Padded(e.data)
  }

  function TrailerFields(inode: nat): seq<nat> {
    HeaderFields(inode, TRAILER_MODE, 0, 0, 0, 0, 0, |TRAILER| + 1)
  }

  function TrailerBytes(inode: nat): bytes {
    Padded(Head(TrailerFields(inode), TRAILER))
  }

  function Records(names: seq<Name>, m: Archive, inode: nat): (r: bytes)
    requires forall n :: n in names ==> n in m
    ensures |r| % 4 == 0
  {
    if names == [] then []
    else RecordBytes(names[0], m[names[0]], inode) + Records(names[1..], m, inode + 1)
  }

  /** The whole file `dump` leaves behind. */
  function Dumped(m: Archive): bytes {
    Records(Sorted(m.Keys), m, FIRST_INODE) + TrailerBytes(FIRST_INODE + |m|)
  }

  // ----- reading

  /** `OutOfBounds` is a slice index panic, the others are the reported errors. */
  datatype LoadError = BadMagic | BadField | BadName | OutOfBounds

  datatype Loaded = Loaded(entries: Archive) | Failed(error: LoadError)

  /** What one turn of the reading loop does. */
  datatype Step =
    | Fail(error: LoadError)
    | Skip(next: nat)
    | Put(name: Name, entry: Entry, next: nat)
    | Stop

  /** First position from `at` on where the magic occurs. */
  function FindMagic(data: bytes, at: nat): (r: Option<nat>)
    ensures r.Some? ==> at <= r.value <= |data|
    decreases |data| - at
  {
    if at + 6 > |data| then None
    else if data[at..at + 6] == MAGIC then Some(at)
    else FindMagic(data, at + 1)
  }

  function FieldAt(data: bytes, pos: nat, i: nat): Option<u32>
    requires i < 13 && pos + HEADER_SIZE <= |data|
  {
    Hex.Field(data[pos + 6 + 8 * i..pos + 14 + 8 * i])
  }

  /** A name is NUL-terminated, has no other NUL and is UTF-8. */
  function CString(s: bytes): Option<Name> {
    if s != [] && s[|s| - 1] == 0 && NulFree(s[..|s| - 1]) && IsUtf8(s[..|s| - 1]) then Some(s[..|s| - 1]) else None
  }

  function ReadRecord(data: bytes, pos: nat): (s: Step)
    requires pos < |data|
    ensures s.Skip? || s.Put? ==> s.next > pos
  {
    if pos + HEADER_SIZE > |data| then Fail(OutOfBounds)
    else if data[pos..pos + 6] != MAGIC then Fail(BadMagic)
    else
      match FieldAt(data, pos, 11)
      case None => Fail(BadField)
      case Some(nameSize) =>
        var nameEnd := pos + HEADER_SIZE + nameSize;
        if nameEnd > |data| then Fail(OutOfBounds)
        else
          match CString(data[pos + HEADER_SIZE..nameEnd])
          case None => Fail(BadName)
          case Some(name) => ReadBody(data, pos, name, Align4(nameEnd))
  }

  function ReadBody(data: bytes, pos: nat, name: Name, at: nat): (s: Step)
    requires pos + HEADER_SIZE <= |data| && pos < at
    ensures s.Skip? || s.Put? ==> s.next > pos
  {
    if name == DOT || name == DOTDOT then Skip(at)
    else if name == TRAILER then
      if at > |data| then Fail(OutOfBounds)
      else match FindMagic(data, at)
        case None => Stop
        case Some(next) => Skip(next)
    else
      match (FieldAt(data, pos, 6), FieldAt(data, pos, 1), FieldAt(data, pos, 2), FieldAt(data, pos, 3),
             FieldAt(data, pos, 9), FieldAt(data, pos, 10))
      case (Some(size), Some(mode), Some(uid), Some(gid), Some(rmajor), Some(rminor)) =>
        if at + size > |data| then Fail(OutOfBounds)
        else Put(name, Entry(mode, uid, gid, rmajor, rminor, data[at..at + size]), Align4(at + size))
      case _ => Fail(BadField)
  }

  /** Reading from `pos` on, with `acc` already read. */
  function LoadFrom(data: bytes, pos: nat, acc: Archive): Loaded
    decreases |data| - pos
  {
    if pos >= |data| then Loaded(acc)
    else match ReadRecord(data, pos)
      case Fail(e) => Failed(e)
      case Stop => Loaded(acc)
      case Skip(next) => LoadFrom(data, next, acc)
      case Put(name, entry, next) => LoadFrom(data, next, acc[name := entry])
  }

  function Load(data: bytes): Loaded {
    LoadFrom(data, 0, map[])
  }

  // ----- which archives survive

  /** The names and field widths the format can carry. */
  predicate Storable(name: Name, e: Entry) {
    && NulFree(name) && name != DOT && name != DOTDOT && name != TRAILER
    && |name| + 1 < U32 && |e.data| < U32 && e.rdevmajor < U32 && e.rdevminor < U32
  }

  predicate AllStorable(m: Archive) {
    forall n :: n in m ==> Storable(n, m[n])
  }

  /** Keys are Rust strings, so they are UTF-8 by type. */
  predicate WellTyped(m: Archive) {
    forall n :: n in m ==> IsUtf8(n)
  }
}
