/**
 * What `rm`, `backup` and `restore` compute, as functions on archives. xz is foreign code: it
 * enters as a pair of functions, and theorems about it assume that unxz undoes xz.
 */
module CpioBackup {
  import opened Bytes
  import opened Utf8
  import opened NameOrder
  import opened CpioFormat
  import opened Paths

  const BACKUP: Name := [0x2E, 0x62, 0x61, 0x63, 0x6B, 0x75, 0x70] // ".backup"
  const PREFIX: Name := BACKUP + [SLASH]
  const DOT_RMLIST: Name := [0x2E, 0x72, 0x6D, 0x6C, 0x69, 0x73, 0x74] // ".rmlist"
  const DOT_MAGISK: Name := [0x2E, 0x6D, 0x61, 0x67, 0x69, 0x73, 0x6B] // ".magisk"
  const DOT_XZ: Name := [0x2E, 0x78, 0x7A] // ".xz"
  const RMLIST: Name := PREFIX + DOT_RMLIST
  const MAGISK: Name := PREFIX + DOT_MAGISK

  const S_IFDIR := 0x4000
  const S_IFREG := 0x8000

  /** The two foreign functions; `None` is their failure. */
  datatype Codec = Codec(xz: bytes -> Option<bytes>, unxz: bytes -> Option<bytes>)

  ghost predicate Sound(c: Codec) {
    forall d :: c.xz(d).Some? ==> c.unxz(c.xz(d).value) == Some(d)
  }

  /** `mode & S_IFMT == S_IFREG` */
  predicate Regular(e: Entry) {
    e.mode / 0x1000 % 16 == S_IFREG / 0x1000
  }

  function Compress(c: Codec, e: Entry): Option<Entry> {
    if Regular(e) && c.xz(e.data).Some? then Some(e.(data := c.xz(e.data).value)) else None
  }

  function Decompress(c: Codec, e: Entry): Option<Entry> {
    if Regular(e) && c.unxz(e.data).Some? then Some(e.(data := c.unxz(e.data).value)) else None
  }

  /** `rm`: the path is normalised, the names in the archive are not. */
  function Rm(m: Archive, path: bytes, recursive: bool): Archive {
    var p := NormPath(path);
    map n | n in m && n != p && !(recursive && StartsWith(n, p + [SLASH])) :: m[n]
  }

  /** `n` names something under the directory `dir`. */
  predicate Below(dir: Name, n: Name) {
    |n| > |dir| && n[..|dir|] == dir && n[|dir|] == 0x2F
  }

  /**
   * Main result: whatever slashes a path is spelled with, `rm` takes the entry that its pieces name
   * with single slashes between them, and with the recursive flag every entry below it; all others
   * stay as they are.
   */
  lemma RmTakesEntryAndBelow(m: Archive, pieces: seq<bytes>, gaps: seq<nat>, recursive: bool)
    requires IsPath(pieces, gaps)
    ensures var r, name := Rm(m, Spelled(pieces, gaps), recursive), Spelled(pieces, OneEach(|pieces|));
            && (forall n :: n in r <==> n in m && n != name && !(recursive && Below(name, n)))
            && (forall n :: n in r ==> r[n] == m[n])
  {
    NormPathOfSpelled(pieces, gaps);
    hide Spelled, NormPath;
    var name := Spelled(pieces, OneEach(|pieces|));
    forall n ensures StartsWith(n, name + [SLASH]) <==> Below(name, n) { BelowStarts(name, n); }
  }

  lemma BelowStarts(dir: Name, n: Name)
    ensures StartsWith(n, dir + [SLASH]) <==> Below(dir, n)
  {
    var p := dir + [SLASH];
    if |n| > |dir| {
      assert n[..|p|] == n[..|dir|] + [n[|dir|]];
      assert n[..|p|][..|dir|] == n[..|dir|] && p[..|dir|] == dir;
    }
  }

  function Strip(m: Archive): Archive {
    Rm(m, BACKUP, true)
  }

  // ----- backup

  /** Whether an original entry is missing from `p` or has other data there. */
  predicate Differs(p: Archive, o: Archive, n: Name)
    requires n in o
  {
    n !in p || p[n].data != o[n].data
  }

  /** Names of the original to back up, and names of the current archive to record as new. */
  function ToBackUp(names: seq<Name>, p: Archive, o: Archive): (r: seq<Name>)
    requires forall n :: n in names ==> n in o
    ensures forall n :: n in r <==> n in names && Differs(p, o, n)
  {
    if names == [] then []
    else
      var last := names[|names| - 1];
      ToBackUp(names[..|names| - 1], p, o) + if Differs(p, o, last) then [last] else []
  }

  function ToRecord(names: seq<Name>, o: Archive): (r: seq<Name>)
    ensures forall n :: n in r <==> n in names && n !in o
  {
    if names == [] then []
    else
      var last := names[|names| - 1];
      ToRecord(names[..|names| - 1], o) + if last !in o then [last] else []
  }

  /** The name and entry under which an original entry is kept. */
  function BackupOf(c: Codec, skip: bool, n: Name, e: Entry): (Name, Entry) {
    if !skip && Compress(c, e).Some? then (PREFIX + n + DOT_XZ, Compress(c, e).value) else (PREFIX + n, e)
  }

  const BACKUP_DIR := Entry(S_IFDIR, 0, 0, 0, 0, [])

  /** The backup map after inserting the listed names in order; a repeated key keeps the last. */
  function Backups(c: Codec, skip: bool, names: seq<Name>, o: Archive): Archive
    requires forall n :: n in names ==> n in o
  {
    if names == [] then map[BACKUP := BACKUP_DIR]
    else
      var last := names[|names| - 1];
      var (key, entry) := BackupOf(c, skip, last, o[last]);
      Backups(c, skip, names[..|names| - 1], o)[key := entry]
  }

  function RmListBytes(names: seq<Name>): (r: bytes)
    ensures r == [] <==> names == []
  {
    if names == [] then [] else RmListBytes(names[..|names| - 1]) + names[|names| - 1] + [0]
  }

  function RmListEntry(data: bytes): Entry {
    Entry(S_IFREG, 0, 0, 0, 0, data)
  }

  /** The names the walk backs up and those it records as new, in ascending order. */
  function KeptNames(p: Archive, o: Archive): (r: seq<Name>) {
    ToBackUp(Sorted(o.Keys), p, o)
  }

  function NewNames(p: Archive, o: Archive): (r: seq<Name>) {
    ToRecord(Sorted(p.Keys), o)
  }

  /** `backup` after both archives lost their `.backup` trees. */
  function WithBackups(c: Codec, skip: bool, p: Archive, o: Archive): Archive {
    var kept, list := Backups(c, skip, KeptNames(p, o), o), RmListBytes(NewNames(p, o));
    p + if list == [] then kept else kept[RMLIST := RmListEntry(list)]
  }

  /** The archive `backup` leaves, from the current archive `p` and the original `o`. */
  function Backup(c: Codec, skip: bool, p: Archive, o: Archive): Archive {
    WithBackups(c, skip, Strip(p), Strip(o))
  }

  // ----- restore

  predicate IsBackup(n: Name) {
    StartsWith(n, PREFIX)
  }

  /** The control names are under `.backup/`. */
  lemma RmListIsBackup()
    ensures IsBackup(RMLIST) && IsBackup(MAGISK) && RMLIST != MAGISK && !IsBackup(BACKUP)
  {
    assert RMLIST[..8] == PREFIX && MAGISK[..8] == PREFIX && RMLIST[9] != MAGISK[9];
  }

  /** The name and entry a backup is put back as. */
  function RestoreOf(c: Codec, n: Name, e: Entry): (Name, Entry)
    requires IsBackup(n)
  {
    if EndsWith(n, DOT_XZ) && Decompress(c, e).Some? then
      assert |n| >= 11 by { assert n[7] == PREFIX[7]; }
      (n[8..|n| - 3], Decompress(c, e).value)
    else (n[8..], e)
  }

  function Restored(c: Codec, names: seq<Name>, m: Archive): Archive
    requires forall n :: n in names ==> n in m && IsBackup(n)
  {
    if names == [] then map[]
    else
      var last := names[|names| - 1];
      var before := Restored(c, names[..|names| - 1], m);
      if last == RMLIST || last == MAGISK then before
      else
        var (key, entry) := RestoreOf(c, last, m[last]);
        before[key := entry]
  }

  function BackupNames(m: Archive): (r: seq<Name>)
    ensures forall n :: n in r <==> n in m && IsBackup(n)
    ensures Ascending(r)
  {
    Sorted(set n | n in m && IsBackup(n))
  }

  function ReadRmList(m: Archive): bytes {
    if RMLIST in m && IsUtf8(m[RMLIST].data) then m[RMLIST].data else []
  }

  function RmPieces(m: Archive, pieces: seq<bytes>): Archive {
    if pieces == [] then m
    else
      var before := RmPieces(m, pieces[..|pieces| - 1]);
      var last := pieces[|pieces| - 1];
      if last == [] then before else Rm(before, last, false)
  }

  /** The entries that are not under `.backup/`. */
  function Outside(m: Archive): Archive {
    map n | n in m && !IsBackup(n) :: m[n]
  }

  /** The archive `restore` leaves. */
  function Restore(c: Codec, m: Archive): Archive {
    var backups, rmList := Restored(c, BackupNames(m), m), ReadRmList(m);
    var rest := Rm(Outside(m), BACKUP, false);
    if rmList == [] && backups == map[] then map[]
    else RmPieces(rest, Split(rmList, 0)) + backups
  }
}
