/** The archive object: its map of entries and the commands that update it. */
module CpioArchive {
  import opened Bytes
  import opened Utf8
  import opened NameOrder
  import opened CpioFormat
  import opened Paths
  import CpioBackup
  import CpioPatch
  import TextPatch
  import Hex

  lemma {:induction false} RecordsSnoc(names: seq<Name>, k: Name, m: Archive, inode: nat)
    requires k in m && forall n :: n in names ==> n in m
    ensures Records(names + [k], m, inode) == Records(names, m, inode) + RecordBytes(k, m[k], inode + |names|)
    decreases names
  {
    hide RecordBytes;
    if names == [] {
      assert [k] + [] == [k] && [] + [k] == [k];
    } else {
      assert (names + [k])[1..] == names[1..] + [k];
      RecordsSnoc(names[1..], k, m, inode + 1);
    }
  }

  lemma NoRecords(m: Archive)
    ensures Records([], m, FIRST_INODE) == []
  {
  }

  /** The loop of `load_from_data`. */
  method LoadFromData(data: bytes) returns (r: Loaded)
    ensures r == Load(data)
  {
    hide Hex.Field, Hex.Parse, FindMagic, IsUtf8, CString;
    var entries: Archive := map[];
    var pos := 0;
    while pos < |data|
      invariant LoadFrom(data, pos, entries) == Load(data)
      decreases |data| - pos
    {
      var step := ReadOne(data, pos);
      match step
      case Fail(e) => return Failed(e);
      case Stop => break;
      case Skip(next) => pos := next;
      case Put(name, entry, next) =>
        entries := entries[name := entry];
        pos := next;
    }
    return Loaded(entries);
  }

  /** One turn of that loop: header, name, then trailer scan or body. */
  method ReadOne(data: bytes, start: nat) returns (s: Step)
    requires start < |data|
    ensures s == ReadRecord(data, start)
  {
    hide Hex.Field, Hex.Parse, FindMagic, IsUtf8, CString, FieldAt;
    var pos := start;
    if pos + HEADER_SIZE > |data| { return Fail(OutOfBounds); }
    if data[pos..pos + 6] != MAGIC { return Fail(BadMagic); }
    pos := pos + HEADER_SIZE;
    var nameSize := ReadField(data, start, 11);
    if nameSize.None? { return Fail(BadField); }
    if pos + nameSize.value > |data| { return Fail(OutOfBounds); }
    var name := CString(data[pos..pos + nameSize.value]);
    if name.None? { return Fail(BadName); }
    pos := Align4(pos + nameSize.value);
    if name.value == DOT || name.value == DOTDOT { return Skip(pos); }
    if name.value == TRAILER {
      if pos > |data| { return Fail(OutOfBounds); }
      var next := Find(data, pos);
      return if next.Some? then Skip(next.value) else Stop;
    }
    var size := ReadField(data, start, 6);
    var mode := ReadField(data, start, 1);
    var uid := ReadField(data, start, 2);
    var gid := ReadField(data, start, 3);
    var rmajor := ReadField(data, start, 9);
    var rminor := ReadField(data, start, 10);
    if size.None? || mode.None? || uid.None? || gid.None? || rmajor.None? || rminor.None? { return Fail(BadField); }
    if pos + size.value > |data| { return Fail(OutOfBounds); }
    var entry := Entry(mode.value, uid.value, gid.value, rmajor.value, rminor.value, data[pos..pos + size.value]);
    return Put(name.value, entry, Align4(pos + size.value));
  }

  method ReadField(data: bytes, pos: nat, i: nat) returns (r: Option<u32>)
    requires i < 13 && pos + HEADER_SIZE <= |data|
    ensures r == FieldAt(data, pos, i)
  {
    r := Hex.X8u(data[pos + 6 + 8 * i..pos + 14 + 8 * i]);
  }

  method Find(data: bytes, from: nat) returns (r: Option<nat>)
    ensures r == FindMagic(data, from)
  {
    var at := from;
    while at + 6 <= |data|
      invariant FindMagic(data, at) == FindMagic(data, from)
    {
      if data[at..at + 6] == MAGIC { return Some(at); }
      at := at + 1;
    }
    return None;
  }

  /** What `dump` appends for one entry; `pos` counts the bytes written. */
  method WriteEntry(file: bytes, start: nat, name: Name, e: Entry, inode: nat) returns (out: bytes, pos: nat)
    requires start == |file| && start % 4 == 0
    ensures out == file + RecordBytes(name, e, inode) && pos == |out| && pos % 4 == 0
  {
    hide Fields, MAGIC;
    var header := MAGIC + Fields(EntryFields(name, e, inode));
    pos := start + |header| + |name| + 1;
    out := file + header + name + [0] + Zeros(Align4(pos) - pos);
    assert out == file + Padded(Head(EntryFields(name, e, inode), name)) by {
      AlignShift(start, |header| + |name| + 1);
    }
    pos := Align4(pos);
    ghost var half := out;
    pos := pos + |e.data|;
    out := out + e.data + Zeros(Align4(pos) - pos);
    assert out == half + Padded(e.data) by {
      AlignShift(|half|, |e.data|);
    }
    pos := Align4(pos);
  }

  method WriteTrailer(file: bytes, start: nat, inode: nat) returns (out: bytes)
    requires start == |file| && start % 4 == 0
    ensures out == file + TrailerBytes(inode)
  {
    hide Fields, MAGIC;
    var trailer := MAGIC + Fields(TrailerFields(inode)) + (TRAILER + [0]);
    var pos := start + |trailer|;
    AlignShift(start, |trailer|);
    out := file + (trailer + Zeros(Align4(pos) - pos));
  }

  /** The loop of `dump` over the sorted names. */
  method WriteEntries(names: seq<Name>, m: Archive) returns (file: bytes, pos: nat, inode: nat)
    requires forall n :: n in names ==> n in m
    ensures file == Records(names, m, FIRST_INODE) && inode == FIRST_INODE + |names|
    ensures pos == |file| && pos % 4 == 0
  {
    hide RecordBytes, Records;
    file, pos, inode := [], 0, FIRST_INODE;
    NoRecords(m);
    assert names[..0] == [];
    for i := 0 to |names|
      invariant inode == FIRST_INODE + i && pos == |file| && pos % 4 == 0
      invariant file == Records(names[..i], m, FIRST_INODE)
    {
      RecordsSnoc(names[..i], names[i], m, FIRST_INODE);
      assert names[..i + 1] == names[..i] + [names[i]];
      file, pos := WriteEntry(file, pos, names[i], m[names[i]], inode);
      inode := inode + 1;
    }
    assert names[..|names|] == names;
  }

  lemma DumpedIs(m: Archive)
    ensures Dumped(m) == Records(Sorted(m.Keys), m, FIRST_INODE) + TrailerBytes(FIRST_INODE + |Sorted(m.Keys)|)
  {
    hide Records, Sorted, TrailerBytes, Ascending;
    assert |m| == |m.Keys|;
  }

  /** What stands below `.backup`: the entries to put back and the names to remove. */
  method CollectBackups(c: CpioBackup.Codec, all: Archive) returns (backups: Archive, rmList: bytes)
    ensures backups == CpioBackup.Restored(c, CpioBackup.BackupNames(all), all)
    ensures rmList == CpioBackup.ReadRmList(all)
  {
    hide Sorted, CpioBackup.RestoreOf, IsUtf8;
    var names := CpioBackup.BackupNames(all);
    backups := map[];
    rmList := [];
    for i := 0 to |names|
      invariant backups == CpioBackup.Restored(c, names[..i], all)
      invariant rmList == if CpioBackup.RMLIST in names[..i] then CpioBackup.ReadRmList(all) else []
    {
      var name, entry := names[i], all[names[i]];
      assert names[..i + 1] == names[..i] + [name] && names[..i + 1][..i] == names[..i];
      if name == CpioBackup.RMLIST {
        if IsUtf8(entry.data) {
          rmList := rmList + entry.data;
          assert CpioBackup.RMLIST !in names[..i] by { NotBefore(names, i); }
        }
      } else if name != CpioBackup.MAGISK {
        var (key, back) := CpioBackup.RestoreOf(c, name, entry);
        backups := backups[key := back];
      }
    }
    assert names[..|names|] == names;
    CpioBackup.RmListIsBackup();
  }

  class Cpio {
    var entries: Archive

    constructor (entries: Archive)
      ensures this.entries == entries
    {
      this.entries := entries;
    }

    /** `dump`: every entry in name order under rising inode numbers, then the trailer. */
    method Dump() returns (file: bytes)
      ensures file == Dumped(entries)
    {
      hide Records, Sorted, Dumped, TrailerBytes, Ascending;
      DumpedIs(entries);
      var names := Sorted(entries.Keys);
      var pos, inode;
      file, pos, inode := WriteEntries(names, entries);
      file := WriteTrailer(file, pos, inode);
    }

    method Rm(path: bytes, recursive: bool)
      modifies this
      ensures entries == CpioBackup.Rm(old(entries), path, recursive)
    {
      var p := NormPath(path);
      entries := entries - {p};
      if recursive {
        entries := map k | k in entries && !StartsWith(k, p + [SLASH]) :: entries[k];
      }
    }

    /** `backup`: load the original, drop both `.backup` trees, and merge the two sorted maps. */
    method Backup(c: CpioBackup.Codec, origin: bytes, skip: bool) returns (ok: bool)
      modifies this
      ensures ok == Load(origin).Loaded?
      ensures entries == if ok then CpioBackup.Backup(c, skip, old(entries), Load(origin).entries) else old(entries)
    {
      hide Load, Sorted, CpioBackup.Backups, CpioBackup.BackupOf, CpioBackup.Rm, CpioBackup.RmListBytes, CpioBackup.ToRecord, CpioBackup.ToBackUp;
      var loaded := LoadFromData(origin);
      if loaded.Failed? { return false; }
      var original := new Cpio(loaded.entries);
      original.Rm(CpioBackup.BACKUP, true);
      Rm(CpioBackup.BACKUP, true);
      var backups, rmList := Walk(c, skip, entries, original.entries);
      if rmList != [] {
        backups := backups[CpioBackup.RMLIST := CpioBackup.RmListEntry(rmList)];
      }
      entries := entries + backups;
      return true;
    }

    /** `restore`: take the `.backup` tree out, remove what it lists, put back what it keeps. */
    method Restore(c: CpioBackup.Codec)
      modifies this
      ensures entries == CpioBackup.Restore(c, old(entries))
    {
      hide Sorted, CpioBackup.RestoreOf, CpioBackup.Rm, IsUtf8, CpioBackup.Restored;
      var all := entries;
      var backups, rmList := CollectBackups(c, all);
      entries := CpioBackup.Outside(all);
      Rm(CpioBackup.BACKUP, false);
      if rmList == [] && backups == map[] {
        entries := map[];
        return;
      }
      var pieces := Split(rmList, 0);
      ghost var base := entries;
      for i := 0 to |pieces|
        invariant entries == CpioBackup.RmPieces(base, pieces[..i])
      {
        assert pieces[..i + 1][..i] == pieces[..i];
        if pieces[i] != [] { Rm(pieces[i], false); }
      }
      assert pieces[..|pieces|] == pieces;
      entries := entries + backups;
    }

    /** `patch`: walk the entries, filter the fstab files in place, drop `verity_key`. */
    method Patch(keepVerity: bool, keepForceEncrypt: bool)
      modifies this
      ensures entries == CpioPatch.Patched(old(entries), keepVerity, keepForceEncrypt)
    {
      hide Sorted, CpioPatch.PatchedEntry;
      var all := entries;
      var names := Sorted(all.Keys);
      entries := map[];
      for i := 0 to |names|
        invariant entries == PatchedUpTo(names[..i], all, keepVerity, keepForceEncrypt)
      {
        var name := names[i];
        NotBefore(names, i);
        PatchedSnoc(names, i, all, keepVerity, keepForceEncrypt);
        var kept := PatchOne(name, all[name], keepVerity, keepForceEncrypt);
        if kept.Some? {
          entries := entries[name := kept.value];
        }
      }
      assert names[..|names|] == names;
    }
  }

  function PatchedUpTo(names: seq<Name>, m: Archive, kv: bool, ke: bool): Archive
    requires forall n :: n in names ==> n in m
  {
    map n | n in names && CpioPatch.PatchedEntry(n, m[n], kv, ke).Some? :: CpioPatch.PatchedEntry(n, m[n], kv, ke).value
  }

  lemma PatchedSnoc(names: seq<Name>, i: nat, m: Archive, kv: bool, ke: bool)
    requires i < |names| && names[i] !in names[..i] && forall n :: n in names ==> n in m
    ensures var before, e := PatchedUpTo(names[..i], m, kv, ke), CpioPatch.PatchedEntry(names[i], m[names[i]], kv, ke);
            PatchedUpTo(names[..i + 1], m, kv, ke) == if e.Some? then before[names[i] := e.value] else before
  {
    hide CpioPatch.PatchedEntry;
    assert names[..i + 1] == names[..i] + [names[i]];
  }

  lemma NotBefore(names: seq<Name>, i: nat)
    requires Ascending(names) && i < |names|
    ensures names[i] !in names[..i]
  {
    if names[i] in names[..i] {
      var j :| 0 <= j < i && names[..i][j] == names[i];
      AscendingDistinct(names, j, i);
    }
  }

  /** The body of the `retain` closure of `patch`. */
  method PatchOne(name: Name, e: Entry, keepVerity: bool, keepForceEncrypt: bool) returns (r: Option<Entry>)
    ensures r == CpioPatch.PatchedEntry(name, e, keepVerity, keepForceEncrypt)
  {
    hide TextPatch.Filtered;
    CpioPatch.FstabIsNoOther(name);
    var fstab := CpioPatch.IsFstab(name, e, keepVerity, keepForceEncrypt);
    var entry := e;
    if !keepVerity {
      if fstab {
        var text := RemoveIn(TextPatch.VERITY, entry.data);
        entry := entry.(data := text);
      } else if name == CpioPatch.VERITY_KEY {
        return None;
      }
    }
    if !keepForceEncrypt && fstab {
      var text := RemoveIn(TextPatch.ENCRYPTION, entry.data);
      entry := entry.(data := text);
    }
    return Some(entry);
  }

  /** Filter a data vector in its own buffer, then cut it to the returned length. */
  method RemoveIn(patterns: seq<bytes>, data: bytes) returns (text: bytes)
    requires TextPatch.Usable(patterns)
    ensures text == TextPatch.Filtered(patterns, data)
  {
    var buf := new byte[|data|](i requires 0 <= i < |data| => data[i]);
    assert buf[..] == data;
    var len := TextPatch.RemovePattern(patterns, buf);
    text := buf[..len];
    assert text == buf[..][..len];
  }

  // ----- the merge of `backup`

  /** Everything already walked on one side comes before everything still to walk on the other. */
  ghost predicate Apart(lhs: seq<Name>, i: nat, rhs: seq<Name>, j: nat)
    requires i <= |lhs| && j <= |rhs|
  {
    && (forall a, b :: 0 <= a < i && j <= b < |rhs| ==> Less(lhs[a], rhs[b]))
    && (forall a, b :: i <= a < |lhs| && 0 <= b < j ==> Less(rhs[b], lhs[a]))
  }

  lemma AdvanceOne(lhs: seq<Name>, i: nat, rhs: seq<Name>, j: nat)
    requires Ascending(lhs) && Ascending(rhs) && i < |lhs| && j <= |rhs| && Apart(lhs, i, rhs, j)
    requires j < |rhs| ==> Less(lhs[i], rhs[j])
    ensures Apart(lhs, i + 1, rhs, j) && lhs[i] !in rhs
  {
    forall b | j <= b < |rhs| ensures Less(lhs[i], rhs[b]) {
      if b > j { LessTransitive(lhs[i], rhs[j], rhs[b]); }
    }
    LessTotal(lhs[i], lhs[i]);
  }

  lemma AdvanceBoth(lhs: seq<Name>, i: nat, rhs: seq<Name>, j: nat)
    requires Ascending(lhs) && Ascending(rhs) && i < |lhs| && j < |rhs| && Apart(lhs, i, rhs, j)
    requires !Less(lhs[i], rhs[j]) && !Less(rhs[j], lhs[i])
    ensures lhs[i] == rhs[j] && Apart(lhs, i + 1, rhs, j + 1)
  {
    LessTotal(lhs[i], rhs[j]);
  }

  lemma KeptSnoc(names: seq<Name>, i: nat, p: Archive, o: Archive)
    requires i < |names| && forall n :: n in names ==> n in o
    ensures CpioBackup.ToBackUp(names[..i + 1], p, o)
         == CpioBackup.ToBackUp(names[..i], p, o) + if CpioBackup.Differs(p, o, names[i]) then [names[i]] else []
  {
    assert names[..i + 1][..i] == names[..i];
  }

  lemma RecordedSnoc(names: seq<Name>, i: nat, o: Archive)
    requires i < |names|
    ensures CpioBackup.ToRecord(names[..i + 1], o)
         == CpioBackup.ToRecord(names[..i], o) + if names[i] !in o then [names[i]] else []
  {
    assert names[..i + 1][..i] == names[..i];
  }

  lemma BackupsSnoc(c: CpioBackup.Codec, skip: bool, kept: seq<Name>, n: Name, o: Archive)
    requires n in o && forall k :: k in kept ==> k in o
    ensures var (key, entry) := CpioBackup.BackupOf(c, skip, n, o[n]);
            CpioBackup.Backups(c, skip, kept + [n], o) == CpioBackup.Backups(c, skip, kept, o)[key := entry]
  {
    hide CpioBackup.BackupOf;
    assert (kept + [n])[..|kept|] == kept;
  }

  lemma RmListSnoc(names: seq<Name>, n: Name)
    ensures CpioBackup.RmListBytes(names + [n]) == CpioBackup.RmListBytes(names) + n + [0]
  {
    assert (names + [n])[..|names|] == names;
  }

  /** The merge walk of `backup` over the sorted names of both archives. */
  method Walk(c: CpioBackup.Codec, skip: bool, p: Archive, o: Archive) returns (backups: Archive, rmList: bytes)
    ensures backups == CpioBackup.Backups(c, skip, CpioBackup.KeptNames(p, o), o)
    ensures rmList == CpioBackup.RmListBytes(CpioBackup.NewNames(p, o))
  {
    hide Less, Sorted, Apart, CpioBackup.BackupOf, CpioBackup.ToBackUp, CpioBackup.ToRecord, CpioBackup.Backups,
         CpioBackup.RmListBytes;
    var lhs, rhs := Sorted(o.Keys), Sorted(p.Keys);
    var i, j := 0, 0;
    backups := map[CpioBackup.BACKUP := CpioBackup.BACKUP_DIR];
    rmList := [];
    ghost var kept, recorded: seq<Name> := [], [];
    NothingWalked(c, skip, lhs, rhs, p, o);
    while i < |lhs| || j < |rhs|
      invariant i <= |lhs| && j <= |rhs| && Apart(lhs, i, rhs, j)
      invariant kept == CpioBackup.ToBackUp(lhs[..i], p, o) && recorded == CpioBackup.ToRecord(rhs[..j], o)
      invariant backups == CpioBackup.Backups(c, skip, kept, o)
      invariant rmList == CpioBackup.RmListBytes(recorded)
      decreases |lhs| - i + |rhs| - j
    {
      if j == |rhs| || (i < |lhs| && Less(lhs[i], rhs[j])) {
        AdvanceOne(lhs, i, rhs, j);
        KeptSnoc(lhs, i, p, o);
        BackupsSnoc(c, skip, kept, lhs[i], o);
        var (key, entry) := CpioBackup.BackupOf(c, skip, lhs[i], o[lhs[i]]);
        backups := backups[key := entry];
        kept := kept + [lhs[i]];
        i := i + 1;
      } else if i == |lhs| || Less(rhs[j], lhs[i]) {
        ApartSymmetric(lhs, i, rhs, j);
        AdvanceOne(rhs, j, lhs, i);
        ApartSymmetric(rhs, j + 1, lhs, i);
        RecordedSnoc(rhs, j, o);
        RmListSnoc(recorded, rhs[j]);
        rmList := rmList + rhs[j] + [0];
        recorded := recorded + [rhs[j]];
        j := j + 1;
      } else {
        AdvanceBoth(lhs, i, rhs, j);
        KeptSnoc(lhs, i, p, o);
        RecordedSnoc(rhs, j, o);
        if p[rhs[j]].data != o[lhs[i]].data {
          BackupsSnoc(c, skip, kept, lhs[i], o);
          var (key, entry) := CpioBackup.BackupOf(c, skip, lhs[i], o[lhs[i]]);
          backups := backups[key := entry];
          kept := kept + [lhs[i]];
        }
        i, j := i + 1, j + 1;
      }
    }
    assert lhs[..i] == lhs && rhs[..j] == rhs;
  }

  lemma ApartSymmetric(lhs: seq<Name>, i: nat, rhs: seq<Name>, j: nat)
    requires i <= |lhs| && j <= |rhs| && Apart(lhs, i, rhs, j)
    ensures Apart(rhs, j, lhs, i)
  {
  }

  lemma NothingWalked(c: CpioBackup.Codec, skip: bool, lhs: seq<Name>, rhs: seq<Name>, p: Archive, o: Archive)
    ensures Apart(lhs, 0, rhs, 0)
    ensures CpioBackup.ToBackUp(lhs[..0], p, o) == [] && CpioBackup.ToRecord(rhs[..0], o) == []
    ensures CpioBackup.Backups(c, skip, [], o) == map[CpioBackup.BACKUP := CpioBackup.BACKUP_DIR]
    ensures CpioBackup.RmListBytes([]) == []
  {
  }
}
