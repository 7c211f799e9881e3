/** `restore` undoes `backup`: exactly when, and what it leaves. */
module CpioInverse {
  import opened Bytes
  import opened Utf8
  import opened NameOrder
  import opened CpioFormat
  import opened Paths
  import opened CpioBackup

  // ----- what the walk finds, as sets

  function BackedUp(p: Archive, o: Archive): set<Name> {
    set n | n in o && !(n in p && p[n].data == o[n].data)
  }

  function Recorded(p: Archive, o: Archive): set<Name> {
    p.Keys - o.Keys
  }

  /** The names of the original, each with its data; an entry with unchanged data keeps its current metadata. */
  function Reverted(p: Archive, o: Archive): Archive {
    map n | n in o :: if n in p && p[n].data == o[n].data then p[n] else o[n]
  }

  predicate Packed(c: Codec, skip: bool, e: Entry) {
    !skip && Compress(c, e).Some?
  }

  /** A kept entry comes back as itself. */
  predicate Recoverable(c: Codec, skip: bool, n: Name, e: Entry) {
    Packed(c, skip, e)
    || (n != DOT_RMLIST && n != DOT_MAGISK && !(EndsWith(n, DOT_XZ) && Decompress(c, e).Some?))
  }

  /** A compressed `n` and an uncompressed `n.xz` are kept under one name. */
  predicate Clash(c: Codec, skip: bool, o: Archive, n: Name, k: Name)
    requires n in o && k in o
  {
    k == n + DOT_XZ && Packed(c, skip, o[n]) && !Packed(c, skip, o[k])
  }

  predicate Removable(n: Name) {
    n != [] && NulFree(n) && NormPath(n) == n
  }

  /** What a caller can check beforehand, on the archives without their `.backup` trees. */
  predicate Invertible(c: Codec, skip: bool, p: Archive, o: Archive) {
    && (BackedUp(p, o) == {} && Recorded(p, o) == {} ==> p == map[])
    && (forall n :: n in Recorded(p, o) ==> Removable(n))
    && (forall n :: n in BackedUp(p, o) ==> Recoverable(c, skip, n, o[n]))
    && (forall n, k :: n in BackedUp(p, o) && k in BackedUp(p, o) ==> !Clash(c, skip, o, n, k))
  }

  // ----- kept names

  lemma KeptName(c: Codec, skip: bool, n: Name, e: Entry)
    ensures var (key, entry) := BackupOf(c, skip, n, e);
            && IsBackup(key) && key != BACKUP
            && (key == RMLIST <==> n == DOT_RMLIST && !Packed(c, skip, e))
            && (key == MAGISK <==> n == DOT_MAGISK && !Packed(c, skip, e))
  {
    var (key, entry) := BackupOf(c, skip, n, e);
    assert key[..8] == PREFIX;
    if Packed(c, skip, e) {
      assert key[|key| - 1] == DOT_XZ[2] && RMLIST[|RMLIST| - 1] == DOT_RMLIST[6] && MAGISK[|MAGISK| - 1] == DOT_MAGISK[6];
    } else {
      assert key[8..] == n && RMLIST[8..] == DOT_RMLIST && MAGISK[8..] == DOT_MAGISK;
    }
  }

  lemma PackedComesBack(c: Codec, skip: bool, n: Name, e: Entry)
    requires Sound(c) && Packed(c, skip, e)
    ensures var (key, entry) := BackupOf(c, skip, n, e);
            IsBackup(key) && RestoreOf(c, key, entry) == (n, e)
  {
    KeptName(c, skip, n, e);
    var (key, entry) := BackupOf(c, skip, n, e);
    assert key[|key| - 3..] == DOT_XZ;
    assert key[8..|key| - 3] == n;
    assert Decompress(c, entry) == Some(e);
  }

  lemma PlainComesBack(c: Codec, skip: bool, n: Name, e: Entry)
    requires !Packed(c, skip, e)
    ensures var (key, entry) := BackupOf(c, skip, n, e);
            IsBackup(key) &&
            var (back, backEntry) := RestoreOf(c, key, entry);
            if !EndsWith(n, DOT_XZ) || Decompress(c, e).None? then back == n && backEntry == e
            else n == back + DOT_XZ && back != n
  {
    KeptName(c, skip, n, e);
    var (key, entry) := BackupOf(c, skip, n, e);
    assert key[8..] == n;
    if EndsWith(key, DOT_XZ) {
      assert key[7] == SLASH;
      assert |n| >= 3 && n[|n| - 3..] == key[|key| - 3..];
      assert n[..|n| - 3] == key[8..|key| - 3] && n == n[..|n| - 3] + n[|n| - 3..];
    }
  }

  /** Where a kept entry goes back to. */
  lemma KeptComesBack(c: Codec, skip: bool, n: Name, e: Entry)
    requires Sound(c)
    ensures var (key, entry) := BackupOf(c, skip, n, e);
            IsBackup(key) &&
            var (back, backEntry) := RestoreOf(c, key, entry);
            if Packed(c, skip, e) || !EndsWith(n, DOT_XZ) || Decompress(c, e).None? then back == n && backEntry == e
            else n == back + DOT_XZ && back != n
  {
    hide BackupOf, RestoreOf, Packed, Decompress, IsBackup, EndsWith, Sound;
    if Packed(c, skip, e) { PackedComesBack(c, skip, n, e); } else { PlainComesBack(c, skip, n, e); }
  }

  lemma SameKept(c: Codec, skip: bool, o: Archive, n: Name, k: Name)
    requires n in o && k in o && n != k
    requires BackupOf(c, skip, n, o[n]).0 == BackupOf(c, skip, k, o[k]).0
    ensures Clash(c, skip, o, n, k) || Clash(c, skip, o, k, n)
  {
    var a, b := BackupOf(c, skip, n, o[n]).0, BackupOf(c, skip, k, o[k]).0;
    assert a[8..] == if Packed(c, skip, o[n]) then n + DOT_XZ else n;
    assert b[8..] == if Packed(c, skip, o[k]) then k + DOT_XZ else k;
    assert (n + DOT_XZ)[..|n|] == n && (k + DOT_XZ)[..|k|] == k;
  }

  lemma {:induction false} PrefixLess(n: Name, more: bytes)
    requires more != []
    ensures Less(n, n + more)
  {
    if n != [] {
      PrefixLess(n[1..], more);
      assert (n + more)[1..] == n[1..] + more;
    }
  }

  // ----- the backup map

  lemma {:induction false} BackupsContain(c: Codec, skip: bool, names: seq<Name>, o: Archive, n: Name)
    requires n in names && forall k :: k in names ==> k in o
    ensures BackupOf(c, skip, n, o[n]).0 in Backups(c, skip, names, o)
    decreases names
  {
    var init, last := names[..|names| - 1], names[|names| - 1];
    assert names == init + [last];
    if n != last { BackupsContain(c, skip, init, o, n); }
  }

  /** Each kept key holds the last name, in order, that is kept under it. */
  lemma {:induction false} Survivor(c: Codec, skip: bool, names: seq<Name>, o: Archive, b: Name) returns (n: Name)
    requires Ascending(names) && forall k :: k in names ==> k in o
    requires b in Backups(c, skip, names, o) && b != BACKUP
    ensures n in names && BackupOf(c, skip, n, o[n]) == (b, Backups(c, skip, names, o)[b])
    ensures forall k :: k in names && k != n && BackupOf(c, skip, k, o[k]).0 == b ==> Less(k, n)
    decreases names
  {
    var init, last := names[..|names| - 1], names[|names| - 1];
    assert names == init + [last];
    if BackupOf(c, skip, last, o[last]).0 == b {
      n := last;
      forall k | k in names && k != n ensures Less(k, n) {
        var i :| 0 <= i < |names| && names[i] == k;
      }
    } else {
      n := Survivor(c, skip, init, o, b);
    }
  }

  // ----- the restored map

  lemma {:induction false} RestoredFrom(c: Codec, names: seq<Name>, m: Archive, x: Name) returns (b: Name)
    requires forall n :: n in names ==> n in m && IsBackup(n)
    requires x in Restored(c, names, m)
    ensures b in names && b != RMLIST && b != MAGISK
    ensures RestoreOf(c, b, m[b]) == (x, Restored(c, names, m)[x])
    decreases names
  {
    var init, last := names[..|names| - 1], names[|names| - 1];
    assert names == init + [last];
    if last != RMLIST && last != MAGISK && RestoreOf(c, last, m[last]).0 == x {
      b := last;
    } else {
      b := RestoredFrom(c, init, m, x);
    }
  }

  lemma {:induction false} RestoredContains(c: Codec, names: seq<Name>, m: Archive, b: Name)
    requires forall n :: n in names ==> n in m && IsBackup(n)
    requires b in names && b != RMLIST && b != MAGISK
    ensures RestoreOf(c, b, m[b]).0 in Restored(c, names, m)
    decreases names
  {
    var init, last := names[..|names| - 1], names[|names| - 1];
    assert names == init + [last];
    if b != last { RestoredContains(c, init, m, b); }
  }

  // ----- the removal list

  lemma {:induction false} RmListSplits(names: seq<Name>, more: bytes)
    requires forall n :: n in names ==> NulFree(n)
    ensures Split(RmListBytes(names) + more, 0) == names + Split(more, 0)
    decreases names
  {
    if names == [] {
      assert RmListBytes(names) + more == more;
    } else {
      var init, last := names[..|names| - 1], names[|names| - 1];
      assert names == init + [last];
      assert RmListBytes(names) + more == RmListBytes(init) + (last + [0] + more);
      RmListSplits(init, last + [0] + more);
      assert last in names && 0 !in last;
      SplitFirst(last, more, 0);
    }
  }

  lemma {:induction false} RmListUtf8(names: seq<Name>)
    requires forall n :: n in names ==> IsUtf8(n)
    ensures IsUtf8(RmListBytes(names))
    decreases names
  {
    if names != [] {
      var init, last := names[..|names| - 1], names[|names| - 1];
      RmListUtf8(init);
      assert last in names;
      Utf8Concat(RmListBytes(init), last);
      assert [0][1..] == [];
      Utf8Concat(RmListBytes(init) + last, [0]);
    }
  }

  lemma {:induction false} RmPiecesKeeps(m: Archive, pieces: seq<bytes>)
    ensures RmPieces(m, pieces)
         == map n | n in m && (forall x :: x in pieces && x != [] ==> NormPath(x) != n) :: m[n]
    decreases pieces
  {
    if pieces != [] {
      var init, last := pieces[..|pieces| - 1], pieces[|pieces| - 1];
      assert pieces == init + [last];
      RmPiecesKeeps(m, init);
    }
  }

  lemma {:induction false} JoinNulFree(pieces: seq<bytes>)
    requires forall x :: x in pieces ==> NulFree(x)
    ensures NulFree(Join(pieces, SLASH))
    decreases pieces
  {
    if pieces != [] {
      assert pieces[0] in pieces;
      if |pieces| > 1 { JoinNulFree(pieces[1..]); }
    }
  }

  lemma {:induction false} SplitNulFree(s: bytes)
    requires NulFree(s)
    ensures forall x :: x in Split(s, SLASH) ==> NulFree(x)
  {
    if s != [] {
      SplitNulFree(s[1..]);
      var rest := Split(s[1..], SLASH);
      assert rest[0] in rest && NulFree([s[0]] + rest[0]);
      forall x | x in Split(s, SLASH) ensures NulFree(x) {
        assert x == [] || x == [s[0]] + rest[0] || x in rest;
      }
    }
  }

  lemma NormPathNulFree(path: bytes)
    requires 0 !in path
    ensures NulFree(NormPath(path))
  {
    SplitNulFree(path);
    NonEmptyMembers(Split(path, SLASH));
    JoinNulFree(NonEmpty(Split(path, SLASH)));
  }

  // ----- what `backup` leaves, taken apart

  lemma StripFacts(m: Archive)
    ensures Strip(m) == map n | n in m && n != BACKUP && !IsBackup(n) :: m[n]
  {
    BackupIsNormal();
  }

  lemma BackupIsNormal()
    ensures NormPath(BACKUP) == BACKUP
  {
    SplitFirst(BACKUP, [], SLASH);
    assert NonEmpty([BACKUP]) == [BACKUP] + NonEmpty([]);
  }

  lemma KeptAndNew(p: Archive, o: Archive)
    ensures Ascending(KeptNames(p, o)) && forall n :: n in KeptNames(p, o) <==> n in BackedUp(p, o)
    ensures forall n :: n in NewNames(p, o) <==> n in Recorded(p, o)
  {
    ToBackUpAscending(Sorted(o.Keys), p, o);
  }

  lemma {:induction false} ToBackUpAscending(names: seq<Name>, p: Archive, o: Archive)
    requires Ascending(names) && forall n :: n in names ==> n in o
    ensures Ascending(ToBackUp(names, p, o))
    decreases names
  {
    hide Less, Differs;
    if names != [] {
      var init, last := names[..|names| - 1], names[|names| - 1];
      AllBelowLast(names);
      ToBackUpAscending(init, p, o);
      AscendingSnoc(ToBackUp(init, p, o), last);
    }
  }

  lemma AllBelowLast(names: seq<Name>)
    requires Ascending(names) && names != []
    ensures var init := names[..|names| - 1];
            Ascending(init) && (forall a :: a in init ==> Less(a, names[|names| - 1])) && forall a :: a in init ==> a in names
  {
    hide Less;
    var init := names[..|names| - 1];
    forall a | a in init ensures Less(a, names[|names| - 1]) && a in names {
      var j :| 0 <= j < |init| && init[j] == a;
      assert names[j] == a;
    }
  }

  lemma AscendingSnoc(r: seq<Name>, last: Name)
    requires Ascending(r) && forall a :: a in r ==> Less(a, last)
    ensures Ascending(r + [last])
  {
    hide Less;
  }

  predicate Stripped(m: Archive) {
    forall n :: n in m ==> n != BACKUP && !IsBackup(n)
  }

  lemma KeptKeys(c: Codec, skip: bool, names: seq<Name>, o: Archive, b: Name)
    requires Ascending(names) && forall k :: k in names ==> k in o
    requires b in Backups(c, skip, names, o)
    ensures b == BACKUP || IsBackup(b)
  {
    if b != BACKUP {
      var n := Survivor(c, skip, names, o, b);
      KeptName(c, skip, n, o[n]);
    }
  }

  lemma RmOne(m: Archive, path: bytes)
    ensures Rm(m, path, false) == m - {NormPath(path)}
  {
    hide NormPath;
  }

  lemma OutsideOf(p: Archive, kept: Archive)
    requires Stripped(p) && forall b :: b in kept ==> b == BACKUP || IsBackup(b)
    ensures Outside(p + kept) - {BACKUP} == p
  {
    hide IsBackup;
    var m := p + kept;
    forall n | n in p ensures n in Outside(m) && Outside(m)[n] == p[n] {
      assert n !in kept;
    }
    forall n | n in Outside(m) - {BACKUP} ensures n in p {
    }
  }

  /** Without its `.backup` tree, the archive `backup` leaves is the current one. */
  lemma LeftOutside(c: Codec, skip: bool, p: Archive, o: Archive)
    requires Stripped(p)
    ensures Rm(Outside(WithBackups(c, skip, p, o)), BACKUP, false) == p
  {
    hide Backups, NormPath, IsBackup, Rm, RmListBytes, Outside;
    var names, list := KeptNames(p, o), RmListBytes(NewNames(p, o));
    var kept := Backups(c, skip, names, o);
    var all := if list == [] then kept else kept[RMLIST := RmListEntry(list)];
    KeptAndNew(p, o);
    RmListIsBackup();
    forall b | b in all ensures b == BACKUP || IsBackup(b) {
      if b in kept { KeptKeys(c, skip, names, o, b); }
    }
    OutsideOf(p, all);
    RmOne(Outside(p + all), BACKUP);
    BackupIsNormal();
  }

  /** What `restore` finds under `.backup/`, entry by entry. */
  lemma LeftInside(c: Codec, skip: bool, p: Archive, o: Archive, b: Name)
    requires Stripped(p) && IsBackup(b) && b != RMLIST
    ensures var kept := Backups(c, skip, KeptNames(p, o), o);
            var m := WithBackups(c, skip, p, o);
            (b in m <==> b in kept) && (b in m ==> m[b] == kept[b])
  {
    hide Backups, RmListBytes, IsBackup;
  }

  /** The removal list `restore` reads when names are UTF-8 and no raw `.rmlist` was kept. */
  lemma RmListRead(c: Codec, skip: bool, p: Archive, o: Archive)
    requires Stripped(p) && WellTyped(p)
    requires Recorded(p, o) != {} || (DOT_RMLIST in BackedUp(p, o) ==> Packed(c, skip, o[DOT_RMLIST]))
    ensures ReadRmList(WithBackups(c, skip, p, o)) == RmListBytes(NewNames(p, o))
  {
    hide Backups, IsBackup, IsUtf8, RmListBytes;
    KeptAndNew(p, o);
    RmListIsBackup();
    var m := WithBackups(c, skip, p, o);
    if NewNames(p, o) != [] {
      RmListUtf8(NewNames(p, o));
      assert m[RMLIST] == RmListEntry(RmListBytes(NewNames(p, o)));
    } else {
      assert Recorded(p, o) == {} by {
        forall n ensures n !in Recorded(p, o) { assert n in NewNames(p, o) <==> n in Recorded(p, o); }
      }
      if RMLIST in Backups(c, skip, KeptNames(p, o), o) {
        var n := Survivor(c, skip, KeptNames(p, o), o, RMLIST);
        KeptName(c, skip, n, o[n]);
      }
      assert RMLIST !in m;
    }
  }

  /** Every restored entry was kept for some name of the original that differs. */
  lemma RestoredIsKept(c: Codec, skip: bool, p: Archive, o: Archive, x: Name) returns (n: Name, b: Name)
    requires Stripped(p)
    requires var m := WithBackups(c, skip, p, o); x in Restored(c, BackupNames(m), m)
    ensures n in BackedUp(p, o) && b == BackupOf(c, skip, n, o[n]).0 && b != RMLIST && b != MAGISK && IsBackup(b)
    ensures forall k :: k in BackedUp(p, o) && k != n && BackupOf(c, skip, k, o[k]).0 == b ==> Less(k, n)
    ensures var m := WithBackups(c, skip, p, o);
            RestoreOf(c, b, BackupOf(c, skip, n, o[n]).1) == (x, Restored(c, BackupNames(m), m)[x])
  {
    hide Backups, RmListBytes, IsBackup, BackupOf, RestoreOf, Restored;
    var m := WithBackups(c, skip, p, o);
    b := RestoredFrom(c, BackupNames(m), m, x);
    LeftInside(c, skip, p, o, b);
    KeptAndNew(p, o);
    RmListIsBackup();
    n := Survivor(c, skip, KeptNames(p, o), o, b);
  }

  /** With every kept entry recoverable and no clash, exactly the differing entries are restored. */
  lemma RestoredExactly(c: Codec, skip: bool, p: Archive, o: Archive)
    requires Sound(c) && Stripped(p)
    requires forall n :: n in BackedUp(p, o) ==> Recoverable(c, skip, n, o[n])
    requires forall n, k :: n in BackedUp(p, o) && k in BackedUp(p, o) ==> !Clash(c, skip, o, n, k)
    ensures var m := WithBackups(c, skip, p, o);
            Restored(c, BackupNames(m), m) == map n | n in BackedUp(p, o) :: o[n]
  {
    hide Backups, RmListBytes, IsBackup, BackupOf, RestoreOf, Restored, WithBackups, Differs, Clash, Recoverable;
    var m := WithBackups(c, skip, p, o);
    var r := Restored(c, BackupNames(m), m);
    forall x | x in r ensures x in BackedUp(p, o) && r[x] == o[x] {
      var n, b := RestoredIsKept(c, skip, p, o, x);
      RecoverableComesBack(c, skip, n, o[n]);
    }
    forall n | n in BackedUp(p, o) ensures n in r {
      KeptIsRestored(c, skip, p, o, n);
    }
  }

  lemma RecoverableComesBack(c: Codec, skip: bool, n: Name, e: Entry)
    requires Sound(c) && Recoverable(c, skip, n, e)
    ensures var (b, kept) := BackupOf(c, skip, n, e);
            IsBackup(b) && b != RMLIST && b != MAGISK && b != BACKUP && RestoreOf(c, b, kept) == (n, e)
  {
    KeptName(c, skip, n, e);
    KeptComesBack(c, skip, n, e);
  }

  lemma KeptIsRestored(c: Codec, skip: bool, p: Archive, o: Archive, n: Name)
    requires Sound(c) && Stripped(p) && n in BackedUp(p, o) && Recoverable(c, skip, n, o[n])
    requires forall n, k :: n in BackedUp(p, o) && k in BackedUp(p, o) ==> !Clash(c, skip, o, n, k)
    ensures var m := WithBackups(c, skip, p, o); n in Restored(c, BackupNames(m), m)
  {
    hide Backups, RmListBytes, IsBackup, BackupOf, RestoreOf, Restored, WithBackups, Differs, Clash, Recoverable;
    var m, names := WithBackups(c, skip, p, o), KeptNames(p, o);
    var b := BackupOf(c, skip, n, o[n]).0;
    KeptAndNew(p, o);
    RecoverableComesBack(c, skip, n, o[n]);
    BackupsContain(c, skip, names, o, n);
    var k := Survivor(c, skip, names, o, b);
    if k != n { SameKept(c, skip, o, n, k); }
    LeftInside(c, skip, p, o, b);
    RestoredContains(c, BackupNames(m), m, b);
  }

  /** The entries of the current archive that survive the removal list. */
  lemma RmListRemoves(p: Archive, names: seq<Name>)
    requires forall n :: n in names ==> Removable(n)
    ensures RmPieces(p, Split(RmListBytes(names), 0)) == map n | n in p && n !in names :: p[n]
  {
    hide RmListBytes, NormPath;
    RmListSplits(names, []);
    assert RmListBytes(names) + [] == RmListBytes(names);
    var pieces := names + [[]];
    RmPiecesKeeps(p, pieces);
    forall n | n in p ensures n !in names <==> forall x :: x in pieces && x != [] ==> NormPath(x) != n {
      if n in names { assert n in pieces && NormPath(n) == n; }
    }
  }

  lemma RestoreWhenInvertible(c: Codec, skip: bool, p: Archive, o: Archive)
    requires Sound(c) && Stripped(p) && WellTyped(p) && Invertible(c, skip, p, o)
    ensures Restore(c, WithBackups(c, skip, p, o)) == Reverted(p, o)
  {
    hide WithBackups, Differs, Clash, Removable, Packed, Restored, Rm, NormPath, RmPieces, IsUtf8;
    var m, names := WithBackups(c, skip, p, o), NewNames(p, o);
    KeptAndNew(p, o);
    assert DOT_RMLIST in BackedUp(p, o) ==> Packed(c, skip, o[DOT_RMLIST]);
    RmListRead(c, skip, p, o);
    RestoredExactly(c, skip, p, o);
    LeftOutside(c, skip, p, o);
    RmListRemoves(p, names);
    RevertedSplits(p, o, names);
  }

  /** The reverted archive: what is not removed, overridden by what is restored. */
  lemma RevertedSplits(p: Archive, o: Archive, names: seq<Name>)
    requires forall n :: n in names <==> n in Recorded(p, o)
    ensures var back := map n | n in BackedUp(p, o) :: o[n];
            && Reverted(p, o) == (map n | n in p && n !in names :: p[n]) + back
            && (back == map[] && names == [] ==> BackedUp(p, o) == {} && Recorded(p, o) == {})
            && (BackedUp(p, o) == {} && Recorded(p, o) == {} && p == map[] ==> Reverted(p, o) == map[])
  {
    var back := map n | n in BackedUp(p, o) :: o[n];
    assert back.Keys == BackedUp(p, o);
  }

  // ----- the converse

  predicate Lost(c: Codec, skip: bool, p: Archive, o: Archive, n: Name)
    requires n in BackedUp(p, o)
  {
    !Recoverable(c, skip, n, o[n]) || exists k :: k in BackedUp(p, o) && Clash(c, skip, o, n, k)
  }

  lemma {:induction false} Longest(s: set<Name>) returns (n: Name)
    requires s != {}
    ensures n in s && forall k :: k in s ==> |k| <= |n|
    decreases |s|
  {
    n :| n in s;
    if s - {n} != {} {
      var k := Longest(s - {n});
      if |k| > |n| { n := k; }
    }
  }

  /** The longest lost name is restored from nowhere. */
  lemma LongestLostStaysAway(c: Codec, skip: bool, p: Archive, o: Archive, n: Name)
    requires Sound(c) && Stripped(p)
    requires n in BackedUp(p, o) && Lost(c, skip, p, o, n)
    requires forall k :: k in BackedUp(p, o) && Lost(c, skip, p, o, k) ==> |k| <= |n|
    ensures var m := WithBackups(c, skip, p, o); n !in Restored(c, BackupNames(m), m)
  {
    hide Backups, RmListBytes, IsBackup, BackupOf, RestoreOf, Restored, WithBackups, Differs, Packed;
    var m := WithBackups(c, skip, p, o);
    if n in Restored(c, BackupNames(m), m) {
      var k, b := RestoredIsKept(c, skip, p, o, n);
      KeptName(c, skip, k, o[k]);
      KeptComesBack(c, skip, k, o[k]);
      if k == n {
        ClashedIsNotLast(c, skip, p, o, n);
      }
    }
  }

  /** A name that comes back from its own kept entry, and has no later rival for it, is not lost. */
  lemma ClashedIsNotLast(c: Codec, skip: bool, p: Archive, o: Archive, n: Name)
    requires n in BackedUp(p, o)
    requires var b := BackupOf(c, skip, n, o[n]).0;
             forall k :: k in BackedUp(p, o) && k != n && BackupOf(c, skip, k, o[k]).0 == b ==> Less(k, n)
    ensures forall k :: k in BackedUp(p, o) ==> !Clash(c, skip, o, n, k)
  {
    forall k | k in BackedUp(p, o) && Clash(c, skip, o, n, k) ensures false {
      assert PREFIX + n + DOT_XZ == PREFIX + k;
      PrefixLess(n, DOT_XZ);
      LessTotal(n, k);
    }
  }

  /** A name to remove that is not in normal form, or has a NUL, or is empty beside such names, survives. */
  lemma UnremovableStays(p: Archive, names: seq<Name>, n: Name) returns (left: Name)
    requires (forall k :: k in names ==> k in p) && n in names && !Removable(n)
    ensures left in names && left in RmPieces(p, Split(RmListBytes(names), 0))
  {
    var pieces := Split(RmListBytes(names), 0);
    RmPiecesKeeps(p, pieces);
    SplitFree(RmListBytes(names), 0);
    if bad :| bad in names && !(NulFree(bad) && NormPath(bad) == bad) {
      left := bad;
      forall x | x in pieces && x != [] ensures NormPath(x) != left {
        NormPathIdempotent(x);
        NormPathNulFree(x);
      }
    } else {
      left := n;
      RmListSplits(names, []);
      assert RmListBytes(names) + [] == RmListBytes(names);
    }
  }

  lemma NotRestoredWhenLost(c: Codec, skip: bool, p: Archive, o: Archive, n: Name)
    requires Sound(c) && Stripped(p) && n in BackedUp(p, o) && Lost(c, skip, p, o, n)
    ensures Restore(c, WithBackups(c, skip, p, o)) != Reverted(p, o)
  {
    hide WithBackups, Clash, Removable, Packed, Restored, Rm, NormPath, RmPieces, IsUtf8, Lost, RmListBytes;
    var m := WithBackups(c, skip, p, o);
    var lost := set k | k in BackedUp(p, o) && Lost(c, skip, p, o, k);
    assert n in lost;
    var k := Longest(lost);
    LongestLostStaysAway(c, skip, p, o, k);
    LeftOutside(c, skip, p, o);
    RmPiecesKeeps(p, Split(ReadRmList(m), 0));
  }

  lemma NotRestoredWhenUnremovable(c: Codec, skip: bool, p: Archive, o: Archive, n: Name)
    requires Sound(c) && Stripped(p) && WellTyped(p) && n in Recorded(p, o) && !Removable(n)
    ensures Restore(c, WithBackups(c, skip, p, o)) != Reverted(p, o)
  {
    hide WithBackups, Clash, Removable, Packed, Restored, Rm, NormPath, RmPieces, IsUtf8, RmListBytes, ReadRmList, Differs;
    KeptAndNew(p, o);
    var left := UnremovableStays(p, NewNames(p, o), n);
    RmListRead(c, skip, p, o);
    LeftOutside(c, skip, p, o);
    assert left !in Reverted(p, o);
  }

  lemma NothingToRestore(c: Codec, skip: bool, p: Archive, o: Archive)
    requires Sound(c) && Stripped(p) && WellTyped(p) && BackedUp(p, o) == {} && Recorded(p, o) == {}
    ensures Restore(c, WithBackups(c, skip, p, o)) == map[]
    ensures Reverted(p, o) == p
  {
    hide WithBackups, Packed, Rm, NormPath, RmPieces, IsUtf8, RmListBytes, ReadRmList, Differs, Restored;
    KeptAndNew(p, o);
    RmListRead(c, skip, p, o);
    RestoredExactly(c, skip, p, o);
    assert NewNames(p, o) == [] by {
      if NewNames(p, o) != [] { HasMember(NewNames(p, o)); }
    }
    NothingDiffers(p, o);
  }

  lemma NothingDiffers(p: Archive, o: Archive)
    requires BackedUp(p, o) == {} && Recorded(p, o) == {}
    ensures Reverted(p, o) == p
  {
    forall n | n in o ensures !Differs(p, o, n) { assert n !in BackedUp(p, o); }
    forall n | n in p ensures n in o { assert n !in Recorded(p, o); }
  }

  /**
   * Main result: `restore` after `backup` gives exactly the original's names, each with the
   * original's data and, wherever the data differed or the name was missing, the original's
   * whole entry, if and only if the archives are invertible in the above sense.
   */
  lemma RestoreUndoesBackup(c: Codec, skip: bool, p: Archive, o: Archive)
    requires Sound(c) && WellTyped(p)
    ensures Restore(c, Backup(c, skip, p, o)) == Reverted(Strip(p), Strip(o))
       <==> Invertible(c, skip, Strip(p), Strip(o))
  {
    hide Restore, WithBackups, Reverted, Strip, Differs, Recoverable, Clash, Removable;
    StripFacts(p);
    StripFacts(o);
    var p', o' := Strip(p), Strip(o);
    if Invertible(c, skip, p', o') {
      RestoreWhenInvertible(c, skip, p', o');
    } else if n :| n in Recorded(p', o') && !Removable(n) {
      NotRestoredWhenUnremovable(c, skip, p', o', n);
    } else if n :| n in BackedUp(p', o') && Lost(c, skip, p', o', n) {
      NotRestoredWhenLost(c, skip, p', o', n);
    } else {
      NothingToRestore(c, skip, p', o');
    }
  }

  // ----- around the pair

  lemma StripIsOutside(m: Archive)
    ensures Strip(m) == Rm(Outside(m), BACKUP, false)
  {
    StripFacts(m);
    RmOne(Outside(m), BACKUP);
    BackupIsNormal();
  }

  /** Backing up again, from the same original, changes nothing. */
  lemma BackupTwice(c: Codec, skip: bool, p: Archive, o: Archive)
    ensures Backup(c, skip, Backup(c, skip, p, o), o) == Backup(c, skip, p, o)
  {
    hide WithBackups, Rm, Outside, Strip;
    StripFacts(p);
    StripIsOutside(WithBackups(c, skip, Strip(p), Strip(o)));
    LeftOutside(c, skip, Strip(p), Strip(o));
  }

  lemma RestoredSnoc(c: Codec, names: seq<Name>, last: Name, m: Archive)
    requires forall n :: n in names + [last] ==> n in m && IsBackup(n)
    ensures IsBackup(last) && forall n :: n in names ==> n in m && IsBackup(n)
    ensures Restored(c, names + [last], m)
         == if last == RMLIST || last == MAGISK then Restored(c, names, m)
            else Restored(c, names, m)[RestoreOf(c, last, m[last]).0 := RestoreOf(c, last, m[last]).1]
  {
    hide RestoreOf, IsBackup;
    assert (names + [last])[..|names|] == names;
    assert last in names + [last] && forall n :: n in names ==> n in names + [last];
  }

  lemma {:induction false} RestoredSkipsMagisk(c: Codec, left: seq<Name>, right: seq<Name>, m: Archive)
    requires forall n :: n in left + [MAGISK] + right ==> n in m && IsBackup(n)
    ensures forall n :: n in left + right ==> n in m && IsBackup(n)
    ensures Restored(c, left + [MAGISK] + right, m) == Restored(c, left + right, m)
    decreases right
  {
    hide RestoreOf, IsBackup, Restored;
    if right == [] {
      assert left + [MAGISK] + right == left + [MAGISK] && left + right == left;
      RestoredSnoc(c, left, MAGISK, m);
    } else {
      var init, last := right[..|right| - 1], right[|right| - 1];
      assert left + [MAGISK] + right == (left + [MAGISK] + init) + [last] && left + right == (left + init) + [last];
      RestoredSnoc(c, left + [MAGISK] + init, last, m);
      RestoredSkipsMagisk(c, left, init, m);
      RestoredSnoc(c, left + init, last, m);
    }
  }

  lemma {:induction false} RestoredAgrees(c: Codec, names: seq<Name>, m: Archive, k: Archive)
    requires forall n :: n in names ==> n in m && n in k && IsBackup(n) && (n != MAGISK ==> m[n] == k[n])
    ensures Restored(c, names, m) == Restored(c, names, k)
    decreases names
  {
    if names != [] { RestoredAgrees(c, names[..|names| - 1], m, k); }
  }

  lemma MagiskNotRestored(c: Codec, m: Archive, k: Archive)
    requires MAGISK in k && k.Keys == m.Keys + {MAGISK}
    requires forall n :: n in m && n != MAGISK ==> k[n] == m[n]
    ensures Restored(c, BackupNames(k), k) == Restored(c, BackupNames(m), m)
  {
    hide Restored, IsBackup, Sorted;
    RmListIsBackup();
    var a, b := BackupNames(m), BackupNames(k);
    if MAGISK in m {
      AscendingUnique(a, b);
    } else {
      var i :| 0 <= i < |b| && b[i] == MAGISK;
      var left, right := b[..i], b[i + 1..];
      WithoutOne(b, i);
      assert b == left + [MAGISK] + right;
      AscendingUnique(a, left + right);
      RestoredSkipsMagisk(c, left, right, k);
    }
    RestoredAgrees(c, a, m, k);
  }

  /** A `.backup/.magisk` entry added between the two commands changes nothing. */
  lemma MagiskEntryIgnored(c: Codec, m: Archive, e: Entry)
    ensures Restore(c, m[MAGISK := e]) == Restore(c, m)
  {
    hide Restored, IsUtf8, RmPieces, Rm, IsBackup, BackupNames;
    RmListIsBackup();
    MagiskNotRestored(c, m, m[MAGISK := e]);
    assert Outside(m[MAGISK := e]) == Outside(m);
  }

  lemma WithoutOne(s: seq<Name>, i: nat)
    requires Ascending(s) && i < |s|
    ensures Ascending(s[..i] + s[i + 1..])
    ensures forall x :: x in s[..i] + s[i + 1..] <==> x in s && x != s[i]
  {
    var t := s[..i] + s[i + 1..];
    forall j | 0 <= j < |t| ensures t[j] in s && t[j] != s[i] {
      var k := if j < i then j else j + 1;
      assert t[j] == s[k];
      if t[j] == s[i] { AscendingDistinct(s, k, i); }
    }
    forall x | x in s && x != s[i] ensures x in t {
      var k :| 0 <= k < |s| && s[k] == x;
      assert t[if k < i then k else k - 1] == x;
    }
  }

  // ----- what stands in the archive after `backup`

  /** The names and modes `backup` uses. */
  lemma ControlNames()
    ensures BACKUP == Ascii(".backup") && PREFIX == Ascii(".backup/") && DOT_XZ == Ascii(".xz")
    ensures DOT_RMLIST == Ascii(".rmlist") && DOT_MAGISK == Ascii(".magisk")
    ensures RMLIST == Ascii(".backup/.rmlist") && MAGISK == Ascii(".backup/.magisk")
  {
  }

  /** An entry is regular by the four bits of its mode that hold the file type, whatever the other bits are. */
  lemma RegularByType(e: Entry, above: nat, kind: nat, permissions: nat)
    requires e.mode == above * 0x1_0000 + kind * 0x1000 + permissions && kind < 16 && permissions < 0x1000
    ensures Regular(e) <==> kind == 8
  {
    assert e.mode / 0x1000 == above * 16 + kind;
  }

  lemma {:induction false} BackupsByName(c: Codec, skip: bool, names: seq<Name>, o: Archive)
    requires forall n :: n in names ==> n in o
    ensures var b := Backups(c, skip, names, o);
            && BACKUP in b && b[BACKUP] == BACKUP_DIR
            && (forall k :: k in b ==> k == BACKUP || exists n :: n in names && k == BackupOf(c, skip, n, o[n]).0)
    decreases names
  {
    hide BackupOf;
    if names != [] {
      var init, last := names[..|names| - 1], names[|names| - 1];
      BackupsByName(c, skip, init, o);
      KeptName(c, skip, last, o[last]);
      assert forall n :: n in init ==> n in names;
    }
  }

  /** Where a kept entry of the original is found. */
  function KeptAs(c: Codec, skip: bool, n: Name, e: Entry): Name {
    PREFIX + n + if Packed(c, skip, e) then DOT_XZ else []
  }

  /** `backup` leaves every entry and adds a directory, and when names are new the list of them. */
  lemma BackupAdds(c: Codec, skip: bool, p: Archive, o: Archive)
    requires Stripped(p)
    ensures var r := WithBackups(c, skip, p, o);
            && BACKUP in r && r[BACKUP] == Entry(0x4000, 0, 0, 0, 0, [])
            && (forall n :: n in p ==> n in r && r[n] == p[n])
            && (NewNames(p, o) != [] ==> RMLIST in r && r[RMLIST] == Entry(0x8000, 0, 0, 0, 0, RmListBytes(NewNames(p, o))))
  {
    hide Backups, RmListBytes, BACKUP, RMLIST, KeptNames, NewNames, BackupOf, PREFIX;
    RmListIsBackup();
    KeptAndNew(p, o);
    BackupsByName(c, skip, KeptNames(p, o), o);
    forall k | k in Backups(c, skip, KeptNames(p, o), o) ensures k == BACKUP || IsBackup(k) {
      KeptKeys(c, skip, KeptNames(p, o), o, k);
    }
    hide IsBackup;
  }

  /** And nothing else but kept entries: each under its own name in that directory, with `.xz` behind it exactly when it is compressed. */
  lemma BackupAddsOnly(c: Codec, skip: bool, p: Archive, o: Archive, k: Name)
    requires k in WithBackups(c, skip, p, o) && k !in p && k != BACKUP && k != RMLIST
    ensures exists n :: n in BackedUp(p, o) && k == KeptAs(c, skip, n, o[n])
  {
    hide Backups, RmListBytes, BACKUP, RMLIST, KeptNames, NewNames, BackupOf, KeptAs;
    KeptAndNew(p, o);
    BackupsByName(c, skip, KeptNames(p, o), o);
    var n :| n in KeptNames(p, o) && k == BackupOf(c, skip, n, o[n]).0;
    KeptUnder(c, skip, n, o[n]);
  }

  lemma KeptUnder(c: Codec, skip: bool, n: Name, e: Entry)
    ensures BackupOf(c, skip, n, e).0 == KeptAs(c, skip, n, e)
  {
    assert PREFIX + n + [] == PREFIX + n;
  }
}
