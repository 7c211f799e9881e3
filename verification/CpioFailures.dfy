/** Archives on which `restore` does not undo `backup`, one for each condition of the exact result. */
module CpioFailures {
  import opened Bytes
  import opened Utf8
  import opened NameOrder
  import opened CpioFormat
  import opened Paths
  import opened CpioBackup
  import opened CpioInverse

  const A: Name := [0x61]
  const A_XZ: Name := A + DOT_XZ

  function File(data: bytes): Entry {
    Entry(S_IFREG, 0, 0, 0, 0, data)
  }

  /** Neither a regular file nor a directory: its backup is never compressed. */
  function Link(data: bytes): Entry {
    Entry(0xA000, 0, 0, 0, 0, data)
  }

  /** A compressor that takes everything. */
  const PLAIN := Codec(d => Some(d), d => Some(d))

  predicate Lost(skip: bool, p: Archive, o: Archive) {
    Restore(PLAIN, Backup(PLAIN, skip, p, o)) != Reverted(Strip(p), Strip(o))
  }

  lemma LostExactly(skip: bool, p: Archive, o: Archive)
    requires WellTyped(p) && Stripped(p) && Stripped(o)
    ensures Lost(skip, p, o) <==> !Invertible(PLAIN, skip, p, o)
  {
    hide Restore, Backup, Reverted, Invertible, Strip;
    StripFacts(p);
    StripFacts(o);
    assert Strip(p) == p && Strip(o) == o;
    assert Sound(PLAIN);
    RestoreUndoesBackup(PLAIN, skip, p, o);
  }

  lemma ShortNames()
    ensures forall n: Name :: |n| < 8 && n != BACKUP ==> !IsBackup(n)
    ensures IsUtf8(A) && IsUtf8([SLASH, 0x61])
  {
    AsciiIs(A);
    AsciiIs([SLASH, 0x61]);
  }

  lemma {:induction false} AsciiIs(s: bytes)
    requires forall i :: 0 <= i < |s| ==> s[i] < 128
    ensures IsUtf8(s)
    decreases s
  {
    if s != [] { AsciiIs(s[1..]); }
  }

  /** Nothing was changed, and restoring clears the archive. */
  lemma UnchangedIsCleared(skip: bool)
    ensures Lost(skip, map[A := File([1])], map[A := File([1])])
  {
    hide Lost;
    var p := map[A := File([1])];
    ShortNames();
    LostExactly(skip, p, p);
    assert A in p;
    assert BackedUp(p, p) == {} && Recorded(p, p) == {};
  }

  /** A compressed `a` and a link `a.xz` are kept under one name. */
  lemma CompressedNameClashes()
    ensures Lost(false, map[], map[A := File([1]), A_XZ := Link([2])])
  {
    hide Lost;
    var o: Archive := map[A := File([1]), A_XZ := Link([2])];
    ShortNames();
    LostExactly(false, map[], o);
    assert A != A_XZ && o[A] == File([1]) && o[A_XZ] == Link([2]);
    assert A in BackedUp(map[], o) && A_XZ in BackedUp(map[], o);
    assert Clash(PLAIN, false, o, A, A_XZ);
  }

  /** Links named `.rmlist` or `.magisk` are kept under control names. */
  lemma ControlNamesClash(skip: bool, n: Name)
    requires n == DOT_RMLIST || n == DOT_MAGISK
    ensures Lost(skip, map[], map[n := Link([1])])
  {
    hide Lost;
    var o := map[n := Link([1])];
    ShortNames();
    LostExactly(skip, map[], o);
    assert n in BackedUp(map[], o) && !Recoverable(PLAIN, skip, n, o[n]);
  }

  /** Kept without compression, a file `a.xz` that unpacks comes back as `a`. */
  lemma PackedLookAlike()
    ensures Lost(true, map[], map[A_XZ := File([1])])
  {
    hide Lost;
    var o := map[A_XZ := File([1])];
    ShortNames();
    LostExactly(true, map[], o);
    assert EndsWith(A_XZ, DOT_XZ);
    assert A_XZ in BackedUp(map[], o) && !Recoverable(PLAIN, true, A_XZ, o[A_XZ]);
  }

  lemma NotNormal()
    ensures NormPath([SLASH, 0x61]) == A
  {
    SplitFirst([], A, SLASH);
    SplitFirst(A, [], SLASH);
    assert [] + [SLASH] + A == [SLASH, 0x61];
    var pieces := Split([SLASH, 0x61], SLASH);
    assert pieces == [[]] + [A] && pieces[1..] == [A];
    assert NonEmpty([A]) == [A] + NonEmpty([]);
  }

  /** A new entry named `/a` is recorded but not removed, since `rm` looks for `a`. */
  lemma UnnormalisedStays(skip: bool)
    ensures Lost(skip, map[[SLASH, 0x61] := File([1])], map[])
  {
    hide Lost;
    var n: Name := [SLASH, 0x61];
    var p := map[n := File([1])];
    ShortNames();
    LostExactly(skip, p, map[]);
    NotNormal();
    assert n in Recorded(p, map[]) && !Removable(n);
  }

  /** A new entry with a NUL in its name is split in two on the removal list. */
  lemma NulStays(skip: bool)
    ensures Lost(skip, map[[0x61, 0, 0x61] := File([1])], map[])
  {
    hide Lost;
    var n: Name := [0x61, 0, 0x61];
    var p := map[n := File([1])];
    ShortNames();
    AsciiIs(n);
    LostExactly(skip, p, map[]);
    assert n in Recorded(p, map[]) && n[1] == 0;
  }
}
