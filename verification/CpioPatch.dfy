/** What `patch` does to an archive: flags leave the fstab files and `verity_key` goes. */
module CpioPatch {
  import opened Bytes
  import opened NameOrder
  import opened CpioFormat
  import CpioBackup
  import TextPatch

  const FSTAB: Name := [0x66, 0x73, 0x74, 0x61, 0x62] // "fstab"
  const VERITY_KEY: Name := Ascii("verity_key")
  const TWRP: Name := Ascii("twrp")
  const RECOVERY: Name := Ascii("recovery")

  predicate IsFstab(name: Name, e: Entry, keepVerity: bool, keepForceEncrypt: bool) {
    && (!keepVerity || !keepForceEncrypt)
    && CpioBackup.Regular(e)
    && !StartsWith(name, CpioBackup.BACKUP) && !StartsWith(name, TWRP) && !StartsWith(name, RECOVERY)
    && StartsWith(name, FSTAB)
  }

  /** The text of an eligible fstab: verity flags go first, then encryption flags. */
  function PatchedText(data: bytes, keepVerity: bool, keepForceEncrypt: bool): bytes {
    var once := if keepVerity then data else TextPatch.Filtered(TextPatch.VERITY, data);
    if keepForceEncrypt then once else TextPatch.Filtered(TextPatch.ENCRYPTION, once)
  }

  /** The entry `patch` leaves under a name, or none. */
  function PatchedEntry(name: Name, e: Entry, keepVerity: bool, keepForceEncrypt: bool): Option<Entry> {
    if IsFstab(name, e, keepVerity, keepForceEncrypt)
    then Some(e.(data := PatchedText(e.data, keepVerity, keepForceEncrypt)))
    else if !keepVerity && name == VERITY_KEY then None
    else Some(e)
  }

  function Patched(m: Archive, keepVerity: bool, keepForceEncrypt: bool): Archive {
    map n | n in m && PatchedEntry(n, m[n], keepVerity, keepForceEncrypt).Some? ::
      PatchedEntry(n, m[n], keepVerity, keepForceEncrypt).value
  }

  /**
   * Only `verity_key` can go, and only when verity is dropped; no entry changes but its data, and
   * data changes only in a regular `fstab*` file, exactly when a dropped kind of flag stands in it.
   */
  lemma PatchTouchesOnlyFlags(m: Archive, kv: bool, ke: bool, n: Name)
    ensures n in Patched(m, kv, ke) <==> n in m && (kv || n != Ascii("verity_key"))
    ensures n in Patched(m, kv, ke) ==>
              var (was, now) := (m[n], Patched(m, kv, ke)[n]);
              && now == was.(data := now.data)
              && (now != was <==>
                    CpioBackup.Regular(was) && StartsWith(n, Ascii("fstab"))
                    && ((!kv && !TextPatch.FlagFree(TextPatch.VERITY, was.data))
                        || (!ke && !TextPatch.FlagFree(TextPatch.ENCRYPTION, was.data))))
  {
    assert Ascii("fstab") == FSTAB;
    FstabIsNoOther(n);
    if n in m && IsFstab(n, m[n], kv, ke) {
      PatchedTextFixed(m[n].data, kv, ke);
    }
  }

  /**
   * Main result: what every regular `fstab*` file becomes, switch by switch. Both filters run where
   * both kinds are dropped, the one for encryption on what the one for verity left.
   */
  lemma FstabBecomes(m: Archive, kv: bool, ke: bool, n: Name)
    requires n in m && CpioBackup.Regular(m[n]) && StartsWith(n, Ascii("fstab"))
    ensures TextPatch.Usable(TextPatch.VERITY) && TextPatch.Usable(TextPatch.ENCRYPTION)
    ensures n in Patched(m, kv, ke)
    ensures var was, now := m[n].data, Patched(m, kv, ke)[n].data;
            && (kv && ke ==> now == was)
            && (!kv && ke ==> now == TextPatch.Filtered(TextPatch.VERITY, was))
            && (kv && !ke ==> now == TextPatch.Filtered(TextPatch.ENCRYPTION, was))
            && (!kv && !ke ==> now == TextPatch.Filtered(TextPatch.ENCRYPTION, TextPatch.Filtered(TextPatch.VERITY, was)))
  {
    hide TextPatch.Filtered;
    assert Ascii("fstab") == FSTAB;
    FstabIsNoOther(n);
  }

  /**
   * So a dropped kind of flag stands in such a file afterwards exactly when kept bytes spell one: for
   * one dropped kind when they join across removed flags of it, for verity besides encryption when
   * they do across removed encryption flags.
   */
  lemma DroppedFlagsGone(m: Archive, kv: bool, ke: bool, n: Name)
    requires n in m && CpioBackup.Regular(m[n]) && StartsWith(n, Ascii("fstab"))
    ensures TextPatch.Usable(TextPatch.VERITY) && TextPatch.Usable(TextPatch.ENCRYPTION)
    ensures n in Patched(m, kv, ke)
    ensures var was, now := m[n].data, Patched(m, kv, ke)[n].data;
            var once := if kv then was else TextPatch.Filtered(TextPatch.VERITY, was);
            && (!ke ==> (TextPatch.FlagFree(TextPatch.ENCRYPTION, now) <==> !TextPatch.Rejoins(TextPatch.ENCRYPTION, once)))
            && (!kv && ke ==> (TextPatch.FlagFree(TextPatch.VERITY, now) <==> !TextPatch.Rejoins(TextPatch.VERITY, was)))
            && (!kv && !ke ==> (TextPatch.FlagFree(TextPatch.VERITY, now)
                                <==> !TextPatch.LeavesFlag(TextPatch.VERITY, TextPatch.ENCRYPTION, once)))
  {
    hide TextPatch.Filtered, TextPatch.FlagFree, TextPatch.LeavesFlag, Patched;
    FstabBecomes(m, kv, ke, n);
    var was := m[n].data;
    var once := if kv then was else TextPatch.Filtered(TextPatch.VERITY, was);
    TextPatch.LeavesFlagExactly(TextPatch.ENCRYPTION, TextPatch.ENCRYPTION, once);
    TextPatch.LeavesFlagExactly(TextPatch.VERITY, TextPatch.VERITY, was);
    TextPatch.LeavesFlagExactly(TextPatch.VERITY, TextPatch.ENCRYPTION, once);
  }

  /** The three name exclusions never matter: none of them can start an `fstab` name. */
  lemma FstabIsNoOther(name: Name)
    ensures StartsWith(name, FSTAB) ==>
              !StartsWith(name, CpioBackup.BACKUP) && !StartsWith(name, TWRP) && !StartsWith(name, RECOVERY)
              && name != VERITY_KEY
  {
    if StartsWith(name, FSTAB) {
      assert name[0] == FSTAB[0];
      Differ(name, CpioBackup.BACKUP, 0);
      Differ(name, TWRP, 0);
      Differ(name, RECOVERY, 0);
    }
  }

  lemma {:induction false} FilteredShorter(patterns: seq<bytes>, s: bytes)
    requires TextPatch.Usable(patterns)
    ensures |TextPatch.Filtered(patterns, s)| == |s| <==> TextPatch.Filtered(patterns, s) == s
  {
    hide TextPatch.Match;
    if s != [] {
      assert s == [s[0]] + s[1..];
      FilteredShorter(patterns, s[1..]);
    }
  }

  lemma PatchedTextFixed(data: bytes, kv: bool, ke: bool)
    ensures TextPatch.Usable(TextPatch.VERITY) && TextPatch.Usable(TextPatch.ENCRYPTION)
    ensures PatchedText(data, kv, ke) == data
       <==> (kv || TextPatch.FlagFree(TextPatch.VERITY, data)) && (ke || TextPatch.FlagFree(TextPatch.ENCRYPTION, data))
  {
    hide TextPatch.Filtered, TextPatch.FlagFree;
    TextPatch.FilteredFixed(TextPatch.VERITY, data);
    FilteredShorter(TextPatch.VERITY, data);
    TextPatch.FilteredFixed(TextPatch.ENCRYPTION, data);
    TextPatch.FilteredFixed(TextPatch.ENCRYPTION, PatchedText(data, kv, true));
    FilteredShorter(TextPatch.ENCRYPTION, PatchedText(data, kv, true));
  }
}
