/** What the sparse repair achieves: on any device, and on one that stores what it is sent. */
module SparseRepairProofs {
  import opened Bytes
  import opened SparseRepair

  // ----- any device

  /**
   * However writes behave: a live run writes to a partition exactly when it is allowed, has an image
   * and gets a good verdict, and reports it repaired exactly when also every address it wrote reads
   * back as stock.
   */
  lemma RepairedMeansStock(d: Device, o: Options, entry: AuditEntry, s: State, known: Verdicts)
    requires Checked(o, entry) && RepairPart(d, o, entry, s, known).result.Some?
    ensures var step := RepairPart(d, o, entry, s, known);
            var r, back := step.result.value, Read(d, step.s, entry.name);
            if !Verdict(o, known, entry.name) then step.s == s && r.status == Skipped
            else
              && back.Some?
              && (r.status == Repaired || r.status == VerificationFailed)
              && r.written == |r.addresses| && r.verified <= r.written
              && (r.status == Repaired <==>
                    forall i :: 0 <= i < |r.addresses| ==> ReadsAsStock(back.value, o.stock(entry.name).value, r.addresses[i]))
  {
    hide Read, WriteSectors, OnBlocklist, Verdict;
    var w := WriteSectors(d, entry.name, o.stock(entry.name).value, entry.addresses, s);
    hide Verified;
    if Read(d, w.s, entry.name).Some? {
      forall i | 0 <= i < |w.written|
        ensures Verified(Read(d, w.s, entry.name).value, o.stock(entry.name).value, w.written[i])
           <==> ReadsAsStock(Read(d, w.s, entry.name).value, o.stock(entry.name).value, w.written[i])
      {
        VerifiedIsStock(Read(d, w.s, entry.name).value, o.stock(entry.name).value, w.written[i]);
      }
    }
  }

  /** The 512 bytes at an address, as 32-bit numbers go, are there on both sides and are the same. */
  predicate ReadsAsStock(device: bytes, stock: bytes, addr: int) {
    var off := Int32(addr);
    0 <= off <= off + 512 <= |device| && off + 512 <= |stock| && forall k :: off <= k < off + 512 ==> device[k] == stock[k]
  }

  lemma VerifiedIsStock(device: bytes, stock: bytes, addr: int)
    ensures Verified(device, stock, addr) <==> ReadsAsStock(device, stock, addr)
  {
    hide Int32;
    var off := Int32(addr);
    if 0 <= off && off + 512 <= |device| && off + 512 <= |stock| {
      var a, b := device[off..off + 512], stock[off..off + 512];
      assert forall k :: 0 <= k < 512 ==> a[k] == device[off + k] && b[k] == stock[off + k];
      if a == b {
        forall k | off <= k < off + 512 ensures device[k] == stock[k] { assert a[k - off] == b[k - off]; }
      }
    }
  }

  /**
   * What is reported about an entry: nothing when it did not differ; the reason when nothing is to be
   * written, with no sector counted; and a run goes on exactly unless a permitted write threw or the
   * partition could not be read back.
   */
  lemma ReportedReasons(d: Device, o: Options, entry: AuditEntry, s: State, known: Verdicts)
    ensures var step := RepairPart(d, o, entry, s, known);
            var live := Checked(o, entry) && Verdict(o, known, entry.name);
            && (entry.status != Mismatch ==> step.ok && step.result.None?)
            && (step.ok && entry.status == Mismatch ==>
                  && step.result.Some?
                  && var r := step.result.value;
                     && r.name == entry.name
                     && (r.status == Blocklisted <==> OnBlocklist(entry.name) && !o.force)
                     && (r.status == NoStockImage <==> !(OnBlocklist(entry.name) && !o.force) && o.stock(entry.name).None?)
                     && (r.status == Skipped <==> Checked(o, entry) && !live)
                     && (r.status in {Blocklisted, NoStockImage, Skipped} ==> r.written == 0 && r.verified == 0 && r.addresses == [])
                     && (o.dryRun && r.status !in {Blocklisted, NoStockImage} ==>
                           r.status == Repaired && r.written == entry.count && r.verified == 0 && r.addresses == entry.addresses))
            && (step.ok <==> live ==>
                  var w := WriteSectors(d, entry.name, o.stock(entry.name).value, entry.addresses, s);
                  w.ok && Read(d, w.s, entry.name).Some?)
  {
    hide Read, WriteSectors, OnBlocklist, Verdict, Folded, CountVerified;
  }

  function Names(results: seq<PartResult>): (names: seq<string>)
    ensures |names| == |results|
  {
    seq(|results|, i requires 0 <= i < |results| => results[i].name)
  }

  function Mismatched(entries: seq<AuditEntry>): seq<string> {
    if entries == [] then []
    else
      var last := entries[|entries| - 1];
      Mismatched(entries[..|entries| - 1]) + if last.status == Mismatch then [last.name] else []
  }

  /** A run that is not broken off reports every entry that differed, once and in order. */
  lemma {:induction false} EveryMismatchReported(d: Device, o: Options, entries: seq<AuditEntry>, s: State, known: Verdicts)
    requires RepairAll(d, o, entries, s, known).ok
    ensures Names(RepairAll(d, o, entries, s, known).results) == Mismatched(entries)
    decreases |entries|
  {
    hide RepairPart, Verdict, WriteSectors, Read, OnBlocklist;
    if entries != [] {
      var init, last := entries[..|entries| - 1], entries[|entries| - 1];
      EveryMismatchReported(d, o, init, s, known);
      var r := RepairAll(d, o, init, s, known);
      ReportedReasons(d, o, last, r.s, r.known);
      var step := RepairPart(d, o, last, r.s, r.known);
      if step.result.Some? {
        assert Names(r.results + [step.result.value]) == Names(r.results) + [last.name];
      }
    }
  }

  /** A partition's audit: what its status says, and what is counted; digests that agree are taken for equal contents. */
  lemma AuditedStatus(sha: bytes -> bytes, d: Device, s: State, stock: string -> Option<bytes>, name: string)
    ensures var e, data, image := AuditOf(sha, d, s, stock, name), Read(d, s, name), stock(name);
            && e.name == name
            && (e.status == Error <==> data.None?)
            && (e.status == NoStockComparison <==> data.Some? && image.None?)
            && (e.status == Match <==> data.Some? && image.Some? && sha(data.value) == sha(image.value))
            && (e.status != Mismatch ==> e.count == 0 && e.addresses == [])
            && (e.status == Mismatch ==>
                  && e.addresses == Differing(data.value, image.value, Min(|data.value|, |image.value|) / 512)
                  && (|data.value| <= |image.value| ==> e.count == |e.addresses| + (|image.value| - |data.value|) / 512)
                  && (|image.value| <= |data.value| ==> e.count == |e.addresses| + (|data.value| - |image.value|) / 512))
  {
    hide Read, Differing;
  }

  /** The partitions that are never restored without force, by name, letter case aside. */
  lemma NeverRestored(name: string)
    ensures OnBlocklist(name) <==> Folded(name) in {"SEC", "DDR", "LIMITS", "APDP", "MSADP"}
  {
    hide Folded;
    FoldedNames();
    assert |NEVER_RESTORE| == 5;
    FoldedSame(NEVER_RESTORE[0], name);
    FoldedSame(NEVER_RESTORE[1], name);
    FoldedSame(NEVER_RESTORE[2], name);
    FoldedSame(NEVER_RESTORE[3], name);
    FoldedSame(NEVER_RESTORE[4], name);
  }

  lemma FoldedNames()
    ensures Folded("sec") == "SEC" && Folded("ddr") == "DDR" && Folded("limits") == "LIMITS"
    ensures Folded("apdp") == "APDP" && Folded("msadp") == "MSADP"
  {
  }

  const SMALL := "abcdefghijklmnopqrstuvwxyz"
  const LARGE := "ABCDEFGHIJKLMNOPQRSTUVWXYZ"

  /** Exactly the 26 small letters are folded, each to its large one. */
  lemma LettersFolded(c: char)
    ensures |SMALL| == |LARGE| == 26
    ensures if exists i :: 0 <= i < 26 && SMALL[i] == c then exists i :: 0 <= i < 26 && SMALL[i] == c && Upper(c) == LARGE[i]
            else Upper(c) == c
  {
    if 'a' <= c <= 'z' {
      var i := c as int - 'a' as int;
      assert SMALL[i] == c && LARGE[i] == c - 32 as char;
    }
  }

  /** A sector below two gigabytes is skipped exactly when the image does not hold all of it; else it is sent to its own place. */
  lemma SkippedExactly(d: Device, name: string, stock: bytes, addr: nat, w: Writes)
    requires addr + 512 < 0x8000_0000
    ensures addr + 512 > |stock| ==> WriteSector(d, name, stock, addr, w) == w
    ensures addr + 512 <= |stock| ==>
              var call := Write(d, w.s, name, addr / 512, stock[addr..addr + 512]);
              WriteSector(d, name, stock, addr, w)
                == if call.acked.None? then w.(ok := false) else Writes(true, call.s, w.written + [addr])
  {
    hide Write;
  }

  /** From there on, up to where the lower 32 bits of the address are small again, the range is negative or past the end, and the run throws. */
  lemma FarSectorThrows(d: Device, name: string, stock: bytes, addr: nat, w: Writes)
    requires |stock| < 0x8000_0000 && 0x8000_0000 - 512 <= addr <= 0x1_0000_0000 - 512
    ensures WriteSector(d, name, stock, addr, w) == w.(ok := false)
  {
    hide Write;
  }

  /** Entries for which a run asks whether the image is genuine: differing, allowed, with an image, not in a dry run. */
  predicate Checked(o: Options, entry: AuditEntry) {
    entry.status == Mismatch && !(OnBlocklist(entry.name) && !o.force) && o.stock(entry.name).Some? && !o.dryRun
  }

  /** Entries that are not checked, and those whose image gets a bad verdict, send no command. */
  lemma NothingSent(d: Device, o: Options, entry: AuditEntry, s: State, known: Verdicts)
    requires !Checked(o, entry) || !Verdict(o, known, entry.name)
    ensures RepairPart(d, o, entry, s, known).ok && RepairPart(d, o, entry, s, known).s == s
  {
    hide Read, WriteSectors, OnBlocklist, Verdict, Folded;
  }

  lemma {:induction false} DryRunSendsNothing(d: Device, o: Options, entries: seq<AuditEntry>, s: State, known: Verdicts)
    requires o.dryRun
    ensures RepairAll(d, o, entries, s, known).ok && RepairAll(d, o, entries, s, known).s == s
    decreases |entries|
  {
    hide RepairPart;
    if entries != [] {
      var init := entries[..|entries| - 1];
      DryRunSendsNothing(d, o, init, s, known);
      NothingSent(d, o, entries[|entries| - 1], s, RepairAll(d, o, init, s, known).known);
    }
  }

  // ----- only genuine images are written

  /** The first entry whose check gave the verdict kept under `key`. */
  function FirstChecked(o: Options, entries: seq<AuditEntry>, key: string): (j: Option<nat>)
    ensures j.Some? ==> j.value < |entries| && Checked(o, entries[j.value]) && Folded(entries[j.value].name) == key
    ensures j.None? ==> forall i :: 0 <= i < |entries| ==> !(Checked(o, entries[i]) && Folded(entries[i].name) == key)
  {
    if entries == [] then None
    else
      var n := |entries| - 1;
      var j := FirstChecked(o, entries[..n], key);
      if j.Some? then j else if Checked(o, entries[n]) && Folded(entries[n].name) == key then Some(n) else None
  }

  /** What the verdicts say after a run over `entries`: one for each checked name, and it is its first entry's. */
  ghost predicate VerdictsOf(o: Options, entries: seq<AuditEntry>, known: Verdicts) {
    && (forall key :: key in known <==> FirstChecked(o, entries, key).Some?)
    && (forall key :: key in known ==> known[key] == Genuine(o, entries[FirstChecked(o, entries, key).value].name))
  }

  lemma VerdictAdded(d: Device, o: Options, entry: AuditEntry, s: State, known: Verdicts)
    ensures RepairPart(d, o, entry, s, known).known
         == if Checked(o, entry) then known[Folded(entry.name) := Verdict(o, known, entry.name)] else known
  {
    hide Verdict, Folded, WriteSectors, Read, OnBlocklist, CountVerified;
  }

  lemma {:induction false} VerdictsKept(d: Device, o: Options, entries: seq<AuditEntry>, s: State)
    requires RepairAll(d, o, entries, s, map[]).ok
    ensures VerdictsOf(o, entries, RepairAll(d, o, entries, s, map[]).known)
    decreases |entries|
  {
    hide Genuine, Folded, RepairPart, Checked;
    if entries != [] {
      var n := |entries| - 1;
      VerdictsKept(d, o, entries[..n], s);
      var r := RepairAll(d, o, entries[..n], s, map[]);
      VerdictAdded(d, o, entries[n], r.s, r.known);
    }
  }

  /** The verdict an entry gets is that of the first checked entry of its name, letter case aside. */
  lemma VerdictIsFirsts(d: Device, o: Options, entries: seq<AuditEntry>, s: State, i: nat)
    requires i < |entries| && Checked(o, entries[i]) && RepairAll(d, o, entries[..i], s, map[]).ok
    ensures var first := FirstChecked(o, entries[..i + 1], Folded(entries[i].name));
            && first.Some?
            && Verdict(o, RepairAll(d, o, entries[..i], s, map[]).known, entries[i].name) == Genuine(o, entries[first.value].name)
  {
    hide Genuine, RepairAll, Checked, Folded;
    VerdictsKept(d, o, entries[..i], s);
    assert entries[..i + 1][..i] == entries[..i];
  }

  /** An entry of the manifest for a partition: by its name, or by that of its image file. */
  predicate EntryFor(e: ManifestEntry, name: string) {
    SameName(e.name, name) || SameName(e.fileName, name + ".img")
  }

  /** The first entry for a partition. */
  predicate FirstFor(manifest: seq<ManifestEntry>, name: string, i: nat) {
    i < |manifest| && EntryFor(manifest[i], name) && forall j :: 0 <= j < i ==> !EntryFor(manifest[j], name)
  }

  lemma {:induction false} HashOfFirst(manifest: seq<ManifestEntry>, name: string, i: nat)
    requires FirstFor(manifest, name, i)
    ensures ManifestHash(manifest, name) == Some(manifest[i].sha256)
    decreases i
  {
    hide SameName;
    if i > 0 {
      assert forall j :: 0 <= j < |manifest| - 1 ==> manifest[1..][j] == manifest[j + 1];
      HashOfFirst(manifest[1..], name, i - 1);
    }
  }

  lemma {:induction false} HashOfNone(manifest: seq<ManifestEntry>, name: string)
    requires forall j :: 0 <= j < |manifest| ==> !EntryFor(manifest[j], name)
    ensures ManifestHash(manifest, name) == None
  {
    hide SameName;
    if manifest != [] { HashOfNone(manifest[1..], name); }
  }

  /**
   * An image is genuine exactly when the manifest has an entry for the partition, by its name or its
   * file's, and the digest compared is that of the first such entry.
   */
  lemma GenuineByFirstEntry(o: Options, name: string)
    ensures Genuine(o, name)
       <==> o.stock(name).Some? && exists i: nat :: FirstFor(o.manifest, name, i) && o.manifest[i].sha256 != ""
                                                   && SameName(o.hex(o.stock(name).value), o.manifest[i].sha256)
  {
    hide SameName, ManifestHash, EntryFor;
    if i: nat :| FirstFor(o.manifest, name, i) {
      HashOfFirst(o.manifest, name, i);
      forall k: nat | FirstFor(o.manifest, name, k) ensures k == i { }
    } else {
      NoFirst(o.manifest, name);
      HashOfNone(o.manifest, name);
    }
  }

  lemma {:induction false} NoFirst(manifest: seq<ManifestEntry>, name: string)
    requires forall i: nat :: !FirstFor(manifest, name, i)
    ensures forall j :: 0 <= j < |manifest| ==> !EntryFor(manifest[j], name)
  {
    forall j: nat | j < |manifest| ensures !EntryFor(manifest[j], name) { NotTheFirst(manifest, name, j); }
  }

  lemma {:induction false} NotTheFirst(manifest: seq<ManifestEntry>, name: string, j: nat)
    requires j < |manifest| && forall i: nat :: !FirstFor(manifest, name, i)
    ensures forall i :: 0 <= i <= j ==> !EntryFor(manifest[i], name)
    decreases j
  {
    hide EntryFor;
    if j > 0 { NotTheFirst(manifest, name, j - 1); }
    assert !FirstFor(manifest, name, j);
  }

  /** The image has a sector at `addr`, and these are its bytes. */
  predicate OwnSector(stock: bytes, addr: nat, data: bytes) {
    addr + SECTOR <= |stock| && data == stock[addr..addr + SECTOR]
  }

  /** A sector of the image of partition `name`. */
  ghost predicate FromImage(o: Options, name: string, p: Program) {
    o.stock(name).Some? && exists off: nat :: OwnSector(o.stock(name).value, off, p.data)
  }

  /** `p` was sent for entry `i`, on the word of the first checked entry of that name. */
  ghost predicate SentFor(o: Options, entries: seq<AuditEntry>, i: nat, p: Program)
    requires i < |entries|
  {
    var first := FirstChecked(o, entries[..i + 1], Folded(entries[i].name));
    Checked(o, entries[i]) && FromImage(o, entries[i].name, p) && first.Some? && Genuine(o, entries[first.value].name)
  }

  ghost predicate SentForSome(o: Options, entries: seq<AuditEntry>, p: Program) {
    exists i :: 0 <= i < |entries| && SentFor(o, entries, i, p)
  }

  lemma OneFromImage(d: Device, o: Options, name: string, addr: int, w: Writes)
    requires o.stock(name).Some?
    ensures var sent := WriteSector(d, name, o.stock(name).value, addr, w).s.sent;
            w.s.sent <= sent && forall k :: |w.s.sent| <= k < |sent| ==> FromImage(o, name, sent[k])
  {
    hide Lookup, Int32, Div;
    var stock, off := o.stock(name).value, Int32(addr);
    if 0 <= off && off + SECTOR <= |stock| {
      assert OwnSector(stock, off, stock[off..off + SECTOR]);
    }
  }

  lemma {:induction false} SectorsFromImage(d: Device, o: Options, name: string, addrs: seq<int>, s: State)
    requires o.stock(name).Some?
    ensures var sent := WriteSectors(d, name, o.stock(name).value, addrs, s).s.sent;
            s.sent <= sent && forall k :: |s.sent| <= k < |sent| ==> FromImage(o, name, sent[k])
    decreases |addrs|
  {
    hide WriteSector, FromImage;
    if addrs != [] {
      var init := addrs[..|addrs| - 1];
      SectorsFromImage(d, o, name, init, s);
      OneFromImage(d, o, name, addrs[|addrs| - 1], WriteSectors(d, name, o.stock(name).value, init, s));
    }
  }

  lemma StepFromImage(d: Device, o: Options, entry: AuditEntry, s: State, known: Verdicts)
    ensures var sent := RepairPart(d, o, entry, s, known).s.sent;
            && s.sent <= sent
            && (|sent| > |s.sent| ==> Checked(o, entry) && Verdict(o, known, entry.name))
            && forall k :: |s.sent| <= k < |sent| ==> FromImage(o, entry.name, sent[k])
  {
    if !Checked(o, entry) || !Verdict(o, known, entry.name) {
      NothingSent(d, o, entry, s, known);
    } else {
      SectorsFromImage(d, o, entry.name, entry.addresses, s);
    }
    hide Read, WriteSectors, OnBlocklist, Verdict, Folded, FromImage, CountVerified;
  }

  lemma SentForGrows(o: Options, entries: seq<AuditEntry>, p: Program)
    requires entries != [] && SentForSome(o, entries[..|entries| - 1], p)
    ensures SentForSome(o, entries, p)
  {
    hide FirstChecked, Genuine, FromImage, Checked;
    var init := entries[..|entries| - 1];
    var i :| 0 <= i < |init| && SentFor(o, init, i, p);
    assert entries[..i + 1] == init[..i + 1];
    assert SentFor(o, entries, i, p);
  }

  /**
   * Main result on any device, for every run whether it throws or not: whatever is sent is a sector of
   * the image of an allowed partition, and the first checked image of that name, letter case aside, is
   * the one the manifest names.
   */
  lemma {:induction false} StockOnly(d: Device, o: Options, entries: seq<AuditEntry>, s: State)
    ensures var sent := RepairAll(d, o, entries, s, map[]).s.sent;
            s.sent <= sent && forall k :: |s.sent| <= k < |sent| ==> SentForSome(o, entries, sent[k])
    decreases |entries|
  {
    hide RepairPart, FirstChecked, Genuine, FromImage, Checked, SentForSome, Verdict, Folded;
    if entries != [] {
      var n := |entries| - 1;
      StockOnly(d, o, entries[..n], s);
      var r, run := RepairAll(d, o, entries[..n], s, map[]), RepairAll(d, o, entries, s, map[]);
      forall k | |s.sent| <= k < |run.s.sent| ensures SentForSome(o, entries, run.s.sent[k]) {
        if k < |r.s.sent| {
          if r.ok { StepFromImage(d, o, entries[n], r.s, r.known); }
          SentForGrows(o, entries, run.s.sent[k]);
        } else {
          StepFromImage(d, o, entries[n], r.s, r.known);
          VerdictIsFirsts(d, o, entries, s, n);
          assert SentFor(o, entries, n, run.s.sent[k]);
          LastSentFor(o, entries, n, run.s.sent[k]);
        }
      }
      if r.ok { StepFromImage(d, o, entries[n], r.s, r.known); }
    }
  }

  lemma LastSentFor(o: Options, entries: seq<AuditEntry>, n: nat, p: Program)
    requires n < |entries| && SentFor(o, entries, n, p)
    ensures SentForSome(o, entries, p)
  {
    hide SentFor;
  }

  /** Names that differ in more than letter case from all before get the verdict on their own image. */
  lemma OwnVerdict(d: Device, o: Options, entries: seq<AuditEntry>, s: State, i: nat)
    requires i < |entries| && Checked(o, entries[i]) && RepairAll(d, o, entries[..i], s, map[]).ok
    requires forall j :: 0 <= j < i ==> Folded(entries[j].name) != Folded(entries[i].name)
    ensures Verdict(o, RepairAll(d, o, entries[..i], s, map[]).known, entries[i].name) == Genuine(o, entries[i].name)
  {
    hide Genuine, RepairAll, Checked, Folded, Verdict;
    VerdictIsFirsts(d, o, entries, s, i);
  }

  // ----- a device that stores what it is sent

  /** Data that fits replaces the bytes there; data beyond the unit changes nothing. */
  function Programmed(store: bytes, p: Program): (r: bytes)
    ensures |r| == |store|
  {
    if 0 <= p.at && p.at + |p.data| <= |store| then Overwrite(store, p.at, p.data) else store
  }

  ghost predicate Obeys(d: Device) {
    forall store: bytes, p: Program :: !d.refuses(store, p) && d.write(store, p) == Programmed(store, p)
  }

  /** A sector of the image, by its byte offset. */
  predicate SectorOf(stock: bytes, addr: int) {
    0 <= addr && addr % SECTOR == 0 && addr + SECTOR <= |stock| < 0x8000_0000
  }

  predicate Touched(addrs: seq<int>, x: int) {
    exists k :: 0 <= k < |addrs| && addrs[k] <= x < addrs[k] + SECTOR
  }

  lemma TouchedSnoc(addrs: seq<int>, x: int)
    requires addrs != []
    ensures Touched(addrs, x) <==>
              Touched(addrs[..|addrs| - 1], x) || addrs[|addrs| - 1] <= x < addrs[|addrs| - 1] + SECTOR
  {
    var init := addrs[..|addrs| - 1];
    if Touched(init, x) {
      var k :| 0 <= k < |init| && init[k] <= x < init[k] + SECTOR;
      assert addrs[k] == init[k];
    }
    if !Touched(init, x) {
      forall k | 0 <= k < |init| ensures !(addrs[k] <= x < addrs[k] + SECTOR) { assert addrs[k] == init[k]; }
    }
  }

  lemma OneSector(d: Device, name: string, e: GptEntry, stock: bytes, addr: int, w: Writes)
    requires Obeys(d) && Lookup(d.gpt, name) == Some(e) && SectorOf(stock, addr) && w.ok
    requires e.start * SECTOR + addr + SECTOR <= |w.s.store|
    ensures var base, r := e.start * SECTOR, WriteSector(d, name, stock, addr, w);
            && r.ok && r.written == w.written + [addr]
            && r.s.store == Overwrite(w.s.store, base + addr, stock[addr..addr + SECTOR])
  {
    hide Lookup, Overwrite;
    assert (e.start + addr / SECTOR) * SECTOR == e.start * SECTOR + addr;
  }

  /** Exactly the listed sectors take the image's bytes. */
  lemma {:induction false} WritesLand(d: Device, name: string, e: GptEntry, stock: bytes, addrs: seq<int>, s: State)
    requires Obeys(d) && Lookup(d.gpt, name) == Some(e)
    requires forall k :: 0 <= k < |addrs| ==> SectorOf(stock, addrs[k]) && e.start * SECTOR + addrs[k] + SECTOR <= |s.store|
    ensures var base, w := e.start * SECTOR, WriteSectors(d, name, stock, addrs, s);
            && w.ok && w.written == addrs && |w.s.store| == |s.store|
            && forall x :: 0 <= x < |s.store| ==>
                 w.s.store[x] == if Touched(addrs, x - base) && 0 <= x - base < |stock| then stock[x - base] else s.store[x]
    decreases |addrs|
  {
    hide Lookup, WriteSector, SectorOf, Touched, Obeys, Overwrite;
    var base := e.start * SECTOR;
    if addrs == [] {
      NothingTouched();
    } else {
      var init, last := addrs[..|addrs| - 1], addrs[|addrs| - 1];
      WritesLand(d, name, e, stock, init, s);
      var w := WriteSectors(d, name, stock, init, s);
      OneSector(d, name, e, stock, last, w);
      SectorBounds(stock, last);
      assert addrs == init + [last];
      var after := Overwrite(w.s.store, base + last, stock[last..last + SECTOR]);
      forall x | 0 <= x < |s.store|
        ensures after[x] == if Touched(addrs, x - base) && 0 <= x - base < |stock| then stock[x - base] else s.store[x]
      {
        TouchedSnoc(addrs, x - base);
        OverwriteAt(w.s.store, base + last, stock, last, x);
      }
    }
  }

  lemma NothingTouched()
    ensures forall x :: !Touched([], x)
  {
  }

  lemma SectorBounds(stock: bytes, addr: int)
    requires SectorOf(stock, addr)
    ensures 0 <= addr && addr + SECTOR <= |stock|
  {
  }

  lemma OverwriteAt(store: bytes, at: nat, stock: bytes, addr: nat, x: nat)
    requires addr + SECTOR <= |stock| && at + SECTOR <= |store| && x < |store|
    ensures Overwrite(store, at, stock[addr..addr + SECTOR])[x]
         == if at <= x < at + SECTOR then stock[addr + (x - at)] else store[x]
  {
    var patch := stock[addr..addr + SECTOR];
    if at <= x < at + SECTOR {
      assert patch[x - at] == stock[addr + (x - at)];
      assert Overwrite(store, at, patch)[at + (x - at)] == patch[x - at];
    }
  }

  // ----- one partition

  /** The partition lies on the unit. */
  predicate OnUnit(e: GptEntry, store: bytes) {
    (e.start + e.sectors) * SECTOR <= |store|
  }

  function Data(e: GptEntry, store: bytes): (p: bytes)
    requires OnUnit(e, store)
    ensures |p| == e.sectors * SECTOR
  {
    store[e.start * SECTOR..(e.start + e.sectors) * SECTOR]
  }

  /** Its size in bytes as the client computes it, in 32 bits; a read of a negative number of bytes throws. */
  function ReadSize(e: GptEntry): (n: int)
    ensures n <= e.sectors * SECTOR && n % SECTOR == 0
    ensures n == e.sectors * SECTOR <==> e.sectors * SECTOR < 0x8000_0000
  {
    Int32(e.sectors * SECTOR)
  }

  /** What of a partition's data is read: all of it below two gigabytes, else at most a beginning. */
  function Seen(e: GptEntry, part: bytes): (r: bytes)
    requires |part| == e.sectors * SECTOR
    ensures r <= part
  {
    if ReadSize(e) < 0 then [] else part[..ReadSize(e)]
  }

  lemma ReadsItself(d: Device, s: State, name: string, e: GptEntry)
    requires Lookup(d.gpt, name) == Some(e) && OnUnit(e, s.store)
    ensures Read(d, s, name) == if ReadSize(e) < 0 then None else Some(Seen(e, Data(e, s.store)))
  {
    hide Lookup;
    var base, n := e.start * SECTOR, ReadSize(e);
    if n >= 0 { assert s.store[base..(e.start + e.sectors) * SECTOR][..n] == s.store[base..base + n]; }
  }

  /** A read gives the partition's data exactly when that is less than two gigabytes. */
  lemma ReadIsPartitionExactly(d: Device, s: State, name: string, e: GptEntry)
    requires Lookup(d.gpt, name) == Some(e) && OnUnit(e, s.store)
    ensures Read(d, s, name) == Some(Data(e, s.store)) <==> e.sectors * SECTOR < 0x8000_0000
  {
    hide Lookup, Read, Data, ReadSize;
    ReadsItself(d, s, name, e);
    var part := Data(e, s.store);
    assert ReadSize(e) >= 0 ==> |Seen(e, part)| == ReadSize(e);
    if e.sectors * SECTOR < 0x8000_0000 { assert part[..|part|] == part; }
  }

  /** How many bytes the audit compares: whole sectors of the shorter of the two. */
  function Compared(seen: bytes, stock: bytes): (n: nat)
    ensures n <= |seen| && n <= |stock| && n % SECTOR == 0
  {
    MinLen(seen, stock) / SECTOR * SECTOR
  }

  /** The image's first `n` bytes over the partition's. */
  function Restored(part: bytes, stock: bytes, n: nat): (r: bytes)
    requires n <= |part| && n <= |stock|
    ensures |r| == |part|
  {
    stock[..n] + part[n..]
  }

  /** The list names whole sectors of the image below `n`, among them every one where the partition differs. */
  predicate Covers(part: bytes, stock: bytes, n: nat, addrs: seq<int>) {
    && n <= |part| && n <= |stock|
    && (forall k :: 0 <= k < |addrs| ==> SectorOf(stock, addrs[k]) && addrs[k] + SECTOR <= n)
    && (forall x :: 0 <= x < n && part[x] != stock[x] ==> Touched(addrs, x))
  }

  lemma {:induction false} DifferingAt(part: bytes, stock: bytes, n: nat)
    requires n * SECTOR <= MinLen(part, stock) && |stock| < 0x8000_0000
    ensures var r := Differing(part, stock, n);
            && (forall k :: 0 <= k < |r| ==> SectorOf(stock, r[k]) && r[k] + SECTOR <= n * SECTOR)
            && (forall x :: 0 <= x < n * SECTOR && part[x] != stock[x] ==> Touched(r, x))
    decreases n
  {
    hide Touched;
    if n > 0 {
      var at, r, init := (n - 1) * SECTOR, Differing(part, stock, n), Differing(part, stock, n - 1);
      DifferingAt(part, stock, n - 1);
      forall k | 0 <= k < |r| ensures SectorOf(stock, r[k]) && r[k] + SECTOR <= n * SECTOR {
        if k < |init| { assert r[k] == init[k]; } else { assert r[k] == at; }
      }
      forall x | 0 <= x < n * SECTOR && part[x] != stock[x] ensures Touched(r, x) {
        if x >= at { assert part[at..at + SECTOR][x - at] != stock[at..at + SECTOR][x - at]; }
        if r != init {
          assert r[..|r| - 1] == init;
          TouchedSnoc(r, x);
        }
      }
    }
  }

  /** The audit's own list covers every difference in what was read and compared. */
  lemma AuditCovers(part: bytes, seen: bytes, stock: bytes)
    requires seen <= part && |stock| < 0x8000_0000
    ensures Covers(part, stock, Compared(seen, stock), Differing(seen, stock, MinLen(seen, stock) / SECTOR))
  {
    hide Touched, SectorOf;
    DifferingAt(seen, stock, MinLen(seen, stock) / SECTOR);
  }

  /** Two units that differ at most inside the partition. */
  predicate SameOutside(e: GptEntry, a: bytes, b: bytes) {
    |a| == |b| && forall x :: 0 <= x < |a| && !(e.start * SECTOR <= x < (e.start + e.sectors) * SECTOR) ==> a[x] == b[x]
  }

  /**
   * Main result for one partition of any size: writing a list that covers the differences below `n`
   * leaves the image's first `n` bytes in the partition and every other byte of the unit alone.
   */
  lemma SectorsRestored(d: Device, name: string, e: GptEntry, stock: bytes, n: nat, addrs: seq<int>, s: State)
    requires Obeys(d) && Lookup(d.gpt, name) == Some(e) && OnUnit(e, s.store) && Covers(Data(e, s.store), stock, n, addrs)
    ensures var w := WriteSectors(d, name, stock, addrs, s);
            && w.ok && w.written == addrs && |w.s.store| == |s.store|
            && Data(e, w.s.store) == Restored(Data(e, s.store), stock, n)
            && SameOutside(e, s.store, w.s.store)
  {
    hide Lookup, WriteSectors, Touched, SectorOf, Obeys;
    var part, base := Data(e, s.store), e.start * SECTOR;
    WritesLand(d, name, e, stock, addrs, s);
    var after := WriteSectors(d, name, stock, addrs, s).s.store;
    forall y | 0 <= y < |part| ensures after[base + y] == Restored(part, stock, n)[y] {
      assert after[base + y] == if Touched(addrs, y) && 0 <= y < |stock| then stock[y] else part[y];
      if Touched(addrs, y) { TouchedIsCompared(part, stock, n, addrs, y); }
    }
    assert Data(e, after) == Restored(part, stock, n);
    forall x | 0 <= x < |after| && !(base <= x < (e.start + e.sectors) * SECTOR) ensures after[x] == s.store[x] {
      if Touched(addrs, x - base) { TouchedIsCompared(part, stock, n, addrs, x - base); }
    }
  }

  lemma TouchedIsCompared(part: bytes, stock: bytes, n: nat, addrs: seq<int>, y: int)
    requires Covers(part, stock, n, addrs) && Touched(addrs, y)
    ensures 0 <= y < n
  {
    var k :| 0 <= k < |addrs| && addrs[k] <= y < addrs[k] + SECTOR;
    assert SectorOf(stock, addrs[k]) && addrs[k] + SECTOR <= n;
  }

  /** Every restored sector reads back as stock, whatever more of the partition is read. */
  lemma AllVerified(part: bytes, stock: bytes, n: nat, addrs: seq<int>, seen: bytes)
    requires Covers(part, stock, n, addrs) && seen <= Restored(part, stock, n) && n <= |seen|
    ensures forall k :: 0 <= k < |addrs| ==> Verified(seen, stock, addrs[k])
  {
    forall k | 0 <= k < |addrs| ensures Verified(seen, stock, addrs[k]) {
      var a := addrs[k];
      assert SectorOf(stock, a) && a + SECTOR <= n;
      assert Restored(part, stock, n)[a..a + SECTOR] == stock[a..a + SECTOR];
      assert seen[a..a + SECTOR] == Restored(part, stock, n)[a..a + SECTOR];
    }
  }

  lemma FullWriteLands(d: Device, name: string, e: GptEntry, stock: bytes, s: State)
    requires Obeys(d) && Lookup(d.gpt, name) == Some(e) && e.start * SECTOR + |stock| <= |s.store|
    ensures Write(d, s, name, 0, stock).s.store == Overwrite(s.store, e.start * SECTOR, stock)
  {
    hide Lookup, Overwrite;
  }

  /**
   * Against a full restore: the sparse repair leaves the unit as writing the whole image would,
   * exactly when the image's bytes past the compared sectors were on the unit already.
   */
  lemma SparseEqualsFull(d: Device, name: string, e: GptEntry, stock: bytes, n: nat, addrs: seq<int>, s: State)
    requires Obeys(d) && Lookup(d.gpt, name) == Some(e) && OnUnit(e, s.store) && Covers(Data(e, s.store), stock, n, addrs)
    requires e.start * SECTOR + |stock| <= |s.store|
    ensures var base := e.start * SECTOR;
            (WriteSectors(d, name, stock, addrs, s).s.store == Write(d, s, name, 0, stock).s.store)
              <==> (s.store[base + n..base + |stock|] == stock[n..])
  {
    hide Lookup, WriteSectors, SectorOf, Write, Obeys, Data, Overwrite, OnUnit, Touched;
    FullWriteLands(d, name, e, stock, s);
    RepairLands(d, name, e, stock, n, addrs, s);
    FullOrNot(s.store, WriteSectors(d, name, stock, addrs, s).s.store, Overwrite(s.store, e.start * SECTOR, stock),
              e.start * SECTOR, stock, n);
  }

  lemma RepairLands(d: Device, name: string, e: GptEntry, stock: bytes, n: nat, addrs: seq<int>, s: State)
    requires Obeys(d) && Lookup(d.gpt, name) == Some(e) && OnUnit(e, s.store) && Covers(Data(e, s.store), stock, n, addrs)
    ensures var base, after := e.start * SECTOR, WriteSectors(d, name, stock, addrs, s).s.store;
            && |after| == |s.store|
            && forall x :: 0 <= x < |after| ==> after[x] == if base <= x < base + n then stock[x - base] else s.store[x]
  {
    hide Lookup, WriteSectors, Touched, SectorOf, Obeys;
    SectorsRestored(d, name, e, stock, n, addrs, s);
    var base, part := e.start * SECTOR, Data(e, s.store);
    var after := WriteSectors(d, name, stock, addrs, s).s.store;
    forall x | 0 <= x < |after|
      ensures after[x] == if base <= x < base + n then stock[x - base] else s.store[x]
    {
      if base <= x < (e.start + e.sectors) * SECTOR {
        assert after[x] == Data(e, after)[x - base] == Restored(part, stock, n)[x - base];
      }
    }
  }

  lemma FullOrNot(store: bytes, after: bytes, full: bytes, base: nat, stock: bytes, n: nat)
    requires n <= |stock| && base + |stock| <= |store| == |after| && full == Overwrite(store, base, stock)
    requires forall x :: 0 <= x < |after| ==> after[x] == if base <= x < base + n then stock[x - base] else store[x]
    ensures after == full <==> store[base + n..base + |stock|] == stock[n..]
  {
    var tail := store[base + n..base + |stock|];
    assert forall x :: base <= x < base + |stock| ==> full[x] == stock[x - base] by {
      forall x | base <= x < base + |stock| ensures full[x] == stock[x - base] { assert full[base + (x - base)] == stock[x - base]; }
    }
    if after == full {
      forall i | 0 <= i < |tail| ensures tail[i] == stock[n..][i] { assert tail[i] == store[base + n + i] == after[base + n + i]; }
    }
    if tail == stock[n..] {
      forall x | 0 <= x < |after| ensures after[x] == full[x] {
        if base + n <= x < base + |stock| { assert tail[x - base - n] == stock[n..][x - base - n]; }
      }
    }
  }

  /** Partitions apart from the repaired one keep their data. */
  lemma OthersKeepData(e: GptEntry, f: GptEntry, a: bytes, b: bytes)
    requires SameOutside(e, a, b) && OnUnit(f, a)
    requires f.start + f.sectors <= e.start || e.start + e.sectors <= f.start
    ensures OnUnit(f, b) && Data(f, b) == Data(f, a)
  {
  }

  // ----- audit and repair of the whole unit

  /** Partitions lie on the unit, apart from each other, and under distinct names. */
  predicate GoodTable(gpt: seq<GptEntry>, store: bytes) {
    && (forall i :: 0 <= i < |gpt| ==> OnUnit(gpt[i], store))
    && (forall i, j :: 0 <= i < j < |gpt| ==> Apart(gpt[i], gpt[j]) && !SameName(gpt[i].name, gpt[j].name))
  }

  predicate Apart(e: GptEntry, f: GptEntry) {
    f.start + f.sectors <= e.start || e.start + e.sectors <= f.start
  }

  lemma {:induction false} LooksUpItself(gpt: seq<GptEntry>, i: nat)
    requires i < |gpt| && forall j :: 0 <= j < i ==> !SameName(gpt[j].name, gpt[i].name)
    ensures Lookup(gpt, gpt[i].name) == Some(gpt[i])
    decreases |gpt|
  {
    if i > 0 {
      assert forall j :: 0 <= j < i - 1 ==> gpt[1..][j] == gpt[j + 1];
      LooksUpItself(gpt[1..], i - 1);
    }
  }

  /** The digest of what is read equals the image's only if they are the same bytes. */
  ghost predicate DigestTells(sha: bytes -> bytes, gpt: seq<GptEntry>, store: bytes, o: Options)
    requires GoodTable(gpt, store)
  {
    forall i :: 0 <= i < |gpt| && o.stock(gpt[i].name).Some?
                && sha(Seen(gpt[i], Data(gpt[i], store))) == sha(o.stock(gpt[i].name).value)
      ==> Seen(gpt[i], Data(gpt[i], store)) == o.stock(gpt[i].name).value
  }

  predicate ImagesFit(gpt: seq<GptEntry>, o: Options) {
    forall i :: 0 <= i < |gpt| && o.stock(gpt[i].name).Some? ==> |o.stock(gpt[i].name).value| < 0x8000_0000
  }

  /**
   * What a live run must leave in a partition that held `part`: the image's whole sectors as far as the
   * client reads the partition, which is all of it exactly below two gigabytes.
   */
  function Goal(o: Options, e: GptEntry, part: bytes): (r: bytes)
    requires |part| == e.sectors * SECTOR
    ensures |r| == |part|
  {
    if Goes(o, e.name) && ReadSize(e) >= 0 then
      Restored(part, o.stock(e.name).value, Compared(Seen(e, part), o.stock(e.name).value))
    else part
  }

  lemma RestoringStock(part: bytes, seen: bytes)
    requires seen <= part
    ensures Restored(part, seen, Compared(seen, seen)) == part
  {
  }

  /** The step for one audited partition, from any state in which it still holds what was audited. */
  lemma StepReachesGoal(sha: bytes -> bytes, d: Device, o: Options, s0: State, s: State, known: Verdicts, i: nat)
    requires Obeys(d) && GoodTable(d.gpt, s0.store) && GoodTable(d.gpt, s.store) && DigestTells(sha, d.gpt, s0.store, o)
    requires ImagesFit(d.gpt, o) && i < |d.gpt| && Data(d.gpt[i], s.store) == Data(d.gpt[i], s0.store)
    requires Checked(o, AuditOf(sha, d, s0, o.stock, d.gpt[i].name)) ==>
               Verdict(o, known, d.gpt[i].name) == Genuine(o, d.gpt[i].name)
    ensures var e, step := d.gpt[i], RepairPart(d, o, AuditOf(sha, d, s0, o.stock, d.gpt[i].name), s, known);
            && step.ok && |step.s.store| == |s.store|
            && Data(e, step.s.store) == Goal(o, e, Data(e, s0.store))
            && SameOutside(e, s.store, step.s.store)
            && (step.result.Some? ==> step.result.value.status != VerificationFailed)
  {
    hide Lookup, WriteSectors, Read, Restored, Covers, OnBlocklist, Data, Differing, GoodTable, CountVerified, Folded, Verdict,
         ManifestHash, ReadSize, Compared;
    var e, name := d.gpt[i], d.gpt[i].name;
    TableFacts(d.gpt, s0.store, s.store, i);
    ReadsItself(d, s0, name, e);
    var part, image := Data(e, s0.store), o.stock(name);
    var seen := Seen(e, part);
    var entry := AuditOf(sha, d, s0, o.stock, name);
    if image.Some? && seen == image.value { RestoringStock(part, seen); }
    if entry.status == Mismatch && Goes(o, name) {
      var stock := image.value;
      var n := Compared(seen, stock);
      AuditCovers(part, seen, stock);
      SectorsRestored(d, name, e, stock, n, entry.addresses, s);
      var w := WriteSectors(d, name, stock, entry.addresses, s);
      ReadsItself(d, w.s, name, e);
      AllVerified(part, stock, n, entry.addresses, Seen(e, Data(e, w.s.store)));
      Counted(Seen(e, Data(e, w.s.store)), stock, entry.addresses);
    }
  }

  /** A live run may write the partition: it has a genuine image and is not blocklisted. */
  predicate Goes(o: Options, name: string) {
    Genuine(o, name) && !o.dryRun && !(OnBlocklist(name) && !o.force)
  }

  lemma Counted(device: bytes, stock: bytes, addrs: seq<int>)
    requires forall k :: 0 <= k < |addrs| ==> Verified(device, stock, addrs[k])
    ensures CountVerified(device, stock, addrs) == |addrs|
  {
    hide Verified;
  }

  lemma TableFacts(gpt: seq<GptEntry>, a: bytes, b: bytes, i: nat)
    requires GoodTable(gpt, a) && GoodTable(gpt, b) && i < |gpt|
    ensures Lookup(gpt, gpt[i].name) == Some(gpt[i]) && OnUnit(gpt[i], a) && OnUnit(gpt[i], b)
  {
    hide OnUnit, SameName, Apart;
    LooksUpItself(gpt, i);
  }

  predicate InSome(gpt: seq<GptEntry>, x: nat) {
    exists j :: 0 <= j < |gpt| && gpt[j].start * SECTOR <= x < (gpt[j].start + gpt[j].sectors) * SECTOR
  }

  /** After the first `n` partitions: those hold their goals, the others and all bytes between partitions are as before. */
  predicate DoneUpTo(gpt: seq<GptEntry>, o: Options, was: bytes, now: bytes, n: nat)
    requires GoodTable(gpt, was) && n <= |gpt|
  {
    && |now| == |was| && GoodTable(gpt, now)
    && (forall j :: 0 <= j < n ==> Data(gpt[j], now) == Goal(o, gpt[j], Data(gpt[j], was)))
    && (forall j :: n <= j < |gpt| ==> Data(gpt[j], now) == Data(gpt[j], was))
    && (forall x :: 0 <= x < |was| && !InSome(gpt, x) ==> now[x] == was[x])
  }

  lemma OneMoreDone(gpt: seq<GptEntry>, o: Options, was: bytes, before: bytes, now: bytes, n: nat)
    requires GoodTable(gpt, was) && n < |gpt| && DoneUpTo(gpt, o, was, before, n)
    requires SameOutside(gpt[n], before, now)
    requires OnUnit(gpt[n], now) && Data(gpt[n], now) == Goal(o, gpt[n], Data(gpt[n], was))
    ensures DoneUpTo(gpt, o, was, now, n + 1)
  {
    hide Goal, Data, SameName, InSome;
    forall j | 0 <= j < |gpt| && j != n ensures OnUnit(gpt[j], now) && Data(gpt[j], now) == Data(gpt[j], before) {
      assert Apart(gpt[if j < n then j else n], gpt[if j < n then n else j]);
      OthersKeepData(gpt[n], gpt[j], before, now);
    }
    forall x | 0 <= x < |was| && !InSome(gpt, x) ensures now[x] == was[x] { NotInside(gpt, n, x); }
  }

  lemma NotInside(gpt: seq<GptEntry>, n: nat, x: nat)
    requires n < |gpt| && !InSome(gpt, x)
    ensures !(gpt[n].start * SECTOR <= x < (gpt[n].start + gpt[n].sectors) * SECTOR)
  {
  }

  lemma FoldedSame(a: string, b: string)
    ensures SameName(a, b) <==> Folded(a) == Folded(b)
  {
    assert forall i :: 0 <= i < |a| ==> Folded(a)[i] == Upper(a[i]);
    assert forall i :: 0 <= i < |b| ==> Folded(b)[i] == Upper(b[i]);
    assert |Folded(a)| == |a| && |Folded(b)| == |b|;
    if Folded(a) == Folded(b) {
      forall i | 0 <= i < |a| ensures Upper(a[i]) == Upper(b[i]) { assert Folded(a)[i] == Folded(b)[i]; }
    }
  }

  /** Names in the table are distinct, so each partition's verdict is its own image's. */
  lemma AuditedVerdict(sha: bytes -> bytes, d: Device, o: Options, s: State, i: nat)
    requires GoodTable(d.gpt, s.store) && i < |d.gpt|
    requires RepairAll(d, o, Audit(sha, d, s, o.stock)[..i], s, map[]).ok
    ensures Checked(o, AuditOf(sha, d, s, o.stock, d.gpt[i].name)) ==>
              Verdict(o, RepairAll(d, o, Audit(sha, d, s, o.stock)[..i], s, map[]).known, d.gpt[i].name) == Genuine(o, d.gpt[i].name)
  {
    hide Genuine, RepairAll, Checked, Folded, Verdict, SameName, OnUnit, Apart, Read;
    var all := Audit(sha, d, s, o.stock);
    if Checked(o, all[i]) {
      forall j | 0 <= j < i ensures Folded(all[j].name) != Folded(all[i].name) {
        FoldedSame(d.gpt[j].name, d.gpt[i].name);
      }
      OwnVerdict(d, o, all, s, i);
    }
  }

  lemma {:induction false} RunReaches(sha: bytes -> bytes, d: Device, o: Options, s: State, n: nat)
    requires Obeys(d) && GoodTable(d.gpt, s.store) && DigestTells(sha, d.gpt, s.store, o) && ImagesFit(d.gpt, o) && n <= |d.gpt|
    ensures var run := RepairAll(d, o, Audit(sha, d, s, o.stock)[..n], s, map[]);
            && run.ok && DoneUpTo(d.gpt, o, s.store, run.s.store, n)
            && forall k :: 0 <= k < |run.results| ==> run.results[k].status != VerificationFailed
    decreases n
  {
    hide AuditOf, RepairPart, Obeys, DigestTells, ImagesFit, Goal, InSome, Data, GoodTable, SameOutside, OnUnit, Checked, Verdict,
         Genuine;
    var all := Audit(sha, d, s, o.stock);
    if n > 0 {
      RunReaches(sha, d, o, s, n - 1);
      assert all[..n][..n - 1] == all[..n - 1];
      var before := RepairAll(d, o, all[..n - 1], s, map[]);
      TableFacts(d.gpt, s.store, before.s.store, n - 1);
      AuditedVerdict(sha, d, o, s, n - 1);
      StepReachesGoal(sha, d, o, s, before.s, before.known, n - 1);
      var step := RepairPart(d, o, AuditOf(sha, d, s, o.stock, d.gpt[n - 1].name), before.s, before.known);
      SameUnit(d.gpt[n - 1], before.s.store, step.s.store);
      OneMoreDone(d.gpt, o, s.store, before.s.store, step.s.store, n - 1);
    }
  }

  lemma SameUnit(e: GptEntry, a: bytes, b: bytes)
    requires OnUnit(e, a) && |a| == |b|
    ensures OnUnit(e, b)
  {
  }

  /**
   * Main result for a whole run over an obedient device, with partitions of any size: auditing every
   * partition and repairing what the audit found never throws and never fails verification; every
   * partition with an image that may be written holds the image's whole sectors as far as it is read,
   * and all other bytes of the unit are unchanged.
   */
  lemma AuditThenRepair(sha: bytes -> bytes, d: Device, o: Options, s: State)
    requires Obeys(d) && GoodTable(d.gpt, s.store) && DigestTells(sha, d.gpt, s.store, o) && ImagesFit(d.gpt, o)
    ensures var run := RepairAll(d, o, Audit(sha, d, s, o.stock), s, map[]);
            && run.ok && DoneUpTo(d.gpt, o, s.store, run.s.store, |d.gpt|)
            && forall k :: 0 <= k < |run.results| ==> run.results[k].status != VerificationFailed
  {
    hide AuditOf, RepairAll, Obeys, DigestTells, ImagesFit, DoneUpTo, GoodTable;
    var all := Audit(sha, d, s, o.stock);
    assert all[..|d.gpt|] == all;
    RunReaches(sha, d, o, s, |d.gpt|);
  }

  /**
   * A dry run predicts a live one on a differing partition that may be written: the status agrees
   * exactly when the image gets a good verdict; then the addresses agree, and the number of sectors
   * exactly when partition and image differ in length by less than a sector.
   */
  lemma DryRunPredicts(sha: bytes -> bytes, d: Device, o: Options, s: State, known: Verdicts, i: nat)
    requires Obeys(d) && GoodTable(d.gpt, s.store) && DigestTells(sha, d.gpt, s.store, o) && ImagesFit(d.gpt, o)
    requires i < |d.gpt| && Checked(o, AuditOf(sha, d, s, o.stock, d.gpt[i].name))
    ensures var entry, name := AuditOf(sha, d, s, o.stock, d.gpt[i].name), d.gpt[i].name;
            var seen := Seen(d.gpt[i], Data(d.gpt[i], s.store));
            var live, dry := RepairPart(d, o, entry, s, known).result, RepairPart(d, o.(dryRun := true), entry, s, known).result;
            var stock := o.stock(name).value;
            && live.Some? && dry.Some? && dry.value.status == Repaired
            && (live.value.status == Repaired <==> Verdict(o, known, name))
            && (Verdict(o, known, name) ==>
                  live.value.addresses == dry.value.addresses
                  && (live.value.written == dry.value.written <==> -SECTOR < |seen| - |stock| < SECTOR))
  {
    hide Lookup, WriteSectors, Read, Restored, Covers, OnBlocklist, Data, Differing, GoodTable, CountVerified, Verdict, Folded,
         ReadSize, Compared;
    var e, name := d.gpt[i], d.gpt[i].name;
    TableFacts(d.gpt, s.store, s.store, i);
    ReadsItself(d, s, name, e);
    var part, stock := Data(e, s.store), o.stock(name).value;
    var seen, entry := Seen(e, part), AuditOf(sha, d, s, o.stock, name);
    var n, w := Compared(seen, stock), WriteSectors(d, name, stock, entry.addresses, s);
    AuditCovers(part, seen, stock);
    SectorsRestored(d, name, e, stock, n, entry.addresses, s);
    ReadsItself(d, w.s, name, e);
    AllVerified(part, stock, n, entry.addresses, Seen(e, Data(e, w.s.store)));
    Counted(Seen(e, Data(e, w.s.store)), stock, entry.addresses);
  }

  /**
   * Whatever address a caller lists: when a sector is written at `addr`, the bytes sent there are the
   * image's own for that address exactly below two gigabytes. Beyond, the conversion to 32 bits takes
   * them from nearer the image's start.
   */
  lemma OwnBytesExactly(d: Device, name: string, e: GptEntry, stock: bytes, addr: nat, w: Writes)
    requires Lookup(d.gpt, name) == Some(e) && addr % SECTOR == 0 && |stock| < 0x8000_0000
    requires 0 <= Int32(addr) && Int32(addr) + SECTOR <= |stock| && WriteSector(d, name, stock, addr, w).ok
    ensures var r := WriteSector(d, name, stock, addr, w);
            && |r.s.sent| == |w.s.sent| + 1 && r.s.sent[|w.s.sent|].at == e.start * SECTOR + addr
            && (OwnSector(stock, addr, r.s.sent[|w.s.sent|].data) <==> addr < 0x8000_0000)
  {
    hide Lookup;
    assert (e.start + addr / SECTOR) * SECTOR == e.start * SECTOR + addr;
  }

  /** The image of two sectors, listed with an address one sector behind four gigabytes: its second sector is sent there. */
  lemma SecondSectorFarAway(d: Device, s: State)
    requires d.gpt == [GptEntry("a", 0, 0x80_0002)] && forall store, p :: !d.refuses(store, p)
    ensures var stock := Zeros(SECTOR) + seq(SECTOR, _ => 1);
            WriteSectors(d, "a", stock, [U32 + SECTOR], s).s.sent == s.sent + [Program(U32 + SECTOR, stock[SECTOR..])]
  {
    var stock: bytes, addrs := Zeros(SECTOR) + seq(SECTOR, _ => 1), [U32 + SECTOR];
    assert addrs[..0] == [];
    assert SameName("a", "a");
    assert Lookup(d.gpt, "a") == Some(d.gpt[0]);
    assert Int32(U32 + SECTOR) == SECTOR && Div(U32 + SECTOR, SECTOR) * SECTOR == U32 + SECTOR;
    assert stock[SECTOR..SECTOR + SECTOR] == stock[SECTOR..];
  }

  /** Only a list made by a caller can hold such an address: the audit's are offsets of sectors of the image. */
  lemma AuditedAddressesAreOwn(sha: bytes -> bytes, d: Device, s: State, stock: string -> Option<bytes>, name: string, k: nat)
    requires stock(name).Some? ==> |stock(name).value| < 0x8000_0000
    requires k < |AuditOf(sha, d, s, stock, name).addresses|
    ensures stock(name).Some? && SectorOf(stock(name).value, AuditOf(sha, d, s, stock, name).addresses[k])
  {
    hide Read;
    var data, image := Read(d, s, name).value, stock(name).value;
    DifferingAt(data, image, MinLen(data, image) / SECTOR);
  }

  // ----- where the sparse repair falls short

  const TWO_SECTORS := GptEntry("a", 0, 2)

  lemma TwoSectorsFound(d: Device)
    requires d.gpt == [TWO_SECTORS]
    ensures Lookup(d.gpt, "a") == Some(TWO_SECTORS)
  {
    assert SameName("a", "a");
  }

  lemma TailDiffers(store: bytes, stock: bytes)
    requires store == Zeros(1024) && stock == Zeros(SECTOR) + [1]
    ensures store[SECTOR..SECTOR + 1] != stock[SECTOR..]
    ensures Compared(Data(TWO_SECTORS, store), stock) == SECTOR && MinLen(Data(TWO_SECTORS, store), stock) / SECTOR == 1
  {
    assert store[SECTOR..SECTOR + 1][0] == 0 && stock[SECTOR..][0] == 1;
  }

  /** One byte of the image stands behind its last whole sector and differs: a full restore writes it, the repair does not. */
  lemma PartSectorStays(d: Device, stock: bytes)
    requires Obeys(d) && d.gpt == [TWO_SECTORS] && stock == Zeros(SECTOR) + [1]
    ensures var s := State(Zeros(1024), []);
            && MinLen(Data(TWO_SECTORS, s.store), stock) / SECTOR == 1
            && var addrs := Differing(Data(TWO_SECTORS, s.store), stock, 1);
               && Covers(Data(TWO_SECTORS, s.store), stock, SECTOR, addrs)
               && WriteSectors(d, "a", stock, addrs, s).s.store != Write(d, s, "a", 0, stock).s.store
  {
    hide WriteSectors, Differing, Covers, Lookup, Obeys, Compared, Data, MinLen;
    var s := State(Zeros(1024), []);
    var part := Data(TWO_SECTORS, s.store);
    TwoSectorsFound(d);
    TailDiffers(s.store, stock);
    AuditCovers(part, part, stock);
    SparseEqualsFull(d, "a", TWO_SECTORS, stock, SECTOR, Differing(part, stock, 1), s);
  }

  /** A partition one sector longer than its genuine image: the dry run reports one sector more than a live run writes. */
  lemma DryRunCountsMore(d: Device, o: Options)
    requires Obeys(d) && d.gpt == [TWO_SECTORS] && o.stock("a") == Some(seq(SECTOR, _ => 1))
    requires Genuine(o, "a") && o.force && !o.dryRun
    ensures var s := State(Zeros(1024), []);
            var entry := AuditOf(x => x, d, s, o.stock, "a");
            var live, dry := RepairPart(d, o, entry, s, map[]).result, RepairPart(d, o.(dryRun := true), entry, s, map[]).result;
            live.Some? && dry.Some? && live.value.written != dry.value.written
  {
    var s := State(Zeros(1024), []);
    TwoSectorsFound(d);
    var part, image := Data(TWO_SECTORS, s.store), o.stock("a").value;
    assert part[0] == 0 && image[0] == 1;
    ReadsItself(d, s, "a", TWO_SECTORS);
    hide Read, RepairPart, Lookup, Obeys, Differing, Genuine;
    DryRunPredicts(x => x, d, o, s, map[], 0);
  }

  const TWO_GIB := GptEntry("a", 0, 0x40_0000)
  const FOUR_GIB := GptEntry("a", 0, 0x80_0000)

  lemma OneEntryFound(d: Device, e: GptEntry)
    requires d.gpt == [e] && e.name == "a"
    ensures Lookup(d.gpt, "a") == Some(e)
  {
    assert SameName("a", "a");
  }

  /**
   * A partition of four gigabytes, on any unit, with a genuine image of other bytes: nothing of it is
   * read, the audit says Mismatch without an address, and a live run reports it repaired having written
   * nothing.
   */
  lemma FourGigabytesUnseen(sha: bytes -> bytes, d: Device, o: Options, s: State)
    requires d.gpt == [FOUR_GIB] && Genuine(o, "a") && sha([]) != sha(o.stock("a").value) && o.force && !o.dryRun
    ensures var entry := AuditOf(sha, d, s, o.stock, "a");
            && entry == AuditEntry("a", Mismatch, |o.stock("a").value| / SECTOR, [])
            && RepairPart(d, o, entry, s, map[]).s == s
            && RepairPart(d, o, entry, s, map[]).result == Some(PartResult("a", Repaired, 0, 0, []))
  {
    assert o.stock("a").Some?;
    hide Genuine, OnBlocklist, Folded, Lookup;
    OneEntryFound(d, FOUR_GIB);
    assert Read(d, s, "a") == Some([]) by { assert Slice(s.store, 0, 0) == []; }
    assert Differing([], o.stock("a").value, 0) == [];
    hide Read, Slice;
  }

  /** A partition of two gigabytes: its size is negative, the read throws, and the audit says Error. */
  lemma TwoGigabytesUnread(sha: bytes -> bytes, d: Device, o: Options, s: State)
    requires d.gpt == [TWO_GIB]
    ensures AuditOf(sha, d, s, o.stock, "a") == AuditEntry("a", Error, 0, [])
  {
    hide Lookup;
    OneEntryFound(d, TWO_GIB);
  }

  /** An image the manifest does not list: a dry run promises a repair, a live run skips the partition. */
  lemma DryRunPromisesMore(d: Device, o: Options, entry: AuditEntry, s: State)
    requires entry.status == Mismatch && o.stock(entry.name).Some? && o.manifest == [] && o.force && !o.dryRun
    ensures RepairPart(d, o, entry, s, map[]).result.value.status == Skipped
    ensures RepairPart(d, o.(dryRun := true), entry, s, map[]).result.value.status == Repaired
  {
    hide OnBlocklist, Folded;
  }

  const TWOS: bytes := seq(SECTOR, _ => 2)

  /**
   * Two names that differ in letter case only, each with an image file, of which only the first is the
   * one the manifest names: the second is written on the first one's verdict.
   */
  lemma VerdictSharedByCase(d: Device, o: Options, s: State)
    requires d.gpt == [TWO_SECTORS] && forall store, p :: !d.refuses(store, p)
    requires o.stock("a") == Some([1]) && o.stock("A") == Some(TWOS)
    requires o.manifest == [ManifestEntry("a", "a.img", "01")] && o.hex([1]) == "01" && o.hex(TWOS) == "02"
    requires o.force && !o.dryRun
    ensures var known := RepairPart(d, o, AuditEntry("a", Mismatch, 0, []), s, map[]).known;
            && !Genuine(o, "A")
            && RepairPart(d, o, AuditEntry("A", Mismatch, 1, [0]), s, known).s.sent == s.sent + [Program(0, TWOS)]
  {
    VerdictOfBoth(d, o, s);
    assert SameName("a", "A") by { assert "a"[0] == 'a' && "A"[0] == 'A'; }
    assert Lookup(d.gpt, "A") == Some(TWO_SECTORS);
    hide OnBlocklist, Read, Genuine, Verdict, Folded, Lookup;
    var w := Writes(true, s, []);
    assert [0][..0] == [] && TWOS[0..SECTOR] == TWOS;
    assert WriteSectors(d, "A", TWOS, [], s) == w;
    assert WriteSectors(d, "A", TWOS, [0], s) == WriteSector(d, "A", TWOS, 0, w);
    assert WriteSector(d, "A", TWOS, 0, w).s.sent == s.sent + [Program(0, TWOS)];
  }

  lemma VerdictOfBoth(d: Device, o: Options, s: State)
    requires o.stock("a") == Some([1]) && o.stock("A") == Some(TWOS)
    requires o.manifest == [ManifestEntry("a", "a.img", "01")] && o.hex([1]) == "01" && o.hex(TWOS) == "02"
    requires o.force && !o.dryRun
    ensures Verdict(o, RepairPart(d, o, AuditEntry("a", Mismatch, 0, []), s, map[]).known, "A") && !Genuine(o, "A")
  {
    VerdictAdded(d, o, AuditEntry("a", Mismatch, 0, []), s, map[]);
    hide OnBlocklist, RepairPart;
    FoldedSame("a", "A");
    assert "a"[0] == 'a' && "A"[0] == 'A' && "01"[1] == '1' && "02"[1] == '2';
    assert SameName("a", "A") && SameName("a", "a") && SameName("01", "01") && !SameName("02", "01");
  }
}
