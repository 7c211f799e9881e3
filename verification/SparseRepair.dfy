/**
 * Audit of a device's partitions against stock images and the sparse repair of the sectors that
 * differ, written through a client (`IFirehoseClient`) to partitions found by name, from images whose
 * digest a manifest records.
 */
module SparseRepair {
  import opened Bytes

  const SECTOR := 512

  // ----- .NET integers

  /** Integer division rounding towards zero. */
  function Div(n: int, d: int): (q: int)
    requires d > 0
    ensures 0 <= n ==> 0 <= n - q * d < d
    ensures n <= 0 ==> -d < n - q * d <= 0
  {
    if n >= 0 then n / d else -((-n) / d)
  }

  // ----- the device

  datatype GptEntry = GptEntry(name: string, start: nat, sectors: nat)

  datatype Program = Program(at: int, data: bytes)

  /**
   * A device as a client shows it: the partition table; whether a write call throws, how the storage
   * changes when it does not, and what it returns.
   */
  datatype Device = Device(gpt: seq<GptEntry>, refuses: (bytes, Program) -> bool, write: (bytes, Program) -> bytes,
                           acks: (bytes, Program) -> bool)

  /** Storage of the unit, and the program commands carried out so far. */
  datatype State = State(store: bytes, sent: seq<Program>)

  function Upper(c: char): char {
    if 'a' <= c <= 'z' then c - 32 as char else c
  }

  /** Ordinal comparison that ignores the case of ASCII letters. */
  predicate SameName(a: string, b: string) {
    |a| == |b| && forall i :: 0 <= i < |a| ==> Upper(a[i]) == Upper(b[i])
  }

  /** `GetPartitionInfoAsync`: the first entry of that name. */
  function Lookup(gpt: seq<GptEntry>, name: string): Option<GptEntry> {
    if gpt == [] then None
    else if SameName(gpt[0].name, name) then Some(gpt[0])
    else Lookup(gpt[1..], name)
  }

  function Send(d: Device, s: State, at: int, data: bytes): State {
    State(d.write(s.store, Program(at, data)), s.sent + [Program(at, data)])
  }

  /** What a write call gives, none for an exception, and the state it leaves. */
  datatype Call = Call(acked: Option<bool>, s: State)

  /**
   * `WritePartitionBlocksAsync`, and with sector 0 `WritePartitionAsync`: an unknown partition and a
   * refused command throw before any data is sent; silence counts as consent.
   */
  function Write(d: Device, s: State, name: string, startSector: int, data: bytes): Call {
    var e := Lookup(d.gpt, name);
    if e.None? then Call(None, s)
    else
      var at := (e.value.start + startSector) * SECTOR;
      if d.refuses(s.store, Program(at, data)) then Call(None, s)
      else Call(Some(d.acks(s.store, Program(at, data))), Send(d, s, at, data))
  }

  /** `ReadPartitionAsync`; the size in bytes is a 32-bit number, and a negative one throws. */
  function Read(d: Device, s: State, name: string): Option<bytes> {
    var e := Lookup(d.gpt, name);
    if e.None? then None
    else
      var size := Int32(e.value.sectors * SECTOR);
      if size < 0 then None else Some(Slice(s.store, e.value.start * SECTOR, size))
  }

  // ----- the audit

  datatype AuditStatus = Match | Mismatch | NoStockComparison | Error

  datatype AuditEntry = AuditEntry(name: string, status: AuditStatus, count: nat, addresses: seq<int>)

  function MinLen(a: bytes, b: bytes): nat {
    if |a| <= |b| then |a| else |b|
  }

  /** Byte offsets of the differing ones among the first `n` sectors, in order. */
  function Differing(device: bytes, stock: bytes, n: nat): (r: seq<int>)
    requires n * SECTOR <= MinLen(device, stock)
    ensures |r| <= n
  {
    if n == 0 then []
    else
      var at := (n - 1) * SECTOR;
      Differing(device, stock, n - 1) + if device[at..at + SECTOR] != stock[at..at + SECTOR] then [at] else []
  }

  function AuditOf(sha: bytes -> bytes, d: Device, s: State, stock: string -> Option<bytes>, name: string): AuditEntry {
    var data, image := Read(d, s, name), stock(name);
    if data.None? then AuditEntry(name, Error, 0, [])
    else if image.None? then AuditEntry(name, NoStockComparison, 0, [])
    else if sha(data.value) == sha(image.value) then AuditEntry(name, Match, 0, [])
    else
      var addresses := Differing(data.value, image.value, MinLen(data.value, image.value) / SECTOR);
      var more := if |data.value| >= |image.value| then |data.value| - |image.value| else |image.value| - |data.value|;
      AuditEntry(name, Mismatch, |addresses| + more / SECTOR, addresses)
  }

  /** One audit entry for every partition of the table. */
  function Audit(sha: bytes -> bytes, d: Device, s: State, stock: string -> Option<bytes>): (r: seq<AuditEntry>)
    ensures |r| == |d.gpt|
  {
    seq(|d.gpt|, i requires 0 <= i < |d.gpt| => AuditOf(sha, d, s, stock, d.gpt[i].name))
  }

  // ----- the repair

  datatype RepairStatus = Repaired | VerificationFailed | Blocklisted | Skipped | NoStockImage

  datatype PartResult = PartResult(name: string, status: RepairStatus, written: nat, verified: nat, addresses: seq<int>)

  const NEVER_RESTORE: seq<string> := ["sec", "ddr", "limits", "apdp", "msadp"]

  predicate OnBlocklist(name: string) {
    exists i :: 0 <= i < |NEVER_RESTORE| && SameName(NEVER_RESTORE[i], name)
  }

  datatype ManifestEntry = ManifestEntry(name: string, fileName: string, sha256: string)

  /** The image files by partition, the manifest, and the digest in hexadecimal. */
  datatype Options = Options(stock: string -> Option<bytes>, manifest: seq<ManifestEntry>, hex: bytes -> string,
                             force: bool, dryRun: bool)

  // ----- is the image the one the manifest names?

  /** `LookupManifestHash`: of the first entry with the partition's name or its file's. */
  function ManifestHash(manifest: seq<ManifestEntry>, name: string): Option<string> {
    if manifest == [] then None
    else if SameName(manifest[0].name, name) || SameName(manifest[0].fileName, name + ".img") then Some(manifest[0].sha256)
    else ManifestHash(manifest[1..], name)
  }

  /** There is an image, the manifest has a digest for it, and it is the image's, letter case of the digits aside. */
  predicate Genuine(o: Options, name: string) {
    && o.stock(name).Some?
    && var expected := ManifestHash(o.manifest, name);
       expected.Some? && expected.value != "" && SameName(o.hex(o.stock(name).value), expected.value)
  }

  /** A name as the case-insensitive dictionaries key it. */
  function Folded(name: string): string {
    seq(|name|, i requires 0 <= i < |name| => Upper(name[i]))
  }

  /** Answers given before, by folded name. */
  type Verdicts = map<string, bool>

  /** `VerifyStockIntegrity`: the answer given before under that name, or else the check itself. */
  function Verdict(o: Options, known: Verdicts, name: string): bool {
    if Folded(name) in known then known[Folded(name)] else Genuine(o, name)
  }

  /** Sectors written so far; `ok` until something throws. */
  datatype Writes = Writes(ok: bool, s: State, written: seq<int>)

  /** One sector: skipped when it lies beyond the stock image, as 32-bit numbers go. */
  function WriteSector(d: Device, name: string, stock: bytes, addr: int, w: Writes): Writes {
    var off := Int32(addr);
    if Int32(off + SECTOR) > |stock| then w
    else if off < 0 || off + SECTOR > |stock| then w.(ok := false)
    else
      var call := Write(d, w.s, name, Div(addr, SECTOR), stock[off..off + SECTOR]);
      if call.acked.None? then w.(ok := false) else Writes(true, call.s, w.written + [addr])
  }

  function WriteSectors(d: Device, name: string, stock: bytes, addrs: seq<int>, s: State): Writes {
    if addrs == [] then Writes(true, s, [])
    else
      var w := WriteSectors(d, name, stock, addrs[..|addrs| - 1], s);
      if w.ok then WriteSector(d, name, stock, addrs[|addrs| - 1], w) else w
  }

  /** The sector at `addr` reads back as stock. */
  predicate Verified(device: bytes, stock: bytes, addr: int) {
    var off := Int32(addr);
    0 <= off && off + SECTOR <= |device| && off + SECTOR <= |stock| && device[off..off + SECTOR] == stock[off..off + SECTOR]
  }

  function CountVerified(device: bytes, stock: bytes, addrs: seq<int>): (n: nat)
    ensures n <= |addrs|
    ensures n == |addrs| <==> forall i :: 0 <= i < |addrs| ==> Verified(device, stock, addrs[i])
  {
    if addrs == [] then 0
    else CountVerified(device, stock, addrs[..|addrs| - 1]) + if Verified(device, stock, addrs[|addrs| - 1]) then 1 else 0
  }

  /** What one audit entry leads to. */
  datatype Step = Step(ok: bool, s: State, known: Verdicts, result: Option<PartResult>)

  function RepairPart(d: Device, o: Options, entry: AuditEntry, s: State, known: Verdicts): Step {
    var name, image := entry.name, o.stock(entry.name);
    if entry.status != Mismatch then Step(true, s, known, None)
    else if OnBlocklist(name) && !o.force then Step(true, s, known, Some(PartResult(name, Blocklisted, 0, 0, [])))
    else if image.None? then Step(true, s, known, Some(PartResult(name, NoStockImage, 0, 0, [])))
    else if o.dryRun then Step(true, s, known, Some(PartResult(name, Repaired, entry.count, 0, entry.addresses)))
    else
      var genuine := Verdict(o, known, name);
      var more := known[Folded(name) := genuine];
      if !genuine then Step(true, s, more, Some(PartResult(name, Skipped, 0, 0, [])))
      else
        var w := WriteSectors(d, name, image.value, entry.addresses, s);
        var back := Read(d, w.s, name);
        if !w.ok || back.None? then Step(false, w.s, more, None)
        else
          var verified := CountVerified(back.value, image.value, w.written);
          var status := if verified == |w.written| then Repaired else VerificationFailed;
          Step(true, w.s, more, Some(PartResult(name, status, |w.written|, verified, w.written)))
  }

  datatype Run = Run(ok: bool, s: State, known: Verdicts, results: seq<PartResult>)

  function RepairAll(d: Device, o: Options, entries: seq<AuditEntry>, s: State, known: Verdicts): Run {
    if entries == [] then Run(true, s, known, [])
    else
      var r := RepairAll(d, o, entries[..|entries| - 1], s, known);
      if !r.ok then r
      else
        var step := RepairPart(d, o, entries[|entries| - 1], r.s, r.known);
        Run(step.ok, step.s, step.known, r.results + if step.result.Some? then [step.result.value] else [])
  }

  // ----- the client and the restorer

  class Client {
    const d: Device
    var store: bytes
    var sent: seq<Program>

    constructor (d: Device, store: bytes)
      ensures this.d == d && Now() == State(store, [])
    {
      this.d, this.store, this.sent := d, store, [];
    }

    function Now(): State
      reads this
    {
      State(store, sent)
    }

    method GetPartitionInfo(name: string) returns (info: Option<GptEntry>)
      ensures info == Lookup(d.gpt, name)
    {
      var i := 0;
      assert d.gpt[0..] == d.gpt;
      while i < |d.gpt|
        invariant i <= |d.gpt| && Lookup(d.gpt[i..], name) == Lookup(d.gpt, name)
      {
        if SameName(d.gpt[i].name, name) { return Some(d.gpt[i]); }
        i := i + 1;
      }
      return None;
    }

    /** Send one program command and its data; none when the command is refused. */
    method Transfer(p: Program) returns (acked: Option<bool>)
      modifies this
      ensures acked == (if d.refuses(old(store), p) then None else Some(d.acks(old(store), p)))
      ensures Now() == if acked.None? then old(Now()) else Send(d, old(Now()), p.at, p.data)
    {
      if d.refuses(store, p) { return None; }
      acked := Some(d.acks(store, p));
      store, sent := d.write(store, p), sent + [p];
    }

    /** Program `data` from the partition's first sector on. */
    method WritePartition(name: string, data: bytes) returns (acked: Option<bool>)
      modifies this
      ensures Call(acked, Now()) == Write(d, old(Now()), name, 0, data)
    {
      var info := GetPartitionInfo(name);
      if info.None? { return None; }
      acked := Transfer(Program(info.value.start * SECTOR, data));
    }

    /** Program `data` from a sector of the partition on. */
    method WritePartitionBlocks(name: string, data: bytes, startSector: int) returns (acked: Option<bool>)
      modifies this
      ensures Call(acked, Now()) == Write(d, old(Now()), name, startSector, data)
    {
      var info := GetPartitionInfo(name);
      if info.None? { return None; }
      acked := Transfer(Program((info.value.start + startSector) * SECTOR, data));
    }

    method ReadPartition(name: string) returns (data: Option<bytes>)
      ensures data == Read(d, Now(), name)
    {
      var info := GetPartitionInfo(name);
      if info.None? { return None; }
      var expectedBytes := Int32(info.value.sectors * SECTOR);
      if expectedBytes < 0 { return None; }
      return Some(Slice(store, info.value.start * SECTOR, expectedBytes));
    }
  }

  /** The byte loop over one sector. */
  method SectorDiffers(device: bytes, stock: bytes, offset: nat) returns (differs: bool)
    requires offset + SECTOR <= |device| && offset + SECTOR <= |stock|
    ensures differs <==> device[offset..offset + SECTOR] != stock[offset..offset + SECTOR]
  {
    for b := 0 to SECTOR
      invariant forall k :: offset <= k < offset + b ==> device[k] == stock[k]
    {
      if device[offset + b] != stock[offset + b] {
        assert device[offset..offset + SECTOR][b] != stock[offset..offset + SECTOR][b];
        return true;
      }
    }
    return false;
  }

  lemma DifferingStep(device: bytes, stock: bytes, n: nat)
    requires n * SECTOR <= MinLen(device, stock)
    ensures n == 0 ==> Differing(device, stock, n) == []
    ensures n > 0 ==>
              var at := (n - 1) * SECTOR;
              Differing(device, stock, n)
              == Differing(device, stock, n - 1) + if device[at..at + SECTOR] != stock[at..at + SECTOR] then [at] else []
  {
  }

  /** The sector-by-sector comparison. */
  method Compare(device: bytes, stock: bytes) returns (addresses: seq<int>)
    ensures addresses == Differing(device, stock, MinLen(device, stock) / SECTOR)
  {
    hide Differing;
    var minSectors := MinLen(device, stock) / SECTOR;
    addresses := [];
    DifferingStep(device, stock, 0);
    for i := 0 to minSectors
      invariant addresses == Differing(device, stock, i)
    {
      DifferingStep(device, stock, i + 1);
      var offset := i * SECTOR;
      var differs := SectorDiffers(device, stock, offset);
      if differs { addresses := addresses + [offset]; }
    }
  }

  /** `RunFullGptAuditAsync` over the client's partition table. */
  method RunFullGptAudit(client: Client, sha: bytes -> bytes, stock: string -> Option<bytes>) returns (entries: seq<AuditEntry>)
    ensures entries == Audit(sha, client.d, client.Now(), stock)
  {
    hide Differing, Lookup;
    entries := [];
    ghost var all := Audit(sha, client.d, client.Now(), stock);
    for i := 0 to |client.d.gpt|
      invariant entries == all[..i]
    {
      var name := client.d.gpt[i].name;
      var entry;
      var data := client.ReadPartition(name);
      if data.None? {
        entry := AuditEntry(name, Error, 0, []);
      } else if stock(name).None? {
        entry := AuditEntry(name, NoStockComparison, 0, []);
      } else {
        var image := stock(name).value;
        if sha(data.value) == sha(image) {
          entry := AuditEntry(name, Match, 0, []);
        } else {
          var addresses := Compare(data.value, image);
          var extra := if |data.value| >= |image| then |data.value| - |image| else |image| - |data.value|;
          entry := AuditEntry(name, Mismatch, |addresses| + extra / SECTOR, addresses);
        }
      }
      assert entry == all[i];
      entries := entries + [entry];
    }
  }

  class PartitionRestorer {
    const client: Client
    const o: Options
    var known: Verdicts

    constructor (client: Client, o: Options)
      ensures this.client == client && this.o == o && known == map[]
    {
      this.client, this.o, this.known := client, o, map[];
    }

    method LookupManifestHash(name: string) returns (hash: Option<string>)
      ensures hash == ManifestHash(o.manifest, name)
    {
      assert o.manifest[0..] == o.manifest;
      for i := 0 to |o.manifest|
        invariant ManifestHash(o.manifest[i..], name) == ManifestHash(o.manifest, name)
      {
        var e := o.manifest[i];
        assert o.manifest[i..][1..] == o.manifest[i + 1..];
        if SameName(e.name, name) || SameName(e.fileName, name + ".img") { return Some(e.sha256); }
      }
      return None;
    }

    method VerifyStockIntegrity(name: string) returns (genuine: bool)
      modifies this
      ensures genuine == Verdict(o, old(known), name)
      ensures known == old(known)[Folded(name) := genuine]
    {
      var key := Folded(name);
      if key in known {
        genuine := known[key];
        assert known[key := genuine] == known;
        return;
      }
      var expected := LookupManifestHash(name);
      var file := o.stock(name);
      genuine := expected.Some? && expected.value != "" && file.Some? && SameName(o.hex(file.value), expected.value);
      known := known[key := genuine];
    }

    /** Write each listed sector; false as soon as one throws. Nobody looks at the acknowledgement of the data. */
    method WriteDiffering(name: string, stock: bytes, addrs: seq<int>) returns (ok: bool, written: seq<int>)
      modifies client
      ensures var w := WriteSectors(client.d, name, stock, addrs, old(client.Now()));
              ok == w.ok && client.Now() == w.s && written == w.written
    {
      hide Lookup, Int32, Div;
      written := [];
      ghost var s := client.Now();
      for i := 0 to |addrs|
        invariant Writes(true, client.Now(), written) == WriteSectors(client.d, name, stock, addrs[..i], s)
      {
        assert addrs[..i + 1][..i] == addrs[..i];
        var addr := addrs[i];
        var sectorNumber, byteOffset := Div(addr, SECTOR), Int32(addr);
        if Int32(byteOffset + SECTOR) <= |stock| {
          if byteOffset < 0 || byteOffset + SECTOR > |stock| {
            StaysFailed(client.d, name, stock, addrs, i + 1, s);
            return false, written;
          }
          var acked := client.WritePartitionBlocks(name, stock[byteOffset..byteOffset + SECTOR], sectorNumber);
          if acked.None? {
            StaysFailed(client.d, name, stock, addrs, i + 1, s);
            return false, written;
          }
          written := written + [addr];
        }
      }
      assert addrs[..|addrs|] == addrs;
      ok := true;
    }

    /** Read back and compare every written sector. */
    method VerifyWritten(device: bytes, stock: bytes, written: seq<int>) returns (verifiedCount: nat, allMatch: bool)
      ensures verifiedCount == CountVerified(device, stock, written)
      ensures allMatch <==> verifiedCount == |written|
    {
      verifiedCount, allMatch := 0, true;
      for i := 0 to |written|
        invariant verifiedCount == CountVerified(device, stock, written[..i])
        invariant allMatch <==> verifiedCount == i
      {
        assert written[..i + 1][..i] == written[..i];
        if Verified(device, stock, written[i]) {
          verifiedCount := verifiedCount + 1;
        } else {
          allMatch := false;
        }
      }
      assert written[..|written|] == written;
    }

    method RepairPartition(entry: AuditEntry) returns (ok: bool, result: Option<PartResult>)
      modifies this, client
      ensures Step(ok, client.Now(), known, result) == RepairPart(client.d, o, entry, old(client.Now()), old(known))
    {
      hide Lookup, Read, WriteSectors, OnBlocklist, CountVerified, Verdict, Folded;
      if entry.status != Mismatch { return true, None; }
      var name := entry.name;
      if OnBlocklist(name) && !o.force { return true, Some(PartResult(name, Blocklisted, 0, 0, [])); }
      var image := o.stock(name);
      if image.None? { return true, Some(PartResult(name, NoStockImage, 0, 0, [])); }
      if o.dryRun { return true, Some(PartResult(name, Repaired, entry.count, 0, entry.addresses)); }
      var genuine := VerifyStockIntegrity(name);
      if !genuine { return true, Some(PartResult(name, Skipped, 0, 0, [])); }
      var written;
      ok, written := WriteDiffering(name, image.value, entry.addresses);
      if !ok { return false, None; }
      var back := client.ReadPartition(name);
      if back.None? { return false, None; }
      var verifiedCount, allMatch := VerifyWritten(back.value, image.value, written);
      var status := if allMatch && verifiedCount == |written| then Repaired else VerificationFailed;
      return true, Some(PartResult(name, status, |written|, verifiedCount, written));
    }

    /** `SparseRepairAsync`; an exception ends the whole run. */
    method SparseRepair(entries: seq<AuditEntry>) returns (ok: bool, results: seq<PartResult>)
      modifies this, client
      ensures Run(ok, client.Now(), known, results) == RepairAll(client.d, o, entries, old(client.Now()), old(known))
    {
      hide RepairPart;
      ghost var s, was := client.Now(), known;
      results := [];
      for i := 0 to |entries|
        invariant Run(true, client.Now(), known, results) == RepairAll(client.d, o, entries[..i], s, was)
      {
        assert entries[..i + 1][..i] == entries[..i];
        var result;
        ok, result := RepairPartition(entries[i]);
        if result.Some? { results := results + [result.value]; }
        if !ok {
          RunStaysFailed(client.d, o, entries, i + 1, s, was);
          return;
        }
      }
      assert entries[..|entries|] == entries;
      ok := true;
    }
  }

  lemma {:induction false} StaysFailed(d: Device, name: string, stock: bytes, addrs: seq<int>, i: nat, s: State)
    requires i <= |addrs| && !WriteSectors(d, name, stock, addrs[..i], s).ok
    ensures WriteSectors(d, name, stock, addrs, s) == WriteSectors(d, name, stock, addrs[..i], s)
    decreases |addrs|
  {
    hide WriteSector;
    if i == |addrs| {
      assert addrs[..i] == addrs;
    } else {
      assert addrs[..|addrs| - 1][..i] == addrs[..i];
      StaysFailed(d, name, stock, addrs[..|addrs| - 1], i, s);
    }
  }

  lemma {:induction false} RunStaysFailed(d: Device, o: Options, entries: seq<AuditEntry>, i: nat, s: State, known: Verdicts)
    requires i <= |entries| && !RepairAll(d, o, entries[..i], s, known).ok
    ensures RepairAll(d, o, entries, s, known) == RepairAll(d, o, entries[..i], s, known)
    decreases |entries|
  {
    hide RepairPart;
    if i == |entries| {
      assert entries[..i] == entries;
    } else {
      assert entries[..|entries| - 1][..i] == entries[..i];
      RunStaysFailed(d, o, entries[..|entries| - 1], i, s, known);
    }
  }
}
