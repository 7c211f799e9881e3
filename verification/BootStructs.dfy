/**
 * The boot headers as their packed structs: each of the eight layouts is the list of its members, a
 * header is the members' bytes in that order, and the accessors of `dyn_img_hdr` read and write
 * exactly the members they are named after.
 */
module BootStructs {
  import opened Bytes
  import opened Format
  import opened BootHeader
  import opened BootLayout
  import opened HeaderFile

  /** A member of a header: a number that has an accessor, a text that has one, or bytes that are only kept. */
  datatype Member =
    | Number(f: Field) | Name(n: nat) | Cmdline(n: nat) | ExtraCmdline(n: nat) | Id | RecoveryDtboOffset | Other(n: nat)

  function Width(m: Member): nat {
    match m
    case Number(_) => 4
    case Id => 32
    case RecoveryDtboOffset => 8
    case _ => m.n
  }

  /** The members of each header, in order. */
  function Struct(v: Variant): seq<Member> {
    match v
    case V0 =>
      [Other(8), Number(KernelSize), Other(4), Number(RamdiskSize), Other(4), Number(SecondSize), Other(4), Other(4),
       Number(PageSize), Number(ExtraSize), Number(OsVersion), Name(16), Cmdline(512), Id, ExtraCmdline(1024)]
    case V1 =>
      [Other(8), Number(KernelSize), Other(4), Number(RamdiskSize), Other(4), Number(SecondSize), Other(4), Other(4),
       Number(PageSize), Number(HeaderVersion), Number(OsVersion), Name(16), Cmdline(512), Id, ExtraCmdline(1024),
       Number(RecoveryDtboSize), RecoveryDtboOffset, Number(HeaderSize)]
    case V2 =>
      [Other(8), Number(KernelSize), Other(4), Number(RamdiskSize), Other(4), Number(SecondSize), Other(4), Other(4),
       Number(PageSize), Number(HeaderVersion), Number(OsVersion), Name(16), Cmdline(512), Id, ExtraCmdline(1024),
       Number(RecoveryDtboSize), RecoveryDtboOffset, Number(HeaderSize), Number(DtbSize), Other(8)]
    case Pxa =>
      [Other(8), Number(KernelSize), Other(4), Number(RamdiskSize), Other(4), Number(SecondSize), Other(4),
       Number(ExtraSize), Other(4), Other(4), Number(PageSize), Name(24), Cmdline(512), Id, ExtraCmdline(1024)]
    case V3 =>
      [Other(8), Number(KernelSize), Number(RamdiskSize), Number(OsVersion), Number(HeaderSize), Other(16),
       Number(HeaderVersion), Cmdline(512), ExtraCmdline(1024)]
    case V4 =>
      [Other(8), Number(KernelSize), Number(RamdiskSize), Number(OsVersion), Number(HeaderSize), Other(16),
       Number(HeaderVersion), Cmdline(512), ExtraCmdline(1024), Number(SignatureSize)]
    case VndV3 =>
      [Other(8), Number(HeaderVersion), Number(PageSize), Other(4), Other(4), Number(RamdiskSize), Cmdline(512),
       ExtraCmdline(1024), Other(512), Other(4), Name(16), Number(HeaderSize), Number(DtbSize), Other(8)]
    case VndV4 =>
      [Other(8), Number(HeaderVersion), Number(PageSize), Other(4), Other(4), Number(RamdiskSize), Cmdline(512),
       ExtraCmdline(1024), Other(512), Other(4), Name(16), Number(HeaderSize), Number(DtbSize), Other(8),
       Number(TableSize), Number(TableEntryNum), Number(TableEntrySize), Number(BootconfigSize)]
  }

  /** Where the `i`-th member begins; past the last one, where the header ends. */
  function At(s: seq<Member>, i: nat): nat {
    if i == 0 then 0 else At(s, i - 1) + if i <= |s| then Width(s[i - 1]) else 0
  }

  lemma {:induction false} SamePlaces(s: seq<Member>, t: seq<Member>, i: nat)
    requires i <= |s| && i <= |t| && forall k :: 0 <= k < i ==> Width(s[k]) == Width(t[k])
    ensures At(s, i) == At(t, i)
  {
    if i > 0 { SamePlaces(s, t, i - 1); }
  }

  /** Members of the same widths stand at the same places. */
  lemma PlacesShared(s: seq<Member>, t: seq<Member>, n: nat)
    requires n <= |s| && n <= |t| && forall k :: 0 <= k < n ==> Width(s[k]) == Width(t[k])
    ensures forall i: nat :: i <= n ==> At(s, i) == At(t, i)
  {
    forall i: nat | i <= n ensures At(s, i) == At(t, i) { SamePlaces(s, t, i); }
  }

  lemma PlacesV0()
    ensures var s := Struct(V0);
            && |s| == 15
            && At(s, 1) == 8 && At(s, 2) == 12 && At(s, 3) == 16 && At(s, 4) == 20 && At(s, 5) == 24
            && At(s, 6) == 28 && At(s, 7) == 32 && At(s, 8) == 36 && At(s, 9) == 40 && At(s, 10) == 44
            && At(s, 11) == 48 && At(s, 12) == 64 && At(s, 13) == 576 && At(s, 14) == 608 && At(s, 15) == 1632
  {
  }

  lemma PlacesV1()
    ensures var s := Struct(V1);
            && |s| == 18
            && At(s, 1) == 8 && At(s, 2) == 12 && At(s, 3) == 16 && At(s, 4) == 20 && At(s, 5) == 24
            && At(s, 6) == 28 && At(s, 7) == 32 && At(s, 8) == 36 && At(s, 9) == 40 && At(s, 10) == 44
            && At(s, 11) == 48 && At(s, 12) == 64 && At(s, 13) == 576 && At(s, 14) == 608 && At(s, 15) == 1632
            && At(s, 16) == 1636 && At(s, 17) == 1644 && At(s, 18) == 1648
  {
    PlacesV0();
    PlacesShared(Struct(V0), Struct(V1), 15);
  }

  lemma PlacesV2()
    ensures var s := Struct(V2);
            && |s| == 20
            && At(s, 1) == 8 && At(s, 2) == 12 && At(s, 3) == 16 && At(s, 4) == 20 && At(s, 5) == 24
            && At(s, 6) == 28 && At(s, 7) == 32 && At(s, 8) == 36 && At(s, 9) == 40 && At(s, 10) == 44
            && At(s, 11) == 48 && At(s, 12) == 64 && At(s, 13) == 576 && At(s, 14) == 608 && At(s, 15) == 1632
            && At(s, 16) == 1636 && At(s, 17) == 1644 && At(s, 18) == 1648 && At(s, 19) == 1652 && At(s, 20) == 1660
  {
    PlacesV1();
    PlacesShared(Struct(V1), Struct(V2), 18);
  }

  lemma PlacesPxa()
    ensures var s := Struct(Pxa);
            && |s| == 15
            && At(s, 1) == 8 && At(s, 2) == 12 && At(s, 3) == 16 && At(s, 4) == 20 && At(s, 5) == 24
            && At(s, 6) == 28 && At(s, 7) == 32 && At(s, 8) == 36 && At(s, 9) == 40 && At(s, 10) == 44
            && At(s, 11) == 48 && At(s, 12) == 72 && At(s, 13) == 584 && At(s, 14) == 616 && At(s, 15) == 1640
  {
    PlacesV0();
    PlacesShared(Struct(V0), Struct(Pxa), 7);
  }

  lemma PlacesV3()
    ensures var s := Struct(V3);
            && |s| == 9
            && At(s, 1) == 8 && At(s, 2) == 12 && At(s, 3) == 16 && At(s, 4) == 20 && At(s, 5) == 24
            && At(s, 6) == 40 && At(s, 7) == 44 && At(s, 8) == 556 && At(s, 9) == 1580
  {
  }

  lemma PlacesV4()
    ensures var s := Struct(V4);
            && |s| == 10
            && At(s, 1) == 8 && At(s, 2) == 12 && At(s, 3) == 16 && At(s, 4) == 20 && At(s, 5) == 24
            && At(s, 6) == 40 && At(s, 7) == 44 && At(s, 8) == 556 && At(s, 9) == 1580 && At(s, 10) == 1584
  {
    PlacesV3();
    PlacesShared(Struct(V3), Struct(V4), 9);
  }

  lemma PlacesVndV3()
    ensures var s := Struct(VndV3);
            && |s| == 14
            && At(s, 1) == 8 && At(s, 2) == 12 && At(s, 3) == 16 && At(s, 4) == 20 && At(s, 5) == 24
            && At(s, 6) == 28 && At(s, 7) == 540 && At(s, 8) == 1564 && At(s, 9) == 2076 && At(s, 10) == 2080
            && At(s, 11) == 2096 && At(s, 12) == 2100 && At(s, 13) == 2104 && At(s, 14) == 2112
  {
  }

  lemma PlacesVndV4()
    ensures var s := Struct(VndV4);
            && |s| == 18
            && At(s, 1) == 8 && At(s, 2) == 12 && At(s, 3) == 16 && At(s, 4) == 20 && At(s, 5) == 24
            && At(s, 6) == 28 && At(s, 7) == 540 && At(s, 8) == 1564 && At(s, 9) == 2076 && At(s, 10) == 2080
            && At(s, 11) == 2096 && At(s, 12) == 2100 && At(s, 13) == 2104 && At(s, 14) == 2112 && At(s, 15) == 2116
            && At(s, 16) == 2120 && At(s, 17) == 2124 && At(s, 18) == 2128
  {
    PlacesVndV3();
    PlacesShared(Struct(VndV3), Struct(VndV4), 14);
  }

  /** What an accessor goes by is where its member begins. */
  predicate InPlace(v: Variant, i: nat) {
    i < |Struct(v)| ==>
      var at := At(Struct(v), i);
      match Struct(v)[i]
      case Number(f) => Offset(v, f) == Some(at)
      case Name(_) => NameAt(v) == Some(at)
      case Cmdline(_) => CmdlineAt(v) == at
      case ExtraCmdline(_) => ExtraAt(v) == at
      case Id => IdAt(v) == Some(at)
      case RecoveryDtboOffset => v in {V1, V2} && at == RECOVERY_OFFSET_AT
      case Other(_) => true
  }

  lemma InPlaceV0(i: nat)
    ensures InPlace(V0, i)
  {
    hide At;
    PlacesV0();
  }

  lemma InPlaceV1(i: nat)
    ensures InPlace(V1, i)
  {
    hide At;
    PlacesV1();
  }

  lemma InPlaceV2(i: nat)
    ensures InPlace(V2, i)
  {
    hide At;
    PlacesV2();
  }

  lemma InPlacePxa(i: nat)
    ensures InPlace(Pxa, i)
  {
    hide At;
    PlacesPxa();
  }

  lemma InPlaceV3(i: nat)
    ensures InPlace(V3, i)
  {
    hide At;
    PlacesV3();
  }

  lemma InPlaceV4(i: nat)
    ensures InPlace(V4, i)
  {
    hide At;
    PlacesV4();
  }

  lemma InPlaceVndV3(i: nat)
    ensures InPlace(VndV3, i)
  {
    hide At;
    PlacesVndV3();
  }

  lemma InPlaceVndV4(i: nat)
    ensures InPlace(VndV4, i)
  {
    hide At;
    PlacesVndV4();
    if i < 14 {
      PlacesShared(Struct(VndV3), Struct(VndV4), 14);
      InPlaceVndV3(i);
    }
  }

  lemma MembersInPlace(v: Variant, i: nat)
    ensures InPlace(v, i)
    ensures At(Struct(v), |Struct(v)|) == HdrSize(v)
  {
    hide At, InPlace;
    match v
    case V0 => PlacesV0(); InPlaceV0(i);
    case V1 => PlacesV1(); InPlaceV1(i);
    case V2 => PlacesV2(); InPlaceV2(i);
    case Pxa => PlacesPxa(); InPlacePxa(i);
    case V3 => PlacesV3(); InPlaceV3(i);
    case V4 => PlacesV4(); InPlaceV4(i);
    case VndV3 => PlacesVndV3(); InPlaceVndV3(i);
    case VndV4 => PlacesVndV4(); InPlaceVndV4(i);
  }

  lemma NumbersOfFirst(v: Variant, f: Field)
    requires Offset(v, f).Some? && v in {V0, V1, V2}
    ensures Number(f) in Struct(v)
  {
  }

  lemma NumbersOfNext(v: Variant, f: Field)
    requires Offset(v, f).Some? && v in {Pxa, V3, V4}
    ensures Number(f) in Struct(v)
  {
  }

  lemma NumbersOfVendor(v: Variant, f: Field)
    requires Offset(v, f).Some? && v in {VndV3, VndV4}
    ensures Number(f) in Struct(v)
  {
  }

  /** Every number with an offset is a member. */
  lemma NumbersAreMembers(v: Variant, f: Field)
    requires Offset(v, f).Some?
    ensures Number(f) in Struct(v)
  {
    hide Struct, Offset;
    match v
    case V0 => NumbersOfFirst(v, f);
    case V1 => NumbersOfFirst(v, f);
    case V2 => NumbersOfFirst(v, f);
    case Pxa => NumbersOfNext(v, f);
    case V3 => NumbersOfNext(v, f);
    case V4 => NumbersOfNext(v, f);
    case VndV3 => NumbersOfVendor(v, f);
    case VndV4 => NumbersOfVendor(v, f);
  }

  // ----- a header as its members' bytes

  predicate Fits(s: seq<Member>, values: seq<bytes>) {
    |values| == |s| && forall i :: 0 <= i < |s| ==> |values[i]| == Width(s[i])
  }

  function Joined(values: seq<bytes>, n: nat): bytes
    requires n <= |values|
  {
    if n == 0 then [] else Joined(values, n - 1) + values[n - 1]
  }

  function Header(values: seq<bytes>): bytes {
    Joined(values, |values|)
  }

  lemma {:induction false} JoinedLength(s: seq<Member>, values: seq<bytes>, n: nat)
    requires Fits(s, values) && n <= |s|
    ensures |Joined(values, n)| == At(s, n)
  {
    if n > 0 { JoinedLength(s, values, n - 1); }
  }

  /** Every member stands at its place. */
  lemma {:induction false} JoinedHolds(s: seq<Member>, values: seq<bytes>, n: nat, i: nat)
    requires Fits(s, values) && i < n <= |s|
    ensures Holds(Joined(values, n), At(s, i), values[i])
    decreases n
  {
    hide Holds;
    JoinedLength(s, values, n - 1);
    if i < n - 1 {
      JoinedHolds(s, values, n - 1, i);
      HeldBefore(Joined(values, n - 1), values[n - 1], At(s, i), values[i]);
    } else {
      HoldsMiddle(Joined(values, n - 1), values[n - 1], []);
      assert Joined(values, n) == Joined(values, n - 1) + values[n - 1] + [];
    }
  }

  lemma HeldBefore(s: bytes, more: bytes, at: nat, piece: bytes)
    requires Holds(s, at, piece)
    ensures Holds(s + more, at, piece)
  {
    assert (s + more)[at..at + |piece|] == s[at..at + |piece|];
  }

  /** Laying other bytes over a member gives the header with that member. */
  lemma {:induction false} JoinedReplaced(s: seq<Member>, values: seq<bytes>, n: nat, i: nat, x: bytes)
    requires Fits(s, values) && i < n <= |s| && |x| == Width(s[i])
    ensures At(s, i) + |x| <= |Joined(values, n)|
    ensures Overwrite(Joined(values, n), At(s, i), x) == Joined(values[i := x], n)
    decreases n
  {
    hide Overwrite;
    JoinedLength(s, values, n - 1);
    var before := Joined(values, n - 1);
    if i < n - 1 {
      JoinedReplaced(s, values, n - 1, i, x);
      OverwriteFront(before, values[n - 1], At(s, i), x);
    } else {
      JoinedSame(values, values[i := x], i);
      OverwriteBack(before, values[n - 1], x);
    }
  }

  lemma OverwriteFront(a: bytes, b: bytes, at: nat, x: bytes)
    requires at + |x| <= |a|
    ensures Overwrite(a + b, at, x) == Overwrite(a, at, x) + b
  {
  }

  lemma OverwriteBack(a: bytes, b: bytes, x: bytes)
    requires |x| == |b|
    ensures Overwrite(a + b, |a|, x) == a + x
  {
  }

  lemma {:induction false} JoinedSame(a: seq<bytes>, b: seq<bytes>, n: nat)
    requires n <= |a| && n <= |b| && forall k :: 0 <= k < n ==> a[k] == b[k]
    ensures Joined(a, n) == Joined(b, n)
  {
    if n > 0 { JoinedSame(a, b, n - 1); }
  }

  /** Whether a layout has a member for the number. */
  predicate Has(v: Variant, f: Field) {
    Number(f) in Struct(v)
  }

  lemma IsRaw(v: Variant, values: seq<bytes>)
    requires Fits(Struct(v), values)
    ensures RawOf(v, Header(values))
  {
    hide At, Struct, HdrSize;
    MembersInPlace(v, 0);
    JoinedLength(Struct(v), values, |values|);
  }

  /**
   * Main result: whatever the members hold, each accessor reads the member of its name, and one
   * without such a member reads 0, except that versions 3 and 4 have pages of 4096 bytes.
   */
  lemma AccessorsRead(v: Variant, values: seq<bytes>, i: nat, n: u32, f: Field)
    requires Fits(Struct(v), values) && i < |values| && values[i] == LE32(n)
    ensures RawOf(v, Header(values))
    ensures Struct(v)[i] == Number(f) ==> Get(v, Header(values), f) == n
    ensures !Has(v, f) ==> Get(v, Header(values), f) == if f == PageSize && v in {V3, V4} then 4096 else 0
  {
    hide At, Struct, HdrSize, LE32, ReadLE32, Offset, Holds;
    IsRaw(v, values);
    NoPageSize(v, f);
    if Struct(v)[i] == Number(f) {
      MembersInPlace(v, i);
      JoinedHolds(Struct(v), values, |values|, i);
      WordHeld(Header(values), At(Struct(v), i), n);
    } else if !Has(v, f) && Offset(v, f).Some? {
      NumbersAreMembers(v, f);
    }
  }

  lemma NoPageSize(v: Variant, f: Field)
    ensures f == PageSize && v in {V3, V4} ==> Offset(v, f).None?
  {
  }

  /** Main result: and each accessor writes the member of its name, or nothing. */
  lemma AccessorsWrite(v: Variant, values: seq<bytes>, i: nat, n: u32, f: Field)
    requires Fits(Struct(v), values) && i < |values|
    ensures RawOf(v, Header(values))
    ensures Struct(v)[i] == Number(f) ==> Set(v, Header(values), f, n) == Header(values[i := LE32(n)])
    ensures !Has(v, f) ==> Set(v, Header(values), f, n) == Header(values)
  {
    hide At, Struct, HdrSize, LE32, Offset;
    IsRaw(v, values);
    if Struct(v)[i] == Number(f) {
      MembersInPlace(v, i);
      JoinedReplaced(Struct(v), values, |values|, i, LE32(n));
    } else if !Has(v, f) && Offset(v, f).Some? {
      NumbersAreMembers(v, f);
    }
  }

  /** The texts without a member. */
  lemma MissingTexts(v: Variant)
    ensures IdAt(v).Some? <==> Id in Struct(v)
    ensures v in {V1, V2} <==> RecoveryDtboOffset in Struct(v)
  {
    match v
    case V0 => assert Struct(V0)[13] == Id;
    case V1 => assert Struct(V1)[13] == Id && Struct(V1)[16] == RecoveryDtboOffset;
    case V2 => assert Struct(V2)[13] == Id && Struct(V2)[16] == RecoveryDtboOffset;
    case Pxa => assert Struct(Pxa)[13] == Id;
    case _ =>
  }

  /** The digest and the 64-bit offset are written over their members, where a layout has them. */
  lemma IdWritten(v: Variant, values: seq<bytes>, i: nat, id: bytes, n: u64)
    requires Fits(Struct(v), values) && i < |values| && |id| == 32
    ensures RawOf(v, Header(values))
    ensures Struct(v)[i] == Id ==> SetId(v, Header(values), id) == Header(values[i := id])
    ensures Id !in Struct(v) ==> SetId(v, Header(values), id) == Header(values)
    ensures Struct(v)[i] == RecoveryDtboOffset ==> SetRecoveryOffset(v, Header(values), n) == Header(values[i := LE64(n)])
    ensures RecoveryDtboOffset !in Struct(v) ==> SetRecoveryOffset(v, Header(values), n) == Header(values)
  {
    hide At, Struct, HdrSize, LE64, IdAt;
    IsRaw(v, values);
    MembersInPlace(v, i);
    MissingTexts(v);
    if Struct(v)[i] == Id { JoinedReplaced(Struct(v), values, |values|, i, id); }
    if Struct(v)[i] == RecoveryDtboOffset { JoinedReplaced(Struct(v), values, |values|, i, LE64(n)); }
  }

  /** The text a layout shows as name and command line is that of its members; a name without a zero runs on. */
  lemma TextsRead(v: Variant, values: seq<bytes>, n: nat, c: nat, e: nat)
    requires Fits(Struct(v), values) && n < |values| && c < |values| && e < |values|
    requires Struct(v)[c] == Cmdline(512) && Struct(v)[e] == ExtraCmdline(1024)
    ensures RawOf(v, Header(values))
    ensures HeaderFile.Cmdline(v, Header(values)) == CStr(values[c]) + CStr(values[e])
    ensures Struct(v)[n].Name? && !NulFree(values[n]) ==> HeaderFile.Name(v, Header(values)) == Some(CStr(values[n]))
  {
    hide At, Struct, HdrSize, CStr, CmdlineAt, ExtraAt, NameAt;
    var raw := Header(values);
    IsRaw(v, values);
    MembersInPlace(v, c);
    JoinedHolds(Struct(v), values, |values|, c);
    MembersInPlace(v, e);
    JoinedHolds(Struct(v), values, |values|, e);
    if Struct(v)[n].Name? && !NulFree(values[n]) {
      MembersInPlace(v, n);
      JoinedHolds(Struct(v), values, |values|, n);
      var at := At(Struct(v), n);
      CStrStops(values[n], raw[at + |values[n]|..]);
      assert raw[at..] == values[n] + raw[at + |values[n]|..];
    }
  }

  lemma {:induction false} CStrStops(s: bytes, rest: bytes)
    requires !NulFree(s)
    ensures CStr(s + rest) == CStr(s)
    decreases s
  {
    if s[0] != 0 {
      assert (s + rest)[1..] == s[1..] + rest;
      CStrStops(s[1..], rest);
    }
  }

  /** A name is cut to fifteen bytes and fills sixteen; a command line fills its two members and is cut behind them. */
  lemma TextsWritten(v: Variant, values: seq<bytes>, n: nat, c: nat, e: nat, text: bytes)
    requires Fits(Struct(v), values) && n < |values| && c < |values| && e < |values|
    requires Struct(v)[c] == Cmdline(512) && Struct(v)[e] == ExtraCmdline(1024)
    ensures RawOf(v, Header(values))
    ensures Struct(v)[n].Name? ==>
              |values[n]| >= 16
              && SetName(v, Header(values), text) == Header(values[n := ZeroPadded(Take(text, 15), 16) + values[n][16..]])
    ensures Name(16) !in Struct(v) && Name(24) !in Struct(v) ==> SetName(v, Header(values), text) == Header(values)
    ensures var rest := if |text| > 512 then text[512..] else [];
            SetCmdline(v, Header(values), text)
              == Header(values[c := ZeroPadded(Take(text, 512), 512)][e := ZeroPadded(Take(rest, 1024), 1024)])
  {
    hide At, Struct, HdrSize, CStr, CmdlineAt, ExtraAt, NameAt, Take, ZeroPadded;
    IsRaw(v, values);
    CmdlineWritten(v, values, c, e, text);
    if Struct(v)[n].Name? { NameWritten(v, values, n, text); }
    NamesThere(v);
  }

  lemma NamesThere(v: Variant)
    ensures NameAt(v).Some? ==> Name(16) in Struct(v) || Name(24) in Struct(v)
  {
    match v
    case V0 => assert Struct(V0)[11] == Name(16);
    case V1 => assert Struct(V1)[11] == Name(16);
    case V2 => assert Struct(V2)[11] == Name(16);
    case Pxa => assert Struct(Pxa)[11] == Name(24);
    case VndV3 => assert Struct(VndV3)[10] == Name(16);
    case VndV4 => assert Struct(VndV4)[10] == Name(16);
    case _ =>
  }

  lemma CmdlineWritten(v: Variant, values: seq<bytes>, c: nat, e: nat, text: bytes)
    requires Fits(Struct(v), values) && c < |values| && e < |values| && RawOf(v, Header(values))
    requires Struct(v)[c] == Cmdline(512) && Struct(v)[e] == ExtraCmdline(1024)
    ensures var rest := if |text| > 512 then text[512..] else [];
            SetCmdline(v, Header(values), text)
              == Header(values[c := ZeroPadded(Take(text, 512), 512)][e := ZeroPadded(Take(rest, 1024), 1024)])
  {
    hide At, Struct, HdrSize, CmdlineAt, ExtraAt, Take, ZeroPadded;
    var rest := if |text| > 512 then text[512..] else [];
    var first, second := ZeroPadded(Take(text, 512), 512), ZeroPadded(Take(rest, 1024), 1024);
    MembersInPlace(v, c);
    MembersInPlace(v, e);
    JoinedReplaced(Struct(v), values, |values|, c, first);
    JoinedReplaced(Struct(v), values[c := first], |values|, e, second);
  }

  lemma NameWritten(v: Variant, values: seq<bytes>, n: nat, text: bytes)
    requires Fits(Struct(v), values) && n < |values| && RawOf(v, Header(values)) && Struct(v)[n].Name?
    ensures |values[n]| >= 16
    ensures SetName(v, Header(values), text) == Header(values[n := ZeroPadded(Take(text, 15), 16) + values[n][16..]])
  {
    hide At, HdrSize, NameAt, Take, ZeroPadded, Holds;
    NamesWidth(v, n);
    hide Struct;
    var raw, at := Header(values), At(Struct(v), n);
    var name := ZeroPadded(Take(text, 15), 16);
    MembersInPlace(v, n);
    JoinedHolds(Struct(v), values, |values|, n);
    JoinedReplaced(Struct(v), values, |values|, n, name + values[n][16..]);
    PartReplaced(raw, at, values[n], name);
  }

  lemma NamesWidth(v: Variant, n: nat)
    requires n < |Struct(v)| && Struct(v)[n].Name?
    ensures Width(Struct(v)[n]) >= 16
  {
  }

  lemma PartReplaced(raw: bytes, at: nat, was: bytes, name: bytes)
    requires Holds(raw, at, was) && |name| <= |was|
    ensures Overwrite(raw, at, name) == Overwrite(raw, at, name + was[|name|..])
  {
  }

  // ----- which layout a header is taken for

  function ByVersion(n: u32): Variant {
    match n
    case 1 => V1 case 2 => V2 case 3 => V3 case 4 => V4 case _ => V0
  }

  /**
   * Main result: a header standing at `p` is taken for the layout its version member names. A vendor
   * header is version 4 or else 3; a boot header with a page size beyond any real one is Samsung's;
   * one without a known version is version 0, whatever its extra size is.
   */
  lemma LayoutByVersion(img: bytes, p: nat, v: Variant, values: seq<bytes>, i: nat, n: u32)
    requires Fits(Struct(v), values) && Holds(img, p, Header(values)) && i < |values| && values[i] == LE32(n)
    ensures Struct(v)[i] == Number(HeaderVersion) && IsVendor(v) ==>
              CreateHdr(img, p, true) == Some(Found(p, if n == 4 then VndV4 else VndV3))
    ensures !IsVendor(v) && Word(img, p + 36) >= 0x0200_0000 ==> CreateHdr(img, p, false) == Some(Found(p, Pxa))
    ensures Struct(v)[i] in {Number(HeaderVersion), Number(ExtraSize)} && !IsVendor(v) && v != Pxa
            && Word(img, p + 36) < 0x0200_0000 && !MaybeAmonet(img, p) && Shift(img, p) == 0 ==>
              CreateHdr(img, p, false) == if values[0] == Ascii("ANDROID!") then Some(Found(p, ByVersion(n))) else None
  {
    hide At, Struct, HdrSize, LE32, Offset, Holds, Shift, MaybeAmonet, Word, MatchAt, Ascii;
    MembersInPlace(v, i);
    JoinedHolds(Struct(v), values, |values|, i);
    VersionPlace(v, i);
    MemberHeld(img, p, v, values, i);
    WordOf(img, p + At(Struct(v), i), n);
    MagicFirst(img, p, v, values);
  }

  lemma VersionPlace(v: Variant, i: nat)
    requires i < |Struct(v)| && InPlace(v, i)
    ensures Struct(v)[i] == Number(HeaderVersion) ==> At(Struct(v), i) == if IsVendor(v) then 8 else 40
    ensures Struct(v)[i] == Number(ExtraSize) && v != Pxa ==> At(Struct(v), i) == 40
  {
    hide At, Struct;
  }

  lemma MemberHeld(img: bytes, p: nat, v: Variant, values: seq<bytes>, i: nat)
    requires Fits(Struct(v), values) && Holds(img, p, Header(values)) && i < |values|
    ensures Holds(img, p + At(Struct(v), i), values[i])
  {
    hide At, Struct;
    JoinedHolds(Struct(v), values, |values|, i);
    var h, at := Header(values), At(Struct(v), i);
    HoldsPart(img, p, h, at, at + |values[i]|);
  }

  lemma WordOf(img: bytes, at: nat, n: u32)
    requires Holds(img, at, LE32(n))
    ensures Word(img, at) == n
  {
    hide LE32, ReadLE32;
    WordHeld(img, at, n);
  }

  lemma MagicFirst(img: bytes, p: nat, v: Variant, values: seq<bytes>)
    requires Fits(Struct(v), values) && Holds(img, p, Header(values))
    ensures |values| > 0 && (MatchAt(img, p, BOOT_MAGIC) <==> values[0] == Ascii("ANDROID!"))
  {
    MagicsAreSignatures();
    FirstWidth(v);
    hide Struct;
    MemberHeld(img, p, v, values, 0);
    assert At(Struct(v), 0) == 0;
  }

  lemma FirstWidth(v: Variant)
    ensures |Struct(v)| > 0 && Width(Struct(v)[0]) == 8
  {
  }

  /** The command lines of the Nook's loaders, and the name of the Acclaim's. */
  predicate OfNook(cmdline: bytes) {
    || StartsWith(cmdline, Ascii("Red Loader")) || StartsWith(cmdline, Ascii("Green Loader"))
    || StartsWith(cmdline, Ascii("Green Recovery")) || StartsWith(cmdline, Ascii("eMMC boot.img+secondloader"))
    || StartsWith(cmdline, Ascii("eMMC recovery.img+secondloader"))
  }

  lemma NookMagics(img: bytes, at: nat)
    ensures (exists i :: 0 <= i < |NOOKHD_MAGICS| && MatchAt(img, at, NOOKHD_MAGICS[i]))
       <==> || MatchAt(img, at, Ascii("Red Loader")) || MatchAt(img, at, Ascii("Green Loader"))
            || MatchAt(img, at, Ascii("Green Recovery")) || MatchAt(img, at, Ascii("eMMC boot.img+secondloader"))
            || MatchAt(img, at, Ascii("eMMC recovery.img+secondloader"))
  {
    hide MatchAt, Ascii;
    var m := NOOKHD_MAGICS;
    assert |m| == 5;
    assert m[0] == Ascii("Red Loader") && m[1] == Ascii("Green Loader") && m[2] == Ascii("Green Recovery");
    assert m[3] == Ascii("eMMC boot.img+secondloader") && m[4] == Ascii("eMMC recovery.img+secondloader");
  }

  lemma MatchInside(img: bytes, at: nat, text: bytes, magic: bytes)
    requires Holds(img, at, text) && |magic| <= |text|
    ensures MatchAt(img, at, magic) <==> StartsWith(text, magic)
  {
    assert text[..|magic|] == img[at..at + |magic|];
  }

  /** Main result: the payload is shifted exactly for a loader's command line or name in the header. */
  lemma LoaderShifts(img: bytes, p: nat, v: Variant, values: seq<bytes>)
    requires v in {V0, V1, V2} && Fits(Struct(v), values) && Holds(img, p, Header(values))
    ensures Struct(v)[11] == Name(16) && Struct(v)[12] == Cmdline(512)
    ensures Shift(img, p) == if OfNook(values[12]) then 0x10_0000
                             else if StartsWith(values[11], Ascii("BauwksBoot")) then 0x4_0000 else 0
  {
    hide At, Holds, StartsWith, MatchAt, Ascii, OfNook;
    assert Struct(v)[11] == Name(16) && Struct(v)[12] == Cmdline(512);
    hide Struct;
    MemberHeld(img, p, v, values, 11);
    MemberHeld(img, p, v, values, 12);
    LoaderPlaces(v);
    NookByCmdline(img, p + 64, values[12]);
    AcclaimByName(img, p + 48, values[11]);
  }

  lemma NookByCmdline(img: bytes, at: nat, cmdline: bytes)
    requires Holds(img, at, cmdline) && |cmdline| == 512
    ensures (exists i :: 0 <= i < |NOOKHD_MAGICS| && MatchAt(img, at, NOOKHD_MAGICS[i])) <==> OfNook(cmdline)
  {
    hide Holds, StartsWith, MatchAt;
    NookMagics(img, at);
    MatchInside(img, at, cmdline, Ascii("Red Loader"));
    MatchInside(img, at, cmdline, Ascii("Green Loader"));
    MatchInside(img, at, cmdline, Ascii("Green Recovery"));
    MatchInside(img, at, cmdline, Ascii("eMMC boot.img+secondloader"));
    MatchInside(img, at, cmdline, Ascii("eMMC recovery.img+secondloader"));
  }

  lemma AcclaimByName(img: bytes, at: nat, name: bytes)
    requires Holds(img, at, name) && |name| == 16
    ensures MatchAt(img, at, ACCLAIM_MAGIC) <==> StartsWith(name, Ascii("BauwksBoot"))
  {
    hide Holds, StartsWith, MatchAt;
    MatchInside(img, at, name, Ascii("BauwksBoot"));
  }

  lemma LoaderPlaces(v: Variant)
    requires v in {V0, V1, V2}
    ensures At(Struct(v), 11) == 48 && At(Struct(v), 12) == 64
  {
    hide Struct, At;
    match v
    case V0 => PlacesV0();
    case V1 => PlacesV1();
    case V2 => PlacesV2();
  }

  // ----- the image behind the header

  /** The blocks by name. */
  datatype Blocks = Blocks(kernel: bytes, ramdisk: bytes, second: bytes, extra: bytes, recoveryDtbo: bytes, dtb: bytes,
                           signature: bytes, vendorRamdiskTable: bytes, bootconfig: bytes)

  /** The size accessors state the blocks' sizes. */
  predicate SizesByName(v: Variant, raw: Raw, b: Blocks)
    requires RawOf(v, raw)
  {
    && Get(v, raw, KernelSize) == |b.kernel| && Get(v, raw, RamdiskSize) == |b.ramdisk| && Get(v, raw, SecondSize) == |b.second|
    && Get(v, raw, ExtraSize) == |b.extra| && Get(v, raw, RecoveryDtboSize) == |b.recoveryDtbo|
    && Get(v, raw, DtbSize) == |b.dtb| && Get(v, raw, SignatureSize) == |b.signature|
    && Get(v, raw, TableSize) == |b.vendorRamdiskTable| && Get(v, raw, BootconfigSize) == |b.bootconfig|
  }

  /** One page-aligned block after the other, in the order of the format. */
  function Image(space: bytes, b: Blocks, page: nat): bytes
    requires page > 0
  {
    space + Padded(b.kernel, page) + Padded(b.ramdisk, page) + Padded(b.second, page) + Padded(b.extra, page)
    + Padded(b.recoveryDtbo, page) + Padded(b.dtb, page) + Padded(b.signature, page) + Padded(b.vendorRamdiskTable, page)
    + Padded(b.bootconfig, page)
  }

  function InOrder(b: Blocks): (s: seq<bytes>)
    ensures |s| == 9
  {
    [b.kernel, b.ramdisk, b.second, b.extra, b.recoveryDtbo, b.dtb, b.signature, b.vendorRamdiskTable, b.bootconfig]
  }

  lemma PackedOne(space: bytes, blocks: seq<bytes>, k: nat, page: nat)
    requires page > 0 && k < |blocks|
    ensures Packed(space, blocks[..k + 1], page) == Packed(space, blocks[..k], page) + Padded(blocks[k], page)
  {
    assert blocks[..k + 1][..k] == blocks[..k];
  }

  lemma ImagePacked(space: bytes, b: Blocks, page: nat)
    requires page > 0
    ensures Image(space, b, page) == Packed(space, InOrder(b), page)
  {
    hide Packed, Padded;
    var s := InOrder(b);
    NothingPacked(space, page);
    assert s[..0] == [] && s[..9] == s;
    PackedOne(space, s, 0, page);
    PackedOne(space, s, 1, page);
    PackedOne(space, s, 2, page);
    PackedOne(space, s, 3, page);
    PackedOne(space, s, 4, page);
    PackedOne(space, s, 5, page);
    PackedOne(space, s, 6, page);
    PackedOne(space, s, 7, page);
    PackedOne(space, s, 8, page);
  }

  lemma NothingPacked(space: bytes, page: nat)
    requires page > 0
    ensures Packed(space, [], page) == space
  {
  }

  /** Main result: an image in this form is taken apart into exactly these blocks. */
  lemma ImageTakenApart(img: bytes, p: nat, vendor: bool, base: nat, v: Variant, raw: Raw, space: bytes, b: Blocks, page: nat)
    requires CreateHdr(img, p, vendor) == Some(Found(base, v)) && RawOf(v, raw)
    requires page > 0 && Get(v, raw, PageSize) == page && SizesByName(v, raw, b) && StartsWith(space, raw)
    requires if IsVendor(v) then |space| == AlignTo(HdrSize(v), page) else |space| == page
    requires Holds(img, base, Image(space, b, page))
    ensures Parse(img, p, vendor) == Some(Parsed(v, base, raw, page, InOrder(b), |Image(space, b, page)|))
  {
    hide CreateHdr, Get, HdrSize, Packed, Holds, Parse, Image, Padded, AlignTo;
    ImagePacked(space, b, page);
    SizesInOrder(v, raw, b);
    PackedParses(img, p, vendor, base, v, raw, space, InOrder(b));
  }

  lemma SizesInOrder(v: Variant, raw: Raw, b: Blocks)
    requires RawOf(v, raw) && SizesByName(v, raw, b)
    ensures SizesMatch(v, raw, InOrder(b))
  {
    hide Get, HdrSize;
    var s := InOrder(b);
    assert ORDER[0] == KernelSize && ORDER[1] == RamdiskSize && ORDER[2] == SecondSize && ORDER[3] == ExtraSize;
    assert ORDER[4] == RecoveryDtboSize && ORDER[5] == DtbSize && ORDER[6] == SignatureSize;
    assert ORDER[7] == TableSize && ORDER[8] == BootconfigSize;
  }
}
