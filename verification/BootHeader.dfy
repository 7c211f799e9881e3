/**
 * The boot image headers of `dyn_img_hdr`: eight layouts behind one set of accessors. A field a
 * layout does not have reads 0 and swallows writes.
 */
module BootHeader {
  import opened Bytes
  import opened Format

  datatype Variant = V0 | V1 | V2 | Pxa | V3 | V4 | VndV3 | VndV4

  datatype Field =
    | KernelSize | RamdiskSize | SecondSize | PageSize | HeaderVersion | ExtraSize | OsVersion
    | RecoveryDtboSize | HeaderSize | DtbSize | SignatureSize
    | TableSize | TableEntryNum | TableEntrySize | BootconfigSize

  predicate IsVendor(v: Variant) {
    v == VndV3 || v == VndV4
  }

  /** `sizeof` the raw header. */
  function HdrSize(v: Variant): nat {
    match v
    case V0 => 1632 case V1 => 1648 case V2 => 1660 case Pxa => 1640
    case V3 => 1580 case V4 => 1584 case VndV3 => 2112 case VndV4 => 2128
  }

  /** Where a 32-bit field stands in the raw header. */
  function Offset(v: Variant, f: Field): (o: Option<nat>)
    ensures o.Some? ==> 8 <= o.value && o.value + 4 <= HdrSize(v)
  {
    var common := v in {V0, V1, V2, Pxa};
    match f
    case KernelSize => if IsVendor(v) then None else Some(8)
    case RamdiskSize => Some(if common then 16 else if IsVendor(v) then 24 else 12)
    case SecondSize => if common then Some(24) else None
    case PageSize => if v == Pxa then Some(44) else if common then Some(36) else if IsVendor(v) then Some(12) else None
    case HeaderVersion => if v == V0 || v == Pxa then None else Some(if IsVendor(v) then 8 else 40)
    case ExtraSize => if v == V0 then Some(40) else if v == Pxa then Some(32) else None
    case OsVersion => if v in {V0, V1, V2} then Some(44) else if v in {V3, V4} then Some(16) else None
    case RecoveryDtboSize => if v in {V1, V2} then Some(1632) else None
    case HeaderSize => if v in {V1, V2} then Some(1644) else if v in {V3, V4} then Some(20) else if IsVendor(v) then Some(2096) else None
    case DtbSize => if v == V2 then Some(1648) else if IsVendor(v) then Some(2100) else None
    case SignatureSize => if v == V4 then Some(1580) else None
    case TableSize => if v == VndV4 then Some(2112) else None
    case TableEntryNum => if v == VndV4 then Some(2116) else None
    case TableEntrySize => if v == VndV4 then Some(2120) else None
    case BootconfigSize => if v == VndV4 then Some(2124) else None
  }

  lemma OffsetsApart(v: Variant, f: Field, g: Field)
    requires f != g && Offset(v, f).Some? && Offset(v, g).Some?
    ensures Offset(v, f).value + 4 <= Offset(v, g).value || Offset(v, g).value + 4 <= Offset(v, f).value
  {
  }

  type Raw = bytes

  predicate RawOf(v: Variant, raw: Raw) {
    |raw| == HdrSize(v)
  }

  function Get(v: Variant, raw: Raw, f: Field): u32
    requires RawOf(v, raw)
  {
    if f == PageSize && (v == V3 || v == V4) then 4096
    else if Offset(v, f).Some? then ReadLE32(raw, Offset(v, f).value)
    else 0
  }

  function Set(v: Variant, raw: Raw, f: Field, n: u32): (r: Raw)
    requires RawOf(v, raw)
    ensures RawOf(v, r)
  {
    if Offset(v, f).Some? then Overwrite(raw, Offset(v, f).value, LE32(n)) else raw
  }

  lemma ReadAfterWrite(raw: bytes, at: nat, n: u32)
    requires at + 4 <= |raw|
    ensures ReadLE32(Overwrite(raw, at, LE32(n)), at) == n
    ensures forall b: nat :: b + 4 <= |raw| && (b + 4 <= at || at + 4 <= b)
              ==> ReadLE32(Overwrite(raw, at, LE32(n)), b) == ReadLE32(raw, b)
  {
    hide LE32;
    ReadLE32OfLE32(n);
    var w := Overwrite(raw, at, LE32(n));
    assert forall i :: 0 <= i < 4 ==> w[at + i] == LE32(n)[i];
  }

  /** A written field reads back, an absent one reads 0, and the others keep their values. */
  lemma GetAfterSet(v: Variant, raw: Raw, f: Field, n: u32, g: Field)
    requires RawOf(v, raw)
    ensures Get(v, Set(v, raw, f, n), g) == if f == g && Offset(v, f).Some? then n else Get(v, raw, g)
  {
    hide ReadLE32, LE32, Overwrite, Offset, HdrSize;
    if Offset(v, f).Some? {
      FieldsApart(v, f, g);
      ReadAfterWrite(raw, Offset(v, f).value, n);
    }
  }

  lemma FieldsApart(v: Variant, f: Field, g: Field)
    requires Offset(v, f).Some?
    ensures f == PageSize ==> v != V3 && v != V4
    ensures f != g && Offset(v, g).Some? ==>
              Offset(v, f).value + 4 <= Offset(v, g).value || Offset(v, g).value + 4 <= Offset(v, f).value
  {
    if f != g && Offset(v, g).Some? { OffsetsApart(v, f, g); }
  }

  const RECOVERY_OFFSET_AT := 1636

  /** Eight bytes, least significant first. */
  function LE64(n: u64): (b: bytes)
    ensures |b| == 8
  {
    LE32(n % U32) + LE32(n / U32)
  }

  /** The 64-bit `recovery_dtbo_offset` of versions 1 and 2. */
  function SetRecoveryOffset(v: Variant, raw: Raw, n: u64): (r: Raw)
    requires RawOf(v, raw)
    ensures RawOf(v, r)
  {
    if v in {V1, V2} then Overwrite(raw, RECOVERY_OFFSET_AT, LE64(n)) else raw
  }

  function IdAt(v: Variant): Option<nat> {
    if v in {V0, V1, V2} then Some(576) else if v == Pxa then Some(584) else None
  }

  /** `id`: cleared, then the digest. */
  function SetId(v: Variant, raw: Raw, id: bytes): (r: Raw)
    requires RawOf(v, raw) && |id| == 32
    ensures RawOf(v, r)
  {
    if IdAt(v).Some? then Overwrite(raw, IdAt(v).value, id) else raw
  }

  lemma GetAfterOther(v: Variant, raw: Raw, at: nat, patch: bytes, g: Field)
    requires RawOf(v, raw) && at + |patch| <= |raw|
    requires Offset(v, g).Some? ==> Offset(v, g).value + 4 <= at || at + |patch| <= Offset(v, g).value
    ensures Get(v, Overwrite(raw, at, patch), g) == Get(v, raw, g)
  {
  }

  /** `align_to`: up to a multiple of `a`. */
  function AlignTo(x: nat, a: nat): (y: nat)
    requires a > 0
    ensures x <= y < x + a
  {
    if x % a == 0 then x else x + a - x % a
  }

  lemma AlignedIsMultiple(x: nat, a: nat)
    requires a > 0
    ensures AlignTo(x, a) % a == 0
  {
    if x % a != 0 {
      var q := x / a;
      assert x == q * a + x % a;
      assert AlignTo(x, a) == (q + 1) * a;
      MultipleMod(q + 1, a);
    }
  }

  lemma {:induction false} AddMultiple(b: nat, x: nat, a: nat)
    requires a > 0 && b % a == 0
    ensures (b + x) % a == x % a
    decreases b
  {
    if b >= a {
      AddModulus(b - a, a);
      AddMultiple(b - a, x, a);
      AddModulus(b - a + x, a);
    }
  }

  /** Padding after an aligned position does not depend on the position. */
  lemma AlignAfter(b: nat, x: nat, a: nat)
    requires a > 0 && b % a == 0
    ensures AlignTo(b + x, a) == b + AlignTo(x, a)
    ensures AlignTo(b + x, a) % a == 0
  {
    AddMultiple(b, x, a);
    AlignedIsMultiple(b + x, a);
  }

  /** `hdr_space`: the room the header takes in the image. */
  function HdrSpace(v: Variant, page: nat): nat
    requires page > 0
  {
    if IsVendor(v) then AlignTo(HdrSize(v), page) else page
  }

  // ----- finding the header

  const NOOKHD_PRE_HEADER_SZ := 1048576
  const ACCLAIM_PRE_HEADER_SZ := 262144
  const AMONET_MICROLOADER_SZ := 1024
  const PXA_LIMIT := 0x02000000

  const NOOKHD_MAGICS: seq<bytes> := [Ascii("Red Loader"), Ascii("Green Loader"), Ascii("Green Recovery"),
                                      Ascii("eMMC boot.img+secondloader"), Ascii("eMMC recovery.img+secondloader")]
  const ACCLAIM_MAGIC: bytes := Ascii("BauwksBoot")

  /** Where the payload starts, which is where its header stands, and the header's layout. */
  datatype Found = Found(base: nat, v: Variant)

  function VersionOf(n: u32): Variant {
    if n == 1 then V1 else if n == 2 then V2 else if n == 3 then V3 else if n == 4 then V4 else V0
  }

  function MakeHdr(img: bytes, at: nat): Option<Found> {
    if MatchAt(img, at, BOOT_MAGIC) then Some(Found(at, VersionOf(Word(img, at + 40)))) else None
  }

  /** How far the payload starts after `p`. */
  function Shift(img: bytes, p: nat): nat {
    if exists i :: 0 <= i < |NOOKHD_MAGICS| && MatchAt(img, p + 64, NOOKHD_MAGICS[i]) then NOOKHD_PRE_HEADER_SZ
    else if MatchAt(img, p + 48, ACCLAIM_MAGIC) then ACCLAIM_PRE_HEADER_SZ
    else 0
  }

  /** A second boot magic after the AMONET loader; the shifted headers behind it are not modelled. */
  predicate MaybeAmonet(img: bytes, p: nat) {
    MatchAt(img, p + AMONET_MICROLOADER_SZ, BOOT_MAGIC)
  }

  /** `create_hdr` for the image found at `p`. */
  function CreateHdr(img: bytes, p: nat, vendor: bool): Option<Found> {
    if vendor then Some(Found(p, if Word(img, p + 8) == 4 then VndV4 else VndV3))
    else if Word(img, p + 36) >= PXA_LIMIT then Some(Found(p, Pxa))
    else if MaybeAmonet(img, p) then None
    else MakeHdr(img, p + Shift(img, p))
  }
}
