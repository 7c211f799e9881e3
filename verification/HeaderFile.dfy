/**
 * The header file: `dump_hdr_file` prints name, command line, OS version and patch level of a boot
 * header, and `load_hdr_file` puts such lines into a header of any layout. Splitting the file into
 * lines (`parse_prop_file`) is not part of this model: a file is its key and value pairs in order.
 */
module HeaderFile {
  import opened Bytes
  import opened BootHeader

  const BOOT_ARGS_SIZE := 512
  const BOOT_EXTRA_ARGS_SIZE := 1024
  const NAME_CLEARED := 16
  const NAME_COPIED := 15

  datatype Line = Line(key: string, value: bytes)

  // ----- where the texts stand

  function CmdlineAt(v: Variant): (at: nat)
    ensures at + BOOT_ARGS_SIZE <= HdrSize(v)
  {
    if v in {V0, V1, V2} then 64 else if v == Pxa then 72 else if IsVendor(v) then 28 else 44
  }

  function ExtraAt(v: Variant): (at: nat)
    ensures CmdlineAt(v) + BOOT_ARGS_SIZE <= at && at + BOOT_EXTRA_ARGS_SIZE <= HdrSize(v)
  {
    if v in {V0, V1, V2} then 608 else if v == Pxa then 616 else CmdlineAt(v) + BOOT_ARGS_SIZE
  }

  /** Layouts 3 and 4 of the boot image have no name. */
  function NameAt(v: Variant): (at: Option<nat>)
    ensures at.Some? ==> at.value + NAME_CLEARED <= HdrSize(v)
  {
    if v in {V0, V1, V2, Pxa} then Some(48) else if IsVendor(v) then Some(2080) else None
  }

  /** The command line as the kernel sees it: both C strings, joined. */
  function Cmdline(v: Variant, raw: Raw): (c: bytes)
    requires RawOf(v, raw)
    ensures |c| <= BOOT_ARGS_SIZE + BOOT_EXTRA_ARGS_SIZE && NulFree(c)
  {
    CStr(raw[CmdlineAt(v)..CmdlineAt(v) + BOOT_ARGS_SIZE]) + CStr(raw[ExtraAt(v)..ExtraAt(v) + BOOT_EXTRA_ARGS_SIZE])
  }

  /** The name as `%s` prints it: nothing stops it at the end of its field. */
  function Name(v: Variant, raw: Raw): Option<bytes>
    requires RawOf(v, raw)
  {
    if NameAt(v).Some? then Some(CStr(raw[NameAt(v).value..])) else None
  }

  // ----- decimal numbers

  function Digits(n: nat): bytes {
    if n < 10 then [48 + n] else Digits(n / 10) + [48 + n % 10]
  }

  /** `%02d` */
  function TwoDigits(n: nat): bytes {
    if n < 10 then [48] + Digits(n) else Digits(n)
  }

  predicate IsDigit(b: byte) {
    48 <= b < 58
  }

  function Scan(s: bytes, n: nat): (nat, bytes)
    decreases |s|
  {
    if s != [] && IsDigit(s[0]) then Scan(s[1..], 10 * n + (s[0] as int - 48)) else (n, s)
  }

  lemma {:induction false} ScanDigits(n: nat, rest: bytes)
    ensures Scan(Digits(n) + rest, 0) == Scan(rest, n)
    decreases n
  {
    if n < 10 {
      assert (Digits(n) + rest)[1..] == rest;
    } else {
      var last: bytes := [48 + n % 10];
      ScanDigits(n / 10, last + rest);
      assert Digits(n / 10) + (last + rest) == Digits(n) + rest;
      assert (last + rest)[1..] == rest;
    }
  }

  lemma ScanNumber(n: nat, rest: bytes)
    requires rest != [] ==> !IsDigit(rest[0])
    ensures Scan(Digits(n) + rest, 0) == (n, rest)
    ensures Scan(TwoDigits(n) + rest, 0) == (n, rest)
  {
    hide Digits;
    ScanDigits(n, rest);
    if n < 10 { assert (TwoDigits(n) + rest)[1..] == Digits(n) + rest; }
  }

  predicate IsBlank(b: byte) {
    b == 32 || 9 <= b < 14
  }

  function SkipBlanks(s: bytes): bytes {
    if s != [] && IsBlank(s[0]) then SkipBlanks(s[1..]) else s
  }

  const PLUS: byte := 43
  const MINUS: byte := 45

  /** `%d`: blanks, a sign, digits. */
  function ScanInt(s: bytes): Option<(int, bytes)> {
    var t := SkipBlanks(s);
    var digits := if t != [] && t[0] in {PLUS, MINUS} then t[1..] else t;
    if digits == [] || !IsDigit(digits[0]) then None
    else
      var (n, rest) := Scan(digits, 0);
      var signed: int := if t[0] == MINUS then 0 - n else n;
      Some((signed, rest))
  }

  /** `sscanf` of numbers with the given separators between them. */
  function ScanAll(s: bytes, separators: bytes): Option<seq<int>>
    decreases |separators|
  {
    if ScanInt(s).None? then None
    else
      var (n, rest) := ScanInt(s).value;
      if separators == [] then Some([n])
      else if rest == [] || rest[0] != separators[0] then None
      else
        var more := ScanAll(rest[1..], separators[1..]);
        if more.None? then None else Some([n] + more.value)
  }

  const DOT: byte := 46
  const DASH: byte := 45

  function PrintVersion(a: nat, b: nat, c: nat): bytes {
    Digits(a) + ([DOT] + (Digits(b) + ([DOT] + Digits(c))))
  }

  function PrintPatch(y: nat, m: nat): bytes {
    Digits(y) + ([DASH] + TwoDigits(m))
  }

  lemma {:induction false} DigitsStart(n: nat)
    ensures Digits(n) != [] && IsDigit(Digits(n)[0])
    decreases n
  {
    if n >= 10 { DigitsStart(n / 10); }
  }

  lemma ScanIntNumber(text: bytes, n: nat, rest: bytes)
    requires text == Digits(n) || text == TwoDigits(n)
    requires rest != [] ==> !IsDigit(rest[0])
    ensures ScanInt(text + rest) == Some((n, rest))
  {
    hide Digits, Scan;
    DigitsStart(n);
    ScanNumber(n, rest);
    assert IsDigit((text + rest)[0]);
  }

  lemma NumberThenRest(text: bytes, n: nat, sep: byte, rest: bytes, separators: bytes)
    requires text == Digits(n) || text == TwoDigits(n)
    requires !IsDigit(sep)
    ensures ScanAll(text + ([sep] + rest), [sep] + separators)
         == if ScanAll(rest, separators).None? then None else Some([n] + ScanAll(rest, separators).value)
    ensures ScanAll(text, []) == Some([n])
  {
    hide Digits, TwoDigits, ScanInt;
    ScanIntNumber(text, n, [sep] + rest);
    ScanIntNumber(text, n, []);
    assert text + [] == text;
    assert ([sep] + rest)[1..] == rest && ([sep] + separators)[1..] == separators;
  }

  lemma VersionScans(a: nat, b: nat, c: nat)
    ensures ScanAll(PrintVersion(a, b, c), [DOT, DOT]) == Some([a, b, c])
  {
    hide Digits, Scan, ScanAll;
    var tail := Digits(b) + ([DOT] + Digits(c));
    assert [DOT] + [DOT] == [DOT, DOT] && [DOT] + [] == [DOT];
    NumberThenRest(Digits(c), c, DOT, [], []);
    NumberThenRest(Digits(b), b, DOT, Digits(c), []);
    NumberThenRest(Digits(a), a, DOT, tail, [DOT]);
    assert [b] + [c] == [b, c] && [a] + [b, c] == [a, b, c];
  }

  lemma PatchScans(y: nat, m: nat)
    ensures ScanAll(PrintPatch(y, m), [DASH]) == Some([y, m])
  {
    hide Digits, Scan, ScanAll, TwoDigits;
    assert [DASH] + [] == [DASH];
    NumberThenRest(TwoDigits(m), m, DASH, [], []);
    NumberThenRest(Digits(y), y, DASH, TwoDigits(m), []);
    assert [y] + [m] == [y, m];
  }

  // ----- the packed version

  function Pow2(k: nat): (p: nat)
    ensures p > 0
  {
    if k == 0 then 1 else 2 * Pow2(k - 1)
  }

  /** Bitwise or. */
  function Or(x: nat, y: nat): nat
    decreases x + y
  {
    if x == 0 then y else if y == 0 then x
    else (if x % 2 == 1 || y % 2 == 1 then 1 else 0) + 2 * Or(x / 2, y / 2)
  }

  predicate Bit(n: nat, k: nat)
    decreases k
  {
    if k == 0 then n % 2 == 1 else Bit(n / 2, k - 1)
  }

  /** A bit is set in the result exactly when it is in one of the numbers. */
  lemma {:induction false} OrIsBitwise(x: nat, y: nat, k: nat)
    ensures Bit(Or(x, y), k) <==> Bit(x, k) || Bit(y, k)
    decreases k
  {
    if x == 0 || y == 0 {
      NoBit(k);
    } else if k > 0 {
      OrIsBitwise(x / 2, y / 2, k - 1);
    }
  }

  lemma {:induction false} NoBit(k: nat)
    ensures !Bit(0, k)
    decreases k
  {
    if k > 0 { NoBit(k - 1); }
  }

  /** Numbers whose bits do not meet are added. */
  lemma {:induction false} OrAdds(x: nat, y: nat, k: nat)
    requires y < Pow2(k)
    ensures Or(x * Pow2(k), y) == x * Pow2(k) + y
    decreases k
  {
    if k > 0 && x > 0 && y > 0 {
      var p := Pow2(k - 1);
      assert x * Pow2(k) == 2 * (x * p);
      assert x * p > 0;
      OrAdds(x, y / 2, k - 1);
    }
  }

  /** A 32-bit shift to the left; a negative number shifts as its two's complement. */
  function Shl(x: int, k: nat): u32 {
    (x * Pow2(k)) % U32
  }

  /** The `os_version` line: the patch level stays. */
  function WithVersion(was: u32, a: int, b: int, c: int): u32 {
    Or(Shl(Or(Or(Shl(a, 14), Shl(b, 7)), c % U32), 11), was % 2048) % U32
  }

  /** The `os_patch_level` line: the version stays. */
  function WithPatch(was: u32, y: int, m: int): u32 {
    Or(Or(Shl(was / 2048, 11), Shl(y - 2000, 4)), m % U32) % U32
  }

  lemma Powers()
    ensures Pow2(4) == 16 && Pow2(7) == 128 && Pow2(11) == 2048 && Pow2(14) == 16384
  {
    assert Pow2(3) == 8 && Pow2(5) == 32 && Pow2(6) == 64 && Pow2(8) == 256 && Pow2(9) == 512 && Pow2(10) == 1024;
    assert Pow2(12) == 4096 && Pow2(13) == 8192;
  }

  lemma VersionPacked(was: u32, a: nat, b: nat, c: nat)
    requires a < 128 && b < 128 && c < 128
    ensures WithVersion(was, a, b, c) == (a * 16384 + b * 128 + c) * 2048 + was % 2048
  {
    hide Or, Pow2;
    Powers();
    OrAdds(a, b * 128, 14);
    OrAdds(a * 128 + b, c, 7);
    OrAdds(a * 16384 + b * 128 + c, was % 2048, 11);
  }

  lemma PatchPacked(was: u32, y: nat, m: nat)
    requires 2000 <= y < 2128 && m < 16
    ensures WithPatch(was, y, m) == was / 2048 * 2048 + (y - 2000) * 16 + m
  {
    hide Or, Pow2;
    Powers();
    OrAdds(was / 2048, (y - 2000) * 16, 11);
    OrAdds(was / 2048 * 128 + (y - 2000), m, 4);
  }

  // ----- dumping

  function VersionLines(ver: u32): seq<Line> {
    if ver == 0 then []
    else
      var version, patch := ver / 2048, ver % 2048;
      [Line("os_version", PrintVersion(version / 16384 % 128, version / 128 % 128, version % 128)),
       Line("os_patch_level", PrintPatch(patch / 16 + 2000, patch % 16))]
  }

  /** `dump_hdr_file` */
  function Dump(v: Variant, raw: Raw): seq<Line>
    requires RawOf(v, raw)
  {
    (if Name(v, raw).Some? then [Line("name", Name(v, raw).value)] else [])
    + [Line("cmdline", Cmdline(v, raw))]
    + VersionLines(Get(v, raw, OsVersion))
  }

  // ----- loading

  function Take(s: bytes, n: nat): (t: bytes)
    ensures |t| <= n && t <= s
  {
    if |s| <= n then s else s[..n]
  }

  function ZeroPadded(s: bytes, n: nat): (t: bytes)
    requires |s| <= n
    ensures |t| == n
  {
    s + Zeros(n - |s|)
  }

  function SetName(v: Variant, raw: Raw, name: bytes): (r: Raw)
    requires RawOf(v, raw)
    ensures RawOf(v, r)
  {
    if NameAt(v).Some? then Overwrite(raw, NameAt(v).value, ZeroPadded(Take(name, NAME_COPIED), NAME_CLEARED)) else raw
  }

  /** What does not fit the first field goes to the second, and what does not fit there is lost. */
  function SetCmdline(v: Variant, raw: Raw, line: bytes): (r: Raw)
    requires RawOf(v, raw)
    ensures RawOf(v, r)
  {
    var rest := if |line| > BOOT_ARGS_SIZE then line[BOOT_ARGS_SIZE..] else [];
    var first := Overwrite(raw, CmdlineAt(v), ZeroPadded(Take(line, BOOT_ARGS_SIZE), BOOT_ARGS_SIZE));
    Overwrite(first, ExtraAt(v), ZeroPadded(Take(rest, BOOT_EXTRA_ARGS_SIZE), BOOT_EXTRA_ARGS_SIZE))
  }

  /** One line; a version the scan cannot read is skipped here. */
  function LoadLine(v: Variant, raw: Raw, l: Line): (r: Raw)
    requires RawOf(v, raw)
    ensures RawOf(v, r)
  {
    var was := Get(v, raw, OsVersion);
    if l.key == "name" then SetName(v, raw, l.value)
    else if l.key == "cmdline" then SetCmdline(v, raw, l.value)
    else if l.key == "os_version" then
      var n := ScanAll(l.value, [DOT, DOT]);
      if n.Some? && |n.value| == 3 then Set(v, raw, OsVersion, WithVersion(was, n.value[0], n.value[1], n.value[2])) else raw
    else if l.key == "os_patch_level" then
      var n := ScanAll(l.value, [DASH]);
      if n.Some? && |n.value| == 2 then Set(v, raw, OsVersion, WithPatch(was, n.value[0], n.value[1])) else raw
    else raw
  }

  function Load(v: Variant, raw: Raw, file: seq<Line>): (r: Raw)
    requires RawOf(v, raw)
    ensures RawOf(v, r)
  {
    if file == [] then raw else LoadLine(v, Load(v, raw, file[..|file| - 1]), file[|file| - 1])
  }

  // ----- the header object

  class Header {
    const v: Variant
    var raw: Raw

    ghost predicate Valid()
      reads this
    {
      RawOf(v, raw)
    }

    constructor (v: Variant, raw: Raw)
      requires RawOf(v, raw)
      ensures Valid() && this.v == v && this.raw == raw
    {
      this.v, this.raw := v, raw;
    }

    method Memset(at: nat, n: nat)
      requires Valid() && at + n <= |raw|
      modifies this
      ensures Valid() && raw == Overwrite(old(raw), at, Zeros(n))
    {
      raw := Overwrite(raw, at, Zeros(n));
    }

    method Memcpy(at: nat, b: bytes)
      requires Valid() && at + |b| <= |raw|
      modifies this
      ensures Valid() && raw == Overwrite(old(raw), at, b)
    {
      raw := Overwrite(raw, at, b);
    }

    method LoadName(value: bytes)
      requires Valid()
      modifies this
      ensures Valid() && raw == SetName(v, old(raw), value)
    {
      hide Overwrite;
      if NameAt(v).Some? {
        var at := NameAt(v).value;
        ClearThenCopy(raw, at, Take(value, NAME_COPIED), NAME_CLEARED);
        Memset(at, NAME_CLEARED);
        Memcpy(at, Take(value, NAME_COPIED));
      }
    }

    method LoadCmdline(value: bytes)
      requires Valid()
      modifies this
      ensures Valid() && raw == SetCmdline(v, old(raw), value)
    {
      hide Overwrite;
      var c, e := CmdlineAt(v), ExtraAt(v);
      ghost var first, rest := Take(value, BOOT_ARGS_SIZE), if |value| > BOOT_ARGS_SIZE then value[BOOT_ARGS_SIZE..] else [];
      TwoFields(raw, c, first, BOOT_ARGS_SIZE, e, Take(rest, BOOT_EXTRA_ARGS_SIZE), BOOT_EXTRA_ARGS_SIZE);
      Memset(c, BOOT_ARGS_SIZE);
      Memset(e, BOOT_EXTRA_ARGS_SIZE);
      if |value| > BOOT_ARGS_SIZE {
        Memcpy(c, value[..BOOT_ARGS_SIZE]);
        var len := Min(|value| - BOOT_ARGS_SIZE, BOOT_EXTRA_ARGS_SIZE);
        assert value[BOOT_ARGS_SIZE..BOOT_ARGS_SIZE + len] == Take(rest, BOOT_EXTRA_ARGS_SIZE);
        Memcpy(e, value[BOOT_ARGS_SIZE..BOOT_ARGS_SIZE + len]);
      } else {
        Memcpy(c, value);
        OverwriteNothing(raw, e);
      }
    }

    /** `load_hdr_file` over the lines of the file. */
    method LoadHdrFile(file: seq<Line>)
      requires Valid()
      modifies this
      ensures Valid() && raw == Load(v, old(raw), file)
    {
      hide Get, Set, ScanAll, WithVersion, WithPatch, SetName, SetCmdline;
      for i := 0 to |file|
        invariant Valid() && raw == Load(v, old(raw), file[..i])
      {
        assert file[..i + 1][..i] == file[..i];
        var Line(key, value) := file[i];
        if key == "name" {
          LoadName(value);
        } else if key == "cmdline" {
          LoadCmdline(value);
        } else if key == "os_version" {
          var n := ScanAll(value, [DOT, DOT]);
          if n.Some? && |n.value| == 3 {
            raw := Set(v, raw, OsVersion, WithVersion(Get(v, raw, OsVersion), n.value[0], n.value[1], n.value[2]));
          }
        } else if key == "os_patch_level" {
          var n := ScanAll(value, [DASH]);
          if n.Some? && |n.value| == 2 {
            raw := Set(v, raw, OsVersion, WithPatch(Get(v, raw, OsVersion), n.value[0], n.value[1]));
          }
        }
      }
      assert file[..|file|] == file;
    }
  }

  lemma ClearThenCopy(raw: bytes, at: nat, b: bytes, n: nat)
    requires at + n <= |raw| && |b| <= n
    ensures Overwrite(Overwrite(raw, at, Zeros(n)), at, b) == Overwrite(raw, at, ZeroPadded(b, n))
  {
  }

  lemma TwoFields(raw: bytes, c: nat, first: bytes, n: nat, e: nat, second: bytes, m: nat)
    requires c + n <= e && e + m <= |raw| && |first| <= n && |second| <= m
    ensures Overwrite(Overwrite(Overwrite(Overwrite(raw, c, Zeros(n)), e, Zeros(m)), c, first), e, second)
         == Overwrite(Overwrite(raw, c, ZeroPadded(first, n)), e, ZeroPadded(second, m))
  {
  }

  // ----- the round trip

  lemma {:induction false} CStrOfPadded(s: bytes, n: nat)
    requires NulFree(s)
    ensures CStr(s + Zeros(n)) == s
    decreases s
  {
    if s != [] {
      assert (s + Zeros(n))[1..] == s[1..] + Zeros(n);
      assert NulFree(s[1..]);
      CStrOfPadded(s[1..], n);
    }
  }

  /** A C string ends at its first zero, whatever follows. */
  lemma {:induction false} CStrIgnoresRest(s: bytes, n: nat, rest: bytes)
    requires NulFree(s) && n > 0
    ensures CStr(s + Zeros(n) + rest) == s
    decreases s
  {
    if s == [] {
      assert (s + Zeros(n) + rest)[0] == 0;
    } else {
      assert (s + Zeros(n) + rest)[1..] == s[1..] + Zeros(n) + rest;
      assert NulFree(s[1..]);
      CStrIgnoresRest(s[1..], n, rest);
    }
  }

  lemma BothFieldsHeld(raw: bytes, c: nat, first: bytes, e: nat, second: bytes)
    requires c + |first| <= e && e + |second| <= |raw|
    ensures var r := Overwrite(Overwrite(raw, c, first), e, second);
            r[c..c + |first|] == first && r[e..e + |second|] == second
  {
  }

  /** A command line that fits both fields reads back whole, wherever it was split before. */
  lemma CmdlineSet(v: Variant, raw: Raw, line: bytes)
    requires RawOf(v, raw) && NulFree(line) && |line| <= BOOT_ARGS_SIZE + BOOT_EXTRA_ARGS_SIZE
    ensures Cmdline(v, SetCmdline(v, raw, line)) == line
  {
    hide CStr, Cmdline, SetCmdline, NulFree, HdrSize;
    var first, rest := Take(line, BOOT_ARGS_SIZE), if |line| > BOOT_ARGS_SIZE then line[BOOT_ARGS_SIZE..] else [];
    CmdlineFields(v, raw, line, first, rest);
    assert first + rest == line;
    NulFreeParts(first, rest);
    CStrOfPadded(first, BOOT_ARGS_SIZE - |first|);
    CStrOfPadded(rest, BOOT_EXTRA_ARGS_SIZE - |rest|);
  }

  lemma NulFreeParts(a: bytes, b: bytes)
    requires NulFree(a + b)
    ensures NulFree(a) && NulFree(b)
  {
    assert forall i :: 0 <= i < |a| ==> (a + b)[i] == a[i];
    assert forall i :: 0 <= i < |b| ==> (a + b)[|a| + i] == b[i];
  }

  lemma CmdlineFields(v: Variant, raw: Raw, line: bytes, first: bytes, rest: bytes)
    requires RawOf(v, raw) && |line| <= BOOT_ARGS_SIZE + BOOT_EXTRA_ARGS_SIZE
    requires first == Take(line, BOOT_ARGS_SIZE) && rest == if |line| > BOOT_ARGS_SIZE then line[BOOT_ARGS_SIZE..] else []
    ensures Cmdline(v, SetCmdline(v, raw, line))
         == CStr(ZeroPadded(first, BOOT_ARGS_SIZE)) + CStr(ZeroPadded(rest, BOOT_EXTRA_ARGS_SIZE))
  {
    hide HdrSize, CStr, CmdlineAt, ExtraAt, Overwrite, ZeroPadded;
    BothFieldsHeld(raw, CmdlineAt(v), ZeroPadded(first, BOOT_ARGS_SIZE), ExtraAt(v), ZeroPadded(rest, BOOT_EXTRA_ARGS_SIZE));
  }

  /** The bytes of the texts: name, command line, and its continuation. */
  predicate InTexts(v: Variant, i: nat) {
    || (NameAt(v).Some? && NameAt(v).value <= i < NameAt(v).value + NAME_CLEARED)
    || CmdlineAt(v) <= i < CmdlineAt(v) + BOOT_ARGS_SIZE
    || ExtraAt(v) <= i < ExtraAt(v) + BOOT_EXTRA_ARGS_SIZE
  }

  lemma FieldsOutsideTexts(v: Variant, f: Field, i: nat)
    requires Offset(v, f).Some? && Offset(v, f).value <= i < Offset(v, f).value + 4
    ensures !InTexts(v, i)
  {
  }

  /** Every header field reads as before, the given one excepted. */
  predicate OtherFieldsKept(v: Variant, raw: Raw, r: Raw, except: set<Field>)
    requires RawOf(v, raw) && RawOf(v, r)
  {
    forall f: Field :: f !in except ==> Get(v, r, f) == Get(v, raw, f)
  }

  lemma TextsKeepFields(v: Variant, raw: Raw, r: Raw)
    requires RawOf(v, raw) && RawOf(v, r) && forall i :: 0 <= i < HdrSize(v) && !InTexts(v, i) ==> r[i] == raw[i]
    ensures OtherFieldsKept(v, raw, r, {})
  {
    hide InTexts, Offset, HdrSize;
    forall f: Field ensures Get(v, r, f) == Get(v, raw, f) {
      if Offset(v, f).Some? {
        var at := Offset(v, f).value;
        forall i | at <= i < at + 4 ensures r[i] == raw[i] { FieldsOutsideTexts(v, f, i); }
      }
    }
  }

  lemma NameKeepsRest(v: Variant, raw: Raw, name: bytes)
    requires RawOf(v, raw)
    ensures OtherFieldsKept(v, raw, SetName(v, raw, name), {})
  {
    hide HdrSize, Get, NameAt, OtherFieldsKept, CmdlineAt, ExtraAt;
    TextsKeepFields(v, raw, SetName(v, raw, name));
  }

  lemma CmdlineKeepsRest(v: Variant, raw: Raw, line: bytes)
    requires RawOf(v, raw)
    ensures OtherFieldsKept(v, raw, SetCmdline(v, raw, line), {})
  {
    hide HdrSize, Get, NameAt, OtherFieldsKept, CmdlineAt, ExtraAt, Name;
    TextsKeepFields(v, raw, SetCmdline(v, raw, line));
  }

  // ----- what one dumped file does to another header

  lemma VersionAwayFromTexts(v: Variant, raw: Raw, n: u32, i: nat)
    requires RawOf(v, raw) && i < HdrSize(v) && (InTexts(v, i) || Offset(v, OsVersion).None?)
    ensures Set(v, raw, OsVersion, n)[i] == raw[i]
  {
    hide HdrSize, LE32;
    if Offset(v, OsVersion).Some? && Offset(v, OsVersion).value <= i < Offset(v, OsVersion).value + 4 {
      FieldsOutsideTexts(v, OsVersion, i);
    }
  }

  lemma VersionKeepsTexts(v: Variant, raw: Raw, n: u32)
    requires RawOf(v, raw)
    ensures Cmdline(v, Set(v, raw, OsVersion, n)) == Cmdline(v, raw)
    ensures NameWindow(v, Set(v, raw, OsVersion, n)) == NameWindow(v, raw)
  {
    hide Set, CStr, Offset, HdrSize, CmdlineAt, ExtraAt, NameAt;
    var r := Set(v, raw, OsVersion, n);
    forall i | 0 <= i < HdrSize(v) && InTexts(v, i) ensures r[i] == raw[i] { VersionAwayFromTexts(v, raw, n, i); }
    assert r[CmdlineAt(v)..CmdlineAt(v) + BOOT_ARGS_SIZE] == raw[CmdlineAt(v)..CmdlineAt(v) + BOOT_ARGS_SIZE];
    assert r[ExtraAt(v)..ExtraAt(v) + BOOT_EXTRA_ARGS_SIZE] == raw[ExtraAt(v)..ExtraAt(v) + BOOT_EXTRA_ARGS_SIZE];
  }

  lemma VersionKeepsFields(v: Variant, raw: Raw, n: u32)
    requires RawOf(v, raw)
    ensures OtherFieldsKept(v, raw, Set(v, raw, OsVersion, n), {OsVersion})
    ensures Get(v, Set(v, raw, OsVersion, n), OsVersion) == if Offset(v, OsVersion).Some? then n else 0
  {
    hide Get, Set, Offset, HdrSize;
    forall f: Field | f != OsVersion ensures Get(v, Set(v, raw, OsVersion, n), f) == Get(v, raw, f) {
      GetAfterSet(v, raw, OsVersion, n, f);
    }
    GetAfterSet(v, raw, OsVersion, n, OsVersion);
    if Offset(v, OsVersion).None? { AbsentVersion(v, raw); }
  }

  lemma AbsentVersion(v: Variant, raw: Raw)
    requires RawOf(v, raw) && Offset(v, OsVersion).None?
    ensures Get(v, raw, OsVersion) == 0
  {
  }

  /** The sixteen bytes a name is written to. */
  function NameWindow(v: Variant, raw: Raw): bytes
    requires RawOf(v, raw)
  {
    if NameAt(v).Some? then raw[NameAt(v).value..NameAt(v).value + NAME_CLEARED] else []
  }

  lemma CmdlineKeepsName(v: Variant, raw: Raw, line: bytes)
    requires RawOf(v, raw)
    ensures NameWindow(v, SetCmdline(v, raw, line)) == NameWindow(v, raw)
  {
    NameOutsideCmdline(v);
    hide HdrSize, CmdlineAt, ExtraAt, NameAt;
  }

  lemma NameOutsideCmdline(v: Variant)
    ensures NameAt(v).Some? ==> NameAt(v).value + NAME_CLEARED <= CmdlineAt(v) || ExtraAt(v) + BOOT_EXTRA_ARGS_SIZE <= NameAt(v).value
  {
  }

  lemma NameInWindow(v: Variant, raw: Raw, name: bytes)
    requires RawOf(v, raw) && NameAt(v).Some? && NulFree(name) && |name| <= NAME_COPIED
    requires NameWindow(v, raw) == ZeroPadded(name, NAME_CLEARED)
    ensures Name(v, raw) == Some(name)
  {
    hide HdrSize, CStr, NameAt;
    var at := NameAt(v).value;
    assert raw[at..] == raw[at..at + NAME_CLEARED] + raw[at + NAME_CLEARED..];
    CStrIgnoresRest(name, NAME_CLEARED - |name|, raw[at + NAME_CLEARED..]);
  }

  /** Version and patch lines, on any header: the whole packed number is put together again. */
  lemma VersionLoaded(v: Variant, raw: Raw, ver: u32)
    requires RawOf(v, raw) && ver != 0
    ensures VersionLines(ver) == [VersionLines(ver)[0]] + [VersionLines(ver)[1]]
    ensures var r := LoadLine(v, LoadLine(v, raw, VersionLines(ver)[0]), VersionLines(ver)[1]);
            && Get(v, r, OsVersion) == (if Offset(v, OsVersion).Some? then ver else 0)
            && OtherFieldsKept(v, raw, r, {OsVersion})
            && Cmdline(v, r) == Cmdline(v, raw) && NameWindow(v, r) == NameWindow(v, raw)
  {
    hide Get, Set, Offset, HdrSize, ScanAll, PrintVersion, PrintPatch, WithVersion, WithPatch, Cmdline, NameWindow;
    var version, patch, was := ver / 2048, ver % 2048, Get(v, raw, OsVersion);
    var a, b, c, y, m := version / 16384 % 128, version / 128 % 128, version % 128, patch / 16 + 2000, patch % 16;
    VersionScans(a, b, c);
    PatchScans(y, m);
    var n := WithVersion(was, a, b, c);
    var first := Set(v, raw, OsVersion, n);
    VersionKeepsFields(v, raw, n);
    VersionKeepsTexts(v, raw, n);
    var k := WithPatch(Get(v, first, OsVersion), y, m);
    VersionKeepsFields(v, first, k);
    VersionKeepsTexts(v, first, k);
    VersionAssembled(ver, was);
  }

  lemma VersionAssembled(ver: u32, was: u32)
    ensures var version, patch := ver / 2048, ver % 2048;
            WithPatch(WithVersion(was, version / 16384 % 128, version / 128 % 128, version % 128), patch / 16 + 2000, patch % 16) == ver
  {
    hide WithVersion, WithPatch;
    var version, patch := ver / 2048, ver % 2048;
    assert version / 16384 % 128 * 16384 + version / 128 % 128 * 128 + version % 128 == version;
    VersionPacked(was, version / 16384 % 128, version / 128 % 128, version % 128);
    PatchPacked(WithVersion(was, version / 16384 % 128, version / 128 % 128, version % 128), patch / 16 + 2000, patch % 16);
  }

  lemma LoadSnoc(v: Variant, raw: Raw, file: seq<Line>, l: Line)
    requires RawOf(v, raw)
    ensures Load(v, raw, []) == raw && Load(v, raw, file + [l]) == LoadLine(v, Load(v, raw, file), l)
  {
    hide LoadLine;
    assert (file + [l])[..|file|] == file;
  }

  /** The file's lines, one after the other. */
  lemma LoadOfDump(v: Variant, raw: Raw, from: Variant, source: Raw)
    requires RawOf(v, raw) && RawOf(from, source)
    ensures var name, ver := Name(from, source), Get(from, source, OsVersion);
            var named := if name.Some? then SetName(v, raw, name.value) else raw;
            var lined := SetCmdline(v, named, Cmdline(from, source));
            Load(v, raw, Dump(from, source))
              == if ver == 0 then lined else LoadLine(v, LoadLine(v, lined, VersionLines(ver)[0]), VersionLines(ver)[1])
  {
    hide Get, Cmdline, Name, SetName, SetCmdline, PrintVersion, PrintPatch, Load, ScanAll, Set, HdrSize;
    var name, ver := Name(from, source), Get(from, source, OsVersion);
    var head := if name.Some? then [Line("name", name.value)] else [];
    var line := Line("cmdline", Cmdline(from, source));
    LoadSnoc(v, raw, [], line);
    if name.Some? {
      LoadSnoc(v, raw, [], head[0]);
      assert [] + [head[0]] == head;
    }
    LoadSnoc(v, raw, head, line);
    if ver != 0 {
      var l0, l1 := VersionLines(ver)[0], VersionLines(ver)[1];
      LoadSnoc(v, raw, head + [line], l0);
      LoadSnoc(v, raw, head + [line] + [l0], l1);
      assert Dump(from, source) == head + [line] + [l0] + [l1];
    } else {
      assert Dump(from, source) == head + [line];
    }
  }

  /** What loading the dumped file must leave in the other header. */
  predicate Transferred(from: Variant, source: Raw, v: Variant, raw: Raw, r: Raw)
    requires RawOf(from, source) && RawOf(v, raw) && RawOf(v, r)
  {
    var ver := Get(from, source, OsVersion);
    && Cmdline(v, r) == Cmdline(from, source)
    && OtherFieldsKept(v, raw, r, {OsVersion})
    && Get(v, r, OsVersion) == (if ver == 0 then Get(v, raw, OsVersion) else if Offset(v, OsVersion).Some? then ver else 0)
    && (Name(from, source).Some? && NameAt(v).Some? ==> Name(v, r) == Some(Take(Name(from, source).value, NAME_COPIED)))
    && (Name(from, source).None? ==> NameWindow(v, r) == NameWindow(v, raw))
  }

  /**
   * Main result, for headers of any two layouts: the command line arrives whole, wherever it is
   * split; a non-zero OS version and patch level arrive bit for bit; the name arrives up to fifteen
   * bytes; no size or other layout field changes.
   */
  lemma DumpLoads(from: Variant, source: Raw, v: Variant, raw: Raw)
    requires RawOf(from, source) && RawOf(v, raw)
    ensures Transferred(from, source, v, raw, Load(v, raw, Dump(from, source)))
  {
    hide Get, Set, Offset, HdrSize, SetName, SetCmdline, Dump, Load, Cmdline, NameWindow, Name, LoadLine, VersionLines, NameAt,
         OtherFieldsKept;
    var name, ver, line := Name(from, source), Get(from, source, OsVersion), Cmdline(from, source);
    var named := if name.Some? then SetName(v, raw, name.value) else raw;
    var lined := SetCmdline(v, named, line);
    LoadOfDump(v, raw, from, source);
    if name.Some? { NameKeepsRest(v, raw, name.value); }
    CmdlineKeepsRest(v, named, line);
    CmdlineSet(v, named, line);
    CmdlineKeepsName(v, named, line);
    if ver != 0 { VersionLoaded(v, lined, ver); }
    FieldsKeptThrough(v, raw, named, lined, Load(v, raw, Dump(from, source)));
    if name.Some? && NameAt(v).Some? {
      NameIsNulFree(from, source);
      NameWritten(v, raw, name.value);
      NameInWindow(v, Load(v, raw, Dump(from, source)), Take(name.value, NAME_COPIED));
    }
  }

  lemma FieldsKeptThrough(v: Variant, a: Raw, b: Raw, c: Raw, d: Raw)
    requires RawOf(v, a) && RawOf(v, b) && RawOf(v, c) && RawOf(v, d)
    requires (a == b || OtherFieldsKept(v, a, b, {})) && OtherFieldsKept(v, b, c, {})
    requires c == d || OtherFieldsKept(v, c, d, {OsVersion})
    ensures OtherFieldsKept(v, a, d, {OsVersion})
    ensures Get(v, c, OsVersion) == Get(v, a, OsVersion)
  {
    hide Get, HdrSize;
  }

  lemma NameIsNulFree(v: Variant, raw: Raw)
    requires RawOf(v, raw) && Name(v, raw).Some?
    ensures NulFree(Name(v, raw).value)
  {
  }

  lemma NameWritten(v: Variant, raw: Raw, name: bytes)
    requires RawOf(v, raw) && NameAt(v).Some?
    ensures NameWindow(v, SetName(v, raw, name)) == ZeroPadded(Take(name, NAME_COPIED), NAME_CLEARED)
  {
    hide HdrSize, NameAt, ZeroPadded;
  }

  /** The OS version and patch level are the source's exactly when they were, or the source has some and the layout a field for them. */
  lemma VersionReproduced(from: Variant, source: Raw, v: Variant, raw: Raw)
    requires RawOf(from, source) && RawOf(v, raw)
    ensures Get(v, Load(v, raw, Dump(from, source)), OsVersion) == Get(from, source, OsVersion)
       <==> Get(v, raw, OsVersion) == Get(from, source, OsVersion)
            || (Get(from, source, OsVersion) != 0 && Offset(v, OsVersion).Some?)
  {
    hide Get, Offset, HdrSize, Dump, Load, Cmdline, Name, NameWindow, OtherFieldsKept;
    DumpLoads(from, source, v, raw);
    if Offset(v, OsVersion).None? { AbsentVersion(v, raw); }
  }

  /** Dumping the loaded header gives the same file again exactly when the name fits and a version of zero meets no other. */
  lemma FileReproduced(v: Variant, source: Raw, raw: Raw)
    requires RawOf(v, source) && RawOf(v, raw)
    ensures Dump(v, Load(v, raw, Dump(v, source))) == Dump(v, source)
       <==> (Name(v, source).Some? ==> |Name(v, source).value| <= NAME_COPIED)
            && (Get(v, source, OsVersion) != 0 || Get(v, raw, OsVersion) == 0)
  {
    hide Get, Offset, HdrSize, Load, Cmdline, NameWindow, OtherFieldsKept, CStr, PrintVersion, PrintPatch;
    DumpLoads(v, source, v, raw);
    var r := Load(v, raw, Dump(v, source));
    if Offset(v, OsVersion).None? {
      AbsentVersion(v, raw);
      AbsentVersion(v, source);
    }
    if Name(v, source).Some? {
      assert Dump(v, source)[0] == Line("name", Name(v, source).value);
      assert Dump(v, r)[0] == Line("name", Name(v, r).value);
    }
  }

  /** A version 3 header without OS version, loaded onto one with version bits set: those stay. */
  lemma NoVersionLeavesTargets()
    ensures var source, target := Zeros(HdrSize(V3)), Set(V3, Zeros(HdrSize(V3)), OsVersion, 1);
            Get(V3, source, OsVersion) == 0 && Get(V3, Load(V3, target, Dump(V3, source)), OsVersion) == 1
  {
    hide Load, Dump, Get, Set;
    var source := Zeros(HdrSize(V3));
    GetAfterSet(V3, source, OsVersion, 1, OsVersion);
    ZeroVersion();
    DumpLoads(V3, source, V3, Set(V3, source, OsVersion, 1));
  }

  lemma ZeroVersion()
    ensures Get(V3, Zeros(HdrSize(V3)), OsVersion) == 0 && Offset(V3, OsVersion).Some?
  {
  }

  // ----- the lines by their text

  const TEN := "0123456789"

  /** Decimal digits, most significant first; two of them at least where two are asked for. */
  lemma DigitsByText(n: nat, d: nat)
    requires d < 10
    ensures |TEN| == 10 && Digits(d) == [TEN[d] as int] && TwoDigits(d) == ['0' as int, TEN[d] as int]
    ensures n > 0 ==> Digits(10 * n + d) == Digits(n) + Digits(d) && TwoDigits(10 * n + d) == Digits(10 * n + d)
    ensures forall b :: IsDigit(b) <==> exists i :: 0 <= i < 10 && TEN[i] as int == b
  {
    assert forall b :: IsDigit(b) ==> TEN[b - 48] as int == b;
  }

  /** What `%d` skips: blanks, tabs and line ends. */
  predicate Blank(s: bytes) {
    forall i :: 0 <= i < |s| ==> s[i] == 0x20 || 9 <= s[i] <= 13
  }

  lemma {:induction false} BlanksSkipped(blanks: bytes, s: bytes)
    requires Blank(blanks) && s != [] && !Blank([s[0]])
    ensures SkipBlanks(blanks + s) == s
    decreases blanks
  {
    if blanks == [] {
      assert blanks + s == s && [s[0]][0] == s[0];
    } else {
      assert (blanks + s)[1..] == blanks[1..] + s;
      BlanksSkipped(blanks[1..], s);
    }
  }

  lemma ScanBehindBlanks(blanks: bytes, s: bytes)
    requires Blank(blanks) && s != [] && !(s[0] == 0x20 || 9 <= s[0] <= 13)
    ensures ScanInt(blanks + s) == ScanInt(s)
  {
    hide Scan, SkipBlanks;
    assert [s[0]][0] == s[0] && [] + s == s;
    BlanksSkipped(blanks, s);
    BlanksSkipped([], s);
  }

  /** A number is read behind any blanks, with a sign or without. */
  lemma SignedNumber(blanks: bytes, n: nat, rest: bytes)
    requires Blank(blanks) && (rest != [] ==> !('0' as int <= rest[0] <= '9' as int))
    ensures ScanInt(blanks + (Digits(n) + rest)) == Some((n, rest))
    ensures ScanInt(blanks + (Ascii("+") + Digits(n) + rest)) == Some((n, rest))
    ensures var negative: int := 0 - n; ScanInt(blanks + (Ascii("-") + Digits(n) + rest)) == Some((negative, rest))
  {
    hide Digits, Scan, ScanInt;
    DigitsStart(n);
    SignsRead(n, rest);
    ScanBehindBlanks(blanks, Digits(n) + rest);
    ScanBehindBlanks(blanks, Ascii("+") + Digits(n) + rest);
    ScanBehindBlanks(blanks, Ascii("-") + Digits(n) + rest);
  }

  lemma SignsRead(n: nat, rest: bytes)
    requires rest != [] ==> !('0' as int <= rest[0] <= '9' as int)
    ensures ScanInt(Digits(n) + rest) == Some((n, rest)) && ScanInt(Ascii("+") + Digits(n) + rest) == Some((n, rest))
    ensures var negative: int := 0 - n; ScanInt(Ascii("-") + Digits(n) + rest) == Some((negative, rest))
  {
    hide Digits, Scan;
    DigitsStart(n);
    ScanNumber(n, rest);
    var plain, plus, minus := Digits(n) + rest, Ascii("+") + Digits(n) + rest, Ascii("-") + Digits(n) + rest;
    assert plus[1..] == plain && minus[1..] == plain;
  }

  /** "a.b.c" and "y-mm" */
  function VersionText(a: nat, b: nat, c: nat): bytes {
    Digits(a) + Ascii(".") + Digits(b) + Ascii(".") + Digits(c)
  }

  function PatchText(y: nat, m: nat): bytes {
    Digits(y) + Ascii("-") + TwoDigits(m)
  }

  lemma TextsArePrinted(a: nat, b: nat, c: nat, y: nat, m: nat)
    ensures VersionText(a, b, c) == PrintVersion(a, b, c) && PatchText(y, m) == PrintPatch(y, m)
  {
    hide Digits, TwoDigits;
    assert Ascii(".") == [DOT] && Ascii("-") == [DASH];
  }

  /** An OS version "a.b.c" of a patch level "y-m" is dumped as these two lines. */
  lemma VersionLinesByText(a: nat, b: nat, c: nat, y: nat, m: nat)
    requires a < 128 && b < 128 && c < 128 && 2000 <= y < 2128 && m < 16
    ensures var ver := (a * 16384 + b * 128 + c) * 2048 + (y - 2000) * 16 + m;
            ver != 0 ==> VersionLines(ver) == [Line("os_version", VersionText(a, b, c)), Line("os_patch_level", PatchText(y, m))]
  {
    hide PrintVersion, PrintPatch, VersionText, PatchText;
    Unpacked(a, b, c, y - 2000, m);
    TextsArePrinted(a, b, c, y, m);
  }

  lemma Unpacked(a: nat, b: nat, c: nat, y: nat, m: nat)
    requires a < 128 && b < 128 && c < 128 && y < 128 && m < 16
    ensures var ver := (a * 16384 + b * 128 + c) * 2048 + y * 16 + m;
            var version, patch := ver / 2048, ver % 2048;
            && version / 16384 % 128 == a && version / 128 % 128 == b && version % 128 == c && patch / 16 == y && patch % 16 == m
  {
    var version := a * 16384 + b * 128 + c;
    assert (version * 2048 + (y * 16 + m)) / 2048 == version;
    assert version / 128 == a * 128 + b;
  }

  /** Seven bits for each part of the version, above the eleven of the patch level: seven for the years since 2000, four for the month. */
  function PackedVersion(a: nat, b: nat, c: nat, patch: nat): u32
    requires a < 128 && b < 128 && c < 128 && patch < 2048
  {
    (a * 16384 + b * 128 + c) * 2048 + patch
  }

  function RepackedPatch(was: u32, y: nat, m: nat): u32
    requires 2000 <= y < 2128 && m < 16
  {
    was / 2048 * 2048 + (y - 2000) * 16 + m
  }

  /** Main result: what the two version lines of a header file do, by their texts. */
  lemma VersionLinesLoaded(v: Variant, raw: Raw, a: nat, b: nat, c: nat, y: nat, m: nat)
    requires RawOf(v, raw) && a < 128 && b < 128 && c < 128 && 2000 <= y < 2128 && m < 16
    ensures LoadLine(v, raw, Line("os_version", VersionText(a, b, c)))
         == Set(v, raw, OsVersion, PackedVersion(a, b, c, Get(v, raw, OsVersion) % 2048))
    ensures LoadLine(v, raw, Line("os_patch_level", PatchText(y, m)))
         == Set(v, raw, OsVersion, RepackedPatch(Get(v, raw, OsVersion), y, m))
  {
    hide PrintVersion, PrintPatch, VersionText, PatchText, ScanAll, WithVersion, WithPatch, Get, Set, SetName, SetCmdline, HdrSize;
    TextsArePrinted(a, b, c, y, m);
    VersionScans(a, b, c);
    PatchScans(y, m);
    VersionPacked(Get(v, raw, OsVersion), a, b, c);
    PatchPacked(Get(v, raw, OsVersion), y, m);
  }

  /** The other two lines set the texts, and a line of any other key changes nothing. */
  lemma OtherLinesLoaded(v: Variant, raw: Raw, l: Line)
    requires RawOf(v, raw)
    ensures l.key == "name" ==> LoadLine(v, raw, l) == SetName(v, raw, l.value)
    ensures l.key == "cmdline" ==> LoadLine(v, raw, l) == SetCmdline(v, raw, l.value)
    ensures l.key !in {"name", "cmdline", "os_version", "os_patch_level"} ==> LoadLine(v, raw, l) == raw
  {
    hide ScanAll, WithVersion, WithPatch, Get, Set, SetName, SetCmdline, HdrSize;
  }
}
