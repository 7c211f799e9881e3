/** Bytes, fixed-width integers and the small sequence facts every format here needs. */
module Bytes {
  type byte = b: int | 0 <= b < 256
  type bytes = seq<byte>

  const U32: int := 0x1_0000_0000
  const U64: int := 0x1_0000_0000_0000_0000

  type u32 = n: int | 0 <= n < 0x1_0000_0000
  type u64 = n: int | 0 <= n < 0x1_0000_0000_0000_0000

  datatype Option<+T> = None | Some(value: T)

  /** `n` zero bytes. */
  function Zeros(n: nat): (z: bytes)
    ensures |z| == n && forall i :: 0 <= i < n ==> z[i] == 0
  {
    seq(n, _ => 0)
  }

  /** Four bytes, least significant first. */
  function LE32(n: u32): (b: bytes)
    ensures |b| == 4
  {
    [n % 256, n / 256 % 256, n / 65536 % 256, n / 16777216]
  }

  /** Four bytes, most significant first. */
  function BE32(n: u32): (b: bytes)
    ensures |b| == 4
  {
    [n / 16777216, n / 65536 % 256, n / 256 % 256, n % 256]
  }

  /** The little-endian 32-bit number at `at`. */
  function ReadLE32(s: bytes, at: nat): (n: u32)
    requires at + 4 <= |s|
  {
    s[at] as int + 256 * (s[at + 1] as int) + 65536 * (s[at + 2] as int) + 16777216 * (s[at + 3] as int)
  }

  /** The big-endian 32-bit number at `at`. */
  function ReadBE32(s: bytes, at: nat): (n: u32)
    requires at + 4 <= |s|
  {
    16777216 * (s[at] as int) + 65536 * (s[at + 1] as int) + 256 * (s[at + 2] as int) + s[at + 3] as int
  }

  lemma ReadBE32OfBE32(n: u32)
    ensures ReadBE32(BE32(n), 0) == n
  {
    var q, h := n / 256, n / 65536;
    assert h == q / 256 && n / 16777216 == h / 256;
    assert n == n % 256 + 256 * q && q == q % 256 + 256 * h && h == h % 256 + 256 * (h / 256);
  }

  lemma ReadLE32OfLE32(n: u32)
    ensures ReadLE32(LE32(n), 0) == n
  {
    var q, h := n / 256, n / 65536;
    assert h == q / 256 && n / 16777216 == h / 256;
    assert n == n % 256 + 256 * q && q == q % 256 + 256 * h && h == h % 256 + 256 * (h / 256);
  }

  /** `s` with `patch` laid over the bytes from `at` on. */
  function Overwrite(s: bytes, at: nat, patch: bytes): (t: bytes)
    requires at + |patch| <= |s|
    ensures |t| == |s|
    ensures t[at..at + |patch|] == patch
    ensures forall i :: 0 <= i < |s| && !(at <= i < at + |patch|) ==> t[i] == s[i]
    ensures forall i :: 0 <= i < |patch| ==> t[at + i] == patch[i]
  {
    s[..at] + patch + s[at + |patch|..]
  }

  /** `piece` stands in `s` from `at` on. */
  predicate Holds(s: bytes, at: nat, piece: bytes) {
    at + |piece| <= |s| && s[at..at + |piece|] == piece
  }

  lemma HoldsPointwise(s: bytes, at: nat, piece: bytes)
    ensures Holds(s, at, piece)
       <==> at + |piece| <= |s| && forall i :: 0 <= i < |piece| ==> s[at + i] == piece[i]
  {
    if at + |piece| <= |s| {
      var t := s[at..at + |piece|];
      assert forall i :: 0 <= i < |piece| ==> t[i] == s[at + i];
    }
  }

  lemma HoldsConcat(s: bytes, at: nat, a: bytes, b: bytes)
    ensures Holds(s, at, a + b) <==> Holds(s, at, a) && Holds(s, at + |a|, b)
  {
    HoldsPointwise(s, at, a);
    HoldsPointwise(s, at + |a|, b);
    HoldsPointwise(s, at, a + b);
    var c := a + b;
    if Holds(s, at, c) {
      forall i | 0 <= i < |b| ensures s[at + |a| + i] == b[i] {
        assert c[|a| + i] == b[i];
        assert s[at + (|a| + i)] == c[|a| + i];
      }
      forall i | 0 <= i < |a| ensures s[at + i] == a[i] { assert c[i] == a[i]; }
    }
    if Holds(s, at, a) && Holds(s, at + |a|, b) {
      forall i | 0 <= i < |c| ensures s[at + i] == c[i] {
        if i >= |a| { assert s[at + |a| + (i - |a|)] == b[i - |a|]; }
      }
    }
  }

  lemma HoldsMiddle(pre: bytes, piece: bytes, rest: bytes)
    ensures Holds(pre + piece + rest, |pre|, piece)
  {
    HoldsPointwise(pre + piece + rest, |pre|, piece);
  }

  /** A slice of a piece is held where the piece is. */
  lemma HoldsPart(s: bytes, at: nat, piece: bytes, i: nat, j: nat)
    requires Holds(s, at, piece) && i <= j <= |piece|
    ensures Holds(s, at + i, piece[i..j])
  {
    assert piece == piece[..i] + (piece[i..j] + piece[j..]);
    HoldsConcat(s, at, piece[..i], piece[i..j] + piece[j..]);
    HoldsConcat(s, at + i, piece[i..j], piece[j..]);
  }

  predicate StartsWith(s: bytes, prefix: bytes) {
    |prefix| <= |s| && s[..|prefix|] == prefix
  }

  lemma Differ(s: bytes, p: bytes, i: nat)
    requires i < |p| && i < |s| && s[i] != p[i]
    ensures !StartsWith(s, p)
  {
    if |p| <= |s| { assert s[..|p|][i] != p[i]; }
  }

  predicate EndsWith(s: bytes, suffix: bytes) {
    |suffix| <= |s| && s[|s| - |suffix|..] == suffix
  }

  predicate NulFree(s: bytes) {
    forall i :: 0 <= i < |s| ==> s[i] != 0
  }

  /** The bytes of an ASCII literal. */
  function Ascii(s: string): (b: bytes)
    requires forall i :: 0 <= i < |s| ==> s[i] < 128 as char
    ensures |b| == |s| && forall i :: 0 <= i < |s| ==> b[i] == s[i] as int
  {
    seq(|s|, i requires 0 <= i < |s| => s[i] as int)
  }

  // ----- machine integers and slices

  /** A number in 32 bits, read with a sign. */
  function Int32(n: int): int {
    (n + 0x8000_0000) % U32 - 0x8000_0000
  }

  /** Up to `n` bytes from `at` on: what lies past the end is not there. */
  function Slice(img: bytes, at: nat, n: nat): (s: bytes)
    ensures |s| <= n && (at + n <= |img| ==> s == img[at..at + n])
  {
    if at + n <= |img| then img[at..at + n] else if at <= |img| then img[at..] else []
  }

  /** The little-endian word at `at`, 0 where there is none. */
  function Word(img: bytes, at: int): u32 {
    if 0 <= at && at + 4 <= |img| then ReadLE32(img, at) else 0
  }

  lemma WordHeld(s: bytes, at: nat, n: u32)
    requires Holds(s, at, LE32(n))
    ensures at + 4 <= |s| && ReadLE32(s, at) == n
  {
    ReadLE32OfLE32(n);
    HoldsPointwise(s, at, LE32(n));
    assert forall i :: 0 <= i < 4 ==> s[at + i] == LE32(n)[i];
  }

  lemma OverwriteNothing(s: bytes, at: nat)
    requires at <= |s|
    ensures Overwrite(s, at, []) == s
  {
  }

  /** Bytes up to the first zero. */
  function CStr(s: bytes): (c: bytes)
    ensures |c| <= |s| && NulFree(c) && (|c| < |s| ==> s[|c|] == 0)
  {
    if s == [] || s[0] == 0 then [] else [s[0]] + CStr(s[1..])
  }

  function Min(a: int, b: int): int { if a <= b then a else b }

  // ----- quotients and remainders

  lemma {:induction false} MultipleMod(q: nat, a: nat)
    requires a > 0
    ensures (q * a) % a == 0
    decreases q
  {
    if q > 0 {
      MultipleMod(q - 1, a);
      assert q * a == (q - 1) * a + a;
      assert ((q - 1) * a + a) % a == ((q - 1) * a) % a by { AddModulus((q - 1) * a, a); }
    }
  }

  lemma DivModUnique(n: nat, a: nat, q: nat, r: nat)
    requires n == q * a + r && r < a
    ensures n / a == q && n % a == r
  {
    var k, m := n / a, n % a;
    assert n == k * a + m;
    if k > q {
      Scaled(k, q, a);
    } else if q > k {
      Scaled(q, k, a);
    }
  }

  lemma {:induction false} Scaled(k: nat, q: nat, a: nat)
    requires k > q
    ensures k * a >= q * a + a
    decreases k
  {
    assert k * a == (k - 1) * a + a;
    if k > q + 1 { Scaled(k - 1, q, a); }
  }

  lemma AddModulus(x: nat, a: nat)
    requires a > 0
    ensures (x + a) % a == x % a
  {
    var q, r := x / a, x % a;
    assert x + a == (q + 1) * a + r;
    DivModUnique(x + a, a, q + 1, r);
  }
}
