/**
 * RSA public keys in the two forms `AdbKeyManager` writes: SSH blobs (section 6.6 of RFC 4253, with
 * the mpint of section 5 of RFC 4251) and Android's fixed-size form for 2048-bit keys.
 */
module AdbKey {
  import opened Bytes

  /** Big-endian exponent and modulus. */
  datatype Key = Key(exponent: bytes, modulus: bytes)

  const MODULUS_SIZE := 256
  const SSH_RSA: bytes := Ascii("ssh-rsa")

  // ----- unsigned big-endian numbers

  function Value(s: bytes): nat {
    if s == [] then 0 else Value(s[..|s| - 1]) * 256 + s[|s| - 1]
  }

  function Pow256(n: nat): (p: nat)
    ensures p > 0
  {
    if n == 0 then 1 else 256 * Pow256(n - 1)
  }

  function Trim(s: bytes): (t: bytes)
    ensures |t| <= |s| && (t != [] ==> t[0] != 0)
  {
    if s != [] && s[0] == 0 then Trim(s[1..]) else s
  }

  lemma {:induction false} ZeroInFront(s: bytes)
    ensures Value([0] + s) == Value(s)
    decreases s
  {
    if s == [] {
      assert ([0] + s)[..0] == [];
    } else {
      ZeroInFront(s[..|s| - 1]);
      assert ([0] + s)[..|s|] == [0] + s[..|s| - 1];
    }
  }

  lemma {:induction false} ZerosInFront(n: nat, s: bytes)
    ensures Value(Zeros(n) + s) == Value(s)
    decreases n
  {
    if n == 0 {
      assert Zeros(0) + s == s;
    } else {
      assert Zeros(n) + s == [0] + (Zeros(n - 1) + s);
      ZeroInFront(Zeros(n - 1) + s);
      ZerosInFront(n - 1, s);
    }
  }

  lemma {:induction false} TrimKeepsValue(s: bytes)
    ensures Value(Trim(s)) == Value(s)
    decreases s
  {
    if s != [] && s[0] == 0 {
      TrimKeepsValue(s[1..]);
      ZeroInFront(s[1..]);
      assert s == [0] + s[1..];
    }
  }

  lemma {:induction false} ValueBelow(s: bytes)
    ensures Value(s) < Pow256(|s|)
    decreases s
  {
    if s != [] { ValueBelow(s[..|s| - 1]); }
  }

  /** A number without leading zero is as long as it is large. */
  lemma {:induction false} ValueAbove(s: bytes)
    requires s != [] && s[0] != 0
    ensures Value(s) >= Pow256(|s| - 1)
    decreases s
  {
    if |s| > 1 { ValueAbove(s[..|s| - 1]); } else { assert s[..0] == []; }
  }

  lemma {:induction false} PowersGrow(m: nat, n: nat)
    requires m <= n
    ensures Pow256(m) <= Pow256(n)
    decreases n
  {
    if m < n { PowersGrow(m, n - 1); }
  }

  lemma SameLastDigit(x: nat, d: byte, y: nat, e: byte)
    requires x * 256 + d == y * 256 + e
    ensures x == y && d == e
  {
  }

  /** A value has only one form without leading zeros. */
  lemma {:induction false} TrimmedIsUnique(a: bytes, b: bytes)
    requires a != [] ==> a[0] != 0
    requires b != [] ==> b[0] != 0
    requires Value(a) == Value(b)
    ensures a == b
    decreases a
  {
    if a == [] || b == [] {
      if a != [] { ValueAbove(a); }
      if b != [] { ValueAbove(b); }
    } else {
      var x, y := a[..|a| - 1], b[..|b| - 1];
      SameLastDigit(Value(x), a[|a| - 1], Value(y), b[|b| - 1]);
      hide Value;
      TrimmedIsUnique(x, y);
      assert a == x + [a[|a| - 1]] && b == y + [b[|b| - 1]];
    }
  }

  // ----- SSH

  function SshString(data: bytes): (r: bytes)
    requires |data| < U32
    ensures |r| == 4 + |data|
  {
    BE32(|data|) + data
  }

  /** The contents of the mpint for an unsigned number. */
  function Mpint(s: bytes): (r: bytes)
    ensures |r| <= |s| + 1
  {
    var t := Trim(s);
    if t == [] || t[0] >= 128 then [0] + t else t
  }

  /** Section 5 of RFC 4251: not negative, and no byte that could be left out; zero has no bytes at all. */
  predicate NonNegative(m: bytes) {
    m == [] || m[0] < 128
  }

  predicate Minimal(m: bytes) {
    !(m != [] && m[0] == 0 && (|m| == 1 || m[1] < 128))
  }

  /** Every mpint written has the number's value and is not negative; it is minimal exactly when the number is not zero. */
  lemma MpintIsMinimal(s: bytes)
    ensures Value(Mpint(s)) == Value(s) && NonNegative(Mpint(s))
    ensures Minimal(Mpint(s)) <==> Value(s) != 0
  {
    var t := Trim(s);
    TrimKeepsValue(s);
    ZeroInFront(t);
    if t != [] { ValueAbove(t); }
  }

  /** Zero is written as one zero byte. */
  lemma ZeroHasAByte()
    ensures Mpint([0]) == [0] && !Minimal(Mpint([0]))
  {
  }

  predicate Encodable(k: Key) {
    |k.exponent| + 1 < 0x8000_0000 && |k.modulus| + 1 < 0x8000_0000
  }

  function EncodeSsh(k: Key): bytes
    requires Encodable(k)
  {
    SshString(SSH_RSA) + SshString(Mpint(k.exponent)) + SshString(Mpint(k.modulus))
  }

  /** One length-prefixed string at `pos`; reading past the end fails. */
  function ReadString(s: bytes, pos: nat): Option<bytes> {
    if pos + 4 > |s| then None
    else if pos + 4 + ReadBE32(s, pos) > |s| then None
    else Some(s[pos + 4..pos + 4 + ReadBE32(s, pos)])
  }

  function ParseSsh(s: bytes): Option<Key> {
    var algo := ReadString(s, 0);
    if algo.None? || algo.value != SSH_RSA then None
    else
      var exponent := ReadString(s, 4 + |algo.value|);
      if exponent.None? then None
      else
        var modulus := ReadString(s, 8 + |algo.value| + |exponent.value|);
        if modulus.None? then None else Some(Key(exponent.value, modulus.value))
  }

  lemma StringRead(s: bytes, pos: nat, data: bytes)
    requires |data| < U32 && Holds(s, pos, SshString(data))
    ensures ReadString(s, pos) == Some(data)
  {
    hide BE32;
    ReadBE32OfBE32(|data|);
    HoldsConcat(s, pos, BE32(|data|), data);
    HoldsPointwise(s, pos, BE32(|data|));
    assert forall i :: 0 <= i < 4 ==> s[pos + i] == BE32(|data|)[i];
  }

  /** A string is read exactly where its length and bytes stand. */
  lemma StringReadExactly(s: bytes, pos: nat, data: bytes)
    ensures ReadString(s, pos) == Some(data) <==> |data| < U32 && Holds(s, pos, SshString(data))
  {
    if |data| < U32 && Holds(s, pos, SshString(data)) {
      StringRead(s, pos, data);
    } else if ReadString(s, pos) == Some(data) {
      hide BE32;
      var n := ReadBE32(s, pos);
      assert s[pos..pos + 4] == [s[pos], s[pos + 1], s[pos + 2], s[pos + 3]];
      BytesOfWord(s[pos], s[pos + 1], s[pos + 2], s[pos + 3]);
      HoldsConcat(s, pos, BE32(n), data);
    }
  }

  lemma BytesOfWord(a: byte, b: byte, c: byte, d: byte)
    ensures BE32(16777216 * a + 65536 * b + 256 * c + d) == [a, b, c, d]
  {
    var p, q: nat := b + 256 * a, c + 256 * (b + 256 * a);
    var n := d + 256 * q;
    assert n / 256 == q && q / 256 == p && p / 256 == a;
    assert n / 65536 == q / 256 && n / 16777216 == p / 256;
  }

  /** Main result: a blob gives a key exactly when it begins with the algorithm's name and the key's two strings. */
  lemma ParsesExactly(s: bytes, k: Key)
    ensures ParseSsh(s) == Some(k)
       <==> |k.exponent| < U32 && |k.modulus| < U32
            && StartsWith(s, SshString(Ascii("ssh-rsa")) + SshString(k.exponent) + SshString(k.modulus))
  {
    hide ReadString, SshString, Ascii, Holds;
    var algo := Ascii("ssh-rsa");
    SshRsaLength();
    assert algo == SSH_RSA && |algo| == 7;
    StringReadExactly(s, 0, algo);
    StringReadExactly(s, 11, k.exponent);
    StringReadExactly(s, 15 + |k.exponent|, k.modulus);
    if |k.exponent| < U32 && |k.modulus| < U32 {
      var a, e, m := SshString(algo), SshString(k.exponent), SshString(k.modulus);
      HoldsConcat(s, 0, a + e, m);
      HoldsConcat(s, 0, a, e);
      StartHolds(s, a + e + m);
    }
  }

  lemma StartHolds(s: bytes, p: bytes)
    ensures StartsWith(s, p) <==> Holds(s, 0, p)
  {
  }

  /** Parsing an encoded key gives its numbers as mpints, whatever follows the blob. */
  lemma ParseOfEncode(k: Key, rest: bytes)
    requires Encodable(k)
    ensures ParseSsh(EncodeSsh(k) + rest) == Some(Key(Mpint(k.exponent), Mpint(k.modulus)))
  {
    hide ReadString, SshString, Mpint, SSH_RSA;
    assert |SSH_RSA| == 7 by { SshRsaLength(); }
    var a, e, m := SshString(SSH_RSA), SshString(Mpint(k.exponent)), SshString(Mpint(k.modulus));
    var s := EncodeSsh(k) + rest;
    HoldsMiddle([], a, e + m + rest);
    assert [] + a + (e + m + rest) == s;
    HoldsMiddle(a, e, m + rest);
    assert a + e + (m + rest) == s;
    HoldsMiddle(a + e, m, rest);
    StringRead(s, 0, SSH_RSA);
    StringRead(s, |a|, Mpint(k.exponent));
    StringRead(s, |a + e|, Mpint(k.modulus));
  }

  lemma SshRsaLength()
    ensures |SSH_RSA| == 7
  {
  }

  // ----- Android

  /** The last 256 significant bytes, or fewer behind zeros. */
  function FixedModulus(modulus: bytes): (r: bytes)
    ensures |r| == MODULUS_SIZE
  {
    var t := Trim(modulus);
    if |t| < MODULUS_SIZE then Zeros(MODULUS_SIZE - |t|) + t else t[|t| - MODULUS_SIZE..]
  }

  /** Words in the modulus, exponent, modulus; the exponent keeps its low 32 bits. */
  function EncodeAndroid(k: Key): (r: bytes)
    ensures |r| == 8 + MODULUS_SIZE
  {
    LE32(MODULUS_SIZE / 4) + LE32(Value(k.exponent) % U32) + FixedModulus(k.modulus)
  }

  /** The Android form depends on the numbers only, not on how many zeros stand before them. */
  lemma AndroidOfValues(a: Key, b: Key)
    requires Value(a.exponent) == Value(b.exponent) && Value(a.modulus) == Value(b.modulus)
    ensures EncodeAndroid(a) == EncodeAndroid(b)
  {
    hide LE32, Value;
    TrimKeepsValue(a.modulus);
    TrimKeepsValue(b.modulus);
    TrimmedIsUnique(Trim(a.modulus), Trim(b.modulus));
  }

  /**
   * Main result: the Android form of the key parsed from its SSH blob is that of the original key,
   * for keys of any size and whatever follows the blob.
   */
  lemma KeyReencoded(k: Key, rest: bytes)
    requires Encodable(k)
    ensures ParseSsh(EncodeSsh(k) + rest).Some?
    ensures EncodeAndroid(ParseSsh(EncodeSsh(k) + rest).value) == EncodeAndroid(k)
  {
    hide ParseSsh, EncodeSsh, EncodeAndroid, Mpint;
    ParseOfEncode(k, rest);
    MpintIsMinimal(k.exponent);
    MpintIsMinimal(k.modulus);
    AndroidOfValues(Key(Mpint(k.exponent), Mpint(k.modulus)), k);
  }

  /** The bytes behind a prefix count below the prefix's place. */
  lemma {:induction false} ValueOfBoth(a: bytes, b: bytes)
    ensures Value(a + b) == Value(a) * Pow256(|b|) + Value(b)
    decreases b
  {
    if b == [] {
      assert a + b == a;
    } else {
      var c, d := b[..|b| - 1], b[|b| - 1];
      assert (a + b)[..|a + b| - 1] == a + c;
      ValueOfBoth(a, c);
      assert Value(a) * Pow256(|b|) == Value(a) * Pow256(|c|) * 256;
    }
  }

  /** The low 2048 bits. */
  lemma FixedModulusIsLow(modulus: bytes)
    ensures Value(FixedModulus(modulus)) == Value(modulus) % Pow256(256)
  {
    hide Value, Pow256;
    var t, f := Trim(modulus), FixedModulus(modulus);
    TrimKeepsValue(modulus);
    ValueBelow(f);
    if |t| < 256 {
      ZerosInFront(256 - |t|, t);
      DivModUnique(Value(f), Pow256(256), 0, Value(f));
    } else {
      var high := t[..|t| - 256];
      assert t == high + f;
      ValueOfBoth(high, f);
      DivModUnique(Value(t), Pow256(256), Value(high), Value(f));
    }
  }

  /**
   * The Android form is 264 bytes: 64 words, the exponent's low 32 bits, and the low 2048 bits of the
   * modulus; so the modulus survives exactly when it has at most 256 significant bytes, the exponent
   * exactly when it is below 2^32.
   */
  lemma AndroidIsFaithful(k: Key)
    ensures var r := EncodeAndroid(k);
            && |r| == 264 && ReadLE32(r, 0) == 64
            && ReadLE32(r, 4) == Value(k.exponent) % 0x1_0000_0000
            && Value(r[8..]) == Value(k.modulus) % Pow256(256)
            && (ReadLE32(r, 4) == Value(k.exponent) <==> Value(k.exponent) < 0x1_0000_0000)
            && (Value(r[8..]) == Value(k.modulus) <==> |Trim(k.modulus)| <= 256)
  {
    hide Value, LE32, Pow256;
    var r := EncodeAndroid(k);
    AndroidWords(k);
    assert r[8..] == FixedModulus(k.modulus);
    FixedModulusValue(k.modulus);
    FixedModulusIsLow(k.modulus);
  }

  lemma AndroidWords(k: Key)
    ensures ReadLE32(EncodeAndroid(k), 0) == 64 && ReadLE32(EncodeAndroid(k), 4) == Value(k.exponent) % U32
  {
    hide Value, LE32;
    var r, e := EncodeAndroid(k), Value(k.exponent) % U32;
    ReadLE32OfLE32(64);
    ReadLE32OfLE32(e);
    assert forall i :: 0 <= i < 4 ==> r[i] == LE32(64)[i] && r[4 + i] == LE32(e)[i];
  }

  lemma FixedModulusValue(modulus: bytes)
    ensures Value(FixedModulus(modulus)) == Value(modulus) <==> |Trim(modulus)| <= MODULUS_SIZE
  {
    hide Value;
    var t, f := Trim(modulus), FixedModulus(modulus);
    TrimKeepsValue(modulus);
    if |t| < MODULUS_SIZE {
      ZerosInFront(MODULUS_SIZE - |t|, t);
    } else if |t| > MODULUS_SIZE {
      ValueBelow(f);
      ValueAbove(t);
      PowersGrow(MODULUS_SIZE, |t| - 1);
    } else {
      assert f == t;
    }
  }

  /** Of keys that fit, two have the same Android form exactly when they are the same numbers. */
  lemma AndroidTellsKeysApart(a: Key, b: Key)
    requires Value(a.exponent) < U32 && |Trim(a.modulus)| <= MODULUS_SIZE
    requires Value(b.exponent) < U32 && |Trim(b.modulus)| <= MODULUS_SIZE
    ensures EncodeAndroid(a) == EncodeAndroid(b) <==> Value(a.exponent) == Value(b.exponent) && Value(a.modulus) == Value(b.modulus)
  {
    hide Value, EncodeAndroid, Trim;
    AndroidIsFaithful(a);
    AndroidIsFaithful(b);
    if Value(a.exponent) == Value(b.exponent) && Value(a.modulus) == Value(b.modulus) { AndroidOfValues(a, b); }
  }

  // ----- the class's methods

  class MemoryStream {
    var data: bytes

    constructor ()
      ensures data == []
    {
      data := [];
    }

    method Write(b: bytes)
      modifies this
      ensures data == old(data) + b
    {
      data := data + b;
    }
  }

  method WriteSshString(ms: MemoryStream, data: bytes)
    requires |data| < U32
    modifies ms
    ensures ms.data == old(ms.data) + SshString(data)
  {
    hide BE32;
    ms.Write(BE32(|data|));
    ms.Write(data);
  }

  /** How many zeros stand in front. */
  method LeadingZeros(s: bytes) returns (start: nat)
    ensures start <= |s| && s[start..] == Trim(s)
  {
    start := 0;
    assert s[0..] == s;
    while start < |s| && s[start] == 0
      invariant start <= |s| && Trim(s[start..]) == Trim(s)
    {
      assert s[start..][1..] == s[start + 1..];
      start := start + 1;
    }
  }

  method WriteSshMpint(ms: MemoryStream, data: bytes)
    requires |data| + 1 < 0x8000_0000
    modifies ms
    ensures ms.data == old(ms.data) + SshString(Mpint(data))
  {
    hide SshString;
    var start := LeadingZeros(data);
    var trimmed := if start < |data| then data[start..] else [];
    if trimmed == [] || trimmed[0] >= 128 {
      trimmed := [0] + trimmed;
    }
    WriteSshString(ms, trimmed);
  }

  method EncodeSshRsaPublicKey(k: Key) returns (blob: bytes)
    requires Encodable(k)
    ensures blob == EncodeSsh(k)
  {
    SshRsaLength();
    hide SshString, Mpint, SSH_RSA;
    var ms := new MemoryStream();
    WriteSshString(ms, SSH_RSA);
    WriteSshMpint(ms, k.exponent);
    WriteSshMpint(ms, k.modulus);
    blob := ms.data;
  }

  /** The parser with its running position; an index past the end is caught and means no key. */
  method ParseSshRsaPublicKey(sshEncoded: bytes) returns (key: Option<Key>)
    ensures key == ParseSsh(sshEncoded)
  {
    hide ReadBE32, SSH_RSA;
    var pos := 0;
    if pos + 4 > |sshEncoded| { return None; }
    var algoLen := ReadBE32(sshEncoded, pos);
    pos := pos + 4;
    if pos + algoLen > |sshEncoded| { return None; }
    var algo := sshEncoded[pos..pos + algoLen];
    pos := pos + algoLen;
    if algo != SSH_RSA { return None; }
    if pos + 4 > |sshEncoded| { return None; }
    var expLen := ReadBE32(sshEncoded, pos);
    pos := pos + 4;
    if pos + expLen > |sshEncoded| { return None; }
    var exponent := sshEncoded[pos..pos + expLen];
    pos := pos + expLen;
    if pos + 4 > |sshEncoded| { return None; }
    var modLen := ReadBE32(sshEncoded, pos);
    pos := pos + 4;
    if pos + modLen > |sshEncoded| { return None; }
    key := Some(Key(exponent, sshEncoded[pos..pos + modLen]));
  }

  /** `(value << 8) | b` over the exponent's bytes, in 32 bits. */
  method FoldExponent(exponent: bytes) returns (exponentValue: u32)
    ensures exponentValue == Value(exponent) % U32
  {
    exponentValue := 0;
    for i := 0 to |exponent|
      invariant exponentValue == Value(exponent[..i]) % U32
    {
      assert exponent[..i + 1][..i] == exponent[..i];
      ShiftedIn(Value(exponent[..i]), exponent[i]);
      exponentValue := exponentValue * 256 % U32 + exponent[i];
    }
    assert exponent[..|exponent|] == exponent;
  }

  lemma ShiftedIn(v: nat, b: byte)
    ensures v % U32 * 256 % U32 + b == (v * 256 + b) % U32
  {
    var q, r := v / U32, v % U32;
    var h, l := r / 16777216, r % 16777216;
    assert r * 256 == h * U32 + l * 256;
    Remainder(r * 256, h, l * 256);
    Remainder(v * 256 + b, q * 256 + h, l * 256 + b);
  }

  lemma Remainder(n: nat, q: nat, r: nat)
    requires n == q * U32 + r && r < U32
    ensures n % U32 == r
  {
  }

  method EncodeAndroidPubkeyModulus(k: Key) returns (result: bytes)
    ensures result == EncodeAndroid(k)
  {
    hide Value, LE32;
    var modulus := k.modulus;
    var start := LeadingZeros(modulus);
    if start > 0 { modulus := modulus[start..]; }
    assert modulus == Trim(k.modulus) by { assert k.modulus[0..] == k.modulus; }
    if |modulus| < MODULUS_SIZE {
      modulus := Zeros(MODULUS_SIZE - |modulus|) + modulus;
    } else if |modulus| > MODULUS_SIZE {
      modulus := modulus[|modulus| - MODULUS_SIZE..];
    }
    assert modulus == FixedModulus(k.modulus);
    var exponentValue := FoldExponent(k.exponent);
    result := LE32(|modulus| / 4) + LE32(exponentValue) + modulus;
  }
}
