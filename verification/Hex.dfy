/** The hexadecimal numbers of an archive header: printing (`{:08x}`) and parsing (`x8u`). */
module Hex {
  import opened Bytes

  function Digit(d: nat): (c: byte)
    requires d < 16
  {
    if d < 10 then 48 + d else 87 + d
  }

  /** Value of an ASCII hexadecimal digit of either case. */
  function DigitValue(c: byte): (v: Option<nat>)
    ensures v.Some? ==> v.value < 16
  {
    if 48 <= c <= 57 then Some(c - 48)
    else if 97 <= c <= 102 then Some(c - 87)
    else if 65 <= c <= 70 then Some(c - 55)
    else None
  }

  const SMALL_DIGITS := "0123456789abcdef"
  const LARGE_DIGITS := "0123456789ABCDEF"

  /** The sixteen digits: small ones are written, both cases are read, and nothing else is. */
  lemma DigitsExactly(d: nat, c: byte)
    requires d < 16
    ensures |SMALL_DIGITS| == |LARGE_DIGITS| == 16 && Digit(d) == SMALL_DIGITS[d] as int
    ensures DigitValue(c) == Some(d) <==> c == SMALL_DIGITS[d] as int || c == LARGE_DIGITS[d] as int
  {
  }

  /** `n` in lower-case hexadecimal, zero-padded on the left to at least `width` digits. */
  function Print(n: nat, width: nat): (s: bytes)
    decreases n, width
  {
    if n < 16 && width <= 1 then [Digit(n)]
    else Print(n / 16, if width > 0 then width - 1 else 0) + [Digit(n % 16)]
  }

  function Parse(s: bytes): (v: Option<nat>) {
    if s == [] then Some(0)
    else match (Parse(s[..|s| - 1]), DigitValue(s[|s| - 1]))
      case (Some(hi), Some(lo)) => Some(hi * 16 + lo)
      case _ => None
  }

  function Pow16(w: nat): nat {
    if w == 0 then 1 else 16 * Pow16(w - 1)
  }

  lemma {:induction false} ParsePrint(n: nat, width: nat)
    ensures Parse(Print(n, width)) == Some(n)
    decreases n, width
  {
    if n < 16 && width <= 1 {
      assert Parse([]) == Some(0);
    } else {
      var front := Print(n / 16, if width > 0 then width - 1 else 0);
      ParsePrint(n / 16, if width > 0 then width - 1 else 0);
      assert Print(n, width)[..|front|] == front;
    }
  }

  lemma {:induction false} PrintLength(n: nat, width: nat)
    requires 1 <= width && n < Pow16(width)
    ensures |Print(n, width)| == width
    decreases width
  {
    if width > 1 { PrintLength(n / 16, width - 1); }
  }

  lemma {:induction false} ParseBelow(s: bytes)
    ensures Parse(s).Some? ==> Parse(s).value < Pow16(|s|)
  {
    if s != [] { ParseBelow(s[..|s| - 1]); }
  }

  lemma {:induction false} ParsePrefix(s: bytes, i: nat)
    requires i <= |s| && Parse(s[..i]).None?
    ensures Parse(s).None?
    decreases |s| - i
  {
    if i < |s| {
      assert s[..i + 1][..i] == s[..i];
      ParsePrefix(s, i + 1);
    } else {
      assert s[..i] == s;
    }
  }

  lemma EightDigits()
    ensures Pow16(8) == U32
  {
    assert Pow16(4) == 65536;
    assert Pow16(8) == 16 * (16 * (16 * (16 * Pow16(4))));
  }

  /** What a header field of eight characters reads as; the value never overflows 32 bits. */
  function Field(s: bytes): (v: Option<u32>)
    requires |s| == 8
    ensures v == Parse(s)
  {
    ParseBelow(s);
    EightDigits();
    Parse(s)
  }

  lemma FieldOfPrint(n: u32)
    ensures |Print(n, 8)| == 8
    ensures Field(Print(n, 8)) == Some(n)
  {
    EightDigits();
    PrintLength(n, 8);
    ParsePrint(n, 8);
  }

  /** `x8u`: the digit loop, whose accumulator stays within 32 bits. */
  method X8u(x: bytes) returns (r: Option<u32>)
    requires |x| == 8
    ensures r == Field(x)
  {
    var ret: u32 := 0;
    EightDigits();
    for i := 0 to 8
      invariant Parse(x[..i]) == Some(ret)
    {
      assert x[..i + 1][..i] == x[..i];
      match DigitValue(x[i]) {
        case None =>
          ParsePrefix(x, i + 1);
          return None;
        case Some(d) =>
          ParseBelow(x[..i + 1]);
          PowMonotone(i + 1, 8);
          ret := ret * 16 + d;
      }
    }
    assert x[..8] == x;
    return Some(ret);
  }

  lemma {:induction false} PowMonotone(a: nat, b: nat)
    requires a <= b
    ensures 0 < Pow16(a) <= Pow16(b)
    decreases b
  {
    if a < b {
      PowMonotone(a, b - 1);
    } else if a > 0 {
      PowMonotone(a - 1, b - 1);
    }
  }
}
