/**
 * Removing mount flags from an fstab text in place: the matcher of `match_patterns!` and the
 * overlapping read/write compaction of `remove_pattern`.
 */
module TextPatch {
  import opened Bytes

  const COMMA: byte := 0x2C
  const EQUALS: byte := 0x3D

  const VERITY: seq<bytes> := [Ascii("verifyatboot"), Ascii("verify"), Ascii("avb_keys"), Ascii("avb"),
                               Ascii("support_scfs"), Ascii("fsverity")]
  const ENCRYPTION: seq<bytes> := [Ascii("forceencrypt"), Ascii("forcefdeorfbe"), Ascii("fileencryption")]

  /** The characters that end a flag's value. */
  predicate Ends(c: byte) {
    c == 0x20 || c == 0x0A || c == 0
  }

  /** Number of leading characters before the first ending one. */
  function Run(s: bytes): (n: nat)
    ensures n <= |s|
    ensures forall i :: 0 <= i < n ==> !Ends(s[i])
    ensures n < |s| ==> Ends(s[n])
  {
    if s == [] || Ends(s[0]) then 0 else 1 + Run(s[1..])
  }

  function Lead(s: bytes): (n: nat)
    requires s != []
    ensures n <= 1
  {
    if s[0] == COMMA then 1 else 0
  }

  /** Index of the first listed pattern `s` starts with; `|patterns|` when there is none. */
  function FirstPattern(patterns: seq<bytes>, s: bytes): (k: nat)
    ensures k <= |patterns|
    ensures k < |patterns| ==> StartsWith(s, patterns[k])
    ensures forall i :: 0 <= i < k ==> !StartsWith(s, patterns[i])
  {
    if patterns == [] || StartsWith(s, patterns[0]) then 0 else 1 + FirstPattern(patterns[1..], s)
  }

  /** Length of a value that starts with `=`; anything else has none. */
  function ValueLength(s: bytes): (n: nat)
    ensures n <= |s|
  {
    if s != [] && s[0] == EQUALS then Run(s) else 0
  }

  predicate Usable(patterns: seq<bytes>) {
    forall i :: 0 <= i < |patterns| ==> patterns[i] != []
  }

  /** How much to remove from the front of `s`, if a flag stands there. */
  function Match(patterns: seq<bytes>, s: bytes): (r: Option<nat>)
    requires s != [] && Usable(patterns)
    ensures r.Some? ==> 0 < r.value <= |s|
  {
    var b := s[Lead(s)..];
    var k := FirstPattern(patterns, b);
    if b == [] || k == |patterns| then None
    else Some(Lead(s) + |patterns[k]| + ValueLength(b[|patterns[k]|..]))
  }

  /** The text without its flags, read from left to right. */
  function Filtered(patterns: seq<bytes>, s: bytes): (r: bytes)
    requires Usable(patterns)
    ensures |r| <= |s|
  {
    if s == [] then []
    else
      match Match(patterns, s)
      case Some(n) => Filtered(patterns, s[n..])
      case None => [s[0]] + Filtered(patterns, s[1..])
  }

  /** The `else if` chain of the macro. */
  method FindPattern(patterns: seq<bytes>, b: bytes) returns (k: nat)
    ensures k == FirstPattern(patterns, b)
  {
    k := 0;
    while k < |patterns| && !StartsWith(b, patterns[k])
      invariant k <= |patterns|
      invariant FirstPattern(patterns, b) == k + FirstPattern(patterns[k..], b)
    {
      assert patterns[k..][1..] == patterns[k + 1..];
      k := k + 1;
    }
  }

  /** The value loop of the macro. */
  method FindEnd(v: bytes) returns (i: nat)
    ensures i == Run(v)
  {
    i := 0;
    while i < |v| && !Ends(v[i])
      invariant i <= |v| && Run(v) == i + Run(v[i..])
    {
      assert v[i..][1..] == v[i + 1..];
      i := i + 1;
    }
  }

  /** The macro: an optional comma, the first pattern that fits, then `=` and its value. */
  method MatchPatterns(patterns: seq<bytes>, buf: bytes) returns (r: Option<nat>)
    requires buf != [] && Usable(patterns)
    ensures r == Match(patterns, buf)
  {
    hide FirstPattern, Run;
    var len := if buf[0] == COMMA then 1 else 0;
    var b := buf[len..];
    if b == [] {
      return None;
    }
    var k := FindPattern(patterns, b);
    if k == |patterns| {
      return None;
    }
    len := len + |patterns[k]|;
    var v := buf[len..];
    assert v == b[|patterns[k]|..];
    if v != [] && v[0] == EQUALS {
      var i := FindEnd(v);
      len := len + i;
    }
    return Some(len);
  }

  /** One turn of the compaction, on what is still unread. */
  lemma FilteredStep(patterns: seq<bytes>, text: bytes, read: nat)
    requires Usable(patterns) && read < |text|
    ensures match Match(patterns, text[read..])
      case Some(n) => read + n <= |text| && Filtered(patterns, text[read..]) == Filtered(patterns, text[read + n..])
      case None => Filtered(patterns, text[read..]) == [text[read]] + Filtered(patterns, text[read + 1..])
  {
    var s := text[read..];
    assert s[1..] == text[read + 1..];
    match Match(patterns, s)
    case Some(n) => assert s[n..] == text[read + n..];
    case None =>
  }

  method FillZero(buf: array<byte>, from: nat)
    requires from <= buf.Length
    modifies buf
    ensures buf[..] == old(buf[..from]) + Zeros(buf.Length - from)
  {
    var i := from;
    while i < buf.Length
      invariant from <= i <= buf.Length
      invariant forall j :: 0 <= j < from ==> buf[j] == old(buf[j])
      invariant forall j :: from <= j < i ==> buf[j] == 0
    {
      buf[i] := 0;
      i := i + 1;
    }
  }

  /**
   * Compacts the buffer in place: the filtered text, then zeros. Bytes not yet read are never
   * overwritten, and the result is the length of the filtered text.
   */
  method RemovePattern(patterns: seq<bytes>, buf: array<byte>) returns (sz: nat)
    requires Usable(patterns)
    modifies buf
    ensures sz == |Filtered(patterns, old(buf[..]))|
    ensures buf[..] == Filtered(patterns, old(buf[..])) + Zeros(buf.Length - sz)
  {
    hide Filtered, Match;
    ghost var text := buf[..];
    ghost var all := Filtered(patterns, text);
    var write, read := 0, 0;
    sz := buf.Length;
    assert text[0..] == text;
    while read < buf.Length
      invariant write <= read <= buf.Length && |text| == buf.Length
      invariant sz == buf.Length - (read - write)
      invariant forall i :: read <= i < buf.Length ==> buf[i] == text[i]
      invariant all == buf[..write] + Filtered(patterns, text[read..])
    {
      assert buf[read..] == text[read..];
      var found := MatchPatterns(patterns, buf[read..]);
      FilteredStep(patterns, text, read);
      match found
      case Some(len) =>
        sz := sz - len;
        read := read + len;
      case None =>
        ghost var before := buf[..write];
        buf[write] := buf[read];
        assert buf[..write + 1] == before + [text[read]];
        write := write + 1;
        read := read + 1;
    }
    EmptyStaysEmpty(patterns);
    assert text[read..] == [];
    FillZero(buf, write);
  }

  lemma EmptyStaysEmpty(patterns: seq<bytes>)
    requires Usable(patterns)
    ensures Filtered(patterns, []) == []
  {
  }

  // ----- what is removed

  /** Whether some pattern stands at the front of `s`, after an optional comma. */
  predicate FlagAhead(patterns: seq<bytes>, s: bytes)
    requires s != []
  {
    exists k :: 0 <= k < |patterns| && StartsWith(s[Lead(s)..], patterns[k])
  }

  /**
   * The first `n` characters are one flag: an optional comma, the pattern, and a value that is
   * empty or starts with `=` and runs to the first space, newline or NUL.
   */
  predicate IsFlag(pattern: bytes, s: bytes, n: nat)
    requires s != []
  {
    var at := Lead(s) + |pattern|;
    && at <= n <= |s| && StartsWith(s[Lead(s)..], pattern)
    && (forall i :: at <= i < n ==> !Ends(s[i]))
    && (if n == at then n == |s| || s[n] != EQUALS else s[at] == EQUALS && (n < |s| ==> Ends(s[n])))
  }

  /** The matcher finds a flag exactly when a pattern stands there, and takes all of it. */
  lemma MatchExactly(patterns: seq<bytes>, s: bytes)
    requires Usable(patterns) && s != []
    ensures Match(patterns, s).Some? <==> FlagAhead(patterns, s)
    ensures Match(patterns, s).Some? ==>
              exists k :: 0 <= k < |patterns| && IsFlag(patterns[k], s, Match(patterns, s).value)
  {
    hide FirstPattern, Run;
    var b := s[Lead(s)..];
    var k := FirstPattern(patterns, b);
    if k < |patterns| && b != [] {
      FlagTaken(patterns[k], s);
    }
  }

  lemma FlagTaken(pattern: bytes, s: bytes)
    requires pattern != [] && s != [] && StartsWith(s[Lead(s)..], pattern)
    ensures IsFlag(pattern, s, Lead(s) + |pattern| + ValueLength(s[Lead(s)..][|pattern|..]))
  {
    hide Run;
    var at, rest := Lead(s) + |pattern|, s[Lead(s)..][|pattern|..];
    assert forall i :: at <= i < |s| ==> rest[i - at] == s[i];
  }

  /** No earlier pattern begins a later one, so that of several that stand there the longest is taken. */
  predicate LongestFirst(patterns: seq<bytes>) {
    forall i, k :: 0 <= i < k < |patterns| ==> !StartsWith(patterns[k], patterns[i])
  }

  /** Behind an optional comma, the longest listed flag that stands there goes with its value. */
  lemma LongestTaken(patterns: seq<bytes>, s: bytes)
    requires Usable(patterns) && LongestFirst(patterns) && s != [] && Match(patterns, s).Some?
    ensures exists k :: 0 <= k < |patterns| && IsFlag(patterns[k], s, Match(patterns, s).value) && LongestIn(patterns, s, k)
  {
    hide Run;
    var b := s[Lead(s)..];
    var k := FirstPattern(patterns, b);
    FlagTaken(patterns[k], s);
    forall i | 0 <= i < |patterns| && StartsWith(b, patterns[i]) ensures |patterns[i]| <= |patterns[k]| {
      BothStand(b, patterns[k], patterns[i]);
    }
  }

  predicate LongestIn(patterns: seq<bytes>, s: bytes, k: nat)
    requires s != [] && k < |patterns|
  {
    forall i :: 0 <= i < |patterns| && StartsWith(s[Lead(s)..], patterns[i]) ==> |patterns[i]| <= |patterns[k]|
  }

  predicate FlagFree(patterns: seq<bytes>, s: bytes) {
    forall i :: 0 <= i < |s| ==> !FlagAhead(patterns, s[i..])
  }

  lemma FlagFreeStep(patterns: seq<bytes>, s: bytes)
    requires s != []
    ensures FlagFree(patterns, s) <==> !FlagAhead(patterns, s) && FlagFree(patterns, s[1..])
  {
    hide FlagAhead;
    assert s[0..] == s;
    assert forall i :: 0 <= i < |s| - 1 ==> s[1..][i..] == s[i + 1..];
    if FlagFree(patterns, s[1..]) && !FlagAhead(patterns, s) {
      forall i | 0 <= i < |s| ensures !FlagAhead(patterns, s[i..]) {
        if i > 0 { assert s[1..][i - 1..] == s[i..]; }
      }
    }
  }

  /** The filter leaves a text alone exactly when no flag stands anywhere in it. */
  lemma {:induction false} FilteredFixed(patterns: seq<bytes>, s: bytes)
    requires Usable(patterns)
    ensures Filtered(patterns, s) == s <==> FlagFree(patterns, s)
  {
    hide Match, FlagAhead, FlagFree;
    if s == [] {
      FlagFreeEmpty(patterns);
    } else {
      MatchExactly(patterns, s);
      FlagFreeStep(patterns, s);
      FilteredFixed(patterns, s[1..]);
      if Match(patterns, s).None? {
        assert s == [s[0]] + s[1..] && Filtered(patterns, s)[1..] == Filtered(patterns, s[1..]);
      }
    }
  }

  lemma FlagFreeEmpty(patterns: seq<bytes>)
    ensures FlagFree(patterns, [])
  {
  }

  // ----- a second pass

  /** The bytes that stay of `s` begin with `p`: each is compared where it stands, and flags between them are skipped. */
  predicate Spelled(patterns: seq<bytes>, p: bytes, s: bytes)
    requires Usable(patterns)
    decreases |s|
  {
    p == [] ||
    (s != [] &&
     match Match(patterns, s)
     case Some(n) => Spelled(patterns, p, s[n..])
     case None => s[0] == p[0] && Spelled(patterns, p[1..], s[1..]))
  }

  lemma {:induction false} SpelledExactly(patterns: seq<bytes>, p: bytes, s: bytes)
    requires Usable(patterns)
    ensures StartsWith(Filtered(patterns, s), p) <==> Spelled(patterns, p, s)
    decreases |s|
  {
    hide Match;
    if s != [] && p != [] {
      var m := Match(patterns, s);
      if m.Some? {
        SpelledExactly(patterns, p, s[m.value..]);
      } else {
        SpelledExactly(patterns, p[1..], s[1..]);
        SnocStarts(s[0], Filtered(patterns, s[1..]), p);
      }
    }
  }

  lemma SnocStarts(c: byte, rest: bytes, p: bytes)
    requires p != []
    ensures StartsWith([c] + rest, p) <==> p[0] == c && StartsWith(rest, p[1..])
  {
    if p[0] == c && StartsWith(rest, p[1..]) {
      assert ([c] + rest)[..|p|] == p;
    }
    if StartsWith([c] + rest, p) {
      var t := ([c] + rest)[..|p|];
      assert t[0] == c && t[1..] == rest[..|p| - 1];
    }
  }

  /** From the kept byte at the front of `s` on, behind a comma there, the kept bytes spell one of the flags. */
  predicate SpellsFlag(flags: seq<bytes>, patterns: seq<bytes>, s: bytes)
    requires Usable(patterns) && s != []
  {
    exists k :: 0 <= k < |flags| && Spelled(patterns, flags[k], s[Lead(s)..])
  }

  /** Somewhere in `s`, what stays when the patterns are removed spells one of the flags. */
  predicate LeavesFlag(flags: seq<bytes>, patterns: seq<bytes>, s: bytes)
    requires Usable(patterns)
    decreases |s|
  {
    s != [] &&
    match Match(patterns, s)
    case Some(n) => LeavesFlag(flags, patterns, s[n..])
    case None => SpellsFlag(flags, patterns, s) || LeavesFlag(flags, patterns, s[1..])
  }

  /** What stays around removed flags joins into a new one of them. */
  predicate Rejoins(patterns: seq<bytes>, s: bytes)
    requires Usable(patterns)
  {
    LeavesFlag(patterns, patterns, s)
  }

  lemma SpellsFlagExactly(flags: seq<bytes>, patterns: seq<bytes>, s: bytes)
    requires Usable(patterns) && s != [] && Match(patterns, s).None?
    ensures FlagAhead(flags, Filtered(patterns, s)) <==> SpellsFlag(flags, patterns, s)
  {
    hide Match, Spelled, StartsWith;
    var once, rest := Filtered(patterns, s), Filtered(patterns, s[1..]);
    assert once == [s[0]] + rest && once[1..] == rest;
    forall k | 0 <= k < |flags|
      ensures StartsWith(once[Lead(once)..], flags[k]) <==> Spelled(patterns, flags[k], s[Lead(s)..])
    {
      SpelledExactly(patterns, flags[k], s);
      SpelledExactly(patterns, flags[k], s[1..]);
      assert once[0..] == once && s[0..] == s;
    }
  }

  /** A text that was rid of the patterns is free of the flags exactly when what stays spells none. */
  lemma {:induction false} LeavesFlagExactly(flags: seq<bytes>, patterns: seq<bytes>, s: bytes)
    requires Usable(patterns)
    ensures FlagFree(flags, Filtered(patterns, s)) <==> !LeavesFlag(flags, patterns, s)
    decreases |s|
  {
    hide Match, FlagAhead, FlagFree, SpellsFlag;
    if s == [] {
      FlagFreeEmpty(flags);
    } else {
      var m := Match(patterns, s);
      if m.Some? {
        LeavesFlagExactly(flags, patterns, s[m.value..]);
      } else {
        var once := Filtered(patterns, s);
        SpellsFlagExactly(flags, patterns, s);
        FlagFreeStep(flags, once);
        assert once[1..] == Filtered(patterns, s[1..]);
        LeavesFlagExactly(flags, patterns, s[1..]);
      }
    }
  }

  /** Main result: a second pass changes nothing exactly when no kept bytes join into a flag across removed ones. */
  lemma FilteredTwice(patterns: seq<bytes>, s: bytes)
    requires Usable(patterns)
    ensures Filtered(patterns, Filtered(patterns, s)) == Filtered(patterns, s) <==> !Rejoins(patterns, s)
  {
    hide Filtered, FlagFree, LeavesFlag;
    FilteredFixed(patterns, Filtered(patterns, s));
    LeavesFlagExactly(patterns, patterns, s);
  }

  /** No pattern contains this byte. */
  predicate Separates(patterns: seq<bytes>, c: byte) {
    forall k :: 0 <= k < |patterns| ==> c !in patterns[k]
  }

  /** Behind every removed flag the text ends, or another flag or a separating byte follows. */
  predicate WellSeparated(patterns: seq<bytes>, s: bytes)
    requires Usable(patterns)
    decreases |s|
  {
    s == [] ||
    match Match(patterns, s)
    case Some(n) =>
      (n == |s| || Match(patterns, s[n..]).Some? || Separates(patterns, s[n])) && WellSeparated(patterns, s[n..])
    case None => WellSeparated(patterns, s[1..])
  }

  /** Behind a flag no rest of a pattern can be spelled. */
  lemma {:induction false} NothingBehindFlag(patterns: seq<bytes>, k: nat, from: nat, s: bytes)
    requires Usable(patterns) && WellSeparated(patterns, s) && s != [] && Match(patterns, s).Some?
    requires k < |patterns| && from < |patterns[k]|
    ensures !Spelled(patterns, patterns[k][from..], s)
    decreases |s|
  {
    hide Match;
    var rest, p := s[Match(patterns, s).value..], patterns[k][from..];
    if rest != [] {
      if Match(patterns, rest).Some? {
        NothingBehindFlag(patterns, k, from, rest);
      } else {
        assert p[0] == patterns[k][from] && p[0] in patterns[k];
      }
    }
  }

  /** In a well separated text, what is spelled from a kept byte on stands there. */
  lemma {:induction false} SpelledStands(patterns: seq<bytes>, k: nat, from: nat, s: bytes)
    requires Usable(patterns) && WellSeparated(patterns, s) && k < |patterns| && from <= |patterns[k]|
    requires Spelled(patterns, patterns[k][from..], s)
    ensures StartsWith(s, patterns[k][from..])
    decreases |s|
  {
    hide Match;
    var p := patterns[k][from..];
    if p != [] {
      if Match(patterns, s).Some? {
        NothingBehindFlag(patterns, k, from, s);
      } else {
        assert p[1..] == patterns[k][from + 1..];
        SpelledStands(patterns, k, from + 1, s[1..]);
        SnocStarts(s[0], s[1..], p);
        assert s == [s[0]] + s[1..];
      }
    }
  }

  lemma {:induction false} SeparatedNeverRejoins(patterns: seq<bytes>, s: bytes)
    requires Usable(patterns) && WellSeparated(patterns, s)
    ensures !Rejoins(patterns, s)
    decreases |s|
  {
    hide Match, FlagAhead, Spelled;
    if s != [] {
      var m := Match(patterns, s);
      if m.Some? {
        SeparatedNeverRejoins(patterns, s[m.value..]);
      } else {
        SeparatedNeverRejoins(patterns, s[1..]);
        NothingSpelledHere(patterns, s);
      }
    }
  }

  lemma NothingSpelledHere(patterns: seq<bytes>, s: bytes)
    requires Usable(patterns) && s != [] && WellSeparated(patterns, s) && Match(patterns, s).None?
    ensures !SpellsFlag(patterns, patterns, s)
  {
    MatchExactly(patterns, s);
    hide Match, Spelled, StartsWith;
    forall k | 0 <= k < |patterns| ensures !Spelled(patterns, patterns[k], s[Lead(s)..]) {
      assert patterns[k][0..] == patterns[k] && s[0..] == s;
      if Spelled(patterns, patterns[k], s[Lead(s)..]) { SpelledStands(patterns, k, 0, s[Lead(s)..]); }
    }
  }

  /** One pass is enough for every text whose removed flags are followed by the end, a separating byte or another flag. */
  lemma OnePassIsEnough(patterns: seq<bytes>, s: bytes)
    requires Usable(patterns) && WellSeparated(patterns, s)
    ensures Filtered(patterns, Filtered(patterns, s)) == Filtered(patterns, s)
  {
    hide Filtered, Rejoins, WellSeparated;
    SeparatedNeverRejoins(patterns, s);
    FilteredTwice(patterns, s);
  }

  lemma NoFlag(s: bytes)
    requires s != [] && s[0] != COMMA && Usable(VERITY)
    requires forall k :: 0 <= k < |VERITY| ==>
               |s| < |VERITY[k]| || s[0] != VERITY[k][0] || (|VERITY[k]| > 3 && s[3] != VERITY[k][3])
    ensures Match(VERITY, s).None?
  {
    assert s[0..] == s;
    forall k | 0 <= k < |VERITY| ensures !StartsWith(s, VERITY[k]) {
      if |s| >= |VERITY[k]| { Differ(s, VERITY[k], if s[0] != VERITY[k][0] then 0 else 3); }
    }
  }

  lemma VerityFirstBytes()
    ensures Usable(VERITY) && |VERITY| == 6
    ensures |VERITY[0]| == |VERITY[4]| == 12 && |VERITY[1]| == 6 && |VERITY[2]| == |VERITY[5]| == 8 && |VERITY[3]| == 3
    ensures VERITY[0][0] == VERITY[1][0] == 0x76 && VERITY[2][0] == VERITY[3][0] == 0x61
    ensures VERITY[4][0] == 0x73 && VERITY[5][0] == 0x66 && VERITY[1][3] == 0x69
  {
  }

  lemma UnflaggedByteStays(text: bytes, read: nat)
    requires Usable(VERITY) && read < |text| && Match(VERITY, text[read..]).None?
    ensures Filtered(VERITY, text[read..]) == [text[read]] + Filtered(VERITY, text[read + 1..])
  {
    hide Match, VERITY;
    FilteredStep(VERITY, text, read);
  }

  /** The end of the text below holds no flag. */
  lemma EndStays(text: bytes)
    requires |text| == 9 && text[6..] == [0x69, 0x66, 0x79] && Usable(VERITY)
    ensures Filtered(VERITY, text[6..]) == [0x69, 0x66, 0x79]
  {
    VerityFirstBytes();
    assert text[6] == text[6..][0] && text[7] == text[6..][1] && text[8] == text[6..][2];
    hide VERITY;
    NoFlag(text[6..]);
    NoFlag(text[7..]);
    NoFlag(text[8..]);
    hide Match;
    assert text[9..] == [];
    EmptyStaysEmpty(VERITY);
    UnflaggedByteStays(text, 6);
    UnflaggedByteStays(text, 7);
    UnflaggedByteStays(text, 8);
  }

  /**
   * Filtering is not idempotent: in "veravbify" the flag "avb" goes, its neighbours join into
   * the flag "verify", and a second pass removes that too.
   */
  lemma FilteringIsNotIdempotent()
    ensures Usable(VERITY)
    ensures Filtered(VERITY, Ascii("veravbify")) == Ascii("verify")
    ensures Filtered(VERITY, Ascii("verify")) == []
  {
    hide Match, VERITY;
    VerityFirstBytes();
    var text := Ascii("veravbify");
    assert text == [0x76, 0x65, 0x72, 0x61, 0x76, 0x62, 0x69, 0x66, 0x79];
    assert text[0..] == text;
    EndStays(text);
    NoFlag(text[0..]);
    NoFlag(text[1..]);
    NoFlag(text[2..]);
    AvbMatches(text[3..]);
    FilteredStep(VERITY, text, 3);
    UnflaggedByteStays(text, 2);
    UnflaggedByteStays(text, 1);
    UnflaggedByteStays(text, 0);
    VerifyMatches(Ascii("verify"));
  }

  lemma AvbMatches(s: bytes)
    requires s == [0x61, 0x76, 0x62, 0x69, 0x66, 0x79] && Usable(VERITY)
    ensures Match(VERITY, s) == Some(3)
  {
    assert s[0..] == s && s[..3] == VERITY[3] && StartsWith(s, VERITY[3]);
    VerityFirstBytes();
    Differ(s, VERITY[0], 0);
    Differ(s, VERITY[1], 0);
    assert s[3..][0] != EQUALS;
  }

  lemma VerifyMatches(s: bytes)
    requires s == Ascii("verify") && Usable(VERITY)
    ensures Match(VERITY, s) == Some(6) && Filtered(VERITY, s) == []
  {
    assert s[0..] == s && s[..6] == VERITY[1] && StartsWith(s, VERITY[1]);
    VerityFirstBytes();
    assert s[6..] == [];
  }

  // ----- one flag in a line

  /** The bytes that separate flags, values and lines. */
  const SEPARATORS: seq<byte> := [0x2C, 0x3D, 0x20, 0x0A, 0]

  /** Flags are spelled without them, and none begins a later one. */
  predicate Plain(patterns: seq<bytes>) {
    Usable(patterns) && LongestFirst(patterns) && forall i :: 0 <= i < |SEPARATORS| ==> Separates(patterns, SEPARATORS[i])
  }

  /** A value of a flag, or none. */
  predicate IsValue(value: bytes) {
    value != [] ==> value[0] == 0x3D && 0x20 !in value && 0x0A !in value && 0 !in value
  }

  /** What can follow: nothing, a blank, the end of the line or of the text, and a comma behind a flag without a value. */
  predicate Follows(value: bytes, rest: bytes) {
    rest != [] ==> rest[0] in {0x20, 0x0A, 0} || (value == [] && rest[0] == 0x2C)
  }

  function FlagText(comma: bool, flag: bytes, value: bytes): bytes {
    (if comma then [0x2C] else []) + flag + value
  }

  lemma {:induction false} RunOfValue(value: bytes, rest: bytes)
    requires 0x20 !in value && 0x0A !in value && 0 !in value && (rest != [] ==> rest[0] in {0x20, 0x0A, 0})
    ensures Run(value + rest) == |value|
    decreases value
  {
    if value != [] {
      assert (value + rest)[1..] == value[1..] + rest;
      RunOfValue(value[1..], rest);
    } else {
      assert value + rest == rest;
    }
  }

  lemma LengthOfValue(value: bytes, rest: bytes)
    requires IsValue(value) && Follows(value, rest)
    ensures ValueLength(value + rest) == |value|
  {
    hide Run;
    if value == [] {
      assert value + rest == rest;
    } else {
      RunOfValue(value, rest);
    }
  }

  /** Before a separator, a flag is the first pattern that stands there. */
  lemma FlagFirst(patterns: seq<bytes>, k: nat, tail: bytes)
    requires Plain(patterns) && k < |patterns| && (tail != [] ==> tail[0] in SEPARATORS)
    ensures FirstPattern(patterns, patterns[k] + tail) == k
  {
    hide FirstPattern;
    var b := patterns[k] + tail;
    assert b[..|patterns[k]|] == patterns[k];
    FirstIs(patterns, b, k);
  }

  lemma FirstIs(patterns: seq<bytes>, b: bytes, k: nat)
    requires k < |patterns| && StartsWith(b, patterns[k]) && Plain(patterns)
    requires |b| > |patterns[k]| ==> b[|patterns[k]|] in SEPARATORS
    ensures FirstPattern(patterns, b) == k
  {
    var first := FirstPattern(patterns, b);
    FirstAtMost(patterns, b, k);
    BothStand(b, patterns[first], patterns[k]);
    if |b| > |patterns[k]| { NoSeparatorInside(patterns, b[|patterns[k]|]); }
    hide FirstPattern, StartsWith;
  }

  /** Of two pieces that begin a text, the shorter begins the longer, which holds the byte behind it. */
  lemma BothStand(b: bytes, p: bytes, q: bytes)
    requires StartsWith(b, p) && StartsWith(b, q)
    ensures |p| <= |q| ==> StartsWith(q, p)
    ensures |q| < |p| ==> b[|q|] in p
  {
    if |p| <= |q| {
      assert q[..|p|] == b[..|p|];
    } else {
      assert p[|q|] == b[|q|];
    }
  }

  lemma NoSeparatorInside(patterns: seq<bytes>, c: byte)
    requires Plain(patterns) && c in SEPARATORS
    ensures Separates(patterns, c)
  {
    var i :| 0 <= i < |SEPARATORS| && SEPARATORS[i] == c;
    assert Separates(patterns, SEPARATORS[i]);
  }

  lemma {:induction false} FirstAtMost(patterns: seq<bytes>, b: bytes, k: nat)
    requires k < |patterns| && StartsWith(b, patterns[k])
    ensures FirstPattern(patterns, b) <= k
    decreases k
  {
    if !StartsWith(b, patterns[0]) { FirstAtMost(patterns[1..], b, k - 1); }
  }

  /** Main result: a flag with its value, and the comma before it, goes; what follows is read on. */
  lemma FlagGoes(patterns: seq<bytes>, k: nat, comma: bool, value: bytes, rest: bytes)
    requires Plain(patterns) && k < |patterns| && IsValue(value) && Follows(value, rest)
    ensures Filtered(patterns, FlagText(comma, patterns[k], value) + rest) == Filtered(patterns, rest)
  {
    var flag := FlagText(comma, patterns[k], value);
    FlagMatched(patterns, k, comma, value, rest);
    hide Match, FlagText, Plain;
    assert (flag + rest)[0..] == flag + rest && (flag + rest)[|flag|..] == rest;
    FilteredStep(patterns, flag + rest, 0);
  }

  lemma FlagMatched(patterns: seq<bytes>, k: nat, comma: bool, value: bytes, rest: bytes)
    requires Plain(patterns) && k < |patterns| && IsValue(value) && Follows(value, rest)
    ensures var flag := FlagText(comma, patterns[k], value); flag != [] && Match(patterns, flag + rest) == Some(|flag|)
  {
    hide FirstPattern, ValueLength, Plain, IsValue, Follows;
    var s := FlagText(comma, patterns[k], value) + rest;
    TailSeparated(value, rest);
    FlagFirst(patterns, k, value + rest);
    LengthOfValue(value, rest);
    FlagNotComma(patterns, k);
    var b := s[if comma then 1 else 0..];
    assert b == patterns[k] + (value + rest) && b[|patterns[k]|..] == value + rest;
  }

  lemma TailSeparated(value: bytes, rest: bytes)
    requires IsValue(value) && Follows(value, rest)
    ensures value + rest != [] ==> (value + rest)[0] in SEPARATORS
  {
  }

  lemma FlagNotComma(patterns: seq<bytes>, k: nat)
    requires Plain(patterns) && k < |patterns|
    ensures Usable(patterns) && patterns[k] != [] && patterns[k][0] != COMMA
  {
    assert Separates(patterns, SEPARATORS[0]);
    assert patterns[k][0] in patterns[k];
  }

  /** Small letters and underscores are no separators. */
  lemma Letters(text: string)
    requires text != [] && forall i :: 0 <= i < |text| ==> '_' <= text[i] <= 'z'
    ensures Ascii(text) != [] && forall i :: 0 <= i < |SEPARATORS| ==> SEPARATORS[i] !in Ascii(text)
  {
  }

  /** A list of such names, none of which begins a later one, is plain. */
  lemma PlainNames(patterns: seq<bytes>, names: seq<string>)
    requires |patterns| == |names| && LongestFirst(patterns)
    requires forall k :: 0 <= k < |names| ==> names[k] != [] && forall i :: 0 <= i < |names[k]| ==> '_' <= names[k][i] <= 'z'
    requires forall k :: 0 <= k < |names| ==> patterns[k] == Ascii(names[k])
    ensures Plain(patterns)
  {
    hide LongestFirst, Ascii;
    forall k | 0 <= k < |names|
      ensures patterns[k] != [] && forall i :: 0 <= i < |SEPARATORS| ==> SEPARATORS[i] !in patterns[k]
    {
      Letters(names[k]);
    }
  }

  const VERITY_NAMES: seq<string> := ["verifyatboot", "verify", "avb_keys", "avb", "support_scfs", "fsverity"]
  const ENCRYPTION_NAMES: seq<string> := ["forceencrypt", "forcefdeorfbe", "fileencryption"]

  /** The flags of dm-verity, by their names. */
  lemma VerityIsPlain()
    ensures Plain(VERITY)
    ensures |VERITY| == 6 && forall k :: 0 <= k < 6 ==> VERITY[k] == Ascii(VERITY_NAMES[k])
  {
    VerityByName();
    VerityLongestFirst();
    hide VERITY, LongestFirst;
    PlainNames(VERITY, VERITY_NAMES);
  }

  lemma VerityLongestFirst()
    ensures LongestFirst(VERITY)
  {
    VerityFirstBytes();
    hide VERITY;
    forall i, k | 0 <= i < k < 6 ensures !StartsWith(VERITY[k], VERITY[i]) {
      if |VERITY[i]| <= |VERITY[k]| { Differ(VERITY[k], VERITY[i], 0); }
    }
  }

  lemma VerityByName()
    ensures |VERITY| == 6 && forall k :: 0 <= k < 6 ==> VERITY[k] == Ascii(VERITY_NAMES[k])
  {
  }

  /** And those of encryption. */
  lemma EncryptionIsPlain()
    ensures Plain(ENCRYPTION)
    ensures |ENCRYPTION| == 3 && forall k :: 0 <= k < 3 ==> ENCRYPTION[k] == Ascii(ENCRYPTION_NAMES[k])
  {
    EncryptionByName();
    EncryptionLongestFirst();
    hide ENCRYPTION, LongestFirst;
    PlainNames(ENCRYPTION, ENCRYPTION_NAMES);
  }

  lemma EncryptionBytes()
    ensures |ENCRYPTION| == 3 && |ENCRYPTION[0]| == 12 && |ENCRYPTION[1]| == 13 && |ENCRYPTION[2]| == 14
    ensures ENCRYPTION[0][1] == ENCRYPTION[1][1] == 0x6F && ENCRYPTION[2][1] == 0x69
    ensures ENCRYPTION[0][5] == 0x65 && ENCRYPTION[1][5] == 0x66
  {
  }

  lemma EncryptionLongestFirst()
    ensures LongestFirst(ENCRYPTION)
  {
    EncryptionBytes();
    hide ENCRYPTION;
    Differ(ENCRYPTION[1], ENCRYPTION[0], 5);
    Differ(ENCRYPTION[2], ENCRYPTION[0], 1);
    Differ(ENCRYPTION[2], ENCRYPTION[1], 1);
  }

  lemma EncryptionByName()
    ensures |ENCRYPTION| == 3 && forall k :: 0 <= k < 3 ==> ENCRYPTION[k] == Ascii(ENCRYPTION_NAMES[k])
  {
  }
}
