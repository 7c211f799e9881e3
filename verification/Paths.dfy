/** Splitting and joining of byte strings, and the path normalisation of `norm_path`. */
module Paths {
  import opened Bytes

  const SLASH: byte := 0x2F

  /** `split`: the pieces between separators, always at least one. */
  function Split(s: bytes, sep: byte): (r: seq<bytes>)
    ensures |r| >= 1
  {
    if s == [] then [[]]
    else
      var rest := Split(s[1..], sep);
      if s[0] == sep then [[]] + rest else [[s[0]] + rest[0]] + rest[1..]
  }

  function NonEmpty(pieces: seq<bytes>): (r: seq<bytes>)
    ensures [] !in r
  {
    if pieces == [] then []
    else if pieces[0] == [] then NonEmpty(pieces[1..])
    else [pieces[0]] + NonEmpty(pieces[1..])
  }

  function Join(pieces: seq<bytes>, sep: byte): bytes {
    if pieces == [] then []
    else if |pieces| == 1 then pieces[0]
    else pieces[0] + [sep] + Join(pieces[1..], sep)
  }

  /** `norm_path`: no leading, trailing or repeated slashes. */
  function NormPath(path: bytes): bytes {
    Join(NonEmpty(Split(path, SLASH)), SLASH)
  }

  lemma {:induction false} SplitFree(s: bytes, sep: byte)
    ensures forall p :: p in Split(s, sep) ==> sep !in p
  {
    if s != [] { SplitFree(s[1..], sep); }
  }

  lemma {:induction false} SplitFirst(a: bytes, b: bytes, sep: byte)
    requires sep !in a
    ensures Split(a + [sep] + b, sep) == [a] + Split(b, sep)
    ensures Split(a, sep) == [a]
  {
    var s := a + [sep] + b;
    if a == [] {
      assert s[1..] == b;
    } else {
      SplitFirst(a[1..], b, sep);
      assert s[1..] == a[1..] + [sep] + b;
      assert [a[0]] + a[1..] == a;
    }
  }

  lemma {:induction false} NonEmptySplitJoin(pieces: seq<bytes>, sep: byte)
    requires [] !in pieces && forall p :: p in pieces ==> sep !in p
    ensures NonEmpty(Split(Join(pieces, sep), sep)) == pieces
  {
    if |pieces| == 1 {
      SplitFirst(pieces[0], [], sep);
    } else if |pieces| > 1 {
      SplitFirst(pieces[0], Join(pieces[1..], sep), sep);
      NonEmptySplitJoin(pieces[1..], sep);
    }
  }

  lemma {:induction false} NonEmptyMembers(pieces: seq<bytes>)
    ensures forall p :: p in NonEmpty(pieces) <==> p in pieces && p != []
  {
    if pieces != [] { NonEmptyMembers(pieces[1..]); }
  }

  /** Normalising is idempotent: its results are exactly its fixed points. */
  lemma NormPathIdempotent(path: bytes)
    ensures NormPath(NormPath(path)) == NormPath(path)
  {
    var pieces := Split(path, SLASH);
    SplitFree(path, SLASH);
    NonEmptyMembers(pieces);
    NonEmptySplitJoin(NonEmpty(pieces), SLASH);
  }

  // ----- the spellings of a path

  function Slashes(n: nat): (r: bytes)
    ensures |r| == n && forall i :: 0 <= i < n ==> r[i] == 0x2F
  {
    seq(n, _ => 0x2F)
  }

  /** Pieces with so many slashes before the first, between them and behind the last. */
  function Spelled(pieces: seq<bytes>, gaps: seq<nat>): bytes
    requires |gaps| == |pieces| + 1
  {
    if pieces == [] then Slashes(gaps[0])
    else Slashes(gaps[0]) + pieces[0] + Spelled(pieces[1..], gaps[1..])
  }

  /** Non-empty names, and at least one slash between any two of them. */
  predicate IsPath(pieces: seq<bytes>, gaps: seq<nat>) {
    && |gaps| == |pieces| + 1
    && (forall i :: 0 <= i < |pieces| ==> pieces[i] != [] && 0x2F !in pieces[i])
    && (forall i :: 0 < i < |pieces| ==> gaps[i] >= 1)
  }

  /** One slash between any two pieces and none outside. */
  function OneEach(n: nat): (g: seq<nat>)
    ensures |g| == n + 1
  {
    seq(n + 1, i => if 0 < i < n then 1 else 0)
  }

  lemma {:induction false} SlashesSkipped(n: nat, s: bytes)
    ensures NonEmpty(Split(Slashes(n) + s, SLASH)) == NonEmpty(Split(s, SLASH))
    decreases n
  {
    if n == 0 {
      assert Slashes(0) + s == s;
    } else {
      assert (Slashes(n) + s)[1..] == Slashes(n - 1) + s;
      SlashesSkipped(n - 1, s);
    }
  }

  /** Splitting any spelling gives the pieces back. */
  lemma {:induction false} PiecesOfSpelled(pieces: seq<bytes>, gaps: seq<nat>)
    requires IsPath(pieces, gaps)
    ensures NonEmpty(Split(Spelled(pieces, gaps), SLASH)) == pieces
    decreases pieces
  {
    if pieces == [] {
      SlashesSkipped(gaps[0], []);
      assert Slashes(gaps[0]) + [] == Slashes(gaps[0]);
    } else {
      var rest := Spelled(pieces[1..], gaps[1..]);
      assert Spelled(pieces, gaps) == Slashes(gaps[0]) + (pieces[0] + rest);
      SlashesSkipped(gaps[0], pieces[0] + rest);
      PiecesOfSpelled(pieces[1..], gaps[1..]);
      FirstPiece(pieces[0], rest, |pieces| == 1 && gaps[1] == 0);
    }
  }

  lemma FirstPiece(first: bytes, rest: bytes, last: bool)
    requires first != [] && SLASH !in first && if last then rest == [] else rest != [] && rest[0] == SLASH
    ensures NonEmpty(Split(first + rest, SLASH)) == [first] + NonEmpty(Split(rest, SLASH))
  {
    if last {
      assert first + rest == first;
      SplitFirst(first, [], SLASH);
    } else {
      assert first + rest == first + [SLASH] + rest[1..];
      SplitFirst(first, rest[1..], SLASH);
    }
  }

  lemma OneMoreSlash(pieces: seq<bytes>, gaps: seq<nat>)
    requires |gaps| == |pieces| + 1
    ensures Spelled(pieces, gaps[0 := gaps[0] + 1]) == [SLASH] + Spelled(pieces, gaps)
  {
    assert Slashes(gaps[0] + 1) == [SLASH] + Slashes(gaps[0]);
    assert gaps[0 := gaps[0] + 1][1..] == gaps[1..];
  }

  lemma {:induction false} JoinSpells(pieces: seq<bytes>)
    ensures Join(pieces, SLASH) == Spelled(pieces, OneEach(|pieces|))
  {
    var gaps := OneEach(|pieces|);
    if |pieces| == 1 {
      assert Spelled(pieces[1..], gaps[1..]) == [];
    } else if |pieces| > 1 {
      var rest := OneEach(|pieces| - 1);
      JoinSpells(pieces[1..]);
      OneMoreSlash(pieces[1..], rest);
      assert gaps[1..] == rest[0 := 1] && Slashes(0) == [];
    }
  }

  /** Main result: however many slashes stand between, before and behind the pieces, one each stays between them. */
  lemma NormPathOfSpelled(pieces: seq<bytes>, gaps: seq<nat>)
    requires IsPath(pieces, gaps)
    ensures NormPath(Spelled(pieces, gaps)) == Spelled(pieces, OneEach(|pieces|))
  {
    PiecesOfSpelled(pieces, gaps);
    JoinSpells(pieces);
  }

  /** And every path is such a spelling. */
  lemma {:induction false} EveryPathIsSpelled(path: bytes) returns (pieces: seq<bytes>, gaps: seq<nat>)
    ensures IsPath(pieces, gaps) && Spelled(pieces, gaps) == path
    decreases path
  {
    if path == [] {
      pieces, gaps := [], [0];
    } else {
      pieces, gaps := EveryPathIsSpelled(path[1..]);
      assert path == [path[0]] + path[1..];
      if path[0] == SLASH {
        OneMoreSlash(pieces, gaps);
        gaps := gaps[0 := gaps[0] + 1];
      } else if gaps[0] == 0 && pieces != [] {
        LongerPiece(pieces, gaps, path[0]);
        pieces := pieces[0 := [path[0]] + pieces[0]];
      } else {
        NewPiece(pieces, gaps, path[0]);
        pieces, gaps := [[path[0]]] + pieces, [0] + gaps;
      }
    }
  }

  lemma LongerPiece(pieces: seq<bytes>, gaps: seq<nat>, c: byte)
    requires IsPath(pieces, gaps) && pieces != [] && gaps[0] == 0 && c != SLASH
    ensures IsPath(pieces[0 := [c] + pieces[0]], gaps)
    ensures Spelled(pieces[0 := [c] + pieces[0]], gaps) == [c] + Spelled(pieces, gaps)
  {
    var longer := pieces[0 := [c] + pieces[0]];
    assert longer[1..] == pieces[1..] && Slashes(0) == [];
    assert forall i :: 0 <= i < |longer| ==> longer[i] != [] && 0x2F !in longer[i];
  }

  lemma NewPiece(pieces: seq<bytes>, gaps: seq<nat>, c: byte)
    requires IsPath(pieces, gaps) && (pieces == [] || gaps[0] > 0) && c != SLASH
    ensures IsPath([[c]] + pieces, [0] + gaps)
    ensures Spelled([[c]] + pieces, [0] + gaps) == [c] + Spelled(pieces, gaps)
  {
    var more, wider := [[c]] + pieces, [0] + gaps;
    assert more[1..] == pieces && wider[1..] == gaps && Slashes(0) == [];
  }
}
