/**
 * The order a `BTreeMap<String, _>` keeps its keys in: names compare byte by byte. `Sorted` lists
 * a set of names in that order.
 */
module NameOrder {
  import opened Bytes

  type Name = bytes

  predicate Less(a: Name, b: Name) {
    b != [] && (a == [] || a[0] < b[0] || (a[0] == b[0] && Less(a[1..], b[1..])))
  }

  lemma {:induction false} LessTransitive(a: Name, b: Name, c: Name)
    requires Less(a, b) && Less(b, c)
    ensures Less(a, c)
  {
    if a != [] && a[0] == b[0] == c[0] {
      LessTransitive(a[1..], b[1..], c[1..]);
    }
  }

  lemma {:induction false} LessTotal(a: Name, b: Name)
    ensures Less(a, b) || Less(b, a) || a == b
    ensures !(Less(a, b) && Less(b, a))
    ensures !Less(a, a)
  {
    if a != [] && b != [] {
      LessTotal(a[1..], b[1..]);
      LessTotal(a[1..], a[1..]);
      assert a == [a[0]] + a[1..] && b == [b[0]] + b[1..];
    } else if a != [] {
      LessTotal(a[1..], a[1..]);
    }
  }

  /** At `i` the first name ends or has the smaller byte, and before that both are the same. */
  predicate SmallerAt(a: Name, b: Name, i: nat) {
    && i <= |a| && i < |b| && (forall j :: 0 <= j < i ==> a[j] == b[j])
    && (i == |a| || a[i] < b[i])
  }

  /** The order is that of the first byte in which two names differ, and a name comes before its extensions. */
  lemma {:induction false} LessExactly(a: Name, b: Name)
    ensures Less(a, b) <==> exists i: nat :: SmallerAt(a, b, i)
    decreases a
  {
    if a == [] || b == [] || a[0] != b[0] {
      assert Less(a, b) ==> SmallerAt(a, b, 0);
    } else {
      LessExactly(a[1..], b[1..]);
      if i: nat :| SmallerAt(a[1..], b[1..], i) {
        forall j | 0 <= j < i + 1 ensures a[j] == b[j] { assert j > 0 ==> a[1..][j - 1] == b[1..][j - 1]; }
        assert SmallerAt(a, b, i + 1);
      }
      if i: nat :| SmallerAt(a, b, i) {
        forall j | 0 <= j < i - 1 ensures a[1..][j] == b[1..][j] { assert a[j + 1] == b[j + 1]; }
        assert SmallerAt(a[1..], b[1..], i - 1);
      }
    }
  }

  predicate Least(k: Name, s: set<Name>) {
    k in s && forall x :: x in s && x != k ==> Less(k, x)
  }

  lemma {:induction false} LeastExists(s: set<Name>)
    requires s != {}
    ensures exists k :: Least(k, s)
  {
    var x :| x in s;
    var rest := s - {x};
    if rest == {} {
      assert s == {x};
      assert Least(x, s);
    } else {
      LeastExists(rest);
      var y :| Least(y, rest);
      LessTotal(x, y);
      if Less(x, y) {
        forall z | z in s && z != x ensures Less(x, z) {
          if z != y { LessTransitive(x, y, z); }
        }
        assert Least(x, s);
      } else {
        assert Least(y, s);
      }
    }
  }

  lemma LeastUnique(j: Name, k: Name, s: set<Name>)
    requires Least(j, s) && Least(k, s)
    ensures j == k
  {
    LessTotal(j, k);
  }

  ghost predicate Ascending(s: seq<Name>) {
    forall i, j :: 0 <= i < j < |s| ==> Less(s[i], s[j])
  }

  function First(s: set<Name>): (k: Name)
    requires s != {}
    ensures Least(k, s)
  {
    LeastExists(s);
    assert forall j, k :: Least(j, s) && Least(k, s) ==> j == k by {
      forall j, k | Least(j, s) && Least(k, s) ensures j == k { LeastUnique(j, k, s); }
    }
    var k :| k in s && Least(k, s);
    k
  }

  /** The elements of `s` in ascending order: the order in which the map is walked. */
  function Sorted(s: set<Name>): (r: seq<Name>)
    ensures Ascending(r)
    ensures forall x :: x in r <==> x in s
    ensures |r| == |s|
    decreases |s|
  {
    if s == {} then []
    else
      var k := First(s);
      var rest := Sorted(s - {k});
      assert forall i :: 0 <= i < |rest| ==> Less(k, rest[i]) by {
        assert forall i :: 0 <= i < |rest| ==> rest[i] in rest && rest[i] in s - {k};
      }
      [k] + rest
  }

  lemma HasMember(s: seq<Name>)
    requires s != []
    ensures exists x :: x in s
  {
    assert s[0] in s;
  }

  /** Order and content determine an ascending list. */
  lemma {:induction false} AscendingUnique(a: seq<Name>, b: seq<Name>)
    requires Ascending(a) && Ascending(b)
    requires forall x :: x in a <==> x in b
    ensures a == b
  {
    if a == [] {
      if b != [] { HasMember(b); }
    } else {
      assert a[0] in b && b != [];
      assert b[0] in a;
      if a[0] != b[0] {
        var i :| 0 <= i < |a| && a[i] == b[0];
        var j :| 0 <= j < |b| && b[j] == a[0];
        LessTotal(a[0], b[0]);
        assert false;
      }
      LessTotal(a[0], a[0]);
      assert a[0] !in a[1..] && b[0] !in b[1..];
      assert a == [a[0]] + a[1..] && b == [b[0]] + b[1..];
      forall x ensures x in a[1..] <==> x in b[1..] {
        assert x in a[1..] <==> x in a && x != a[0];
        assert x in b[1..] <==> x in b && x != b[0];
      }
      AscendingUnique(a[1..], b[1..]);
    }
  }

  lemma AscendingDistinct(s: seq<Name>, i: nat, j: nat)
    requires Ascending(s) && i < |s| && j < |s| && s[i] == s[j]
    ensures i == j
  {
    LessTotal(s[i], s[j]);
  }
}
