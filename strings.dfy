/** The order in which `Array.prototype.sort` with no comparator arranges
    strings: character by character, a proper prefix before its extensions. */
module Strings {

  /** `a` sorts strictly before `b`. */
  predicate Less(a: string, b: string)
  {
    if b == [] then false
    else if a == [] then true
    else if a[0] != b[0] then a[0] < b[0]
    else Less(a[1..], b[1..])
  }

  lemma {:induction false} LessIrreflexive(a: string)
    ensures !Less(a, a)
  {
    if a != [] {
      LessIrreflexive(a[1..]);
    }
  }

  lemma {:induction false} LessTransitive(a: string, b: string, c: string)
    requires Less(a, b) && Less(b, c)
    ensures Less(a, c)
  {
    if a != [] && a[0] == b[0] && b[0] == c[0] {
      LessTransitive(a[1..], b[1..], c[1..]);
    }
  }

  /** Two different strings are always ordered one way or the other, so the
      order is total and `sort()` on distinct strings has one outcome. */
  lemma {:induction false} LessTotal(a: string, b: string)
    requires a != b
    ensures Less(a, b) || Less(b, a)
  {
    if a != [] && b != [] && a[0] == b[0] {
      assert a == [a[0]] + a[1..] && b == [b[0]] + b[1..];
      LessTotal(a[1..], b[1..]);
    }
  }

  lemma LessAsymmetric(a: string, b: string)
    requires Less(a, b)
    ensures !Less(b, a)
  {
    if Less(b, a) {
      LessTransitive(a, b, a);
      LessIrreflexive(a);
    }
  }

  /** Sorted ascending with no element repeated. */
  predicate StrictlyIncreasing(s: seq<string>)
  {
    forall i, j :: 0 <= i < j < |s| ==> Less(s[i], s[j])
  }

  lemma StrictlyIncreasingHasNoDuplicates(s: seq<string>, i: int, j: int)
    requires StrictlyIncreasing(s)
    requires 0 <= i < |s| && 0 <= j < |s| && i != j
    ensures s[i] != s[j]
  {
    if i < j {
      LessIrreflexive(s[i]);
    } else {
      LessIrreflexive(s[j]);
    }
  }

  /** A strictly increasing sequence is determined by its elements. */
  lemma {:induction false} StrictlyIncreasingUnique(r: seq<string>, t: seq<string>)
    requires StrictlyIncreasing(r) && StrictlyIncreasing(t)
    requires forall x :: x in r <==> x in t
    ensures r == t
  {
    if r != [] { assert r[0] in t; }
    if t != [] { assert t[0] in r; }
    if r != [] && t != [] {
      if r[0] != t[0] {
        assert r[0] in t;
        var k :| 0 <= k < |t| && t[k] == r[0];
        assert t[0] in r;
        var m :| 0 <= m < |r| && r[m] == t[0];
        assert Less(t[0], r[0]) && Less(r[0], t[0]);
        LessAsymmetric(t[0], r[0]);
        assert false;
      }
      forall x
        ensures x in r[1..] <==> x in t[1..]
      {
        if x in r[1..] {
          var i :| 1 <= i < |r| && r[i] == x;
          StrictlyIncreasingHasNoDuplicates(r, 0, i);
          assert x in t && x != t[0];
        }
        if x in t[1..] {
          var i :| 1 <= i < |t| && t[i] == x;
          StrictlyIncreasingHasNoDuplicates(t, 0, i);
          assert x in r && x != r[0];
        }
      }
      StrictlyIncreasingUnique(r[1..], t[1..]);
      assert r == [r[0]] + r[1..] && t == [t[0]] + t[1..];
    }
  }
}
