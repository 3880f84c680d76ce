/** Facts about sequences used to talk about table rows and key lists. */
module Seqs {
  /** No element occurs twice. */
  predicate NoDuplicates<T(==)>(s: seq<T>) {
    forall i, j :: 0 <= i < j < |s| ==> s[i] != s[j]
  }

  /** The set of elements of a sequence. */
  function Elements<T>(s: seq<T>): set<T> {
    set x | x in s
  }

  /** The elements of a concatenation are those of its two parts. */
  lemma ElementsConcat<T>(a: seq<T>, b: seq<T>)
    ensures Elements(a + b) == Elements(a) + Elements(b)
  {
    forall x ensures x in Elements(a + b) <==> x in Elements(a) + Elements(b) {
      assert x in a + b <==> x in a || x in b;
    }
  }

  /** A sequence has at most as many elements as entries. */
  lemma {:induction false} ElementsBound<T>(s: seq<T>)
    ensures |Elements(s)| <= |s|
  {
    if s != [] {
      ElementsBound(s[1..]);
      assert Elements(s) == {s[0]} + Elements(s[1..]);
    }
  }

  /** A sequence with an entry repeated has fewer elements than entries. */
  lemma RepeatShrinksElements<T>(s: seq<T>, i: int, j: int)
    requires 0 <= i < j < |s| && s[i] == s[j]
    ensures |Elements(s)| < |s|
  {
    var t := s[..j] + s[j + 1..];
    forall x ensures x in Elements(s) <==> x in Elements(t) {
      if x in s {
        var k :| 0 <= k < |s| && s[k] == x;
        if k < j {
          assert t[k] == x;
        } else if k == j {
          assert t[i] == x;
        } else {
          assert t[k - 1] == x;
        }
      }
      if x in t {
        var k :| 0 <= k < |t| && t[k] == x;
        if k < j {
          assert s[k] == x;
        } else {
          assert s[k + 1] == x;
        }
      }
    }
    assert Elements(s) == Elements(t);
    ElementsBound(t);
  }

  /** A sequence without duplicates has as many elements as its set. */
  lemma {:induction false} DistinctCardinality<T>(s: seq<T>)
    requires NoDuplicates(s)
    ensures |Elements(s)| == |s|
  {
    if s != [] {
      DistinctCardinality(s[1..]);
      assert Elements(s) == {s[0]} + Elements(s[1..]);
      forall j | 0 <= j < |s[1..]| ensures s[1..][j] != s[0] {
        assert s[1..][j] == s[j + 1];
      }
    }
  }

  /** A sequence that holds each element of a set exactly once has no duplicates. */
  lemma NoDuplicatesOfSetListing<T>(s: seq<T>, keys: set<T>)
    requires multiset(s) == multiset(keys)
    ensures NoDuplicates(s)
  {
    forall i, j | 0 <= i < j < |s| ensures s[i] != s[j] {
      var x := s[i];
      assert s == s[..j] + s[j..];
      assert x in s[..j];
      assert multiset(s)[x] == multiset(s[..j])[x] + multiset(s[j..])[x];
      assert multiset(s[j..])[x] == 0;
      assert s[j] in s[j..];
    }
  }

  /** The two halves of a concatenation without duplicates share no element. */
  lemma NoDuplicatesConcat<T>(a: seq<T>, b: seq<T>)
    requires NoDuplicates(a + b)
    ensures NoDuplicates(a) && NoDuplicates(b)
    ensures Elements(a) !! Elements(b)
  {
    forall i, j | 0 <= i < j < |a| ensures a[i] != a[j] {
      assert a[i] == (a + b)[i] && a[j] == (a + b)[j];
    }
    forall i, j | 0 <= i < j < |b| ensures b[i] != b[j] {
      assert b[i] == (a + b)[|a| + i] && b[j] == (a + b)[|a| + j];
    }
    forall x | x in Elements(a) ensures x !in Elements(b) {
      var i :| 0 <= i < |a| && a[i] == x;
      forall j | 0 <= j < |b| ensures b[j] != x {
        assert (a + b)[i] == a[i] && (a + b)[|a| + j] == b[j];
      }
    }
  }

  /** A subset of a finite set is no larger than it. */
  lemma {:induction false} SubsetCardinality<T>(a: set<T>, b: set<T>)
    requires a <= b
    ensures |a| <= |b|
    decreases |a|
  {
    if a != {} {
      var x :| x in a;
      SubsetCardinality(a - {x}, b - {x});
    }
  }
}
