/** `ORDER BY coin_id`: sequences of byte strings in non-decreasing BLOB order. */
module Sorting {
  import opened Bytes

  predicate Sorted(s: seq<Bytes>) {
    forall i, j :: 0 <= i < j < |s| ==> LessEq(s[i], s[j])
  }

  /** Puts `x` into a sorted sequence, in front of the first element not below it. */
  function Insert(x: Bytes, s: seq<Bytes>): seq<Bytes> {
    if s == [] then [x]
    else if LessEq(x, s[0]) then [x] + s
    else [s[0]] + Insert(x, s[1..])
  }

  /** Inserting adds `x` and keeps every element. */
  lemma {:induction false} InsertPermutes(x: Bytes, s: seq<Bytes>)
    ensures multiset(Insert(x, s)) == multiset(s) + multiset{x}
  {
    if s != [] && !LessEq(x, s[0]) {
      InsertPermutes(x, s[1..]);
      assert s == [s[0]] + s[1..];
    }
  }

  /** An element no greater than any element of a sorted sequence can go in front of it. */
  lemma SortedCons(x: Bytes, s: seq<Bytes>)
    requires Sorted(s)
    requires forall k :: 0 <= k < |s| ==> LessEq(x, s[k])
    ensures Sorted([x] + s)
  {
    var r := [x] + s;
    forall i, j | 0 <= i < j < |r| ensures LessEq(r[i], r[j]) {
      if i == 0 {
        assert r[j] == s[j - 1];
      } else {
        assert r[i] == s[i - 1] && r[j] == s[j - 1];
      }
    }
  }

  lemma {:induction false} InsertSorted(x: Bytes, s: seq<Bytes>)
    requires Sorted(s)
    ensures Sorted(Insert(x, s))
  {
    if s == [] {
    } else if LessEq(x, s[0]) {
      forall k | 0 <= k < |s| ensures LessEq(x, s[k]) {
        if k > 0 {
          LessEqTransitive(x, s[0], s[k]);
        }
      }
      SortedCons(x, s);
    } else {
      var tail := s[1..];
      assert Sorted(tail) by {
        forall i, j | 0 <= i < j < |tail| ensures LessEq(tail[i], tail[j]) {
          assert tail[i] == s[i + 1] && tail[j] == s[j + 1];
        }
      }
      InsertSorted(x, tail);
      InsertPermutes(x, tail);
      var t := Insert(x, tail);
      LessTotal(x, s[0]);
      forall k | 0 <= k < |t| ensures LessEq(s[0], t[k]) {
        assert t[k] in multiset(t);
        if t[k] != x {
          assert t[k] in multiset(tail);
          var j :| 0 <= j < |tail| && tail[j] == t[k];
          assert tail[j] == s[j + 1];
        }
      }
      SortedCons(s[0], t);
    }
  }

  /** Insertion sort. */
  function Sort(s: seq<Bytes>): seq<Bytes> {
    if s == [] then [] else Insert(s[0], Sort(s[1..]))
  }

  /** Sorting keeps the same elements, each as often, in non-decreasing order. */
  lemma {:induction false} SortSpec(s: seq<Bytes>)
    ensures multiset(Sort(s)) == multiset(s)
    ensures Sorted(Sort(s))
  {
    if s != [] {
      SortSpec(s[1..]);
      InsertPermutes(s[0], Sort(s[1..]));
      InsertSorted(s[0], Sort(s[1..]));
      assert s == [s[0]] + s[1..];
    }
  }

  /** Every element of a sorted sequence after index `i` is at least `s[i]`;
      an element of the sequence not above `s[i]` therefore sits at or before `i`. */
  lemma SortedPrefixHoldsSmaller(s: seq<Bytes>, n: nat, x: Bytes)
    requires Sorted(s) && 0 < n <= |s|
    requires x in s && LessEq(x, s[n - 1])
    ensures x in s[..n]
  {
    var j :| 0 <= j < |s| && s[j] == x;
    if j >= n {
      LessEqAntisymmetric(s[n - 1], x);
      assert s[..n][n - 1] == x;
    } else {
      assert s[..n][j] == x;
    }
  }
}
