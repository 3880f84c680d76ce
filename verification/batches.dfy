/** Splitting a key collection into batches that fit the database's limit on
    bound parameters per statement (`to_batches(keys, SQLITE_MAX_VARIABLE_NUMBER)`).
    The batching routine itself is not part of this model: the readers are
    given its result and rely only on `IsBatching`. `Chunks` is one routine
    that meets the contract, which shows the contract can always be met. */
module Batches {
  import opened Seqs

  /** The keys of all batches, in batch order. */
  function Flatten<K>(bs: seq<seq<K>>): seq<K> {
    if bs == [] then [] else bs[0] + Flatten(bs[1..])
  }

  /** The contract of the batching routine: every batch holds between one and
      `limit` keys, and the batches together hold each key as often as the
      input does. */
  predicate IsBatching<K>(bs: seq<seq<K>>, keys: multiset<K>, limit: int) {
    && limit > 0
    && (forall i :: 0 <= i < |bs| ==> 0 < |bs[i]| <= limit)
    && multiset(Flatten(bs)) == keys
  }

  /** There are never more batches than keys; no keys give no batches. */
  lemma {:induction false} BatchCountBound<K>(bs: seq<seq<K>>, keys: multiset<K>, limit: int)
    requires IsBatching(bs, keys, limit)
    ensures |bs| <= |keys|
  {
    FlattenLength(bs);
  }

  lemma {:induction false} FlattenLength<K>(bs: seq<seq<K>>)
    requires forall i :: 0 <= i < |bs| ==> 0 < |bs[i]|
    ensures |bs| <= |Flatten(bs)|
  {
    if bs != [] {
      assert forall i :: 0 <= i < |bs[1..]| ==> bs[1..][i] == bs[i + 1];
      FlattenLength(bs[1..]);
    }
  }

  /** A batching of a set holds every key of the set in exactly one batch. */
  lemma SetBatchingIsPartition<K>(bs: seq<seq<K>>, keys: set<K>, limit: int)
    requires IsBatching(bs, multiset(keys), limit)
    ensures NoDuplicates(Flatten(bs))
    ensures Elements(Flatten(bs)) == keys
  {
    NoDuplicatesOfSetListing(Flatten(bs), keys);
    forall x ensures x in Elements(Flatten(bs)) <==> x in keys {
      assert x in Flatten(bs) <==> x in multiset(Flatten(bs));
      assert x in keys <==> x in multiset(keys);
    }
    assert Elements(Flatten(bs)) == keys;
  }

  /** A batching of a list covers exactly the keys of the list. */
  lemma ListBatchingCovers<K>(bs: seq<seq<K>>, keys: seq<K>, limit: int)
    requires IsBatching(bs, multiset(keys), limit)
    ensures Elements(Flatten(bs)) == Elements(keys)
  {
    forall x ensures x in Elements(Flatten(bs)) <==> x in Elements(keys) {
      assert x in Flatten(bs) <==> x in multiset(Flatten(bs));
      assert x in keys <==> x in multiset(keys);
    }
    assert Elements(Flatten(bs)) == Elements(keys);
  }

  /** A list without duplicates is batched into batches without duplicates. */
  lemma ListBatchingKeepsDistinct<K>(bs: seq<seq<K>>, keys: seq<K>, limit: int)
    requires IsBatching(bs, multiset(keys), limit)
    requires NoDuplicates(keys)
    ensures NoDuplicates(Flatten(bs))
  {
    DistinctCardinality(keys);
    assert multiset(keys) == multiset(Elements(keys)) by {
      forall x ensures multiset(keys)[x] == multiset(Elements(keys))[x] {
        DistinctMultiplicity(keys, x);
      }
    }
    NoDuplicatesOfSetListing(Flatten(bs), Elements(keys));
  }

  lemma {:induction false} DistinctMultiplicity<K>(s: seq<K>, x: K)
    requires NoDuplicates(s)
    ensures multiset(s)[x] == if x in s then 1 else 0
  {
    if s != [] {
      assert NoDuplicates(s[1..]) by {
        forall i, j | 0 <= i < j < |s[1..]| ensures s[1..][i] != s[1..][j] {
          assert s[1..][i] == s[i + 1] && s[1..][j] == s[j + 1];
        }
      }
      DistinctMultiplicity(s[1..], x);
      forall j | 0 <= j < |s[1..]| ensures s[1..][j] != s[0] {
        assert s[1..][j] == s[j + 1];
      }
      assert s == [s[0]] + s[1..];
    }
  }

  /** Cuts a list into consecutive pieces of `limit` keys, the last one shorter. */
  function Chunks<K>(s: seq<K>, limit: int): (bs: seq<seq<K>>)
    requires limit > 0
    ensures Flatten(bs) == s
    ensures forall i :: 0 <= i < |bs| ==> 0 < |bs[i]| <= limit
    ensures |s| <= |bs| * limit < |s| + limit
    decreases |s|
  {
    if s == [] then []
    else if |s| <= limit then
      assert [s][1..] == [];
      [s]
    else
      var rest := Chunks(s[limit..], limit);
      assert ([s[..limit]] + rest)[1..] == rest;
      assert s[..limit] + s[limit..] == s;
      assert (|rest| + 1) * limit == |rest| * limit + limit;
      [s[..limit]] + rest
  }

  /** Some list holding exactly the keys of a multiset. */
  ghost function Listing<K>(m: multiset<K>): (s: seq<K>)
    ensures multiset(s) == m
    decreases |m|
  {
    if |m| == 0 then []
    else
      var x :| x in m;
      [x] + Listing(m - multiset{x})
  }

  /** Whatever the keys, a batching exists for every positive limit. */
  lemma BatchingExists<K>(keys: multiset<K>, limit: int)
    requires limit > 0
    ensures IsBatching(Chunks(Listing(keys), limit), keys, limit)
  {
  }
}
