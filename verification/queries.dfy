/** What each reader of the hint store computes, as functions of the table's
    rows, with the properties the store promises proved about them. The
    methods of `HintIndex.HintStore` are tied to these functions. */
module Queries {
  import opened Wrappers
  import opened Bytes
  import opened Seqs
  import opened Sorting
  import opened Batches
  import opened Table

  /** `SELECT coin_id FROM hints WHERE hint IN (hints)`: one coin id per matching row. */
  function CoinIdsWithHintIn(rows: seq<Row>, hints: set<Bytes>): seq<Bytes> {
    Project(Where(rows, HintColumn, hints), CoinIdColumn)
  }

  /** `SELECT hint FROM hints WHERE coin_id IN (coinIds)`: one hint per matching row. */
  function HintsOfCoinsIn(rows: seq<Row>, coinIds: set<Bytes>): seq<Bytes> {
    Project(Where(rows, CoinIdColumn, coinIds), HintColumn)
  }

  lemma CoinIdsWithHintInMembers(rows: seq<Row>, hints: set<Bytes>, id: Bytes)
    ensures id in CoinIdsWithHintIn(rows, hints) <==> exists r :: r in rows && r.hint in hints && r.coinId == id
  {
    ProjectMembers(Where(rows, HintColumn, hints), CoinIdColumn, id);
  }

  lemma HintsOfCoinsInMembers(rows: seq<Row>, coinIds: set<Bytes>, h: Bytes)
    ensures h in HintsOfCoinsIn(rows, coinIds) <==> exists r :: r in rows && r.coinId in coinIds && r.hint == h
  {
    ProjectMembers(Where(rows, CoinIdColumn, coinIds), HintColumn, h);
  }

  /** In a table of unique pairs, the coins carrying one given hint are distinct. */
  lemma CoinIdsOfOneHintDistinct(rows: seq<Row>, hint: Bytes)
    requires NoDuplicates(rows)
    ensures NoDuplicates(CoinIdsWithHintIn(rows, {hint}))
  {
    var w := Where(rows, HintColumn, {hint});
    WhereKeepsDistinct(rows, HintColumn, {hint});
    var ids := CoinIdsWithHintIn(rows, {hint});
    forall i, j | 0 <= i < j < |ids| ensures ids[i] != ids[j] {
      assert w[i] in w && w[j] in w;
      assert w[i] != w[j];
    }
  }

  // ---------------------------------------------------------------------
  // get_coin_ids_multi: one capped query per batch of hints

  /** The concatenated results of `SELECT coin_id ... WHERE hint IN (batch) LIMIT maxItems`,
      one query per batch. */
  function CoinIdsByBatches(rows: seq<Row>, bs: seq<seq<Bytes>>, maxItems: int): seq<Bytes> {
    if bs == [] then []
    else Limit(CoinIdsWithHintIn(rows, Elements(bs[0])), maxItems) + CoinIdsByBatches(rows, bs[1..], maxItems)
  }

  /** Selecting on more hints finds every id selecting on fewer finds. */
  lemma CoinIdsWithHintInGrows(rows: seq<Row>, a: set<Bytes>, b: set<Bytes>, id: Bytes)
    requires a <= b
    requires id in CoinIdsWithHintIn(rows, a)
    ensures id in CoinIdsWithHintIn(rows, b)
  {
    CoinIdsWithHintInMembers(rows, a, id);
    CoinIdsWithHintInMembers(rows, b, id);
  }

  lemma LimitMember<T>(s: seq<T>, n: int, x: T)
    requires x in Limit(s, n)
    ensures x in s
  {
    var i :| 0 <= i < |Limit(s, n)| && Limit(s, n)[i] == x;
    assert s[i] == x;
  }

  /** Every id returned belongs to a row whose hint is in one of the batches. */
  lemma {:induction false} CoinIdsByBatchesSound(rows: seq<Row>, bs: seq<seq<Bytes>>, maxItems: int, id: Bytes)
    requires id in CoinIdsByBatches(rows, bs, maxItems)
    ensures id in CoinIdsWithHintIn(rows, Elements(Flatten(bs)))
  {
    var first := CoinIdsWithHintIn(rows, Elements(bs[0]));
    assert Elements(Flatten(bs)) == Elements(bs[0]) + Elements(Flatten(bs[1..]));
    if id in Limit(first, maxItems) {
      LimitMember(first, maxItems, id);
      CoinIdsWithHintInGrows(rows, Elements(bs[0]), Elements(Flatten(bs)), id);
    } else {
      CoinIdsByBatchesSound(rows, bs[1..], maxItems, id);
      CoinIdsWithHintInGrows(rows, Elements(Flatten(bs[1..])), Elements(Flatten(bs)), id);
    }
  }

  /** The cap applies per batch: at most `maxItems` ids from each batch. */
  lemma {:induction false} CoinIdsByBatchesBound(rows: seq<Row>, bs: seq<seq<Bytes>>, maxItems: int)
    requires maxItems >= 0
    ensures |CoinIdsByBatches(rows, bs, maxItems)| <= |bs| * maxItems
  {
    if bs != [] {
      CoinIdsByBatchesBound(rows, bs[1..], maxItems);
      MulSucc(|bs|, maxItems);
    }
  }

  /** The per-batch bound is reached when every batch has at least `maxItems`
      matching rows: with two or more batches, the result then holds more than
      `maxItems` ids. */
  lemma {:induction false} CoinIdsByBatchesCapPerBatch(rows: seq<Row>, bs: seq<seq<Bytes>>, maxItems: int)
    requires maxItems >= 0
    requires forall i :: 0 <= i < |bs| ==> |Where(rows, HintColumn, Elements(bs[i]))| >= maxItems
    ensures |CoinIdsByBatches(rows, bs, maxItems)| == |bs| * maxItems
  {
    if bs != [] {
      forall i | 0 <= i < |bs[1..]| ensures |Where(rows, HintColumn, Elements(bs[1..][i]))| >= maxItems {
        assert bs[1..][i] == bs[i + 1];
      }
      CoinIdsByBatchesCapPerBatch(rows, bs[1..], maxItems);
      var first := CoinIdsWithHintIn(rows, Elements(bs[0]));
      assert |Where(rows, HintColumn, Elements(bs[0]))| >= maxItems;
      assert |Limit(first, maxItems)| == maxItems;
      MulSucc(|bs|, maxItems);
    }
  }

  /** One more batch adds one more cap: `n * m` is `(n - 1) * m` plus `m`. */
  lemma MulSucc(n: int, m: int)
    ensures n * m == (n - 1) * m + m
  {
  }

  /** When no batch has more than `maxItems` matching rows, the result holds
      the coin id of every row whose hint is in some batch, once per row. */
  lemma {:induction false} CoinIdsByBatchesComplete(rows: seq<Row>, bs: seq<seq<Bytes>>, maxItems: int)
    requires NoDuplicates(Flatten(bs))
    requires forall i :: 0 <= i < |bs| ==> maxItems < 0 || |Where(rows, HintColumn, Elements(bs[i]))| <= maxItems
    ensures multiset(CoinIdsByBatches(rows, bs, maxItems)) == multiset(CoinIdsWithHintIn(rows, Elements(Flatten(bs))))
  {
    if bs != [] {
      var k0, kr := Elements(bs[0]), Elements(Flatten(bs[1..]));
      NoDuplicatesConcat(bs[0], Flatten(bs[1..]));
      forall i | 0 <= i < |bs[1..]|
        ensures maxItems < 0 || |Where(rows, HintColumn, Elements(bs[1..][i]))| <= maxItems
      {
        assert bs[1..][i] == bs[i + 1];
      }
      CoinIdsByBatchesComplete(rows, bs[1..], maxItems);
      assert maxItems < 0 || |Where(rows, HintColumn, k0)| <= maxItems;
      var first := CoinIdsWithHintIn(rows, k0);
      assert Limit(first, maxItems) == first;
      assert CoinIdsByBatches(rows, bs, maxItems) == first + CoinIdsByBatches(rows, bs[1..], maxItems);
      assert Elements(Flatten(bs)) == k0 + kr;
      WhereUnion(rows, HintColumn, CoinIdColumn, k0, kr);
      assert multiset(CoinIdsByBatches(rows, bs, maxItems))
          == multiset(first) + multiset(CoinIdsByBatches(rows, bs[1..], maxItems));
      assert multiset(CoinIdsWithHintIn(rows, k0 + kr))
          == multiset(first) + multiset(CoinIdsWithHintIn(rows, kr));
    }
  }

  // ---------------------------------------------------------------------
  // get_hints: one query per batch of coin ids, 32-byte hints only

  /** The concatenated 32-byte hints of `SELECT hint ... WHERE coin_id IN (batch)`, one query per batch. */
  function HintsByBatches(rows: seq<Row>, bs: seq<seq<Bytes>>): seq<Bytes> {
    if bs == [] then []
    else Filter32(HintsOfCoinsIn(rows, Elements(bs[0]))) + HintsByBatches(rows, bs[1..])
  }

  /** A hint is returned exactly when it is 32 bytes long and stored for a coin of some batch. */
  lemma {:induction false} HintsByBatchesMembers(rows: seq<Row>, bs: seq<seq<Bytes>>, h: Bytes)
    ensures h in HintsByBatches(rows, bs) <==>
      IsBytes32(h) && exists r :: r in rows && r.coinId in Flatten(bs) && r.hint == h
  {
    if bs != [] {
      HintsByBatchesMembers(rows, bs[1..], h);
      HintsOfCoinsInMembers(rows, Elements(bs[0]), h);
      if exists r :: r in rows && r.coinId in Flatten(bs) && r.hint == h {
        var r :| r in rows && r.coinId in Flatten(bs) && r.hint == h;
        assert r.coinId in bs[0] || r.coinId in Flatten(bs[1..]);
      }
      if exists r :: r in rows && r.coinId in Flatten(bs[1..]) && r.hint == h {
        var r :| r in rows && r.coinId in Flatten(bs[1..]) && r.hint == h;
        assert r.coinId in Flatten(bs);
      }
      if exists r :: r in rows && r.coinId in Elements(bs[0]) && r.hint == h {
        var r :| r in rows && r.coinId in Elements(bs[0]) && r.hint == h;
        assert r.coinId in Flatten(bs);
      }
    }
  }

  /** When no coin id is in two batches, each 32-byte hint row of those coins
      is returned exactly once. */
  lemma {:induction false} HintsByBatchesExact(rows: seq<Row>, bs: seq<seq<Bytes>>)
    requires NoDuplicates(Flatten(bs))
    ensures multiset(HintsByBatches(rows, bs)) == multiset(Filter32(HintsOfCoinsIn(rows, Elements(Flatten(bs)))))
  {
    if bs != [] {
      var k0, kr := Elements(bs[0]), Elements(Flatten(bs[1..]));
      NoDuplicatesConcat(bs[0], Flatten(bs[1..]));
      HintsByBatchesExact(rows, bs[1..]);
      assert Elements(Flatten(bs)) == k0 + kr;
      WhereUnion(rows, CoinIdColumn, HintColumn, k0, kr);
      var h0, hr := HintsOfCoinsIn(rows, k0), HintsOfCoinsIn(rows, kr);
      assert multiset(HintsOfCoinsIn(rows, k0 + kr)) == multiset(h0 + hr);
      Filter32Multiset(HintsOfCoinsIn(rows, k0 + kr), h0 + hr);
      Filter32Concat(h0, hr);
      assert HintsByBatches(rows, bs) == Filter32(h0) + HintsByBatches(rows, bs[1..]);
      assert multiset(HintsByBatches(rows, bs)) == multiset(Filter32(h0)) + multiset(Filter32(hr));
      assert multiset(Filter32(HintsOfCoinsIn(rows, k0 + kr))) == multiset(Filter32(h0)) + multiset(Filter32(hr));
    }
  }

  /** With the batches of a list of coin ids: a hint is returned exactly when
      it is 32 bytes long and stored for a coin of the list. */
  lemma HintsOfListedCoins(rows: seq<Row>, bs: seq<seq<Bytes>>, coinIds: seq<Bytes>, limit: int)
    requires IsBatching(bs, multiset(coinIds), limit)
    ensures forall h :: h in HintsByBatches(rows, bs) <==>
      IsBytes32(h) && exists r :: r in rows && r.coinId in coinIds && r.hint == h
  {
    ListBatchingCovers(bs, coinIds, limit);
    assert forall c :: c in Flatten(bs) <==> c in coinIds by {
      forall c ensures c in Flatten(bs) <==> c in coinIds {
        assert c in Elements(Flatten(bs)) <==> c in Elements(coinIds);
      }
    }
    forall h ensures h in HintsByBatches(rows, bs) <==>
      IsBytes32(h) && exists r :: r in rows && r.coinId in coinIds && r.hint == h
    {
      HintsByBatchesMembers(rows, bs, h);
    }
  }

  /** With the batches of a list of distinct coin ids: the hints come back as
      often as one query over all the coins would return them, 32-byte ones only. */
  lemma HintsOfDistinctListedCoins(rows: seq<Row>, bs: seq<seq<Bytes>>, coinIds: seq<Bytes>, limit: int)
    requires IsBatching(bs, multiset(coinIds), limit)
    requires NoDuplicates(coinIds)
    ensures multiset(HintsByBatches(rows, bs)) == multiset(Filter32(HintsOfCoinsIn(rows, Elements(coinIds))))
  {
    ListBatchingCovers(bs, coinIds, limit);
    ListBatchingKeepsDistinct(bs, coinIds, limit);
    HintsByBatchesExact(rows, bs);
  }

  // ---------------------------------------------------------------------
  // get_hints_for_coin_ids: one map from the rows of the given coins

  /** The map holds a key for exactly the listed coins that have a row, and
      each key's value is a hint stored for that coin. */
  lemma HintMapOfCoins(rows: seq<Row>, coinIds: set<Bytes>)
    ensures var m := BuildMap(Where(rows, CoinIdColumn, coinIds));
      && (forall k :: k in m <==> k in coinIds && exists r :: r in rows && r.coinId == k)
      && (forall k :: k in m ==> Row(k, m[k]) in rows)
  {
    var q := Where(rows, CoinIdColumn, coinIds);
    var m := BuildMap(q);
    forall k ensures (k in m <==> k in coinIds && exists r :: r in rows && r.coinId == k)
                  && (k in m ==> Row(k, m[k]) in rows)
    {
      BuildMapLastWins(q, k);
      if k in coinIds && exists r :: r in rows && r.coinId == k {
        var r :| r in rows && r.coinId == k;
        assert r in q;
        var j :| 0 <= j < |q| && q[j] == r;
      }
      if k in m {
        var j :| 0 <= j < |q| && q[j].coinId == k && m[k] == q[j].hint;
        assert q[j] in q;
        assert q[j] == Row(k, m[k]);
      }
    }
  }

  // ---------------------------------------------------------------------
  // get_coin_ids_by_hints_paginated: keyset pagination on coin_id

  /** `coin_id > last_id`, or no condition on the first page. */
  predicate After(lastId: Option<Bytes>, id: Bytes) {
    lastId.None? || Less(lastId.value, id)
  }

  function AfterCursor(ids: seq<Bytes>, lastId: Option<Bytes>): (r: seq<Bytes>)
    ensures forall x :: x in r <==> x in ids && After(lastId, x)
  {
    if ids == [] then []
    else (if After(lastId, ids[0]) then [ids[0]] else []) + AfterCursor(ids[1..], lastId)
  }

  /** `SELECT coin_id FROM hints WHERE hint IN (hints) [AND coin_id > last_id]
      ORDER BY coin_id LIMIT page_size`. */
  function Page(rows: seq<Row>, hints: set<Bytes>, pageSize: int, lastId: Option<Bytes>): seq<Bytes> {
    Limit(Sort(AfterCursor(CoinIdsWithHintIn(rows, hints), lastId)), pageSize)
  }

  /** The coin ids of matching rows that are still ahead of the cursor. */
  function Remaining(rows: seq<Row>, hints: set<Bytes>, lastId: Option<Bytes>): set<Bytes> {
    set id | id in CoinIdsWithHintIn(rows, hints) && After(lastId, id)
  }

  /** No matching id past the cursor is missing from page `p` unless it lies
      beyond the page's last id and the page is full. */
  predicate SkipsNothing(rows: seq<Row>, hints: set<Bytes>, pageSize: int, lastId: Option<Bytes>, p: seq<Bytes>) {
    forall id :: id in Remaining(rows, hints, lastId)
      && (pageSize < 0 || |p| < pageSize || (|p| > 0 && LessEq(id, p[|p| - 1])))
      ==> id in p
  }

  /** Every id on a page comes from a matching row and lies past the cursor. */
  lemma PageInRemaining(rows: seq<Row>, hints: set<Bytes>, pageSize: int, lastId: Option<Bytes>)
    ensures forall id :: id in Page(rows, hints, pageSize, lastId) ==> id in Remaining(rows, hints, lastId)
  {
    var s := Sort(AfterCursor(CoinIdsWithHintIn(rows, hints), lastId));
    SortSpec(AfterCursor(CoinIdsWithHintIn(rows, hints), lastId));
    forall id | id in Page(rows, hints, pageSize, lastId) ensures id in Remaining(rows, hints, lastId) {
      assert id in multiset(s);
    }
  }

  /** Every id on a page is past the cursor and is the coin id of a row whose
      hint is in the list. */
  lemma PageRowsMatch(rows: seq<Row>, hints: seq<Bytes>, pageSize: int, lastId: Option<Bytes>)
    ensures forall id :: id in Page(rows, Elements(hints), pageSize, lastId) ==>
      After(lastId, id) && exists r :: r in rows && r.hint in hints && r.coinId == id
  {
    PageInRemaining(rows, Elements(hints), pageSize, lastId);
    forall id | id in Page(rows, Elements(hints), pageSize, lastId)
      ensures After(lastId, id) && exists r :: r in rows && r.hint in hints && r.coinId == id
    {
      CoinIdsWithHintInMembers(rows, Elements(hints), id);
    }
  }

  /** A page leaves out no matching id past the cursor, unless the page is
      full and the id lies beyond its last id. */
  lemma PageSkipsNothing(rows: seq<Row>, hints: set<Bytes>, pageSize: int, lastId: Option<Bytes>)
    ensures SkipsNothing(rows, hints, pageSize, lastId, Page(rows, hints, pageSize, lastId))
  {
    var p := Page(rows, hints, pageSize, lastId);
    forall id | id in Remaining(rows, hints, lastId)
        && (pageSize < 0 || |p| < pageSize || (|p| > 0 && LessEq(id, p[|p| - 1])))
      ensures id in p
    {
      PageHolds(rows, hints, pageSize, lastId, id);
    }
  }

  lemma PageHolds(rows: seq<Row>, hints: set<Bytes>, pageSize: int, lastId: Option<Bytes>, id: Bytes)
    requires id in Remaining(rows, hints, lastId)
    requires var p := Page(rows, hints, pageSize, lastId);
      pageSize < 0 || |p| < pageSize || (|p| > 0 && LessEq(id, p[|p| - 1]))
    ensures id in Page(rows, hints, pageSize, lastId)
  {
    var cands := AfterCursor(CoinIdsWithHintIn(rows, hints), lastId);
    SortSpec(cands);
    assert id in cands;
    assert id in multiset(Sort(cands));
    SortedLimitHolds(Sort(cands), pageSize, id);
  }

  /** The first `n` elements of a sorted sequence hold every element of it
      that is not above the last of them, and all of it when fewer are kept. */
  lemma SortedLimitHolds(s: seq<Bytes>, n: int, x: Bytes)
    requires Sorted(s) && x in s
    requires var p := Limit(s, n); n < 0 || |p| < n || (|p| > 0 && LessEq(x, p[|p| - 1]))
    ensures x in Limit(s, n)
  {
    if n >= 0 && |s| > n {
      var p := Limit(s, n);
      assert p == s[..n];
      assert p[|p| - 1] == s[n - 1];
      SortedPrefixHoldsSmaller(s, n, x);
    }
  }

  /** A page holds at most `pageSize` ids, all of matching rows and past the
      cursor, in order; it skips none: every matching id past the cursor and
      not beyond the page's last id is on it, and on a short page every
      matching id past the cursor is. */
  lemma PageProperties(rows: seq<Row>, hints: set<Bytes>, pageSize: int, lastId: Option<Bytes>)
    ensures var p := Page(rows, hints, pageSize, lastId);
      && (pageSize >= 0 ==> |p| <= pageSize)
      && (forall id :: id in p ==> id in Remaining(rows, hints, lastId))
      && Sorted(p)
      && SkipsNothing(rows, hints, pageSize, lastId, p)
  {
    PageInRemaining(rows, hints, pageSize, lastId);
    PageIsSorted(rows, hints, pageSize, lastId);
    PageSkipsNothing(rows, hints, pageSize, lastId);
  }

  /** The cursor a page hands back: its last id, or the old cursor when it is empty. */
  function NextLastId(page: seq<Bytes>, lastId: Option<Bytes>): Option<Bytes> {
    if page == [] then lastId else Some(page[|page| - 1])
  }

  /** Every id of the page that follows a page is strictly greater than every
      id on that page, so no id appears on two pages. */
  lemma NextPageIsBeyond(rows: seq<Row>, hints: set<Bytes>, pageSize: int, lastId: Option<Bytes>)
    requires Page(rows, hints, pageSize, lastId) != []
    ensures var p := Page(rows, hints, pageSize, lastId);
      forall x, y :: x in p && y in Page(rows, hints, pageSize, NextLastId(p, lastId)) ==> Less(x, y)
  {
    var p := Page(rows, hints, pageSize, lastId);
    var last := p[|p| - 1];
    PageIsSorted(rows, hints, pageSize, lastId);
    PageInRemaining(rows, hints, pageSize, Some(last));
    forall x, y | x in p && y in Page(rows, hints, pageSize, Some(last)) ensures Less(x, y) {
      var i :| 0 <= i < |p| && p[i] == x;
      assert y in Remaining(rows, hints, Some(last));
      if x != last {
        assert LessEq(x, last);
        LessTransitive(x, last, y);
      }
    }
  }

  /** A full page moves the cursor forward: fewer ids are left after its last id. */
  lemma PageProgress(rows: seq<Row>, hints: set<Bytes>, pageSize: int, lastId: Option<Bytes>, last: Bytes)
    requires Page(rows, hints, pageSize, lastId) != []
    requires last == Page(rows, hints, pageSize, lastId)[|Page(rows, hints, pageSize, lastId)| - 1]
    ensures |Remaining(rows, hints, Some(last))| < |Remaining(rows, hints, lastId)|
  {
    PageInRemaining(rows, hints, pageSize, lastId);
    assert last in Page(rows, hints, pageSize, lastId);
    RemainingPastMember(rows, hints, lastId, last);
  }

  /** Moving the cursor to an id that is still ahead of it leaves fewer ids ahead. */
  lemma RemainingPastMember(rows: seq<Row>, hints: set<Bytes>, lastId: Option<Bytes>, last: Bytes)
    requires last in Remaining(rows, hints, lastId)
    ensures |Remaining(rows, hints, Some(last))| < |Remaining(rows, hints, lastId)|
  {
    var before, after := Remaining(rows, hints, lastId), Remaining(rows, hints, Some(last));
    forall id | id in after ensures id in before - {last} {
      LessIrreflexive(last);
      if lastId.Some? {
        LessTransitive(lastId.value, last, id);
      }
    }
    SubsetCardinality(after, before - {last});
    assert before == (before - {last}) + {last};
  }

  /** Following `next_last_id` from a cursor until a page comes back short:
      the ids of all pages, in order. */
  function PagesFrom(rows: seq<Row>, hints: set<Bytes>, pageSize: int, lastId: Option<Bytes>): seq<Bytes>
    requires pageSize > 0
    decreases |Remaining(rows, hints, lastId)|
  {
    var p := Page(rows, hints, pageSize, lastId);
    if |p| < pageSize then p
    else
      var last := p[|p| - 1];
      PageProgress(rows, hints, pageSize, lastId, last);
      p + PagesFrom(rows, hints, pageSize, Some(last))
  }

  /** Ids past a later cursor are past an earlier one that it follows. */
  lemma RemainingShrinks(rows: seq<Row>, hints: set<Bytes>, lastId: Option<Bytes>, last: Bytes)
    requires After(lastId, last)
    ensures Remaining(rows, hints, Some(last)) <= Remaining(rows, hints, lastId)
  {
    forall id | id in Remaining(rows, hints, Some(last)) ensures id in Remaining(rows, hints, lastId) {
      if lastId.Some? {
        LessTransitive(lastId.value, last, id);
      }
    }
  }

  lemma PagesFromUnfold(rows: seq<Row>, hints: set<Bytes>, pageSize: int, lastId: Option<Bytes>)
    requires pageSize > 0
    requires |Page(rows, hints, pageSize, lastId)| >= pageSize
    ensures var p := Page(rows, hints, pageSize, lastId);
      PagesFrom(rows, hints, pageSize, lastId) == p + PagesFrom(rows, hints, pageSize, Some(p[|p| - 1]))
  {
  }

  /** The ids past a cursor are those on its page and those past the page's last id. */
  lemma PageSplitsRemaining(rows: seq<Row>, hints: set<Bytes>, pageSize: int, lastId: Option<Bytes>)
    requires Page(rows, hints, pageSize, lastId) != []
    ensures var p := Page(rows, hints, pageSize, lastId);
      Remaining(rows, hints, lastId) == Elements(p) + Remaining(rows, hints, Some(p[|p| - 1]))
  {
    var p := Page(rows, hints, pageSize, lastId);
    var last := p[|p| - 1];
    PageInRemaining(rows, hints, pageSize, lastId);
    PageSkipsNothing(rows, hints, pageSize, lastId);
    assert last in p;
    RemainingShrinks(rows, hints, lastId, last);
    forall id | id in Remaining(rows, hints, lastId)
      ensures id in Elements(p) + Remaining(rows, hints, Some(last))
    {
      LessTotal(id, last);
    }
  }

  /** A short page holds every id past its cursor. */
  lemma ShortPageIsLast(rows: seq<Row>, hints: set<Bytes>, pageSize: int, lastId: Option<Bytes>)
    requires |Page(rows, hints, pageSize, lastId)| < pageSize
    ensures Elements(Page(rows, hints, pageSize, lastId)) == Remaining(rows, hints, lastId)
  {
    PageInRemaining(rows, hints, pageSize, lastId);
    PageSkipsNothing(rows, hints, pageSize, lastId);
  }

  /** The pages from a cursor on hold exactly the matching ids past the cursor. */
  lemma {:induction false} PagesFromCovers(rows: seq<Row>, hints: set<Bytes>, pageSize: int, lastId: Option<Bytes>)
    requires pageSize > 0
    ensures Elements(PagesFrom(rows, hints, pageSize, lastId)) == Remaining(rows, hints, lastId)
    decreases |Remaining(rows, hints, lastId)|
  {
    var p := Page(rows, hints, pageSize, lastId);
    if |p| >= pageSize {
      var last := p[|p| - 1];
      PageProgress(rows, hints, pageSize, lastId, last);
      PagesFromCovers(rows, hints, pageSize, Some(last));
      PagesFromUnfold(rows, hints, pageSize, lastId);
      PageSplitsRemaining(rows, hints, pageSize, lastId);
      var rest := PagesFrom(rows, hints, pageSize, Some(last));
      ElementsConcat(p, rest);
    } else {
      ShortPageIsLast(rows, hints, pageSize, lastId);
    }
  }

  /** The pages from a cursor on come in non-decreasing order, each id past
      the cursor. */
  lemma {:induction false} PagesFromSorted(rows: seq<Row>, hints: set<Bytes>, pageSize: int, lastId: Option<Bytes>)
    requires pageSize > 0
    ensures Sorted(PagesFrom(rows, hints, pageSize, lastId))
    decreases |Remaining(rows, hints, lastId)|
  {
    var p := Page(rows, hints, pageSize, lastId);
    PageIsSorted(rows, hints, pageSize, lastId);
    if |p| >= pageSize {
      var last := p[|p| - 1];
      PageProgress(rows, hints, pageSize, lastId, last);
      PagesFromSorted(rows, hints, pageSize, Some(last));
      PagesFromCovers(rows, hints, pageSize, Some(last));
      var rest := PagesFrom(rows, hints, pageSize, Some(last));
      PagesFromUnfold(rows, hints, pageSize, lastId);
      forall i, j | 0 <= i < |p| && 0 <= j < |rest| ensures LessEq(p[i], rest[j]) {
        assert rest[j] in Elements(rest);
        if p[i] != last {
          assert LessEq(p[i], p[|p| - 1]);
          LessTransitive(p[i], last, rest[j]);
        }
      }
      SortedConcat(p, rest);
    }
  }

  lemma PageIsSorted(rows: seq<Row>, hints: set<Bytes>, pageSize: int, lastId: Option<Bytes>)
    ensures Sorted(Page(rows, hints, pageSize, lastId))
  {
    var s := Sort(AfterCursor(CoinIdsWithHintIn(rows, hints), lastId));
    SortSpec(AfterCursor(CoinIdsWithHintIn(rows, hints), lastId));
    var p := Page(rows, hints, pageSize, lastId);
    forall i, j | 0 <= i < j < |p| ensures LessEq(p[i], p[j]) {
      assert p[i] == s[i] && p[j] == s[j];
    }
  }

  lemma SortedConcat(a: seq<Bytes>, b: seq<Bytes>)
    requires Sorted(a) && Sorted(b)
    requires forall i, j :: 0 <= i < |a| && 0 <= j < |b| ==> LessEq(a[i], b[j])
    ensures Sorted(a + b)
  {
    var c := a + b;
    forall i, j | 0 <= i < j < |c| ensures LessEq(c[i], c[j]) {
      if j < |a| {
        assert c[i] == a[i] && c[j] == a[j];
      } else if i < |a| {
        assert c[i] == a[i] && c[j] == b[j - |a|];
      } else {
        assert c[i] == b[i - |a|] && c[j] == b[j - |a|];
      }
    }
  }

  /** Paging from the first page until a short page collects the coin id of
      every row whose hint is in the list, and no other, in non-decreasing order. */
  lemma PaginationCollectsEveryMatch(rows: seq<Row>, hints: set<Bytes>, pageSize: int)
    requires pageSize > 0
    ensures Elements(PagesFrom(rows, hints, pageSize, None)) == Elements(CoinIdsWithHintIn(rows, hints))
    ensures Sorted(PagesFrom(rows, hints, pageSize, None))
  {
    PagesFromCovers(rows, hints, pageSize, None);
    PagesFromSorted(rows, hints, pageSize, None);
  }

  /** The first-page count is of matching rows, not of coin ids: a coin stored
      under two of the listed hints is counted twice, and the pages, with the
      cursor moving past each page's last id, hand it out once. */
  lemma TotalCountCountsRows()
    ensures var c, h1, h2 := [1 as byte], [2 as byte], [3 as byte];
      var rows := [Row(c, h1), Row(c, h2)];
      && |Where(rows, HintColumn, {h1, h2})| == 2
      && PagesFrom(rows, {h1, h2}, 1, None) == [c]
  {
    var c, h1, h2 := [1 as byte], [2 as byte], [3 as byte];
    var rows := [Row(c, h1), Row(c, h2)];
    var hints := {h1, h2};
    assert rows[1..] == [Row(c, h2)] && rows[1..][1..] == [];
    assert Where(rows, HintColumn, hints) == rows;
    assert Project(rows, CoinIdColumn) == [c, c];
    assert [c, c][1..] == [c] && [c][1..] == [];
    assert Sort([c]) == [c];
    assert Sort([c, c]) == Insert(c, [c]) == [c, c];
    assert AfterCursor([c], None) == [c];
    assert AfterCursor([c, c], None) == [c, c];
    assert Page(rows, hints, 1, None) == [c];
    LessIrreflexive(c);
    assert !After(Some(c), c);
    assert AfterCursor([c], Some(c)) == [];
    assert AfterCursor([c, c], Some(c)) == [];
    assert Page(rows, hints, 1, Some(c)) == [];
    PagesFromUnfold(rows, hints, 1, None);
  }

  /** No coin is stored under two of the listed hints. */
  predicate OneListedHintPerCoin(rows: seq<Row>, hints: set<Bytes>) {
    forall r1, r2 :: (r1 in rows && r2 in rows && r1.hint in hints && r2.hint in hints
      && r1.coinId == r2.coinId) ==> r1 == r2
  }

  /** With one listed hint per coin, the matching rows have distinct coin ids. */
  lemma OneHintPerCoinDistinct(rows: seq<Row>, hints: set<Bytes>)
    requires NoDuplicates(rows) && OneListedHintPerCoin(rows, hints)
    ensures |Elements(CoinIdsWithHintIn(rows, hints))| == |Where(rows, HintColumn, hints)|
  {
    var w := Where(rows, HintColumn, hints);
    var s := CoinIdsWithHintIn(rows, hints);
    WhereKeepsDistinct(rows, HintColumn, hints);
    forall i, j | 0 <= i < j < |s| ensures s[i] != s[j] {
      assert s[i] == w[i].coinId && s[j] == w[j].coinId;
      assert w[i] in w && w[j] in w;
    }
    DistinctCardinality(s);
  }

  /** A coin stored under two listed hints makes fewer coin ids than matching rows. */
  lemma SharedCoinRepeats(rows: seq<Row>, hints: set<Bytes>)
    requires !OneListedHintPerCoin(rows, hints)
    ensures |Elements(CoinIdsWithHintIn(rows, hints))| < |Where(rows, HintColumn, hints)|
  {
    var r1, r2 :| r1 in rows && r2 in rows && r1.hint in hints && r2.hint in hints
      && r1.coinId == r2.coinId && r1 != r2;
    TwoMatchingRowsOneCoin(rows, hints, r1, r2);
  }

  lemma TwoMatchingRowsOneCoin(rows: seq<Row>, hints: set<Bytes>, r1: Row, r2: Row)
    requires r1 in rows && r2 in rows && r1 != r2
    requires r1.hint in hints && r2.hint in hints && r1.coinId == r2.coinId
    ensures |Elements(CoinIdsWithHintIn(rows, hints))| < |Where(rows, HintColumn, hints)|
  {
    var w := Where(rows, HintColumn, hints);
    var s := CoinIdsWithHintIn(rows, hints);
    assert Field(r1, HintColumn) in hints && Field(r2, HintColumn) in hints;
    assert r1 in w && r2 in w;
    var i :| 0 <= i < |w| && w[i] == r1;
    var j :| 0 <= j < |w| && w[j] == r2;
    assert s[i] == s[j];
    if i < j {
      RepeatShrinksElements(s, i, j);
    } else {
      RepeatShrinksElements(s, j, i);
    }
  }

  /** The first-page total equals the number of coin ids the pages hand out
      exactly when no coin is stored under two of the listed hints; otherwise
      it is larger. */
  lemma FirstPageCountVersusPages(rows: seq<Row>, hints: set<Bytes>, pageSize: int)
    requires NoDuplicates(rows) && pageSize > 0
    ensures OneListedHintPerCoin(rows, hints) ==>
      |Where(rows, HintColumn, hints)| == |Elements(PagesFrom(rows, hints, pageSize, None))|
    ensures !OneListedHintPerCoin(rows, hints) ==>
      |Where(rows, HintColumn, hints)| > |Elements(PagesFrom(rows, hints, pageSize, None))|
  {
    PaginationCollectsEveryMatch(rows, hints, pageSize);
    if OneListedHintPerCoin(rows, hints) {
      OneHintPerCoinDistinct(rows, hints);
    } else {
      SharedCoinRepeats(rows, hints);
    }
  }
}
