/** The hint store of a full node: a table of `(coin_id, hint)` pairs, each pair
    at most once, with one writer (`AddHints`) and several readers: hint to coin
    ids, coin ids to hints, a coin id to hint map, keyset pagination and a row
    count. The database itself is reduced to the table's rows; connections,
    transactions and the query planner are not modelled. */
module HintIndex {
  import opened Wrappers
  import opened Bytes
  import opened Seqs
  import opened Sorting
  import opened Batches
  import opened Table
  import opened Queries

  /** The only database schema version the store accepts. */
  const SupportedDbVersion := 2

  /** Default cap of `get_coin_ids` and `get_coin_ids_multi`. */
  const DefaultMaxItems := 50000

  datatype SchemaError = UnsupportedSchemaVersion(version: int)

  /** The rows a query's cursor hands back, appended to a fresh list one by one. */
  method CollectRows(fetched: seq<Bytes>) returns (ids: seq<Bytes>)
    ensures ids == fetched
  {
    ids := [];
    var i := 0;
    while i < |fetched|
      invariant 0 <= i <= |fetched|
      invariant ids == fetched[..i]
    {
      assert fetched[..i + 1] == fetched[..i] + [fetched[i]];
      ids := ids + [fetched[i]];
      i := i + 1;
    }
    assert fetched[..i] == fetched;
  }

  class HintStore {
    /** The rows of the `hints` table, oldest first. */
    var rows: seq<Row>

    /** `UNIQUE (coin_id, hint)`. */
    ghost predicate Valid()
      reads this
    {
      NoDuplicates(rows)
    }

    constructor (existing: seq<Row>)
      requires NoDuplicates(existing)
      ensures Valid() && rows == existing
    {
      rows := existing;
    }

    /** Opens the store on a database of version `dbVersion`, creating the table
        when `existing` says there is none yet and keeping its rows otherwise. */
    static method Create(dbVersion: int, existing: Option<seq<Row>>) returns (r: Result<HintStore, SchemaError>)
      requires existing.Some? ==> NoDuplicates(existing.value)
      ensures r.Failure? <==> dbVersion != SupportedDbVersion
      ensures r.Failure? ==> r.error == UnsupportedSchemaVersion(dbVersion)
      ensures r.Success? ==> fresh(r.value) && r.value.Valid() && r.value.rows == existing.GetOr([])
    {
      if dbVersion != SupportedDbVersion {
        return Failure(UnsupportedSchemaVersion(dbVersion));
      }
      var store := new HintStore(existing.GetOr([]));
      return Success(store);
    }

    /** `SELECT coin_id FROM hints WHERE hint = ? LIMIT max_items`. */
    function GetCoinIds(hint: Bytes, nameonly maxItems: int := DefaultMaxItems): (ids: seq<Bytes>)
      reads this
      requires Valid()
      ensures maxItems >= 0 ==> |ids| <= maxItems
      ensures forall id :: id in ids ==> Row(id, hint) in rows
      ensures maxItems < 0 || |Where(rows, HintColumn, {hint})| <= maxItems ==>
        forall r :: r in rows && r.hint == hint ==> r.coinId in ids
      ensures maxItems >= 0 && |Where(rows, HintColumn, {hint})| >= maxItems ==> |ids| == maxItems
      ensures NoDuplicates(ids)
    {
      var all := CoinIdsWithHintIn(rows, {hint});
      CoinIdsOfOneHintDistinct(rows, hint);
      var ids := Limit(all, maxItems);
      assert forall id :: id in ids ==> Row(id, hint) in rows by {
        forall id | id in ids ensures Row(id, hint) in rows {
          LimitMember(all, maxItems, id);
          CoinIdsWithHintInMembers(rows, {hint}, id);
        }
      }
      assert forall i, j :: 0 <= i < j < |ids| ==> ids[i] == all[i] && ids[j] == all[j];
      assert maxItems < 0 || |Where(rows, HintColumn, {hint})| <= maxItems ==>
        forall r :: r in rows && r.hint == hint ==> r.coinId in ids
      by {
        forall r | r in rows && r.hint == hint ensures r.coinId in all {
          CoinIdsWithHintInMembers(rows, {hint}, r.coinId);
        }
      }
      ids
    }

    /** `SELECT coin_id FROM hints WHERE hint IN (...)`, rows copied into a list
        one by one; an empty hint list gives an empty list without a query. */
    method GetCoinIdsByHints(hints: seq<Bytes>) returns (coinIds: seq<Bytes>)
      ensures hints == [] ==> coinIds == []
      ensures multiset(coinIds) == multiset(CoinIdsWithHintIn(rows, Elements(hints)))
      ensures forall id :: id in coinIds <==> exists r :: r in rows && r.hint in hints && r.coinId == id
    {
      if |hints| == 0 {
        return [];
      }
      coinIds := CollectRows(CoinIdsWithHintIn(rows, Elements(hints)));
      forall id ensures id in coinIds <==> exists r :: r in rows && r.hint in hints && r.coinId == id {
        CoinIdsWithHintInMembers(rows, Elements(hints), id);
      }
    }

    /** One page of the coin ids of rows whose hint is in `hints`, in coin id
        order, past `lastId` when it is given; the number of matching rows is
        counted on the first page only. An empty hint list gives an empty
        result without a query. */
    method GetCoinIdsByHintsPaginated(hints: seq<Bytes>, pageSize: int, lastId: Option<Bytes>)
      returns (coinIds: seq<Bytes>, nextLastId: Option<Bytes>, totalCount: Option<nat>)
      ensures hints == [] ==> coinIds == [] && nextLastId == None && totalCount == None
      ensures hints != [] ==> coinIds == Page(rows, Elements(hints), pageSize, lastId)
      ensures pageSize >= 0 ==> |coinIds| <= pageSize
      ensures forall id :: id in coinIds ==>
        After(lastId, id) && exists r :: r in rows && r.hint in hints && r.coinId == id
      ensures Sorted(coinIds)
      ensures hints != [] ==> nextLastId == NextLastId(coinIds, lastId)
      ensures hints != [] ==>
        totalCount == if lastId == None then Some(|Where(rows, HintColumn, Elements(hints))|) else None
      ensures hints != [] ==> SkipsNothing(rows, Elements(hints), pageSize, lastId, coinIds)
    {
      if |hints| == 0 {
        return [], None, None;
      }
      var keys := Elements(hints);
      totalCount := None;
      if lastId == None {
        totalCount := Some(|Where(rows, HintColumn, keys)|);
      }
      coinIds := CollectRows(Page(rows, keys, pageSize, lastId));
      nextLastId := lastId;
      if |coinIds| > 0 {
        nextLastId := Some(coinIds[|coinIds| - 1]);
      }
      PageIsSorted(rows, keys, pageSize, lastId);
      PageSkipsNothing(rows, keys, pageSize, lastId);
      PageRowsMatch(rows, hints, pageSize, lastId);
    }

    /** `get_coin_ids_multi`: for each batch of hints in turn,
        `SELECT coin_id ... WHERE hint IN (batch) LIMIT max_items`, results
        appended. `batches` is what the batching routine made of `hints` for
        the limit `maxVariables`; the cap applies to each batch separately. */
    method GetCoinIdsMulti(hints: set<Bytes>, maxVariables: int, batches: seq<seq<Bytes>>,
                           nameonly maxItems: int := DefaultMaxItems)
      returns (coinIds: seq<Bytes>)
      requires IsBatching(batches, multiset(hints), maxVariables)
      ensures coinIds == CoinIdsByBatches(rows, batches, maxItems)
      ensures hints == {} ==> coinIds == []
      ensures forall id :: id in coinIds ==> exists r :: r in rows && r.hint in hints && r.coinId == id
      ensures maxItems >= 0 ==> |coinIds| <= |batches| * maxItems
      ensures (forall i :: 0 <= i < |batches| ==>
                 maxItems < 0 || |Where(rows, HintColumn, Elements(batches[i]))| <= maxItems)
        ==> multiset(coinIds) == multiset(CoinIdsWithHintIn(rows, hints))
    {
      coinIds := [];
      var i := 0;
      while i < |batches|
        invariant 0 <= i <= |batches|
        invariant coinIds + CoinIdsByBatches(rows, batches[i..], maxItems) == CoinIdsByBatches(rows, batches, maxItems)
      {
        var found := Limit(CoinIdsWithHintIn(rows, Elements(batches[i])), maxItems);
        assert batches[i..][1..] == batches[i + 1..];
        coinIds := coinIds + found;
        i := i + 1;
      }
      assert batches[i..] == [];
      SetBatchingIsPartition(batches, hints, maxVariables);
      BatchCountBound(batches, multiset(hints), maxVariables);
      forall id | id in coinIds ensures exists r :: r in rows && r.hint in hints && r.coinId == id {
        CoinIdsByBatchesSound(rows, batches, maxItems, id);
        CoinIdsWithHintInMembers(rows, hints, id);
      }
      if maxItems >= 0 {
        CoinIdsByBatchesBound(rows, batches, maxItems);
      }
      if forall i :: 0 <= i < |batches| ==>
           maxItems < 0 || |Where(rows, HintColumn, Elements(batches[i]))| <= maxItems {
        CoinIdsByBatchesComplete(rows, batches, maxItems);
      }
    }

    /** `get_hints`: for each batch of coin ids in turn, the hints stored for
        them, keeping only those 32 bytes long. */
    method GetHints(coinIds: seq<Bytes>, maxVariables: int, batches: seq<seq<Bytes>>) returns (hints: seq<Bytes>)
      requires IsBatching(batches, multiset(coinIds), maxVariables)
      ensures hints == HintsByBatches(rows, batches)
      ensures forall h :: h in hints <==> IsBytes32(h) && exists r :: r in rows && r.coinId in coinIds && r.hint == h
      ensures NoDuplicates(coinIds) ==>
        multiset(hints) == multiset(Filter32(HintsOfCoinsIn(rows, Elements(coinIds))))
    {
      hints := [];
      var i := 0;
      while i < |batches|
        invariant 0 <= i <= |batches|
        invariant hints + HintsByBatches(rows, batches[i..]) == HintsByBatches(rows, batches)
      {
        var stored := HintsOfCoinsIn(rows, Elements(batches[i]));
        assert batches[i..][1..] == batches[i + 1..];
        hints := hints + Filter32(stored);
        i := i + 1;
      }
      assert batches[i..] == [];
      HintsOfListedCoins(rows, batches, coinIds, maxVariables);
      if NoDuplicates(coinIds) {
        HintsOfDistinctListedCoins(rows, batches, coinIds, maxVariables);
      }
    }

    /** `INSERT OR IGNORE` of each pair in turn; an empty list changes nothing. */
    method AddHints(coinHintList: seq<Row>)
      requires Valid()
      modifies this
      ensures Valid()
      ensures rows == InsertAll(old(rows), coinHintList)
      ensures old(rows) <= rows
      ensures forall x :: x in rows <==> x in old(rows) || x in coinHintList
      ensures (forall x :: x in coinHintList ==> x in old(rows)) ==> rows == old(rows)
    {
      if |coinHintList| == 0 {
        return;
      }
      InsertAllKeepsUnique(rows, coinHintList);
      InsertAllAppends(rows, coinHintList);
      InsertAllContents(rows, coinHintList);
      if forall x :: x in coinHintList ==> x in rows {
        InsertAllPresent(rows, coinHintList);
      }
      rows := InsertAll(rows, coinHintList);
    }

    /** `get_hints_for_coin_ids`: the rows of the given coins, one query, folded
        into a map in which a later row overwrites an earlier one. Hints of any
        length are kept. An empty list gives an empty map without a query. */
    method GetHintsForCoinIds(coinIds: seq<Bytes>) returns (m: map<Bytes, Bytes>)
      ensures coinIds == [] ==> m == map[]
      ensures m == BuildMap(Where(rows, CoinIdColumn, Elements(coinIds)))
      ensures forall k :: k in m <==> k in coinIds && exists r :: r in rows && r.coinId == k
      ensures forall k :: k in m ==> Row(k, m[k]) in rows
    {
      if |coinIds| == 0 {
        return map[];
      }
      var selected := Where(rows, CoinIdColumn, Elements(coinIds));
      m := map[];
      var i := 0;
      while i < |selected|
        invariant 0 <= i <= |selected|
        invariant m == BuildMap(selected[..i])
      {
        assert selected[..i + 1][..i] == selected[..i];
        m := m[selected[i].coinId := selected[i].hint];
        i := i + 1;
      }
      assert selected[..i] == selected;
      HintMapOfCoins(rows, Elements(coinIds));
    }

    /** `SELECT COUNT(*) FROM hints`: the number of distinct pairs stored. */
    function CountHints(): (n: nat)
      reads this
      requires Valid()
      ensures n == |Elements(rows)|
    {
      DistinctCardinality(rows);
      |rows|
    }
  }
}
