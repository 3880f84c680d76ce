# Hint store of a full node, modelled in Dafny

The hint store keeps the `hints` table of a full node's database. Each row pairs a
coin id with a hint, which is an opaque byte string that a coin's creator attached to
it. The pair `(coin_id, hint)` is unique. One coin may carry several hints, and one
hint may name many coins.

The store has one writer, `add_hints`. It does an `INSERT OR IGNORE` of a list of pairs.
Its readers are:

- a forward lookup from one hint, capped at `max_items`;
- a forward lookup from a list of hints, unbatched;
- a forward lookup from a set of hints, cut into batches that respect SQLite's limit on
  bound parameters, with the cap applied to each batch;
- keyset pagination over the coin ids of a list of hints, ordered by coin id, with a
  row count on the first page only;
- a reverse lookup from coin ids to hints, batched, that keeps only 32-byte hints;
- a coin id to hint map;
- a row count.

`create` refuses any database schema version other than 2.

The model reduces the database to the rows of the table.

- `HintIndex.HintStore` is a class whose field `rows: seq<Row>` holds the table in
  insertion order. `Valid()` is the `UNIQUE (coin_id, hint)` constraint.
- `add_hints` is a method that changes `rows`. The readers are a function
  (`GetCoinIds`, `CountHints`) or a method. Each is proved against a specification
  function in module `Queries`, built from the SQL pieces in module `Table`:
  - `Where` is `WHERE col IN (...)`;
  - `Project` is the selected column;
  - `Limit` is SQLite's `LIMIT`, where a negative limit means no limit;
  - `Sort` is `ORDER BY coin_id`, under the BLOB order of module `Bytes`.
- Batching (`to_batches`) is specified by its contract, `Batches.IsBatching`. Every batch
  holds between 1 and the limit keys, and together the batches hold each input key as
  often as the input does. The batched readers take the batches and the limit
  (`SQLITE_MAX_VARIABLE_NUMBER`) as parameters and require only that contract.
  `Batches.Chunks` is one routine that meets it.
- Coin ids and hints are byte strings (`seq<byte>`). The `bytes32` annotations on
  parameters are not enforced in the source, and the model does not enforce them
  either. The `bytes32(...)` conversions of returned coin ids raise on a value that
  is not 32 bytes long; the model leaves that check out (see "Left out"). Only the
  reverse lookup's length filter is modelled.

Behaviour of the code that the model keeps, where a reader might expect otherwise:

- `get_hints_for_coin_ids` returns hints of every length. Only `get_hints` drops hints
  that are not 32 bytes long.
- `get_coin_ids_by_hints` and `get_hints_for_coin_ids` put all their keys into one
  statement, without batching.
- A page of `get_coin_ids_by_hints_paginated` is in non-decreasing coin id order, not
  strictly increasing. A coin stored under two of the listed hints appears twice when
  both rows fall on one page. When the two rows fall on either side of a page boundary,
  the next page starts strictly after the cursor, so the second row is never handed out.
- The first-page total counts matching rows, not coins. `Queries.TotalCountCountsRows`
  shows a table where the total is 2 and the pages hand out one coin id.
- Every matching coin id is still reached by following the cursor until a short page
  (`Queries.PaginationCollectsEveryMatch`).

## Model

| member | source | states |
|---|---|---|
| HintIndex.HintStore.Create | chia/full_node/hint_store.py:20-32 | fails, with the offending version, exactly when the schema version is not 2; otherwise a fresh store whose table satisfies the uniqueness constraint and keeps the existing rows, or is empty when the table is new |
| HintIndex.HintStore.constructor | chia/full_node/hint_store.py:25-29 | the new store holds the given rows, which satisfy `UNIQUE (coin_id, hint)` |
| HintIndex.HintStore.GetCoinIds | chia/full_node/hint_store.py:34-39 | at most `max_items` ids; each is the coin of a stored row with that hint; all of them when there are no more than `max_items` matches, and exactly `max_items` when there are at least that many; no id twice |
| HintIndex.HintStore.GetCoinIdsByHints | chia/full_node/hint_store.py:41-53 | an empty hint list gives an empty list; otherwise the coin id of every row whose hint is listed, each as often as such rows exist, and an id is returned exactly when such a row exists |
| HintIndex.HintStore.GetCoinIdsByHintsPaginated | chia/full_node/hint_store.py:55-103 | an empty hint list gives an empty page, no cursor and no count; otherwise the page is at most `page_size` ids, each past the cursor and of a matching row, in non-decreasing order, with no matching id past the cursor left out unless the page is full and the id lies beyond its last id; the next cursor is the page's last id, or the old cursor on an empty page; the total is the number of matching rows on the first page and absent after it |
| HintIndex.HintStore.GetCoinIdsMulti | chia/full_node/hint_store.py:106-121 | the batches' results in batch order, each batch's rows taken in insertion order; no hints give no ids; each id is of a row with one of the hints; at most `max_items` per batch; when no batch has more than `max_items` matches, every matching row's coin id exactly as often as such rows exist |
| HintIndex.HintStore.GetHints | chia/full_node/hint_store.py:123-137 | a hint is returned exactly when it is 32 bytes long and stored for a listed coin; for a list without repeats, each such hint as often as one unbatched query over all the coins would return it |
| HintIndex.HintStore.AddHints | chia/full_node/hint_store.py:139-148 | the uniqueness constraint still holds; old rows stay in place and new pairs are appended once each, in list order, skipping pairs already present; a pair is stored afterwards exactly when it was stored before or is in the list; a list of pairs already stored changes nothing |
| HintIndex.HintStore.GetHintsForCoinIds | chia/full_node/hint_store.py:150-169 | an empty list gives an empty map; a coin is a key exactly when it is listed and has a row; each key maps to a hint stored for it, the one of its last row in insertion order |
| HintIndex.HintStore.CountHints | chia/full_node/hint_store.py:171-179 | the number of distinct stored pairs, that is, of rows |
| Table.Where | chia/full_node/hint_store.py:47 | a row is selected exactly when it is stored and its column's value is among the keys; never more rows than stored; no keys select nothing |
| Table.Limit | chia/full_node/hint_store.py:36 | a prefix of the result; at most `n` rows when `n` is not negative, all rows when `n` is negative or large enough, exactly `n` when there are at least `n` |
| Table.WhereKeepsDistinct | chia/full_node/hint_store.py:29 | selecting from a table of unique pairs gives unique pairs |
| Table.WhereUnion | chia/full_node/hint_store.py:110-118 | one query over two disjoint key sets returns the rows of the two separate queries together, each as often |
| Table.InsertAllKeepsUnique | chia/full_node/hint_store.py:29 | inserting with `INSERT OR IGNORE` into a table of unique pairs leaves the pairs unique |
| Table.InsertAllContents | chia/full_node/hint_store.py:144-147 | after the insert a pair is stored exactly when it was stored before or is in the list |
| Table.InsertAllAppends | chia/full_node/hint_store.py:144-147 | the old rows are a prefix of the new table |
| Table.InsertAllPresent | chia/full_node/hint_store.py:145 | inserting pairs that are all stored already changes nothing |
| Table.InsertAllIdempotent | chia/full_node/hint_store.py:145 | inserting the same list a second time changes nothing |
| Table.InsertAllCount | chia/full_node/hint_store.py:144-147 | the row count after an insert is the number of distinct pairs among the old rows and the list |
| Table.Filter32 | chia/full_node/hint_store.py:134 | keeps a hint exactly when it is 32 bytes long |
| Table.Filter32Multiset | chia/full_node/hint_store.py:134 | filtering two lists with the same elements, counted with multiplicity, gives results with the same elements, counted with multiplicity |
| Table.BuildMapLastWins | chia/full_node/hint_store.py:166-168 | a coin is a key exactly when some row has it, and its value is the hint of the last such row |
| Batches.BatchCountBound | chia/full_node/hint_store.py:110 | there are never more batches than keys |
| Batches.SetBatchingIsPartition | chia/full_node/hint_store.py:110 | the batches of a set hold every key of the set exactly once |
| Batches.ListBatchingCovers | chia/full_node/hint_store.py:127 | the batches of a list hold exactly the keys of the list |
| Batches.ListBatchingKeepsDistinct | chia/full_node/hint_store.py:127 | the batches of a list without repeats hold no key twice |
| Batches.Chunks | chia/full_node/hint_store.py:110 | consecutive pieces that together are the input, each of 1 to `limit` keys, as few as `limit` allows |
| Bytes.LessTransitive | chia/full_node/hint_store.py:73-76 | BLOB order is transitive |
| Bytes.LessTotal | chia/full_node/hint_store.py:73-76 | any two different byte strings are ordered one way or the other |
| Bytes.LessIrreflexive | chia/full_node/hint_store.py:73 | no byte string is after itself, so `coin_id > last_id` excludes the cursor |
| Sorting.SortSpec | chia/full_node/hint_store.py:75 | `ORDER BY` returns the same ids, each as often, in non-decreasing order |
| Queries.CoinIdsWithHintInMembers | chia/full_node/hint_store.py:47 | an id is selected exactly when some stored row has that coin id and a listed hint |
| Queries.HintsOfCoinsInMembers | chia/full_node/hint_store.py:130 | a hint is selected exactly when some stored row has that hint and a listed coin id |
| Queries.CoinIdsOfOneHintDistinct | chia/full_node/hint_store.py:29-36 | under the uniqueness constraint one hint's coin ids contain no repeats |
| Queries.CoinIdsByBatchesSound | chia/full_node/hint_store.py:110-118 | every id of the batched lookup is the coin of a row whose hint is in some batch |
| Queries.CoinIdsByBatchesBound | chia/full_node/hint_store.py:114-118 | the batched lookup returns at most `max_items` ids per batch |
| Queries.CoinIdsByBatchesCapPerBatch | chia/full_node/hint_store.py:114-118 | when every batch has at least `max_items` matches, exactly `max_items` per batch come back; the cap does not bound the total |
| Queries.CoinIdsByBatchesComplete | chia/full_node/hint_store.py:110-118 | when no batch has more than `max_items` matches, the batched lookup returns, counted with multiplicity, what one unbatched query over all hints would |
| Queries.HintsByBatchesMembers | chia/full_node/hint_store.py:127-134 | a hint comes back exactly when it is 32 bytes long and stored for a coin of some batch |
| Queries.HintsByBatchesExact | chia/full_node/hint_store.py:127-134 | batches without repeated coins give the 32-byte hints of one unbatched query, counted with multiplicity |
| Queries.HintsOfListedCoins | chia/full_node/hint_store.py:123-137 | with the batches of a coin list, a hint comes back exactly when it is 32 bytes long and stored for a listed coin |
| Queries.HintsOfDistinctListedCoins | chia/full_node/hint_store.py:123-137 | with the batches of a list without repeats, the hints are those of one unbatched query with only 32-byte hints kept, counted with multiplicity |
| Queries.HintMapOfCoins | chia/full_node/hint_store.py:156-168 | the map's keys are exactly the listed coins with a row, and each value is a hint stored for its key |
| Queries.AfterCursor | chia/full_node/hint_store.py:73 | keeps an id exactly when there is no cursor or it is strictly after the cursor |
| Queries.PageInRemaining | chia/full_node/hint_store.py:71-76 | every id on a page is of a matching row and past the cursor |
| Queries.PageRowsMatch | chia/full_node/hint_store.py:71-76 | every id on a page is past the cursor and the coin of a row with a listed hint |
| Queries.PageIsSorted | chia/full_node/hint_store.py:75 | a page is in non-decreasing coin id order |
| Queries.PageSkipsNothing | chia/full_node/hint_store.py:71-76 | no matching id past the cursor is missing from a page unless the page is full and the id lies beyond its last id |
| Queries.PageHolds | chia/full_node/hint_store.py:71-76 | a matching id past the cursor that is not beyond the page's last id, or any such id when the page is short, is on the page |
| Queries.SortedLimitHolds | chia/full_node/hint_store.py:75-76 | the first `n` ids in order hold every id not above the last of them, and every id when fewer than `n` are kept |
| Queries.PageProperties | chia/full_node/hint_store.py:71-76 | a page has at most `page_size` ids, all matching and past the cursor, in order, skipping none |
| Queries.NextPageIsBeyond | chia/full_node/hint_store.py:73-97 | every id of the page after a non-empty page is strictly greater than every id on that page |
| Queries.PageProgress | chia/full_node/hint_store.py:96-97 | after a non-empty page, fewer matching ids lie past the new cursor than past the old |
| Queries.RemainingPastMember | chia/full_node/hint_store.py:73 | moving the cursor to an id still ahead of it leaves fewer ids ahead |
| Queries.RemainingShrinks | chia/full_node/hint_store.py:73 | the ids past a later cursor are among those past an earlier one |
| Queries.PageSplitsRemaining | chia/full_node/hint_store.py:71-97 | the ids past a cursor are those on its page together with those past the page's last id |
| Queries.ShortPageIsLast | chia/full_node/hint_store.py:71-76 | a page shorter than `page_size` holds every matching id past its cursor |
| Queries.PagesFromCovers | chia/full_node/hint_store.py:55-103 | following the cursor until a short page collects exactly the matching ids past the first cursor |
| Queries.PagesFromSorted | chia/full_node/hint_store.py:55-103 | the pages, one after another, are in non-decreasing coin id order |
| Queries.PaginationCollectsEveryMatch | chia/full_node/hint_store.py:55-103 | paging from the first page until a short page reaches every coin id of a matching row and no other, in non-decreasing order |
| Table.Project | chia/full_node/hint_store.py:50-52 | the selected column: one value per row, the row's value in that column, in row order |
| Table.InsertOrIgnore | chia/full_node/hint_store.py:145 | definition: a pair already stored is skipped, otherwise it is appended |
| Table.InsertAll | chia/full_node/hint_store.py:144-147 | definition: `INSERT OR IGNORE` of each pair of the list in turn |
| Table.BuildMap | chia/full_node/hint_store.py:166-168 | definition: the dict built row by row, a later row overwriting an earlier one with the same coin id |
| Bytes.Less | chia/full_node/hint_store.py:73-76 | definition: byte-by-byte comparison, a proper prefix first (SQLite's BINARY collation on BLOBs) |
| Sorting.Sort | chia/full_node/hint_store.py:75 | definition: insertion sort under BLOB order; its properties are `Sorting.SortSpec` |
| Batches.IsBatching | chia/full_node/hint_store.py:110 | definition: the contract the batches of `to_batches` meet: a positive limit, 1 to `limit` keys per batch, and each key as often as in the input |
| Queries.CoinIdsWithHintIn | chia/full_node/hint_store.py:47 | definition: the coin id column of the rows whose hint is listed; its membership is `Queries.CoinIdsWithHintInMembers` |
| Queries.HintsOfCoinsIn | chia/full_node/hint_store.py:130 | definition: the hint column of the rows whose coin id is listed; its membership is `Queries.HintsOfCoinsInMembers` |
| Queries.CoinIdsByBatches | chia/full_node/hint_store.py:110-118 | definition: for each batch in turn, the `LIMIT max_items` lookup of its hints, results appended |
| Queries.HintsByBatches | chia/full_node/hint_store.py:127-134 | definition: for each batch in turn, the hints of its coins with only 32-byte hints kept, results appended |
| Queries.Page | chia/full_node/hint_store.py:71-76 | definition: the matching coin ids past the cursor, in `ORDER BY coin_id` order, cut by `LIMIT page_size`; its properties are `Queries.PageProperties` |
| Queries.NextLastId | chia/full_node/hint_store.py:92-101 | definition: the page's last id, or the old cursor when the page is empty |
| Queries.PagesFrom | chia/full_node/hint_store.py:55-103 | definition: a caller's loop that passes each page's next cursor back until a page comes back short; the pages concatenated. It terminates because each full page shrinks the ids left (`Queries.PageProgress`) |
| HintIndex.CollectRows | chia/full_node/hint_store.py:50-52 | the list built by appending the fetched rows one by one is the fetched result, in order |
| Queries.OneHintPerCoinDistinct | chia/full_node/hint_store.py:64-67 | when no coin has two listed hints, there are as many distinct matching coin ids as matching rows |
| Queries.SharedCoinRepeats | chia/full_node/hint_store.py:64-67 | when some coin has two listed hints, there are fewer distinct matching coin ids than matching rows |
| Queries.TwoMatchingRowsOneCoin | chia/full_node/hint_store.py:64-67 | two different matching rows of one coin make fewer distinct coin ids than matching rows |
| Queries.FirstPageCountVersusPages | chia/full_node/hint_store.py:64-103 | the first-page total equals the number of distinct coin ids the pages hand out exactly when no coin is stored under two listed hints, and is larger otherwise |
| Queries.TotalCountCountsRows | chia/full_node/hint_store.py:64-67 | the first-page total counts rows: for one coin under two listed hints it is 2, while the pages hand out the coin once |

## Left out

- The database connection and its lifecycle are not modelled: `DBWrapper2`, reader and writer scopes, transactions, `async` and the logging calls. A call works on the store's rows as they are when it starts.
- Concurrency is not modelled. That includes concurrent writers, and pages or counts that go stale while other calls change the table.
- `create` runs `CREATE TABLE IF NOT EXISTS` and `CREATE INDEX IF NOT EXISTS`. Whether the table exists already is a parameter. The index `hint_index` and the unique index are not modelled. Their `INDEXED BY` hints make SQLite walk `get_coin_ids_multi`'s rows in `hint_index` order and `get_hints_for_coin_ids`'s rows in `(coin_id, hint)` order. That row order is not modelled; the next lines say what it decides.
- The SQL text is not modelled. Each statement is modelled by what it returns.
- Row order of the queries without `ORDER BY` is not modelled. SQLite promises no order there; in practice it is the order of the index it walks. The model fixes insertion order within every such query. The contracts of `GetCoinIds` and `GetCoinIdsByHints` state only membership, multiplicity and size, so they hold for any row order.
- GetCoinIdsMulti: the ensures `coinIds == CoinIdsByBatches(...)` fixes insertion order inside each batch, and with it which ids the per-batch `LIMIT` keeps. SQLite keeps those of its `hint_index` walk instead. Its other clauses (soundness, the per-batch bound, completeness when no batch reaches the cap) hold for any row order.
- GetHints: the ensures `hints == HintsByBatches(...)` fixes insertion order inside each batch. Its membership and multiset clauses hold for any row order.
- GetHintsForCoinIds: the ensures `m == BuildMap(...)` makes a coin's last row in insertion order win. In SQLite the walk of the unique `(coin_id, hint)` index decides, so in practice the coin's greatest hint in BLOB order wins. Its other clauses (the keys are exactly the listed coins with a row, and each value is a stored hint of its key) hold for any row order.
- The batching routine `to_batches` is not part of this model. The batched readers are given its result, which must meet `IsBatching`: every batch has between 1 and the limit keys, and the batches together hold the input keys. Its own order and determinism are not modelled.
- `SQLITE_MAX_VARIABLE_NUMBER` is a parameter. The unbatched readers (`get_coin_ids_by_hints`, the paginated reader, `get_hints_for_coin_ids`) are modelled without SQLite's error when they bind too many parameters.
- `bytes32(...)` raises on a value that is not 32 bytes long. `get_coin_ids` and `get_coin_ids_multi` convert each returned coin id, so they fail on a stored coin id of another width. The model leaves that check out and returns such ids. The `bytes32` annotations on parameters are not enforced in the source, nor in the model.
- GetCoinIdsByHintsPaginated: on an empty hint list the source returns a bare empty list, not the declared triple. The model returns an empty page, no cursor and no count.
- GetHintsForCoinIds: on an empty coin list the source returns an empty list where a dict is declared. The model returns an empty map.
- `page_size` is interpolated into the SQL text. The model treats it as an integer, where a negative value means no limit.
