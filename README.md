# Storage-bundling ledger store, modelled in Dafny

This project models the persistence core of a storage-bundling node: `database/database.go`. Clients pay for data storage. The node records each purchase as an order and later anchors the data in a transaction on a public ledger. The store holds these tables:

- **orders**: payment state, settlement state, signer, API key, size and timestamps.
- **on-chain transactions**: the transactions that anchor the data, with their confirmation state and a flag recording that the downstream event was published.
- **refund receipts**, keyed by raw id.
- **token prices**, keyed by symbol.
- **daily statistic rollups**.

The Go code is a thin layer over an ORM. Each of its functions is one SQL statement, and the model states what that statement does to the table contents.

- `Schema` (`schema.dfy`) holds the rows as datatypes. The status fields become closed variants.
- `Tables` (`tables.dfy`) gives the relational building blocks the queries are made of:
  - `Select` is WHERE and keeps table order;
  - `Limit` is LIMIT;
  - `Reverse` turns a key-ascending selection into ORDER BY id DESC;
  - `SumOf` is SUM.
- `OrderLedger`, `Settlement`, `Refunds`, `PriceCache` and `Statistics` model one group of database.go each:
  - every query is a function of the table contents;
  - every UPDATE statement is a function from the old rows to the new ones;
  - the lemmas relate them.
- The two statistics functions that loop in Go, GetOrderRealTimeStatistic (database/database.go:243-253) and GetOrderStatisticByDate (database/database.go:266-276), are methods with the same loops. GetDailyStatisticByDate and WhetherExec are single queries and are functions.
- `Store.Database` (`database.dfy`) is a class that owns the tables. Its methods are the INSERT and UPDATE operations. Each one reassigns the field it writes and keeps the key invariants (`Valid`):
  - auto-increment ids are positive and ascending;
  - receipts stay in raw-id order;
  - a transaction marked published stays marked.

The tables are modelled as follows:

- Tables are sequences of rows in primary-key order. The exception is the price table, which is a map from symbol to price.
- `Last` and `First` therefore pick the highest and the lowest id.
- A row's position is only used where the Go code asks for an order. For queries without ORDER BY, the contracts state only facts that hold whatever order the store returns.
- "Record not found" is `None`.
- The current time is a parameter: `now` in Unix seconds, `nowMillis` in milliseconds.
- Every timestamp is an instant in Unix seconds. A timestamp that was never set holds Go's zero time, `Schema.ZeroTime`.

Two properties one might expect of this ledger are not claimed, because database.go does not enforce them: that an order settled or failed on chain is never unpaid, and that a transaction carries block data exactly when it succeeded.

- UpdateOrdOnChainStatus sets any status on every order of the item, paid or not.
- UpdateArTxStatus stores a supplied proof whatever the status is. `Settlement.ConfirmTxFields` states this behaviour.

Recording a submission is two steps in the code, and the model keeps them apart: InsertArTx stores the caller's row under the next id, and UpdateArTx rewrites an existing row by id. Neither forces the row to be pending.

## Model

| member | source | states |
|---|---|---|
| OrderLedger.GetOpenOrders | database/database.go:28-32 | "not found" exactly when the item has no unpaid order; otherwise an unpaid order of the item with the highest id among them |
| OrderLedger.NewestUnpaidIsOpen | database/database.go:24-32 | an unpaid order appended under a fresh highest id keeps ids ascending and becomes the item's open order |
| OrderLedger.GetExpiredOrders | database/database.go:34-39 | an order is returned iff it is in the table, unpaid, and its payment deadline is before `now`; no row is returned more often than it is stored |
| OrderLedger.ExpireOrderLeavesSweep | database/database.go:34-58 | after expiring order `id`, the sweep (for any `now`) returns exactly what it returned before minus that order |
| OrderLedger.ExpireOrderIdempotent | database/database.go:53-58 | expiring an order twice gives the same table as expiring it once |
| OrderLedger.ExistPaidOrd | database/database.go:41-45 | inverted probe: true iff no paid order of the item exists |
| OrderLedger.IsLatestUnpaidOrd | database/database.go:47-51 | inverted probe: true iff no unpaid order of the item expires after the given time |
| OrderLedger.PaidOrderBlocksNewOrder | database/database.go:60-69 | once an order of the item is set paid, ExistPaidOrd reports false for the item |
| OrderLedger.GetNeedOnChainOrders | database/database.go:71-81 | at most 2000 rows, each paid, waiting for submission and in the requested sort queue, and none more often than it is stored, so no order is submitted twice from one batch; fewer than 2000 means every such row is returned |
| OrderLedger.SubmissionLeavesQueues | database/database.go:83-89 | after the item's orders are set pending, none of them is in either submission queue and the item counts as processed |
| OrderLedger.ExistProcessedOrderItem | database/database.go:117-123 | found iff some order of the item is pending or settled on chain; the one found is the lowest-id such order |
| OrderLedger.GetOrdersBySigner | database/database.go:91-98 | at most `num` rows in strictly descending id order, each of the signer, not failed and below the cursor (cursor ≤ 0 means MaxInt64); any qualifying row left out is below every returned id of a full page |
| OrderLedger.SortIsAscSpellings | database/database.go:103 | `strings.ToUpper(sort) == "ASC"` holds exactly for three-rune strings a/A, s/S/ſ, c/C |
| OrderLedger.AscendingListing | database/database.go:104-108 | every row of the ascending page has the key and an id above the cursor (cursor ≤ 0 means 0) |
| OrderLedger.DescendingListing | database/database.go:109-114 | every row of the descending page has the key and an id below the cursor (cursor ≤ 0 means MaxInt64) |
| OrderLedger.GetOrdersByApiKey | database/database.go:100-116 | with "ASC" in any case, the page holds the `pageSize` lowest ids above the cursor, ascending; otherwise the `pageSize` highest ids below it, descending |
| OrderLedger.WalkAscFromCursor | database/database.go:100-116 | feeding each ascending page's last id back as the cursor visits exactly the key's orders above the starting cursor, in table order |
| OrderLedger.WalkAscVisitsEveryOrder | database/database.go:100-116 | the walk from cursor 0 is strictly ascending and visits an order iff it has the key, so each exactly once |
| Settlement.GetArTxByStatus | database/database.go:184-188 | a transaction is returned iff it has the given status; none more often than it is stored |
| Settlement.GetKafkaOnChains | database/database.go:214-218 | at most 10 rows, each above height 1188855, unpublished and successful, and none more often than it is stored, so no event is published twice from one batch; fewer than 10 means every such row is returned |
| Settlement.ConfirmTxFields | database/database.go:190-202 | rows with the chain id take the status; their block hash and height change iff a proof is given; nothing else changes |
| Settlement.ConfirmedTxBecomesPublishable | database/database.go:190-218 | confirming an unpublished transaction as successful with a proof above the cutover makes it a publication candidate |
| Settlement.MarkPublishedExcludes | database/database.go:214-222 | after KafkaOnChainDone(id) no batch holds that transaction |
| Settlement.MarkPublishedIdempotent | database/database.go:220-222 | marking published twice equals marking once |
| Settlement.PublishedFlagSticky | database/database.go:190-222 | no update of the transaction table clears the published flag |
| Settlement.PublishedNeverSelected | database/database.go:214-218 | while every transaction marked published keeps its flag, no batch holds any of them |
| Refunds.InsertReceiptTx | database/database.go:145-147 | insert-if-absent: a known raw id leaves the table unchanged; otherwise exactly the new receipt is added and raw-id order is kept |
| Refunds.InsertReceiptTxIdempotent | database/database.go:145-147 | recording a receipt twice equals recording it once |
| Refunds.GetLastEverRawId | database/database.go:149-156 | 0 for an empty table; otherwise a recorded raw id that no recorded raw id exceeds |
| Refunds.InsertAdvancesLastRawId | database/database.go:145-156 | after an insert the last raw id is the larger of the old one and the new receipt's |
| Refunds.GetReceiptsByStatus | database/database.go:158-163 | a receipt is returned iff it has the status and its nonce is later than `nowMillis` minus one day; none more often than it is stored |
| Refunds.SetReceiptStatusMovesListing | database/database.go:165-171 | after UpdateReceiptStatus the receipt is listed under the new status only, if recent |
| Refunds.RefundErrorMovesListing | database/database.go:173-178 | after UpdateRefundErr the receipt is listed only under the error status, with the message; other receipts keep their listing |
| PriceCache.InsertPrices | database/database.go:125-127 | cached prices never change; new symbols are added; within a batch the first price of a symbol wins |
| PriceCache.UpdatePrice | database/database.go:129-131 | overwrites the price of a cached symbol, changes nothing else and adds no symbol |
| PriceCache.GetPrices | database/database.go:133-137 | a (symbol, price) pair is returned iff it is cached |
| PriceCache.GetArPrice | database/database.go:139-143 | "not found" iff AR is not cached; otherwise the cached AR price |
| PriceCache.SeedThenUpdate | database/database.go:125-143 | once AR is seeded, a later seed does not move its price and an update sets it |
| PriceCache.SeedArPrice | database/database.go:125-143 | after a seed, AR is priced iff it was cached or seeded, and a cached AR price is unchanged |
| Statistics.GetOrderRealTimeStatistic | database/database.go:238-255 | the grouped rows come first; the whole report is a permutation of the four status tallies (count and size of the orders in each status) |
| Statistics.ZeroFillKeepsGroups | database/database.go:243-253 | the zero-fill loop only appends |
| Statistics.ReportIsTallies | database/database.go:238-255 | the report is a permutation of the four status tallies |
| Statistics.ReportCoversEveryStatus | database/database.go:238-255 | the report has four rows; every status's true tally is in it and nothing else is |
| Statistics.EmptyTableReport | database/database.go:238-255 | with an empty order table the report is waiting, pending, success, failed, all zero |
| Statistics.SortByDate | database/database.go:261 | ORDER BY date gives a date-ascending permutation |
| Statistics.GetOrderStatisticByDate | database/database.go:257-278 | one row per rollup dated within the inclusive range (an unparsable bound is the zero time), in date order, tagged "success" with its counts |
| Statistics.RollupsInRange | database/database.go:257-278 | a rollup is reported iff it is in the table and within the range |
| Statistics.GetDailyStatisticByDate | database/database.go:280-283 | no row iff no order reached success with its last update in `[start, end)`; otherwise one row with an empty label whose count and size are the success tally of the live report over the orders updated in the window |
| Statistics.WindowsAdd | database/database.go:280-283 | the count and size of `[a, c)` are those of `[a, b)` plus `[b, c)` |
| Statistics.WholeWindowIsSuccessTally | database/database.go:280-283 | a window spanning every update reports the success tally of the live report |
| Statistics.WhetherExec | database/database.go:285-289 | true iff no rollup is dated within `[start, end)` |
| Statistics.WhetherExecGuard | database/database.go:285-289 | true on an empty table, false once a rollup within the range is added, and adding rows never turns it back to true |
| Store.Database.constructor | database/database.go:15-17 | empty tables (except the rollups given), keys valid |
| Store.Database.InsertOrder | database/database.go:24-26 | appends the order under the next id, stamps unset timestamps; an unpaid order becomes its item's open order |
| Store.Database.UpdateOrdToExpiredStatus | database/database.go:53-58 | only the order with that id changes; the sweep never returns it again |
| Store.Database.UpdateOrderPay | database/database.go:60-69 | sets payment status and reference of the order with that id |
| Store.Database.UpdateOrdOnChainStatus | database/database.go:83-89 | sets the on-chain status of every order of the item |
| Store.Database.InsertPrices | database/database.go:125-127 | applies the insert-ignore batch to the price table |
| Store.Database.UpdatePrice | database/database.go:129-131 | overwrites a cached price |
| Store.Database.InsertReceiptTx | database/database.go:145-147 | applies insert-if-absent, keeping raw-id order |
| Store.Database.UpdateReceiptStatus | database/database.go:165-171 | sets the status of the receipt with that raw id |
| Store.Database.UpdateRefundErr | database/database.go:173-178 | moves the receipt to the error status with the message |
| Store.Database.InsertArTx | database/database.go:180-182 | appends the transaction under the next id |
| Store.Database.UpdateArTxStatus | database/database.go:190-202 | applies the status update, with block fields only when a proof is given |
| Store.Database.UpdateArTx | database/database.go:204-212 | rewrites the submission fields of the transaction with that id |
| Store.Database.KafkaOnChainDone | database/database.go:220-222 | marks the transaction published and adds its id to the ids ever marked; no batch afterwards holds it or any transaction marked before |

## Left out

- Migrate (database/database.go:19-22): creating the schema is outside the table semantics.
- InsertManifest, GetManifestId and DelManifest (database/database.go:224-236): manifest bookkeeping is not part of the order and settlement core.
- Optional transaction handles (`tx *gorm.DB`): each update is applied on its own. Composing several updates into one atomic unit, and concurrency between workers, are not modelled.
- Clock reads: `time.Now()` becomes the `now` / `nowMillis` parameter.
- Date text: `time.Parse` and `Format` with layout "20060102" are not modelled. A parsed bound is the instant its day starts, or `None` when the text did not parse, which the query treats as the zero time. A report row carries that instant instead of the formatted date.
- JSON: the live report is returned as the list of rows `json.Marshal` would encode.
- Prices are `float64` in Go. Here they are opaque `real` values, and no arithmetic is done on them.
- Store faults: connection and transaction errors are not modelled, including the query error GetOrderRealTimeStatistic ignores at line 241. Only "record not found" is modelled.
- Caller-chosen keys: InsertOrder and InsertArTx always assign the next auto-increment id and ignore an id set by the caller. InsertOrder stamps `createdAt`/`updatedAt` only when they hold the zero time.
- Timestamps of transactions and receipts: no query reads them, so they are not tracked. Order updates do stamp `updatedAt`, because GetDailyStatisticByDate reads it.
- Page sizes: `num` and `pageSize` are `nat`, since `make` panics on a negative capacity. LIMIT 0 returns no rows.
- Integer widths: ids are `nat`. No 64-bit overflow is modelled, because the only extreme value used is the MaxInt64 cursor.
- `strings.ToUpper`: only the runes whose upper case is an ASCII letter are mapped. These are the only ones that matter for comparing with "ASC".
- Status values: they are closed variants, so a status string outside the known set cannot be passed in. The refund error status is its own variant, `RefundErr`, because the schema package that gives its string is not part of this model. `Other(name)` stands for every other status string; nothing in the model stops a caller from passing the error string as `Other`, so such a call is outside the model.
- The rollup table is written outside database.go. The store receives it at construction.
- OrderLedger.GetNeedOnChainOrders: does not say which 2000 rows are returned when more qualify, because the query has no ORDER BY.
- OrderLedger.GetExpiredOrders: states the returned set and not its order, because the query has no ORDER BY.
- Settlement.GetArTxByStatus: states the returned set and not its order, because the query has no ORDER BY.
- Settlement.GetKafkaOnChains: does not say which 10 rows are returned when more qualify, because the query has no ORDER BY.
- Refunds.GetReceiptsByStatus: states the returned set and not its order, because the query has no ORDER BY.
- Statistics.GetOrderRealTimeStatistic: lists the grouped rows in status order. The contracts state only that the report is a permutation of the tallies that starts with the grouped rows, because GROUP BY returns its groups in no defined order.
- Statistics.SortByDate: rollups with equal dates are not ordered among themselves, because ORDER BY date leaves their order open.
