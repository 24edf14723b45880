# steem-smartvotes-core: account-history pager, v2 age-of-post codec, raw filters and SQL helpers

This Dafny project models the logic of the steem-smartvotes core that works
without the network.

**The account-history supplier** (`SteemJsAccountHistorySupplier`) reads one
account's history from a Steem node newest-first, in batches.
- Each batch is reversed.
- Its operations are grouped by transaction id.
- The transactions are sorted newest first and given downstream one by one.
- The supplier stops fetching as soon as downstream answers `false`, a batch
  is short or empty, or the node reports an error.

The model is a class. Its fields are `batchSize`, the finish callback and a
`trace` of what the supplier did:
- a `Fetched(from, limit)` event for each call of `getAccountHistory`;
- a `Gave(item)` event for each call of `give`;
- a `Finished(callback)` event for each firing of the finish callback.

`Start` runs a `while` loop over the cursor and is proved to append exactly
`Walk(...)`. `Walk` is a ghost function of the node, the consumer and the
"are there consumers" test. The walk's properties are proved as lemmas about
`Walk`. Batch reversal is an in-place array method, and the `forEach` over the
transactions is a loop.

**The v2 `age_of_post` rule codec** is modelled as `Encode`/`Decode` with
their error paths. Both round trips are proved.

**`OperationNumberFilter` and `OperationTypeFilter`** are modelled as the
outcome of one `take` call:
- an error is rethrown;
- a dropped operation answers `true`;
- a forwarded operation answers whatever downstream answers.

Chain positions (`SteemOperationNumber`) are triples of block, transaction and
operation number, under lexicographic order.

**The `ConfirmVote` type guard** is modelled over a JavaScript object. A
missing property reads as `undefined`.

**`WiseSQLApi`** is modelled by two parts:
- `formatMoment`, which produces block number, a dot, and the transaction
  number as exactly four digits;
- the checks `loadRulesets`, `loadAllRulesets` and `getLastConfirmationMoment`
  apply to the rows the SQL endpoint returns.

Modules:
- `Wrappers` (Option, Result)
- `Moments`
- `Json`
- `Blockchain`
- `TransactionBatches` (grouping, sorting and reversing one batch)
- `AccountHistory`
- `AgeOfPostSchema`
- `RawFilters`
- `ConfirmVotes`
- `WiseSql`

## Model

| member | source | states |
|---|---|---|
| AccountHistory.AccountHistorySupplier.constructor | src/api/directblockchain/SteemJsAccountHistorySupplier.ts:8-18 | a new supplier has batch size 1000, the no-op finish callback and an empty trace |
| AccountHistory.AccountHistorySupplier.WithBatchSize | src/api/directblockchain/SteemJsAccountHistorySupplier.ts:24-27 | sets the batch size and changes nothing else |
| AccountHistory.AccountHistorySupplier.OnFinish | src/api/directblockchain/SteemJsAccountHistorySupplier.ts:29-32 | installs the finish callback and changes nothing else |
| AccountHistory.AccountHistorySupplier.Start | src/api/directblockchain/SteemJsAccountHistorySupplier.ts:34-40 | installs the callback if one is passed, then appends to the trace exactly the walk from cursor -1 with nothing given yet; the batch size is unchanged |
| AccountHistory.AccountHistorySupplier.LoadFromOnlyIfConsumers | src/api/directblockchain/SteemJsAccountHistorySupplier.ts:42-76 | one step (check for consumers, fetch, hand on the error / finish on empty / reverse, give, finish or continue) appends exactly the step's events and returns its next cursor and the items it gave |
| AccountHistory.StepFrom | src/api/directblockchain/SteemJsAccountHistorySupplier.ts:42-76 | with no consumers nothing happens; otherwise the events are the fetch, the gifts, then the finish signal if any. An error is given alone and ends the walk. The items are exactly what `Deliver` gives from the batch's transactions, newest first: every transaction in order up to and including the first refusal, or all of them. A refused transaction is the last item and is followed by the finish signal. Another fetch happens iff the batch is full, non-empty, above index 0 and every transaction was given and accepted; it starts at the oldest index minus one. A batch either finishes or continues, never both |
| AccountHistory.BatchLimit | src/api/directblockchain/SteemJsAccountHistorySupplier.ts:50 | the first fetch (`from == -1`) asks for the batch size; later ones ask for at most `from` and never more than the batch size |
| AccountHistory.WalkOpensWithNewestBatch | src/api/directblockchain/SteemJsAccountHistorySupplier.ts:39 | when there are consumers, the walk's first event is a fetch from -1 with limit equal to the batch size |
| AccountHistory.FetchLimits | src/api/directblockchain/SteemJsAccountHistorySupplier.ts:50 | every fetch in the walk uses `BatchLimit(batchSize, from)`, so no fetch asks for more than the batch size |
| AccountHistory.CursorsDescend | src/api/directblockchain/SteemJsAccountHistorySupplier.ts:61-68 | every later fetch starts at a non-negative cursor strictly below every entry of every earlier batch, so no history entry is fetched twice |
| AccountHistory.FinishIsLast | src/api/directblockchain/SteemJsAccountHistorySupplier.ts:57-71 | the finish callback fires at most once, as the last event of the walk, and it is the installed callback |
| AccountHistory.ErrorEndsWalk | src/api/directblockchain/SteemJsAccountHistorySupplier.ts:53-54 | an error given downstream is the last event: no finish signal and no fetch follow it |
| AccountHistory.RefusalStopsWalk | src/api/directblockchain/SteemJsAccountHistorySupplier.ts:64-71 | once downstream answers `false` to a transaction, the only later event is the finish signal: no further gift and no further fetch |
| AccountHistory.ShortBatchFinishes | src/api/directblockchain/SteemJsAccountHistorySupplier.ts:66-71 | a batch shorter than the batch size ends the walk: the fetch, then the batch's transactions newest first up to and including the first refusal (all of them if none is refused), then the finish signal |
| AccountHistory.EmptyBatchFinishes | src/api/directblockchain/SteemJsAccountHistorySupplier.ts:57-58 | an empty batch makes the walk exactly the fetch followed by the finish signal |
| AccountHistory.Walk | src/api/directblockchain/SteemJsAccountHistorySupplier.ts:42-50 | the walk is empty iff there are no consumers, and otherwise opens with a fetch from its cursor with limit `BatchLimit(batchSize, from)` |
| AccountHistory.WalkUnfold | src/api/directblockchain/SteemJsAccountHistorySupplier.ts:64-69 | the walk is its first step followed, when there is a next cursor, by the walk from that cursor with the items given so far |
| AccountHistory.StepFromOk | src/api/directblockchain/SteemJsAccountHistorySupplier.ts:48-76 | with a node that answers oldest-first at or below `from`, each step keeps the step laws: event order, error and refusal end the walk, and the next cursor is non-negative and below `from` and the batch |
| AccountHistory.NextFrom | src/api/directblockchain/SteemJsAccountHistorySupplier.ts:66-71 | corrected cursor: a next fetch happens iff every answer was `true`, the batch was full and its oldest entry is above index 0; it then agrees with the code's cursor and lies in 0 .. oldest index - 1 |
| AccountHistory.NextFromAsWritten | src/api/directblockchain/SteemJsAccountHistorySupplier.ts:66-67 | as written: another fetch iff every answer was `true` and the batch was full, from the oldest index minus one, which can be -1 |
| AccountHistory.NextFromAsWrittenRestarts | src/api/directblockchain/SteemJsAccountHistorySupplier.ts:67 | as written, a full batch whose oldest entry is index 0 yields cursor -1, and the step from -1 opens with the same fetch as the walk's first step, of the newest batch with the full batch size |
| AccountHistory.ReverseInPlace | src/api/directblockchain/SteemJsAccountHistorySupplier.ts:61 | the array afterwards holds the reverse of what it held |
| AccountHistory.GiveWhileAccepted | src/api/directblockchain/SteemJsAccountHistorySupplier.ts:101-103 | the `forEach` loop returns the final `loadNext` and the items given, as `Deliver` defines them |
| AccountHistory.Deliver | src/api/directblockchain/SteemJsAccountHistorySupplier.ts:101-105 | gives at most one item per transaction; answering `true` means every transaction was given; answering `false` means at least one was given |
| AccountHistory.DeliverGivesAcceptedPrefix | src/api/directblockchain/SteemJsAccountHistorySupplier.ts:101-105 | the items given are a prefix of the transactions, in order, and all but the last were accepted; the result is `true` iff every transaction was given and accepted, and otherwise the last one given was refused |
| AccountHistory.ProcessBatch | src/api/directblockchain/SteemJsAccountHistorySupplier.ts:78-106 | gives the batch's transactions, newest first, while downstream accepts, and returns the last answer |
| TransactionBatches.GroupByTrxId | src/api/directblockchain/SteemJsAccountHistorySupplier.ts:81-82 | there are no more groups than operations; every group is non-empty and all its operations share one `trx_id` |
| TransactionBatches.GroupingExact | src/api/directblockchain/SteemJsAccountHistorySupplier.ts:81-86 | each group holds all the batch's operations with its `trx_id`, in batch order; no two groups share an id; the groups' ids are exactly the ids in the batch |
| TransactionBatches.EveryOpGrouped | src/api/directblockchain/SteemJsAccountHistorySupplier.ts:81-83 | every operation of the batch lies in the group of its own transaction id |
| TransactionBatches.ToTransaction | src/api/directblockchain/SteemJsAccountHistorySupplier.ts:87-94 | a transaction takes `block_num`, `transaction_num` and `transaction_id` from its group's first operation, and keeps the `op` of each operation in group order |
| TransactionBatches.SortByKey | src/api/directblockchain/SteemJsAccountHistorySupplier.ts:99 | sorting keeps the number of transactions |
| TransactionBatches.SortByKeySorted | src/api/directblockchain/SteemJsAccountHistorySupplier.ts:99 | sorting by `(block_num, transaction_num)` gives an ascending permutation of its input |
| TransactionBatches.Transactions | src/api/directblockchain/SteemJsAccountHistorySupplier.ts:81-99 | a batch yields exactly one transaction per group, that is per distinct `trx_id` |
| TransactionBatches.TransactionsNewestFirst | src/api/directblockchain/SteemJsAccountHistorySupplier.ts:98-99 | the transactions given are in non-increasing `(block_num, transaction_num)` order and are a permutation of the grouped transactions |
| TransactionBatches.Reverse | src/api/directblockchain/SteemJsAccountHistorySupplier.ts:99 | the reversal has the same length, and position i holds the element at position length - 1 - i |
| AgeOfPostSchema.Encode | src/protocol/versions/v2/rules/rule-age-of-post-schema.ts:14-34 | succeeds iff mode and unit are known; the mode error comes first; on success the wire mode and unit are exactly the spellings `ModeName`/`UnitName` give (`"older_than"`/`"younger_than"`, `"day"`/`"hour"`/`"minute"`/`"second"`), the tag is `"age_of_post"` and the value is copied |
| AgeOfPostSchema.Decode | src/protocol/versions/v2/rules/rule-age-of-post-schema.ts:36-51 | succeeds iff mode and unit names are known; the mode error comes first; on success the decoded mode and unit are exactly what `ModeOfName`/`UnitOfName` read from the wire strings, and the value is copied |
| AgeOfPostSchema.ModeNamesBijective | src/protocol/versions/v2/rules/rule-age-of-post-schema.ts:15-18 | the spelling `Encode` writes for a mode (`ModeName`) and the mode `Decode` reads from a spelling (`ModeOfName`) are inverse: a mode has a spelling iff that spelling reads back as that mode |
| AgeOfPostSchema.UnitNamesBijective | src/protocol/versions/v2/rules/rule-age-of-post-schema.ts:20-25 | the spelling `Encode` writes for a unit (`UnitName`) and the unit `Decode` reads from a spelling (`UnitOfName`) are inverse: a unit has a spelling iff that spelling reads back as that unit |
| AgeOfPostSchema.DecodeEncode | src/protocol/versions/v2/rules/rule-age-of-post-schema.ts:14-51 | decoding the encoding of a rule with known mode and unit gives back the same rule |
| AgeOfPostSchema.EncodeDecode | src/protocol/versions/v2/rules/rule-age-of-post-schema.ts:14-51 | encoding the decoding of a valid wire record tagged `"age_of_post"` gives back the same record |
| AgeOfPostSchema.DecodeIgnoresRuleTag | src/protocol/versions/v2/rules/rule-age-of-post-schema.ts:36-51 | decoding never reads the `rule` field |
| AgeOfPostSchema.ModeErrorFirst | src/protocol/versions/v2/rules/rule-age-of-post-schema.ts:15-25 | when both mode and unit are unknown, both directions report the mode |
| Blockchain.MomentOf | src/chainable/filters/raw/OperationNumberFilter.ts:25 | an operation's chain position is its block, its transaction's place in the block and its place in the transaction |
| Moments.Trichotomy | src/chainable/filters/raw/OperationNumberFilter.ts:25-37 | moments compare as exactly one of lesser, equal or greater, and equality is identity |
| Moments.LesserThanTransitive | src/chainable/filters/raw/OperationNumberFilter.ts:27 | the lesser-than order on moments is transitive |
| RawFilters.TakeByNumber | src/chainable/filters/raw/OperationNumberFilter.ts:22-40 | an error is rethrown unchanged. Otherwise the operation is forwarded iff the chain of four tests passes, and, for each of the four modes, the operation is forwarded iff its moment compares with the bound as that mode says. A forwarded operation answers the downstream answer; a dropped one answers `true` |
| RawFilters.ComplementaryModes | src/chainable/filters/raw/OperationNumberFilter.ts:25-37 | `<` and `>=` forward complementary sets of operations, and so do `>` and `<=` |
| RawFilters.TakeByType | src/chainable/filters/raw/OperationTypeFilter.ts:19-25 | an error is rethrown unchanged; an operation is forwarded iff its type name equals the filter's, answering the downstream answer; otherwise the answer is `true` |
| RawFilters.TypeFilterLooksOnlyAtTypeName | src/chainable/filters/raw/OperationTypeFilter.ts:21 | two operations with the same type name are both forwarded or both dropped |
| ConfirmVotes.IsConfirmVote | src/protocol/ConfirmVote.ts:14-18 | the guard holds iff each of `voteorderTxId`, `accepted` and `msg` is present and not `undefined` |
| ConfirmVotes.ConfirmVotesPass | src/protocol/ConfirmVote.ts:14-18 | every ConfirmVote record, with any extra properties, passes the guard |
| ConfirmVotes.MissingPropertyFails | src/protocol/ConfirmVote.ts:15-17 | removing any of `voteorderTxId`, `accepted`, `msg`, or setting it to `undefined`, fails the guard |
| ConfirmVotes.OtherPropertiesIgnored | src/protocol/ConfirmVote.ts:14-18 | adding, changing or removing any other property never changes the guard's answer |
| ConfirmVotes.OnlyUndefinedRejected | src/protocol/ConfirmVote.ts:15-17 | `null`, `false`, `""` and `0` all count as present |
| WiseSql.FormatMoment | src/api/sql/WiseSQLApi.ts:147-153 | FUTURE's block gives `"99999999999999.0000"` whatever the transaction number. Any other moment gives the decimal block number, a dot and four digits whose value is the transaction number modulo 10000 |
| WiseSql.PaddedTransactionNum | src/api/sql/WiseSQLApi.ts:152 | `("000" + n).slice(-4)` is four digits worth `n mod 10000`: zero-padding below 10000, the last four digits above |
| WiseSql.SmallTransactionNumPadded | src/api/sql/WiseSQLApi.ts:152 | transaction number 5 is written `"0005"` |
| WiseSql.Decimal | src/api/sql/WiseSQLApi.ts:151 | the decimal text of a number is non-empty and made of digits, is `"0"` for zero and has no leading zero otherwise; with `DecimalValue` this pins it down to `String(n)` |
| WiseSql.SliceLast4 | src/api/sql/WiseSQLApi.ts:152 | `slice(-4)` is the last four characters, or the whole string when it is shorter |
| WiseSql.DecimalValue | src/api/sql/WiseSQLApi.ts:151 | the decimal text of a number reads back as that number |
| WiseSql.FormatIgnoresOperationNum | src/api/sql/WiseSQLApi.ts:147-153 | the operation number never affects the text |
| WiseSql.FormatMomentInjective | src/api/sql/WiseSQLApi.ts:151-152 | outside FUTURE's block, equal texts mean equal block numbers and equal transaction numbers modulo 10000 |
| WiseSql.LoadRulesets | src/api/sql/WiseSQLApi.ts:48-59 | no row gives `{rulesets: []}`; more than one row is an error; a single non-SetRules row is an error; a single SetRules row gives its moment, voter and prototyped rulesets |
| WiseSql.StampedRulesets | src/api/sql/WiseSQLApi.ts:76-88 | one entry per row with that row's prototyped rulesets; fails iff some row is not a SetRules, reporting the first such row |
| WiseSql.LoadAllRulesets | src/api/sql/WiseSQLApi.ts:76-88 | as written: succeeds iff every row is a SetRules; one entry per row with that row's rulesets but the first row's moment and voter |
| WiseSql.LoadAllRulesetsPerRow | src/api/sql/WiseSQLApi.ts:76-88 | corrected: the same, but each entry carries its own row's moment and voter |
| WiseSql.LoadAllRulesetsMislabelsLaterRows | src/api/sql/WiseSQLApi.ts:83-84 | for two SetRules rows of different voters and moments, the code's second entry reports the first row's voter and moment |
| WiseSql.LastConfirmationMoment | src/api/sql/WiseSQLApi.ts:97-101 | succeeds iff exactly one row comes back and it holds a ConfirmVote, and then answers that row's moment; otherwise it reports the row count or the non-ConfirmVote command |

## Left out

- Network I/O is not modelled. `steem.api.getAccountHistory` becomes the `node` parameter, which maps `(from, limit)` to an error or a batch. The SQL queries become the rows they return.
- The callback and Promise machinery is not modelled. The supplier's recursion through node callbacks is a sequential loop.
- `ChainableSupplier` and `ChainableFilter` are not part of this model:
  - `give` is a downstream function returning a boolean;
  - `shouldLoadNewItems` is a predicate.
- Downstream is a deterministic function of the items it has received so far. The model does not capture a consumer with other hidden state.
- AccountHistory.AccountHistorySupplier.LoadFromOnlyIfConsumers follows the corrected cursor `NextFrom`. After a full, all-accepted batch whose oldest entry is index 0, it appends the finish signal. The code at lines 66-68 instead fetches again from -1, which is the newest batch (see "## Findings").
- AccountHistory.StepFrom follows the corrected cursor `NextFrom`. It continues only when the oldest entry is above index 0, and finishes where line 67 would restart the walk from -1.
- AccountHistory.AccountHistorySupplier.Start follows the corrected cursor `NextFrom` through `Walk`, so its walk finishes where the code would restart from the newest batch, and repeat for as long as downstream keeps accepting every transaction it is given again. The as-written cursor is `NextFromAsWritten`.
- AccountHistory.AccountHistorySupplier.Start requires a well-behaved node, so that the walk is known to terminate. A well-behaved node returns each batch oldest-first, and answers a request from `from >= 0` with entries at or below `from`. The code itself trusts the node without checking this.
- The constructor does not model the throw on a null `steem` object: the node is always present as a parameter.
- The timestamp is not modelled. `new Date(timestamp + "Z")` is date handling, so a transaction keeps its first operation's timestamp text.
- TransactionBatches.TransactionsNewestFirst: among transactions with equal `(block_num, transaction_num)`, the model does not state the order that lodash's stable `sortBy` over `_.values` of the groups gives. It proves only the sort order and the permutation.
- `SteemOperationNumber` is not part of this model beyond the lexicographic order on the triple. `FUTURE` is a parameter of `FormatMoment`.
- WiseSql.FormatMoment: it does not model transaction numbers that are negative or not integers, nor block numbers of 1e21 and above. JavaScript writes those differently, and the type allows only naturals.
- `SetRules.isSetRules` and `RulePrototyper.prototypeRuleset` are not part of this model. They are the parameters `asSetRules` and `prototype`.
- The in-place rewriting of `op.command.rulesets` in `getWiseOperationsRelatedToDelegatorInBlock` and `getWiseOperations` is left out, because it depends on the prototyper.
- The direct-API delegations of `WiseSQLApi` are left out. They forward to another object.
- The error texts of the thrown exceptions are not modelled. They are represented by error constructors.
- `src/steem-smartvotes.ts` is not part of this model, because it forwards to components that are not part of this model.
- The synchronizer exercised by `test/rules-updater.spec.ts` is not part of this model.

## Findings

| source | as written | input that shows it | evidently intended | confidence | as-written member | corrected member |
|---|---|---|---|---|---|---|
| src/api/directblockchain/SteemJsAccountHistorySupplier.ts:67 | after a full batch whose oldest entry is index 0, the next cursor is `0 - 1 = -1`, which `loadFrom` treats as "the most recent batch" | an account with 2001 entries (0..2000), batch size 1000, a node returning `limit + 1` entries, and a downstream that accepts every transaction: fetch(-1, 1000) gives 1000..2000, so the cursor is 999; fetch(999, 999) gives 0..999, 1000 entries, so the cursor is -1 and the walk restarts from the newest entry, and repeats for as long as downstream keeps accepting every transaction it is given again (and `shouldLoadNewItem` stays true) | the walk finishes once the oldest entry fetched is index 0 | not executed | AccountHistory.NextFromAsWrittenRestarts | AccountHistory.NextFrom |
| src/api/sql/WiseSQLApi.ts:83-84 | every entry of `loadAllRulesets` takes `moment` and `voter` from `ops[0]`, not from its own row | two SetRules rows, for voter bob at (20, 1, 0) and for carol at (10, 3, 0): the second entry reports bob at (20, 1, 0) | each entry carries its own row's moment and voter | not executed | WiseSql.LoadAllRulesetsMislabelsLaterRows | WiseSql.LoadAllRulesetsPerRow |
