# Verified model of the trading-benchmark pipeline

The platform benchmarks trading engines. A fleet of bots sends generated orders to a contestant's engine and
publishes one event per order; the telemetry service judges each answer against an order book and stores the
verdicts; the leaderboard scores the stored rows every two seconds under a shared lock. This project models that
path and proves what it guarantees, from one verdict up to the whole pipeline.

| file | what it models |
|---|---|
| `Prelude.dfy`, `Events.dfy` | optional values, the contract of `sort.Slice`, the event and the answer inside it |
| `BookModel.dfy`, `OrderBook.dfy` | the validator's book as a value and as the class the service updates in place |
| `VerdictMeaning.dfy`, `BookHistory.dfy` | what a verdict means, what the maps hold after any history, when the book can cross |
| `BookConcurrency.dfy` | any number of `ValidateOrder` calls interleaved at their locked sections |
| `Ingest.dfy`, `IngestSafety.dfy`, `IngestCopies.dfy` | fetch, batch, store, commit and crash as a transition system, and its theorems |
| `IngestReplay.dfy`, `IngestAgreement.dfy` | what an ingest service can be driven to, catching up, and exactly when stored copies agree |
| `IngestService.dfy` | the database write, the reader and the consume loop as classes that refine that system |
| `Fleet.dfy`, `FleetAttempts.dfy` | the load test: producer, ticker, token channel, bots, retry, shutdown |
| `FleetOrders.dfy`, `Decimal.dfy` | order generation, its printed JSON, the worker's event and publish loop |
| `FlatJson.dfy` | the C++ and Rust field extractors against Go's JSON printer |
| `Contestant.dfy` | the Go engine's map and answers |
| `FleetCancels.dfy` | what a generated CANCEL does to its target in the validator's book |
| `Scoring.dfy`, `Leaderboard.dfy`, `QueryMeaning.dfy`, `Lease.dfy` | the scoring query, one scoring tick, both in the columns of the raw rows, the leader lock |
| `FleetToStore.dfy` | from the load test's publishes to the stored rows |
| `EndToEnd.dfy` | generated orders, the Go engine, ingest under faults and scoring, composed |

`dafny verify dfyconfig.toml` checks everything.

## What was found

Some natural claims are false of the code. For each there is an input that shows it, and the exact condition.

- The book can cross, and one id can rest on both sides: an unfilled limit order rests without any priority check
  (`UnfilledOrdersCanCross`). Over any run the book stays uncrossed if and only if no order came to rest at a
  price that some opposite order beats (`RunUncrossedIff`); partial fills at exactly the limit price suffice
  (`ExactPriceRunsUncrossed`). An id is on both sides if and only if accepted events rested it on each and no later
  accepted CANCEL or full fill of it followed either (`BothSidesIff`).
- That last guarantee needs calls to run one at a time. The priority check and the resting write are two locked
  sections, so two exact-price calls that both check first are both accepted and cross the book
  (`RacingExactPriceCallsCanCross`). Any number of calls keep the book uncrossed under every interleaving if and
  only if no SELL and BUY among them, each passing the tests on the event alone and leaving a remainder, have
  crossing prices (`InterleavingsUncrossedIff`). The service calls the validator from one loop, so this is about
  the type's own lock, not about the service today.
- A CANCEL does not cancel its target: a generated limit order still rests after the generated CANCEL that names
  it was accepted (`CancelledOrderStillRests`). Only the cancel's own id is removed, so after an accepted
  generated CANCEL its target is off the book if and only if the cancel is order 1, which names itself, or the
  target was not resting (`GeneratedCancelTargetGoneIff`). The Go contestant does remove the target
  (`HeldIffPlaced`).
- An answer with both quantities zero counts as a complete fill (`validator.go:131`) and takes a resting order of
  the same id off the book (`EmptyAnswerRemovesOrder`). An accepted order with nothing filled does so if and only
  if it also ordered nothing (`UnfilledRemovesIffNothingOrdered`).
- The C++ and Rust extractors cut some fields short (`SomeFieldsAreCut`). They return a string field unchanged if
  and only if it needs no escaping, and a numeral if and only if it has no exponent or plus sign
  (`StringFieldRoundTripIff`, `NumeralFieldRoundTripIff`). Every order the fleet generates meets both conditions.
- A message can be stored more than once. Its copies are exactly the stores made while it was pending, of which
  at most one, the last, is followed by a successful offset commit (`CopiesAreStores`, `CleanStoreIsLast`). So
  there are at most one plus the failed offset commits, the lost commit acknowledgements and the crashes between a
  store and the end of its commit (`DuplicateBound`), and every sequence of such faults reaches that number
  (`DuplicateBoundIsTight`). A crash anywhere else adds no copy.
- The stored copies of a message can disagree on its verdict (`SomeCopiesDisagree`): a crash empties the book. The
  copies of every message agree in every run over a log if and only if every complete reading of the log up to a
  message, from wherever it starts and however the partitions interleave, gives the message the same row
  (`CopiesAgreeIff`). That is a condition on the log alone. Where it fails, one crash is enough
  (`CopiesDisagreeAfterCrash`); without a crash copies always agree (`CopiesAgreeWithoutCrash`).

Where documentation and code differ the model follows the code: the flush timer is one second (`main.go:52`), not
the five of `ARCHITECTURE.md:78`; scores are grouped by run and submission (`scoring.go:59`), not by submission
alone (`ARCHITECTURE.md:36`); the score carries the error and correctness factors and clamps P90 to at least 1
(`scoring.go:118-123`), which `ARCHITECTURE.md:38` omits.

## Assumptions

- A failed database transaction leaves no rows, except that a commit may take effect although its acknowledgement
  is lost (`StoredUnacknowledged`); that case is counted as a fault.
- A failed offset commit may have advanced any subset of the partitions; a successful one advances all of them.
- A process may die between two turns or inside a flush, before its rows are stored or after, with the offset
  commit done for any subset of the partitions. A death in a flush of a full batch is that batch's fetch with a
  failed store, followed by such a death; a failed store is not counted as a fault.
- A write the broker accepted is in the log. A write it refused may be there too; nothing is claimed of it.
- Within a partition messages are fetched in offset order, and a restarted process resumes at the committed offset.
  A fetch that times out is a fetch with nothing to read. The log is the final content of the consumer's own
  partitions; a run may stop reading anywhere in it.
- An event or a response body is a decoded value or a decoding failure; absent fields decode to zero values. The
  strings of a JSON object are printed with the escapes of Go's `encoding/json`.
- The Redis key is free from its expiry time on; a `SETNX` that returned an error may have set it or not.
- In the fleet model a ticker tick is possible whenever the feeder runs, and any enabled step may come next.
  Termination is stated for schedules with a bound, of any size, on consecutive ticks.
- An answer is never received before its request was sent; latency is the difference of the two times in whole
  milliseconds.
- Clocks, random draws, and the answers of the broker, the database, Redis and HTTP are parameters.

## Model

| member | source | states |
|---|---|---|
| SliceSort.Sort | cmd/leaderboard/scoring.go:133-135 | All a caller of `sort.Slice` may rely on: given a strict weak order, an ordered permutation, with nothing said about equal elements |
| OrderBookService.OrderBook.constructor | cmd/telemetry/validator.go:37-42 | A new book is empty and well formed |
| OrderBookService.OrderBook.ValidateOrder | cmd/telemetry/validator.go:44-139 | The in-place method returns the specified verdict and leaves exactly the specified book, for every event, keeping the book well formed |
| OrderBookService.OrderBook.Record | cmd/telemetry/validator.go:114-136 | Field by field: an unfilled, unrejected limit order rests on its own side under the next sequence number with its remainder; else a complete fill leaves both sides; else nothing changes |
| OrderBookService.OrderBook.ValidatePriceTimePriority | cmd/telemetry/validator.go:141-189 | True exactly when no opposite order beats the execution price; otherwise the order it reports is the unique price-then-sequence best of the whole opposite side, whatever the map order and the unstable sort did |
| OrderBookService.CollectBetter | cmd/telemetry/validator.go:146-151 | Ranging over the map in any order collects all the entries that beat the price, and only those |
| OrderBookService.AheadIsStrictWeakOrder | cmd/telemetry/validator.go:153-158 | Price-then-sequence is an order `sort.Slice` may be given, on either side |
| OrderBookService.FirstOfSortedIsBest | cmd/telemetry/validator.go:152-163 | The head of any ordered permutation of the better entries is the best order of the whole opposite side |
| BookModel.EffectKeepsWellFormed | cmd/telemetry/validator.go:115-135 | Every locked write keeps: key is the order id, quantity positive, sequence in 1..counter, sequences distinct across both maps |
| BookModel.EventKeepsWellFormed | cmd/telemetry/validator.go:44-139 | Validating any event keeps the book well formed |
| BookModel.SequentialRunsWellFormed | cmd/telemetry/validator.go:44-139 | After any history of events the book is well formed |
| BookModel.AfterInFields | cmd/telemetry/validator.go:44-139 | The whole new book for every event, in the fields of the event and its answer: refused, cancelled, rested on either side, removed, or untouched |
| BookModel.RestsIff | cmd/telemetry/validator.go:114-129 | An accepted order rests, and the counter rises by one, iff it is a LIMIT, not completely filled and not REJECTED; else nothing is inserted and the counter stays |
| BookModel.BestIsUnique | cmd/telemetry/validator.go:153-159 | At most one resting order is best |
| BookModel.BestInFields | cmd/telemetry/validator.go:153-159 | The best ask has the lowest price, the best bid the highest, and among equal prices the smaller sequence |
| BookModel.BestAmong | cmd/telemetry/validator.go:153-159 | Among any non-empty set of resting orders of a well-formed book one is strictly ahead of all others; this needs distinct sequences |
| BookModel.PriorityFailsIffBestBeats | cmd/telemetry/validator.go:145-186 | The priority test fails exactly when the best opposite order beats the execution price, so it speaks of one order only |
| VerdictMeaning.AcceptedIff | cmd/telemetry/validator.go:45-112 | An event is accepted if and only if it was answered as expected, a cancel is confirmed, quantities and side are sane, and a traded limit order had best execution; the code's order of tests does not matter |
| VerdictMeaning.AcceptedTradesAtBestPrice | cmd/telemetry/validator.go:90-112 | An accepted BUY pays at most its limit and at most every resting ask; an accepted SELL gets at least its limit and every resting bid |
| VerdictMeaning.ScreeningIff | cmd/telemetry/validator.go:45-106 | The tests on the event alone pass iff it was answered as expected and is a confirmed cancel, or an order with sane quantities, a side and its own limit kept |
| VerdictMeaning.RefusedChangesNothing | cmd/telemetry/validator.go:45-112 | A refused event leaves the book untouched |
| VerdictMeaning.PublishedCases | cmd/telemetry/validator_test.go:20-203 | The eight published cases get their published verdicts |
| BookHistory.RestingIffWritten | cmd/telemetry/validator.go:70-135 | After any sequence of locked writes an id rests on a side iff some write put it there and no later one cleared it |
| BookHistory.EntryIsLastWrite | cmd/telemetry/validator.go:116-127 | The entry found is the last such write's, numbered by the resting writes up to it |
| BookHistory.SequenceCountsRests | cmd/telemetry/validator.go:116 | The counter is the number of resting writes so far |
| BookHistory.BookIsReplay | cmd/telemetry/validator.go:70-135 | The book after any events is the replay of the writes they made |
| BookHistory.MapsAgreeWithHistory | cmd/telemetry/validator.go:65-136 | An id is in a map iff some accepted event rested it there and no later accepted event with that id was a CANCEL or a complete fill |
| BookHistory.EntryAgreesWithHistory | cmd/telemetry/validator.go:114-136 | The entry stored holds the last resting event's price and unfilled quantity and, as sequence, the number of resting events up to it |
| BookHistory.BothSidesIff | cmd/telemetry/validator.go:123-135 | One id rests on both sides iff accepted events rested it on each and none of its later accepted CANCELs or complete fills came after either |
| BookHistory.CancelChangesOnlyItsOwnId | cmd/telemetry/validator.go:65-75 | An accepted CANCEL takes exactly its own id off both sides, entries of other ids and the counter unchanged; it leaves the book as it was iff its own id was not resting |
| BookHistory.UnfilledRemovesIffNothingOrdered | cmd/telemetry/validator.go:114-136 | An accepted order with nothing filled takes a resting order of its id off the book iff it ordered nothing |
| BookHistory.EmptyAnswerRemovesOrder | cmd/telemetry/validator.go:131-136 | Counterexample: an accepted answer of zero ordered and zero filled removes a resting order |
| BookHistory.StepUncrossedIff | cmd/telemetry/validator.go:114-129 | From an uncrossed book, one event leaves it uncrossed iff what it rests is not beaten by an opposite order |
| BookHistory.RunUncrossedIff | cmd/telemetry/validator.go:108-129 | A run keeps the book uncrossed throughout iff every order that came to rest was behind the opposite side |
| BookHistory.ExactPriceRunsUncrossed | cmd/telemetry/validator.go:108-187 | If every accepted answer that leaves a remainder was partly filled at exactly its price, no reachable book is crossed |
| BookHistory.UnfilledOrdersCanCross | cmd/telemetry/validator.go:108-127 | Counterexample without that condition: two accepted events cross the book and put one id on both sides |
| BookConcurrency.EveryInterleavingWellFormed | cmd/telemetry/validator.go:70-143 | Under every interleaving of the locked sections of any number of calls the book is well formed |
| BookConcurrency.BookIsReplayOfLog | cmd/telemetry/validator.go:70-135 | Under every interleaving the book is the replay of the writes in the order the mutex let them through |
| BookConcurrency.EachCallWritesItsOwnEffect | cmd/telemetry/validator.go:65-138 | Whatever the interleaving, a refused call has written nothing and an accepted one exactly what its own answer calls for |
| BookConcurrency.InterleavedMapsAgreeWithLog | cmd/telemetry/validator.go:70-135 | Under every interleaving an id rests iff a logged write put it there and no later one cleared it; the counter is the number of resting writes |
| BookConcurrency.CallsReturn | cmd/telemetry/validator.go:44-139 | A call returns after at most three turns of its own, whatever the others do |
| BookConcurrency.UninterruptedCallIsSequential | cmd/telemetry/validator.go:44-139 | Three turns in a row give exactly the sequential verdict and book |
| BookConcurrency.SectionInFields | cmd/telemetry/validator.go:65-138 | What each locked section writes, in the answer's fields, and where the call stands after it |
| BookConcurrency.RestingPricesFromEvents | cmd/telemetry/validator.go:77-127 | Under every interleaving each resting price is the limit price of some event that passes the tests on the event alone and leaves a remainder on that side |
| BookConcurrency.RaceCrosses | cmd/telemetry/validator.go:108-129 | Among any number of calls, any SELL and BUY fit to rest at crossing prices are both accepted and cross the book under some schedule |
| BookConcurrency.InterleavingsUncrossedIff | cmd/telemetry/validator.go:108-129 | No interleaving of the calls crosses the book iff no SELL and BUY among the events, fit to be accepted and leaving remainders, have crossing prices |
| BookConcurrency.RacingExactPriceCallsCanCross | cmd/telemetry/validator.go:108-129 | Counterexample: the exact-price condition does not keep the book uncrossed under interleaving |
| IngestSafety.ExecInv | cmd/telemetry/main.go:50-104 | After every run with any faults: offsets ordered, fetched messages exact, the batch is the tail of one-by-one validation, nothing lost, and every row carries its message's columns with the verdict of validating, from an empty book, all that some process read up to it |
| IngestSafety.AtLeastOnce | cmd/telemetry/main.go:55-103 | Each decodable message below its partition's committed offset has a row with its send time, run, order, submission, latency and success, and the verdict some process reached on it, whatever the database failures, partial commits and crashes, also inside a flush |
| IngestSafety.RowCarriesColumns | cmd/telemetry/db.go:102-112 | Any stored row has, column by column, the values of the event it came from, and is correct only if it is successful |
| IngestSafety.FetchFlushesIffFull | cmd/telemetry/main.go:94-102 | With answers that succeed, a fetch that makes the batch 1000 orders or more stores them all and empties it, and any other fetch stores nothing |
| IngestSafety.BatchStaysBelowThousand | cmd/telemetry/main.go:100-102 | In every run whose stores and commits succeed, fewer than 1000 orders are ever waiting |
| IngestSafety.CommittedIsMonotone | cmd/telemetry/main.go:63-66 | Committed offsets never move back in any run |
| IngestSafety.EmptyBatchMeansStored | cmd/telemetry/main.go:55-69 | Whenever the batch is empty every decodable message fetched so far, also by earlier processes, is stored |
| IngestSafety.CorrectRowsAreSuccessful | cmd/telemetry/validator.go:45-48 | Every row ever stored that is correct is also successful |
| IngestSafety.BatchingRefinesOneAtATime | cmd/telemetry/main.go:50-104 | In every run without crash or failed or unacknowledged commit, rows followed by the batch are the decoded messages in fetch order with the flags of one-by-one validation from an empty book |
| IngestSafety.FaultlessFetchIsComplete | cmd/telemetry/main.go:78-98 | In such a run the fetch order is each partition's offset order, with no decodable message missing |
| IngestSafety.FlagsWithoutCrash | cmd/telemetry/main.go:92-97 | In every run without a crash, whatever the failed commits and lost acknowledgements, each row is the message's with the flag of validating everything fetched one by one |
| IngestSafety.CopiesAgreeWithoutCrash | cmd/telemetry/main.go:55-97 | In every run without a crash all rows of one message are equal |
| IngestSafety.AdvanceCommits | cmd/telemetry/main.go:63-66 | A commit leaves each partition it took effect on past all its pending messages and one past one of them, and every other partition where it was |
| IngestCopies.CopiesAreStores | cmd/telemetry/main.go:55-69 | In every run the copies of a message are exactly the stores made while it was pending |
| IngestCopies.CleanStoreIsLast | cmd/telemetry/main.go:63-68 | At most one of them is followed by a successful commit, after which the message is committed, no longer pending, and never read again |
| IngestCopies.DuplicateBound | cmd/telemetry/main.go:55-69 | A message is stored at most once plus the failed commits, the lost acknowledgements and the crashes between a store and the end of its commit |
| IngestCopies.DuplicateBoundIsTight | cmd/telemetry/main.go:59-66 | For every sequence of these faults, in any mix of the three kinds, a run with exactly those faults stores one message once more than there are faults |
| IngestReplay.ReadIds | cmd/telemetry/main.go:73-98 | From any reachable state, every complete reading that starts where the process stands can be made, in its own order, with nothing stored or committed in between |
| IngestReplay.CatchUp | cmd/telemetry/main.go:55-103 | From every reachable state, whatever faults came before, the service can go on without another fault until the whole log is fetched and stored |
| IngestAgreement.CommitBelow | cmd/telemetry/main.go:55-98 | For any offsets there is a run without a crash that commits exactly the decodable messages below them |
| IngestAgreement.CopiesAgreeIff | cmd/telemetry/main.go:22-103 | The copies of every message agree in every run of a log iff all complete readings of the log up to a message give it the same row; the same holds for runs with at most one crash |
| IngestAgreement.CopiesDisagreeAfterCrash | cmd/telemetry/main.go:22-103 | Whenever two readings of a log give a message different rows, a run with exactly one crash stores copies of a message that disagree |
| IngestAgreement.EarlierMessageMatters | cmd/telemetry/validator.go:108-129 | One message that changes the verdict on the next is enough |
| IngestAgreement.SomeCopiesDisagree | cmd/telemetry/main.go:22-103 | Two concrete events and a run with exactly one crash for which this happens |
| IngestService.Database.FlushBatchToDB | cmd/telemetry/db.go:86-131 | Whichever statement fails, the table gains the whole batch in order or nothing; row i has entry i's send time, run, order, submission, latency, success and flag; nil is returned iff every statement and the commit succeeded |
| IngestService.OutcomeIff | cmd/telemetry/db.go:91-127 | A bulk insert counts as stored iff begin, prepare, every row, flush, close and commit succeeded, and as stored unknown to the service iff only the commit's reply was lost |
| IngestService.Reader.FetchMessage | cmd/telemetry/main.go:79-84 | A fetch returns the next message of its partition and moves one past it, or returns nothing and moves nowhere |
| IngestService.Reader.CommitMessages | cmd/telemetry/main.go:63-66 | Each partition the commit took effect on, and that has pending messages, ends one past one of them and past all of them; every other partition stays where it was; an error is returned iff the commit failed |
| IngestService.Consumer.constructor | cmd/telemetry/main.go:22-52 | A new service is at the initial protocol state |
| IngestService.Consumer.FlushPending | cmd/telemetry/main.go:55-69 | The `flush` closure does exactly the protocol's flush step, for every answer of database and broker |
| IngestService.Consumer.Flush | cmd/telemetry/main.go:75-76 | The ticker's turn is a tick of the protocol |
| IngestService.Consumer.FetchAndValidate | cmd/telemetry/main.go:79-102 | Fetch, decode, validate, append and size flush together are exactly one fetch step of the protocol |
| IngestService.Consumer.Fetch | cmd/telemetry/main.go:77-103 | The default branch is a fetch of the protocol |
| IngestService.Consumer.Restart | cmd/telemetry/main.go:22-68 | A process that dies, between turns or in a flush after its rows were stored, keeps exactly the table and offsets reached, loses batch, pending and book, and its successor is where the protocol's crash step leads |
| IngestService.Consumer.Consume | cmd/telemetry/main.go:73-104 | Each turn is the protocol step of its kind and answers, in order; afterwards the table holds a truthful row for every decodable message below a committed offset |
| FleetAccounting.ExecInv | cmd/fleet/worker.go:21-72 | After every feasible interleaving: orders each in one place, tokens balanced, one token per started order, failures counted, control state consistent |
| FleetAccounting.EveryOrderInOnePlace | cmd/fleet/worker.go:52-79 | Under every interleaving each of 1..NumOrders is to be queued, queued, in one bot's hands or finished, in exactly one of these; nothing else is anywhere |
| FleetAccounting.FinalAccounting | cmd/fleet/worker.go:66-71 | On return every order has one outcome, one token was spent on each, published + failed + skipped = NumOrders, and the error is nil iff no publish failed |
| FleetAccounting.ThreeAnswersSettle | cmd/fleet/worker.go:139-159 | Three broker answers settle an order and free its bot: published iff any was accepted, else counted as a failure once; nothing else changes |
| FleetAttempts.SendThenThreeAnswers | cmd/fleet/worker.go:139-159 | A bot that holds an order, sends it and gets three answers ends it published iff one accepted it, else failed and counted once |
| FleetAttempts.OutcomesTellAttempts | cmd/fleet/worker.go:80-159 | In every run: an order is sent at most once; it ends failed iff refused three times, published iff accepted, then once and after at most two refusals, skipped only if never sent |
| FleetAttempts.OrdersHandedOutInOrder | cmd/fleet/worker.go:61-79 | Under every interleaving the next order a bot receives is the lowest not yet handed out |
| FleetAttempts.TickDropsIffFull | cmd/fleet/worker.go:37-41 | A tick adds a token, and is dropped iff the channel already holds TPS of them |
| FleetAttempts.AdmittedInFields | cmd/fleet/main.go:67-100 | The limits of a run: 1 to 1000 bots, 1 to 1,000,000 orders, 1 to 50,000 TPS |
| FleetAttempts.EveryOutcomeHappens | cmd/fleet/worker.go:61-160 | For every way the orders could end there is a run that ends so, returns and stops the feeder |
| FleetAccounting.TokenConservation | cmd/fleet/worker.go:34-46 | In every run ticks = takes + tokens in the channel + dropped ticks, and the channel never exceeds TPS |
| FleetAccounting.WindowRateBound | cmd/fleet/worker.go:26-80 | In every window of every run, token takes are at most TPS plus that window's ticks |
| FleetAccounting.IntervalRate | cmd/fleet/worker.go:31 | For every admitted TPS the truncated interval is positive and gives between TPS and TPS + 2 ticks a second |
| FleetProgress.StepUsesWork | cmd/fleet/worker.go:61-159 | Every step that is not a tick strictly lowers a measure; ticks leave it alone |
| FleetProgress.BoundedWork | cmd/fleet/worker.go:61-159 | No interleaving has more than 7 * NumOrders + NumBots + 3 steps that are not ticks |
| FleetProgress.ProducerNeverBlocks | cmd/fleet/worker.go:61-63 | Whenever the producer has an order left the channel has room |
| FleetProgress.FeederOutlivesWaiters | cmd/fleet/worker.go:42-80 | While a bot waits for a token the feeder runs and is not cancelled |
| FleetProgress.NeverStuck | cmd/fleet/worker.go:34-71 | In every reachable unfinished state a working step is enabled now or after one tick |
| FleetProgress.EveryFairRunIsBounded | cmd/fleet/worker.go:66-71 | If at most b ticks come in a row, every run has at most (b + 1) * (7 * NumOrders + NumBots + 3) + b steps |
| FleetProgress.UnfinishedFairRunContinues | cmd/fleet/worker.go:34-71 | An unfinished fair run can be continued fairly, so with the bound `wg.Wait` returns and the feeder stops |
| FlatJson.ScanNumeral | test-bots/contestant.cpp:48-64 | The C++ scan loop yields the longest numeral run after the first match of the key, "" without one |
| FlatJson.CutNumeral | test-bots/contestant.rs:28-36 | The Rust cut yields the same text |
| FlatJson.StringExtractorsAgree | test-bots/contestant.rs:16-25 | On every text and key the C++ and Rust string extractors return the same |
| FlatJson.TextPrinted | cmd/fleet/orders.go:10-11 | The printed form of a string field: key and escaped value in quotes, a colon between |
| FlatJson.NumeralPrinted | cmd/fleet/orders.go:13-15 | The printed form of a number field |
| FlatJson.ObjectPrinted | cmd/fleet/orders.go:9-17 | The printed form of an object: braces around its fields, a comma between |
| FlatJson.EscapedIff | cmd/fleet/worker.go:82 | A character is printed as itself iff it is no quote, backslash, control, <, >, & or line separator |
| FlatJson.ShortEscapes | cmd/fleet/worker.go:82 | The two-character escapes |
| FlatJson.UnicodeEscapes | cmd/fleet/worker.go:82 | The escapes in four lower-case hexadecimal digits, on a character of each kind |
| FlatJson.NoHitInField | test-bots/contestant.cpp:35-36 | Inside another printed field, separators included, a key's pattern never matches, whatever the strings hold: escaped quotes cannot fake a key |
| FlatJson.KeyHit | test-bots/contestant.cpp:35-38 | The first match of a printed key is at its own field |
| FlatJson.KeyMiss | test-bots/contestant.cpp:35-44 | A key that was not printed matches nowhere |
| FlatJson.StringFieldRoundTripIff | test-bots/contestant.cpp:34-45 | A printed string field is extracted unchanged iff it has no character the printer escapes, whatever the other fields hold |
| FlatJson.NumeralFieldRoundTripIff | test-bots/contestant.cpp:48-64 | A printed numeral is extracted unchanged iff it consists of digits, points and minus signs, and otherwise as its longest such prefix |
| FlatJson.AbsentKeyExtractsNothing | test-bots/contestant.cpp:34-64 | A field that was not printed extracts as "", as a string and as a number |
| FlatJson.SomeFieldsAreCut | test-bots/contestant.cpp:34-64 | Counterexample: an id with a quote and a price with an exponent are not read back |
| Decimal.NatRoundTrip | cmd/fleet/orders.go:43 | Reading the digits of a printed number gives the number back |
| Decimal.NatTextExample | cmd/fleet/orders.go:43 | Numbers are printed in decimal, most significant digit first |
| Decimal.CentsTextDenotes | cmd/fleet/orders.go:57 | The shortest decimal text of a two-place price denotes exactly that price |
| FleetOrders.OrderIDInjective | cmd/fleet/orders.go:63 | Different indices never share an order id |
| FleetOrders.GeneratedOrderInRange | cmd/fleet/orders.go:20-70 | For every draw: a CANCEL targets a lower-numbered order (the first itself), any other order has a side, a two-place price in [10, 500) and a quantity in 1..100 |
| FleetOrders.GeneratedByDraws | cmd/fleet/orders.go:25-69 | Which draws make a CANCEL, a MARKET, a LIMIT order, a SELL; the price is the drawn one cut to whole cents, the quantity and the target follow their draws |
| FleetOrders.OrderStringsRoundTripIff | cmd/fleet/orders.go:9-17 | For every order each string field is read back iff it needs no escaping, "" when omitted; `id` is never taken for `cancel_target_id` |
| FleetOrders.OrderNumbersRoundTrip | cmd/fleet/orders.go:9-17 | For every order the quantity's text is read back whole and the price's up to any exponent; omitted zeros read as "" |
| FleetOrders.GeneratedStringsReadBack | cmd/fleet/orders.go:20-70 | Every generated order's four strings are read back unchanged |
| FleetOrders.GeneratedNumbersReadBack | cmd/fleet/orders.go:55-69 | Every generated order's quantity and price are denoted by the texts read back; a CANCEL reads as having neither |
| FleetOrders.PublishWithRetry | cmd/fleet/worker.go:139-159 | The loop fails iff all three attempts are refused, as the load test's publish steps do; it stops at the first accepted one and sleeps 0, 100 or 300 ms in all |
| FleetOrders.EventInFields | cmd/fleet/worker.go:101-131 | For every order and every HTTP result, each field of the event: successful iff an answer came with status 200 or 201, status 0 and no body without an answer, latency in whole milliseconds |
| FleetOrders.EndpointInFields | cmd/fleet/worker.go:88-91 | A CANCEL goes to /cancel and any other order to /order |
| Contestant.WireRoundTrip | test-bots/contestant.go:27-36 | Dropping empty fields and decoding absent ones as zero returns every answer unchanged |
| Contestant.TradingEngine.HandleOrder | test-bots/contestant.go:49-85 | 405, 400 or 200 as the request demands; a good order is recorded under its id and answered with its own id, type, side, quantity twice, price and an execution price of 100 for MARKET and its own otherwise, empty fields left out |
| Contestant.TradingEngine.HandleCancel | test-bots/contestant.go:87-116 | 405, 400 or 200 as the request demands; a good cancel drops its target, if held, and is answered with its own id, CANCEL and cancelled alone |
| Contestant.HeldIffPlaced | test-bots/contestant.go:62-104 | After any history an order is held iff it was placed and no later cancel named it |
| Contestant.HeldIsLastPlaced | test-bots/contestant.go:63 | What is held under an id is the order placed last under it |
| FleetCancels.TargetGoneIff | cmd/telemetry/validator.go:65-75 | After any accepted cancel its target is off a side iff it is the cancel's own id or was not resting there |
| FleetCancels.TargetIsSelfIff | cmd/fleet/orders.go:37-48 | A generated CANCEL names itself iff it is order 1 |
| FleetCancels.GeneratedCancelTargetGoneIff | cmd/telemetry/validator.go:65-75 | After an accepted generated CANCEL the target is off a side iff the cancel is order 1 or the target was not resting there |
| FleetCancels.CancelledOrderStillRests | cmd/telemetry/validator.go:65-75 | Counterexample: a generated order still rests after the accepted generated CANCEL that names it |
| Lease.KeyTracksLastSet | cmd/leaderboard/scoring.go:70 | The key expires one TTL after the last attempt that set it, and is absent only if none did |
| Lease.SetsIffNotHeld | cmd/leaderboard/scoring.go:68-77 | For any replicas and timing, an attempt sets the key iff no earlier one set it within the last 5 seconds |
| Lease.LeadsIff | cmd/leaderboard/scoring.go:70-77 | An attempt leads its tick iff its reply came and no earlier one, also with its reply lost, set the key within the last 5 seconds |
| Lease.AcquisitionsApart | cmd/leaderboard/scoring.go:70 | Two attempts that set the key are at least 5 seconds apart |
| Lease.WindowBound | cmd/leaderboard/scoring.go:68-77 | A stretch of w seconds has at most floor(w / 5) + 1 acquisitions |
| Lease.LoneReplicaLeadsEveryThirdTick | cmd/leaderboard/scoring.go:28-77 | One replica ticking every 2 seconds leads on exactly every third tick |
| Scoring.InterpolateMonotone | cmd/leaderboard/scoring.go:55-57 | An interpolated percentile never falls as its fraction grows |
| Scoring.InterpolateInRange | cmd/leaderboard/scoring.go:55-57 | Every percentile is between the least and the greatest value |
| Scoring.PercentilesSound | cmd/leaderboard/scoring.go:55-57 | For every group P50 <= P90 <= P99, between any bounds of its scored latencies, all 0 when there are none |
| Scoring.AggregatePermutes | cmd/leaderboard/scoring.go:44-57 | Nothing computed for a group depends on the order of the stored rows |
| Scoring.GroupsPartitionRows | cmd/leaderboard/scoring.go:59 | Each row is in exactly one group and the group sizes add up to all rows |
| Scoring.CountsOrdered | cmd/leaderboard/scoring.go:47-54 | When correct rows are successful, correct <= success <= total and the rate is not negative, in every group |
| QueryMeaning.CountsInFields | cmd/leaderboard/scoring.go:44-49 | total, success and correct are the numbers of indices of raw rows with the group's run and submission, of the successful ones among them and of the correct ones |
| QueryMeaning.RepeatedIff | cmd/leaderboard/scoring.go:60 | A group is kept iff two different rows are in it |
| QueryMeaning.WindowInFields | cmd/leaderboard/scoring.go:41 | The window keeps each row younger than 15 minutes as often as it is stored, and no other |
| QueryMeaning.TpsIsRate | cmd/leaderboard/scoring.go:50-54 | The group's TPS is the rate of its rows |
| QueryMeaning.RateInFields | cmd/leaderboard/scoring.go:51-52 | That rate is of the successful and correct raw rows over the time between the group's first and last row |
| QueryMeaning.PerSecondInFields | cmd/leaderboard/scoring.go:50-54 | It is the count divided by the seconds, 0 over no time |
| QueryMeaning.PercentilesInFields | cmd/leaderboard/scoring.go:55-57 | The three latencies are the 50th, 90th and 99th percentile, by a definition of its own, of any ascending list of the latencies of the group's successful and correct raw rows |
| Leaderboard.RatesMultiplyOut | cmd/leaderboard/scoring.go:106-116 | In every branch (1 - error rate) * correctness rate is the share of all rows that were correct |
| QueryMeaning.RatesInFields | cmd/leaderboard/scoring.go:106-116 | Error rate times total is total minus success, correctness rate times success is correct; 1 and 0 when there is nothing to divide by |
| QueryMeaning.EntryInFields | cmd/leaderboard/scoring.go:91-123 | A board entry carries the query's columns, the two rates, and 100 * TPS over the P90, taken as 1 when below, times both rates |
| QueryMeaning.ScannedInFields | cmd/leaderboard/scoring.go:88-126 | Each row that scans gives one entry and no other row gives any |
| Leaderboard.ScoreBounds | cmd/leaderboard/scoring.go:106-123 | The score is rate times correct share per clamped latency, in [0, 100 * TPS], and both rates are in [0, 1] |
| Leaderboard.StoredRowsScoreBounds | cmd/leaderboard/scoring.go:47-123 | The same for every group of rows the ingest side can have stored |
| Leaderboard.ScoreTick | cmd/leaderboard/scoring.go:68-145 | A board is published iff the lock was acquired, the query succeeded and some row scanned; it is the scanned rows' statistics, permuted, in non-increasing score order, and those of the whole result when every row scanned |
| Leaderboard.SortBoard | cmd/leaderboard/scoring.go:133-135 | The ranked board is a permutation of the entries in non-increasing score order |
| Leaderboard.QueryHasResult | cmd/leaderboard/scoring.go:43-66 | For every rows there is a result with one aggregate per group of more than one row |
| Leaderboard.ResultIsUnique | cmd/leaderboard/scoring.go:43-66 | Any result the query may return is a permutation of that one |
| Leaderboard.BoardConservesGroups | cmd/leaderboard/scoring.go:43-135 | A board that permutes the statistics of the whole result has exactly one entry for each group of more than one row, that group's own, and nothing else |
| EndToEnd.Serve | test-bots/contestant.go:49-123 | The worker's POST to either endpoint of the Go engine gets status 200 and the compliant reply, and reaches the engine's map once |
| EndToEnd.FleetEventsCompliant | cmd/fleet/worker.go:88-131 | For every draw, the event published for a generated order answered by the Go engine is a confirmed cancel or a complete fill at an allowed price |
| EndToEnd.CompliantRunAccepted | cmd/telemetry/validator.go:44-139 | Any sequence of such events, in any order and with any repetition, is accepted throughout and the book stays empty |
| EndToEnd.CompliantIngest | cmd/telemetry/main.go:50-104 | Through any ingest faults every row stored from such a log is correct and successful |
| EndToEnd.CompliantPipelineStores | cmd/telemetry/db.go:102-115 | Generated orders answered by the Go engine: through any faults the book stays empty and every stored row is correct |
| EndToEnd.CompliantPipelineScores | cmd/leaderboard/scoring.go:41-123 | ... and at any moment every group in the window has error rate 0, correctness rate 1 and the undiminished score |
| EndToEnd.CompliantBoard | cmd/leaderboard/scoring.go:41-135 | Every entry of a board made from that window's result, whatever rows failed to scan, has error rate 0, correctness rate 1 and nothing taken off its score |
| EndToEnd.ScoreCompliantLog | cmd/leaderboard/scoring.go:68-145 | So the board a tick publishes over such a log gives full marks in every entry |
| EndToEnd.AnyPipelineScoreBounds | cmd/leaderboard/scoring.go:41-123 | For any contestant and any faults, correct <= success <= total and 0 <= score <= 100 * TPS in every group |
| FleetToStore.EmittedOnceIffPublished | cmd/fleet/worker.go:139-159 | Under every interleaving of a load test an order's event is accepted by the broker once if the order ends published and never otherwise |
| FleetToStore.PublishedOrdersAreStored | cmd/telemetry/main.go:50-104 | Whatever the interleaving of the load test and the faults of ingest, once ingest has caught up every published order has a row with the columns of its event |
| FleetToStore.PublishedOrdersGetStored | cmd/telemetry/main.go:50-104 | And from any run of ingest, whatever its faults, some continuation without another fault gets there |
| FleetToStore.CleanRunIsStored | cmd/fleet/worker.go:66-71 | A load test that returns nil and skipped nothing then has a row for each order 1..NumOrders |
| EndToEnd.CleanRunScores | cmd/leaderboard/scoring.go:41-123 | A load test against the Go engine that returned nil and skipped nothing, carried by a log of such runs to an ingest service that caught up after any faults: within the window its group counts at least NumOrders rows and scores error rate 0, correctness rate 1 and nothing taken off |

## Left out

- The sandbox service: uploads, images, containers, ports, gRPC.
- The internals of Kafka, Redis, PostgreSQL and HTTP; only their outcomes appear, as parameters. Consumer group
  rebalancing is one of them: the model's consumer keeps its partitions.
- The websocket worker and the leaderboard's websocket hub. The accounting theorems are for REST runs; the
  websocket worker drops orders when its dial fails.
- Threads and channels of the fleet as program objects: the load test is a step system on values, with channel
  send, receive, close and cancel as atomic steps.
- The sorting algorithm inside `sort.Slice`: `SliceSort.Sort` has the contract of an unstable sort and a simple
  selection body.
- Rounding of floating-point numbers: prices, rates, percentiles and scores are real. For the generated price
  (`orders.go:56-57`) this means truncation of the exact product.
- Conversion of an extracted numeral's text to a number by `stod` and `parse`; the text itself is modelled. Keys
  the extractors are asked for are lower-case words, as in the contestants.
- Sockets, thread pools and response texts of the C++ and Rust contestants.
- JSON decoding by `encoding/json`, including case-insensitive keys.
- 64-bit overflow of the book's sequence counter and of timestamps; truncation of stored times to microseconds.
- The 2048-byte limit on the response body the worker keeps (`worker.go:112`); a body cut there is a body that
  does not decode.
- Real time: the ticker's spacing, the 5-second HTTP timeout, and whether the answer of a broker ever comes. Each
  HTTP call and publish attempt is a step that ends.
- A marshalling or publishing error after a board is sorted (`scoring.go:137-145`); the model ends with the board.
- Logging, environment variables, health endpoints, deployment files, and the distribution of the random draws.
