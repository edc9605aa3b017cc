# Order-events ingest, modelled in Dafny

This project models the Event Hub consumer `EventHubOrdersIngest` of the
RealTimeEcom function app. The function is triggered with a batch of order
events. For each event, in arrival order, it:

- deserialises the JSON payload into an `OrderDto`;
- gives the order its key: its own `Id`, or a freshly minted `Guid`;
- upserts the order header into `dbo.OrderEvents` with a `MERGE`, which
  keeps `CreatedAtUtc` when the key already exists;
- replaces the order's rows in `dbo.OrderItems` by a `DELETE` followed by
  one `INSERT` per item.

All of this happens inside one SQL transaction. The transaction commits when
every event went through. The first failure rolls it back and is rethrown. An
empty batch returns at once, without opening a connection.

The files:

- `wrappers.dfy`: `Option` (with `GetOr`, the C# `??`) and `Result`.
- `events.dfy`: the payload records `OrderDto` and `OrderDto.Item`, the C#
  value types they use, and the three outcomes of deserialising a payload
  (malformed, the literal `null`, or a record).
- `projection.dfy`: what one decoded order does to the two tables, as pure
  functions over a `Store` (headers by key, item rows by key):
  - the defaults applied to absent fields;
  - the key choice;
  - the `MERGE`;
  - the delete-then-insert replacement of the item rows.

  The lemmas state the upsert rule, exact replacement, isolation from other
  orders and idempotence.
- `batch.dfy`: a whole batch as a fold over its events that stops at the
  first failure. Its lemmas cover:
  - when a batch goes through, and which failure it reports;
  - last write wins within a batch;
  - orders the batch does not name are untouched;
  - where an order's creation time comes from;
  - replaying a batch of identified orders changes nothing when it goes through.
- `ingest.dfy`: the imperative side. `OrderDatabase` is a class holding the
  committed tables and the transaction's working copy; its methods are the
  statements, commit and rollback. `EventHubOrdersIngest` is a class whose
  `Run` method has the loops of the source. `Run` is proved against the fold
  of `batch.dfy`:
  - on success, the committed tables are the fold's result;
  - on failure, they are exactly as before, and the reported failure is the
    fold's.
  - A transaction is opened exactly when the batch is non-empty.

Environment inputs are parameters of `Run`:

- the JSON deserialiser is a function `Payload -> Deserialized`;
- `Guid.NewGuid()` is a function from the event's position to a `Guid`;
- the database's refusals are the set `faults` of positions whose statements
  it rejects.

## Model

| member | source | states |
|---|---|---|
| Events.UtcTicks | RealTimeEcom.FunctionApp/EventHubOrdersIngest.cs:65 | computes the instant passed as `CreatedAtUtc`: the clock reading minus its offset; `PresentHeaderFieldsKept` and `CreatedAtFromFirstEvent` state where it is stored |
| Projection.IncomingHeader | RealTimeEcom.FunctionApp/EventHubOrdersIngest.cs:59-65 | computes the source row of the `MERGE` from an order, field by field; `AbsentHeaderFieldsTakeDefaults` and `PresentHeaderFieldsKept` state its contract |
| Projection.IncomingRow | RealTimeEcom.FunctionApp/EventHubOrdersIngest.cs:80-84 | computes the row inserted for one item, its name or ""; `IncomingRows` states its use |
| Projection.ItemsOf | RealTimeEcom.FunctionApp/EventHubOrdersIngest.cs:75 | computes the list iterated over, an empty one for a null list; `NoItemsNoRows` states that a null or empty list yields no rows |
| Projection.Merge | RealTimeEcom.FunctionApp/EventHubOrdersIngest.cs:48-57 | computes the headers after the `MERGE`; `MergeUpserts` and `MergeTwice` state its contract |
| Projection.DeleteRows | RealTimeEcom.FunctionApp/EventHubOrdersIngest.cs:69-73 | computes the rows after the `DELETE` of one order; `DeleteThenInsertReplaces` states its contract with the inserts |
| Projection.InsertRow | RealTimeEcom.FunctionApp/EventHubOrdersIngest.cs:77-85 | computes the rows after one `INSERT`; `InsertRowsAppends` states its contract |
| Projection.InsertRows | RealTimeEcom.FunctionApp/EventHubOrdersIngest.cs:75-86 | computes the rows after the insert loop, one `INSERT` per row in list order; `InsertRowsAppends` states its contract |
| Projection.ReplaceRows | RealTimeEcom.FunctionApp/EventHubOrdersIngest.cs:69-86 | computes what the delete and the inserts amount to; `DeleteThenInsertReplaces`, `ReplacementIsExact` and `ReplaceTwice` state its contract |
| Projection.WriteOrder | RealTimeEcom.FunctionApp/EventHubOrdersIngest.cs:48-86 | computes the tables after all statements of one order, or nothing when an item element is null; `WriteOrderSucceedsIff`, `WriteOrderTarget`, `WriteOrderElsewhere` and `WriteOrderIdempotent` state its contract |
| Batch.ApplyEvent | RealTimeEcom.FunctionApp/EventHubOrdersIngest.cs:44-86 | computes the outcome of one event: deserialise, choose the key, write; `ApplyEventFailsIffFaulty` and `LastStepIsWrite` state its contract |
| Batch.Project | RealTimeEcom.FunctionApp/EventHubOrdersIngest.cs:42-87 | computes the outcome of the whole loop; `PrefixOkIff`, `PrefixReportsFirstFault`, `LastWriteWins`, `UntouchedOrdersUnchanged` and `ReplayIsIdempotent` state its contract, and `Run` is proved against it |
| Projection.ResolveId | RealTimeEcom.FunctionApp/EventHubOrdersIngest.cs:46 | an order that carries an `Id` is written under that `Id` unchanged; an order without one is written under the freshly minted key |
| Projection.AbsentHeaderFieldsTakeDefaults | RealTimeEcom.FunctionApp/EventHubOrdersIngest.cs:60-63 | each field on its own: a missing name is stored as "", a missing payment method as "card", a missing e-mail or phone as null |
| Projection.PresentHeaderFieldsKept | RealTimeEcom.FunctionApp/EventHubOrdersIngest.cs:59-65 | name, e-mail, phone, payment method and total are stored as the order carries them; `CreatedAtUtc` is the UTC reading of `CreatedAt` |
| Projection.IncomingRows | RealTimeEcom.FunctionApp/EventHubOrdersIngest.cs:75-86 | the rows for an item list exist exactly when no element is null; there is one row per item, in list order, each with the item's id, quantity and price and its name or "" |
| Projection.MergeUpserts | RealTimeEcom.FunctionApp/EventHubOrdersIngest.cs:48-57 | a new key receives the whole incoming header including `CreatedAtUtc`; an existing key takes every column from the incoming header except `CreatedAtUtc`, which keeps its old value; no other key changes |
| Projection.InsertRowsAppends | RealTimeEcom.FunctionApp/EventHubOrdersIngest.cs:75-86 | the inserts for one order append its rows, in order, after the rows it already has, and touch no other order |
| Projection.DeleteThenInsertReplaces | RealTimeEcom.FunctionApp/EventHubOrdersIngest.cs:69-86 | the delete followed by the inserts leaves exactly the incoming rows for the order |
| Projection.ReplacementIsExact | RealTimeEcom.FunctionApp/EventHubOrdersIngest.cs:69-86 | after a replacement the order has exactly the incoming rows and none of its old ones; an empty or null item list leaves it with no rows; other orders' rows are unchanged |
| Projection.MergeTwice | RealTimeEcom.FunctionApp/EventHubOrdersIngest.cs:48-57 | running the same `MERGE` twice is running it once |
| Projection.ReplaceTwice | RealTimeEcom.FunctionApp/EventHubOrdersIngest.cs:69-86 | replacing an order's rows twice with the same rows is replacing them once |
| Projection.WriteOrderSucceedsIff | RealTimeEcom.FunctionApp/EventHubOrdersIngest.cs:75-82 | writing one order fails exactly when its item list holds a null element |
| Projection.WriteOrderTarget | RealTimeEcom.FunctionApp/EventHubOrdersIngest.cs:48-86 | after writing an order: its key exists; its header is the incoming one; its creation time is the old one if the key existed and the incoming one otherwise; its rows are exactly the incoming ones |
| Projection.NoItemsNoRows | RealTimeEcom.FunctionApp/EventHubOrdersIngest.cs:69-86 | an order whose item list is null or empty is written, and its key is left with no item rows at all |
| Projection.WriteOrderElsewhere | RealTimeEcom.FunctionApp/EventHubOrdersIngest.cs:48-86 | writing an order leaves the header and the rows of every other key as they were |
| Projection.WriteOrderIdempotent | RealTimeEcom.FunctionApp/EventHubOrdersIngest.cs:48-86 | applying the same order twice under the same key leaves the tables as applying it once |
| Batch.Prefix | RealTimeEcom.FunctionApp/EventHubOrdersIngest.cs:42-87 | a failure of the first `n` events is reported at a position below `n` |
| Batch.ApplyEventFailsIffFaulty | RealTimeEcom.FunctionApp/EventHubOrdersIngest.cs:44-86 | an event fails exactly when it is faulty: its payload is malformed or null, the database rejects its statements, or its item list holds a null element |
| Batch.PrefixStep | RealTimeEcom.FunctionApp/EventHubOrdersIngest.cs:42-87 | after a run of events that went through, the next event is applied to the state they produced |
| Batch.PrefixStepOutcome | RealTimeEcom.FunctionApp/EventHubOrdersIngest.cs:42-87 | one more event goes through exactly when the earlier ones did and it is not faulty; if it fails, the failure is reported at its position |
| Batch.PrefixOkIff | RealTimeEcom.FunctionApp/EventHubOrdersIngest.cs:42-87 | a batch goes through exactly when none of its events is faulty, so an empty batch always goes through |
| Batch.PrefixReportsFirstFault | RealTimeEcom.FunctionApp/EventHubOrdersIngest.cs:42-96 | a failing batch reports a faulty event, and every event before it is not faulty |
| Batch.FailureSticks | RealTimeEcom.FunctionApp/EventHubOrdersIngest.cs:91-95 | after a failure no later event is processed; every longer prefix reports the same failure |
| Batch.LastStepIsWrite | RealTimeEcom.FunctionApp/EventHubOrdersIngest.cs:42-87 | the last step of a batch that went through is the write of its last event, under that event's key |
| Batch.UntouchedOrdersUnchanged | RealTimeEcom.FunctionApp/EventHubOrdersIngest.cs:42-87 | an order whose key no event of the batch uses keeps its header and its rows |
| Batch.LastWriteWins | RealTimeEcom.FunctionApp/EventHubOrdersIngest.cs:42-87 | the header of an order (apart from its creation time) and its rows come from the last event of the batch written under its key |
| Batch.ShorterPrefixOk | RealTimeEcom.FunctionApp/EventHubOrdersIngest.cs:42-87 | a batch that goes through went through at every earlier point |
| Batch.CreatedAtKept | RealTimeEcom.FunctionApp/EventHubOrdersIngest.cs:53-55 | once an order exists, later events in the batch never change its creation time |
| Batch.CreatedAtFromFirstEvent | RealTimeEcom.FunctionApp/EventHubOrdersIngest.cs:56-57 | an order new to the tables takes its creation time from the first event of the batch written under its key |
| Batch.LastEventFor | RealTimeEcom.FunctionApp/EventHubOrdersIngest.cs:42-46 | given an event written under a key, it finds the last event of the batch written under that key |
| Batch.ReplayIsIdempotent | RealTimeEcom.FunctionApp/EventHubOrdersIngest.cs:42-87 | redelivering a batch that went through, whose orders all carry an `Id`, leaves the tables as they were whenever it goes through, whatever keys would be minted and whatever the database rejects the second time; it goes through exactly when the batch would have from the first store under the same rejections |
| Ingest.OrderDatabase.constructor | RealTimeEcom.FunctionApp/EventHubOrdersIngest.cs:36-38 | a database starts with the given committed tables and no open transaction |
| Ingest.OrderDatabase.BeginTransaction | RealTimeEcom.FunctionApp/EventHubOrdersIngest.cs:36-38 | opening a transaction counts one more session; its working copy starts as the committed tables |
| Ingest.OrderDatabase.MergeOrder | RealTimeEcom.FunctionApp/EventHubOrdersIngest.cs:48-67 | the `MERGE` changes the transaction's headers as `Merge` says |
| Ingest.OrderDatabase.DeleteItems | RealTimeEcom.FunctionApp/EventHubOrdersIngest.cs:69-73 | the `DELETE` removes every row of the order from the transaction's items |
| Ingest.OrderDatabase.InsertItem | RealTimeEcom.FunctionApp/EventHubOrdersIngest.cs:77-85 | one `INSERT` appends one row to the order's rows in the transaction |
| Ingest.OrderDatabase.Commit | RealTimeEcom.FunctionApp/EventHubOrdersIngest.cs:89 | commit publishes the transaction's tables and closes it |
| Ingest.OrderDatabase.Rollback | RealTimeEcom.FunctionApp/EventHubOrdersIngest.cs:94 | rollback drops the transaction's changes and closes it |
| Ingest.EventHubOrdersIngest.constructor | RealTimeEcom.FunctionApp/EventHubOrdersIngest.cs:17-27 | the consumer works on the given database |
| Ingest.EventHubOrdersIngest.WriteOrder | RealTimeEcom.FunctionApp/EventHubOrdersIngest.cs:48-86 | the statements for one order succeed exactly when the pure `WriteOrder` does, and then leave the transaction's tables as it says |
| Ingest.EventHubOrdersIngest.ApplyEvent | RealTimeEcom.FunctionApp/EventHubOrdersIngest.cs:44-86 | one pass of the loop body extends the batch fold by one event, or fails with the failure the whole batch reports |
| Ingest.EventHubOrdersIngest.ApplyAll | RealTimeEcom.FunctionApp/EventHubOrdersIngest.cs:40-87 | the loop over a batch leaves the transaction holding the fold's result, or stops at the failure the fold reports |
| Ingest.EventHubOrdersIngest.Run | RealTimeEcom.FunctionApp/EventHubOrdersIngest.cs:30-97 | an empty batch completes without opening a transaction; otherwise the run completes exactly when the fold goes through and then commits its result; on failure it reports the fold's failure and the committed tables are unchanged; no transaction is left open |

## Left out

- The SQL connection, the `async` plumbing and `using` disposal are left out. The tables are two maps; the transaction is a committed copy plus a working copy.
- JSON deserialisation is a parameter of `Run`, and so is `Guid.NewGuid()`. No particular minted key is assumed.
- Database errors (lost connections, constraint violations, timeouts) are the parameter `faults`. A faulty position is rejected before its `MERGE`. A real error could strike at a later statement of the same event. Only the failure's kind could then differ, because the transaction is rolled back either way.
- `decimal` is a `real` that is only stored, never computed with. `DateTimeOffset.UtcDateTime` is modelled as ticks minus the offset; its range checks are not modelled.
- The database's datetime conversion at line 65 is modelled only through `faults`. `AddWithValue` with a `DateTime` sends an SQL `datetime`. That type rounds to 1/300 of a second, and a date before 1753 fails the `MERGE`. A payload without `createdAt` carries the year 0001 and so aborts its whole batch. The model stores the exact ticks and lets such an event through unless its position is in `faults`.
- Failures of `OpenAsync` and `BeginTransactionAsync` (lines 37-38) and of `CommitAsync` (line 89) are not modelled. `BeginTransaction` and `Commit` always succeed.
- A failure of `RollbackAsync` at line 94 is not modelled. Its exception would replace the batch's own, and the `throw` at line 95 would not run. `Run` always reports the batch's own failure.
- The logging call at line 93 is not modelled. The two constructors at lines 17-27 only read configuration and are not modelled beyond holding the database.
- The trigger binding attribute at line 31 and checkpointing by the Event Hub host are not modelled.
- Concurrent runs and SQL isolation levels are not modelled.
- The item rows of an order are a sequence in insertion order. The SQL table has no order.
- An order with no item rows has no entry in the item map.
- The web app under `RealTimeEcom.WebApp` is not part of this model.
- An option to refuse an order without an `Id` is not modelled, because the code has none. Such an order always gets a fresh key, so redelivering it writes a second order; `ReplayIsIdempotent` therefore requires every order to carry its `Id`.
