/**
 * The consumer itself: the relational store with its one transaction at a
 * time, and the batch-triggered function that projects every event of a
 * batch inside one transaction, committing only when all of them went
 * through and rolling back on the first failure.
 */
module Ingest {
  import opened Wrappers
  import opened Events
  import opened Projection
  import opened Batch

  /**
   * The two tables as committed, and as seen from inside the open
   * transaction. Statements change only the transaction's view; commit
   * publishes it, rollback drops it.
   */
  class OrderDatabase {
    var orders: map<Guid, Header>
    var items: map<Guid, seq<ItemRow>>
    var txOrders: map<Guid, Header>
    var txItems: map<Guid, seq<ItemRow>>
    var txOpen: bool
    /** How many transactions have been begun on this database. */
    var sessionsOpened: nat

    constructor (initial: Store)
      ensures Committed() == initial && !txOpen && sessionsOpened == 0
    {
      orders, items := initial.orders, initial.items;
      txOrders, txItems := initial.orders, initial.items;
      txOpen := false;
      sessionsOpened := 0;
    }

    function Committed(): Store
      reads this
    {
      Store(orders, items)
    }

    function Working(): Store
      reads this
    {
      Store(txOrders, txItems)
    }

    method BeginTransaction()
      requires !txOpen
      modifies this`txOrders, this`txItems, this`txOpen, this`sessionsOpened
      ensures txOpen && Working() == Committed()
      ensures sessionsOpened == old(sessionsOpened) + 1
    {
      txOrders, txItems := orders, items;
      txOpen := true;
      sessionsOpened := sessionsOpened + 1;
    }

    /** The `MERGE` of one header. */
    method MergeOrder(id: Guid, src: Header)
      requires txOpen
      modifies this`txOrders
      ensures txOrders == Merge(old(txOrders), id, src)
    {
      txOrders := Merge(txOrders, id, src);
    }

    /** The `DELETE` of every item row of one order. */
    method DeleteItems(id: Guid)
      requires txOpen
      modifies this`txItems
      ensures txItems == DeleteRows(old(txItems), id)
    {
      txItems := DeleteRows(txItems, id);
    }

    /** The `INSERT` of one item row. */
    method InsertItem(id: Guid, row: ItemRow)
      requires txOpen
      modifies this`txItems
      ensures txItems == InsertRow(old(txItems), id, row)
      ensures RowsOf(txItems, id) == RowsOf(old(txItems), id) + [row]
    {
      txItems := InsertRow(txItems, id, row);
    }

    method Commit()
      requires txOpen
      modifies this`orders, this`items, this`txOpen
      ensures !txOpen && Committed() == old(Working())
    {
      orders, items := txOrders, txItems;
      txOpen := false;
    }

    method Rollback()
      requires txOpen
      modifies this`txOrders, this`txItems, this`txOpen
      ensures !txOpen && Working() == Committed()
    {
      txOrders, txItems := orders, items;
      txOpen := false;
    }
  }

  /** How a run ends: the batch is acknowledged, or the failure is rethrown to the host. */
  datatype RunResult = Completed | Failed(error: Failure)

  class EventHubOrdersIngest {
    const db: OrderDatabase

    constructor (db: OrderDatabase)
      ensures this.db == db
    {
      this.db := db;
    }

    /**
     * Writes one decoded order under `id` in the open transaction: the header
     * upsert, the delete of its rows, then one insert per item. Returns false
     * when an item element is null; the transaction then holds a partial write.
     */
    method WriteOrder(id: Guid, dto: OrderDto) returns (ok: bool)
      requires db.txOpen
      modifies db`txOrders, db`txItems
      ensures ok <==> Projection.WriteOrder(old(db.Working()), id, dto).Some?
      ensures ok ==> Projection.WriteOrder(old(db.Working()), id, dto) == Some(db.Working())
    {
      db.MergeOrder(id, IncomingHeader(dto));
      db.DeleteItems(id);
      ghost var cleared := db.txItems;
      var its := ItemsOf(dto);
      var j := 0;
      while j < |its|
        invariant 0 <= j <= |its|
        invariant db.txOrders == Merge(old(db.txOrders), id, IncomingHeader(dto))
        invariant cleared == DeleteRows(old(db.txItems), id)
        invariant IncomingRows(its[..j]).Some?
        invariant db.txItems == InsertRows(cleared, id, IncomingRows(its[..j]).value)
      {
        match its[j]
        case None =>
          return false;
        case Some(it) =>
          ghost var done := IncomingRows(its[..j]).value;
          db.InsertItem(id, IncomingRow(it));
          assert its[..j + 1][..j] == its[..j];
          assert IncomingRows(its[..j + 1]) == Some(done + [IncomingRow(it)]);
          assert (done + [IncomingRow(it)])[..|done|] == done;
        j := j + 1;
      }
      assert its[..j] == its;
      DeleteThenInsertReplaces(old(db.txItems), id, IncomingRows(its).value);
      ok := true;
    }

    /**
     * The body of the batch loop for the event at position `at`: deserialise
     * it, give it its key and write it. Returns the reason it failed, if it did.
     */
    method ApplyEvent(payload: Payload, deserialize: Payload -> Deserialized, at: nat, newGuid: nat -> Guid, faults: set<nat>,
                      ghost s0: Store, ghost batch: seq<Deserialized>)
      returns (failure: Option<FailureKind>)
      requires db.txOpen
      requires at < |batch| && batch[at] == deserialize(payload)
      requires Prefix(s0, batch, at, newGuid, faults) == Ok(db.Working())
      modifies db`txOrders, db`txItems
      ensures failure.None? ==> Prefix(s0, batch, at + 1, newGuid, faults) == Ok(db.Working())
      ensures failure.Some? ==> Project(s0, batch, newGuid, faults) == Err(Failure(at, failure.value))
    {
      PrefixStep(s0, batch, at, newGuid, faults);
      failure := None;
      match deserialize(payload) {
        case JsonError =>
          failure := Some(MalformedPayload);
        case JsonNull =>
          failure := Some(NullPayload);
        case Parsed(dto) =>
          var orderId := ResolveId(dto, newGuid(at));
          if at in faults {
            failure := Some(StoreRejected);
          } else {
            var ok := WriteOrder(orderId, dto);
            if !ok {
              failure := Some(NullItem);
            }
          }
      }
      if failure.Some? {
        FailureSticks(s0, batch, at + 1, |batch|, newGuid, faults);
      }
    }

    /**
     * The body of the `try` block: every event of a non-empty batch, in
     * arrival order, inside the open transaction, stopping at the first one
     * that fails.
     */
    method ApplyAll(events: seq<Payload>, deserialize: Payload -> Deserialized, newGuid: nat -> Guid, faults: set<nat>,
                    ghost batch: seq<Deserialized>)
      returns (failure: Option<Failure>)
      requires db.txOpen
      requires batch == DeserializeAll(events, deserialize)
      modifies db`txOrders, db`txItems
      ensures failure.None? ==> Project(old(db.Working()), batch, newGuid, faults) == Ok(db.Working())
      ensures failure.Some? ==> Project(old(db.Working()), batch, newGuid, faults) == Err(failure.value)
    {
      ghost var s0 := db.Working();
      var i := 0;
      while i < |events|
        invariant 0 <= i <= |events|
        invariant Prefix(s0, batch, i, newGuid, faults) == Ok(db.Working())
      {
        var kind := ApplyEvent(events[i], deserialize, i, newGuid, faults, s0, batch);
        if kind.Some? {
          return Some(Failure(i, kind.value));
        }
        i := i + 1;
      }
      return None;
    }

    /**
     * Processes one batch. An empty batch returns at once without opening a
     * transaction. Otherwise every event, in arrival order, is deserialised,
     * given its key (its own `Id`, or `newGuid(i)` for the event at position
     * `i`) and written; the database rejects the statements of the events at
     * the positions in `faults`. The first failure rolls the transaction back
     * and is rethrown; when every event went through, the transaction commits.
     */
    method Run(events: seq<Payload>, deserialize: Payload -> Deserialized, newGuid: nat -> Guid, faults: set<nat>)
      returns (result: RunResult)
      requires !db.txOpen
      modifies db
      ensures !db.txOpen
      ensures var r := Project(old(db.Committed()), DeserializeAll(events, deserialize), newGuid, faults);
        && (result.Completed? <==> r.Ok?)
        && (r.Ok? ==> db.Committed() == r.value)
        && (r.Err? ==> result == Failed(r.error) && db.Committed() == old(db.Committed()))
      ensures db.sessionsOpened == old(db.sessionsOpened) + (if |events| == 0 then 0 else 1)
    {
      if |events| == 0 {
        return Completed;
      }
      db.BeginTransaction();
      var failure := ApplyAll(events, deserialize, newGuid, faults, DeserializeAll(events, deserialize));
      if failure.Some? {
        db.Rollback();
        return Failed(failure.value);
      }
      db.Commit();
      result := Completed;
    }
  }
}
