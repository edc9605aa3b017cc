/**
 * A whole batch, as a value: the events are applied to the store one after
 * the other, in arrival order, and the first one that fails stops the batch
 * and is what the batch reports. Whether the result is committed is the
 * caller's business (see module Ingest).
 */
module Batch {
  import opened Wrappers
  import opened Events
  import opened Projection

  /** Why an event could not be applied. */
  datatype FailureKind =
    | MalformedPayload   // the deserialiser threw
    | NullPayload        // the payload was `null`: reading its `Id` throws
    | NullItem           // an element of its item list was `null`: reading its `Id` throws
    | StoreRejected      // the database rejected one of its statements

  /** The failure of the event at position `at` of the batch. */
  datatype Failure = Failure(at: nat, kind: FailureKind)

  /**
   * Applies the event at position `at` to `s`. `newGuid(at)` is the key it is
   * given if it carries none, and the database rejects its statements when
   * `at` is in `faults`.
   */
  function ApplyEvent(s: Store, ev: Deserialized, at: nat, newGuid: nat -> Guid, faults: set<nat>): Result<Store, Failure> {
    match ev
    case JsonError => Err(Failure(at, MalformedPayload))
    case JsonNull => Err(Failure(at, NullPayload))
    case Parsed(dto) =>
      if at in faults then Err(Failure(at, StoreRejected))
      else
        match WriteOrder(s, ResolveId(dto, newGuid(at)), dto)
        case None => Err(Failure(at, NullItem))
        case Some(t) => Ok(t)
  }

  /** The first `n` events of the batch applied in order, stopping at the first failure. */
  function Prefix(s: Store, batch: seq<Deserialized>, n: nat, newGuid: nat -> Guid, faults: set<nat>): (r: Result<Store, Failure>)
    requires n <= |batch|
    ensures r.Err? ==> r.error.at < n
    decreases n
  {
    if n == 0 then Ok(s)
    else
      match Prefix(s, batch, n - 1, newGuid, faults)
      case Err(e) => Err(e)
      case Ok(t) => ApplyEvent(t, batch[n - 1], n - 1, newGuid, faults)
  }

  /** The whole batch applied to `s`. */
  function Project(s: Store, batch: seq<Deserialized>, newGuid: nat -> Guid, faults: set<nat>): Result<Store, Failure> {
    Prefix(s, batch, |batch|, newGuid, faults)
  }

  /** The event at position `k` cannot be applied, whatever the store and the minted key. */
  ghost predicate Faulty(batch: seq<Deserialized>, k: nat, faults: set<nat>)
    requires k < |batch|
  {
    || !batch[k].Parsed?
    || k in faults
    || IncomingRows(ItemsOf(batch[k].dto)).None?
  }

  /** The key the event at position `k` is written under, if it decodes to an order. */
  function KeyAt(batch: seq<Deserialized>, k: nat, newGuid: nat -> Guid): Option<Guid>
    requires k < |batch|
  {
    match batch[k]
    case Parsed(dto) => Some(ResolveId(dto, newGuid(k)))
    case _ => None
  }

  /** Every event decodes to an order that carries its own `Id`. */
  ghost predicate AllIdentified(batch: seq<Deserialized>) {
    forall k :: 0 <= k < |batch| ==> batch[k].Parsed? && batch[k].dto.id.Some?
  }

  // ---------------------------------------------------------------------------
  // Success and failure

  /** One event fails exactly when it is faulty. */
  lemma ApplyEventFailsIffFaulty(s: Store, batch: seq<Deserialized>, k: nat, newGuid: nat -> Guid, faults: set<nat>)
    requires k < |batch|
    ensures ApplyEvent(s, batch[k], k, newGuid, faults).Err? <==> Faulty(batch, k, faults)
  {
    if batch[k].Parsed? {
      WriteOrderSucceedsIff(s, ResolveId(batch[k].dto, newGuid(k)), batch[k].dto);
    }
  }

  /** One more event: a prefix that went through is extended by applying the next event to its result. */
  lemma PrefixStep(s: Store, batch: seq<Deserialized>, n: nat, newGuid: nat -> Guid, faults: set<nat>)
    requires n < |batch|
    requires Prefix(s, batch, n, newGuid, faults).Ok?
    ensures Prefix(s, batch, n + 1, newGuid, faults) ==
            ApplyEvent(Prefix(s, batch, n, newGuid, faults).value, batch[n], n, newGuid, faults)
  {
  }

  /** One more event goes through exactly when the shorter prefix did and the event is not faulty. */
  lemma PrefixStepOutcome(s: Store, batch: seq<Deserialized>, n: nat, newGuid: nat -> Guid, faults: set<nat>)
    requires 0 < n <= |batch|
    ensures Prefix(s, batch, n, newGuid, faults).Ok? <==>
            Prefix(s, batch, n - 1, newGuid, faults).Ok? && !Faulty(batch, n - 1, faults)
    ensures Prefix(s, batch, n - 1, newGuid, faults).Ok? && Prefix(s, batch, n, newGuid, faults).Err? ==>
            Prefix(s, batch, n, newGuid, faults).error.at == n - 1
  {
    var r := Prefix(s, batch, n - 1, newGuid, faults);
    if r.Ok? {
      PrefixStep(s, batch, n - 1, newGuid, faults);
      ApplyEventFailsIffFaulty(r.value, batch, n - 1, newGuid, faults);
    }
  }

  /**
   * A batch goes through exactly when none of its events is faulty (so an
   * empty batch always goes through), whatever the store and the minted keys.
   */
  lemma {:induction false} PrefixOkIff(s: Store, batch: seq<Deserialized>, n: nat, newGuid: nat -> Guid, faults: set<nat>)
    requires n <= |batch|
    ensures Prefix(s, batch, n, newGuid, faults).Ok? <==> forall k :: 0 <= k < n ==> !Faulty(batch, k, faults)
    decreases n
  {
    if n > 0 {
      PrefixOkIff(s, batch, n - 1, newGuid, faults);
      PrefixStepOutcome(s, batch, n, newGuid, faults);
    }
  }

  /** A batch that fails reports its first faulty event. */
  lemma {:induction false} PrefixReportsFirstFault(s: Store, batch: seq<Deserialized>, n: nat, newGuid: nat -> Guid, faults: set<nat>)
    requires n <= |batch|
    requires Prefix(s, batch, n, newGuid, faults).Err?
    ensures Faulty(batch, Prefix(s, batch, n, newGuid, faults).error.at, faults)
    ensures forall k :: 0 <= k < Prefix(s, batch, n, newGuid, faults).error.at ==> !Faulty(batch, k, faults)
    decreases n
  {
    PrefixStepOutcome(s, batch, n, newGuid, faults);
    if Prefix(s, batch, n - 1, newGuid, faults).Err? {
      PrefixReportsFirstFault(s, batch, n - 1, newGuid, faults);
    } else {
      PrefixOkIff(s, batch, n - 1, newGuid, faults);
    }
  }

  /** Once a prefix has failed, every longer prefix reports the same failure. */
  lemma {:induction false} FailureSticks(s: Store, batch: seq<Deserialized>, m: nat, n: nat, newGuid: nat -> Guid, faults: set<nat>)
    requires m <= n <= |batch|
    requires Prefix(s, batch, m, newGuid, faults).Err?
    ensures Prefix(s, batch, n, newGuid, faults) == Prefix(s, batch, m, newGuid, faults)
    decreases n
  {
    if n > m {
      FailureSticks(s, batch, m, n - 1, newGuid, faults);
    }
  }

  // ---------------------------------------------------------------------------
  // What the batch leaves behind, order by order

  /** The last step of a prefix that went through is the write of its last event. */
  lemma LastStepIsWrite(s: Store, batch: seq<Deserialized>, n: nat, newGuid: nat -> Guid, faults: set<nat>)
    requires 0 < n <= |batch|
    requires Prefix(s, batch, n, newGuid, faults).Ok?
    ensures Prefix(s, batch, n - 1, newGuid, faults).Ok?
    ensures batch[n - 1].Parsed? && n - 1 !in faults
    ensures KeyAt(batch, n - 1, newGuid) == Some(ResolveId(batch[n - 1].dto, newGuid(n - 1)))
    ensures WriteOrder(Prefix(s, batch, n - 1, newGuid, faults).value, ResolveId(batch[n - 1].dto, newGuid(n - 1)), batch[n - 1].dto)
            == Some(Prefix(s, batch, n, newGuid, faults).value)
  {
  }

  /** An order no event of the prefix is written under keeps its header and rows. */
  lemma {:induction false} UntouchedOrdersUnchanged(s: Store, batch: seq<Deserialized>, n: nat, newGuid: nat -> Guid, faults: set<nat>, x: Guid)
    requires n <= |batch|
    requires Prefix(s, batch, n, newGuid, faults).Ok?
    requires forall j :: 0 <= j < n ==> KeyAt(batch, j, newGuid) != Some(x)
    ensures SameAt(s, Prefix(s, batch, n, newGuid, faults).value, x)
    decreases n
  {
    if n > 0 {
      LastStepIsWrite(s, batch, n, newGuid, faults);
      UntouchedOrdersUnchanged(s, batch, n - 1, newGuid, faults, x);
      var t := Prefix(s, batch, n - 1, newGuid, faults).value;
      var dto := batch[n - 1].dto;
      var id := ResolveId(dto, newGuid(n - 1));
      WriteOrderElsewhere(t, id, dto, x);
    }
  }

  /**
   * Last write wins: the header (apart from its creation time) and the rows of
   * an order come from the last event of the prefix written under its key.
   */
  lemma {:induction false} LastWriteWins(s: Store, batch: seq<Deserialized>, n: nat, newGuid: nat -> Guid, faults: set<nat>, k: nat, x: Guid)
    requires k < n <= |batch|
    requires Prefix(s, batch, n, newGuid, faults).Ok?
    requires KeyAt(batch, k, newGuid) == Some(x)
    requires forall j :: k < j < n ==> KeyAt(batch, j, newGuid) != Some(x)
    ensures var t := Prefix(s, batch, n, newGuid, faults).value;
      && x in t.orders
      && HeaderFrom(t.orders[x], IncomingHeader(batch[k].dto))
      && Some(RowsOf(t.items, x)) == IncomingRows(ItemsOf(batch[k].dto))
      && (x in t.items <==> RowsOf(t.items, x) != [])
    decreases n
  {
    LastStepIsWrite(s, batch, n, newGuid, faults);
    var t := Prefix(s, batch, n - 1, newGuid, faults).value;
    var dto := batch[n - 1].dto;
    var id := ResolveId(dto, newGuid(n - 1));
    if k < n - 1 {
      LastWriteWins(s, batch, n - 1, newGuid, faults, k, x);
      WriteOrderElsewhere(t, id, dto, x);
    } else {
      WriteOrderTarget(t, id, dto);
    }
  }

  /** A prefix that goes through started from prefixes that went through. */
  lemma ShorterPrefixOk(s: Store, batch: seq<Deserialized>, m: nat, n: nat, newGuid: nat -> Guid, faults: set<nat>)
    requires m <= n <= |batch|
    requires Prefix(s, batch, n, newGuid, faults).Ok?
    ensures Prefix(s, batch, m, newGuid, faults).Ok?
  {
    if Prefix(s, batch, m, newGuid, faults).Err? {
      FailureSticks(s, batch, m, n, newGuid, faults);
    }
  }

  /** Once an order exists, later events never change its creation time. */
  lemma {:induction false} CreatedAtKept(s: Store, batch: seq<Deserialized>, m: nat, n: nat, newGuid: nat -> Guid, faults: set<nat>, x: Guid)
    requires m <= n <= |batch|
    requires Prefix(s, batch, n, newGuid, faults).Ok?
    requires Prefix(s, batch, m, newGuid, faults).Ok? && x in Prefix(s, batch, m, newGuid, faults).value.orders
    ensures x in Prefix(s, batch, n, newGuid, faults).value.orders
    ensures Prefix(s, batch, n, newGuid, faults).value.orders[x].createdAtUtc ==
            Prefix(s, batch, m, newGuid, faults).value.orders[x].createdAtUtc
    decreases n
  {
    if n > m {
      LastStepIsWrite(s, batch, n, newGuid, faults);
      CreatedAtKept(s, batch, m, n - 1, newGuid, faults, x);
      var t := Prefix(s, batch, n - 1, newGuid, faults).value;
      var dto := batch[n - 1].dto;
      var id := ResolveId(dto, newGuid(n - 1));
      if id == x {
        WriteOrderTarget(t, id, dto);
      } else {
        WriteOrderElsewhere(t, id, dto, x);
      }
    }
  }

  /** An order new to the store takes its creation time from the first event written under its key. */
  lemma CreatedAtFromFirstEvent(s: Store, batch: seq<Deserialized>, n: nat, newGuid: nat -> Guid, faults: set<nat>, k: nat, x: Guid)
    requires k < n <= |batch|
    requires Prefix(s, batch, n, newGuid, faults).Ok?
    requires x !in s.orders
    requires KeyAt(batch, k, newGuid) == Some(x)
    requires forall j :: 0 <= j < k ==> KeyAt(batch, j, newGuid) != Some(x)
    ensures x in Prefix(s, batch, n, newGuid, faults).value.orders
    ensures Prefix(s, batch, n, newGuid, faults).value.orders[x].createdAtUtc == UtcTicks(batch[k].dto.createdAt)
  {
    ShorterPrefixOk(s, batch, k + 1, n, newGuid, faults);
    ShorterPrefixOk(s, batch, k, n, newGuid, faults);
    UntouchedOrdersUnchanged(s, batch, k, newGuid, faults, x);
    LastStepIsWrite(s, batch, k + 1, newGuid, faults);
    var t := Prefix(s, batch, k, newGuid, faults).value;
    WriteOrderTarget(t, x, batch[k].dto);
    CreatedAtKept(s, batch, k + 1, n, newGuid, faults, x);
  }

  /** Finds the last event of the prefix written under `x`, given one that is. */
  lemma {:induction false} LastEventFor(batch: seq<Deserialized>, n: nat, newGuid: nat -> Guid, x: Guid, k0: nat) returns (k: nat)
    requires k0 < n <= |batch| && KeyAt(batch, k0, newGuid) == Some(x)
    ensures k0 <= k < n && KeyAt(batch, k, newGuid) == Some(x)
    ensures forall j :: k < j < n ==> KeyAt(batch, j, newGuid) != Some(x)
    decreases n
  {
    if KeyAt(batch, n - 1, newGuid) == Some(x) {
      k := n - 1;
    } else {
      k := LastEventFor(batch, n - 1, newGuid, x, k0);
    }
  }

  /**
   * Redelivery is harmless for orders that carry their own `Id`. Applying a
   * batch that went through once to the store it produced, whatever keys
   * would be minted and whatever the database rejects the second time, goes
   * through exactly when the batch would have gone through from the first
   * store under those rejections, and when it does it changes nothing.
   */
  lemma ReplayIsIdempotent(s: Store, batch: seq<Deserialized>, newGuid: nat -> Guid, faults: set<nat>,
                           newGuid': nat -> Guid, faults': set<nat>)
    requires AllIdentified(batch)
    requires Project(s, batch, newGuid, faults).Ok?
    ensures var t := Project(s, batch, newGuid, faults).value;
      Project(t, batch, newGuid', faults').Ok? <==> Project(s, batch, newGuid, faults').Ok?
    ensures var t := Project(s, batch, newGuid, faults).value;
      Project(t, batch, newGuid', faults').Ok? ==> Project(t, batch, newGuid', faults').value == t
  {
    var n := |batch|;
    var t := Project(s, batch, newGuid, faults).value;
    PrefixOkIff(s, batch, n, newGuid, faults);
    PrefixOkIff(s, batch, n, newGuid, faults');
    PrefixOkIff(t, batch, n, newGuid', faults');
    if Project(t, batch, newGuid', faults').Ok? {
      var u := Project(t, batch, newGuid', faults').value;
      assert forall j :: 0 <= j < n ==> KeyAt(batch, j, newGuid) == KeyAt(batch, j, newGuid');
      forall x
        ensures x in u.orders <==> x in t.orders
        ensures x in t.orders ==> u.orders[x] == t.orders[x]
        ensures x in u.items <==> x in t.items
        ensures x in t.items ==> u.items[x] == t.items[x]
      {
        if k0 :| 0 <= k0 < n && KeyAt(batch, k0, newGuid) == Some(x) {
          var k := LastEventFor(batch, n, newGuid, x, k0);
          LastWriteWins(s, batch, n, newGuid, faults, k, x);
          LastWriteWins(t, batch, n, newGuid', faults', k, x);
          CreatedAtKept(t, batch, 0, n, newGuid', faults', x);
          assert u.orders[x] == t.orders[x];
        } else {
          UntouchedOrdersUnchanged(t, batch, n, newGuid', faults', x);
        }
      }
      assert u.orders.Keys == t.orders.Keys;
      assert u.orders == t.orders;
      assert u.items.Keys == t.items.Keys;
      assert u.items == t.items;
    }
  }
}
