/**
 * What one decoded order does to the two tables `dbo.OrderEvents` and
 * `dbo.OrderItems`: the defaults applied to absent fields, the choice of the
 * order's key, the `MERGE` upsert of the header and the delete-then-insert
 * replacement of its item rows.
 */
module Projection {
  import opened Wrappers
  import opened Events

  const DEFAULT_PAYMENT_METHOD: string := "card"

  /** One row of `dbo.OrderEvents`, apart from its key `OrderId`; `None` is `DBNull`. */
  datatype Header = Header(
    customerFullName: string,
    email: Option<string>,
    phone: Option<string>,
    paymentMethod: string,
    total: Decimal,
    createdAtUtc: int)

  /** One row of `dbo.OrderItems`, apart from the `OrderId` it is filed under. */
  datatype ItemRow = ItemRow(itemId: Int64, name: string, qty: Int32, price: Decimal)

  /**
   * The two tables: each order's header by its key, and the item rows of each
   * order in the order they were inserted. A key with no item rows is absent.
   */
  datatype Store = Store(orders: map<Guid, Header>, items: map<Guid, seq<ItemRow>>)

  /** The key an order is written under: its own `Id`, or a freshly minted one when it has none. */
  function ResolveId(dto: OrderDto, minted: Guid): (id: Guid)
    ensures dto.id.Some? ==> id == dto.id.value
    ensures dto.id.None? ==> id == minted
  {
    dto.id.GetOr(minted)
  }

  /** The source row of the `MERGE`: absent name becomes "", absent payment method becomes "card". */
  function IncomingHeader(dto: OrderDto): Header {
    Header(
      dto.fullName.GetOr(""),
      dto.email,
      dto.phone,
      dto.paymentMethod.GetOr(DEFAULT_PAYMENT_METHOD),
      dto.total,
      UtcTicks(dto.createdAt))
  }

  /** The row inserted for one item: an absent name becomes "". */
  function IncomingRow(it: ItemDto): ItemRow {
    ItemRow(it.id, it.name.GetOr(""), it.qty, it.price)
  }

  /** The item list iterated over: a null list is treated as an empty one. */
  function ItemsOf(dto: OrderDto): seq<Option<ItemDto>> {
    dto.items.GetOr([])
  }

  /**
   * The rows inserted for an item list, or `None` when an element is null
   * (reading the `Id` of a null element throws).
   */
  function IncomingRows(items: seq<Option<ItemDto>>): (rows: Option<seq<ItemRow>>)
    ensures rows.Some? <==> forall k :: 0 <= k < |items| ==> items[k].Some?
    ensures rows.Some? ==>
      |rows.value| == |items| &&
      forall k :: 0 <= k < |items| ==> rows.value[k] == IncomingRow(items[k].value)
    decreases |items|
  {
    if items == [] then Some([])
    else
      match IncomingRows(items[..|items| - 1])
      case None => None
      case Some(prefix) =>
        match items[|items| - 1]
        case None => None
        case Some(it) => Some(prefix + [IncomingRow(it)])
  }

  /**
   * The header upsert: the incoming row when the key is new; otherwise every
   * column from the incoming row except `CreatedAtUtc`, which keeps its value.
   */
  function Merge(orders: map<Guid, Header>, id: Guid, src: Header): map<Guid, Header> {
    if id in orders then orders[id := src.(createdAtUtc := orders[id].createdAtUtc)]
    else orders[id := src]
  }

  /** The rows `SELECT ... WHERE OrderId = id` would return. */
  function RowsOf(items: map<Guid, seq<ItemRow>>, id: Guid): seq<ItemRow> {
    if id in items then items[id] else []
  }

  /** `DELETE FROM dbo.OrderItems WHERE OrderId = id`. */
  function DeleteRows(items: map<Guid, seq<ItemRow>>, id: Guid): map<Guid, seq<ItemRow>> {
    items - {id}
  }

  /** One `INSERT INTO dbo.OrderItems` for the order `id`. */
  function InsertRow(items: map<Guid, seq<ItemRow>>, id: Guid, row: ItemRow): map<Guid, seq<ItemRow>> {
    items[id := RowsOf(items, id) + [row]]
  }

  /** The inserts for `rows`, one after the other. */
  function InsertRows(items: map<Guid, seq<ItemRow>>, id: Guid, rows: seq<ItemRow>): map<Guid, seq<ItemRow>>
    decreases |rows|
  {
    if rows == [] then items
    else InsertRow(InsertRows(items, id, rows[..|rows| - 1]), id, rows[|rows| - 1])
  }

  /** What the delete followed by the inserts amounts to: the rows of `id` become `rows`. */
  function ReplaceRows(items: map<Guid, seq<ItemRow>>, id: Guid, rows: seq<ItemRow>): map<Guid, seq<ItemRow>> {
    if rows == [] then items - {id} else items[id := rows]
  }

  /**
   * Everything written for one order under the key `id`: the upsert, then the
   * replacement of its rows. `None` when an item element is null, which
   * aborts the write part-way.
   */
  function WriteOrder(s: Store, id: Guid, dto: OrderDto): Option<Store> {
    match IncomingRows(ItemsOf(dto))
    case None => None
    case Some(rows) => Some(Store(Merge(s.orders, id, IncomingHeader(dto)), ReplaceRows(s.items, id, rows)))
  }

  /** The two stores agree on the header and the item rows of `x`. */
  ghost predicate SameAt(s: Store, t: Store, x: Guid) {
    && (x in s.orders <==> x in t.orders)
    && (x in s.orders ==> s.orders[x] == t.orders[x])
    && (x in s.items <==> x in t.items)
    && (x in s.items ==> s.items[x] == t.items[x])
  }

  /** The header `t` holds for an order whose latest incoming row is `h`, for any creation time. */
  ghost predicate HeaderFrom(t: Header, h: Header) {
    t == h.(createdAtUtc := t.createdAtUtc)
  }

  // ---------------------------------------------------------------------------
  // Defaults

  /** Each absent field on its own: a missing name becomes "", a missing payment method "card", a missing e-mail or phone null. */
  lemma AbsentHeaderFieldsTakeDefaults(dto: OrderDto)
    ensures dto.fullName.None? ==> IncomingHeader(dto).customerFullName == ""
    ensures dto.email.None? ==> IncomingHeader(dto).email.None?
    ensures dto.phone.None? ==> IncomingHeader(dto).phone.None?
    ensures dto.paymentMethod.None? ==> IncomingHeader(dto).paymentMethod == "card"
  {
  }

  /** Fields the order does carry are stored as they are. */
  lemma PresentHeaderFieldsKept(dto: OrderDto)
    ensures dto.fullName.Some? ==> IncomingHeader(dto).customerFullName == dto.fullName.value
    ensures IncomingHeader(dto).email == dto.email && IncomingHeader(dto).phone == dto.phone
    ensures dto.paymentMethod.Some? ==> IncomingHeader(dto).paymentMethod == dto.paymentMethod.value
    ensures IncomingHeader(dto).total == dto.total
    ensures IncomingHeader(dto).createdAtUtc == UtcTicks(dto.createdAt)
  {
  }

  // ---------------------------------------------------------------------------
  // Header upsert

  /** A new key gets the whole incoming row; an existing key keeps its creation time; no other key changes. */
  lemma MergeUpserts(orders: map<Guid, Header>, id: Guid, src: Header)
    ensures Merge(orders, id, src).Keys == orders.Keys + {id}
    ensures id !in orders ==> Merge(orders, id, src)[id] == src
    ensures id in orders ==> Merge(orders, id, src)[id] == src.(createdAtUtc := orders[id].createdAtUtc)
    ensures forall y :: y in orders && y != id ==> Merge(orders, id, src)[y] == orders[y]
  {
  }

  // ---------------------------------------------------------------------------
  // Item replacement

  /** The inserts append `rows`, in order, to the rows of `id`, and touch no other order. */
  lemma {:induction false} InsertRowsAppends(items: map<Guid, seq<ItemRow>>, id: Guid, rows: seq<ItemRow>)
    ensures InsertRows(items, id, rows) == if rows == [] then items else items[id := RowsOf(items, id) + rows]
    decreases |rows|
  {
    if rows != [] {
      var prefix, last := rows[..|rows| - 1], rows[|rows| - 1];
      InsertRowsAppends(items, id, prefix);
      assert prefix + [last] == rows;
      if prefix != [] {
        assert RowsOf(items, id) + prefix + [last] == RowsOf(items, id) + rows;
      }
    }
  }

  /** Deleting the rows of `id` and then inserting `rows` one by one replaces them by `rows`. */
  lemma DeleteThenInsertReplaces(items: map<Guid, seq<ItemRow>>, id: Guid, rows: seq<ItemRow>)
    ensures InsertRows(DeleteRows(items, id), id, rows) == ReplaceRows(items, id, rows)
  {
    var cleared := DeleteRows(items, id);
    InsertRowsAppends(cleared, id, rows);
    if rows != [] {
      assert RowsOf(cleared, id) + rows == rows;
      assert cleared[id := rows] == items[id := rows];
    }
  }

  /**
   * A replacement leaves exactly the incoming rows, in order, for `id` (none
   * of the old ones), no key when there are none, and every other order's
   * rows as they were.
   */
  lemma ReplacementIsExact(items: map<Guid, seq<ItemRow>>, id: Guid, rows: seq<ItemRow>)
    ensures RowsOf(ReplaceRows(items, id, rows), id) == rows
    ensures id in ReplaceRows(items, id, rows) <==> rows != []
    ensures forall y :: y != id ==>
      (y in ReplaceRows(items, id, rows) <==> y in items) &&
      (y in items ==> ReplaceRows(items, id, rows)[y] == items[y])
  {
  }

  /** Writing the same header twice is writing it once. */
  lemma MergeTwice(orders: map<Guid, Header>, id: Guid, src: Header)
    ensures Merge(Merge(orders, id, src), id, src) == Merge(orders, id, src)
  {
    var once := Merge(orders, id, src);
    assert id in once;
    assert once[id := once[id]] == once;
  }

  /** Replacing the rows of `id` twice with the same rows is replacing them once. */
  lemma ReplaceTwice(items: map<Guid, seq<ItemRow>>, id: Guid, rows: seq<ItemRow>)
    ensures ReplaceRows(ReplaceRows(items, id, rows), id, rows) == ReplaceRows(items, id, rows)
  {
    var once := ReplaceRows(items, id, rows);
    if rows == [] {
      assert once - {id} == once;
    } else {
      assert once[id := rows] == once;
    }
  }

  // ---------------------------------------------------------------------------
  // One order

  /** Writing one order succeeds exactly when its item list has no null element. */
  lemma WriteOrderSucceedsIff(s: Store, id: Guid, dto: OrderDto)
    ensures WriteOrder(s, id, dto).Some? <==> forall k :: 0 <= k < |ItemsOf(dto)| ==> ItemsOf(dto)[k].Some?
  {
  }

  /**
   * After writing one order under `id`, the header of `id` is the incoming one,
   * its creation time kept when the key existed, and its rows are exactly the
   * incoming ones.
   */
  lemma WriteOrderTarget(s: Store, id: Guid, dto: OrderDto)
    requires WriteOrder(s, id, dto).Some?
    ensures var t := WriteOrder(s, id, dto).value;
      && t.orders.Keys == s.orders.Keys + {id}
      && HeaderFrom(t.orders[id], IncomingHeader(dto))
      && t.orders[id].createdAtUtc == (if id in s.orders then s.orders[id].createdAtUtc else UtcTicks(dto.createdAt))
      && Some(RowsOf(t.items, id)) == IncomingRows(ItemsOf(dto))
      && (id in t.items <==> RowsOf(t.items, id) != [])
  {
    MergeUpserts(s.orders, id, IncomingHeader(dto));
    ReplacementIsExact(s.items, id, IncomingRows(ItemsOf(dto)).value);
  }

  /** An order whose item list is null or empty is written with no item rows at all. */
  lemma NoItemsNoRows(s: Store, id: Guid, dto: OrderDto)
    requires dto.items.None? || dto.items == Some([])
    ensures WriteOrder(s, id, dto).Some?
    ensures id !in WriteOrder(s, id, dto).value.items
  {
  }

  /** Writing one order under `id` leaves every other order as it was. */
  lemma WriteOrderElsewhere(s: Store, id: Guid, dto: OrderDto, y: Guid)
    requires WriteOrder(s, id, dto).Some?
    requires y != id
    ensures SameAt(s, WriteOrder(s, id, dto).value, y)
  {
    MergeUpserts(s.orders, id, IncomingHeader(dto));
    ReplacementIsExact(s.items, id, IncomingRows(ItemsOf(dto)).value);
  }

  /** Writing the same order under the same key twice leaves the tables as writing it once. */
  lemma WriteOrderIdempotent(s: Store, id: Guid, dto: OrderDto)
    requires WriteOrder(s, id, dto).Some?
    ensures WriteOrder(WriteOrder(s, id, dto).value, id, dto) == WriteOrder(s, id, dto)
  {
    MergeTwice(s.orders, id, IncomingHeader(dto));
    ReplaceTwice(s.items, id, IncomingRows(ItemsOf(dto)).value);
  }
}
