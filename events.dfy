/**
 * The shapes an event payload is deserialised into: the private nested
 * records `OrderDto` and `OrderDto.Item` of the consumer, and the three
 * outcomes of handing a payload to the JSON deserialiser.
 */
module Events {
  import opened Wrappers

  /** A `System.Guid`: a 128-bit opaque token. */
  newtype Guid = x: int | 0 <= x < 0x1_0000_0000_0000_0000_0000_0000_0000_0000

  /** A C# `long`. */
  newtype Int64 = x: int | -0x8000_0000_0000_0000 <= x < 0x8000_0000_0000_0000

  /** A C# `int`. */
  newtype Int32 = x: int | -0x8000_0000 <= x < 0x8000_0000

  /** A C# `decimal`: only ever stored, never computed with. */
  type Decimal = real

  const TICKS_PER_MINUTE: int := 600_000_000

  /**
   * A `DateTimeOffset`: the reading of a local clock in 100-nanosecond ticks
   * together with that clock's offset from UTC in minutes.
   */
  datatype DateTimeOffset = DateTimeOffset(clockTicks: int, offsetMinutes: int)

  /** The ticks of `DateTimeOffset.UtcDateTime`: the same instant read on a UTC clock. */
  function UtcTicks(d: DateTimeOffset): int {
    d.clockTicks - d.offsetMinutes * TICKS_PER_MINUTE
  }

  /** `OrderDto.Item`; a missing or null `name` is `None`. */
  datatype ItemDto = ItemDto(id: Int64, name: Option<string>, qty: Int32, price: Decimal)

  /**
   * `OrderDto`. Every reference-typed property may be null. `items` is an
   * empty list when the payload omits it, `None` when the payload says
   * `null`, and its elements are themselves nullable (`[null]` is valid JSON).
   */
  datatype OrderDto = OrderDto(
    id: Option<Guid>,
    fullName: Option<string>,
    email: Option<string>,
    phone: Option<string>,
    paymentMethod: Option<string>,
    total: Decimal,
    createdAt: DateTimeOffset,
    items: Option<seq<Option<ItemDto>>>)

  /** The raw body of one event, as text. */
  type Payload = string

  /**
   * What the JSON deserialiser makes of one payload: it throws on a malformed
   * payload (`JsonError`), returns null for the literal `null` (`JsonNull`),
   * or returns a record (`Parsed`).
   */
  datatype Deserialized = JsonError | JsonNull | Parsed(dto: OrderDto)

  /** Deserialises every payload of a batch with the given deserialiser. */
  function DeserializeAll(events: seq<Payload>, deserialize: Payload -> Deserialized): seq<Deserialized> {
    seq(|events|, k requires 0 <= k < |events| => deserialize(events[k]))
  }
}
