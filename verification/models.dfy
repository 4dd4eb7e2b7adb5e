/** The persisted entities: districts, couriers, orders and the order status codes. */
module Models {
  import opened Wrappers

  /** Row ids are plain integers: a lookup may be asked for any integer, even a negative one. */
  type CourierId = int
  type OrderId = int
  type DistrictId = int

  /** The lifecycle state of an order. */
  datatype OrderStatus = InProgress | Completed

  /** The integer code an order status is stored and reported as. */
  function StatusCode(st: OrderStatus): (v: int)
    ensures 1 <= v <= 2
    ensures v == 1 <==> st == InProgress
  {
    match st
    case InProgress => 1
    case Completed => 2
  }

  /** Decodes a stored status code; only 1 and 2 are codes of a status. */
  function StatusOf(v: int): (r: Option<OrderStatus>)
    ensures r.Some? <==> v == 1 || v == 2
    ensures r.Some? ==> StatusCode(r.value) == v
  {
    if v == 1 then Some(InProgress)
    else if v == 2 then Some(Completed)
    else None
  }

  /** Decoding the code of a status gives that status back. */
  lemma StatusRoundTrip(st: OrderStatus)
    ensures StatusOf(StatusCode(st)) == Some(st)
  {
  }

  /** A calendar day of the month, the `.day` component of a datetime. */
  type DayOfMonth = d: int | 1 <= d <= 31 witness 1

  /** A point in time: microseconds on a fixed clock, and the day of the month it falls on. */
  datatype Timestamp = Timestamp(micros: int, day: DayOfMonth)

  /**
   * A district row. A district built in memory but not yet flushed has no id,
   * and its name is unique across the table.
   */
  datatype District = District(id: Option<DistrictId>, name: string)

  /**
   * A courier row. `districts` is the courier's side of the association table;
   * `activeOrder` is the single nullable reference to the order being delivered.
   */
  datatype Courier = Courier(
    name: string,
    districts: set<DistrictId>,
    activeOrder: Option<OrderId>,
    avgOrderCompleteTime: Option<int>,
    avgDayOrders: int)

  /** An order row: it references exactly one district and exactly one courier. */
  datatype Order = Order(
    name: string,
    district: DistrictId,
    courier: CourierId,
    status: OrderStatus,
    startedAt: Timestamp,
    completedAt: Option<Timestamp>)

  /** A courier as inserted: no active order, no average time, zero orders per day. */
  function NewCourier(name: string, districts: set<DistrictId>): Courier {
    Courier(name, districts, None, None, 0)
  }

  /** An order as inserted at time `now`: in progress and not completed. */
  function NewOrder(name: string, district: DistrictId, courier: CourierId, now: Timestamp): Order {
    Order(name, district, courier, InProgress, now, None)
  }
}
