/** The order, trade and commodity records of the exchange (models/order.py,
    models/trade.py, models/commodity.py) and the string encoding of the two
    order enumerations. */
module OrderModel {
  import opened Common

  /** Side of an order. */
  datatype OrderType = Buy | Sell

  /** Life-cycle status of an order. */
  datatype OrderStatus = Open | Partial | Filled | Cancelled

  /** The wire value of an order type. */
  function TypeValue(t: OrderType): string
  {
    match t
    case Buy => "buy"
    case Sell => "sell"
  }

  /** Looking an order type up by its value, as `OrderType(value)` does;
      an unknown value has no order type (Python raises). */
  function ParseOrderType(s: string): (r: Option<OrderType>)
    ensures r.Some? ==> TypeValue(r.value) == s
    ensures r.None? ==> forall t :: TypeValue(t) != s
  {
    if s == "buy" then Some(Buy)
    else if s == "sell" then Some(Sell)
    else None
  }

  lemma OrderTypeRoundTrip(t: OrderType)
    ensures ParseOrderType(TypeValue(t)) == Some(t)
  {
  }

  /** The wire value of an order status. */
  function StatusValue(s: OrderStatus): string
  {
    match s
    case Open => "open"
    case Partial => "partial"
    case Filled => "filled"
    case Cancelled => "cancelled"
  }

  function ParseStatus(v: string): (r: Option<OrderStatus>)
    ensures r.Some? ==> StatusValue(r.value) == v
    ensures r.None? ==> forall s :: StatusValue(s) != v
  {
    if v == "open" then Some(Open)
    else if v == "partial" then Some(Partial)
    else if v == "filled" then Some(Filled)
    else if v == "cancelled" then Some(Cancelled)
    else None
  }

  /** The four status values are pairwise distinct, so the encoding loses nothing. */
  lemma StatusRoundTrip(s: OrderStatus)
    ensures ParseStatus(StatusValue(s)) == Some(s)
  {
  }

  /** An order that can still trade or be cancelled: the status filter of the
      candidate query, the snapshot query and the cancel guard. */
  predicate IsActive(s: OrderStatus)
  {
    s == Open || s == Partial
  }

  /** One row of the order table. `createdAt` is the insertion time, kept as
      an integer clock reading. */
  datatype Order = Order(
    id: int,
    customerId: int,
    commodityId: int,
    orderType: OrderType,
    status: OrderStatus,
    price: real,
    quantity: real,
    filledQuantity: real,
    createdAt: int)

  /** A fresh order as the column defaults build it: nothing filled yet and
      status open. The id and the creation time are assigned on insertion. */
  function NewOrder(customerId: int, commodityId: int, orderType: OrderType, price: real, quantity: real): (o: Order)
    ensures o.status == Open && o.filledQuantity == 0.0
    ensures o.customerId == customerId && o.commodityId == commodityId && o.orderType == orderType
    ensures o.price == price && o.quantity == quantity
  {
    Order(0, customerId, commodityId, orderType, Open, price, quantity, 0.0, 0)
  }

  /** The JSON object `to_dict` produces. */
  datatype OrderDict = OrderDict(
    id: int,
    customerId: int,
    commodityId: int,
    orderType: string,
    status: string,
    price: real,
    quantity: real,
    filledQuantity: real,
    createdAt: int)

  /** `to_dict`: the two enumerations as their string values, every other
      field copied. The encoding can be read back without loss. */
  function ToDict(o: Order): (d: OrderDict)
    ensures ParseOrderType(d.orderType) == Some(o.orderType)
    ensures ParseStatus(d.status) == Some(o.status)
    ensures d.id == o.id && d.customerId == o.customerId && d.commodityId == o.commodityId
    ensures d.price == o.price && d.quantity == o.quantity && d.filledQuantity == o.filledQuantity
    ensures d.createdAt == o.createdAt
  {
    OrderDict(o.id, o.customerId, o.commodityId, TypeValue(o.orderType), StatusValue(o.status),
              o.price, o.quantity, o.filledQuantity, o.createdAt)
  }

  /** One row of the trade table: the incoming order, the resting order it
      met, the execution price and quantity. */
  datatype Trade = Trade(
    id: int,
    orderId: int,
    counterpartyOrderId: int,
    price: real,
    quantity: real,
    executedAt: int)

  /** One row of the commodity table. */
  datatype Commodity = Commodity(id: int, name: string, symbol: string, description: Option<string>)
}
