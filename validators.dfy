/** Request-body validation of new orders and new commodities (api/validators.py).
    A JSON field is absent, null, or carries a value of the declared type;
    coercion between JSON types is not modelled. Validation collects one
    error per failing field, in declaration order. */
module Validators {
  import opened Common
  import opened OrderModel

  /** A field of a JSON request body. */
  datatype Field<+T> = Absent | Null | Given(value: T)

  datatype FieldError = FieldError(field: string, message: string)

  const FieldRequired := "field required"
  const NoneNotAllowed := "none is not an allowed value"
  const PriceNotPositive := "Price must be greater than zero"
  const QuantityNotPositive := "Quantity must be greater than zero"

  /** `validate_order_type`: accepted exactly when it is the value of an
      order type, and then returned unchanged. */
  function ValidateOrderType(v: string): (r: Result<string, string>)
    ensures r.Success? <==> ParseOrderType(v).Some?
    ensures r.Success? ==> r.value == v
    ensures r.Failure? ==> r.error == "Invalid order_type: " + v + ". Must be one of: ['buy', 'sell']"
  {
    if v == TypeValue(Buy) || v == TypeValue(Sell) then Success(v)
    else Failure("Invalid order_type: " + v + ". Must be one of: ['buy', 'sell']")
  }

  /** `validate_price`: a price is accepted exactly when it is positive. */
  function ValidatePrice(v: real): (r: Result<real, string>)
    ensures r.Success? <==> v > 0.0
    ensures r == Success(v) || r == Failure(PriceNotPositive)
  {
    if v <= 0.0 then Failure(PriceNotPositive) else Success(v)
  }

  /** `validate_quantity`: a quantity is accepted exactly when it is positive. */
  function ValidateQuantity(v: real): (r: Result<real, string>)
    ensures r.Success? <==> v > 0.0
    ensures r == Success(v) || r == Failure(QuantityNotPositive)
  {
    if v <= 0.0 then Failure(QuantityNotPositive) else Success(v)
  }

  /** Errors of a required field without a field validator. */
  function RequiredErrors<T>(name: string, f: Field<T>): (errs: seq<FieldError>)
    ensures errs == [] <==> f.Given?
  {
    match f
    case Absent => [FieldError(name, FieldRequired)]
    case Null => [FieldError(name, NoneNotAllowed)]
    case Given(_) => []
  }

  /** Errors of a required field with a field validator; the validator only
      runs on a value that is present. */
  function CheckedErrors<T>(name: string, f: Field<T>, check: T -> Result<T, string>): (errs: seq<FieldError>)
    ensures errs == [] <==> f.Given? && check(f.value).Success?
  {
    match f
    case Absent => [FieldError(name, FieldRequired)]
    case Null => [FieldError(name, NoneNotAllowed)]
    case Given(v) =>
      match check(v)
      case Success(_) => []
      case Failure(m) => [FieldError(name, m)]
  }

  /** The body of a new-order request. */
  datatype OrderRequest = OrderRequest(
    customerId: Field<int>,
    commodityId: Field<int>,
    orderType: Field<string>,
    price: Field<real>,
    quantity: Field<real>)

  /** A validated `OrderCreate`. */
  datatype OrderCreate = OrderCreate(customerId: int, commodityId: int, orderType: string, price: real, quantity: real)

  predicate AcceptableOrder(req: OrderRequest)
  {
    && req.customerId.Given? && req.commodityId.Given?
    && req.orderType.Given? && ParseOrderType(req.orderType.value).Some?
    && req.price.Given? && req.price.value > 0.0
    && req.quantity.Given? && req.quantity.value > 0.0
  }

  /** `OrderCreate(**data)`: either every field is acceptable and the values are
      kept as given, or at least one error is reported, naming a declared field. */
  function ValidateOrderCreate(req: OrderRequest): (r: Result<OrderCreate, seq<FieldError>>)
    ensures r.Success? <==> AcceptableOrder(req)
    ensures r.Success? ==> r.value == OrderCreate(req.customerId.value, req.commodityId.value,
                                                  req.orderType.value, req.price.value, req.quantity.value)
    ensures r.Failure? ==> |r.error| > 0 && forall e :: e in r.error ==>
      e.field in {"customer_id", "commodity_id", "order_type", "price", "quantity"}
  {
    var errs := RequiredErrors("customer_id", req.customerId)
      + RequiredErrors("commodity_id", req.commodityId)
      + CheckedErrors("order_type", req.orderType, ValidateOrderType)
      + CheckedErrors("price", req.price, ValidatePrice)
      + CheckedErrors("quantity", req.quantity, ValidateQuantity);
    if errs == [] then
      Success(OrderCreate(req.customerId.value, req.commodityId.value, req.orderType.value,
                          req.price.value, req.quantity.value))
    else Failure(errs)
  }

  /** A validated `CommodityCreate`. */
  datatype CommodityCreate = CommodityCreate(name: string, symbol: string, description: Option<string>)

  /** `CommodityCreate(**data)`: name and symbol are required strings; the
      description is optional and an absent or null one becomes None. */
  function ValidateCommodityCreate(name: Field<string>, symbol: Field<string>, description: Field<string>)
    : (r: Result<CommodityCreate, seq<FieldError>>)
    ensures r.Success? <==> name.Given? && symbol.Given?
    ensures r.Success? ==> r.value.name == name.value && r.value.symbol == symbol.value
    ensures r.Success? ==> r.value.description == (if description.Given? then Some(description.value) else None)
  {
    var errs := RequiredErrors("name", name) + RequiredErrors("symbol", symbol);
    if errs == [] then
      Success(CommodityCreate(name.value, symbol.value,
                              if description.Given? then Some(description.value) else None))
    else Failure(errs)
  }
}
