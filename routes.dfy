/** The REST handlers of api/routes.py, as decisions over the customer,
    order and trade tables.

    The request is reduced to what the handlers read from it (the
    `X-API-Key` header, the JSON fields). A reply is a status code with a
    body, an error status with its message, or the validation errors of a
    request body, which the handler does not catch. The customer table is
    passed in; models/customer.py is not part of this model, so password
    checking is a parameter, and the fresh API key of a registration and
    the outcome of its database commit are parameters too. */
module Routes {
  import opened Common
  import opened OrderModel
  import opened Validators
  import opened Matching
  import opened OrderBookEngine

  /** One row of the customer table, as far as the handlers use it. */
  datatype Customer = Customer(id: int, name: Option<string>, email: Option<string>, apiKey: string)

  datatype Reply<+T> =
    | Reply(code: int, body: T)
    | Error(code: int, message: string)
    | Invalid(errors: seq<FieldError>)

  const ApiKeyRequired := "API Key required"
  const InvalidApiKey := "Invalid API Key"
  const CredentialsRequired := "Email and password required"
  const InvalidCredentials := "Invalid email or password"
  const PasswordRequired := "Password required"

  /** The first position whose element satisfies `p`: the query `.first()`. */
  function FindFirst<T>(s: seq<T>, p: T -> bool): (r: Option<nat>)
    ensures r.Some? ==> r.value < |s| && p(s[r.value])
    ensures r.Some? ==> forall j :: 0 <= j < r.value ==> !p(s[j])
    ensures r.None? ==> forall j :: 0 <= j < |s| ==> !p(s[j])
  {
    if s == [] then None
    else if p(s[0]) then Some(0)
    else match FindFirst(s[1..], p)
      case None => None
      case Some(i) => Some(i + 1)
  }

  /** The elements of `s` that satisfy `p`, in table order: the query `.all()`. */
  function Filter<T(!new)>(s: seq<T>, p: T -> bool): (r: seq<T>)
    ensures forall x :: x in r <==> x in s && p(x)
    ensures |r| <= |s|
  {
    if s == [] then []
    else
      assert forall x :: x in s <==> x == s[0] || x in s[1..];
      (if p(s[0]) then [s[0]] else []) + Filter(s[1..], p)
  }

  /** A header that Python treats as false: missing or empty. */
  predicate Blank(v: Option<string>)
  {
    v.None? || v.value == ""
  }

  /** `authenticate`: a missing key is refused, a key that no customer holds
      is refused, and otherwise the caller is the first customer holding it. */
  function Authenticate(apiKey: Option<string>, customers: seq<Customer>): (r: Result<Customer, string>)
    ensures Blank(apiKey) ==> r == Failure(ApiKeyRequired)
    ensures !Blank(apiKey) ==>
      (r.Success? <==> exists i :: 0 <= i < |customers| && customers[i].apiKey == apiKey.value)
    ensures !Blank(apiKey) && r.Failure? ==> r.error == InvalidApiKey
    ensures r.Success? ==> r.value in customers && apiKey == Some(r.value.apiKey)
    ensures !Blank(apiKey) ==>
      forall i :: 0 <= i < |customers| && customers[i].apiKey == apiKey.value
                  && (forall j :: 0 <= j < i ==> customers[j].apiKey != apiKey.value)
        ==> r == Success(customers[i])
  {
    if Blank(apiKey) then Failure(ApiKeyRequired)
    else match FindFirst(customers, (c: Customer) => c.apiKey == apiKey.value)
      case None => Failure(InvalidApiKey)
      case Some(i) => Success(customers[i])
  }

  /** A handler behind `@authenticate`: the 401 reply when authentication
      fails, the handler's reply for the authenticated caller otherwise. */
  function Authenticated<T>(apiKey: Option<string>, customers: seq<Customer>, handler: Customer -> Reply<T>): (r: Reply<T>)
    ensures Authenticate(apiKey, customers).Failure? ==> r == Error(401, Authenticate(apiKey, customers).error)
    ensures Authenticate(apiKey, customers).Success? ==> r == handler(Authenticate(apiKey, customers).value)
  {
    match Authenticate(apiKey, customers)
    case Failure(e) => Error(401, e)
    case Success(c) => handler(c)
  }

  /** The handler body does not run without a valid key: any two handlers
      give the same reply. */
  lemma AuthenticatedGuards<T>(apiKey: Option<string>, customers: seq<Customer>, h1: Customer -> Reply<T>, h2: Customer -> Reply<T>)
    requires Authenticate(apiKey, customers).Failure?
    ensures Authenticated(apiKey, customers, h1) == Authenticated(apiKey, customers, h2)
    ensures Authenticated(apiKey, customers, h1).code == 401
  {
  }

  /** The body of a successful login. */
  datatype LoginReply = LoginReply(customer: Customer, apiKey: string)

  /** `LoginResource.post`: both fields are required; an unknown email and a
      wrong password are refused alike; otherwise the reply carries the
      customer and its key. */
  function Login(email: Option<string>, password: Option<string>, customers: seq<Customer>,
                 checkPassword: (Customer, string) -> bool): (r: Reply<LoginReply>)
    ensures Blank(email) || Blank(password) ==> r == Error(400, CredentialsRequired)
    ensures r.Reply? ==>
      && r.code == 200 && r.body.customer in customers
      && r.body.customer.email == email && checkPassword(r.body.customer, password.value)
      && r.body.apiKey == r.body.customer.apiKey
    ensures r.Error? && !Blank(email) && !Blank(password) ==> r == Error(401, InvalidCredentials)
    ensures !Blank(email) && !Blank(password) && (forall i :: 0 <= i < |customers| ==> customers[i].email != email)
            ==> r == Error(401, InvalidCredentials)
    ensures !Blank(email) && !Blank(password) ==>
      forall i :: 0 <= i < |customers| && customers[i].email == email && (forall j :: 0 <= j < i ==> customers[j].email != email)
        ==> (r.Reply? <==> checkPassword(customers[i], password.value))
            && (r.Reply? ==> r.body.customer == customers[i])
  {
    if Blank(email) || Blank(password) then Error(400, CredentialsRequired)
    else match FindFirst(customers, (c: Customer) => c.email == email)
      case None => Error(401, InvalidCredentials)
      case Some(i) =>
        if !checkPassword(customers[i], password.value) then Error(401, InvalidCredentials)
        else Reply(200, LoginReply(customers[i], customers[i].apiKey))
  }

  /** A login does not tell an unknown email from a wrong password: with no
      customer of that email, or with one whose password does not match,
      the reply is the same. */
  lemma LoginHidesCause(email: Option<string>, password: Option<string>, unknown: seq<Customer>, known: seq<Customer>,
                        checkPassword: (Customer, string) -> bool)
    requires !Blank(email) && !Blank(password)
    requires forall i :: 0 <= i < |unknown| ==> unknown[i].email != email
    requires exists i :: 0 <= i < |known| && known[i].email == email
    requires forall i :: 0 <= i < |known| && known[i].email == email ==> !checkPassword(known[i], password.value)
    ensures Login(email, password, unknown, checkPassword) == Login(email, password, known, checkPassword)
  {
    var i :| 0 <= i < |known| && known[i].email == email;
    var f := FindFirst(known, (c: Customer) => c.email == email);
    assert f.Some?;
  }

  /** The customer table and the reply after a registration. */
  datatype Registration = Registration(customers: seq<Customer>, reply: Reply<Customer>)

  /** `CustomerResource.post`: a body without a `password` key is refused
      before anything is created; a `null` password passes that guard and
      goes on to `set_password` and the commit like a given one. A failed
      insert is rolled back and reported; otherwise the new customer gets
      the next id and the fresh key. `name` and `email` are read with
      `data.get`, so absent and `null` are alike for them. */
  function Register(customers: seq<Customer>, name: Option<string>, email: Option<string>, password: Field<string>,
                    freshKey: string, commitError: Option<string>): (r: Registration)
    ensures password.Absent? <==> r.reply == Error(400, PasswordRequired)
    ensures r.reply.Error? ==> r.customers == customers
    ensures !password.Absent? && commitError.Some? ==>
      r == Registration(customers, Error(400, "Registration failed: " + commitError.value))
    ensures !password.Absent? && commitError.None? ==>
      && r.reply.Reply? && r.reply.code == 201
      && r.customers == customers + [r.reply.body]
      && r.reply.body == Customer(|customers| + 1, name, email, freshKey)
  {
    if password.Absent? then Registration(customers, Error(400, PasswordRequired))
    else if commitError.Some? then Registration(customers, Error(400, "Registration failed: " + commitError.value))
    else
      var c := Customer(|customers| + 1, name, email, freshKey);
      Registration(customers + [c], Reply(201, c))
  }

  /** A registration that succeeds with a key no customer held before
      signs the new customer in: that key authenticates as the customer
      just created. */
  lemma RegisteredKeyAuthenticates(customers: seq<Customer>, name: Option<string>, email: Option<string>,
                                   password: Field<string>, freshKey: string)
    requires !password.Absent? && freshKey != ""
    requires forall i :: 0 <= i < |customers| ==> customers[i].apiKey != freshKey
    ensures var r := Register(customers, name, email, password, freshKey, None);
      Authenticate(Some(freshKey), r.customers) == Success(r.reply.body)
  {
    var r := Register(customers, name, email, password, freshKey, None);
    var n := |customers|;
    assert r.customers[n].apiKey == freshKey;
    assert forall j :: 0 <= j < n ==> r.customers[j] == customers[j];
  }

  /** `OrderListResource.get`: exactly the caller's orders. */
  function CustomerOrders(orders: seq<Order>, caller: Customer): (r: seq<Order>)
    ensures forall o :: o in r <==> o in orders && o.customerId == caller.id
  {
    Filter(orders, (o: Order) => o.customerId == caller.id)
  }

  /** The ownership query of `OrderResource`: the order with that id, if
      the caller owns it. */
  function OwnedOrder(orders: seq<Order>, caller: Customer, orderId: int): (r: Option<nat>)
    ensures r.Some? ==> r.value < |orders| && orders[r.value].id == orderId && orders[r.value].customerId == caller.id
    ensures r.None? <==> forall j :: 0 <= j < |orders| ==> !(orders[j].id == orderId && orders[j].customerId == caller.id)
  {
    FindFirst(orders, (o: Order) => o.id == orderId && o.customerId == caller.id)
  }

  /** `OrderResource.get`: another customer's order and a missing one are
      both 404. */
  function GetOrder(orders: seq<Order>, caller: Customer, orderId: int): (r: Reply<OrderDict>)
    ensures r.Error? <==> forall j :: 0 <= j < |orders| ==> !(orders[j].id == orderId && orders[j].customerId == caller.id)
    ensures r.Error? ==> r == Error(404, NotFound(orderId))
    ensures r.Reply? ==> r.code == 200 && r.body.id == orderId && r.body.customerId == caller.id
    ensures r.Reply? ==> exists j :: 0 <= j < |orders| && orders[j].id == orderId && orders[j].customerId == caller.id
                                     && r.body == ToDict(orders[j])
    ensures !r.Invalid?
  {
    match OwnedOrder(orders, caller, orderId)
    case None => Error(404, NotFound(orderId))
    case Some(i) => Reply(200, ToDict(orders[i]))
  }

  /** The ids of the caller's orders. */
  function OrderIds(orders: seq<Order>, caller: Customer): (ids: seq<int>)
    ensures forall id :: id in ids <==> exists j :: 0 <= j < |orders| && orders[j].customerId == caller.id && orders[j].id == id
  {
    if orders == [] then []
    else
      var rest := OrderIds(orders[1..], caller);
      assert forall j :: 0 <= j < |orders[1..]| ==> orders[1..][j] == orders[j + 1];
      assert forall id :: (exists j :: 0 < j < |orders| && orders[j].customerId == caller.id && orders[j].id == id)
                          ==> id in rest by {
        forall id | exists j :: 0 < j < |orders| && orders[j].customerId == caller.id && orders[j].id == id
          ensures id in rest
        {
          var j :| 0 < j < |orders| && orders[j].customerId == caller.id && orders[j].id == id;
          assert orders[1..][j - 1] == orders[j];
        }
      }
      (if orders[0].customerId == caller.id then [orders[0].id] else []) + rest
  }

  /** A trade involves the caller when either side is one of its orders. */
  predicate Involves(orders: seq<Order>, caller: Customer, t: Trade)
  {
    exists j :: 0 <= j < |orders| && orders[j].customerId == caller.id
                && (orders[j].id == t.orderId || orders[j].id == t.counterpartyOrderId)
  }

  /** `TradeListResource.get`: exactly the trades with one of the caller's
      orders on either side. */
  function CustomerTrades(orders: seq<Order>, trades: seq<Trade>, caller: Customer): (r: seq<Trade>)
    ensures forall t :: t in r <==> t in trades && Involves(orders, caller, t)
  {
    var ids := OrderIds(orders, caller);
    Filter(trades, (t: Trade) => t.orderId in ids || t.counterpartyOrderId in ids)
  }

  /** The body of a created order. */
  datatype Posted = Posted(order: OrderDict, trades: seq<Trade>)

  /** The request body after the handler overrides `customer_id`. */
  function WithCaller(req: OrderRequest, caller: Customer): OrderRequest
  {
    req.(customerId := Given(caller.id))
  }

  /** The order the handler builds from a validated body. */
  function OrderFrom(v: OrderCreate): (o: Order)
    requires ParseOrderType(v.orderType).Some?
    ensures o.status == Open && o.filledQuantity == 0.0
    ensures o.customerId == v.customerId && o.commodityId == v.commodityId
    ensures TypeValue(o.orderType) == v.orderType && o.price == v.price && o.quantity == v.quantity
  {
    NewOrder(v.customerId, v.commodityId, ParseOrderType(v.orderType).value, v.price, v.quantity)
  }

  /** Whatever `customer_id` the body carries, or none, validation sees the
      caller's id; the other fields decide. */
  lemma CallerIdForced(req: OrderRequest, caller: Customer)
    ensures var v := ValidateOrderCreate(WithCaller(req, caller));
      && (v.Success? <==> AcceptableOrder(req.(customerId := Given(0))))
      && (v.Success? ==> v.value.customerId == caller.id)
  {
  }

  /** The order a post stores and returns: it belongs to the caller, its
      fill is the sum of the trades it made, and it is still OPEN when it
      made none. */
  lemma PostedOrder(orders: seq<Order>, req: OrderRequest, caller: Customer, tradeId: int, createdAt: int, now: int)
    requires WellFormed(orders) && CreatedBefore(orders, createdAt)
    requires ValidateOrderCreate(WithCaller(req, caller)).Success?
    ensures var v := ValidateOrderCreate(WithCaller(req, caller)).value;
      var p := Place(orders, OrderFrom(v), tradeId, createdAt, now);
      var d := ToDict(p.book[|orders|]);
      && d.customerId == caller.id && d.commodityId == v.commodityId
      && d.filledQuantity == SumQty(p.trades)
      && (p.trades == [] ==> d.status == StatusValue(Open))
  {
    CallerIdForced(req, caller);
    var v := ValidateOrderCreate(WithCaller(req, caller)).value;
    PlaceStoresOrder(orders, OrderFrom(v), tradeId, createdAt, now);
  }

  /** `OrderListResource.post`: the body's `customer_id` is replaced by the
      caller's before validation; a valid body becomes a new OPEN order with
      nothing filled, which `add_order` stores and matches. The reply is 201
      with the stored order and the trades it made (`PostedOrder`). Without a valid key, or with an invalid body,
      nothing changes. */
  method PostOrder(book: OrderBook, customers: seq<Customer>, apiKey: Option<string>, req: OrderRequest)
    returns (r: Reply<Posted>)
    requires book.Valid()
    modifies book
    ensures book.Valid()
    ensures Authenticate(apiKey, customers).Failure? ==>
      r == Error(401, Authenticate(apiKey, customers).error) && unchanged(book)
    ensures Authenticate(apiKey, customers).Success? ==>
      var caller := Authenticate(apiKey, customers).value;
      var v := ValidateOrderCreate(WithCaller(req, caller));
      && (v.Failure? ==> r == Invalid(v.error) && unchanged(book))
      && (v.Success? ==>
            var p := Place(old(book.orders), OrderFrom(v.value), |old(book.trades)| + 1, old(book.clock), old(book.clock) + 1);
            && book.orders == p.book && book.trades == old(book.trades) + p.trades
            && r == Reply(201, Posted(ToDict(p.book[|old(book.orders)|]), p.trades)))
  {
    var auth := Authenticate(apiKey, customers);
    if auth.Failure? {
      return Error(401, auth.error);
    }
    var caller := auth.value;
    var v := ValidateOrderCreate(WithCaller(req, caller));
    if v.Failure? {
      return Invalid(v.error);
    }
    var order := OrderFrom(v.value);
    var placed, trades := book.AddOrder(order);
    r := Reply(201, Posted(ToDict(placed), trades));
  }

  /** `OrderResource.delete`: an order the caller does not own is 404 and
      nothing changes; otherwise `cancel_order` runs, and the reply is the
      order as it returns it (CANCELLED if it was OPEN or PARTIAL), or 400
      with the book's error message. */
  method DeleteOrder(book: OrderBook, customers: seq<Customer>, apiKey: Option<string>, orderId: int)
    returns (r: Reply<OrderDict>)
    requires book.Valid()
    modifies book
    ensures book.Valid()
    ensures Authenticate(apiKey, customers).Failure? ==>
      r == Error(401, Authenticate(apiKey, customers).error) && unchanged(book)
    ensures Authenticate(apiKey, customers).Success? ==>
      var caller := Authenticate(apiKey, customers).value;
      && (OwnedOrder(old(book.orders), caller, orderId).None? ==> r == Error(404, NotFound(orderId)) && unchanged(book))
      && (OwnedOrder(old(book.orders), caller, orderId).Some? ==>
            var c := Cancel(old(book.orders), orderId);
            && book.orders == c.book && book.trades == old(book.trades)
            && (c.result.Success? ==> r == Reply(200, ToDict(c.result.value)))
            && (c.result.Failure? ==> r == Error(400, c.result.error)))
  {
    var auth := Authenticate(apiKey, customers);
    if auth.Failure? {
      return Error(401, auth.error);
    }
    var caller := auth.value;
    if OwnedOrder(book.orders, caller, orderId).None? {
      return Error(404, NotFound(orderId));
    }
    var result := book.CancelOrder(orderId);
    match result
    case Success(order) => r := Reply(200, ToDict(order));
    case Failure(e) => r := Error(400, e);
  }

  /** The 400 branch of a delete is never taken: ids are unique, so an
      order the caller owns is the one `cancel_order` finds, and the cancel
      succeeds on it. */
  lemma OwnedCancelSucceeds(orders: seq<Order>, caller: Customer, orderId: int)
    requires WellFormed(orders) && OwnedOrder(orders, caller, orderId).Some?
    ensures var c := Cancel(orders, orderId);
      && c.result.Success?
      && c.result.value.id == orderId && c.result.value.customerId == caller.id
  {
    var i := OwnedOrder(orders, caller, orderId).value;
    var f := FindOrder(orders, orderId);
    assert f.Some? && orders[f.value].id == orders[i].id;
    assert f.value == i;
  }
}
