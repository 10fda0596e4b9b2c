# Commodity exchange order book — a Dafny model

This project models the core of a small commodity exchange:

- **The matching engine** (`database/order_book.py`).
  - `add_order` stores an incoming order.
  - `match_order` walks the resting orders of the other side in price-time priority and trades at each resting order's price.
  - `cancel_order` moves an OPEN or PARTIAL order to CANCELLED.
  - `get_order_book_snapshot` aggregates the unfilled quantity of the active orders into price levels: bids descending, asks ascending.
- **Validation of new orders and commodities** (`api/validators.py`).
- **The order enums and `to_dict`** (`models/order.py`).
- **The REST handlers' decisions** (`api/routes.py`): the API-key check, the login and registration guards, the forced `customer_id` of a new order, the ownership 404s and the trade filter.
- **The browser client's session state** (`ui/static/js/main.js`): the API key, the selected commodity, the catalog and the polling interval.

## Modules

- **`Common`**: `Option`, `Result`, and the decimal text of numbers.
- **`OrderModel`**: order type and status with their wire values, the order row, `to_dict`, the trade and commodity rows.
- **`Validators`**: the pydantic models `OrderCreate` and `CommodityCreate`. A JSON field is absent, null or given.
- **`Matching`**: the specification of `match_order`.
  - `Candidates` is the candidate query: a filter, then a sort by price and creation time.
  - `MatchFrom` is the walk over the candidates, a recursive reference definition.
  - Lemmas state what every trade and every order row looks like afterwards.
- **`Levels`**: the price levels of the snapshot.
  - `Depth` is the quantity resting at a price; `LevelPrices` is the set of prices with a resting order.
  - The aggregation loop (`Aggregate`) is proved to compute exactly these.
  - The sort (`SortLevels`) is proved to list each level once, strictly ordered.
- **`OrderBookEngine`**: the class `OrderBook`.
  - It holds the order table, the trade table and a clock.
  - Its methods are proved against the specification functions `Place` (for `add_order`) and `Cancel`.
  - Properties of those two functions are proved as lemmas.
- **`Scenarios`**: the two scenarios of `test_order_book.py`, worked through `Place`.
- **`Routes`**: the handlers as functions of the customer, order and trade tables. The order POST and DELETE handlers are methods that call into `OrderBook`.
- **`Client`**: the class `Session` over the client's module globals, the `localStorage` slot, the armed intervals and the requests issued.
  - Interval bookkeeping is also a value (`Timers`), so the polling properties can be stated as lemmas.

## Modelling conventions

- **The order table** is a sequence indexed by position. The order with id `i + 1` is at position `i`, since ids are auto-increment and rows are never deleted.
- **The customer table** is a sequence in the same way: the customer with id `i + 1` is at position `i`, so a registration creates id `|customers| + 1`.
- **Time.** `created_at` is an integer clock. `add_order` stamps the order with one reading and the trades with the next.
- **Numbers.** Prices and quantities are `real`.
- **Requests and replies.** A request is reduced to the header and JSON fields the handler reads. A reply is either a status with a body, an error status with its message, or the validation errors of a body.
- **Order statuses.** The status values are `open`, `partial`, `filled` and `cancelled` (`models/order.py` lines 13-17).
  - The client's cancel-button test compares with the literal `'partially_filled'` (`ui/static/js/main.js` line 492). It is modelled as written and reported under Findings.

## Model

| member | source | states |
|---|---|---|
| OrderModel.ParseOrderType | models/order.py:8-10 | only "buy" and "sell" decode, each to the type whose value it is; any other string is rejected |
| OrderModel.OrderTypeRoundTrip | api/routes.py:181 | decoding the wire value of an order type gives back the same type |
| OrderModel.ParseStatus | models/order.py:13-17 | only the four status values decode, each to the status whose value it is |
| OrderModel.StatusRoundTrip | models/order.py:13-17 | decoding a status value gives back the status, so the four values are distinct |
| OrderModel.NewOrder | models/order.py:27-32 | a new order has status OPEN and filled quantity 0, with the given customer, commodity, type, price and quantity |
| OrderModel.ToDict | models/order.py:45-57 | type and status are emitted as wire values that decode back to the order's; id, customer, commodity, price, quantity, fill and creation time are copied unchanged |
| Validators.ValidateOrderType | api/validators.py:24-28 | accepted exactly when the value is the wire value of an order type, and then returned unchanged; otherwise the error names the value and the allowed ones |
| Validators.ValidatePrice | api/validators.py:30-34 | accepted exactly when positive and returned unchanged; otherwise "Price must be greater than zero" |
| Validators.ValidateQuantity | api/validators.py:36-40 | accepted exactly when positive and returned unchanged; otherwise "Quantity must be greater than zero" |
| Validators.RequiredErrors | api/validators.py:17-22 | a required field has no error exactly when it is given |
| Validators.CheckedErrors | api/validators.py:24-40 | a validated field has no error exactly when it is given and its validator accepts it; the validator only runs on a value that is present |
| Validators.ValidateOrderCreate | api/validators.py:17-40 | a body validates exactly when every field is present and acceptable, and then its values are kept; otherwise at least one error, each naming a declared field |
| Validators.ValidateCommodityCreate | api/validators.py:11-14 | valid exactly when name and symbol are given; the description is optional and an absent or null one becomes None |
| Matching.MatchableIndices | database/order_book.py:44-64 | the positions whose orders pass the candidate filter (same commodity, opposite side, OPEN or PARTIAL, price the incoming order accepts), ascending |
| Matching.InsertKeepsOrder | database/order_book.py:53 | inserting a position into a list in walk order keeps it in walk order, because no two orders tie on price and creation time |
| Matching.SortByPriority | database/order_book.py:53 | the sort of the candidate query keeps exactly the positions it is given, each once (same length, same members); `SortOrders` proves the result is in walk order |
| Matching.SortOrders | database/order_book.py:53 | sorting a set of positions yields walk order: price ascending for a buy and descending for a sell, ties by earlier creation |
| Matching.Candidates | database/order_book.py:44-67 | the candidate list holds exactly the positions of the orders passing the filter, never the incoming order |
| Matching.CandidatesInWalkOrder | database/order_book.py:53-65 | the candidate list is in strict price-time priority for the incoming order's side, so no order appears twice |
| Matching.Fill | database/order_book.py:94-102 | a fill adds the quantity to both orders' filled quantity; the resting order becomes FILLED when fully filled, else PARTIAL; no other row and no order's terms change |
| Matching.MatchFrom | database/order_book.py:70-109 | the reference walk over the candidates: the table keeps its length, at most one trade is made per candidate, and nothing trades when nothing remains; the lemmas below state each trade and each row |
| Matching.MatchOne | database/order_book.py:72-109 | the walk over a single candidate with something left makes exactly one trade, at that candidate's price for the smaller of the two remainders |
| Matching.MatchFromFrame | database/order_book.py:70-109 | the walk changes only fill state; rows off the candidate list are untouched; trades are numbered consecutively with positive quantity; the incoming order gains exactly their sum, which never exceeds what it had to match; nothing trades when nothing remains |
| Matching.MatchFromTrades | database/order_book.py:77-92 | every trade meets a candidate at that candidate's price, for min(incoming remaining, resting unfilled) |
| Matching.MatchFromResting | database/order_book.py:96-102 | each resting order gains exactly the quantity it traded; a traded one is FILLED once full, else PARTIAL; an untraded one is unchanged; only candidates trade; no fill passes the order's quantity |
| Matching.MatchFromPriority | database/order_book.py:53-72 | trades follow the walk order of the candidates: a trade's resting order is ahead of every later trade's |
| Matching.MatchFromFillsAhead | database/order_book.py:72-85 | the walk fills each candidate before it moves on: every candidate ahead of the resting order of any trade ends completely filled |
| Matching.MatchFromExhausts | database/order_book.py:72-83 | the walk stops short of the incoming quantity only when every candidate is completely filled |
| Levels.LevelPrices | database/order_book.py:133-173 | a price is a level exactly when an OPEN or PARTIAL order of that commodity and side rests at it |
| Levels.AggregateStep | database/order_book.py:158-164 | one aggregation step extends the dictionary's description of the table by one row: a resting order's unfilled quantity is added to its price, creating the entry if missing |
| Levels.Aggregate | database/order_book.py:157-173 | the dictionary has an entry for exactly the prices with a resting order, each holding the total unfilled quantity at that price |
| Levels.InsertLevelOrdered | database/order_book.py:176-179 | inserting a new price into a strictly sorted level list keeps it strictly sorted |
| Levels.SortLevels | database/order_book.py:176-179 | the list holds exactly the dictionary's entries, strictly descending for bids and strictly ascending for asks |
| Levels.DepthUpdate | database/order_book.py:157-173 | changing one row changes the depth at a price by the difference of that row's old and new contributions |
| Levels.DepthPositive | database/order_book.py:157-173 | when every OPEN or PARTIAL order of that side is strictly under-filled, every listed level has a positive quantity and every other price has none |
| Levels.DepthNonNegative | database/order_book.py:160 | when no OPEN or PARTIAL order of that side is over-filled, no depth is negative |
| OrderBookEngine.MatchKeepsTables | database/order_book.py:104-112 | matching appends trades numbered on from the last and keeps every order's id and creation time |
| OrderBookEngine.Walk | database/order_book.py:70-109 | the loop over the candidates computes the table and the trades of the reference walk `MatchFrom` |
| OrderBookEngine.Place | database/order_book.py:12-32 | the specification of `add_order`: store the order, walk its candidates with `MatchFrom`, settle its status; the table grows by exactly one row; its properties are the `Place` lemmas below |
| OrderBookEngine.Settle | database/order_book.py:23-27 | with no trades the table is unchanged; otherwise only the placed order changes, and only its status, to FILLED when fully filled and PARTIAL before |
| OrderBookEngine.PlaceSetup | database/order_book.py:15-17 | appending the new row keeps the table well formed, and its candidates are in strict walk order |
| OrderBookEngine.PlaceStoresOrder | database/order_book.py:12-32 | the order is always stored under the next id with its terms as given; its fill grows by exactly the traded total, which never exceeds its quantity; with no trades its status is kept, otherwise it is FILLED when full and PARTIAL before |
| OrderBookEngine.PlaceTradesNumbered | database/order_book.py:87-92 | the trades are numbered consecutively, name the incoming order, carry the execution time and a positive quantity |
| OrderBookEngine.PlaceTrades | database/order_book.py:44-92 | every trade is with a resting order passing the candidate filter, at that order's price, for min(incoming remaining, resting unfilled) |
| OrderBookEngine.PlaceRespectsLimit | database/order_book.py:51-63 | a buy never pays more than its limit and a sell never receives less |
| OrderBookEngine.PlaceResting | database/order_book.py:94-102 | each resting order gains exactly what it traded; one that traded passed the filter and follows its new fill; one that did not is unchanged; no fill passes the order's quantity |
| OrderBookEngine.PlacePriority | database/order_book.py:43-85 | trades are made in price-time priority for the incoming order's side, and every order the incoming one could trade with that is ahead of a traded one has been filled completely |
| OrderBookEngine.PlaceFillsAhead | database/order_book.py:43-85 | every order the incoming one could trade with that is ahead of a traded one ends completely filled |
| OrderBookEngine.PlaceLeavesNoCross | database/order_book.py:69-83 | if the incoming order is not completely matched, every order it could have traded with is completely filled |
| OrderBookEngine.PlaceKeepsActiveUnfilled | database/order_book.py:23-27 | `add_order` keeps every OPEN or PARTIAL order strictly under-filled, given an incoming order that is (a new order is OPEN with 0 filled and a validated positive quantity) |
| OrderBookEngine.FindOrder | database/order_book.py:118 | the first row with the id, or none when no row has it |
| OrderBookEngine.Cancel | database/order_book.py:116-128 | a missing id is an error with the not-found message and changes nothing; an OPEN or PARTIAL order becomes CANCELLED; a FILLED or CANCELLED one is returned unchanged; only that row's status can change |
| OrderBookEngine.CancelIdempotent | database/order_book.py:116-128 | cancelling twice gives the same table and result as cancelling once |
| OrderBookEngine.CancelKeepsTables | database/order_book.py:116-128 | cancelling keeps ids, creation times and the trade table intact |
| OrderBookEngine.CancelLowersDepth | database/order_book.py:123-124 | a cancel takes the cancelled order's unfilled quantity off its own price level and leaves every other level as it was |
| OrderBookEngine.CancelKeepsActiveUnfilled | database/order_book.py:123-124 | `cancel_order` keeps every OPEN or PARTIAL order strictly under-filled |
| OrderBookEngine.SnapshotLevelsPositive | database/order_book.py:157-173 | on a table where every OPEN or PARTIAL order is strictly under-filled, every level the snapshot lists has a positive quantity |
| OrderBookEngine.OrderBook.constructor | database/order_book.py:9-10 | a new book has empty order and trade tables and is well formed |
| OrderBookEngine.OrderBook.MatchOrder | database/order_book.py:34-114 | the method's new tables are those of the reference walk over the candidates; trade ids continue the trade table |
| OrderBookEngine.OrderBook.Insert | database/order_book.py:15-17 | the order is appended under the next id, stamped with the current time |
| OrderBookEngine.OrderBook.SettleOrder | database/order_book.py:23-27 | the stored order's status is settled as `Settle` states |
| OrderBookEngine.OrderBook.AddOrder | database/order_book.py:12-32 | the new tables and the returned order and trades are those of `Place`, and the tables stay well formed |
| OrderBookEngine.OrderBook.CancelOrder | database/order_book.py:116-128 | the new table and the result are those of `Cancel`; the trade table is untouched |
| OrderBookEngine.OrderBook.GetSnapshot | database/order_book.py:130-185 | bids list exactly the buy levels of the commodity, strictly descending, asks exactly the sell levels, strictly ascending, each with the unfilled quantity resting at that price |
| Scenarios.GoldScenario | test_order_book.py:93-125 | a buy of 10 at 1900 rests; a sell of 5 at 1890 trades 5 at 1900, leaving the buy PARTIAL with 5 filled and the sell FILLED |
| Scenarios.SilverFirstSell | test_order_book.py:170-200 | a buy of 20 at 25 rests; a sell of 10 at 24.5 trades 10 at 25 |
| Scenarios.SilverSecondSell | test_order_book.py:208-222 | a sell of 15 at 24.8 then trades the remaining 10 at 25, leaving itself PARTIAL |
| Scenarios.SilverLevels | test_order_book.py:208-230 | afterwards there are no silver bids and one ask level of 5 at 24.8 |
| Scenarios.SilverScenario | test_order_book.py:170-230 | the whole silver scenario: two trades of 10 at 25, the buy FILLED, one 5-lot ask at 24.8; ids count from an empty book, where the script's continue after the gold scenario's |
| Routes.FindFirst | api/routes.py:26 | the first element satisfying the filter, or none when there is none |
| Routes.Filter | api/routes.py:166 | exactly the elements satisfying the filter |
| Routes.Authenticate | api/routes.py:17-40 | a missing key gives "API Key required"; a key no customer holds gives "Invalid API Key"; otherwise the caller is the first customer holding that key |
| Routes.Authenticated | api/routes.py:17-40 | a failed authentication replies 401 with its message without running the handler; otherwise the handler's reply for the caller |
| Routes.AuthenticatedGuards | api/routes.py:22-30 | without a valid key every handler gives the same 401 reply |
| Routes.Login | api/routes.py:45-66 | a missing email or password gives 400; otherwise the reply is 200 exactly when the first customer with that email accepts the password, and then carries that customer and its key; an unknown email or a wrong password gives 401 "Invalid email or password" |
| Routes.LoginHidesCause | api/routes.py:56-59 | an unknown email and a wrong password give the same reply |
| Routes.Register | api/routes.py:71-104 | 400 "Password required" exactly when the body has no `password` key, and no customer is created; a `null` password goes on to the commit like a given one; a failed commit gives 400 "Registration failed: " with the message and no customer; otherwise 201 with a new customer under the next id holding the fresh key |
| Routes.RegisteredKeyAuthenticates | api/routes.py:78-97 | after a successful registration with a key no customer held, that key authenticates as the new customer |
| Routes.CustomerOrders | api/routes.py:164-167 | exactly the caller's orders |
| Routes.OwnedOrder | api/routes.py:205-208 | the order with that id if the caller owns it, none exactly when the caller owns no order with that id |
| Routes.GetOrder | api/routes.py:202-213 | 404 exactly when the caller owns no order with the id; otherwise 200 with the `to_dict` of an order of the caller's with that id |
| Routes.OrderIds | api/routes.py:242-243 | exactly the ids of the caller's orders |
| Routes.CustomerTrades | api/routes.py:237-251 | exactly the trades with one of the caller's orders on either side |
| Routes.OrderFrom | api/routes.py:178-186 | the order built from a valid body is OPEN with nothing filled, with the body's customer, commodity, type, price and quantity |
| Routes.CallerIdForced | api/routes.py:173-175 | whatever `customer_id` the body carries, validation succeeds exactly when the other fields are acceptable, and the validated customer is the caller |
| Routes.PostedOrder | api/routes.py:170-198 | the posted order belongs to the caller, has the requested commodity, a fill equal to the total of its trades, and is still OPEN when it made none |
| Routes.PostOrder | api/routes.py:169-198 | no valid key gives 401 and no change; an invalid body gives its validation errors and no change; otherwise the book becomes that of `Place` and the reply is 201 with the stored order and its trades |
| Routes.DeleteOrder | api/routes.py:215-233 | no valid key gives 401; an order the caller does not own gives 404 and no change; otherwise the book becomes that of `Cancel`, replying 200 with the order or 400 with the error |
| Routes.OwnedCancelSucceeds | api/routes.py:223-233 | an order the caller owns is the one `cancel_order` finds, so the 400 branch is never taken |
| Client.ClearTimer | ui/static/js/main.js:187 | clearing a handle disarms it and keeps the global's value; clearing null does nothing |
| Client.Arm | ui/static/js/main.js:306 | a fresh handle is armed and held by the global |
| Client.Rearm | ui/static/js/main.js:305-306 | the held interval is disarmed, a fresh one is armed and held, and every other armed interval stays armed |
| Client.RearmLeavesOne | ui/static/js/main.js:305-306 | clearing the held interval before arming a new one leaves exactly the new one armed |
| Client.ClearLeavesNone | ui/static/js/main.js:309 | clearing the held interval leaves none armed |
| Client.SetupBegin | ui/static/js/main.js:370-372 | the held interval is disarmed; the global keeps its value |
| Client.SetupEndAsWritten | ui/static/js/main.js:380 | a fresh interval is armed and held, and every interval armed before stays armed, the held one included |
| Client.SetupEnd | ui/static/js/main.js:379-380 | the corrected second half: the held interval is disarmed before a fresh one is armed and held |
| Client.SetupUninterrupted | ui/static/js/main.js:370-384 | run without interruption, `setupOrderBookUpdates` leaves exactly one interval armed |
| Client.SetupInterruptedLeaks | ui/static/js/main.js:370-384 | a selection change while its first fetch is awaited leaves two intervals armed, one no longer held |
| Client.SetupEndLeavesOne | ui/static/js/main.js:379-380 | with the held interval cleared before arming, exactly one interval is armed whatever ran during the await |
| Client.LeakOutlivesHandlers | ui/static/js/main.js:182-188 | after the leak, neither `handleLogout` nor a later `handleCommodityChange` disarms the leaked interval |
| Client.Catalog | ui/static/js/main.js:235-247 | the catalog has an entry for exactly the ids in the list |
| Client.CatalogLookup | ui/static/js/main.js:241-247 | each commodity is found under its id unless a later one has the same id |
| Client.SymbolFor | ui/static/js/main.js:481 | the catalog's symbol for the commodity, or "Unknown" when the catalog does not have it |
| Client.SymbolShown | ui/static/js/main.js:241-242 | after the catalog is loaded from a list, an order's symbol is that of the last listed commodity with its commodity id, or "Unknown" when none is listed |
| Client.CancelOfferedAsWritten | ui/static/js/main.js:492 | the test as written offers Cancel for status "open" and never for a status that decodes to PARTIAL |
| Client.CancelOffered | models/order.py:13-17 | the corrected test offers Cancel exactly for "open" and "partial" |
| Client.PartialNotOffered | ui/static/js/main.js:492 | the test as written offers Cancel for exactly the OPEN orders; a PARTIAL order gets no button |
| Client.CancelOfferedMatchesServer | models/order.py:13-17 | the corrected test offers Cancel exactly for the orders whose status the server would cancel |
| Client.ParseNat | ui/static/js/main.js:411 | `parseInt` gives a number exactly for a non-empty string of digits |
| Client.ParseNatRoundTrip | ui/static/js/main.js:244 | `parseInt` reads back the decimal text of an id, as the select option holds it |
| Client.Session.constructor | ui/static/js/main.js:2-5 | the key is read back from storage; no selection, an empty catalog and no interval |
| Client.Session.ClearInterval | ui/static/js/main.js:187 | `clearInterval`: the timers become `ClearTimer` of the old ones; nothing else changes |
| Client.Session.SetInterval | ui/static/js/main.js:306 | `setInterval` into the global: the timers become `Arm` of the old ones; nothing else changes |
| Client.Session.FetchOrderBook | ui/static/js/main.js:316-321 | with no selection nothing is requested; otherwise the book of the current selection is requested |
| Client.Session.ShowOrderBook | ui/static/js/main.js:336-364 | both tables are replaced by the reply's levels |
| Client.Session.Tick | ui/static/js/main.js:380-384 | an armed interval firing requests the book of the selection current at that moment, or nothing without one |
| Client.Session.HandleCommodityChange | ui/static/js/main.js:296-313 | a non-empty selection is fetched at once, the held interval is cleared and a new one armed and held; the empty selection clears the held interval and empties both tables; from a state with only the held interval armed, exactly the new one (or none) is armed afterwards |
| Client.Session.SetupOrderBookUpdatesBegin | ui/static/js/main.js:370-377 | the held interval is cleared and the current selection, if any, is fetched; from a state with only the held interval armed, none is armed |
| Client.Session.SetupOrderBookUpdatesEnd | ui/static/js/main.js:379-384 | one new interval is armed and it is the only one armed |
| Client.Session.SetupOrderBookUpdatesEndAsWritten | ui/static/js/main.js:379-384 | as written: a new interval is armed and held without clearing, so every interval armed before stays armed |
| Client.Session.Logout | ui/static/js/main.js:182-188 | the key is forgotten in memory and in storage, the sign-in form is shown, and the held interval is cleared; from a state with only the held interval armed, none stays armed |
| Client.Session.RejectStoredKey | ui/static/js/main.js:210-216 | a refused stored key is forgotten in memory and in storage and the sign-in form is shown |
| Client.Session.RefreshCatalog | ui/static/js/main.js:233-254 | the catalog is rebuilt from the list alone; a non-empty list selects its first entry, which is fetched and polled by a new interval, the held one cleared; an empty list leaves selection and polling alone |
| Client.Session.CreateOrder | ui/static/js/main.js:392-416 | with no selection an error is shown and no request is sent; otherwise the order is posted for the selected commodity |
| Client.Session.Register | ui/static/js/main.js:145-158 | mismatched passwords show an error and send no request; otherwise the registration is posted |

## Left out

- **Storage.** The database session (`add`, `commit`, `refresh`, `rollback`) is not modelled. A method's new state is the committed state.
- **Concurrency.** Concurrent requests and the thread-scoped session are not modelled.
- **Floating point.** Prices and quantities are reals. Float rounding, and the float summation order of the aggregation, are not modelled.
- **The query's pre-sort.** The snapshot queries' `order_by` only fixes the summation order, so it is not modelled. The result is identified with its exact sums.
- **`updated_at`** is left out of the order row and of `to_dict`.
- **`created_at`** is a strictly increasing integer clock. Two orders created in the same clock tick are not modelled: the walk order of such a tie is whatever the database returns.
- **`to_dict`** renders dates as ISO text, rendered here as the clock reading.
- **Trades.** `Trade.to_dict` is not modelled. A trade is returned as its record.
- **models/customer.py is not part of this model.**
  - Password checking, `Customer.to_dict` and the customer record beyond id, name, email and key are parameters or left out.
  - The fresh API key of a registration (a random UUID) and the outcome of `set_password` and the commit are parameters; for a `null` password that outcome is whatever `set_password(None)` does, which is not modelled.
- **Validation errors.** A validation error of a request body is returned as `Invalid` with its field errors. The framework's HTTP status and message formatting for it are not modelled.
- **JSON coercion.** Type coercion between JSON types by the validators is not modelled. A field is absent, null or of its declared type.
- **Unused models.** `CustomerCreate` and `AuthHeader` (api/validators.py:6-8, 43-44) are not used by any handler and are not modelled.
- **Pass-through handlers.**
  - The commodity handlers (api/routes.py:113-148) are not modelled beyond `ValidateCommodityCreate`. They list, insert and look up commodity rows.
  - The order-book GET (api/routes.py:152-158) and the customer GET (api/routes.py:106-109) only pass the snapshot or the record through.
- **Client sign-in.** `Client.Session.signedIn` records whether the main content is shown. The login and registration success paths that call `showMainContent` are left out, so no modelled method sets it; it only ever records the sign-in form being shown.
- **Client I/O.** DOM rendering, toasts, the modal, `fetch` and JSON, number and date formatting are left out, along with the login and registration success paths that store a new key.
- **Requests and replies.** A request the client sends is recorded in `requests`; the reply is a parameter of the handler that consumes it.
  - `RefreshCatalog` models only a successful reply.
  - Stale order-book replies are not discarded by the client and are not modelled.
- **Client.ParseNat** models `parseInt` on strings of decimal digits only. A leading sign, whitespace and trailing non-digits are not modelled: the select's values are always the decimal text of a commodity id.
- **Client.Session.SetupOrderBookUpdatesEnd** models the corrected second half of `setupOrderBookUpdates`, which clears the held interval before arming. The code as written is `Client.SetupEndAsWritten` and `Client.Session.SetupOrderBookUpdatesEndAsWritten` (see Findings).
- Client.Session.Logout promises that no interval stays armed only from a state where the held interval is the only one armed (`Valid`). The corrected setup keeps that state; after the leak of Findings row 2 the leaked interval stays armed and keeps polling (`Client.LeakOutlivesHandlers`).
- Client.Session.HandleCommodityChange promises exactly one armed interval only from a state satisfying `Valid`, for the same reason: it clears only the held interval, so a leaked one survives it.
- **Under-filled orders.** That every OPEN or PARTIAL order is strictly under-filled is proved to be kept by `Place` and `Cancel` (for an incoming order that is), and from it that snapshot levels are positive. It is not made part of `OrderBook.Valid`.

## Findings

| source | as written | input that shows it | evidently intended | confidence | as-written member | corrected member |
|---|---|---|---|---|---|---|
| ui/static/js/main.js:492 | Cancel is offered when the status is `'open'` or `'partially_filled'` | an order the server reports with status `"partial"` (models/order.py:15): it is still cancellable, but no Cancel button is shown | offer Cancel for every status `cancel_order` would cancel: `"open"` and `"partial"` | high, not executed | Client.PartialNotOffered | Client.CancelOfferedMatchesServer |
| ui/static/js/main.js:370-384 | the held interval is cleared before the `await fetchOrderBook()`, and the new interval is armed after it without clearing again | interval 1 held; setup begins and clears it; during the await the user selects a commodity, which arms interval 2; setup then arms interval 3 over it, and interval 2 polls forever | at most one interval polling, as handleCommodityChange keeps it | medium, not executed | Client.SetupInterruptedLeaks | Client.SetupEndLeavesOne |
