/** The order book (database/order_book.py): the order table, the trade
    table, and the operations that change them in place.

    The database session becomes the fields of the class `OrderBook`:
    `orders` and `trades` are the two tables (the row with id `i + 1` at
    position `i`), and `clock` is the reading `datetime.utcnow` would give
    next. Each operation is specified by a function of the old tables
    (`Place`, `Cancel`, and `Depth` with `LevelPrices` for the snapshot), and the properties the engine promises are
    lemmas about those functions. */
module OrderBookEngine {
  import opened Common
  import opened OrderModel
  import opened Matching
  import opened Levels

  /** Auto-increment ids in both tables, and every stored order stamped
      before the clock reading `clock`. */
  predicate Tables(orders: seq<Order>, trades: seq<Trade>, clock: int)
  {
    && WellFormed(orders)
    && (forall i :: 0 <= i < |trades| ==> trades[i].id == i + 1)
    && (forall i :: 0 <= i < |orders| ==> orders[i].createdAt < clock)
  }

  /** Matching keeps both tables well formed: it appends trades numbered on
      from the last one and changes no order's id or creation time. */
  lemma MatchKeepsTables(book: seq<Order>, trades: seq<Trade>, pos: nat, cands: seq<nat>, remaining: real, now: int, clock: int)
    requires Tables(book, trades, now) && now <= clock
    requires pos < |book| && InRange(book, cands) && pos !in cands
    ensures Tables(BookAfter(book, pos, cands, remaining, |trades| + 1, now),
                   trades + TradesAfter(book, pos, cands, remaining, |trades| + 1, now), clock)
  {
    var b, ts := BookAfter(book, pos, cands, remaining, |trades| + 1, now), TradesAfter(book, pos, cands, remaining, |trades| + 1, now);
    MatchFromFrame(book, pos, cands, remaining, |trades| + 1, now);
    forall j | 0 <= j < |b| ensures b[j].id == j + 1 && b[j].createdAt < clock {
      assert SameTerms(book[j], b[j]);
    }
    forall j | |trades| <= j < |trades + ts| ensures (trades + ts)[j].id == j + 1 {
      assert (trades + ts)[j] == ts[j - |trades|];
    }
  }

  /** The loop of `match_order` over the candidate list `cands`, on the
      session's copy of the order table. */
  method Walk(book0: seq<Order>, pos: nat, cands: seq<nat>, quantity: real, tradeId0: int, now: int)
    returns (book: seq<Order>, newTrades: seq<Trade>)
    requires pos < |book0| && InRange(book0, cands) && pos !in cands
    ensures book == BookAfter(book0, pos, cands, quantity, tradeId0, now)
    ensures newTrades == TradesAfter(book0, pos, cands, quantity, tradeId0, now)
  {
    book := book0;
    var remaining := quantity;
    var nextId := tradeId0;
    newTrades := [];
    var i := 0;
    while i < |cands|
      invariant 0 <= i <= |cands|
      invariant |book| == |book0| && InRange(book, cands[i..]) && pos !in cands[i..]
      invariant nextId == tradeId0 + |newTrades|
      invariant BookAfter(book, pos, cands[i..], remaining, nextId, now) == BookAfter(book0, pos, cands, quantity, tradeId0, now)
      invariant newTrades + TradesAfter(book, pos, cands[i..], remaining, nextId, now)
                == TradesAfter(book0, pos, cands, quantity, tradeId0, now)
    {
      if remaining <= 0.0 {
        break;
      }
      var k := cands[i];
      assert cands[i..][0] == k && cands[i..][1..] == cands[i + 1..];
      MatchFromStep(book, pos, cands[i..], remaining, nextId, now);
      var qty := Min(remaining, book[k].quantity - book[k].filledQuantity);
      if qty > 0.0 {
        ghost var before := book;
        ghost var rest := TradesAfter(book, pos, cands[i..], remaining, nextId, now);
        var trade := Trade(nextId, book[pos].id, book[k].id, book[k].price, qty, now);
        book := book[pos := book[pos].(filledQuantity := book[pos].filledQuantity + qty)];
        var matched := book[k].(filledQuantity := book[k].filledQuantity + qty);
        book := book[k := matched.(status := if matched.filledQuantity >= matched.quantity then Filled else Partial)];
        newTrades := newTrades + [trade];
        nextId := nextId + 1;
        remaining := remaining - qty;
        assert book == Fill(before, pos, k, qty);
        assert rest == [trade] + TradesAfter(book, pos, cands[i + 1..], remaining, nextId, now);
        assert newTrades + TradesAfter(book, pos, cands[i + 1..], remaining, nextId, now)
               == newTrades[..|newTrades| - 1] + rest;
      }
      i := i + 1;
    }
    MatchFromDone(book, pos, cands[i..], remaining, nextId, now);
    assert newTrades + [] == newTrades;
  }

  /** The row `add_order` inserts for `o`: the next auto-increment id and
      the current time; every other column as given. */
  function Stored(book: seq<Order>, o: Order, createdAt: int): (st: Order)
    ensures st.id == |book| + 1 && st.createdAt == createdAt
    ensures st == o.(id := st.id, createdAt := st.createdAt)
  {
    o.(id := |book| + 1, createdAt := createdAt)
  }

  /** The tables after `add_order`: the new order table and the trades made. */
  datatype Placement = Placement(book: seq<Order>, trades: seq<Trade>)

  /** Every stored order was created before `t`. */
  predicate CreatedBefore(book: seq<Order>, t: int)
  {
    forall j :: 0 <= j < |book| ==> book[j].createdAt < t
  }

  /** Specification of `add_order(o)`: store `o`, match it against the book
      (trade ids from `tradeId`, execution time `now`), then settle its status
      if it traded. */
  function Place(book: seq<Order>, o: Order, tradeId: int, createdAt: int, now: int): (p: Placement)
    ensures |p.book| == |book| + 1
  {
    var pos := |book|;
    var book1 := book + [Stored(book, o, createdAt)];
    var cands := Candidates(book1, pos);
    var matched := BookAfter(book1, pos, cands, o.quantity, tradeId, now);
    var ts := TradesAfter(book1, pos, cands, o.quantity, tradeId, now);
    Placement(Settle(matched, pos, ts), ts)
  }

  /** The last step of `add_order`: an order that traded is FILLED once
      fully filled and PARTIAL before; one that did not keeps its status. */
  function Settle(book: seq<Order>, pos: nat, ts: seq<Trade>): (r: seq<Order>)
    requires pos < |book|
    ensures |r| == |book|
    ensures ts == [] ==> r == book
    ensures forall i :: 0 <= i < |book| && i != pos ==> r[i] == book[i]
    ensures ts != [] ==> r[pos] == book[pos].(status := if book[pos].filledQuantity >= book[pos].quantity then Filled else Partial)
  {
    if ts == [] then book
    else
      var placed := book[pos];
      book[pos := placed.(status := if placed.filledQuantity >= placed.quantity then Filled else Partial)]
  }

  /** `Place` in terms of the walk's result. */
  lemma PlaceFromWalk(book: seq<Order>, o: Order, tradeId: int, createdAt: int, now: int, matched: seq<Order>, ts: seq<Trade>)
    requires var book1 := book + [Stored(book, o, createdAt)];
      && matched == BookAfter(book1, |book|, Candidates(book1, |book|), book1[|book|].quantity, tradeId, now)
      && ts == TradesAfter(book1, |book|, Candidates(book1, |book|), book1[|book|].quantity, tradeId, now)
    ensures |matched| == |book| + 1
    ensures Place(book, o, tradeId, createdAt, now) == Placement(Settle(matched, |book|, ts), ts)
  {
    var book1 := book + [Stored(book, o, createdAt)];
    MatchFromFrame(book1, |book|, Candidates(book1, |book|), book1[|book|].quantity, tradeId, now);
  }

  /** Appending the next order, stamped now, keeps the tables well formed. */
  lemma InsertKeepsTables(book: seq<Order>, trades: seq<Trade>, clock: int, o: Order)
    requires Tables(book, trades, clock)
    ensures Tables(book + [o.(id := |book| + 1, createdAt := clock)], trades, clock + 1)
  {
  }

  /** Setting one order's status keeps the tables well formed. */
  lemma SettleKeepsTables(book: seq<Order>, trades: seq<Trade>, clock: int, pos: nat, status: OrderStatus)
    requires Tables(book, trades, clock) && pos < |book|
    ensures Tables(book[pos := book[pos].(status := status)], trades, clock)
  {
    var b := book[pos := book[pos].(status := status)];
    forall j | 0 <= j < |b| ensures b[j].id == book[j].id && b[j].createdAt == book[j].createdAt {
    }
  }

  /** The book with the new row appended is well formed, and its candidate
      list is in strict walk order. */
  lemma PlaceSetup(book: seq<Order>, o: Order, createdAt: int)
    requires WellFormed(book) && CreatedBefore(book, createdAt)
    ensures var book1 := book + [Stored(book, o, createdAt)];
      && WellFormed(book1)
      && SortedBy(book1, o.orderType, Candidates(book1, |book|))
      && Distinct(Candidates(book1, |book|))
  {
    var book1 := book + [Stored(book, o, createdAt)];
    assert WellFormed(book1);
    CandidatesInWalkOrder(book1, |book|);
  }

  /** `add_order` always stores the order under the next id with its terms
      as given. Its fill grows by exactly the traded quantity, which never
      exceeds its quantity; with no trades its status is kept, otherwise it
      is FILLED when fully filled and PARTIAL before. */
  lemma PlaceStoresOrder(book: seq<Order>, o: Order, tradeId: int, createdAt: int, now: int)
    requires WellFormed(book) && CreatedBefore(book, createdAt)
    ensures var p := Place(book, o, tradeId, createdAt, now);
      var placed := p.book[|book|];
      && WellFormed(p.book)
      && placed.id == |book| + 1 && placed.createdAt == createdAt
      && SameTerms(placed, o.(id := |book| + 1, createdAt := createdAt))
      && placed.filledQuantity == o.filledQuantity + SumQty(p.trades)
      && (p.trades == [] ==> placed.status == o.status)
      && (p.trades != [] ==> placed.status == (if placed.filledQuantity >= placed.quantity then Filled else Partial))
      && (o.quantity <= 0.0 ==> p.trades == [])
      && (o.quantity > 0.0 ==> SumQty(p.trades) <= o.quantity)
  {
    var pos := |book|;
    var book1 := book + [Stored(book, o, createdAt)];
    var cands := Candidates(book1, pos);
    PlaceSetup(book, o, createdAt);
    MatchFromFrame(book1, pos, cands, o.quantity, tradeId, now);
    var p := Place(book, o, tradeId, createdAt, now);
    var b := BookAfter(book1, pos, cands, o.quantity, tradeId, now);
    forall j | 0 <= j < |p.book| ensures p.book[j].id == j + 1 && SameTerms(book1[j], p.book[j]) {
      assert SameTerms(book1[j], b[j]);
    }
  }

  /** The trades of `add_order(o)` are numbered consecutively from
      `tradeId`, name the stored `o` as the incoming order, carry the
      execution time and a positive quantity. */
  lemma PlaceTradesNumbered(book: seq<Order>, o: Order, tradeId: int, createdAt: int, now: int)
    requires WellFormed(book) && CreatedBefore(book, createdAt)
    ensures var ts := Place(book, o, tradeId, createdAt, now).trades;
      forall i :: 0 <= i < |ts| ==>
        ts[i].id == tradeId + i && ts[i].orderId == |book| + 1 && ts[i].executedAt == now && ts[i].quantity > 0.0
  {
    var pos := |book|;
    var book1 := book + [Stored(book, o, createdAt)];
    MatchFromFrame(book1, pos, Candidates(book1, pos), o.quantity, tradeId, now);
  }

  /** Every trade of `add_order(o)` is with a resting order that passes the
      candidate filter (same commodity, opposite side, OPEN or PARTIAL, and a
      price `o` accepts). It executes at the resting order's price, for the
      smaller of what `o` still had to match and what the resting order had
      left. */
  lemma PlaceTrades(book: seq<Order>, o: Order, tradeId: int, createdAt: int, now: int)
    requires WellFormed(book) && CreatedBefore(book, createdAt)
    ensures var ts := Place(book, o, tradeId, createdAt, now).trades;
      forall i :: 0 <= i < |ts| ==>
        && FromResting(book, o.quantity, ts, i)
        && Matchable(Stored(book, o, createdAt), book[ts[i].counterpartyOrderId - 1])
  {
    var pos := |book|;
    var book1 := book + [Stored(book, o, createdAt)];
    var cands := Candidates(book1, pos);
    PlaceSetup(book, o, createdAt);
    MatchFromTrades(book1, pos, cands, o.quantity, tradeId, now);
    var ts := TradesAfter(book1, pos, cands, o.quantity, tradeId, now);
    assert ts == Place(book, o, tradeId, createdAt, now).trades;
    forall i | 0 <= i < |ts|
      ensures FromResting(book, o.quantity, ts, i)
      ensures Matchable(Stored(book, o, createdAt), book[ts[i].counterpartyOrderId - 1])
    {
      assert TradeMeetsCandidate(book1, cands, o.quantity, ts, i);
      var k := ts[i].counterpartyOrderId - 1;
      assert k != pos && book1[k] == book[k] && book1[pos] == Stored(book, o, createdAt);
      FromRestingPrefix(book, [Stored(book, o, createdAt)], o.quantity, ts, i);
    }
  }

  /** A trade of `add_order(o)` never executes at a worse price than `o`'s
      limit: a buy pays at most its price, a sell receives at least its price. */
  lemma PlaceRespectsLimit(book: seq<Order>, o: Order, tradeId: int, createdAt: int, now: int)
    requires WellFormed(book) && CreatedBefore(book, createdAt)
    ensures var ts := Place(book, o, tradeId, createdAt, now).trades;
      forall i :: 0 <= i < |ts| ==> if o.orderType == Buy then ts[i].price <= o.price else ts[i].price >= o.price
  {
    PlaceTrades(book, o, tradeId, createdAt, now);
    var ts := Place(book, o, tradeId, createdAt, now).trades;
    forall i | 0 <= i < |ts| ensures if o.orderType == Buy then ts[i].price <= o.price else ts[i].price >= o.price {
      var k := ts[i].counterpartyOrderId - 1;
      assert Matchable(Stored(book, o, createdAt), book[k]);
    }
  }

  /** Each resting order gains exactly the quantity it traded with `o`, and
      one that traded is a candidate whose status follows its new fill
      (FILLED when fully filled, else PARTIAL). Orders that did not trade are
      unchanged, and no fill goes past its order's quantity. */
  lemma PlaceResting(book: seq<Order>, o: Order, tradeId: int, createdAt: int, now: int)
    requires WellFormed(book) && CreatedBefore(book, createdAt)
    ensures var p := Place(book, o, tradeId, createdAt, now);
      forall j :: 0 <= j < |book| ==>
        var traded := TradedWith(p.trades, book[j].id);
        && traded >= 0.0
        && p.book[j].filledQuantity == book[j].filledQuantity + traded
        && (traded == 0.0 ==> p.book[j] == book[j])
        && (traded > 0.0 ==> Matchable(Stored(book, o, createdAt), book[j]) && p.book[j].status == StatusAfterFill(p.book[j]))
        && (book[j].filledQuantity <= book[j].quantity ==> p.book[j].filledQuantity <= p.book[j].quantity)
  {
    var pos := |book|;
    var book1 := book + [Stored(book, o, createdAt)];
    var cands := Candidates(book1, pos);
    PlaceSetup(book, o, createdAt);
    MatchFromResting(book1, pos, cands, o.quantity, tradeId, now);
    var p := Place(book, o, tradeId, createdAt, now);
    var b, ts := BookAfter(book1, pos, cands, o.quantity, tradeId, now), TradesAfter(book1, pos, cands, o.quantity, tradeId, now);
    assert p.trades == ts;
    forall j | 0 <= j < |book|
      ensures var traded := TradedWith(ts, book[j].id);
        && traded >= 0.0
        && p.book[j].filledQuantity == book[j].filledQuantity + traded
        && (traded == 0.0 ==> p.book[j] == book[j])
        && (traded > 0.0 ==> Matchable(Stored(book, o, createdAt), book[j]) && p.book[j].status == StatusAfterFill(p.book[j]))
        && (book[j].filledQuantity <= book[j].quantity ==> p.book[j].filledQuantity <= p.book[j].quantity)
    {
      assert book1[j] == book[j] && book1[j].id == j + 1 && j != pos;
      assert p.book[j] == b[j];
      var traded := TradedWith(ts, book1[j].id);
      assert traded >= 0.0 && b[j].filledQuantity == book1[j].filledQuantity + traded;
      if traded > 0.0 {
        assert j in cands;
        assert book1[pos] == Stored(book, o, createdAt);
      }
    }
  }

  /** `add_order(o)` trades in price-time priority: each trade's resting
      order is ahead, in the walk order of `o`'s side, of every later trade's,
      and every order `o` could trade with that is ahead of a traded one has
      been filled completely first. */
  lemma PlacePriority(book: seq<Order>, o: Order, tradeId: int, createdAt: int, now: int)
    requires WellFormed(book) && CreatedBefore(book, createdAt)
    ensures var ts := Place(book, o, tradeId, createdAt, now).trades;
      forall i, i' :: 0 <= i < i' < |ts| ==> MetBefore(book, o.orderType, ts[i], ts[i'])
    ensures var p := Place(book, o, tradeId, createdAt, now);
      forall i, j :: 0 <= i < |p.trades| && 0 <= j < |book| && Matchable(Stored(book, o, createdAt), book[j])
                     && AheadOfTrade(book, o.orderType, j, p.trades[i]) ==>
        p.book[j].filledQuantity >= p.book[j].quantity
  {
    PlaceFillsAhead(book, o, tradeId, createdAt, now);
    var pos := |book|;
    var book1 := book + [Stored(book, o, createdAt)];
    var cands := Candidates(book1, pos);
    PlaceSetup(book, o, createdAt);
    MatchFromPriority(book1, pos, cands, o.quantity, tradeId, now);
    PlaceTrades(book, o, tradeId, createdAt, now);
    var ts := TradesAfter(book1, pos, cands, o.quantity, tradeId, now);
    forall i, i' | 0 <= i < i' < |ts| ensures MetBefore(book, o.orderType, ts[i], ts[i']) {
      assert MetBefore(book1, o.orderType, ts[i], ts[i']);
      var k, k' := ts[i].counterpartyOrderId - 1, ts[i'].counterpartyOrderId - 1;
      assert k < |book| && k' < |book|;
      assert book1[k] == book[k] && book1[k'] == book[k'];
    }
  }

  /** The second half of `PlacePriority`, from `MatchFromFillsAhead`. */
  lemma PlaceFillsAhead(book: seq<Order>, o: Order, tradeId: int, createdAt: int, now: int)
    requires WellFormed(book) && CreatedBefore(book, createdAt)
    ensures var p := Place(book, o, tradeId, createdAt, now);
      forall i, j :: 0 <= i < |p.trades| && 0 <= j < |book| && Matchable(Stored(book, o, createdAt), book[j])
                     && AheadOfTrade(book, o.orderType, j, p.trades[i]) ==>
        p.book[j].filledQuantity >= p.book[j].quantity
  {
    var pos := |book|;
    var book1 := book + [Stored(book, o, createdAt)];
    var cands := Candidates(book1, pos);
    PlaceSetup(book, o, createdAt);
    MatchFromFillsAhead(book1, pos, cands, o.quantity, tradeId, now);
    var p := Place(book, o, tradeId, createdAt, now);
    var b := BookAfter(book1, pos, cands, o.quantity, tradeId, now);
    assert p.trades == TradesAfter(book1, pos, cands, o.quantity, tradeId, now);
    forall i, j | 0 <= i < |p.trades| && 0 <= j < |book| && Matchable(Stored(book, o, createdAt), book[j])
                  && AheadOfTrade(book, o.orderType, j, p.trades[i])
      ensures p.book[j].filledQuantity >= p.book[j].quantity
    {
      var c := p.trades[i].counterpartyOrderId - 1;
      assert book1[j] == book[j] && book1[c] == book[c] && book1[pos] == Stored(book, o, createdAt);
      assert j in cands && AheadOfTrade(book1, o.orderType, j, p.trades[i]);
      assert p.book[j] == b[j];
    }
  }

  /** The walk only stops short of `o`'s quantity when nothing is left to
      meet: if `o` is not completely matched, every resting order it could
      have traded with is now completely filled. */
  lemma PlaceLeavesNoCross(book: seq<Order>, o: Order, tradeId: int, createdAt: int, now: int)
    requires WellFormed(book) && CreatedBefore(book, createdAt)
    ensures var p := Place(book, o, tradeId, createdAt, now);
      o.quantity > 0.0 && SumQty(p.trades) < o.quantity ==>
        forall j :: 0 <= j < |book| && Matchable(Stored(book, o, createdAt), book[j]) ==>
          p.book[j].filledQuantity >= p.book[j].quantity
  {
    var pos := |book|;
    var book1 := book + [Stored(book, o, createdAt)];
    var cands := Candidates(book1, pos);
    PlaceSetup(book, o, createdAt);
    MatchFromExhausts(book1, pos, cands, o.quantity, tradeId, now);
    var p := Place(book, o, tradeId, createdAt, now);
    var b := BookAfter(book1, pos, cands, o.quantity, tradeId, now);
    forall j | 0 <= j < |book| && Matchable(Stored(book, o, createdAt), book[j])
      ensures j in cands && p.book[j] == b[j]
    {
      assert book1[j] == book[j];
    }
  }

  /** Every OPEN or PARTIAL order still has something to fill. */
  predicate ActiveUnfilled(book: seq<Order>)
  {
    forall j :: 0 <= j < |book| && IsActive(book[j].status) ==> book[j].filledQuantity < book[j].quantity
  }

  /** `add_order` keeps every OPEN or PARTIAL order strictly under-filled,
      provided the incoming order is (a new order is OPEN with nothing
      filled and, once validated, a positive quantity). */
  lemma PlaceKeepsActiveUnfilled(book: seq<Order>, o: Order, tradeId: int, createdAt: int, now: int)
    requires WellFormed(book) && CreatedBefore(book, createdAt) && ActiveUnfilled(book)
    requires IsActive(o.status) ==> o.filledQuantity < o.quantity
    ensures ActiveUnfilled(Place(book, o, tradeId, createdAt, now).book)
  {
    PlaceStoresOrder(book, o, tradeId, createdAt, now);
    PlaceResting(book, o, tradeId, createdAt, now);
    var p := Place(book, o, tradeId, createdAt, now);
    forall j | 0 <= j < |p.book| && IsActive(p.book[j].status)
      ensures p.book[j].filledQuantity < p.book[j].quantity
    {
      if j < |book| {
        var traded := TradedWith(p.trades, book[j].id);
        if traded == 0.0 {
          assert p.book[j] == book[j];
        } else {
          assert p.book[j].status == StatusAfterFill(p.book[j]);
        }
      } else if p.trades == [] {
        assert SumQty(p.trades) == 0.0;
      }
    }
  }

  /** With every OPEN or PARTIAL order strictly under-filled, each level the
      snapshot lists has a positive quantity. */
  lemma SnapshotLevelsPositive(book: seq<Order>, c: int, side: OrderType, levels: seq<Level>)
    requires ActiveUnfilled(book) && DescribesSide(book, c, side, levels)
    ensures forall l :: l in levels ==> l.quantity > 0.0
  {
    forall l | l in levels ensures l.quantity > 0.0 {
      DepthPositive(book, c, side, l.price);
    }
  }

  /** The outcome of `cancel_order`: the new table, and the order returned
      or the message of the error raised. */
  datatype Cancellation = Cancellation(book: seq<Order>, result: Result<Order, string>)

  /** The query `filter(Order.id == order_id).first()`. */
  function FindOrder(book: seq<Order>, id: int): (r: Option<nat>)
    ensures r.Some? ==> r.value < |book| && book[r.value].id == id
    ensures r.Some? ==> forall j :: 0 <= j < r.value ==> book[j].id != id
    ensures r.None? ==> forall j :: 0 <= j < |book| ==> book[j].id != id
  {
    if book == [] then None
    else if book[0].id == id then Some(0)
    else match FindOrder(book[1..], id)
      case None => None
      case Some(i) => Some(i + 1)
  }

  function NotFound(id: int): string
  {
    "Order with ID " + IntToString(id) + " not found"
  }

  /** Specification of `cancel_order(id)`: a missing id is an error and
      changes nothing; an OPEN or PARTIAL order becomes CANCELLED; a FILLED or
      CANCELLED order is returned as it is. Only the order with that id can
      change, and only in its status. */
  function Cancel(book: seq<Order>, id: int): (c: Cancellation)
    ensures |c.book| == |book|
    ensures c.result.Failure? <==> forall j :: 0 <= j < |book| ==> book[j].id != id
    ensures c.result.Failure? ==> c.result.error == NotFound(id) && c.book == book
    ensures c.result.Success? ==>
      var i := FindOrder(book, id).value;
      && c.result.value == c.book[i] && c.result.value.id == id
      && c.book == book[i := c.result.value]
      && c.result.value == book[i].(status := c.result.value.status)
      && c.result.value.status == (if IsActive(book[i].status) then Cancelled else book[i].status)
  {
    match FindOrder(book, id)
    case None => Cancellation(book, Failure(NotFound(id)))
    case Some(i) =>
      if IsActive(book[i].status) then
        var cancelled := book[i].(status := Cancelled);
        Cancellation(book[i := cancelled], Success(cancelled))
      else Cancellation(book, Success(book[i]))
  }

  /** Cancelling twice is cancelling once: the second call finds the same
      order, no longer active, and returns it unchanged. */
  lemma CancelIdempotent(book: seq<Order>, id: int)
    ensures var c := Cancel(book, id);
      Cancel(c.book, id) == c
  {
    var c := Cancel(book, id);
    match FindOrder(book, id)
    case None =>
    case Some(i) =>
      var f := FindOrder(c.book, id);
      assert c.book[i].id == id;
      assert f.Some?;
      assert f.value == i by {
        assert forall j :: 0 <= j < i ==> c.book[j].id != id;
        assert !(f.value < i) && !(f.value > i);
      }
      assert c.book[i := c.book[i]] == c.book;
  }

  /** Cancelling keeps the table well formed. */
  lemma CancelKeepsTables(book: seq<Order>, trades: seq<Trade>, clock: int, id: int)
    requires Tables(book, trades, clock)
    ensures Tables(Cancel(book, id).book, trades, clock)
  {
    var c := Cancel(book, id);
    if c.result.Success? {
      var i := FindOrder(book, id).value;
      forall j | 0 <= j < |c.book| ensures c.book[j].id == book[j].id && c.book[j].createdAt == book[j].createdAt {
        if j == i { assert c.book[j] == book[i].(status := c.result.value.status); }
      }
    }
  }

  /** Cancelling takes the cancelled order's unfilled quantity off its price
      level and leaves every other level of the snapshot as it was; a cancel
      that fails, or finds the order already FILLED or CANCELLED, changes no
      level. */
  lemma CancelLowersDepth(book: seq<Order>, id: int, c: int, side: OrderType, p: real)
    ensures var r := Cancel(book, id);
      Depth(r.book, c, side, p)
      == Depth(book, c, side, p) - (if r.result.Success? then Share(book[FindOrder(book, id).value], c, side, p) else 0.0)
  {
    match FindOrder(book, id)
    case None =>
    case Some(i) =>
      if IsActive(book[i].status) {
        DepthUpdate(book, i, book[i].(status := Cancelled), c, side, p);
      } else {
        assert Share(book[i], c, side, p) == 0.0;
      }
  }

  /** `cancel_order` keeps every OPEN or PARTIAL order strictly under-filled:
      it only ever moves an order out of OPEN or PARTIAL. */
  lemma CancelKeepsActiveUnfilled(book: seq<Order>, id: int)
    requires ActiveUnfilled(book)
    ensures ActiveUnfilled(Cancel(book, id).book)
  {
    var r := Cancel(book, id);
    if r.result.Success? {
      var i := FindOrder(book, id).value;
      forall j | 0 <= j < |r.book| && IsActive(r.book[j].status)
        ensures r.book[j].filledQuantity < r.book[j].quantity
      {
        assert j != i ==> r.book[j] == book[j];
      }
    }
  }

  /** The result of `get_order_book_snapshot`. */
  datatype Snapshot = Snapshot(commodityId: int, bids: seq<Level>, asks: seq<Level>)

  class OrderBook {
    var orders: seq<Order>
    var trades: seq<Trade>
    var clock: int

    predicate Valid()
      reads this
    {
      Tables(orders, trades, clock)
    }

    /** An empty book on a fresh database. */
    constructor ()
      ensures Valid()
      ensures orders == [] && trades == []
    {
      orders := [];
      trades := [];
      clock := 0;
    }

    /** `match_order` for the stored order at `pos`: walks the candidates in
        priority order, creating one trade per candidate with something left,
        until the incoming order's quantity is used up; the changes reach the
        tables at the final commit. The new tables are those of the reference
        walk `MatchFrom`. */
    method MatchOrder(pos: nat) returns (newTrades: seq<Trade>)
      requires Valid() && pos < |orders|
      modifies this
      ensures Valid()
      ensures var cands := Candidates(old(orders), pos);
        && orders == BookAfter(old(orders), pos, cands, old(orders)[pos].quantity, |old(trades)| + 1, old(clock))
        && newTrades == TradesAfter(old(orders), pos, cands, old(orders)[pos].quantity, |old(trades)| + 1, old(clock))
      ensures trades == old(trades) + newTrades
      ensures clock == old(clock) + 1
    {
      var book := orders;
      var nextId := |trades| + 1;
      var now := clock;
      var cands := Candidates(book, pos);
      var made;
      book, made := Walk(book, pos, cands, book[pos].quantity, nextId, now);
      newTrades := made;
      MatchKeepsTables(orders, trades, pos, cands, orders[pos].quantity, now, clock + 1);
      // commit
      orders := book;
      trades := trades + newTrades;
      clock := clock + 1;
    }

    /** `add_order(o)`: stores `o` under the next id, stamped with the
        current time, matches it against the book, and settles its status if
        it traded. Returns the stored order and the trades. */
    method AddOrder(o: Order) returns (placed: Order, newTrades: seq<Trade>)
      requires Valid()
      modifies this
      ensures Valid()
      ensures Placement(orders, newTrades) == Place(old(orders), o, |old(trades)| + 1, old(clock), old(clock) + 1)
      ensures placed == orders[|old(orders)|]
      ensures trades == old(trades) + newTrades
      ensures clock == old(clock) + 2
    {
      ghost var book, trades0, createdAt := orders, trades, clock;
      var pos := Insert(o);
      newTrades := MatchOrder(pos);
      ghost var matched := orders;
      SettleOrder(pos, newTrades);
      PlaceFromWalk(book, o, |trades0| + 1, createdAt, createdAt + 1, matched, newTrades);
      placed := orders[pos];
    }

    /** The insert and flush of `add_order`: the row for `o` under the next
        id, stamped with the current time. */
    method Insert(o: Order) returns (pos: nat)
      requires Valid()
      modifies this
      ensures Valid()
      ensures orders == old(orders) + [Stored(old(orders), o, old(clock))] && pos == |old(orders)|
      ensures trades == old(trades) && clock == old(clock) + 1
    {
      InsertKeepsTables(orders, trades, clock, o);
      pos := |orders|;
      orders := orders + [Stored(orders, o, clock)];
      clock := clock + 1;
    }

    /** The status update at the end of `add_order` for the order at `pos`
        after it made the trades `ts`. */
    method SettleOrder(pos: nat, ts: seq<Trade>)
      requires Valid() && pos < |orders|
      modifies this
      ensures Valid()
      ensures orders == Settle(old(orders), pos, ts)
      ensures trades == old(trades) && clock == old(clock)
    {
      if ts != [] {
        if orders[pos].filledQuantity >= orders[pos].quantity {
          SettleKeepsTables(orders, trades, clock, pos, Filled);
          orders := orders[pos := orders[pos].(status := Filled)];
        } else {
          SettleKeepsTables(orders, trades, clock, pos, Partial);
          orders := orders[pos := orders[pos].(status := Partial)];
        }
      }
    }

    /** `cancel_order(order_id)`. */
    method CancelOrder(orderId: int) returns (r: Result<Order, string>)
      requires Valid()
      modifies this
      ensures Valid()
      ensures Cancellation(orders, r) == Cancel(old(orders), orderId)
      ensures trades == old(trades) && clock == old(clock)
    {
      var found := FindOrder(orders, orderId);
      if found.None? {
        return Failure(NotFound(orderId));
      }
      var i := found.value;
      if orders[i].status == Open || orders[i].status == Partial {
        orders := orders[i := orders[i].(status := Cancelled)];
      }
      r := Success(orders[i]);
      CancelKeepsTables(old(orders), trades, clock, orderId);
    }

    /** `get_order_book_snapshot(commodity_id)`: the bids list the buy-side
        price levels by strictly descending price, the asks the sell-side
        levels by strictly ascending price, and each level carries the
        unfilled quantity of the OPEN and PARTIAL orders of the commodity at
        that price. Nothing changes. */
    method GetSnapshot(commodityId: int) returns (snap: Snapshot)
      ensures snap.commodityId == commodityId
      ensures Ordered(snap.bids, true) && Ordered(snap.asks, false)
      ensures DescribesSide(orders, commodityId, Buy, snap.bids)
      ensures DescribesSide(orders, commodityId, Sell, snap.asks)
    {
      var bids := Aggregate(orders, commodityId, Buy);
      var asks := Aggregate(orders, commodityId, Sell);
      var bidsList := SortLevels(bids, true);
      var asksList := SortLevels(asks, false);
      snap := Snapshot(commodityId, bidsList, asksList);
    }
  }
}
