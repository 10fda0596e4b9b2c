/** The specification of `match_order` (database/order_book.py).

    The order table is a sequence of order records. Rows are never deleted
    and ids are assigned by auto-increment, so the order with id `i + 1`
    sits at position `i`.

    The candidate query of `match_order` is the function `Candidates`
    (filter, then order by price and creation time); the walk over the
    candidates is the recursive function `MatchFrom`, which the loop of
    `OrderBookEngine.OrderBook.MatchOrder` implements. */
module Matching {
  import opened Common
  import opened OrderModel

  function Opposite(t: OrderType): OrderType
  {
    if t == Buy then Sell else Buy
  }

  /** The filter of the candidate query: same commodity, opposite side,
      still active, and a price the incoming order accepts. */
  predicate Matchable(incoming: Order, resting: Order)
  {
    && resting.commodityId == incoming.commodityId
    && resting.orderType == Opposite(incoming.orderType)
    && IsActive(resting.status)
    && (if incoming.orderType == Buy then resting.price <= incoming.price
        else resting.price >= incoming.price)
  }

  /** Walk order of the candidates for an incoming order of the given side:
      a buy walks sells by ascending price, a sell walks buys by descending
      price, and equal prices go by earlier creation time. */
  predicate Ahead(side: OrderType, a: Order, b: Order)
  {
    if side == Buy then a.price < b.price || (a.price == b.price && a.createdAt < b.createdAt)
    else a.price > b.price || (a.price == b.price && a.createdAt < b.createdAt)
  }

  /** Auto-increment ids, and creation times that grow with insertion. */
  predicate WellFormed(book: seq<Order>)
  {
    && (forall i :: 0 <= i < |book| ==> book[i].id == i + 1)
    && (forall i, j :: 0 <= i < j < |book| ==> book[i].createdAt < book[j].createdAt)
  }

  predicate InRange(book: seq<Order>, s: seq<nat>)
  {
    forall i :: 0 <= i < |s| ==> s[i] < |book|
  }

  predicate Distinct(s: seq<nat>)
  {
    forall i, j :: 0 <= i < j < |s| ==> s[i] != s[j]
  }

  /** A member of the tail is a member of the list, different from the head
      when the list has no repetitions. */
  lemma TailMember(s: seq<nat>, x: nat)
    requires |s| > 0 && x in s[1..]
    ensures x in s && (Distinct(s) ==> x != s[0])
  {
    var m :| 0 <= m < |s[1..]| && s[1..][m] == x;
    assert s[m + 1] == x;
  }

  lemma HeadNotInTail(s: seq<nat>)
    requires |s| > 0 && Distinct(s)
    ensures s[0] !in s[1..] && Distinct(s[1..])
  {
    forall x | x in s[1..] ensures x != s[0] { TailMember(s, x); }
  }

  /** The positions `s` lists are in strict walk order. */
  predicate SortedBy(book: seq<Order>, side: OrderType, s: seq<nat>)
    requires InRange(book, s)
  {
    forall i, j :: 0 <= i < j < |s| ==> Ahead(side, book[s[i]], book[s[j]])
  }

  lemma SortedIsDistinct(book: seq<Order>, side: OrderType, s: seq<nat>)
    requires InRange(book, s) && SortedBy(book, side, s)
    ensures Distinct(s)
  {
    forall i, j | 0 <= i < j < |s| ensures s[i] != s[j] {
      assert Ahead(side, book[s[i]], book[s[j]]);
    }
  }

  /** Positions below `n` whose orders pass the candidate filter, ascending. */
  function MatchableIndices(book: seq<Order>, pos: nat, n: nat): (r: seq<nat>)
    requires pos < |book| && n <= |book|
    ensures forall i :: 0 <= i < |r| ==> r[i] < n
    ensures forall k :: k in r <==> 0 <= k < n && Matchable(book[pos], book[k])
    ensures forall i, j :: 0 <= i < j < |r| ==> r[i] < r[j]
  {
    if n == 0 then []
    else
      var r := MatchableIndices(book, pos, n - 1);
      if Matchable(book[pos], book[n - 1]) then r + [n - 1] else r
  }

  /** Inserts position `k` into a list kept in walk order. */
  function InsertByPriority(book: seq<Order>, side: OrderType, k: nat, s: seq<nat>): (r: seq<nat>)
    requires k < |book| && InRange(book, s)
    ensures forall x :: x in r <==> x == k || x in s
    ensures |r| == |s| + 1
    ensures InRange(book, r)
    decreases |s|
  {
    if s == [] || Ahead(side, book[k], book[s[0]]) then [k] + s
    else
      assert forall x :: x in s <==> x == s[0] || x in s[1..];
      [s[0]] + InsertByPriority(book, side, k, s[1..])
  }

  /** Insertion keeps the walk order: two different rows never tie, because
      their creation times differ. */
  lemma {:induction false} InsertKeepsOrder(book: seq<Order>, side: OrderType, k: nat, s: seq<nat>)
    requires k < |book| && InRange(book, s) && WellFormed(book)
    requires k !in s && SortedBy(book, side, s)
    ensures SortedBy(book, side, InsertByPriority(book, side, k, s))
    decreases |s|
  {
    var r := InsertByPriority(book, side, k, s);
    if s == [] || Ahead(side, book[k], book[s[0]]) {
      forall i, j | 0 <= i < j < |r| ensures Ahead(side, book[r[i]], book[r[j]]) {
        if i == 0 && j > 1 {
          assert Ahead(side, book[s[0]], book[s[j - 1]]);
        }
      }
    } else {
      var rest := InsertByPriority(book, side, k, s[1..]);
      assert r == [s[0]] + rest;
      InsertKeepsOrder(book, side, k, s[1..]);
      assert k != s[0];
      assert Ahead(side, book[s[0]], book[k]);
      forall i, j | 0 <= i < j < |r| ensures Ahead(side, book[r[i]], book[r[j]]) {
        if i == 0 {
          assert r[j] in rest;
          assert r[j] == k || r[j] in s[1..];
          if r[j] != k {
            var m :| 0 <= m < |s[1..]| && s[1..][m] == r[j];
            assert s[m + 1] == r[j];
          }
        } else {
          assert r[i] == rest[i - 1] && r[j] == rest[j - 1];
        }
      }
    }
  }

  /** Insertion sort of positions into walk order. */
  function SortByPriority(book: seq<Order>, side: OrderType, s: seq<nat>): (r: seq<nat>)
    requires InRange(book, s)
    ensures forall x :: x in r <==> x in s
    ensures |r| == |s|
    ensures InRange(book, r)
  {
    if s == [] then []
    else
      assert forall x :: x in s <==> x == s[0] || x in s[1..];
      InsertByPriority(book, side, s[0], SortByPriority(book, side, s[1..]))
  }

  lemma {:induction false} SortOrders(book: seq<Order>, side: OrderType, s: seq<nat>)
    requires InRange(book, s) && WellFormed(book) && Distinct(s)
    ensures SortedBy(book, side, SortByPriority(book, side, s))
  {
    if s != [] {
      HeadNotInTail(s);
      SortOrders(book, side, s[1..]);
      InsertKeepsOrder(book, side, s[0], SortByPriority(book, side, s[1..]));
    }
  }

  /** The candidate query of `match_order` for the order at `pos`: exactly
      the matchable orders. */
  function Candidates(book: seq<Order>, pos: nat): (r: seq<nat>)
    requires pos < |book|
    ensures InRange(book, r)
    ensures forall k :: k in r <==> 0 <= k < |book| && Matchable(book[pos], book[k])
    ensures pos !in r
  {
    SortByPriority(book, book[pos].orderType, MatchableIndices(book, pos, |book|))
  }

  /** The candidates are walked in strict price-time priority, so each
      appears once. */
  lemma CandidatesInWalkOrder(book: seq<Order>, pos: nat)
    requires pos < |book| && WellFormed(book)
    ensures SortedBy(book, book[pos].orderType, Candidates(book, pos))
    ensures Distinct(Candidates(book, pos))
  {
    var m := MatchableIndices(book, pos, |book|);
    assert Distinct(m) by {
      forall i, j | 0 <= i < j < |m| ensures m[i] != m[j] { assert m[i] < m[j]; }
    }
    SortOrders(book, book[pos].orderType, m);
    SortedIsDistinct(book, book[pos].orderType, Candidates(book, pos));
  }

  /** What is left to fill of an order. */
  function Unfilled(o: Order): real
  {
    o.quantity - o.filledQuantity
  }

  /** The status a resting order takes after a fill. */
  function StatusAfterFill(o: Order): OrderStatus
  {
    if o.filledQuantity >= o.quantity then Filled else Partial
  }

  /** The table after a trade of `qty` between the incoming order at `pos`
      and the resting order at `k`: both gain `qty`, and the resting order's
      status follows its new fill. */
  function Fill(book: seq<Order>, pos: nat, k: nat, qty: real): (b: seq<Order>)
    requires pos < |book| && k < |book| && k != pos
    ensures |b| == |book|
    ensures b[pos] == book[pos].(filledQuantity := book[pos].filledQuantity + qty)
    ensures b[k].filledQuantity == book[k].filledQuantity + qty && b[k].status == StatusAfterFill(b[k])
    ensures SameTerms(b[k], book[k])
    ensures forall j :: 0 <= j < |book| && j != pos && j != k ==> b[j] == book[j]
  {
    var filled := book[k].(filledQuantity := book[k].filledQuantity + qty);
    book[pos := book[pos].(filledQuantity := book[pos].filledQuantity + qty)][k := filled.(status := StatusAfterFill(filled))]
  }

  /** A fill changes no row's terms, so the table stays well formed. */
  lemma FillKeepsTerms(book: seq<Order>, pos: nat, k: nat, qty: real)
    requires pos < |book| && k < |book| && k != pos
    ensures forall j :: 0 <= j < |book| ==> SameTerms(book[j], Fill(book, pos, k, qty)[j])
    ensures WellFormed(book) ==> WellFormed(Fill(book, pos, k, qty))
  {
  }

  /** Walk order depends only on the terms of the orders. */
  lemma SortedByTerms(book: seq<Order>, book': seq<Order>, side: OrderType, s: seq<nat>)
    requires |book'| == |book| && InRange(book, s)
    requires forall j :: 0 <= j < |book| ==> SameTerms(book[j], book'[j])
    requires SortedBy(book, side, s)
    ensures SortedBy(book', side, s)
  {
    forall i, j | 0 <= i < j < |s| ensures Ahead(side, book'[s[i]], book'[s[j]]) {
      assert Ahead(side, book[s[i]], book[s[j]]);
    }
  }

  /** Reference definition of the matching walk: the order at `pos` with
      `remaining` still to match meets the candidates in the order given.
      Returns the new table and the trades made, numbered from `tradeId`
      and stamped `now`. */
  function MatchFrom(book: seq<Order>, pos: nat, cands: seq<nat>, remaining: real, tradeId: int, now: int)
    : (r: (seq<Order>, seq<Trade>))
    requires pos < |book| && InRange(book, cands) && pos !in cands
    ensures |r.0| == |book|
    ensures |r.1| <= |cands|
    ensures remaining <= 0.0 ==> r.1 == []
    decreases |cands|
  {
    if cands == [] || remaining <= 0.0 then (book, [])
    else
      var k := cands[0];
      var resting := book[k];
      var qty := Min(remaining, Unfilled(resting));
      if qty <= 0.0 then MatchFrom(book, pos, cands[1..], remaining, tradeId, now)
      else
        var trade := Trade(tradeId, book[pos].id, resting.id, resting.price, qty, now);
        var rest := MatchFrom(Fill(book, pos, k, qty), pos, cands[1..], remaining - qty, tradeId + 1, now);
        (rest.0, [trade] + rest.1)
  }

  /** The table after the walk. */
  function BookAfter(book: seq<Order>, pos: nat, cands: seq<nat>, remaining: real, tradeId: int, now: int): seq<Order>
    requires pos < |book| && InRange(book, cands) && pos !in cands
  {
    MatchFrom(book, pos, cands, remaining, tradeId, now).0
  }

  /** The trades the walk makes. */
  function TradesAfter(book: seq<Order>, pos: nat, cands: seq<nat>, remaining: real, tradeId: int, now: int): seq<Trade>
    requires pos < |book| && InRange(book, cands) && pos !in cands
  {
    MatchFrom(book, pos, cands, remaining, tradeId, now).1
  }

  /** One step of the walk, as a lemma the loop of `MatchOrder` can use. */
  lemma MatchFromStep(book: seq<Order>, pos: nat, cands: seq<nat>, remaining: real, tradeId: int, now: int)
    requires pos < |book| && InRange(book, cands) && pos !in cands
    requires cands != [] && remaining > 0.0
    ensures InRange(book, cands[1..]) && pos !in cands[1..]
    ensures var k := cands[0];
      var qty := Min(remaining, Unfilled(book[k]));
      qty <= 0.0 ==>
        && BookAfter(book, pos, cands, remaining, tradeId, now) == BookAfter(book, pos, cands[1..], remaining, tradeId, now)
        && TradesAfter(book, pos, cands, remaining, tradeId, now) == TradesAfter(book, pos, cands[1..], remaining, tradeId, now)
    ensures var k := cands[0];
      var qty := Min(remaining, Unfilled(book[k]));
      var book' := Fill(book, pos, k, qty);
      qty > 0.0 ==>
        && BookAfter(book, pos, cands, remaining, tradeId, now) == BookAfter(book', pos, cands[1..], remaining - qty, tradeId + 1, now)
        && TradesAfter(book, pos, cands, remaining, tradeId, now)
           == [Trade(tradeId, book[pos].id, book[k].id, book[k].price, qty, now)]
              + TradesAfter(book', pos, cands[1..], remaining - qty, tradeId + 1, now)
  {
    assert forall x :: x in cands[1..] ==> x in cands;
  }

  /** The walk with no candidate left, or nothing left to match, does nothing. */
  lemma MatchFromDone(book: seq<Order>, pos: nat, cands: seq<nat>, remaining: real, tradeId: int, now: int)
    requires pos < |book| && InRange(book, cands) && pos !in cands
    requires cands == [] || remaining <= 0.0
    ensures BookAfter(book, pos, cands, remaining, tradeId, now) == book
    ensures TradesAfter(book, pos, cands, remaining, tradeId, now) == []
  {
  }

  /** The walk over a single candidate that has something left. */
  lemma MatchOne(book: seq<Order>, pos: nat, k: nat, remaining: real, tradeId: int, now: int)
    requires pos < |book| && k < |book| && k != pos
    requires remaining > 0.0 && Min(remaining, Unfilled(book[k])) > 0.0
    ensures var qty := Min(remaining, Unfilled(book[k]));
      && BookAfter(book, pos, [k], remaining, tradeId, now) == Fill(book, pos, k, qty)
      && TradesAfter(book, pos, [k], remaining, tradeId, now) == [Trade(tradeId, book[pos].id, book[k].id, book[k].price, qty, now)]
  {
    assert [k][1..] == [];
    MatchFromStep(book, pos, [k], remaining, tradeId, now);
    var qty := Min(remaining, Unfilled(book[k]));
    MatchFromDone(Fill(book, pos, k, qty), pos, [], remaining - qty, tradeId + 1, now);
  }

  function SumQty(ts: seq<Trade>): real
  {
    if ts == [] then 0.0 else ts[0].quantity + SumQty(ts[1..])
  }

  /** Total quantity of the trades whose resting side is the order `id`. */
  function TradedWith(ts: seq<Trade>, id: int): real
  {
    if ts == [] then 0.0
    else (if ts[0].counterpartyOrderId == id then ts[0].quantity else 0.0) + TradedWith(ts[1..], id)
  }

  /** Everything but the fill state is the same. */
  predicate SameTerms(a: Order, b: Order)
  {
    && a.id == b.id && a.customerId == b.customerId && a.commodityId == b.commodityId
    && a.orderType == b.orderType && a.price == b.price && a.quantity == b.quantity
    && a.createdAt == b.createdAt
  }

  /** Matching changes only fill state; rows off the candidate list other than
      the incoming one are untouched; trades are numbered consecutively, carry a
      positive quantity, and the incoming order gains exactly their sum, which
      never exceeds what it had left. */
  lemma {:induction false} MatchFromFrame(book: seq<Order>, pos: nat, cands: seq<nat>, remaining: real, tradeId: int, now: int)
    requires pos < |book| && InRange(book, cands) && pos !in cands
    ensures var b, ts := BookAfter(book, pos, cands, remaining, tradeId, now), TradesAfter(book, pos, cands, remaining, tradeId, now);
      && (forall j :: 0 <= j < |book| ==> SameTerms(book[j], b[j]))
      && (forall j :: 0 <= j < |book| && j != pos && j !in cands ==> b[j] == book[j])
      && (forall i :: 0 <= i < |ts| ==>
            ts[i].id == tradeId + i && ts[i].orderId == book[pos].id && ts[i].executedAt == now && ts[i].quantity > 0.0)
      && b[pos] == book[pos].(filledQuantity := book[pos].filledQuantity + SumQty(ts))
      && (remaining <= 0.0 ==> ts == [])
      && (remaining > 0.0 ==> SumQty(ts) <= remaining)
    decreases |cands|
  {
    if cands == [] || remaining <= 0.0 {
    } else {
      var k := cands[0];
      var resting := book[k];
      var qty := Min(remaining, Unfilled(resting));
      if qty <= 0.0 {
        MatchFromFrame(book, pos, cands[1..], remaining, tradeId, now);
      } else {
        var book' := Fill(book, pos, k, qty);
        var trade := Trade(tradeId, book[pos].id, resting.id, resting.price, qty, now);
        MatchFromFrame(book', pos, cands[1..], remaining - qty, tradeId + 1, now);
        var b, ts := BookAfter(book', pos, cands[1..], remaining - qty, tradeId + 1, now), TradesAfter(book', pos, cands[1..], remaining - qty, tradeId + 1, now);
        assert MatchFrom(book, pos, cands, remaining, tradeId, now) == (b, [trade] + ts);
        assert SumQty([trade] + ts) == qty + SumQty(ts);
        forall i | 0 <= i < |ts| + 1
          ensures ([trade] + ts)[i].id == tradeId + i
        {
          if i > 0 { assert ([trade] + ts)[i] == ts[i - 1]; }
        }
      }
    }
  }

  lemma SumQtyCons(t: Trade, ts: seq<Trade>, i: nat)
    requires 1 <= i <= |ts| + 1
    ensures SumQty(([t] + ts)[..i]) == t.quantity + SumQty(ts[..i - 1])
  {
    assert ([t] + ts)[..i] == [t] + ts[..i - 1];
    assert ([t] + ts[..i - 1])[1..] == ts[..i - 1];
  }

  /** Trade `i` of `ts` met the resting order at position `k` of `book`
      (the order with id `k + 1`) at that order's price, for the smaller of
      what was still to match out of `remaining` and what the order had left. */
  predicate FromResting(book: seq<Order>, remaining: real, ts: seq<Trade>, i: int)
    requires 0 <= i < |ts|
  {
    var k := ts[i].counterpartyOrderId - 1;
    && 0 <= k < |book|
    && ts[i].price == book[k].price
    && ts[i].quantity == Min(remaining - SumQty(ts[..i]), Unfilled(book[k]))
  }

  /** ... and that resting order was on the candidate list. */
  predicate TradeMeetsCandidate(book: seq<Order>, cands: seq<nat>, remaining: real, ts: seq<Trade>, i: int)
    requires 0 <= i < |ts|
  {
    FromResting(book, remaining, ts, i) && ts[i].counterpartyOrderId - 1 in cands
  }

  /** A trade with an order of a table is one with the same order of any
      longer table. */
  lemma FromRestingPrefix(book: seq<Order>, extra: seq<Order>, remaining: real, ts: seq<Trade>, i: int)
    requires 0 <= i < |ts| && FromResting(book + extra, remaining, ts, i)
    requires ts[i].counterpartyOrderId - 1 < |book|
    ensures FromResting(book, remaining, ts, i)
  {
    var k := ts[i].counterpartyOrderId - 1;
    assert (book + extra)[k] == book[k];
  }

  /** Every trade meets a candidate (the resting order with id `p` is at
      position `p - 1`), executes at that candidate's price, and its quantity
      is the smaller of what the incoming order still had to match and what
      the candidate had left. */
  lemma {:induction false} MatchFromTrades(book: seq<Order>, pos: nat, cands: seq<nat>, remaining: real, tradeId: int, now: int)
    requires pos < |book| && InRange(book, cands) && pos !in cands
    requires WellFormed(book) && Distinct(cands)
    ensures var ts := TradesAfter(book, pos, cands, remaining, tradeId, now);
      forall i :: 0 <= i < |ts| ==> TradeMeetsCandidate(book, cands, remaining, ts, i)
    decreases |cands|
  {
    if cands == [] || remaining <= 0.0 {
    } else {
      var k := cands[0];
      var resting := book[k];
      var qty := Min(remaining, Unfilled(resting));
      assert Distinct(cands[1..]);
      if qty <= 0.0 {
        MatchFromTrades(book, pos, cands[1..], remaining, tradeId, now);
        var ts := TradesAfter(book, pos, cands[1..], remaining, tradeId, now);
        forall i | 0 <= i < |ts| ensures TradeMeetsCandidate(book, cands, remaining, ts, i) {
          assert TradeMeetsCandidate(book, cands[1..], remaining, ts, i);
          TailMember(cands, ts[i].counterpartyOrderId - 1);
        }
      } else {
        var book' := Fill(book, pos, k, qty);
        var trade := Trade(tradeId, book[pos].id, resting.id, resting.price, qty, now);
        var rem := remaining - qty;
        FillKeepsTerms(book, pos, k, qty);
        MatchFromTrades(book', pos, cands[1..], rem, tradeId + 1, now);
        var ts := TradesAfter(book', pos, cands[1..], rem, tradeId + 1, now);
        assert TradesAfter(book, pos, cands, remaining, tradeId, now) == [trade] + ts;
        TradesStep(book, pos, cands, remaining, qty, rem, trade, ts);
      }
    }
  }

  /** One step of `MatchFromTrades`: a trade with the head candidate put in
      front of trades that meet later candidates of the filled table. */
  lemma TradesStep(book: seq<Order>, pos: nat, cands: seq<nat>, remaining: real, qty: real, rem: real,
                   trade: Trade, ts: seq<Trade>)
    requires pos < |book| && InRange(book, cands) && pos !in cands && |cands| > 0 && Distinct(cands)
    requires qty == Min(remaining, Unfilled(book[cands[0]])) && qty > 0.0 && rem == remaining - qty
    requires trade.counterpartyOrderId - 1 == cands[0] && trade.price == book[cands[0]].price && trade.quantity == qty
    requires forall i :: 0 <= i < |ts| ==> TradeMeetsCandidate(Fill(book, pos, cands[0], qty), cands[1..], rem, ts, i)
    ensures forall i :: 0 <= i < |ts| + 1 ==> TradeMeetsCandidate(book, cands, remaining, [trade] + ts, i)
  {
    var book' := Fill(book, pos, cands[0], qty);
    forall i | 0 <= i < |ts| + 1
      ensures TradeMeetsCandidate(book, cands, remaining, [trade] + ts, i)
    {
      if i == 0 {
        assert ([trade] + ts)[..0] == [];
      } else {
        var t := ts[i - 1];
        assert ([trade] + ts)[i] == t;
        var c := t.counterpartyOrderId - 1;
        assert TradeMeetsCandidate(book', cands[1..], rem, ts, i - 1);
        TailMember(cands, c);
        assert book'[c] == book[c];
        SumQtyCons(trade, ts, i);
      }
    }
  }

  /** Each resting order gains exactly what it traded: a matched one is
      FILLED once its fill reaches its quantity and PARTIAL before; one that
      did not trade is unchanged; no fill goes past the order's quantity. */
  lemma {:induction false} MatchFromResting(book: seq<Order>, pos: nat, cands: seq<nat>, remaining: real, tradeId: int, now: int)
    requires pos < |book| && InRange(book, cands) && pos !in cands
    requires WellFormed(book) && Distinct(cands)
    ensures var b, ts := BookAfter(book, pos, cands, remaining, tradeId, now), TradesAfter(book, pos, cands, remaining, tradeId, now);
      forall j :: 0 <= j < |book| && j != pos ==>
        var traded := TradedWith(ts, book[j].id);
        && traded >= 0.0
        && b[j].filledQuantity == book[j].filledQuantity + traded
        && (traded == 0.0 ==> b[j] == book[j])
        && (traded > 0.0 ==> b[j].status == StatusAfterFill(b[j]))
        && (j !in cands ==> traded == 0.0)
        && (book[j].filledQuantity <= book[j].quantity ==> b[j].filledQuantity <= b[j].quantity)
    decreases |cands|
  {
    if cands == [] || remaining <= 0.0 {
    } else {
      var k := cands[0];
      var resting := book[k];
      var qty := Min(remaining, Unfilled(resting));
      assert Distinct(cands[1..]);
      if qty <= 0.0 {
        MatchFromResting(book, pos, cands[1..], remaining, tradeId, now);
        var b, ts := BookAfter(book, pos, cands[1..], remaining, tradeId, now), TradesAfter(book, pos, cands[1..], remaining, tradeId, now);
        forall j | 0 <= j < |book| && j != pos && j !in cands ensures j !in cands[1..] {}
      } else {
        var book' := Fill(book, pos, k, qty);
        var trade := Trade(tradeId, book[pos].id, resting.id, resting.price, qty, now);
        FillKeepsTerms(book, pos, k, qty);
        MatchFromResting(book', pos, cands[1..], remaining - qty, tradeId + 1, now);
        MatchFromFrame(book', pos, cands[1..], remaining - qty, tradeId + 1, now);
        var b, ts := BookAfter(book', pos, cands[1..], remaining - qty, tradeId + 1, now), TradesAfter(book', pos, cands[1..], remaining - qty, tradeId + 1, now);
        assert MatchFrom(book, pos, cands, remaining, tradeId, now) == (b, [trade] + ts);
        HeadNotInTail(cands);
        forall j | 0 <= j < |book| && j != pos
          ensures TradedWith([trade] + ts, book[j].id)
                  == (if j == k then qty else 0.0) + TradedWith(ts, book'[j].id)
        {
          assert ([trade] + ts)[1..] == ts;
        }
      }
    }
  }

  /** The resting order of trade `t` comes before that of trade `t'` in the
      walk order of `side`. */
  predicate MetBefore(book: seq<Order>, side: OrderType, t: Trade, t': Trade)
  {
    var k, k' := t.counterpartyOrderId - 1, t'.counterpartyOrderId - 1;
    0 <= k < |book| && 0 <= k' < |book| && Ahead(side, book[k], book[k'])
  }

  /** Trades follow the walk order: a trade with an earlier candidate comes
      before a trade with a later one. */
  lemma {:induction false} MatchFromPriority(book: seq<Order>, pos: nat, cands: seq<nat>, remaining: real, tradeId: int, now: int)
    requires pos < |book| && InRange(book, cands) && pos !in cands
    requires WellFormed(book) && SortedBy(book, book[pos].orderType, cands)
    ensures var ts := TradesAfter(book, pos, cands, remaining, tradeId, now);
      forall i, i' :: 0 <= i < i' < |ts| ==> MetBefore(book, book[pos].orderType, ts[i], ts[i'])
    decreases |cands|
  {
    var side := book[pos].orderType;
    SortedIsDistinct(book, side, cands);
    if cands == [] || remaining <= 0.0 {
    } else {
      HeadNotInTail(cands);
      var k := cands[0];
      var resting := book[k];
      var qty := Min(remaining, Unfilled(resting));
      assert SortedBy(book, side, cands[1..]);
      if qty <= 0.0 {
        MatchFromPriority(book, pos, cands[1..], remaining, tradeId, now);
        assert TradesAfter(book, pos, cands, remaining, tradeId, now) == TradesAfter(book, pos, cands[1..], remaining, tradeId, now);
      } else {
        var book' := Fill(book, pos, k, qty);
        var trade := Trade(tradeId, book[pos].id, resting.id, resting.price, qty, now);
        var rem := remaining - qty;
        FillKeepsTerms(book, pos, k, qty);
        SortedByTerms(book, book', side, cands[1..]);
        MatchFromPriority(book', pos, cands[1..], rem, tradeId + 1, now);
        MatchFromTrades(book', pos, cands[1..], rem, tradeId + 1, now);
        var b, ts := BookAfter(book', pos, cands[1..], rem, tradeId + 1, now), TradesAfter(book', pos, cands[1..], rem, tradeId + 1, now);
        assert TradesAfter(book, pos, cands, remaining, tradeId, now) == [trade] + ts;
        forall i | 0 <= i < |ts| ensures ts[i].counterpartyOrderId - 1 in cands[1..] {
          assert TradeMeetsCandidate(book', cands[1..], rem, ts, i);
        }
        PriorityStep(book, book', side, cands, trade, ts);
      }
    }
  }

  /** Position `j` is ahead, in the walk order of `side`, of the resting
      order of trade `t`. */
  predicate AheadOfTrade(book: seq<Order>, side: OrderType, j: int, t: Trade)
  {
    var k := t.counterpartyOrderId - 1;
    0 <= j < |book| && 0 <= k < |book| && Ahead(side, book[j], book[k])
  }

  /** Every candidate ahead of the resting order of some trade of the walk
      ends completely filled. */
  predicate FillsAhead(book: seq<Order>, pos: nat, cands: seq<nat>, remaining: real, tradeId: int, now: int)
    requires pos < |book| && InRange(book, cands) && pos !in cands
  {
    var b, ts := BookAfter(book, pos, cands, remaining, tradeId, now), TradesAfter(book, pos, cands, remaining, tradeId, now);
    forall i, j :: 0 <= i < |ts| && j in cands && AheadOfTrade(book, book[pos].orderType, j, ts[i]) ==>
      b[j].filledQuantity >= b[j].quantity
  }

  /** The walk fills each candidate before it moves on: a candidate ahead of
      the resting order of any trade ends completely filled. */
  lemma {:induction false} MatchFromFillsAhead(book: seq<Order>, pos: nat, cands: seq<nat>, remaining: real, tradeId: int, now: int)
    requires pos < |book| && InRange(book, cands) && pos !in cands
    requires WellFormed(book) && SortedBy(book, book[pos].orderType, cands)
    ensures var b, ts := BookAfter(book, pos, cands, remaining, tradeId, now), TradesAfter(book, pos, cands, remaining, tradeId, now);
      forall i, j :: 0 <= i < |ts| && j in cands && AheadOfTrade(book, book[pos].orderType, j, ts[i]) ==>
        b[j].filledQuantity >= b[j].quantity
    decreases |cands|
  {
    var side := book[pos].orderType;
    SortedIsDistinct(book, side, cands);
    if cands != [] && remaining > 0.0 {
      HeadNotInTail(cands);
      var k := cands[0];
      var qty := Min(remaining, Unfilled(book[k]));
      assert SortedBy(book, side, cands[1..]);
      if qty <= 0.0 {
        MatchFromFillsAhead(book, pos, cands[1..], remaining, tradeId, now);
        FillsAheadSkip(book, pos, cands, remaining, tradeId, now);
      } else {
        var book' := Fill(book, pos, k, qty);
        FillKeepsTerms(book, pos, k, qty);
        SortedByTerms(book, book', side, cands[1..]);
        MatchFromFillsAhead(book', pos, cands[1..], remaining - qty, tradeId + 1, now);
        FillsAheadFill(book, pos, cands, remaining, tradeId, now);
      }
    }
  }

  /** `MatchFromFillsAhead` past a candidate with nothing left. */
  lemma FillsAheadSkip(book: seq<Order>, pos: nat, cands: seq<nat>, remaining: real, tradeId: int, now: int)
    requires pos < |book| && InRange(book, cands) && pos !in cands && cands != [] && Distinct(cands)
    requires remaining > 0.0 && Min(remaining, Unfilled(book[cands[0]])) <= 0.0
    requires InRange(book, cands[1..]) && pos !in cands[1..] && cands[0] !in cands[1..]
    requires FillsAhead(book, pos, cands[1..], remaining, tradeId, now)
    ensures FillsAhead(book, pos, cands, remaining, tradeId, now)
  {
    var k := cands[0];
    MatchFromStep(book, pos, cands, remaining, tradeId, now);
    MatchFromFrame(book, pos, cands[1..], remaining, tradeId, now);
    var b := BookAfter(book, pos, cands[1..], remaining, tradeId, now);
    assert b[k] == book[k];
    assert forall x :: x in cands <==> x == k || x in cands[1..];
  }

  /** `MatchFromFillsAhead` past a candidate that trades. */
  lemma FillsAheadFill(book: seq<Order>, pos: nat, cands: seq<nat>, remaining: real, tradeId: int, now: int)
    requires pos < |book| && InRange(book, cands) && pos !in cands && cands != [] && Distinct(cands)
    requires WellFormed(book) && SortedBy(book, book[pos].orderType, cands)
    requires remaining > 0.0 && Min(remaining, Unfilled(book[cands[0]])) > 0.0
    requires InRange(book, cands[1..]) && pos !in cands[1..] && cands[0] !in cands[1..] && Distinct(cands[1..])
    requires var qty := Min(remaining, Unfilled(book[cands[0]]));
      FillsAhead(Fill(book, pos, cands[0], qty), pos, cands[1..], remaining - qty, tradeId + 1, now)
    ensures FillsAhead(book, pos, cands, remaining, tradeId, now)
  {
    var side := book[pos].orderType;
    var k := cands[0];
    var qty := Min(remaining, Unfilled(book[k]));
    var rem := remaining - qty;
    var book' := Fill(book, pos, k, qty);
    var trade := Trade(tradeId, book[pos].id, book[k].id, book[k].price, qty, now);
    FillKeepsTerms(book, pos, k, qty);
    WalkWithin(book', pos, cands[1..], rem, tradeId + 1, now);
    var b, ts := BookAfter(book', pos, cands[1..], rem, tradeId + 1, now), TradesAfter(book', pos, cands[1..], rem, tradeId + 1, now);
    MatchFromStep(book, pos, cands, remaining, tradeId, now);
    assert BookAfter(book, pos, cands, remaining, tradeId, now) == b;
    assert TradesAfter(book, pos, cands, remaining, tradeId, now) == [trade] + ts;
    assert trade.counterpartyOrderId - 1 == k;
    HeadAheadOfNone(book, side, cands, trade);
    assert ts != [] ==> b[k].filledQuantity >= b[k].quantity by {
      if ts != [] {
        assert rem > 0.0 && qty == Unfilled(book[k]);
        assert b[k] == book'[k];
      }
    }
    FillsAheadStep(book, book', side, cands, trade, ts, b);
  }

  /** The walk trades only with candidates, trades only while something is
      left, and leaves every other row but the incoming one as it was. */
  lemma WalkWithin(book: seq<Order>, pos: nat, cands: seq<nat>, remaining: real, tradeId: int, now: int)
    requires pos < |book| && InRange(book, cands) && pos !in cands
    requires WellFormed(book) && Distinct(cands)
    ensures var b, ts := BookAfter(book, pos, cands, remaining, tradeId, now), TradesAfter(book, pos, cands, remaining, tradeId, now);
      && (forall i :: 0 <= i < |ts| ==> ts[i].counterpartyOrderId - 1 in cands)
      && (ts != [] ==> remaining > 0.0)
      && (forall j :: 0 <= j < |book| && j != pos && j !in cands ==> b[j] == book[j])
  {
    MatchFromFrame(book, pos, cands, remaining, tradeId, now);
    MatchFromTrades(book, pos, cands, remaining, tradeId, now);
    var ts := TradesAfter(book, pos, cands, remaining, tradeId, now);
    forall i | 0 <= i < |ts| ensures ts[i].counterpartyOrderId - 1 in cands {
      assert TradeMeetsCandidate(book, cands, remaining, ts, i);
    }
  }

  /** No candidate is ahead of the head of a list in walk order. */
  lemma HeadAheadOfNone(book: seq<Order>, side: OrderType, cands: seq<nat>, trade: Trade)
    requires InRange(book, cands) && |cands| > 0 && SortedBy(book, side, cands)
    requires trade.counterpartyOrderId - 1 == cands[0]
    ensures forall j :: j in cands ==> !AheadOfTrade(book, side, j, trade)
  {
    forall j | j in cands ensures !AheadOfTrade(book, side, j, trade) {
      if j != cands[0] {
        var m :| 0 <= m < |cands| && cands[m] == j;
        assert m > 0 && Ahead(side, book[cands[0]], book[cands[m]]);
      }
    }
  }

  /** One step of `MatchFromFillsAhead`: the head candidate is full once a
      later trade exists, and the rest follows from the tail's walk. */
  lemma FillsAheadStep(book: seq<Order>, book': seq<Order>, side: OrderType, cands: seq<nat>, trade: Trade, ts: seq<Trade>,
                       b: seq<Order>)
    requires InRange(book, cands) && |cands| > 0 && |b| == |book|
    requires |book'| == |book| && forall j :: 0 <= j < |book| ==> SameTerms(book[j], book'[j])
    requires forall i :: 0 <= i < |ts| ==> ts[i].counterpartyOrderId - 1 in cands[1..]
    requires forall j :: j in cands ==> !AheadOfTrade(book, side, j, trade)
    requires ts != [] ==> b[cands[0]].filledQuantity >= b[cands[0]].quantity
    requires forall i, j :: 0 <= i < |ts| && j in cands[1..] && AheadOfTrade(book', side, j, ts[i]) ==>
               b[j].filledQuantity >= b[j].quantity
    ensures forall i, j :: 0 <= i < |ts| + 1 && j in cands && AheadOfTrade(book, side, j, ([trade] + ts)[i]) ==>
              b[j].filledQuantity >= b[j].quantity
  {
    forall i, j | 0 <= i < |ts| + 1 && j in cands && AheadOfTrade(book, side, j, ([trade] + ts)[i])
      ensures b[j].filledQuantity >= b[j].quantity
    {
      if i > 0 {
        var t := ts[i - 1];
        assert ([trade] + ts)[i] == t;
        var c := t.counterpartyOrderId - 1;
        assert c in cands[1..];
        assert SameTerms(book[j], book'[j]) && SameTerms(book[c], book'[c]);
        if j != cands[0] {
          assert j in cands[1..] && AheadOfTrade(book', side, j, t);
        }
      }
    }
  }

  /** One step of `MatchFromPriority`: a trade with the head candidate put in
      front of trades with later candidates that are already in walk order. */
  lemma PriorityStep(book: seq<Order>, book': seq<Order>, side: OrderType, cands: seq<nat>, trade: Trade, ts: seq<Trade>)
    requires InRange(book, cands) && |cands| > 0 && SortedBy(book, side, cands)
    requires |book'| == |book| && forall j :: 0 <= j < |book| ==> SameTerms(book[j], book'[j])
    requires trade.counterpartyOrderId - 1 == cands[0]
    requires forall i :: 0 <= i < |ts| ==> ts[i].counterpartyOrderId - 1 in cands[1..]
    requires forall i, i' :: 0 <= i < i' < |ts| ==> MetBefore(book', side, ts[i], ts[i'])
    ensures forall i, i' :: 0 <= i < i' < |ts| + 1 ==> MetBefore(book, side, ([trade] + ts)[i], ([trade] + ts)[i'])
  {
    forall i, i' | 0 <= i < i' < |ts| + 1
      ensures MetBefore(book, side, ([trade] + ts)[i], ([trade] + ts)[i'])
    {
      var t' := ts[i' - 1];
      assert ([trade] + ts)[i'] == t';
      var c' := t'.counterpartyOrderId - 1;
      assert c' in cands[1..];
      var m :| 0 <= m < |cands[1..]| && cands[1..][m] == c';
      assert cands[m + 1] == c';
      if i == 0 {
        assert Ahead(side, book[cands[0]], book[cands[m + 1]]);
      } else {
        assert ([trade] + ts)[i] == ts[i - 1];
        assert MetBefore(book', side, ts[i - 1], t');
        var c := ts[i - 1].counterpartyOrderId - 1;
        assert SameTerms(book[c], book'[c]) && SameTerms(book[c'], book'[c']);
      }
    }
  }

  /** The walk stops early only when the incoming order is done: if something
      is left to match afterwards, every candidate has been filled completely. */
  lemma {:induction false} MatchFromExhausts(book: seq<Order>, pos: nat, cands: seq<nat>, remaining: real, tradeId: int, now: int)
    requires pos < |book| && InRange(book, cands) && pos !in cands
    requires WellFormed(book) && Distinct(cands)
    ensures var b, ts := BookAfter(book, pos, cands, remaining, tradeId, now), TradesAfter(book, pos, cands, remaining, tradeId, now);
      remaining > 0.0 && SumQty(ts) < remaining ==>
        forall k :: k in cands ==> b[k].filledQuantity >= b[k].quantity
    decreases |cands|
  {
    if cands == [] || remaining <= 0.0 {
    } else {
      var k := cands[0];
      var resting := book[k];
      var qty := Min(remaining, Unfilled(resting));
      assert Distinct(cands[1..]);
      HeadNotInTail(cands);
      assert forall x :: x in cands <==> x == k || x in cands[1..];
      if qty <= 0.0 {
        MatchFromExhausts(book, pos, cands[1..], remaining, tradeId, now);
        MatchFromFrame(book, pos, cands[1..], remaining, tradeId, now);
      } else {
        var book' := Fill(book, pos, k, qty);
        var trade := Trade(tradeId, book[pos].id, resting.id, resting.price, qty, now);
        FillKeepsTerms(book, pos, k, qty);
        MatchFromExhausts(book', pos, cands[1..], remaining - qty, tradeId + 1, now);
        MatchFromFrame(book', pos, cands[1..], remaining - qty, tradeId + 1, now);
        var b, ts := BookAfter(book', pos, cands[1..], remaining - qty, tradeId + 1, now), TradesAfter(book', pos, cands[1..], remaining - qty, tradeId + 1, now);
        assert MatchFrom(book, pos, cands, remaining, tradeId, now) == (b, [trade] + ts);
        assert SumQty([trade] + ts) == qty + SumQty(ts);
      }
    }
  }
}
