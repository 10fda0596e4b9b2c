/** The price levels of `get_order_book_snapshot` (database/order_book.py).

    The quantity resting at a price on one side of one commodity is
    `Depth`, defined over the order table row by row; `LevelPrices` is the
    set of prices with at least one resting order. The loop that fills the
    `bids`/`asks` dictionaries is `Aggregate`, proved to compute exactly
    these, and the sorted lists are built by `SortLevels`. */
module Levels {
  import opened OrderModel
  import opened Matching

  /** One entry of `bids_list` or `asks_list`. */
  datatype Level = Level(price: real, quantity: real)

  /** An order that the snapshot query of side `side` returns for commodity `c`. */
  predicate Resting(o: Order, c: int, side: OrderType)
  {
    o.commodityId == c && o.orderType == side && IsActive(o.status)
  }

  /** What order `o` adds to the level at price `p`. */
  function Share(o: Order, c: int, side: OrderType, p: real): real
  {
    if Resting(o, c, side) && o.price == p then Unfilled(o) else 0.0
  }

  /** Quantity still to fill over the resting orders at price `p`. */
  function Depth(book: seq<Order>, c: int, side: OrderType, p: real): real
    decreases |book|
  {
    if book == [] then 0.0
    else Depth(book[..|book| - 1], c, side, p) + Share(book[|book| - 1], c, side, p)
  }

  /** The prices at which some order rests. */
  function LevelPrices(book: seq<Order>, c: int, side: OrderType): (r: set<real>)
    ensures forall p :: p in r <==> exists j :: 0 <= j < |book| && Resting(book[j], c, side) && book[j].price == p
    decreases |book|
  {
    if book == [] then {}
    else
      var prefix := book[..|book| - 1];
      var last := book[|book| - 1];
      assert forall j :: 0 <= j < |prefix| ==> prefix[j] == book[j];
      var r := LevelPrices(prefix, c, side);
      if Resting(last, c, side) then r + {last.price} else r
  }

  /** Extending a prefix of the table by one row adds that row's share. */
  lemma PrefixStep(book: seq<Order>, n: nat, c: int, side: OrderType)
    requires 0 < n <= |book|
    ensures LevelPrices(book[..n], c, side)
            == LevelPrices(book[..n - 1], c, side) + (if Resting(book[n - 1], c, side) then {book[n - 1].price} else {})
    ensures forall p :: Depth(book[..n], c, side, p) == Depth(book[..n - 1], c, side, p) + Share(book[n - 1], c, side, p)
  {
    assert book[..n][..n - 1] == book[..n - 1] && book[..n][n - 1] == book[n - 1];
  }

  /** `levels` holds an entry for exactly the prices with a resting order
      in `book`, each equal to the depth at that price. */
  ghost predicate Aggregates(levels: map<real, real>, book: seq<Order>, c: int, side: OrderType)
  {
    && levels.Keys == LevelPrices(book, c, side)
    && (forall p :: p in levels ==> levels[p] == Depth(book, c, side, p))
    && (forall p :: p !in levels ==> Depth(book, c, side, p) == 0.0)
  }

  /** The body of the aggregation loop: a resting order's unfilled quantity
      is added to the entry of its price, which is created if missing. */
  function AddToLevel(levels: map<real, real>, o: Order, c: int, side: OrderType): map<real, real>
  {
    if !Resting(o, c, side) then levels
    else if o.price in levels then levels[o.price := levels[o.price] + Unfilled(o)]
    else levels[o.price := Unfilled(o)]
  }

  /** One iteration extends what the dictionary describes by one row. */
  lemma AggregateStep(levels: map<real, real>, book: seq<Order>, n: nat, c: int, side: OrderType)
    requires 0 < n <= |book| && Aggregates(levels, book[..n - 1], c, side)
    ensures Aggregates(AddToLevel(levels, book[n - 1], c, side), book[..n], c, side)
  {
    PrefixStep(book, n, c, side);
  }

  /** The aggregation loops of the snapshot for one side: each resting
      order's unfilled quantity is added to the entry of its price. The
      dictionary has one entry per price that has a resting order, holding
      the depth at that price. */
  method Aggregate(book: seq<Order>, c: int, side: OrderType) returns (levels: map<real, real>)
    ensures levels.Keys == LevelPrices(book, c, side)
    ensures forall p :: p in levels ==> levels[p] == Depth(book, c, side, p)
  {
    levels := map[];
    var i := 0;
    while i < |book|
      invariant 0 <= i <= |book|
      invariant Aggregates(levels, book[..i], c, side)
    {
      AggregateStep(levels, book, i + 1, c, side);
      levels := AddToLevel(levels, book[i], c, side);
      i := i + 1;
    }
    assert book[..i] == book;
  }

  /** Whether price `a` is listed before price `b`: bids descending, asks
      ascending. */
  predicate Precedes(a: real, b: real, descending: bool)
  {
    if descending then a > b else a < b
  }

  /** Strictly sorted, so no price is listed twice. */
  predicate Ordered(s: seq<Level>, descending: bool)
  {
    forall i, j :: 0 <= i < j < |s| ==> Precedes(s[i].price, s[j].price, descending)
  }

  /** Inserts a level at its place in a sorted list. */
  function InsertLevel(s: seq<Level>, l: Level, descending: bool): (r: seq<Level>)
    ensures forall m :: m in r <==> m == l || m in s
    ensures |r| == |s| + 1
  {
    if s == [] || Precedes(l.price, s[0].price, descending) then [l] + s
    else
      assert forall m :: m in s <==> m == s[0] || m in s[1..];
      [s[0]] + InsertLevel(s[1..], l, descending)
  }

  /** Insertion of a new price keeps a list strictly sorted. */
  lemma {:induction false} InsertLevelOrdered(s: seq<Level>, l: Level, descending: bool)
    requires Ordered(s, descending)
    requires forall m :: m in s ==> m.price != l.price
    ensures Ordered(InsertLevel(s, l, descending), descending)
  {
    var r := InsertLevel(s, l, descending);
    if s == [] || Precedes(l.price, s[0].price, descending) {
      forall i, j | 0 <= i < j < |r| ensures Precedes(r[i].price, r[j].price, descending) {
        if i == 0 && j > 1 {
          assert Precedes(s[0].price, s[j - 1].price, descending);
        }
      }
    } else {
      var rest := InsertLevel(s[1..], l, descending);
      assert r == [s[0]] + rest;
      assert Ordered(s[1..], descending) by {
        forall i, j | 0 <= i < j < |s[1..]| ensures Precedes(s[1..][i].price, s[1..][j].price, descending) {
          assert s[1..][i] == s[i + 1] && s[1..][j] == s[j + 1];
        }
      }
      InsertLevelOrdered(s[1..], l, descending);
      assert s[0] in s;
      forall i, j | 0 <= i < j < |r| ensures Precedes(r[i].price, r[j].price, descending) {
        if i == 0 {
          assert r[j] in rest;
          if r[j] != l {
            var m :| 0 <= m < |s[1..]| && s[1..][m] == r[j];
            assert s[m + 1] == r[j];
          }
        } else {
          assert r[i] == rest[i - 1] && r[j] == rest[j - 1];
        }
      }
    }
  }

  lemma SomePrice(s: set<real>)
    ensures s == {} || exists p :: p in s
  {
    if !(exists p :: p in s) {
      assert s == {};
    }
  }

  /** `sorted(d.items(), key=price, reverse=descending)` as a list of levels:
      exactly the entries of the dictionary, strictly sorted by price. */
  method SortLevels(levels: map<real, real>, descending: bool) returns (s: seq<Level>)
    ensures Ordered(s, descending)
    ensures forall l :: l in s <==> l.price in levels && l.quantity == levels[l.price]
  {
    s := [];
    var rest := levels.Keys;
    while rest != {}
      invariant rest <= levels.Keys
      invariant Ordered(s, descending)
      invariant forall l :: l in s <==> l.price in levels && l.price !in rest && l.quantity == levels[l.price]
      decreases |rest|
    {
      SomePrice(rest);
      var p :| p in rest;
      var l := Level(p, levels[p]);
      InsertLevelOrdered(s, l, descending);
      s := InsertLevel(s, l, descending);
      rest := rest - {p};
    }
  }

  /** `levels` lists exactly the prices with a resting order on that side,
      each with the depth at that price. */
  ghost predicate DescribesSide(book: seq<Order>, c: int, side: OrderType, levels: seq<Level>)
  {
    forall l :: l in levels <==> l.price in LevelPrices(book, c, side) && l.quantity == Depth(book, c, side, l.price)
  }

  /** Changing one row changes the depth at each price by the difference of
      the two rows' shares and nothing else. */
  lemma {:induction false} DepthUpdate(book: seq<Order>, i: nat, o: Order, c: int, side: OrderType, p: real)
    requires i < |book|
    ensures Depth(book[i := o], c, side, p) == Depth(book, c, side, p) - Share(book[i], c, side, p) + Share(o, c, side, p)
    decreases |book|
  {
    var b := book[i := o];
    var n := |book| - 1;
    if i < n {
      assert b[..n] == book[..n][i := o];
      DepthUpdate(book[..n], i, o, c, side, p);
    } else {
      assert b[..n] == book[..n];
    }
  }

  /** When every resting order still has something to fill, every listed
      level has a positive quantity. */
  lemma {:induction false} DepthPositive(book: seq<Order>, c: int, side: OrderType, p: real)
    requires forall j :: 0 <= j < |book| && Resting(book[j], c, side) ==> book[j].filledQuantity < book[j].quantity
    ensures p in LevelPrices(book, c, side) ==> Depth(book, c, side, p) > 0.0
    ensures p !in LevelPrices(book, c, side) ==> Depth(book, c, side, p) == 0.0
    decreases |book|
  {
    if book != [] {
      var n := |book| - 1;
      assert forall j :: 0 <= j < n ==> book[..n][j] == book[j];
      DepthPositive(book[..n], c, side, p);
      DepthNonNegative(book[..n], c, side, p);
    }
  }

  /** With no resting order over-filled, no depth is negative. */
  lemma {:induction false} DepthNonNegative(book: seq<Order>, c: int, side: OrderType, p: real)
    requires forall j :: 0 <= j < |book| && Resting(book[j], c, side) ==> book[j].filledQuantity <= book[j].quantity
    ensures Depth(book, c, side, p) >= 0.0
    decreases |book|
  {
    if book != [] {
      var n := |book| - 1;
      assert forall j :: 0 <= j < n ==> book[..n][j] == book[j];
      DepthNonNegative(book[..n], c, side, p);
    }
  }
}
