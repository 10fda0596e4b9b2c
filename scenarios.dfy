/** The two order-book scenarios of test_order_book.py, worked through the
    specification `Place`. Each `add_order` call on a book whose clock reads
    `t` stamps the order `t` and the trades `t + 1`, and leaves the clock at
    `t + 2` (`OrderBookEngine.OrderBook.AddOrder`). */
module Scenarios {
  import opened OrderModel
  import opened Matching
  import opened Levels
  import opened OrderBookEngine

  /** Gold: a buy of 10 at 1900 rests; a sell of 5 at 1890 then trades 5
      at the resting buy's price 1900, leaving the buy PARTIAL with 5 filled
      and the sell FILLED. */
  lemma GoldScenario()
    ensures var buy := NewOrder(1, 1, Buy, 1900.0, 10.0);
      var sell := NewOrder(2, 1, Sell, 1890.0, 5.0);
      var p1 := Place([], buy, 1, 0, 1);
      var p2 := Place(p1.book, sell, 1, 2, 3);
      && p1.trades == []
      && p2.trades == [Trade(1, 2, 1, 1900.0, 5.0, 3)]
      && p2.book[0].status == Partial && p2.book[0].filledQuantity == 5.0
      && p2.book[1].status == Filled && p2.book[1].filledQuantity == 5.0
  {
    var buy := NewOrder(1, 1, Buy, 1900.0, 10.0);
    var sell := NewOrder(2, 1, Sell, 1890.0, 5.0);
    var b0 := [Stored([], buy, 0)];
    assert MatchableIndices(b0, 0, 1) == [];
    var p1 := Place([], buy, 1, 0, 1);
    assert p1.book == b0;
    var b1 := b0 + [Stored(b0, sell, 2)];
    assert MatchableIndices(b1, 1, 2) == [0] by {
      assert MatchableIndices(b1, 1, 1) == [0];
    }
    assert Candidates(b1, 1) == [0];
    MatchOne(b1, 1, 0, 5.0, 1, 3);
  }

  function SilverBuy(): Order { NewOrder(1, 2, Buy, 25.0, 20.0) }
  function SilverSell1(): Order { NewOrder(2, 2, Sell, 24.5, 10.0) }
  function SilverSell2(): Order { NewOrder(3, 2, Sell, 24.8, 15.0) }

  /** The silver table after the first sell. */
  function SilverBook2(): seq<Order>
  {
    [Order(1, 1, 2, Buy, Partial, 25.0, 20.0, 10.0, 0), Order(2, 2, 2, Sell, Filled, 24.5, 10.0, 10.0, 2)]
  }

  /** The silver table after the second sell. */
  function SilverBook3(): seq<Order>
  {
    SilverBook2()[0 := SilverBook2()[0].(status := Filled, filledQuantity := 20.0)]
      + [Order(3, 3, 2, Sell, Partial, 24.8, 15.0, 10.0, 4)]
  }

  /** The silver buy meets an empty book and rests. */
  lemma SilverBuyRests()
    ensures Place([], SilverBuy(), 1, 0, 1) == Placement([Stored([], SilverBuy(), 0)], [])
  {
    var b0 := [Stored([], SilverBuy(), 0)];
    assert MatchableIndices(b0, 0, 1) == [];
  }

  /** The only candidate of the first sell is the resting buy. */
  lemma SilverFirstCandidates()
    ensures var b0 := [Stored([], SilverBuy(), 0)];
      Candidates(b0 + [Stored(b0, SilverSell1(), 2)], 1) == [0]
  {
    var b0 := [Stored([], SilverBuy(), 0)];
    var b1 := b0 + [Stored(b0, SilverSell1(), 2)];
    assert MatchableIndices(b1, 1, 2) == [0] by {
      assert MatchableIndices(b1, 1, 1) == [0];
    }
  }

  lemma SilverFirstSell()
    ensures var p1 := Place([], SilverBuy(), 1, 0, 1);
      && p1.trades == []
      && Place(p1.book, SilverSell1(), 1, 2, 3) == Placement(SilverBook2(), [Trade(1, 2, 1, 25.0, 10.0, 3)])
  {
    SilverBuyRests();
    SilverFirstCandidates();
    var b0 := [Stored([], SilverBuy(), 0)];
    var b1 := b0 + [Stored(b0, SilverSell1(), 2)];
    MatchOne(b1, 1, 0, 10.0, 1, 3);
    var m := Fill(b1, 1, 0, 10.0);
    var settled := m[1 := m[1].(status := Filled)];
    assert Place(b0, SilverSell1(), 1, 2, 3) == Placement(settled, [Trade(1, 2, 1, 25.0, 10.0, 3)]);
    assert settled == SilverBook2() by {
      assert settled[0] == SilverBook2()[0] && settled[1] == SilverBook2()[1];
    }
  }

  /** The only candidate of the second sell is the resting buy. */
  lemma SilverSecondCandidates()
    ensures Candidates(SilverBook2() + [Stored(SilverBook2(), SilverSell2(), 4)], 2) == [0]
  {
    var b2 := SilverBook2() + [Stored(SilverBook2(), SilverSell2(), 4)];
    assert MatchableIndices(b2, 2, 3) == [0] by {
      assert MatchableIndices(b2, 2, 1) == [0];
      assert MatchableIndices(b2, 2, 2) == [0];
    }
  }

  lemma SilverSecondSell()
    ensures Place(SilverBook2(), SilverSell2(), 2, 4, 5) == Placement(SilverBook3(), [Trade(2, 3, 1, 25.0, 10.0, 5)])
  {
    var b2 := SilverBook2() + [Stored(SilverBook2(), SilverSell2(), 4)];
    SilverSecondCandidates();
    MatchOne(b2, 2, 0, 15.0, 2, 5);
    var m := Fill(b2, 2, 0, 10.0);
    var settled := m[2 := m[2].(status := Partial)];
    assert Place(SilverBook2(), SilverSell2(), 2, 4, 5) == Placement(settled, [Trade(2, 3, 1, 25.0, 10.0, 5)]);
    assert settled == SilverBook3() by {
      assert settled[0] == SilverBook3()[0] && settled[1] == SilverBook3()[1] && settled[2] == SilverBook3()[2];
    }
  }

  lemma SilverLevels()
    ensures LevelPrices(SilverBook3(), 2, Buy) == {}
    ensures LevelPrices(SilverBook3(), 2, Sell) == {24.8}
    ensures Depth(SilverBook3(), 2, Sell, 24.8) == 5.0
  {
    var book := SilverBook3();
    assert book[..2][..1] == book[..1] && book[..3][..2] == book[..2] && book[..3] == book;
    assert LevelPrices(book[..1], 2, Sell) == {} && LevelPrices(book[..2], 2, Sell) == {};
    assert Depth(book[..1], 2, Sell, 24.8) == 0.0 && Depth(book[..2], 2, Sell, 24.8) == 0.0;
  }

  /** Silver: a buy of 20 at 25 rests; a sell of 10 at 24.5 trades 10 at 25;
      a sell of 15 at 24.8 trades the other 10 at 25. The buy ends FILLED,
      and the book's only silver level is an ask of 5 at 24.8.

      The script runs this scenario after the gold one on the same database,
      so there its orders are ids 3-5 and its trades ids 2-3. Here it starts
      from an empty book (orders 1-3, trades 1-2): the gold orders are of
      another commodity and never candidates, so prices, quantities,
      statuses and levels are the same. */
  lemma SilverScenario()
    ensures var p1 := Place([], SilverBuy(), 1, 0, 1);
      var p2 := Place(p1.book, SilverSell1(), 1, 2, 3);
      var p3 := Place(p2.book, SilverSell2(), 2, 4, 5);
      && p1.trades == []
      && p2.trades == [Trade(1, 2, 1, 25.0, 10.0, 3)]
      && p3.trades == [Trade(2, 3, 1, 25.0, 10.0, 5)]
      && p3.book[0].status == Filled && p3.book[0].filledQuantity == 20.0
      && p3.book[1].status == Filled
      && p3.book[2].status == Partial && p3.book[2].filledQuantity == 10.0
      && LevelPrices(p3.book, 2, Buy) == {}
      && LevelPrices(p3.book, 2, Sell) == {24.8}
      && Depth(p3.book, 2, Sell, 24.8) == 5.0
  {
    SilverFirstSell();
    SilverSecondSell();
    SilverLevels();
  }
}
