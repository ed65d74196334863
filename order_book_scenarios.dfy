/** The order-book scenarios of OrderBookTest, each run against a fresh
    `OrderBook` and stated as the outcome the test expects. Creation times
    produced by back-to-back clock reads are parameters that only need to be
    non-decreasing; ids are those of the tests. */
module OrderBookScenarios {
  import opened Wrappers
  import opened Matching
  import opened OrderBooks

  /** One buy on an empty book returns no trade and rests as the best bid. */
  method OneMarketBuyOrder(t: int) returns (r: Result<Option<Trade>, BookError>, best: Option<Order>)
    ensures r == Success(None)
    ensures best == Some(Order("b", Buy, 10.0, t))
  {
    var book := new OrderBook();
    r := book.AddOrderAndExecuteTrade(Order("b", Buy, 10.0, t));
    best := book.GetHighestBid();
  }

  /** Buy 10 then sell 10: one trade of 10 at price 0, and an empty book. */
  method OneBuyOneSell(t: int) returns (r: Result<Option<Trade>, BookError>, resting: nat)
    ensures r == Success(Some(Trade(Order("b", Buy, 10.0, t), Order("s", Sell, 10.0, t), 10.0, 0.0)))
    ensures resting == 0
  {
    var book := new OrderBook();
    var buy := Order("b", Buy, 10.0, t);
    var sell := Order("s", Sell, 10.0, t);
    var _ := book.AddOrderAndExecuteTrade(buy);
    r := book.AddOrderAndExecuteTrade(sell);
    resting := |book.bids| + |book.asks|;
  }

  /** Two asks one millisecond apart: the older is the lowest ask whichever
      of the two was added first. */
  method LowestAskOfTwo(t: int, addedInReverse: bool) returns (lowest: Option<Order>)
    ensures lowest == Some(Order("first", Sell, 10.0, t))
  {
    var book := new OrderBook();
    var first := Order("first", Sell, 10.0, t);
    var second := Order("second", Sell, 10.0, t + 1);
    if addedInReverse {
      var _ := book.AddOrderAndExecuteTrade(second);
      var _ := book.AddOrderAndExecuteTrade(first);
    } else {
      var _ := book.AddOrderAndExecuteTrade(first);
      var _ := book.AddOrderAndExecuteTrade(second);
    }
    lowest := book.GetLowestAsk();
  }

  /** Two bids one millisecond apart: the older is the highest bid whichever
      of the two was added first. */
  method HighestBidOfTwo(t: int, addedInReverse: bool) returns (highest: Option<Order>)
    ensures highest == Some(Order("older", Buy, 10.0, t))
  {
    var book := new OrderBook();
    var older := Order("older", Buy, 10.0, t);
    var newer := Order("newer", Buy, 10.0, t + 1);
    if addedInReverse {
      var _ := book.AddOrderAndExecuteTrade(newer);
      var _ := book.AddOrderAndExecuteTrade(older);
    } else {
      var _ := book.AddOrderAndExecuteTrade(older);
      var _ := book.AddOrderAndExecuteTrade(newer);
    }
    highest := book.GetHighestBid();
  }

  /** Buy 10 against a smaller ask of 5: the trade is for the ask's 5. */
  method BuyAgainstSmallerAsk(t1: int, t2: int) returns (r: Result<Option<Trade>, BookError>)
    requires t1 <= t2
    ensures r == Success(Some(Trade(Order("b", Buy, 10.0, t1), Order("s1", Sell, 5.0, t2), 5.0, 0.0)))
  {
    var book := new OrderBook();
    var _ := book.AddOrderAndExecuteTrade(Order("b", Buy, 10.0, t1));
    r := book.AddOrderAndExecuteTrade(Order("s1", Sell, 5.0, t2));
  }

  /** Buy 10, then two asks of 1: the partly filled bid keeps resting and the
      second ask trades 1 against it, leaving it alone in the bids with 8. */
  method BuyAgainstTwoSmallerAsks(t1: int, t2: int, t3: int)
    returns (r: Result<Option<Trade>, BookError>, bids: seq<Resting>)
    requires t1 <= t2 <= t3
    ensures r == Success(Some(Trade(Order("b", Buy, 10.0, t1), Order("s2", Sell, 1.0, t3), 1.0, 0.0)))
    ensures bids == [Resting(Order("b", Buy, 10.0, t1), 8.0, 0)]
  {
    var book := new OrderBook();
    var buy := Order("b", Buy, 10.0, t1);
    var _ := PlaceLaterBuy(book, buy);
    var _ := PlacePartialSell(book, Resting(buy, 10.0, 0), [], Order("s1", Sell, 1.0, t2));
    r := PlacePartialSell(book, Resting(buy, 9.0, 0), [], Order("s2", Sell, 1.0, t3));
    bids := book.bids;
  }

  /** Places a buy created no earlier than every resting bid on a book with
      no asks: it queues last, with its full quantity, and trades nothing. */
  method PlaceLaterBuy(book: OrderBook, buy: Order) returns (r: Result<Option<Trade>, BookError>)
    requires book.Valid() && book.asks == []
    requires buy.side == Buy && buy.quantity > 0.0
    requires forall x :: x in book.bids ==> x.order.id != buy.id && x.order.createdTime <= buy.createdTime
    modifies book
    ensures book.Valid() && book.asks == []
    ensures book.bids == old(book.bids) + [Resting(buy, buy.quantity, old(book.nextArrival))]
    ensures book.nextArrival == old(book.nextArrival) + 1
    ensures r == Success(None)
  {
    LaterBuyQueuesLast(book.bids, buy, book.nextArrival);
    r := book.AddOrderAndExecuteTrade(buy);
  }

  /** Places a sell smaller than the best bid on a book with no asks: it
      trades all of itself against that bid, which stays in front. */
  method PlacePartialSell(book: OrderBook, best: Resting, later: seq<Resting>, sell: Order)
    returns (r: Result<Option<Trade>, BookError>)
    requires book.Valid() && book.asks == [] && book.bids == [best] + later
    requires sell.side == Sell && 0.0 < sell.quantity < best.remaining
    requires best.order.id != sell.id
    requires forall x :: x in later ==> x.order.id != sell.id
    modifies book
    ensures book.Valid() && book.asks == []
    ensures book.bids == [best.(remaining := best.remaining - sell.quantity)] + later
    ensures book.nextArrival == old(book.nextArrival) + 1
    ensures r == Success(Some(Trade(best.order, sell, sell.quantity, MarketPrice)))
  {
    SellPartlyFillsBestBid(best, later, sell, book.nextArrival);
    r := book.AddOrderAndExecuteTrade(sell);
  }

  /** The opening of the series below: bid 10, ask 5, then bids 6 and 6
      queue behind the half-filled first bid. */
  method ComplexSeriesOpening(book: OrderBook, t1: int, t2: int, t3: int, t4: int)
    requires t1 <= t2 <= t3 <= t4
    requires book.Valid() && book.State() == EmptyBook
    modifies book
    ensures book.Valid() && book.asks == [] && book.nextArrival == 4
    ensures book.bids == [Resting(Order("b1", Buy, 10.0, t1), 5.0, 0),
                          Resting(Order("b2", Buy, 6.0, t3), 6.0, 2),
                          Resting(Order("b3", Buy, 6.0, t4), 6.0, 3)]
  {
    var bid1 := Order("b1", Buy, 10.0, t1);
    var _ := PlaceLaterBuy(book, bid1);
    var _ := PlacePartialSell(book, Resting(bid1, 10.0, 0), [], Order("a1", Sell, 5.0, t2));
    var _ := PlaceLaterBuy(book, Order("b2", Buy, 6.0, t3));
    var _ := PlaceLaterBuy(book, Order("b3", Buy, 6.0, t4));
  }

  /** Bid 10, ask 5, bids 6 and 6, asks 0.5, 0.25 and 0.1: the partly filled
      first bid keeps priority over the later bids, the last ask trades
      exactly 0.1 against it, and the bids end as b1 with 4.15, then b2 and
      b3 untouched. */
  method ComplexSeries(t1: int, t2: int, t3: int, t4: int, t5: int, t6: int, t7: int)
    returns (r: Result<Option<Trade>, BookError>, bids: seq<Resting>)
    requires t1 <= t2 <= t3 <= t4 <= t5 <= t6 <= t7
    ensures r == Success(Some(Trade(Order("b1", Buy, 10.0, t1), Order("a4", Sell, 0.1, t7), 0.1, 0.0)))
    ensures bids == [Resting(Order("b1", Buy, 10.0, t1), 4.15, 0),
                     Resting(Order("b2", Buy, 6.0, t3), 6.0, 2),
                     Resting(Order("b3", Buy, 6.0, t4), 6.0, 3)]
  {
    var book := new OrderBook();
    ComplexSeriesOpening(book, t1, t2, t3, t4);
    var bid1 := Order("b1", Buy, 10.0, t1);
    var rest := [Resting(Order("b2", Buy, 6.0, t3), 6.0, 2), Resting(Order("b3", Buy, 6.0, t4), 6.0, 3)];
    assert book.bids == [Resting(bid1, 5.0, 0)] + rest;
    var _ := PlacePartialSell(book, Resting(bid1, 5.0, 0), rest, Order("a2", Sell, 0.5, t5));
    var _ := PlacePartialSell(book, Resting(bid1, 4.5, 0), rest, Order("a3", Sell, 0.25, t6));
    r := PlacePartialSell(book, Resting(bid1, 4.25, 0), rest, Order("a4", Sell, 0.1, t7));
    bids := book.bids;
  }

  /** Bid 1 then a later ask of 2: the trade is for the bid's 1. */
  method EscalatingSeries1(t: int) returns (r: Result<Option<Trade>, BookError>)
    ensures r == Success(Some(Trade(Order("bid1", Buy, 1.0, t), Order("ask1", Sell, 2.0, t + 1), 1.0, 0.0)))
  {
    var book := new OrderBook();
    var _ := book.AddOrderAndExecuteTrade(Order("bid1", Buy, 1.0, t));
    r := book.AddOrderAndExecuteTrade(Order("ask1", Sell, 2.0, t + 1));
  }

  /** Bid 1, ask 2, bid 3, ask 4: the unfilled remainders rest, so the last
      ask meets the 2 left of the second bid. */
  method EscalatingSeries2(t: int) returns (r: Result<Option<Trade>, BookError>)
    ensures r == Success(Some(Trade(Order("bid2", Buy, 3.0, t + 2), Order("ask2", Sell, 4.0, t + 3), 2.0, 0.0)))
  {
    var book := new OrderBook();
    var _ := book.AddOrderAndExecuteTrade(Order("bid1", Buy, 1.0, t));
    var _ := book.AddOrderAndExecuteTrade(Order("ask1", Sell, 2.0, t + 1));
    var _ := book.AddOrderAndExecuteTrade(Order("bid2", Buy, 3.0, t + 2));
    r := book.AddOrderAndExecuteTrade(Order("ask2", Sell, 4.0, t + 3));
  }

  /** The same order submitted twice: the second call fails with a duplicate
      naming the id, and the book still holds exactly one order. */
  method DuplicateOrder(id: OrderId, side: Side, t: int)
    returns (r: Result<Option<Trade>, BookError>, resting: nat)
    ensures r == Failure(BookError.DuplicateOrder(id))
    ensures Message(r.error) == "Duplicate order. id:" + id
    ensures resting == 1
  {
    var book := new OrderBook();
    var order := Order(id, side, 10.0, t);
    var _ := book.AddOrderAndExecuteTrade(order);
    r := book.AddOrderAndExecuteTrade(order);
    resting := |book.bids| + |book.asks|;
  }
}
