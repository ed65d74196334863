/** The per-instrument order book as an object: two time-ordered sequences of
    resting market orders that `AddOrderAndExecuteTrade` updates in place.
    Every method is proved against the reference semantics in `Matching`. */
module OrderBooks {
  import opened Wrappers
  import opened Matching

  /** Whether an order with `id` rests on `side` (a linear scan). */
  method ContainsId(side: seq<Resting>, id: OrderId) returns (found: bool)
    ensures found <==> HasId(side, id)
  {
    var i := 0;
    while i < |side|
      invariant 0 <= i <= |side|
      invariant forall j :: 0 <= j < i ==> side[j].order.id != id
    {
      if side[i].order.id == id {
        assert side[i] in side;
        return true;
      }
      i := i + 1;
    }
    return false;
  }

  /** `side` with `r` placed behind every entry it does not beat. */
  method InsertResting(side: seq<Resting>, r: Resting) returns (res: seq<Resting>)
    ensures res == InsertByPriority(side, r)
  {
    var i := 0;
    while i < |side| && !Before(r, side[i])
      invariant 0 <= i <= |side|
      invariant forall j :: 0 <= j < i ==> !Before(r, side[j])
    {
      i := i + 1;
    }
    InsertAt(side, r, i);
    res := side[..i] + [r] + side[i..];
  }

  /** One match of `o` against the best opposite order: the trade, the
      opposite side after the fill and the own side with any remainder of `o`
      rested under arrival number `arrival`. */
  method MatchBest(own: seq<Resting>, opposite: seq<Resting>, o: Order, arrival: nat)
    returns (own': seq<Resting>, opposite': seq<Resting>, trade: Trade)
    requires opposite != []
    ensures var q := Min(o.quantity, opposite[0].remaining);
      && trade == MakeTrade(o, opposite[0].order, q)
      && opposite' == FillBest(opposite, q)
      && own' == RestAfter(own, o, q, arrival)
  {
    var best := opposite[0];
    var q := Min(o.quantity, best.remaining);
    if q == best.remaining {
      opposite' := opposite[1..];
    } else {
      opposite' := opposite[0 := best.(remaining := best.remaining - q)];
      assert opposite' == [best.(remaining := best.remaining - q)] + opposite[1..];
    }
    own' := own;
    if q != o.quantity {
      own' := InsertResting(own, Resting(o, o.quantity - q, arrival));
    }
    trade := if o.side == Buy then Trade(o, best.order, q, MarketPrice)
             else Trade(best.order, o, q, MarketPrice);
  }

  class OrderBook {
    var bids: seq<Resting>
    var asks: seq<Resting>
    var nextArrival: nat

    ghost function State(): Book
      reads this
    {
      Book(bids, asks, nextArrival)
    }

    ghost predicate Valid()
      reads this
    {
      Matching.Valid(State())
    }

    constructor ()
      ensures Valid() && State() == EmptyBook
    {
      bids, asks, nextArrival := [], [], 0;
    }

    /** Rejects an id already resting; otherwise matches the order against
        the best opposite order (at most one trade) and rests what is left. */
    method AddOrderAndExecuteTrade(o: Order) returns (r: Result<Option<Trade>, BookError>)
      requires Valid()
      requires o.quantity > 0.0
      modifies this
      ensures Valid()
      ensures Step(State(), r) == Submit(old(State()), o)
    {
      ghost var before := State();
      ghost var step := Submit(before, o);
      SubmitPreservesValid(before, o);
      var inBids := ContainsId(bids, o.id);
      var inAsks := ContainsId(asks, o.id);
      if inBids || inAsks {
        return Failure(DuplicateOrder(o.id));
      }
      var own := if o.side == Buy then bids else asks;
      var opposite := if o.side == Buy then asks else bids;
      var incoming := Resting(o, o.quantity, nextArrival);
      if opposite == [] {
        own := InsertResting(own, incoming);
        r := Success(None);
      } else {
        var trade;
        own, opposite, trade := MatchBest(own, opposite, o, nextArrival);
        r := Success(Some(trade));
      }
      assert step == Step(WithSides(o.side, own, opposite, nextArrival + 1), r);
      if o.side == Buy {
        bids, asks := own, opposite;
      } else {
        bids, asks := opposite, own;
      }
      nextArrival := nextArrival + 1;
      assert State() == step.book;
    }

    /** The front of the asks: the earliest-created sell order. */
    method GetLowestAsk() returns (r: Option<Order>)
      requires Valid()
      ensures r.None? <==> asks == []
      ensures r.Some? ==> r.value == asks[0].order && r.value.side == Sell
      ensures r.Some? ==> forall x :: x in asks ==> r.value.createdTime <= x.order.createdTime
    {
      if asks == [] {
        return None;
      }
      BestComesFirst(State());
      forall x | x in asks ensures asks[0].order.createdTime <= x.order.createdTime {
        var k :| 0 <= k < |asks| && asks[k] == x;
      }
      assert asks[0] in asks;
      return Some(asks[0].order);
    }

    /** The front of the bids: the earliest-created buy order. */
    method GetHighestBid() returns (r: Option<Order>)
      requires Valid()
      ensures r.None? <==> bids == []
      ensures r.Some? ==> r.value == bids[0].order && r.value.side == Buy
      ensures r.Some? ==> forall x :: x in bids ==> r.value.createdTime <= x.order.createdTime
    {
      if bids == [] {
        return None;
      }
      BestComesFirst(State());
      forall x | x in bids ensures bids[0].order.createdTime <= x.order.createdTime {
        var k :| 0 <= k < |bids| && bids[k] == x;
      }
      assert bids[0] in bids;
      return Some(bids[0].order);
    }
  }
}
