/** Reference semantics of the per-instrument order book: one call of
    `addOrderAndExecuteTrade` as a function from the old book and the incoming
    market order to the new book and the call's outcome, together with the
    invariants the book keeps and the quantity bookkeeping it obeys. */
module Matching {
  import opened Wrappers

  type OrderId = string

  datatype Side = Buy | Sell

  /** The fixed fields of a market order. The unfilled remainder is not part of
      the order: the book keeps it next to the order while the order rests. */
  datatype Order = Order(id: OrderId, side: Side, quantity: real, createdTime: int)

  /** An order resting in the book: its remaining quantity and the sequence
      number the book gave it on arrival (the tie-break between equal
      creation times). */
  datatype Resting = Resting(order: Order, remaining: real, arrival: nat)

  datatype Trade = Trade(buy: Order, sell: Order, quantity: real, price: real)

  datatype BookError = DuplicateOrder(id: OrderId)

  /** Bids and asks, each kept best-first, and the next arrival number. */
  datatype Book = Book(bids: seq<Resting>, asks: seq<Resting>, nextArrival: nat)

  /** Outcome of one submission: the new book and what the call returns. */
  datatype Step = Step(book: Book, result: Result<Option<Trade>, BookError>)

  /** Market orders are matched without a price. */
  const MarketPrice: real := 0.0

  const EmptyBook: Book := Book([], [], 0)

  function Message(e: BookError): string
  {
    "Duplicate order. id:" + e.id
  }

  function Min(a: real, b: real): real
  {
    if a <= b then a else b
  }

  /** Time priority: earlier creation first, earlier arrival among equal
      creation times. Market orders all share one price level. */
  predicate Before(a: Resting, b: Resting)
  {
    a.order.createdTime < b.order.createdTime
    || (a.order.createdTime == b.order.createdTime && a.arrival < b.arrival)
  }

  predicate Sorted(side: seq<Resting>)
  {
    forall i, j :: 0 <= i < j < |side| ==> Before(side[i], side[j])
  }

  predicate HasId(side: seq<Resting>, id: OrderId)
  {
    exists x :: x in side && x.order.id == id
  }

  predicate UniqueIds(side: seq<Resting>)
  {
    forall i, j :: 0 <= i < j < |side| ==> side[i].order.id != side[j].order.id
  }

  predicate Disjoint(a: seq<Resting>, b: seq<Resting>)
  {
    forall x, y :: x in a && y in b ==> x.order.id != y.order.id
  }

  /** Every entry of a side has that side's direction, a positive remainder
      no larger than its original quantity, and an arrival number already
      handed out. */
  predicate SideOk(side: seq<Resting>, s: Side, next: nat)
  {
    forall x :: x in side ==>
      x.order.side == s && 0.0 < x.remaining <= x.order.quantity && x.arrival < next
  }

  predicate Valid(b: Book)
  {
    Sorted(b.bids) && Sorted(b.asks)
    && UniqueIds(b.bids) && UniqueIds(b.asks) && Disjoint(b.bids, b.asks)
    && SideOk(b.bids, Buy, b.nextArrival) && SideOk(b.asks, Sell, b.nextArrival)
  }

  /** Puts `r` in front of the first entry it has priority over. */
  function InsertByPriority(side: seq<Resting>, r: Resting): (res: seq<Resting>)
    ensures |res| == |side| + 1
  {
    if side == [] then [r]
    else if Before(r, side[0]) then [r] + side
    else [side[0]] + InsertByPriority(side[1..], r)
  }

  /** The opposite side after a fill of `q` from its best order. */
  function FillBest(opposite: seq<Resting>, q: real): (res: seq<Resting>)
    requires opposite != []
    ensures |res| == if q == opposite[0].remaining then |opposite| - 1 else |opposite|
  {
    if q == opposite[0].remaining then opposite[1..]
    else [opposite[0].(remaining := opposite[0].remaining - q)] + opposite[1..]
  }

  /** The own side after `q` of the incoming order `o` traded: any remainder
      rests under arrival number `arrival`. */
  function RestAfter(own: seq<Resting>, o: Order, q: real, arrival: nat): (res: seq<Resting>)
    ensures |res| == if q == o.quantity then |own| else |own| + 1
  {
    if q == o.quantity then own
    else InsertByPriority(own, Resting(o, o.quantity - q, arrival))
  }

  function OwnSide(b: Book, s: Side): seq<Resting>
  {
    if s == Buy then b.bids else b.asks
  }

  function OppositeSide(b: Book, s: Side): seq<Resting>
  {
    if s == Buy then b.asks else b.bids
  }

  function WithSides(s: Side, own: seq<Resting>, opposite: seq<Resting>, next: nat): Book
  {
    if s == Buy then Book(own, opposite, next) else Book(opposite, own, next)
  }

  function MakeTrade(incoming: Order, resting: Order, q: real): Trade
  {
    if incoming.side == Buy then Trade(incoming, resting, q, MarketPrice)
    else Trade(resting, incoming, q, MarketPrice)
  }

  /** How many orders rest in a book. */
  function Size(b: Book): nat
  {
    |b.bids| + |b.asks|
  }

  /** One `addOrderAndExecuteTrade` call. A rejected call changes nothing;
      an accepted one hands out one arrival number, and either rests the
      order (no trade) or trades without growing the book. */
  function Submit(b: Book, o: Order): (r: Step)
    ensures r.result.Failure? ==> r.book == b
    ensures r.result.Success? ==> r.book.nextArrival == b.nextArrival + 1
    ensures r.result == Success(None) ==> Size(r.book) == Size(b) + 1
    ensures r.result.Success? && r.result.value.Some? ==> Size(r.book) <= Size(b)
  {
    if HasId(b.bids, o.id) || HasId(b.asks, o.id) then
      Step(b, Failure(DuplicateOrder(o.id)))
    else
      var own := OwnSide(b, o.side);
      var opposite := OppositeSide(b, o.side);
      var incoming := Resting(o, o.quantity, b.nextArrival);
      if opposite == [] then
        Step(WithSides(o.side, InsertByPriority(own, incoming), opposite, b.nextArrival + 1),
             Success(None))
      else
        var best := opposite[0];
        var q := Min(o.quantity, best.remaining);
        Step(WithSides(o.side, RestAfter(own, o, q, b.nextArrival), FillBest(opposite, q), b.nextArrival + 1),
             Success(Some(MakeTrade(o, best.order, q))))
  }

  // ---------------------------------------------------------------------
  // Priority insertion

  lemma {:induction false} InsertElements(side: seq<Resting>, r: Resting)
    ensures forall x :: x in InsertByPriority(side, r) <==> x in side || x == r
  {
    if side != [] && !Before(r, side[0]) {
      InsertElements(side[1..], r);
      assert side == [side[0]] + side[1..];
    }
  }

  /** The entry inserted sits after every entry it does not beat and before
      the first one it does: the shape the book's insertion loop builds. */
  lemma {:induction false} InsertAt(side: seq<Resting>, r: Resting, i: nat)
    requires i <= |side|
    requires forall j :: 0 <= j < i ==> !Before(r, side[j])
    requires i < |side| ==> Before(r, side[i])
    ensures InsertByPriority(side, r) == side[..i] + [r] + side[i..]
  {
    if i > 0 {
      InsertAt(side[1..], r, i - 1);
      assert side[..i] == [side[0]] + side[1..][..i - 1];
      assert side[i..] == side[1..][i - 1..];
    }
  }

  lemma {:induction false} InsertSorted(side: seq<Resting>, r: Resting)
    requires Sorted(side)
    requires forall x :: x in side ==> x.arrival < r.arrival
    ensures Sorted(InsertByPriority(side, r))
  {
    if side != [] {
      if Before(r, side[0]) {
        var res := [r] + side;
        forall i, j | 0 <= i < j < |res| ensures Before(res[i], res[j]) {
          if i > 0 {
            assert res[i] == side[i - 1] && res[j] == side[j - 1];
          } else if j > 1 {
            assert Before(side[0], side[j - 1]);
          }
        }
      } else {
        assert side[0] in side;
        var tail := InsertByPriority(side[1..], r);
        forall x | x in side[1..] ensures x.arrival < r.arrival {
          assert x in side;
        }
        InsertSorted(side[1..], r);
        InsertElements(side[1..], r);
        var res := [side[0]] + tail;
        forall i, j | 0 <= i < j < |res| ensures Before(res[i], res[j]) {
          if i > 0 {
            assert res[i] == tail[i - 1] && res[j] == tail[j - 1];
          } else {
            assert res[j] in tail;
            if res[j] != r {
              assert res[j] in side[1..];
              var k :| 0 <= k < |side[1..]| && side[1..][k] == res[j];
              assert side[k + 1] == res[j];
            }
          }
        }
      }
    }
  }

  lemma {:induction false} InsertUnique(side: seq<Resting>, r: Resting)
    requires UniqueIds(side)
    requires !HasId(side, r.order.id)
    ensures UniqueIds(InsertByPriority(side, r))
  {
    if side != [] {
      assert side[0] in side;
      if Before(r, side[0]) {
        var res := [r] + side;
        forall i, j | 0 <= i < j < |res| ensures res[i].order.id != res[j].order.id {
          if i > 0 {
            assert res[i] == side[i - 1] && res[j] == side[j - 1];
          } else {
            assert res[j] in side;
          }
        }
      } else {
        var tail := InsertByPriority(side[1..], r);
        assert !HasId(side[1..], r.order.id) by {
          forall x | x in side[1..] ensures x.order.id != r.order.id {
            assert x in side;
          }
        }
        InsertUnique(side[1..], r);
        InsertElements(side[1..], r);
        var res := [side[0]] + tail;
        forall i, j | 0 <= i < j < |res| ensures res[i].order.id != res[j].order.id {
          if i > 0 {
            assert res[i] == tail[i - 1] && res[j] == tail[j - 1];
          } else {
            assert res[j] in tail;
            if res[j] != r {
              assert res[j] in side[1..];
              var k :| 0 <= k < |side[1..]| && side[1..][k] == res[j];
              assert side[k + 1] == res[j];
            }
          }
        }
      }
    }
  }

  // ---------------------------------------------------------------------
  // Invariant preservation

  lemma TailKeepsInvariants(side: seq<Resting>, s: Side, next: nat)
    requires side != []
    requires Sorted(side) && UniqueIds(side) && SideOk(side, s, next)
    ensures Sorted(side[1..]) && UniqueIds(side[1..]) && SideOk(side[1..], s, next)
    ensures forall x :: x in side[1..] ==> x in side && x.order.id != side[0].order.id
  {
    forall x | x in side[1..] ensures x in side && x.order.id != side[0].order.id {
      var k :| 0 <= k < |side[1..]| && side[1..][k] == x;
      assert side[k + 1] == x;
    }
  }

  function Other(s: Side): Side
  {
    if s == Buy then Sell else Buy
  }

  /** The book invariant seen from one side: `own` holds `s` orders, `opposite`
      the other direction. */
  predicate SidesValid(own: seq<Resting>, opposite: seq<Resting>, s: Side, next: nat)
  {
    Sorted(own) && Sorted(opposite) && UniqueIds(own) && UniqueIds(opposite)
    && Disjoint(own, opposite) && SideOk(own, s, next) && SideOk(opposite, Other(s), next)
  }

  lemma ValidFromSide(b: Book, s: Side)
    ensures Valid(b) <==> SidesValid(OwnSide(b, s), OppositeSide(b, s), s, b.nextArrival)
  {
  }

  lemma ValidWithSides(s: Side, own: seq<Resting>, opposite: seq<Resting>, next: nat)
    ensures Valid(WithSides(s, own, opposite, next)) <==> SidesValid(own, opposite, s, next)
  {
  }

  /** Lowering the front entry's remainder keeps a side's invariants. */
  lemma ReduceFrontKeeps(side: seq<Resting>, front: Resting, s: Side, next: nat)
    requires side != []
    requires Sorted(side) && UniqueIds(side) && SideOk(side, s, next)
    requires front.order == side[0].order && front.arrival == side[0].arrival
    requires 0.0 < front.remaining <= side[0].remaining
    ensures Sorted([front] + side[1..]) && UniqueIds([front] + side[1..])
    ensures SideOk([front] + side[1..], s, next)
    ensures forall x :: x in [front] + side[1..] ==> x in side || x == front
  {
    var res := [front] + side[1..];
    assert side[0] in side;
    forall i, j | 0 <= i < j < |res| ensures Before(res[i], res[j]) {
      assert res[j] == side[j];
      if i > 0 { assert res[i] == side[i]; }
    }
    forall i, j | 0 <= i < j < |res| ensures res[i].order.id != res[j].order.id {
      assert res[j] == side[j];
      if i > 0 { assert res[i] == side[i]; }
    }
    forall x | x in res ensures x in side || x == front {
      var k :| 0 <= k < |res| && res[k] == x;
      if k > 0 { assert side[k] == x; }
    }
  }

  lemma FillBestKeeps(opposite: seq<Resting>, q: real, s: Side, next: nat)
    requires opposite != []
    requires Sorted(opposite) && UniqueIds(opposite) && SideOk(opposite, s, next)
    requires 0.0 <= q <= opposite[0].remaining
    ensures Sorted(FillBest(opposite, q)) && UniqueIds(FillBest(opposite, q))
    ensures SideOk(FillBest(opposite, q), s, next)
    ensures forall x :: x in FillBest(opposite, q) ==> x in opposite || x.order == opposite[0].order
  {
    var best := opposite[0];
    if q == best.remaining {
      TailKeepsInvariants(opposite, s, next);
    } else {
      ReduceFrontKeeps(opposite, best.(remaining := best.remaining - q), s, next);
    }
  }

  lemma RestKeeps(own: seq<Resting>, opposite: seq<Resting>, r: Resting, s: Side, next: nat)
    requires SidesValid(own, opposite, s, next)
    requires r.arrival == next && r.order.side == s && 0.0 < r.remaining <= r.order.quantity
    requires !HasId(own, r.order.id) && !HasId(opposite, r.order.id)
    ensures SidesValid(InsertByPriority(own, r), opposite, s, next + 1)
  {
    InsertSorted(own, r);
    InsertUnique(own, r);
    InsertElements(own, r);
  }

  /** A call on a valid book with a positive quantity leaves a valid book:
      both sides in time priority, no id twice, every remainder positive and
      within its order's quantity. */
  lemma SubmitPreservesValid(b: Book, o: Order)
    requires Valid(b)
    requires o.quantity > 0.0
    ensures Valid(Submit(b, o).book)
  {
    if !(HasId(b.bids, o.id) || HasId(b.asks, o.id)) {
      var own := OwnSide(b, o.side);
      var opposite := OppositeSide(b, o.side);
      ValidFromSide(b, o.side);
      if opposite == [] {
        var incoming := Resting(o, o.quantity, b.nextArrival);
        RestKeeps(own, opposite, incoming, o.side, b.nextArrival);
        ValidWithSides(o.side, InsertByPriority(own, incoming), opposite, b.nextArrival + 1);
      } else {
        MatchKeeps(own, opposite, o, b.nextArrival);
        var q := Min(o.quantity, opposite[0].remaining);
        ValidWithSides(o.side, RestAfter(own, o, q, b.nextArrival), FillBest(opposite, q), b.nextArrival + 1);
      }
    }
  }

  lemma MatchKeeps(own: seq<Resting>, opposite: seq<Resting>, o: Order, next: nat)
    requires SidesValid(own, opposite, o.side, next)
    requires opposite != []
    requires !HasId(own, o.id) && !HasId(opposite, o.id)
    requires o.quantity > 0.0
    ensures var q := Min(o.quantity, opposite[0].remaining);
      SidesValid(RestAfter(own, o, q, next), FillBest(opposite, q), o.side, next + 1)
  {
    var best := opposite[0];
    assert best in opposite;
    var q := Min(o.quantity, best.remaining);
    FillBestKeeps(opposite, q, Other(o.side), next);
    var opposite' := FillBest(opposite, q);
    assert o.id != best.order.id;
    assert SidesValid(own, opposite', o.side, next);
    if q != o.quantity {
      assert !HasId(opposite', o.id);
      RestKeeps(own, opposite', Resting(o, o.quantity - q, next), o.side, next);
    }
  }

  // ---------------------------------------------------------------------
  // What one call does

  /** The call fails exactly when the id is already resting on either side;
      a failed call leaves the book as it was and its message names the id. */
  lemma DuplicateRejected(b: Book, o: Order)
    ensures Submit(b, o).result.Failure? <==> HasId(b.bids, o.id) || HasId(b.asks, o.id)
    ensures Submit(b, o).result.Failure? ==>
      Submit(b, o).book == b
      && Submit(b, o).result.error == DuplicateOrder(o.id)
      && Message(Submit(b, o).result.error) == "Duplicate order. id:" + o.id
  {
  }

  /** With no opposite order the call returns no trade and the order rests
      on its own side, so submitting it again is a duplicate and changes
      nothing. */
  lemma {:induction false} UnmatchedOrderRests(b: Book, o: Order)
    requires !HasId(b.bids, o.id) && !HasId(b.asks, o.id)
    requires OppositeSide(b, o.side) == []
    ensures Submit(b, o).result == Success(None)
    ensures HasId(OwnSide(Submit(b, o).book, o.side), o.id)
    ensures |OwnSide(Submit(b, o).book, o.side)| == |OwnSide(b, o.side)| + 1
    ensures Submit(Submit(b, o).book, o) == Step(Submit(b, o).book, Failure(DuplicateOrder(o.id)))
  {
    var incoming := Resting(o, o.quantity, b.nextArrival);
    InsertElements(OwnSide(b, o.side), incoming);
    assert incoming in InsertByPriority(OwnSide(b, o.side), incoming);
  }

  /** A match trades the smaller of the two remainders at the market price,
      with the buy and sell roles taken from the sides; only the best
      opposite order is touched, and if it is partly filled it keeps its
      place at the front with its remainder reduced. The incoming order
      rests with what is left of it, under its own priority. */
  lemma MatchAgainstBest(b: Book, o: Order)
    requires !HasId(b.bids, o.id) && !HasId(b.asks, o.id)
    requires OppositeSide(b, o.side) != []
    ensures var best := OppositeSide(b, o.side)[0];
      var q := Min(o.quantity, best.remaining);
      var after := Submit(b, o).book;
      && Submit(b, o).result.Success?
      && Submit(b, o).result.value.Some?
      && var t := Submit(b, o).result.value.value;
      && t.quantity == q && t.price == 0.0
      && (o.side == Buy ==> t.buy == o && t.sell == best.order)
      && (o.side == Sell ==> t.buy == best.order && t.sell == o)
      && (best.remaining <= o.quantity ==>
            OppositeSide(after, o.side) == OppositeSide(b, o.side)[1..])
      && (best.remaining > o.quantity ==>
            OppositeSide(after, o.side)
              == [best.(remaining := best.remaining - o.quantity)] + OppositeSide(b, o.side)[1..])
      && (o.quantity <= best.remaining ==> OwnSide(after, o.side) == OwnSide(b, o.side))
      && (o.quantity > best.remaining ==>
            OwnSide(after, o.side)
              == InsertByPriority(OwnSide(b, o.side), Resting(o, o.quantity - best.remaining, b.nextArrival)))
  {
  }

  /** A sell smaller than the best bid fills part of it and leaves it at the
      front of the bids, ahead of every later bid. */
  lemma SellPartlyFillsBestBid(best: Resting, later: seq<Resting>, sell: Order, next: nat)
    requires sell.side == Sell && 0.0 < sell.quantity < best.remaining
    requires best.order.id != sell.id
    requires forall x :: x in later ==> x.order.id != sell.id
    ensures Submit(Book([best] + later, [], next), sell)
         == Step(Book([best.(remaining := best.remaining - sell.quantity)] + later, [], next + 1),
                 Success(Some(Trade(best.order, sell, sell.quantity, MarketPrice))))
  {
    assert !HasId([best] + later, sell.id);
    assert ([best] + later)[1..] == later;
  }

  /** With no asks, a buy created no earlier than every resting bid queues
      behind all of them with its full quantity and returns no trade. */
  lemma LaterBuyQueuesLast(bids: seq<Resting>, buy: Order, next: nat)
    requires buy.side == Buy
    requires forall x :: x in bids ==> x.order.id != buy.id
    requires forall x :: x in bids ==> x.order.createdTime <= buy.createdTime && x.arrival < next
    ensures Submit(Book(bids, [], next), buy)
         == Step(Book(bids + [Resting(buy, buy.quantity, next)], [], next + 1), Success(None))
  {
    var r := Resting(buy, buy.quantity, next);
    forall j | 0 <= j < |bids| ensures !Before(r, bids[j]) {
      assert bids[j] in bids;
    }
    InsertAt(bids, r, |bids|);
    assert bids[..|bids|] + [r] + bids[|bids|..] == bids + [r];
  }

  /** On a valid book the best ask and the best bid come before every other
      order of their side. */
  lemma BestComesFirst(b: Book)
    requires Valid(b)
    ensures forall k :: 0 < k < |b.asks| ==> Before(b.asks[0], b.asks[k])
    ensures forall k :: 0 < k < |b.bids| ==> Before(b.bids[0], b.bids[k])
  {
  }

  // ---------------------------------------------------------------------
  // Quantity bookkeeping

  /** How much of order `id` is resting on a side. */
  function RestingQuantity(side: seq<Resting>, id: OrderId): real
  {
    if side == [] then 0.0
    else (if side[0].order.id == id then side[0].remaining else 0.0) + RestingQuantity(side[1..], id)
  }

  function Outstanding(b: Book, id: OrderId): real
  {
    RestingQuantity(b.bids, id) + RestingQuantity(b.asks, id)
  }

  /** How much of order `id` a call's trade filled. */
  function FilledBy(r: Result<Option<Trade>, BookError>, id: OrderId): real
  {
    if r.Success? && r.value.Some? && (r.value.value.buy.id == id || r.value.value.sell.id == id)
    then r.value.value.quantity else 0.0
  }

  lemma {:induction false} RestingAbsent(side: seq<Resting>, id: OrderId)
    requires !HasId(side, id)
    ensures RestingQuantity(side, id) == 0.0
  {
    if side != [] {
      assert side[0] in side;
      assert !HasId(side[1..], id) by {
        forall x | x in side[1..] ensures x.order.id != id { assert x in side; }
      }
      RestingAbsent(side[1..], id);
    }
  }

  lemma {:induction false} RestingAfterInsert(side: seq<Resting>, r: Resting, id: OrderId)
    ensures RestingQuantity(InsertByPriority(side, r), id)
         == RestingQuantity(side, id) + (if r.order.id == id then r.remaining else 0.0)
  {
    if side != [] && !Before(r, side[0]) {
      RestingAfterInsert(side[1..], r, id);
    }
  }

  /** Per order, quantity is conserved by every accepted call: what the call's
      trade filled of an order plus what of it now rests equals what of it
      rested before, plus the incoming order's full quantity for its own id. */
  lemma SubmitConserves(b: Book, o: Order, id: OrderId)
    requires Submit(b, o).result.Success?
    ensures FilledBy(Submit(b, o).result, id) + Outstanding(Submit(b, o).book, id)
         == Outstanding(b, id) + (if id == o.id then o.quantity else 0.0)
  {
    var own := OwnSide(b, o.side);
    var opposite := OppositeSide(b, o.side);
    var incoming := Resting(o, o.quantity, b.nextArrival);
    RestingAbsent(own, o.id);
    RestingAbsent(opposite, o.id);
    if opposite == [] {
      RestingAfterInsert(own, incoming, id);
    } else {
      var best := opposite[0];
      assert best in opposite;
      var q := Min(o.quantity, best.remaining);
      if q != o.quantity {
        RestingAfterInsert(own, incoming.(remaining := o.quantity - q), id);
      }
    }
  }

  // ---------------------------------------------------------------------
  // A whole sequence of submissions

  datatype Run = Run(book: Book, trades: seq<Trade>)

  function TradesOf(r: Result<Option<Trade>, BookError>): seq<Trade>
  {
    if r.Success? && r.value.Some? then [r.value.value] else []
  }

  /** Submits `orders` in turn to an empty book, collecting the trades. */
  function RunOrders(orders: seq<Order>): Run
  {
    if orders == [] then Run(EmptyBook, [])
    else
      var prev := RunOrders(orders[..|orders| - 1]);
      var step := Submit(prev.book, orders[|orders| - 1]);
      Run(step.book, prev.trades + TradesOf(step.result))
  }

  /** Total quantity of order `id` filled by a list of trades. */
  function Filled(trades: seq<Trade>, id: OrderId): real
  {
    if trades == [] then 0.0
    else
      var t := trades[|trades| - 1];
      Filled(trades[..|trades| - 1], id) + (if t.buy.id == id || t.sell.id == id then t.quantity else 0.0)
  }

  predicate Submitted(orders: seq<Order>, id: OrderId)
  {
    exists i :: 0 <= i < |orders| && orders[i].id == id
  }

  predicate DistinctIds(orders: seq<Order>)
  {
    forall i, j :: 0 <= i < j < |orders| ==> orders[i].id != orders[j].id
  }

  lemma {:induction false} FilledUntouched(trades: seq<Trade>, id: OrderId)
    requires forall t :: t in trades ==> t.buy.id != id && t.sell.id != id
    ensures Filled(trades, id) == 0.0
  {
    if trades != [] {
      assert trades[|trades| - 1] in trades;
      FilledUntouched(trades[..|trades| - 1], id);
    }
  }

  /** What holds after submitting `orders` to an empty book. */
  ghost predicate RunInvariant(orders: seq<Order>, run: Run)
  {
    Valid(run.book)
    && |run.trades| <= |orders|
    && (forall x :: x in run.book.bids || x in run.book.asks ==> Submitted(orders, x.order.id))
    && (forall t :: t in run.trades ==> Submitted(orders, t.buy.id) && Submitted(orders, t.sell.id))
    && (forall i :: 0 <= i < |orders| ==>
          Filled(run.trades, orders[i].id) + Outstanding(run.book, orders[i].id) == orders[i].quantity)
  }

  function Extend(run: Run, o: Order): Run
  {
    var step := Submit(run.book, o);
    Run(step.book, run.trades + TradesOf(step.result))
  }

  /** Only submitted orders rest and trade. */
  lemma ExtendKeepsProvenance(orders: seq<Order>, run: Run, o: Order)
    requires RunInvariant(orders, run)
    requires o.quantity > 0.0
    requires Submit(run.book, o).result.Success?
    ensures forall x :: x in Extend(run, o).book.bids || x in Extend(run, o).book.asks ==>
      Submitted(orders + [o], x.order.id)
    ensures forall t :: t in Extend(run, o).trades ==>
      Submitted(orders + [o], t.buy.id) && Submitted(orders + [o], t.sell.id)
  {
    var all := orders + [o];
    forall id | Submitted(orders, id) ensures Submitted(all, id) {
      var i :| 0 <= i < |orders| && orders[i].id == id;
      assert all[i] == orders[i];
    }
    assert Submitted(all, o.id) by { assert all[|orders|] == o; }
    var b := run.book;
    var own := OwnSide(b, o.side);
    var opposite := OppositeSide(b, o.side);
    ValidFromSide(b, o.side);
    if opposite == [] {
      InsertElements(own, Resting(o, o.quantity, b.nextArrival));
    } else {
      var best := opposite[0];
      assert best in opposite;
      var q := Min(o.quantity, best.remaining);
      if q != o.quantity {
        InsertElements(own, Resting(o, o.quantity - q, b.nextArrival));
      }
      FillBestKeeps(opposite, q, Other(o.side), b.nextArrival);
    }
    forall t | t in Extend(run, o).trades ensures Submitted(all, t.buy.id) && Submitted(all, t.sell.id) {
      if t !in run.trades {
        assert t in TradesOf(Submit(b, o).result);
      }
    }
  }

  /** Filled plus resting quantity stays each order's original quantity. */
  lemma ExtendKeepsConservation(orders: seq<Order>, run: Run, o: Order)
    requires RunInvariant(orders, run)
    requires !Submitted(orders, o.id)
    ensures Submit(run.book, o).result.Success?
    ensures forall i :: 0 <= i < |orders + [o]| ==>
      Filled(Extend(run, o).trades, (orders + [o])[i].id) + Outstanding(Extend(run, o).book, (orders + [o])[i].id)
        == (orders + [o])[i].quantity
  {
    var all := orders + [o];
    var b := run.book;
    assert !HasId(b.bids, o.id) && !HasId(b.asks, o.id);
    forall t | t in run.trades ensures t.buy.id != o.id && t.sell.id != o.id {
    }
    FilledUntouched(run.trades, o.id);
    RestingAbsent(b.bids, o.id);
    RestingAbsent(b.asks, o.id);
    forall i | 0 <= i < |all|
      ensures Filled(Extend(run, o).trades, all[i].id) + Outstanding(Extend(run, o).book, all[i].id)
        == all[i].quantity
    {
      var id := all[i].id;
      SubmitConserves(b, o, id);
      FilledStep(run.trades, Submit(b, o).result, id);
      if i < |orders| {
        assert all[i] == orders[i];
      }
    }
  }

  lemma {:induction false} RunIsExtend(orders: seq<Order>)
    requires orders != []
    ensures RunOrders(orders) == Extend(RunOrders(orders[..|orders| - 1]), orders[|orders| - 1])
  {
  }

  /** For orders with distinct ids and positive quantities, after any number
      of submissions every call was accepted, the book is valid, only
      submitted orders rest or appear in trades, and every order's filled
      quantity plus its resting remainder equals its original quantity. */
  lemma {:induction false} RunConserves(orders: seq<Order>)
    requires DistinctIds(orders)
    requires forall i :: 0 <= i < |orders| ==> orders[i].quantity > 0.0
    ensures RunInvariant(orders, RunOrders(orders))
  {
    if orders != [] {
      var n := |orders| - 1;
      var init := orders[..n];
      var o := orders[n];
      assert orders == init + [o];
      assert DistinctIds(init) by {
        forall i, j | 0 <= i < j < |init| ensures init[i].id != init[j].id {
          assert init[i] == orders[i] && init[j] == orders[j];
        }
      }
      RunConserves(init);
      var prev := RunOrders(init);
      RunIsExtend(orders);
      assert !Submitted(init, o.id) by {
        forall i | 0 <= i < |init| ensures init[i].id != o.id {
          assert init[i] == orders[i];
        }
      }
      ExtendKeepsConservation(init, prev, o);
      ExtendKeepsProvenance(init, prev, o);
      SubmitPreservesValid(prev.book, o);
    }
  }

  lemma FilledStep(trades: seq<Trade>, r: Result<Option<Trade>, BookError>, id: OrderId)
    ensures Filled(trades + TradesOf(r), id) == Filled(trades, id) + FilledBy(r, id)
  {
    if TradesOf(r) != [] {
      assert (trades + TradesOf(r))[..|trades|] == trades;
    } else {
      assert trades + TradesOf(r) == trades;
    }
  }
}
