# MultiBitExchange core in Dafny

This project models three parts of the MultiBitExchange trading core.

- **The per-instrument order book.** It holds two time-ordered queues of resting market orders, bids and asks.
  - `addOrderAndExecuteTrade` rejects an order id that is already resting.
  - It matches the incoming order against at most one best opposite order. The trade quantity is the smaller of the two remaining quantities, and the price is 0.
  - It reduces the remaining quantity of the best opposite order. A partly filled order keeps its place.
  - It rests whatever is left of the incoming order.
  - `getLowestAsk` and `getHighestBid` return the front of each queue.
- **The event-sourced Exchange aggregate.** It is a created flag plus a map from ticker symbol to currency pair, rebuilt by replaying events.
  - `CreateExchange`, `RegisterCurrencyPair` and `RemoveTicker` are validated against that state.
  - Each command either emits exactly one event or fails with a named error.
- **The `TradeableItem` value object.** It has a symbol, `equals`, `hashCode` and `toString`.

Files:

- `wrappers.dfy`: `Option` and `Result`.
- `matching.dfy` (module `Matching`): one call of the order book as a pure function `Submit` from the old book and the order to the new book and the call's outcome.
  - It states the invariants the book keeps: sorted by priority, unique ids, positive remainders.
  - It proves that each accepted call conserves quantity per order.
  - It proves, for any sequence of submissions with distinct ids and positive quantities, that filled plus resting equals each order's original quantity.
- `order_book.dfy` (module `OrderBooks`): the class `OrderBook`.
  - Its `seq` fields are updated in place by `AddOrderAndExecuteTrade`.
  - It has a linear id scan and a priority insertion loop.
  - `AddOrderAndExecuteTrade` is proved to leave the fields and the result exactly as `Matching.Submit` gives them, and to keep `Valid()`.
  - Its helpers are each proved against one reference function: `ContainsId` against `HasId`, `InsertResting` against `InsertByPriority`, and `MatchBest` against `FillBest`, `RestAfter` and `MakeTrade`.
  - `GetLowestAsk` and `GetHighestBid` return the front of a side. On a valid book that front has priority over every other order of the side.
- `order_book_scenarios.dfy` (module `OrderBookScenarios`): the scenarios of `OrderBookTest`. Each runs on a fresh `OrderBook` and states the outcome the test expects.
  - The longer series place their orders through two helper methods, `PlaceLaterBuy` and `PlacePartialSell`. Each helper performs one call and states the book it leaves.
- `exchange.dfy` (module `Exchanges`): the aggregate.
  - The pure functions `Apply`, `Replay`, `Decide` and `GivenWhen`.
  - The class `Exchange`, whose event handler and replay loop update its fields, and whose command handler is proved equal to `Decide`.
  - An independent reading of a history (`RegisteredIn`, `MentionsCreation`), proved to agree with replay.
- `tradeable_item.dfy` (module `TradeableItems`): the value object.
  - Java's `equals` over references, `null` and runtime classes.
  - `String.hashCode` with explicit 32-bit wrap-around, proved congruent to the unbounded polynomial hash.
  - `toString` with a parser that inverts it.

Modelling choices:

- **Quantities.** Quantities are exact `real`s, standing in for `BigDecimal`, so 0.5, 0.25 and 0.1 are exact.
- **Creation times and ids.** Creation times are `int`s and order ids are strings. Both are given as parameters, in place of clock reads and id generation.
- **Priority.** Orders are ranked by creation time. Among equal creation times, they are ranked by the order in which the book accepted them, using an arrival number the book hands out. Back-to-back clock reads can give equal times.
- **Ticker symbol.** The ticker symbol of a currency pair is written `base + "/" + counter`.

## Model

| member | source | states |
|---|---|---|
| Matching.Submit | src/test/java/org/multibit/exchange/domainmodel/OrderBookTest.java:35-344 | one call of addOrderAndExecuteTrade: a rejected call leaves the book unchanged; an accepted call hands out one arrival number; a call with no trade rests the order, adding one entry; a call with a trade never grows the book. SubmitPreservesValid, SubmitConserves, DuplicateRejected and MatchAgainstBest pin down the rest |
| Matching.InsertByPriority | src/test/java/org/multibit/exchange/domainmodel/OrderBookTest.java:68-150 | inserting into a queue adds exactly one entry |
| Matching.InsertElements | src/test/java/org/multibit/exchange/domainmodel/OrderBookTest.java:68-150 | the queue after insertion holds exactly the old entries and the new one |
| Matching.InsertAt | src/test/java/org/multibit/exchange/domainmodel/OrderBookTest.java:68-150 | the new entry goes behind every entry it does not beat and in front of the first one it beats |
| Matching.InsertSorted | src/test/java/org/multibit/exchange/domainmodel/OrderBookTest.java:68-150 | inserting an entry that arrived later than all others keeps the queue in (creation time, arrival) order, whatever order the orders were added in |
| Matching.InsertUnique | src/test/java/org/multibit/exchange/domainmodel/OrderBookTest.java:312-344 | inserting an id not yet in the queue keeps ids unique |
| Matching.FillBestKeeps | src/test/java/org/multibit/exchange/domainmodel/OrderBookTest.java:177-205 | filling part or all of the best order keeps the queue sorted, unique and positive, and touches only the best order |
| Matching.RestKeeps | src/test/java/org/multibit/exchange/domainmodel/OrderBookTest.java:278-310 | resting an incoming remainder keeps both sides valid |
| Matching.SubmitPreservesValid | src/test/java/org/multibit/exchange/domainmodel/OrderBookTest.java:241-249 | every call, accepted or rejected, keeps the book valid: sorted by priority, ids unique across both sides, sides holding only their own direction, remainders positive and at most the original quantity |
| Matching.DuplicateRejected | src/test/java/org/multibit/exchange/domainmodel/OrderBookTest.java:312-344 | a call fails iff the id is already resting on either side; a failure leaves the book unchanged and its message is "Duplicate order. id:" followed by the id |
| Matching.UnmatchedOrderRests | src/test/java/org/multibit/exchange/domainmodel/OrderBookTest.java:35-46 | with no opposite order the call returns no trade, the order rests on its own side, and resubmitting it is a duplicate that changes nothing |
| Matching.MatchAgainstBest | src/test/java/org/multibit/exchange/domainmodel/OrderBookTest.java:152-205 | a match trades min(incoming, best remaining) at price 0, with buy/sell roles by side; the best order leaves if it is filled, otherwise it stays in front with its remainder reduced; the incoming remainder rests under its own priority |
| Matching.SellPartlyFillsBestBid | src/test/java/org/multibit/exchange/domainmodel/OrderBookTest.java:241-249 | a sell smaller than the best bid trades all of the sell and leaves that bid in front of every later bid, reduced by the sell |
| Matching.LaterBuyQueuesLast | src/test/java/org/multibit/exchange/domainmodel/OrderBookTest.java:218-244 | with no asks, a buy created no earlier than every resting bid queues behind all of them with its full quantity and returns no trade |
| Matching.ReduceFrontKeeps | src/test/java/org/multibit/exchange/domainmodel/OrderBookTest.java:245-249 | lowering the front order's remainder keeps a side sorted, unique and positive |
| Matching.RestingAbsent | src/test/java/org/multibit/exchange/domainmodel/OrderBookTest.java:312-344 | an id not in a queue has no resting quantity there |
| Matching.RestingAfterInsert | src/test/java/org/multibit/exchange/domainmodel/OrderBookTest.java:278-310 | inserting an entry adds its remainder to its own id's resting quantity and leaves every other id's unchanged |
| Matching.SubmitConserves | src/test/java/org/multibit/exchange/domainmodel/OrderBookTest.java:278-310 | for every order id, an accepted call's fill plus what now rests equals what rested before, plus the incoming quantity for the incoming id |
| Matching.FilledStep | src/test/java/org/multibit/exchange/domainmodel/OrderBookTest.java:241-249 | adding one call's trade to a trade list adds exactly that call's fill per id |
| Matching.ExtendKeepsProvenance | src/test/java/org/multibit/exchange/domainmodel/OrderBookTest.java:241-249 | after one more call only submitted orders rest or appear in trades |
| Matching.ExtendKeepsConservation | src/test/java/org/multibit/exchange/domainmodel/OrderBookTest.java:241-249 | one more call with a new id is accepted, and filled plus resting stays each order's original quantity |
| Matching.RunConserves | src/test/java/org/multibit/exchange/domainmodel/OrderBookTest.java:207-253 | after any sequence of orders with distinct ids and positive quantities, every call was accepted, there is at most one trade per call, the book is valid, only submitted orders rest or trade, and each order's filled plus resting quantity equals its original quantity |
| OrderBooks.ContainsId | src/test/java/org/multibit/exchange/domainmodel/OrderBookTest.java:312-344 | the scan finds an id iff an order with that id rests on the side |
| OrderBooks.InsertResting | src/test/java/org/multibit/exchange/domainmodel/OrderBookTest.java:68-150 | the insertion loop yields exactly the priority insertion |
| OrderBooks.MatchBest | src/test/java/org/multibit/exchange/domainmodel/OrderBookTest.java:152-205 | one match computes the trade, the filled opposite side and the own side with the remainder rested, as the reference semantics does |
| OrderBooks.OrderBook.constructor | src/test/java/org/multibit/exchange/domainmodel/OrderBookTest.java:29 | a new book is empty and valid |
| OrderBooks.OrderBook.AddOrderAndExecuteTrade | src/test/java/org/multibit/exchange/domainmodel/OrderBookTest.java:241-249 | the in-place update leaves the fields and the result exactly as Submit on the old book gives them, and keeps the book valid |
| OrderBooks.OrderBook.GetLowestAsk | src/test/java/org/multibit/exchange/domainmodel/OrderBookTest.java:68-108 | returns None iff there are no asks, else the front ask; BestComesFirst proves that on a valid book this ask has priority over every other resting ask |
| OrderBooks.OrderBook.GetHighestBid | src/test/java/org/multibit/exchange/domainmodel/OrderBookTest.java:110-150 | returns None iff there are no bids, else the front bid; BestComesFirst proves that on a valid book this bid has priority over every other resting bid |
| OrderBookScenarios.OneMarketBuyOrder | src/test/java/org/multibit/exchange/domainmodel/OrderBookTest.java:35-46 | a lone buy returns no trade and becomes the best bid |
| OrderBookScenarios.OneBuyOneSell | src/test/java/org/multibit/exchange/domainmodel/OrderBookTest.java:48-66 | buy 10 then sell 10 returns Trade(buy, sell, 10, 0) and leaves the book empty |
| OrderBookScenarios.LowestAskOfTwo | src/test/java/org/multibit/exchange/domainmodel/OrderBookTest.java:68-108 | the older of two asks one millisecond apart is the lowest ask, in either insertion order |
| OrderBookScenarios.HighestBidOfTwo | src/test/java/org/multibit/exchange/domainmodel/OrderBookTest.java:110-150 | the older of two bids one millisecond apart is the highest bid, in either insertion order |
| OrderBookScenarios.BuyAgainstSmallerAsk | src/test/java/org/multibit/exchange/domainmodel/OrderBookTest.java:152-175 | buy 10 against ask 5 trades 5 at price 0 |
| OrderBookScenarios.BuyAgainstTwoSmallerAsks | src/test/java/org/multibit/exchange/domainmodel/OrderBookTest.java:177-205 | buy 10 then asks 1 and 1: the third call returns Trade(buy, second ask, 1, 0), and the bids are then exactly the buy with 8 remaining |
| OrderBookScenarios.PlaceLaterBuy | src/test/java/org/multibit/exchange/domainmodel/OrderBookTest.java:241-244 | with no asks, a buy created no earlier than every resting bid is appended to the bids with its full quantity, returns no trade and keeps the book valid |
| OrderBookScenarios.PlacePartialSell | src/test/java/org/multibit/exchange/domainmodel/OrderBookTest.java:242-249 | with no asks, a sell smaller than the best bid returns a trade of the whole sell at price 0 against that bid, which stays in front reduced by the sell, and keeps the book valid |
| OrderBookScenarios.ComplexSeriesOpening | src/test/java/org/multibit/exchange/domainmodel/OrderBookTest.java:241-244 | bid 10 and ask 5 leave the first bid with 5; bids 6 and 6 then queue behind it in arrival order |
| OrderBookScenarios.ComplexSeries | src/test/java/org/multibit/exchange/domainmodel/OrderBookTest.java:207-253 | with non-decreasing creation times, the seventh call returns Trade(b1, a4, 0.1, 0), and the bids end exactly as b1 with 4.15, then b2 with 6, then b3 with 6 |
| OrderBookScenarios.EscalatingSeries1 | src/test/java/org/multibit/exchange/domainmodel/OrderBookTest.java:255-276 | bid 1 then ask 2 trades 1 |
| OrderBookScenarios.EscalatingSeries2 | src/test/java/org/multibit/exchange/domainmodel/OrderBookTest.java:278-310 | bid 1, ask 2, bid 3, ask 4: the last call returns Trade(bid2, ask2, 2, 0), trading remainders rather than original quantities |
| OrderBookScenarios.DuplicateOrder | src/test/java/org/multibit/exchange/domainmodel/OrderBookTest.java:312-344 | submitting a buy or a sell twice fails with DuplicateOrder(id), message "Duplicate order. id:" + id, and one order rests |
| Exchanges.Apply | src/test/java/org/multibit/exchange/domain/model/ExchangeTest.java:33-118 | the event handlers: a creation marks the exchange created under the event's id and keeps the pairs; other events keep the created flag and id; a registration maps its symbol to its pair; a removal leaves its pair's ticker symbol unregistered. ReplayMatchesHistory and the ThenApply lemmas pin down the rest |
| Exchanges.Replay | src/test/java/org/multibit/exchange/domain/model/ExchangeTest.java:33-118 | replaying never un-creates the exchange, and a history with no creation event keeps the created flag and id. ReplayAppend and ReplayMatchesHistory pin down the whole replayed state |
| Exchanges.Decide | src/test/java/org/multibit/exchange/domain/model/ExchangeTest.java:33-118 | an accepted command emits exactly one event carrying the requested id for a creation and the aggregate's id otherwise; a command fails with ExchangeNotCreated iff it is not a creation and the exchange is not created. CreateThenApply, RegisterThenApply, RemoveDecision and RemoveThenApply pin down each command |
| Exchanges.GivenWhen | src/test/java/org/multibit/exchange/domain/model/ExchangeTest.java:28-118 | given-when emits at most one event; on an empty history only a creation succeeds |
| Exchanges.ReplayAppend | src/test/java/org/multibit/exchange/domain/model/ExchangeTest.java:71-74 | replaying a concatenation is replaying the second part on the state the first part produced |
| Exchanges.ReplayMatchesHistory | src/test/java/org/multibit/exchange/domain/model/ExchangeTest.java:71-77 | the replayed state is created iff the history holds a creation event, and a symbol is registered, with its pair, iff the last event about it is its registration |
| Exchanges.SameRegistrationsSameOutcome | src/test/java/org/multibit/exchange/domain/model/ExchangeTest.java:62-103 | two histories that agree on creation, exchange id and every symbol's registration give every command the same outcome |
| Exchanges.CreateThenApply | src/test/java/org/multibit/exchange/domain/model/ExchangeTest.java:33-45 | creation fails iff the exchange exists; otherwise it emits one event that marks it created under the requested id |
| Exchanges.RegisterThenApply | src/test/java/org/multibit/exchange/domain/model/ExchangeTest.java:47-78 | registration fails iff the exchange is not created or the symbol is taken, with the matching error; otherwise it emits one event that adds exactly that symbol with the descriptor's currencies |
| Exchanges.RemoveDecision | src/test/java/org/multibit/exchange/domain/model/ExchangeTest.java:81-118 | on any state, removal fails iff the exchange is not created or the symbol is unknown, with ExchangeNotCreated or NoSuchTicker(symbol) respectively; otherwise it emits exactly TickerRemoved with the aggregate's id and the registered pair |
| Exchanges.RemoveThenApply | src/test/java/org/multibit/exchange/domain/model/ExchangeTest.java:81-118 | on a state whose pairs sit under their own ticker symbols, an accepted removal's event deletes exactly the requested symbol and changes nothing else |
| Exchanges.DecidePreservesConsistent | src/test/java/org/multibit/exchange/domain/model/ExchangeTest.java:86-102 | accepted commands with well-formed descriptors keep every pair under its own ticker symbol |
| Exchanges.ReplayConsistent | src/test/java/org/multibit/exchange/domain/model/ExchangeTest.java:86-102 | a history of well-formed registrations replays to a state whose pairs sit under their own ticker symbols |
| Exchanges.CreateOnEmptyHistory | src/test/java/org/multibit/exchange/domain/model/ExchangeTest.java:33-45 | on an empty history CreateExchange(id) emits exactly ExchangeCreated(id) |
| Exchanges.CreatedOnly | src/test/java/org/multibit/exchange/domain/model/ExchangeTest.java:56 | a history of one creation replays to a created exchange with no pairs |
| Exchanges.CreatedAndRegistered | src/test/java/org/multibit/exchange/domain/model/ExchangeTest.java:71-74 | creation plus one registration replays to a created exchange holding exactly that pair |
| Exchanges.RegisterOnCreatedExchange | src/test/java/org/multibit/exchange/domain/model/ExchangeTest.java:47-60 | given creation, registering emits exactly CurrencyPairRegistered(id, symbol, base, counter) |
| Exchanges.RegisterDuplicate | src/test/java/org/multibit/exchange/domain/model/ExchangeTest.java:62-78 | given creation and the registration, registering again fails with DuplicateCurrencyPairSymbol |
| Exchanges.RemoveRegistered | src/test/java/org/multibit/exchange/domain/model/ExchangeTest.java:81-103 | a pair registered under its ticker symbol is removed by that symbol, emitting exactly TickerRemoved(id, pair) |
| Exchanges.RemoveNeverRegistered | src/test/java/org/multibit/exchange/domain/model/ExchangeTest.java:105-118 | given only creation, removing any symbol fails with NoSuchTicker |
| Exchanges.Exchange.constructor | src/test/java/org/multibit/exchange/domain/model/ExchangeTest.java:30 | a new aggregate is in the initial state |
| Exchanges.Exchange.On | src/test/java/org/multibit/exchange/domain/model/ExchangeTest.java:72-74 | the event handler updates the fields exactly as Apply does |
| Exchanges.Exchange.ReplayHistory | src/test/java/org/multibit/exchange/domain/model/ExchangeTest.java:71-74 | the replay loop leaves the fields exactly as Replay does |
| Exchanges.Exchange.Handle | src/test/java/org/multibit/exchange/domain/model/ExchangeTest.java:75-77 | the command handler returns Decide's outcome, applies the emitted event on success, and changes nothing on failure |
| Exchanges.GivenWhenThen | src/test/java/org/multibit/exchange/domain/model/ExchangeTest.java:28-31 | replaying a history into a fresh aggregate and handling a command gives exactly GivenWhen's outcome |
| Exchanges.ReplayTwice | src/test/java/org/multibit/exchange/domain/model/ExchangeTest.java:71-74 | two fresh aggregates given the same history end in the same state |
| TradeableItems.GetSymbol | src/main/java/org/multibit/exchange/domain/TradeableItem.java:14-22 | the getter returns the symbol the item was built from |
| TradeableItems.Equals | src/main/java/org/multibit/exchange/domain/TradeableItem.java:24-34 | an object equals itself, never equals null, and equals a different object only if that object has the same runtime class. EqualsIffSameClassAndSymbol pins down the rest |
| TradeableItems.EqualsReflexive | src/main/java/org/multibit/exchange/domain/TradeableItem.java:26 | an object equals itself |
| TradeableItems.NeverEqualsNull | src/main/java/org/multibit/exchange/domain/TradeableItem.java:27 | no object equals null |
| TradeableItems.EqualsIffSameClassAndSymbol | src/main/java/org/multibit/exchange/domain/TradeableItem.java:24-34 | two objects are equal iff they have the same runtime class and the same symbol |
| TradeableItems.EqualsSymmetric | src/main/java/org/multibit/exchange/domain/TradeableItem.java:24-34 | equals is symmetric |
| TradeableItems.EqualsTransitive | src/main/java/org/multibit/exchange/domain/TradeableItem.java:24-34 | equals is transitive |
| TradeableItems.Wrap32 | src/main/java/org/multibit/exchange/domain/TradeableItem.java:37-39 | the wrapped value is a 32-bit signed integer congruent to its input modulo 2^32 |
| TradeableItems.StringHash | src/main/java/org/multibit/exchange/domain/TradeableItem.java:37-39 | the string hash is a 32-bit signed integer |
| TradeableItems.HashCode | src/main/java/org/multibit/exchange/domain/TradeableItem.java:36-39 | the item's hash is a 32-bit signed integer |
| TradeableItems.StringHashIsPolynomial | src/main/java/org/multibit/exchange/domain/TradeableItem.java:37-39 | the wrapped hash equals the polynomial sum of s[i]*31^(n-1-i) modulo 2^32 |
| TradeableItems.EqualsImpliesSameHash | src/main/java/org/multibit/exchange/domain/TradeableItem.java:24-39 | equal items have equal hash codes |
| TradeableItems.ToString | src/main/java/org/multibit/exchange/domain/TradeableItem.java:41-46 | the rendering starts with "TradeableItem{symbol='", ends with "'}" and holds the symbol in between; ToStringRoundTrip and ToStringInjective prove it determines the item |
| TradeableItems.ParseToString | src/main/java/org/multibit/exchange/domain/TradeableItem.java:41-46 | a symbol read from a rendering is as long as the rendering minus its fixed frame |
| TradeableItems.ToStringRoundTrip | src/main/java/org/multibit/exchange/domain/TradeableItem.java:41-46 | the rendering "TradeableItem{symbol='" + symbol + "'}" reads back to the symbol |
| TradeableItems.ParseToStringSound | src/main/java/org/multibit/exchange/domain/TradeableItem.java:41-46 | every string the reader accepts is the rendering of the symbol it reads |
| TradeableItems.ToStringInjective | src/main/java/org/multibit/exchange/domain/TradeableItem.java:41-46 | different items render differently |

## Left out

- The `OrderBook`, `Exchange`, `SecurityOrder`, `Trade`, `CurrencyPair`, `Ticker` and `ItemQuantity` implementation classes are not part of this model. Their behaviour is taken from `OrderBookTest` and `ExchangeTest`.
- Limit orders and every `OrderType` other than the market order are left out, because the market order is the only type the scenarios use. All trades are at price 0.
- An order's currency pair is left out, because every order in a book is for that book's pair.
- `BigDecimal` is replaced by exact `real`. Scale and rounding are not modelled.
- Joda `DateTime`, `nowUtc()` and `SecurityOrderId.next()` are left out. They become creation-time and id parameters, because clocks and id generators are I/O.
- The Axon fixture, command bus and event store are left out. Given-when-then is replay followed by handling a command, on a fresh aggregate.
- The test fakers are left out. Their generated values become parameters of the scenario lemmas.
- `ExchangeService` and `MarketReadModelBuilder` are interfaces with no logic and are left out.
- OrderBooks.OrderBook.AddOrderAndExecuteTrade: requires a positive quantity. What the book does with a zero or negative quantity is not modelled.
- Matching.DuplicateRejected: the duplicate rule rejects only ids that are still resting in the book. An id whose order was completely filled can be submitted again.
- OrderBooks.OrderBook.GetLowestAsk: on an empty side it returns `None`, because the behaviour of `getLowestAsk` and `getHighestBid` on an empty side is not shown.
- Exchanges.Decide: commands on an exchange that was never created fail with `ExchangeNotCreated`, and creating an exchange twice fails with `ExchangeAlreadyCreated`. Neither case is exercised by `ExchangeTest`.
- Exchanges.Decide: the exchange id inside a command is used only to route it, and emitted events carry the aggregate's own id.
- Exchanges.TickerSymbol: the `base + "/" + counter` format of a pair's ticker symbol is assumed. `CurrencyPair.getTicker()` is not part of this model.
- Exchanges.RemoveThenApply: requires a state whose pairs sit under their own ticker symbols, because the emitted event names the pair and its handler removes the pair's ticker symbol. Registering a descriptor whose symbol is not its pair's ticker breaks that. The failure cases hold on every state and are stated by `Exchanges.RemoveDecision`.
- TradeableItems.Equals: a Java `null` symbol is not modelled. The symbol is always a string.
- TradeableItems.StringHash: Dafny characters are Unicode scalar values, but Java hashes UTF-16 code units. The two hashes agree only on strings of Basic Multilingual Plane characters.
- The duplicate message uses the raw id string, which assumes `SecurityOrderId.toString` returns it.
