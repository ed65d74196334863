/** The event-sourced Exchange aggregate: a created flag, the exchange's id
    and its registered currency pairs keyed by ticker symbol. Events change
    that state; commands are validated against it and either emit exactly
    one event or fail with a named error. */
module Exchanges {
  import opened Wrappers

  type ExchangeId = string

  datatype CurrencyPair = CurrencyPair(baseCurrency: string, counterCurrency: string)

  datatype CurrencyPairDescriptor =
    CurrencyPairDescriptor(symbol: string, baseCurrency: string, counterCurrency: string)

  /** The ticker symbol of a pair, as in "ABC/XYZ". */
  function TickerSymbol(p: CurrencyPair): string
  {
    p.baseCurrency + "/" + p.counterCurrency
  }

  datatype Command =
    | CreateExchange(exchangeId: ExchangeId)
    | RegisterCurrencyPair(exchangeId: ExchangeId, descriptor: CurrencyPairDescriptor)
    | RemoveTicker(exchangeId: ExchangeId, tickerSymbol: string)

  datatype Event =
    | ExchangeCreated(exchangeId: ExchangeId)
    | CurrencyPairRegistered(exchangeId: ExchangeId, symbol: string, baseCurrency: string, counterCurrency: string)
    | TickerRemoved(exchangeId: ExchangeId, pair: CurrencyPair)

  datatype ExchangeError =
    | DuplicateCurrencyPairSymbol(symbol: string)
    | NoSuchTicker(symbol: string)
    | ExchangeNotCreated
    | ExchangeAlreadyCreated

  datatype ExchangeState = ExchangeState(created: bool, exchangeId: ExchangeId, pairs: map<string, CurrencyPair>)

  const Initial: ExchangeState := ExchangeState(false, "", map[])

  /** The event handlers: how one event changes the aggregate's state. */
  function Apply(s: ExchangeState, e: Event): (r: ExchangeState)
    ensures e.ExchangeCreated? ==> r.created && r.exchangeId == e.exchangeId && r.pairs == s.pairs
    ensures !e.ExchangeCreated? ==> r.created == s.created && r.exchangeId == s.exchangeId
    ensures e.CurrencyPairRegistered? ==>
      e.symbol in r.pairs && r.pairs[e.symbol] == CurrencyPair(e.baseCurrency, e.counterCurrency)
    ensures e.TickerRemoved? ==> TickerSymbol(e.pair) !in r.pairs
  {
    match e
    case ExchangeCreated(id) => s.(created := true, exchangeId := id)
    case CurrencyPairRegistered(_, symbol, base, counter) =>
      s.(pairs := s.pairs[symbol := CurrencyPair(base, counter)])
    case TickerRemoved(_, pair) => s.(pairs := s.pairs - {TickerSymbol(pair)})
  }

  /** `events` applied in order, starting from `s`. */
  function Replay(s: ExchangeState, events: seq<Event>): (r: ExchangeState)
    ensures s.created ==> r.created
    ensures (forall i :: 0 <= i < |events| ==> !events[i].ExchangeCreated?) ==>
      r.created == s.created && r.exchangeId == s.exchangeId
  {
    if events == [] then s
    else Apply(Replay(s, events[..|events| - 1]), events[|events| - 1])
  }

  /** The command handlers: validation against the state and the events to
      emit. Events carry the aggregate's own id. */
  function Decide(s: ExchangeState, c: Command): (r: Result<seq<Event>, ExchangeError>)
    ensures r.Success? ==> |r.value| == 1
    ensures r.Success? ==>
      r.value[0].exchangeId == if c.CreateExchange? then c.exchangeId else s.exchangeId
    ensures r == Failure(ExchangeNotCreated) <==> !s.created && !c.CreateExchange?
  {
    match c
    case CreateExchange(id) =>
      if s.created then Failure(ExchangeAlreadyCreated) else Success([ExchangeCreated(id)])
    case RegisterCurrencyPair(_, d) =>
      if !s.created then Failure(ExchangeNotCreated)
      else if d.symbol in s.pairs then Failure(DuplicateCurrencyPairSymbol(d.symbol))
      else Success([CurrencyPairRegistered(s.exchangeId, d.symbol, d.baseCurrency, d.counterCurrency)])
    case RemoveTicker(_, symbol) =>
      if !s.created then Failure(ExchangeNotCreated)
      else if symbol !in s.pairs then Failure(NoSuchTicker(symbol))
      else Success([TickerRemoved(s.exchangeId, s.pairs[symbol])])
  }

  /** A given-when-then step: replay the history into a fresh aggregate, then
      handle the command. */
  function GivenWhen(given: seq<Event>, c: Command): (r: Result<seq<Event>, ExchangeError>)
    ensures r.Success? ==> |r.value| == 1
    ensures given == [] ==> (r.Success? <==> c.CreateExchange?)
  {
    Decide(Replay(Initial, given), c)
  }

  /** Every registered pair is stored under its own ticker symbol. */
  ghost predicate Consistent(s: ExchangeState)
  {
    forall symbol :: symbol in s.pairs ==> TickerSymbol(s.pairs[symbol]) == symbol
  }

  predicate WellFormed(d: CurrencyPairDescriptor)
  {
    d.symbol == TickerSymbol(CurrencyPair(d.baseCurrency, d.counterCurrency))
  }

  // ---------------------------------------------------------------------
  // Replay

  lemma {:induction false} ReplayAppend(s: ExchangeState, a: seq<Event>, b: seq<Event>)
    ensures Replay(s, a + b) == Replay(Replay(s, a), b)
  {
    if b != [] {
      assert (a + b)[..|a + b| - 1] == a + b[..|b| - 1];
      ReplayAppend(s, a, b[..|b| - 1]);
    } else {
      assert a + b == a;
    }
  }

  /** Whether a history holds a creation event. */
  predicate MentionsCreation(h: seq<Event>)
  {
    exists i :: 0 <= i < |h| && h[i].ExchangeCreated?
  }

  /** The pair a history leaves registered under `symbol`, read off the last
      event about that symbol. */
  function RegisteredIn(h: seq<Event>, symbol: string): Option<CurrencyPair>
  {
    if h == [] then None
    else
      match h[|h| - 1]
      case CurrencyPairRegistered(_, s, base, counter) =>
        if s == symbol then Some(CurrencyPair(base, counter)) else RegisteredIn(h[..|h| - 1], symbol)
      case TickerRemoved(_, pair) =>
        if TickerSymbol(pair) == symbol then None else RegisteredIn(h[..|h| - 1], symbol)
      case ExchangeCreated(_) => RegisteredIn(h[..|h| - 1], symbol)
  }

  /** The state replayed from a history is what the history says: created
      iff it holds a creation event, and each symbol registered iff the last
      event about it registered it, with that event's pair. */
  lemma {:induction false} ReplayMatchesHistory(h: seq<Event>, symbol: string)
    ensures Replay(Initial, h).created <==> MentionsCreation(h)
    ensures symbol in Replay(Initial, h).pairs <==> RegisteredIn(h, symbol).Some?
    ensures symbol in Replay(Initial, h).pairs ==>
      Replay(Initial, h).pairs[symbol] == RegisteredIn(h, symbol).value
  {
    if h != [] {
      var init := h[..|h| - 1];
      ReplayMatchesHistory(init, symbol);
      if MentionsCreation(init) {
        var i :| 0 <= i < |init| && init[i].ExchangeCreated?;
        assert h[i] == init[i];
      }
      if MentionsCreation(h) && !h[|h| - 1].ExchangeCreated? {
        var i :| 0 <= i < |h| && h[i].ExchangeCreated?;
        assert init[i] == h[i];
      }
    }
  }

  /** The outcome of a command depends on the history only through the
      state it replays to: two histories that agree on creation and on the
      registration of every symbol give the same outcome. */
  lemma SameRegistrationsSameOutcome(h1: seq<Event>, h2: seq<Event>, c: Command)
    requires MentionsCreation(h1) <==> MentionsCreation(h2)
    requires forall symbol :: RegisteredIn(h1, symbol) == RegisteredIn(h2, symbol)
    requires Replay(Initial, h1).exchangeId == Replay(Initial, h2).exchangeId
    ensures GivenWhen(h1, c) == GivenWhen(h2, c)
  {
    var s1 := Replay(Initial, h1);
    var s2 := Replay(Initial, h2);
    forall symbol ensures (symbol in s1.pairs <==> symbol in s2.pairs)
      && (symbol in s1.pairs ==> s1.pairs[symbol] == s2.pairs[symbol])
    {
      ReplayMatchesHistory(h1, symbol);
      ReplayMatchesHistory(h2, symbol);
    }
    ReplayMatchesHistory(h1, "");
    ReplayMatchesHistory(h2, "");
    assert s1.pairs == s2.pairs;
  }

  // ---------------------------------------------------------------------
  // Commands

  /** Creating an exchange fails iff it already exists; otherwise the one
      event it emits marks it created under the requested id. */
  lemma {:induction false} CreateThenApply(s: ExchangeState, id: ExchangeId)
    ensures Decide(s, CreateExchange(id)).Failure? <==> s.created
    ensures Decide(s, CreateExchange(id)).Failure? ==>
      Decide(s, CreateExchange(id)).error == ExchangeAlreadyCreated
    ensures Decide(s, CreateExchange(id)).Success? ==>
      |Decide(s, CreateExchange(id)).value| == 1
      && Replay(s, Decide(s, CreateExchange(id)).value) == s.(created := true, exchangeId := id)
  {
  }

  /** Registering a pair fails before creation or on a symbol already in
      use; otherwise the one event it emits adds exactly that symbol, mapped
      to the descriptor's currencies. */
  lemma {:induction false} RegisterThenApply(s: ExchangeState, id: ExchangeId, d: CurrencyPairDescriptor)
    ensures Decide(s, RegisterCurrencyPair(id, d)).Failure? <==> !s.created || d.symbol in s.pairs
    ensures Decide(s, RegisterCurrencyPair(id, d)).Failure? ==>
      Decide(s, RegisterCurrencyPair(id, d)).error
        == if !s.created then ExchangeNotCreated else DuplicateCurrencyPairSymbol(d.symbol)
    ensures Decide(s, RegisterCurrencyPair(id, d)).Success? ==>
      |Decide(s, RegisterCurrencyPair(id, d)).value| == 1
      && Replay(s, Decide(s, RegisterCurrencyPair(id, d)).value)
         == s.(pairs := s.pairs[d.symbol := CurrencyPair(d.baseCurrency, d.counterCurrency)])
  {
  }

  /** Removing a ticker fails before creation or on an unknown symbol, with
      the matching error; otherwise it emits exactly one event, naming the
      pair registered under that symbol. */
  lemma {:induction false} RemoveDecision(s: ExchangeState, id: ExchangeId, symbol: string)
    ensures Decide(s, RemoveTicker(id, symbol)).Failure? <==> !s.created || symbol !in s.pairs
    ensures Decide(s, RemoveTicker(id, symbol)).Failure? ==>
      Decide(s, RemoveTicker(id, symbol)).error
        == if !s.created then ExchangeNotCreated else NoSuchTicker(symbol)
    ensures Decide(s, RemoveTicker(id, symbol)).Success? ==>
      Decide(s, RemoveTicker(id, symbol)).value == [TickerRemoved(s.exchangeId, s.pairs[symbol])]
  {
  }

  /** On a state whose pairs sit under their own ticker symbols, the event
      an accepted removal emits deletes exactly the symbol removed. */
  lemma {:induction false} RemoveThenApply(s: ExchangeState, id: ExchangeId, symbol: string)
    requires Consistent(s)
    ensures Decide(s, RemoveTicker(id, symbol)).Success? ==>
      Replay(s, Decide(s, RemoveTicker(id, symbol)).value) == s.(pairs := s.pairs - {symbol})
  {
  }

  /** Accepted commands keep every pair under its own ticker symbol when the
      registered descriptors are well formed. */
  lemma DecidePreservesConsistent(s: ExchangeState, c: Command)
    requires Consistent(s)
    requires c.RegisterCurrencyPair? ==> WellFormed(c.descriptor)
    requires Decide(s, c).Success?
    ensures Consistent(Replay(s, Decide(s, c).value))
  {
  }

  /** A registration event files its pair under the pair's own ticker
      symbol. */
  predicate WellFormedEvent(e: Event)
  {
    e.CurrencyPairRegistered? ==>
      e.symbol == TickerSymbol(CurrencyPair(e.baseCurrency, e.counterCurrency))
  }

  /** A history of well-formed registrations replays to a state whose pairs
      sit under their own ticker symbols, so removal by ticker symbol
      deletes exactly the pair asked for. */
  lemma {:induction false} ReplayConsistent(h: seq<Event>)
    requires forall i :: 0 <= i < |h| ==> WellFormedEvent(h[i])
    ensures Consistent(Replay(Initial, h))
  {
    if h != [] {
      var init := h[..|h| - 1];
      assert forall i :: 0 <= i < |init| ==> init[i] == h[i];
      ReplayConsistent(init);
      assert WellFormedEvent(h[|h| - 1]);
    }
  }

  // ---------------------------------------------------------------------
  // The given-when-then scenarios of ExchangeTest

  lemma CreateOnEmptyHistory(id: ExchangeId)
    ensures GivenWhen([], CreateExchange(id)) == Success([ExchangeCreated(id)])
  {
  }

  /** The state a history of creation alone replays to. */
  lemma CreatedOnly(id: ExchangeId)
    ensures Replay(Initial, [ExchangeCreated(id)]) == ExchangeState(true, id, map[])
  {
  }

  /** The state a history of creation and one registration replays to. */
  lemma CreatedAndRegistered(id: ExchangeId, d: CurrencyPairDescriptor)
    ensures Replay(Initial, [ExchangeCreated(id), CurrencyPairRegistered(id, d.symbol, d.baseCurrency, d.counterCurrency)])
         == ExchangeState(true, id, map[d.symbol := CurrencyPair(d.baseCurrency, d.counterCurrency)])
  {
    var h := [ExchangeCreated(id), CurrencyPairRegistered(id, d.symbol, d.baseCurrency, d.counterCurrency)];
    assert h[..1] == [ExchangeCreated(id)];
    CreatedOnly(id);
  }

  lemma RegisterOnCreatedExchange(id: ExchangeId, d: CurrencyPairDescriptor)
    ensures GivenWhen([ExchangeCreated(id)], RegisterCurrencyPair(id, d))
         == Success([CurrencyPairRegistered(id, d.symbol, d.baseCurrency, d.counterCurrency)])
  {
    CreatedOnly(id);
  }

  lemma RegisterDuplicate(id: ExchangeId, d: CurrencyPairDescriptor)
    ensures GivenWhen([ExchangeCreated(id), CurrencyPairRegistered(id, d.symbol, d.baseCurrency, d.counterCurrency)],
                      RegisterCurrencyPair(id, d))
         == Failure(DuplicateCurrencyPairSymbol(d.symbol))
  {
    CreatedAndRegistered(id, d);
  }

  /** A pair registered under the ticker symbol of `CurrencyPair(base,
      counter)` is found when removed by that symbol. */
  lemma RemoveRegistered(id: ExchangeId, d: CurrencyPairDescriptor)
    requires WellFormed(d)
    ensures var pair := CurrencyPair(d.baseCurrency, d.counterCurrency);
      GivenWhen([ExchangeCreated(id), CurrencyPairRegistered(id, d.symbol, d.baseCurrency, d.counterCurrency)],
                RemoveTicker(id, TickerSymbol(pair)))
      == Success([TickerRemoved(id, pair)])
  {
    CreatedAndRegistered(id, d);
  }

  lemma RemoveNeverRegistered(id: ExchangeId, symbol: string)
    ensures GivenWhen([ExchangeCreated(id)], RemoveTicker(id, symbol)) == Failure(NoSuchTicker(symbol))
  {
    CreatedOnly(id);
  }

  // ---------------------------------------------------------------------
  // The aggregate object

  class Exchange {
    var created: bool
    var exchangeId: ExchangeId
    var pairs: map<string, CurrencyPair>

    ghost function State(): ExchangeState
      reads this
    {
      ExchangeState(created, exchangeId, pairs)
    }

    constructor ()
      ensures State() == Initial
    {
      created, exchangeId, pairs := false, "", map[];
    }

    /** Event handler. */
    method On(e: Event)
      modifies this
      ensures State() == Apply(old(State()), e)
    {
      match e
      case ExchangeCreated(id) =>
        created, exchangeId := true, id;
      case CurrencyPairRegistered(_, symbol, base, counter) =>
        pairs := pairs[symbol := CurrencyPair(base, counter)];
      case TickerRemoved(_, pair) =>
        pairs := pairs - {TickerSymbol(pair)};
    }

    /** Rebuilds the state from a history, one event at a time. */
    method ReplayHistory(events: seq<Event>)
      modifies this
      ensures State() == Replay(old(State()), events)
    {
      for i := 0 to |events|
        invariant State() == Replay(old(State()), events[..i])
      {
        assert events[..i + 1][..i] == events[..i];
        On(events[i]);
      }
      assert events[..|events|] == events;
    }

    /** Command handler: validates, then applies the event it emits through
        the same handler replay uses; a rejected command changes nothing. */
    method Handle(c: Command) returns (r: Result<seq<Event>, ExchangeError>)
      modifies this
      ensures r == Decide(old(State()), c)
      ensures State() == if r.Success? then Replay(old(State()), r.value) else old(State())
    {
      var e: Event;
      match c {
        case CreateExchange(id) =>
          if created {
            return Failure(ExchangeAlreadyCreated);
          }
          e := ExchangeCreated(id);
        case RegisterCurrencyPair(_, d) =>
          if !created {
            return Failure(ExchangeNotCreated);
          }
          if d.symbol in pairs {
            return Failure(DuplicateCurrencyPairSymbol(d.symbol));
          }
          e := CurrencyPairRegistered(exchangeId, d.symbol, d.baseCurrency, d.counterCurrency);
        case RemoveTicker(_, symbol) =>
          if !created {
            return Failure(ExchangeNotCreated);
          }
          if symbol !in pairs {
            return Failure(NoSuchTicker(symbol));
          }
          e := TickerRemoved(exchangeId, pairs[symbol]);
      }
      r := Success([e]);
      assert [e][..0] == [];
      On(e);
    }
  }

  /** The test fixture: a fresh aggregate given a history, then a command. */
  method GivenWhenThen(given: seq<Event>, c: Command) returns (r: Result<seq<Event>, ExchangeError>)
    ensures r == GivenWhen(given, c)
  {
    var exchange := new Exchange();
    exchange.ReplayHistory(given);
    r := exchange.Handle(c);
  }

  /** Replaying one history into two fresh aggregates gives the same state:
      nothing but the events decides it. */
  method ReplayTwice(events: seq<Event>) returns (same: bool)
    ensures same
  {
    var first := new Exchange();
    var second := new Exchange();
    first.ReplayHistory(events);
    second.ReplayHistory(events);
    same := first.created == second.created && first.exchangeId == second.exchangeId
            && first.pairs == second.pairs;
  }
}
