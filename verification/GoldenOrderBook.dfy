/** The golden order book: three dictionaries updated step by step. */
module GoldenOrderBook {
  import opened Wrappers
  import opened Contracts
  import opened BookSteps
  import Steps = BookSteps

  /** Whether one price is at least as good as another for its side. */
  predicate NoWorse(side: Side, price: nat, other: nat) {
    if side == Buy then price >= other else price <= other
  }

  predicate IsBestOf(prices: set<nat>, side: Side, best: nat) {
    best in prices && forall q :: q in prices ==> NoWorse(side, best, q)
  }

  lemma {:induction false} BestExists(prices: set<nat>, side: Side)
    requires prices != {}
    ensures exists p :: IsBestOf(prices, side, p)
  {
    hide IsBestOf;
    var p :| p in prices;
    if prices - {p} == {} {
      BestAlone(prices, side, p);
    } else {
      BestExists(prices - {p}, side);
      var best :| IsBestOf(prices - {p}, side, best);
      BestOfMore(prices, side, p, best);
    }
  }

  lemma BestAlone(prices: set<nat>, side: Side, p: nat)
    requires p in prices && prices - {p} == {}
    ensures IsBestOf(prices, side, p)
  {
    assert forall q :: q in prices ==> q == p || q in prices - {p};
  }

  lemma BestOfMore(prices: set<nat>, side: Side, p: nat, best: nat)
    requires p in prices && IsBestOf(prices - {p}, side, best)
    ensures IsBestOf(prices, side, if NoWorse(side, p, best) then p else best)
  {
    assert forall q :: q in prices ==> q == p || q in prices - {p};
  }

  /** The highest bid or the lowest ask among some prices. */
  function BestPrice(prices: set<nat>, side: Side): (best: nat)
    requires prices != {}
    ensures best in prices
    ensures forall q :: q in prices ==> NoWorse(side, best, q)
  {
    BestExists(prices, side);
    var p :| p in prices && forall q :: q in prices ==> NoWorse(side, p, q);
    p
  }

  function QuoteOf(levels: Levels, side: Side): Option<Quote> {
    if levels == map[] then None
    else
      var best := BestPrice(levels.Keys, side);
      Some(Quote(best, levels[best].shares))
  }

  function BboOf(b: Book): Bbo {
    Bbo(QuoteOf(b.bids, Buy), QuoteOf(b.asks, Sell))
  }

  function StateOf(b: Book, msgIndex: nat): BookState {
    BookState(msgIndex, BboOf(b), b.bids, b.asks)
  }

  class OrderBook {
    var orderTable: Orders
    var bidLevels: Levels
    var askLevels: Levels
    const expectedLocate: Option<nat>

    function State(): Book
      reads this
    {
      Book(orderTable, bidLevels, askLevels)
    }

    constructor (expectedLocate: Option<nat>)
      ensures State() == EMPTY_BOOK
      ensures this.expectedLocate == expectedLocate
    {
      orderTable, bidLevels, askLevels := map[], map[], map[];
      this.expectedLocate := expectedLocate;
    }

    method Apply(event: Event) returns (error: Option<BookError>)
      modifies this
      ensures Outcome(State(), error) == Steps.Apply(old(State()), event, expectedLocate)
    {
      if expectedLocate.Some? && event.locate != expectedLocate.value {
        return Some(UnexpectedLocate);
      }
      match event.op {
        case Add =>
          error := AddOrder(event.orderRef, Order(event.side, event.price.value, event.shares.value, event.locate));
        case Execute =>
          error := ReduceOrder(event);
        case Cancel =>
          error := ReduceOrder(event);
        case Delete =>
          if event.orderRef !in orderTable {
            return Some(UnknownRef);
          }
          error := RemoveOrder(event.orderRef);
        case Replace =>
          error := ReplaceOrder(event);
      }
    }

    method ReplaceOrder(event: Event) returns (error: Option<BookError>)
      requires event.op == Replace
      modifies this
      ensures Outcome(State(), error) == Steps.ReplaceOrder(old(State()), event)
    {
      if event.orderRef !in orderTable {
        return Some(UnknownRef);
      }
      var record := orderTable[event.orderRef];
      var newRef := event.newOrderRef.value;
      if newRef != event.orderRef && newRef in orderTable {
        return Some(ReusedRef);
      }
      error := RemoveOrder(event.orderRef);
      if error.None? {
        error := AddOrder(newRef, Order(record.side, event.price.value, event.shares.value, event.locate));
      }
    }

    method ReduceOrder(event: Event) returns (error: Option<BookError>)
      requires event.op == Execute || event.op == Cancel
      modifies this
      ensures Outcome(State(), error) == Steps.ReduceOrder(old(State()), event)
    {
      if event.orderRef !in orderTable {
        return Some(UnknownRef);
      }
      var record := orderTable[event.orderRef];
      var sharesDelta := event.shares.value;
      if sharesDelta > record.shares {
        return Some(ExcessShares);
      }
      var remaining := record.shares - sharesDelta;
      if remaining > 0 {
        error := DecreaseLevel(record.side, record.price, sharesDelta, 0);
        if error.None? {
          orderTable := orderTable[event.orderRef := record.(shares := remaining)];
        }
        return;
      }
      error := DecreaseLevel(record.side, record.price, sharesDelta, 1);
      if error.None? {
        orderTable := orderTable - {event.orderRef};
      }
    }

    method AddOrder(ref: nat, order: Order) returns (error: Option<BookError>)
      modifies this
      ensures Outcome(State(), error) == Steps.AddOrder(old(State()), ref, order)
    {
      if ref in orderTable {
        return Some(ReusedRef);
      }
      orderTable := orderTable[ref := order];
      error := IncreaseLevel(order.side, order.price, order.shares);
    }

    method RemoveOrder(ref: nat) returns (error: Option<BookError>)
      requires ref in orderTable
      modifies this
      ensures Outcome(State(), error) == Steps.RemoveOrder(old(State()), ref)
    {
      var record := orderTable[ref];
      error := DecreaseLevel(record.side, record.price, record.shares, 1);
      if error.None? {
        orderTable := orderTable - {ref};
      }
    }

    method IncreaseLevel(side: Side, price: nat, shares: nat) returns (error: Option<BookError>)
      modifies this`bidLevels, this`askLevels
      ensures Outcome(State(), error) == Steps.IncreaseLevel(old(State()), side, price, shares)
    {
      if side == Unknown {
        return Some(NotBookSide);
      }
      var levels := if side == Buy then bidLevels else askLevels;
      match LevelAfterIncrease(levels, price, shares) {
        case Err(raised) =>
          error := Some(raised);
        case Ok(level) =>
          StoreLevels(side, levels[price := level]);
          error := None;
      }
    }

    method DecreaseLevel(side: Side, price: nat, sharesDelta: nat, countDelta: nat)
      returns (error: Option<BookError>)
      modifies this`bidLevels, this`askLevels
      ensures Outcome(State(), error) == Steps.DecreaseLevel(old(State()), side, price, sharesDelta, countDelta)
    {
      if side == Unknown {
        return Some(NotBookSide);
      }
      var levels := if side == Buy then bidLevels else askLevels;
      if price !in levels {
        return Some(MissingLevel);
      }
      match LevelAfterDecrease(levels[price], sharesDelta, countDelta) {
        case Err(raised) =>
          error := Some(raised);
        case Ok(None) =>
          StoreLevels(side, levels - {price});
          error := None;
        case Ok(Some(level)) =>
          StoreLevels(side, levels[price := level]);
          error := None;
      }
    }

    method StoreLevels(side: Side, levels: Levels)
      modifies this`bidLevels, this`askLevels
      ensures State() == old(State()).WithLevels(side, levels)
    {
      if side == Buy {
        bidLevels := levels;
      } else {
        askLevels := levels;
      }
    }

    function Bbo(): Bbo
      reads this
    {
      BboOf(State())
    }

    function Snapshot(msgIndex: nat): BookState
      reads this
    {
      StateOf(State(), msgIndex)
    }
  }
}
