/**
  The order book's update steps as functions on book values.

  Every step returns the book it leaves behind together with the error it raised, if any, so
  an update that is abandoned half way stays visible.  The steps are total: they say what
  happens on every book, including one whose levels disagree with its orders.
  */
module BookSteps {
  import opened Wrappers
  import opened Contracts

  datatype Order = Order(side: Side, price: nat, shares: nat, locate: nat)

  type Orders = map<nat, Order>

  type Levels = map<nat, Level>

  datatype BookError =
    | UnexpectedLocate
    | UnknownRef
    | ReusedRef
    | ExcessShares
    | LevelWidth            // a level's shares do not fit in 32 bits
    | NotBookSide
    | MissingLevel          // the remaining four accuse the book's own bookkeeping
    | NegativeShares
    | NegativeCount
    | EmptyLevelHasShares

  datatype Book = Book(orders: Orders, bids: Levels, asks: Levels)
  {
    function LevelsFor(side: Side): Levels {
      if side == Buy then bids else asks
    }

    function WithLevels(side: Side, levels: Levels): Book {
      if side == Buy then this.(bids := levels) else this.(asks := levels)
    }
  }

  const EMPTY_BOOK := Book(map[], map[], map[])

  datatype Outcome = Outcome(book: Book, error: Option<BookError>)

  function CheckedLevel(shares: nat, orderCount: nat): Result<Level, BookError> {
    if shares < SHARES_LIMIT then Ok(Level(shares, orderCount)) else Err(LevelWidth)
  }

  function LevelAfterIncrease(levels: Levels, price: nat, shares: nat): Result<Level, BookError> {
    if price !in levels then CheckedLevel(shares, 1)
    else CheckedLevel(levels[price].shares + shares, levels[price].orderCount + 1)
  }

  /** The level left after a decrease, or none when its last order has gone. */
  function LevelAfterDecrease(level: Level, sharesDelta: nat, countDelta: nat): Result<Option<Level>, BookError> {
    if level.shares < sharesDelta then Err(NegativeShares)
    else if level.orderCount < countDelta then Err(NegativeCount)
    else if level.orderCount == countDelta then
      if level.shares != sharesDelta then Err(EmptyLevelHasShares) else Ok(None)
    else match CheckedLevel(level.shares - sharesDelta, level.orderCount - countDelta)
      case Err(error) => Err(error)
      case Ok(reduced) => Ok(Some(reduced))
  }

  function IncreaseLevel(b: Book, side: Side, price: nat, shares: nat): Outcome {
    if side == Unknown then Outcome(b, Some(NotBookSide))
    else
      var levels := b.LevelsFor(side);
      match LevelAfterIncrease(levels, price, shares)
      case Err(error) => Outcome(b, Some(error))
      case Ok(level) => Outcome(b.WithLevels(side, levels[price := level]), None)
  }

  function DecreaseLevel(b: Book, side: Side, price: nat, sharesDelta: nat, countDelta: nat): Outcome {
    if side == Unknown then Outcome(b, Some(NotBookSide))
    else
      var levels := b.LevelsFor(side);
      if price !in levels then Outcome(b, Some(MissingLevel))
      else match LevelAfterDecrease(levels[price], sharesDelta, countDelta)
        case Err(error) => Outcome(b, Some(error))
        case Ok(None) => Outcome(b.WithLevels(side, levels - {price}), None)
        case Ok(Some(level)) => Outcome(b.WithLevels(side, levels[price := level]), None)
  }

  /** The order is recorded before its level is increased. */
  function AddOrder(b: Book, ref: nat, order: Order): Outcome {
    if ref in b.orders then Outcome(b, Some(ReusedRef))
    else IncreaseLevel(b.(orders := b.orders[ref := order]), order.side, order.price, order.shares)
  }

  /** The level is decreased before the order is forgotten. */
  function RemoveOrder(b: Book, ref: nat): Outcome
    requires ref in b.orders
  {
    var order := b.orders[ref];
    var o := DecreaseLevel(b, order.side, order.price, order.shares, 1);
    if o.error.Some? then o else Outcome(o.book.(orders := o.book.orders - {ref}), None)
  }

  function ReduceOrder(b: Book, e: Event): Outcome
    requires e.op == Execute || e.op == Cancel
  {
    if e.orderRef !in b.orders then Outcome(b, Some(UnknownRef))
    else
      var order := b.orders[e.orderRef];
      var delta := e.shares.value;
      if delta > order.shares then Outcome(b, Some(ExcessShares))
      else
        var remaining := order.shares - delta;
        var o := DecreaseLevel(b, order.side, order.price, delta, if remaining > 0 then 0 else 1);
        if o.error.Some? then o
        else if remaining > 0 then
          Outcome(o.book.(orders := o.book.orders[e.orderRef := order.(shares := remaining)]), None)
        else Outcome(o.book.(orders := o.book.orders - {e.orderRef}), None)
  }

  function ReplaceOrder(b: Book, e: Event): Outcome
    requires e.op == Replace
  {
    if e.orderRef !in b.orders then Outcome(b, Some(UnknownRef))
    else if e.newOrderRef.value != e.orderRef && e.newOrderRef.value in b.orders then Outcome(b, Some(ReusedRef))
    else
      var o := RemoveOrder(b, e.orderRef);
      if o.error.Some? then o
      else AddOrder(o.book, e.newOrderRef.value, Replacement(b.orders[e.orderRef], e))
  }

  /** A replacement inherits the side of the order it replaces. */
  function Replacement(replaced: Order, e: Event): Order
    requires e.op == Replace
  {
    Order(replaced.side, e.price.value, e.shares.value, e.locate)
  }

  function Apply(b: Book, e: Event, expectedLocate: Option<nat>): Outcome {
    if expectedLocate.Some? && e.locate != expectedLocate.value then Outcome(b, Some(UnexpectedLocate))
    else match e.op
      case Add => AddOrder(b, e.orderRef, Order(e.side, e.price.value, e.shares.value, e.locate))
      case Execute => ReduceOrder(b, e)
      case Cancel => ReduceOrder(b, e)
      case Delete =>
        if e.orderRef !in b.orders then Outcome(b, Some(UnknownRef)) else RemoveOrder(b, e.orderRef)
      case Replace => ReplaceOrder(b, e)
  }

  /** A whole run: events are applied in order until one is rejected. */
  function Run(b: Book, events: seq<Event>, expectedLocate: Option<nat>): Outcome {
    if events == [] then Outcome(b, None)
    else
      var o := Run(b, events[..|events| - 1], expectedLocate);
      if o.error.Some? then o else Apply(o.book, events[|events| - 1], expectedLocate)
  }
}
