/** The data contracts shared by the ITCH parser and the order book. */
module Contracts {
  import opened Wrappers

  const LOCATE_LIMIT: nat := 0x1_0000
  const ORDER_REF_LIMIT: nat := 0x1_0000_0000_0000_0000
  const PRICE_LIMIT: nat := 0x1_0000_0000
  const SHARES_LIMIT: nat := 0x1_0000_0000
  const TIMESTAMP_LIMIT: nat := 0x1_0000_0000_0000

  datatype Op = Add | Execute | Cancel | Delete | Replace

  datatype Side = Buy | Sell | Unknown

  datatype RawEvent = NormalisedEvent(
    op: Op,
    locate: int,
    side: Side,
    orderRef: int,
    msgIndex: int,
    price: Option<int>,
    shares: Option<int>,
    newOrderRef: Option<int>,
    timestampNs: Option<int>)
  {
    /** The checks made when an event is constructed. */
    predicate Valid() {
      && 0 <= locate < LOCATE_LIMIT
      && 0 <= orderRef < ORDER_REF_LIMIT
      && 0 <= msgIndex
      && (timestampNs.Some? ==> 0 <= timestampNs.value < TIMESTAMP_LIMIT)
      && (side != Unknown <==> op == Add)
      && (price.Some? <==> op == Add || op == Replace)
      && (price.Some? ==> 0 <= price.value < PRICE_LIMIT)
      && (shares.Some? <==> op != Delete)
      && (shares.Some? ==> 0 <= shares.value < SHARES_LIMIT)
      && (newOrderRef.Some? <==> op == Replace)
      && (newOrderRef.Some? ==> 0 <= newOrderRef.value < ORDER_REF_LIMIT)
    }
  }

  /** An event that passed its construction checks; no other event exists in the program. */
  type Event = e: RawEvent | e.Valid()
    witness NormalisedEvent(Delete, 0, Unknown, 0, 0, None, None, None, None)

  /** Aggregate of the orders resting at one price. */
  datatype Level = Level(shares: nat, orderCount: nat)

  /** Best bid and offer; an empty side has no quote. */
  datatype Quote = Quote(price: nat, size: nat)
  datatype Bbo = Bbo(bid: Option<Quote>, ask: Option<Quote>)

  datatype BookState = BookState(
    msgIndex: nat,
    bbo: Bbo,
    bidLevels: map<nat, Level>,
    askLevels: map<nat, Level>)
}
