/** The order-book messages of the feed and their byte encodings. */
module ItchMessages {
  import opened Wrappers
  import opened Contracts
  import opened Bytes

  const ADD_NO_MPID: Byte := 65            // 'A'
  const ADD_WITH_MPID: Byte := 70          // 'F'
  const EXECUTED: Byte := 69               // 'E'
  const EXECUTED_WITH_PRICE: Byte := 67    // 'C'
  const CANCEL: Byte := 88                 // 'X'
  const DELETE: Byte := 68                 // 'D'
  const REPLACE: Byte := 85                // 'U'
  const BUY_INDICATOR: Byte := 66          // 'B'
  const SELL_INDICATOR: Byte := 83         // 'S'

  datatype Pricing = Pricing(printable: Byte, executionPrice: nat)

  datatype Body =
    | AddBody(side: Side, shares: nat, stock: ByteString, price: nat, attribution: Option<ByteString>)
    | ExecuteBody(shares: nat, matchNumber: nat, pricing: Option<Pricing>)
    | CancelBody(shares: nat)
    | DeleteBody
    | ReplaceBody(newOrderRef: nat, shares: nat, price: nat)

  datatype Message = Message(locate: nat, trackingNumber: nat, timestampNs: nat, orderRef: nat, body: Body)

  /** What the message builders demand: every field fits its width. */
  predicate Encodable(m: Message) {
    && Fits(m.locate, 2) && Fits(m.trackingNumber, 2) && Fits(m.timestampNs, 6) && Fits(m.orderRef, 8)
    && match m.body
       case AddBody(side, shares, stock, price, attribution) =>
         && side != Unknown && Fits(shares, 4) && |stock| == 8 && Fits(price, 4)
         && (attribution.Some? ==> |attribution.value| == 4)
       case ExecuteBody(shares, matchNumber, pricing) =>
         && Fits(shares, 4) && Fits(matchNumber, 8)
         && (pricing.Some? ==> Fits(pricing.value.executionPrice, 4))
       case CancelBody(shares) => Fits(shares, 4)
       case DeleteBody => true
       case ReplaceBody(newOrderRef, shares, price) => Fits(newOrderRef, 8) && Fits(shares, 4) && Fits(price, 4)
  }

  function MessageType(body: Body): Byte {
    match body
    case AddBody(_, _, _, _, attribution) => if attribution.Some? then ADD_WITH_MPID else ADD_NO_MPID
    case ExecuteBody(_, _, pricing) => if pricing.Some? then EXECUTED_WITH_PRICE else EXECUTED
    case CancelBody(_) => CANCEL
    case DeleteBody => DELETE
    case ReplaceBody(_, _, _) => REPLACE
  }

  function SideByte(side: Side): Byte
    requires side != Unknown
  {
    if side == Buy then BUY_INDICATOR else SELL_INDICATOR
  }

  function CommonParts(m: Message): seq<ByteString>
    requires Encodable(m)
  {
    [[MessageType(m.body)], Uint(m.locate, 2), Uint(m.trackingNumber, 2), Uint(m.timestampNs, 6), Uint(m.orderRef, 8)]
  }

  function BodyParts(m: Message): seq<ByteString>
    requires Encodable(m)
  {
    match m.body
    case AddBody(side, shares, stock, price, attribution) =>
      [[SideByte(side)], Uint(shares, 4), stock, Uint(price, 4)]
      + if attribution.Some? then [attribution.value] else []
    case ExecuteBody(shares, matchNumber, pricing) =>
      [Uint(shares, 4), Uint(matchNumber, 8)]
      + if pricing.Some? then [[pricing.value.printable], Uint(pricing.value.executionPrice, 4)] else []
    case CancelBody(shares) => [Uint(shares, 4)]
    case DeleteBody => []
    case ReplaceBody(newOrderRef, shares, price) => [Uint(newOrderRef, 8), Uint(shares, 4), Uint(price, 4)]
  }

  function Parts(m: Message): seq<ByteString>
    requires Encodable(m)
  {
    CommonParts(m) + BodyParts(m)
  }

  function Encode(m: Message): ByteString
    requires Encodable(m)
  {
    Join(Parts(m))
  }

  /** The book event a message stands for; stock, tracking, match and pricing details play no part in it. */
  function EventOf(m: Message, msgIndex: nat): Event
    requires Encodable(m)
  {
    FieldWidths();
    var timestamp := Some(m.timestampNs);
    match m.body
    case AddBody(side, shares, _, price, _) =>
      NormalisedEvent(Op.Add, m.locate, side, m.orderRef, msgIndex, Some(price), Some(shares), None, timestamp)
    case ExecuteBody(shares, _, _) =>
      NormalisedEvent(Op.Execute, m.locate, Unknown, m.orderRef, msgIndex, None, Some(shares), None, timestamp)
    case CancelBody(shares) =>
      NormalisedEvent(Op.Cancel, m.locate, Unknown, m.orderRef, msgIndex, None, Some(shares), None, timestamp)
    case DeleteBody =>
      NormalisedEvent(Op.Delete, m.locate, Unknown, m.orderRef, msgIndex, None, None, None, timestamp)
    case ReplaceBody(newOrderRef, shares, price) =>
      NormalisedEvent(Op.Replace, m.locate, Unknown, m.orderRef, msgIndex,
                      Some(price), Some(shares), Some(newOrderRef), timestamp)
  }
}
