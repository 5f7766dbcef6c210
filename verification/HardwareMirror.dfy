/** The replay's mirror of which orders reached the hardware book through its price window. */
module HardwareMirror {
  import opened Wrappers
  import opened Contracts
  import opened Bytes
  import opened ItchMessages
  import opened ItchParser
  import opened BinaryFile
  import opened BookSteps
  import opened BookIndex
  import opened BookRefinement
  import opened BookTheorems

  const WINDOW_WIDTH: nat := 0x4000     // a 14-bit window of whole cents
  const ORDER_REF_OFFSET: nat := 11
  const NEW_ORDER_REF_OFFSET: nat := 19
  const REDUCE_SHARES_OFFSET: nat := 19
  const ADD_SHARES_OFFSET: nat := 20
  const REPLACE_SHARES_OFFSET: nat := 27

  const BASE_PRICE_CENTS: map<nat, nat> := map[1 := 21_000, 2 := 12_000, 3 := 32_000]

  function PriceOffset(messageType: Byte): Option<nat> {
    if messageType == ADD_NO_MPID || messageType == ADD_WITH_MPID || messageType == EXECUTED_WITH_PRICE then Some(32)
    else if messageType == REPLACE then Some(31)
    else None
  }

  predicate IsBookType(messageType: Byte) {
    messageType in {ADD_NO_MPID, ADD_WITH_MPID, EXECUTED, EXECUTED_WITH_PRICE, CANCEL, DELETE, REPLACE}
  }

  // ----- prices in whole cents

  /** A message with its price field, if it has one, in whole cents. */
  function InCents(message: ByteString, messageType: Byte): ByteString
    requires PriceOffset(messageType).Some? ==> PriceOffset(messageType).value + 4 <= |message|
  {
    match PriceOffset(messageType)
    case None => message
    case Some(offset) =>
      CentsFit(message, offset);
      message[..offset] + Uint(U32(message, offset) / 100, 4) + message[offset + 4..]
  }

  lemma CentsFit(message: ByteString, offset: nat)
    requires offset + 4 <= |message|
    ensures Fits(U32(message, offset) / 100, 4)
  {
  }

  /** The in-place conversion; a message too short for its price field is refused. */
  method ConvertPrice(message: array<Byte>, messageType: Byte) returns (ok: bool)
    modifies message
    ensures ok == (PriceOffset(messageType).Some? ==> PriceOffset(messageType).value + 4 <= message.Length)
    ensures message[..] == if ok then InCents(old(message[..]), messageType) else old(message[..])
  {
    hide U32, Uint;
    var offset := PriceOffset(messageType);
    if offset.None? {
      return true;
    }
    var at := offset.value;
    if message.Length < at + 4 {
      return false;
    }
    ghost var before := message[..];
    CentsFit(before, at);
    var cents := Uint(U32(message[..], at) / 100, 4);
    for k := 0 to 4
      invariant message[..] == before[..at] + cents[..k] + before[at + k..]
    {
      message[at + k] := cents[k];
    }
    ok := true;
  }

  // ----- planning and committing

  datatype Action =
    | AddAction(orn: nat, shares: nat)
    | ReplaceAction(oldOrn: nat, newOrn: nat, shares: nat)
    | DeleteAction(orn: nat)
    | ReduceAction(orn: nat, reducedBy: nat)

  type Mirror = map<nat, nat>

  predicate InWindow(cents: nat, basePrice: nat) {
    basePrice <= cents < basePrice + WINDOW_WIDTH
  }

  /** The mirror action a message calls for, or none when the hardware produces no result for it. */
  function Plan(message: ByteString, messageType: Byte, stockId: Option<nat>, orders: Mirror): Option<Action> {
    if stockId.None? || stockId.value !in BASE_PRICE_CENTS || !IsBookType(messageType) then None
    else if messageType in {ADD_NO_MPID, ADD_WITH_MPID, REPLACE} then
      if !InWindow(Field(message, PriceOffset(messageType).value, 4), BASE_PRICE_CENTS[stockId.value]) then None
      else if messageType != REPLACE then
        Some(AddAction(Field(message, ORDER_REF_OFFSET, 8), Field(message, ADD_SHARES_OFFSET, 4)))
      else
        Some(ReplaceAction(Field(message, ORDER_REF_OFFSET, 8), Field(message, NEW_ORDER_REF_OFFSET, 8),
                           Field(message, REPLACE_SHARES_OFFSET, 4)))
    else
      var orn := Field(message, ORDER_REF_OFFSET, 8);
      if orn !in orders then None
      else if messageType == DELETE then Some(DeleteAction(orn))
      else Some(ReduceAction(orn, Field(message, REDUCE_SHARES_OFFSET, 4)))
  }

  predicate Committable(action: Action, orders: Mirror) {
    action.ReduceAction? ==> action.orn in orders
  }

  function Committed(action: Action, orders: Mirror): Mirror
    requires Committable(action, orders)
  {
    match action
    case AddAction(orn, shares) => orders[orn := shares]
    case ReplaceAction(oldOrn, newOrn, shares) => (orders - {oldOrn})[newOrn := shares]
    case DeleteAction(orn) => orders - {orn}
    case ReduceAction(orn, reducedBy) =>
      if orders[orn] <= reducedBy then orders - {orn} else orders[orn := orders[orn] - reducedBy]
  }

  class ActiveOrders {
    var orders: Mirror

    constructor ()
      ensures orders == map[]
    {
      orders := map[];
    }

    method Commit(action: Option<Action>)
      requires action.Some? ==> Committable(action.value, orders)
      modifies this
      ensures orders == if action.Some? then Committed(action.value, old(orders)) else old(orders)
    {
      match action {
        case None =>
        case Some(AddAction(orn, shares)) =>
          orders := orders[orn := shares];
        case Some(ReplaceAction(oldOrn, newOrn, shares)) =>
          orders := orders - {oldOrn};
          orders := orders[newOrn := shares];
        case Some(DeleteAction(orn)) =>
          orders := orders - {orn};
        case Some(ReduceAction(orn, reducedBy)) =>
          var remaining: int := orders[orn] - reducedBy;
          if remaining <= 0 {
            orders := orders - {orn};
          } else {
            orders := orders[orn := remaining];
          }
      }
    }
  }

  // ----- what the plan reads is what the golden parser reads

  /** A message as it is sent: the stock's hardware number for its locate, and its price in cents. */
  function Prepared(p: ByteString, stockId: nat): ByteString
    requires p != [] && BookMessageLength(p[0]) == Some(|p|) && Fits(stockId, 2)
  {
    InCents(p[..1] + Uint(stockId, 2) + p[3..], p[0])
  }

  /** The action an event calls for. */
  function PlanFor(e: Event, basePrice: nat, orders: Mirror): Option<Action> {
    if e.op == Op.Add then
      if InWindow(e.price.value / 100, basePrice) then Some(AddAction(e.orderRef, e.shares.value)) else None
    else if e.op == Op.Replace then
      if InWindow(e.price.value / 100, basePrice)
      then Some(ReplaceAction(e.orderRef, e.newOrderRef.value, e.shares.value)) else None
    else if e.orderRef !in orders then None
    else if e.op == Op.Delete then Some(DeleteAction(e.orderRef))
    else Some(ReduceAction(e.orderRef, e.shares.value))
  }

  lemma InCentsKeeps(message: ByteString, messageType: Byte, lo: nat, hi: nat)
    requires lo <= hi <= |message|
    requires PriceOffset(messageType).Some? ==>
      hi <= PriceOffset(messageType).value && PriceOffset(messageType).value + 4 <= |message|
    ensures |InCents(message, messageType)| == |message| && InCents(message, messageType)[lo..hi] == message[lo..hi]
  {
    hide Uint, U32, PriceOffset;
  }

  /** Preparing a message leaves every field between its locate and its price where it was. */
  lemma PreparedKeeps(p: ByteString, stockId: nat, offset: nat, length: nat)
    requires p != [] && BookMessageLength(p[0]) == Some(|p|) && Fits(stockId, 2)
    requires 3 <= offset && offset + length <= |p|
    requires PriceOffset(p[0]).Some? ==> offset + length <= PriceOffset(p[0]).value
    ensures Field(Prepared(p, stockId), offset, length) == Field(p, offset, length)
  {
    hide Uint, FromBytes, Fits;
    var remapped := p[..1] + Uint(stockId, 2) + p[3..];
    assert remapped[offset..offset + length] == p[offset..offset + length];
    InCentsKeeps(remapped, p[0], offset, offset + length);
  }

  /** Preparing a message turns its price into whole cents. */
  lemma PreparedPrice(p: ByteString, stockId: nat)
    requires p != [] && BookMessageLength(p[0]) == Some(|p|) && Fits(stockId, 2)
    requires PriceOffset(p[0]).Some?
    ensures Field(Prepared(p, stockId), PriceOffset(p[0]).value, 4) == Field(p, PriceOffset(p[0]).value, 4) / 100
  {
    hide Uint, FromBytes, Fits;
    var remapped, offset := p[..1] + Uint(stockId, 2) + p[3..], PriceOffset(p[0]).value;
    CentsFit(remapped, offset);
    assert remapped[offset..offset + 4] == p[offset..offset + 4];
    var cents := U32(p, offset) / 100;
    FromUint(cents, 4);
    assert Prepared(p, stockId)[offset..offset + 4] == Uint(cents, 4);
  }

  /** For a message the golden parser accepts, the plan is the one its event calls for. */
  lemma PlanFollowsEvent(p: ByteString, msgIndex: nat, stockId: nat, orders: Mirror)
    requires stockId in BASE_PRICE_CENTS && Fits(stockId, 2)
    requires ParseItchMessage(p, msgIndex).Ok? && ParseItchMessage(p, msgIndex).value.Some?
    ensures p != [] && BookMessageLength(p[0]) == Some(|p|)
    ensures Plan(Prepared(p, stockId), p[0], Some(stockId), orders)
         == PlanFor(ParseItchMessage(p, msgIndex).value.value, BASE_PRICE_CENTS[stockId], orders)
  {
    hide Prepared, Field, Fits;
    PreparedKeeps(p, stockId, 11, 8);
    if IsAdd(p[0]) {
      PreparedKeeps(p, stockId, 20, 4);
      PreparedPrice(p, stockId);
    } else if p[0] == REPLACE {
      PreparedKeeps(p, stockId, 19, 8);
      PreparedKeeps(p, stockId, 27, 4);
      PreparedPrice(p, stockId);
    } else if p[0] != DELETE {
      PreparedKeeps(p, stockId, 19, 4);
    }
  }

  // ----- the conversion and the plan, in numbers

  /** Whether a message is long enough for the price its type has. */
  predicate HoldsPrice(length: nat, messageType: Byte) {
    (messageType in {0x41, 0x46, 0x43} ==> length >= 36) && (messageType == 0x55 ==> length >= 35)
  }

  lemma ConvertibleExactly(length: nat, messageType: Byte)
    ensures HoldsPrice(length, messageType)
       <==> (PriceOffset(messageType).Some? ==> PriceOffset(messageType).value + 4 <= length)
  {
  }

  /** Adds and executions with a price carry it at byte 32 and replaces at byte 31; nothing else is touched. */
  lemma InCentsExactly(message: ByteString, messageType: Byte)
    requires HoldsPrice(|message|, messageType)
    ensures PriceOffset(messageType).Some? ==> PriceOffset(messageType).value + 4 <= |message|
    ensures var converted := InCents(message, messageType);
      && |converted| == |message|
      && if messageType in {0x41, 0x46, 0x43} then
           && U32(converted, 32) == U32(message, 32) / 100
           && converted[..32] == message[..32] && converted[36..] == message[36..]
         else if messageType == 0x55 then
           && U32(converted, 31) == U32(message, 31) / 100
           && converted[..31] == message[..31] && converted[35..] == message[35..]
         else converted == message
  {
    hide Uint, FromBytes;
    if PriceOffset(messageType).Some? {
      var offset := PriceOffset(messageType).value;
      CentsFit(message, offset);
      FromUint(U32(message, offset) / 100, 4);
      assert InCents(message, messageType)[offset..offset + 4] == Uint(U32(message, offset) / 100, 4);
    }
  }

  /** Each stock's lowest price in the window; the window is 16384 cents wide. */
  predicate InStockWindow(cents: nat, stockId: nat) {
    || (stockId == 1 && 21_000 <= cents <= 37_383)
    || (stockId == 2 && 12_000 <= cents <= 28_383)
    || (stockId == 3 && 32_000 <= cents <= 48_383)
  }

  /** Only the three stocks are replayed, each through its own window. */
  lemma WindowsExactly(stockId: nat, cents: nat)
    ensures stockId in BASE_PRICE_CENTS <==> 1 <= stockId <= 3
    ensures stockId in BASE_PRICE_CENTS ==>
      (InWindow(cents, BASE_PRICE_CENTS[stockId]) <==> InStockWindow(cents, stockId))
  {
  }

  /** What is planned for an event's message: orders in the window come in, known orders shrink or go. */
  lemma PlannedExactly(p: ByteString, msgIndex: nat, stockId: nat, orders: Mirror)
    requires 1 <= stockId <= 3 && Fits(stockId, 2)
    requires ParseItchMessage(p, msgIndex).Ok? && ParseItchMessage(p, msgIndex).value.Some?
    ensures p != [] && BookMessageLength(p[0]) == Some(|p|)
    ensures var e := ParseItchMessage(p, msgIndex).value.value;
      Plan(Prepared(p, stockId), p[0], Some(stockId), orders)
      == match e.op
         case Add =>
           if InStockWindow(e.price.value / 100, stockId) then Some(AddAction(e.orderRef, e.shares.value)) else None
         case Replace =>
           if InStockWindow(e.price.value / 100, stockId)
           then Some(ReplaceAction(e.orderRef, e.newOrderRef.value, e.shares.value)) else None
         case Delete => if e.orderRef in orders then Some(DeleteAction(e.orderRef)) else None
         case _ => if e.orderRef in orders then Some(ReduceAction(e.orderRef, e.shares.value)) else None
  {
    hide Plan, Prepared, ParseItchMessage, Fits, InWindow;
    var e := ParseItchMessage(p, msgIndex).value.value;
    PlanFollowsEvent(p, msgIndex, stockId, orders);
    if e.price.Some? {
      WindowsExactly(stockId, e.price.value / 100);
    }
  }

  /** Nothing is planned for another stock or for a message that is no book message. */
  lemma NothingPlanned(message: ByteString, messageType: Byte, stockId: Option<nat>, orders: Mirror)
    requires stockId == None || !(1 <= stockId.value <= 3)
             || messageType !in {0x41, 0x46, 0x45, 0x43, 0x58, 0x44, 0x55}
    ensures Plan(message, messageType, stockId, orders) == None
  {
  }

  // ----- the mirror simulates the book through the window

  /** The live orders inside the price window, with their remaining shares. */
  function Windowed(t: Orders, basePrice: nat): Mirror {
    map r | r in t && InWindow(t[r].price / 100, basePrice) :: t[r].shares
  }

  /** Every live order inside the window is in the mirror with the same remaining shares. */
  predicate Covers(orders: Mirror, t: Orders, basePrice: nat) {
    forall r :: r in t && InWindow(t[r].price / 100, basePrice) ==> r in orders && orders[r] == t[r].shares
  }

  /** A replace whose new price the router refuses although the old order was inside the window. */
  predicate MovesOut(t: Orders, e: Event, basePrice: nat) {
    && e.op == Op.Replace && e.orderRef in t
    && InWindow(t[e.orderRef].price / 100, basePrice)
    && !InWindow(e.price.value / 100, basePrice)
  }

  function MirrorEvent(orders: Mirror, e: Event, basePrice: nat): Mirror {
    var action := PlanFor(e, basePrice, orders);
    if action.Some? then Committed(action.value, orders) else orders
  }

  /** An accepted event keeps every in-window order covered. */
  lemma EventCovered(t: Orders, e: Event, orders: Mirror, basePrice: nat)
    requires Rejection(t, e, None) == None && Covers(orders, t, basePrice)
    ensures Covers(MirrorEvent(orders, e, basePrice), OrdersAfter(t, e), basePrice)
  {
  }

  /** From an exact mirror, one accepted event leaves it exact if and only if it moves no order out of the window. */
  lemma EventExact(t: Orders, e: Event, orders: Mirror, basePrice: nat)
    requires Rejection(t, e, None) == None && orders == Windowed(t, basePrice)
    ensures MirrorEvent(orders, e, basePrice) == Windowed(OrdersAfter(t, e), basePrice)
       <==> !MovesOut(t, e, basePrice)
  {
    if MovesOut(t, e, basePrice) {
      assert e.orderRef in MirrorEvent(orders, e, basePrice);
      assert e.orderRef !in Windowed(OrdersAfter(t, e), basePrice);
    } else {
      EventKeepsExact(t, e, orders, basePrice);
    }
  }

  lemma EventKeepsExact(t: Orders, e: Event, orders: Mirror, basePrice: nat)
    requires Rejection(t, e, None) == None && orders == Windowed(t, basePrice) && !MovesOut(t, e, basePrice)
    ensures MirrorEvent(orders, e, basePrice) == Windowed(OrdersAfter(t, e), basePrice)
  {
  }

  // ----- whole runs of one stock's messages

  /** One turn of the replay: plan on the prepared message, commit once the hardware has answered. */
  function MirrorMessage(orders: Mirror, p: ByteString, stockId: nat): Mirror
    requires Fits(stockId, 2)
  {
    if p == [] || BookMessageLength(p[0]) != Some(|p|) then orders
    else
      var action := Plan(Prepared(p, stockId), p[0], Some(stockId), orders);
      if action.Some? then Committed(action.value, orders) else orders
  }

  function MirrorRun(payloads: seq<ByteString>, stockId: nat): Mirror
    requires Fits(stockId, 2)
  {
    if payloads == [] then map[]
    else MirrorMessage(MirrorRun(payloads[..|payloads| - 1], stockId), payloads[|payloads| - 1], stockId)
  }

  /** The book after the events of some payloads. */
  function BookRun(payloads: seq<ByteString>): Outcome {
    Run(EMPTY_BOOK, Events(Indexed(payloads, 0)).items, None)
  }

  /** Whether every payload decodes and every event is accepted. */
  predicate AcceptedFeed(payloads: seq<ByteString>) {
    Events(Indexed(payloads, 0)).error == None && BookRun(payloads).error == None
  }

  /** Whether the last payload moves an order out of the window. */
  predicate LastMovesOut(payloads: seq<ByteString>, stockId: nat)
    requires payloads != [] && stockId in BASE_PRICE_CENTS
  {
    var n := |payloads| - 1;
    match ParseItchMessage(payloads[n], n)
    case Ok(Some(e)) => MovesOut(BookRun(payloads[..n]).book.orders, e, BASE_PRICE_CENTS[stockId])
    case _ => false
  }

  /** The last payload of an accepted feed extends the run by its event, if it has one. */
  lemma FeedStep(payloads: seq<ByteString>)
    requires payloads != [] && AcceptedFeed(payloads)
    ensures var n := |payloads| - 1;
      && AcceptedFeed(payloads[..n])
      && ParseItchMessage(payloads[n], n).Ok?
      && var event := ParseItchMessage(payloads[n], n).value;
         BookRun(payloads)
         == if event.Some? then Apply(BookRun(payloads[..n]).book, event.value, None) else BookRun(payloads[..n])
  {
    hide ParseItchMessage, Apply;
    var n := |payloads| - 1;
    var records := Indexed(payloads, 0);
    assert records[..n] == Indexed(payloads[..n], 0);
    var before := Events(records[..n]);
    var parsed := ParseItchMessage(payloads[n], n);
    if parsed.Ok? && parsed.value.Some? {
      assert (before.items + [parsed.value.value])[..|before.items|] == before.items;
    }
  }

  lemma FeedConsistent(payloads: seq<ByteString>)
    requires AcceptedFeed(payloads)
    ensures Consistent(BookRun(payloads).book)
  {
    hide Run, Consistent;
    EmptyConsistent();
    RunConsistent(EMPTY_BOOK, Events(Indexed(payloads, 0)).items, None);
  }

  /** A decodable payload moves the mirror as its event does, and not at all when it has none. */
  lemma MessageFollowsEvent(orders: Mirror, p: ByteString, msgIndex: nat, stockId: nat)
    requires stockId in BASE_PRICE_CENTS && Fits(stockId, 2) && ParseItchMessage(p, msgIndex).Ok?
    ensures MirrorMessage(orders, p, stockId)
         == match ParseItchMessage(p, msgIndex).value
            case None => orders
            case Some(e) => MirrorEvent(orders, e, BASE_PRICE_CENTS[stockId])
  {
    hide Plan, PlanFor, Prepared, Committed, Fits;
    if ParseItchMessage(p, msgIndex).value.Some? {
      PlanFollowsEvent(p, msgIndex, stockId, orders);
    }
  }

  /** One accepted payload, as the mirror and the book's table see it. */
  lemma MessageStep(payloads: seq<ByteString>, stockId: nat)
    requires payloads != [] && AcceptedFeed(payloads) && stockId in BASE_PRICE_CENTS && Fits(stockId, 2)
    ensures var n := |payloads| - 1;
      var orders, t := MirrorRun(payloads[..n], stockId), BookRun(payloads[..n]).book.orders;
      && AcceptedFeed(payloads[..n])
      && ParseItchMessage(payloads[n], n).Ok?
      && match ParseItchMessage(payloads[n], n).value
         case None => MirrorRun(payloads, stockId) == orders && BookRun(payloads).book.orders == t
         case Some(e) =>
           && Rejection(t, e, None) == None
           && BookRun(payloads).book.orders == OrdersAfter(t, e)
           && MirrorRun(payloads, stockId) == MirrorEvent(orders, e, BASE_PRICE_CENTS[stockId])
  {
    hide Run, Apply, Rejection, OrdersAfter, Consistent, BookRun, AcceptedFeed, MirrorMessage, MirrorEvent;
    hide ParseItchMessage, Fits;
    var n := |payloads| - 1;
    FeedStep(payloads);
    MessageFollowsEvent(MirrorRun(payloads[..n], stockId), payloads[n], n, stockId);
    var parsed := ParseItchMessage(payloads[n], n).value;
    if parsed.Some? {
      FeedConsistent(payloads[..n]);
      ApplyRefines(BookRun(payloads[..n]).book, parsed.value, None);
      AcceptedNoError(payloads);
    }
  }

  lemma AcceptedNoError(payloads: seq<ByteString>)
    requires AcceptedFeed(payloads)
    ensures BookRun(payloads).error == None
  {
  }

  /** Over any accepted feed of one stock every in-window live order is mirrored with its remaining shares. */
  lemma {:induction false} MirrorCovers(payloads: seq<ByteString>, stockId: nat)
    requires AcceptedFeed(payloads) && stockId in BASE_PRICE_CENTS && Fits(stockId, 2)
    ensures Covers(MirrorRun(payloads, stockId), BookRun(payloads).book.orders, BASE_PRICE_CENTS[stockId])
  {
    hide AcceptedFeed, BookRun, Rejection, OrdersAfter, ParseItchMessage, MirrorMessage, MirrorEvent;
    if payloads == [] {
      NothingLive(payloads);
    } else {
      var n := |payloads| - 1;
      MessageStep(payloads, stockId);
      MirrorCovers(payloads[..n], stockId);
      var event := ParseItchMessage(payloads[n], n).value;
      if event.Some? {
        EventCovered(BookRun(payloads[..n]).book.orders, event.value, MirrorRun(payloads[..n], stockId),
                     BASE_PRICE_CENTS[stockId]);
      }
    }
  }

  lemma NothingLive(payloads: seq<ByteString>)
    requires payloads == []
    ensures BookRun(payloads).book.orders == map[]
  {
  }

  /** Whether the mirror is exactly the in-window part of the book. */
  predicate Exact(payloads: seq<ByteString>, stockId: nat)
    requires stockId in BASE_PRICE_CENTS && Fits(stockId, 2)
  {
    MirrorRun(payloads, stockId) == Windowed(BookRun(payloads).book.orders, BASE_PRICE_CENTS[stockId])
  }

  lemma ExactStep(payloads: seq<ByteString>, stockId: nat)
    requires payloads != [] && AcceptedFeed(payloads) && stockId in BASE_PRICE_CENTS && Fits(stockId, 2)
    requires Exact(payloads[..|payloads| - 1], stockId)
    ensures Exact(payloads, stockId) <==> !LastMovesOut(payloads, stockId)
  {
    hide AcceptedFeed, BookRun, Rejection, OrdersAfter, MirrorRun, MirrorEvent, Windowed, MovesOut;
    var n := |payloads| - 1;
    MessageStep(payloads, stockId);
    var event := ParseItchMessage(payloads[n], n).value;
    if event.Some? {
      EventExact(BookRun(payloads[..n]).book.orders, event.value, MirrorRun(payloads[..n], stockId),
                 BASE_PRICE_CENTS[stockId]);
    }
  }

  predicate ExactThroughout(payloads: seq<ByteString>, stockId: nat)
    requires stockId in BASE_PRICE_CENTS && Fits(stockId, 2)
  {
    forall k :: 0 <= k <= |payloads| ==> Exact(payloads[..k], stockId)
  }

  predicate NeverMovesOut(payloads: seq<ByteString>, stockId: nat)
    requires stockId in BASE_PRICE_CENTS
  {
    forall k :: 0 < k <= |payloads| ==> !LastMovesOut(payloads[..k], stockId)
  }

  lemma ThroughoutSnoc(payloads: seq<ByteString>, stockId: nat)
    requires payloads != [] && stockId in BASE_PRICE_CENTS && Fits(stockId, 2)
    ensures ExactThroughout(payloads, stockId)
       <==> ExactThroughout(payloads[..|payloads| - 1], stockId) && Exact(payloads, stockId)
    ensures NeverMovesOut(payloads, stockId)
       <==> NeverMovesOut(payloads[..|payloads| - 1], stockId) && !LastMovesOut(payloads, stockId)
  {
    hide Exact, LastMovesOut;
    var n := |payloads| - 1;
    assert forall k :: 0 <= k <= n ==> payloads[..n][..k] == payloads[..k];
    assert payloads[..n + 1] == payloads;
    if ExactThroughout(payloads[..n], stockId) && Exact(payloads, stockId) {
      forall k | 0 <= k <= |payloads| ensures Exact(payloads[..k], stockId) {
        assert k <= n ==> Exact(payloads[..n][..k], stockId);
      }
    }
    if NeverMovesOut(payloads[..n], stockId) && !LastMovesOut(payloads, stockId) {
      forall k | 0 < k <= |payloads| ensures !LastMovesOut(payloads[..k], stockId) {
        assert k <= n ==> !LastMovesOut(payloads[..n][..k], stockId);
      }
    }
  }

  /** The mirror is exact after every message if and only if no replace ever moves an order out of the window. */
  lemma {:induction false} MirrorExact(payloads: seq<ByteString>, stockId: nat)
    requires AcceptedFeed(payloads) && stockId in BASE_PRICE_CENTS && Fits(stockId, 2)
    ensures ExactThroughout(payloads, stockId) <==> NeverMovesOut(payloads, stockId)
  {
    hide AcceptedFeed, Exact, LastMovesOut, Fits;
    if payloads == [] {
      NothingExact(payloads[..0], stockId);
    } else {
      hide ExactThroughout, NeverMovesOut;
      FeedStep(payloads);
      ThroughoutSnoc(payloads, stockId);
      MirrorExact(payloads[..|payloads| - 1], stockId);
      ExactLast(payloads[..|payloads| - 1], stockId);
      if Exact(payloads[..|payloads| - 1], stockId) {
        ExactStep(payloads, stockId);
      }
    }
  }

  lemma ExactLast(payloads: seq<ByteString>, stockId: nat)
    requires stockId in BASE_PRICE_CENTS && Fits(stockId, 2)
    ensures ExactThroughout(payloads, stockId) ==> Exact(payloads, stockId)
  {
    hide Exact;
    assert payloads[..|payloads|] == payloads;
  }

  lemma NothingExact(payloads: seq<ByteString>, stockId: nat)
    requires payloads == [] && stockId in BASE_PRICE_CENTS && Fits(stockId, 2)
    ensures Exact(payloads, stockId)
  {
  }
}
