/** The random stimulus generator, with its random draws as an arbitrary choice sequence. */
module Stimulus {
  import opened Wrappers
  import opened Contracts
  import opened Bytes
  import opened ItchMessages
  import opened ItchParser
  import opened ItchFeed

  const DEFAULT_TRACKING_NUMBER: nat := 7
  const DEFAULT_STOCK: ByteString := [77, 83, 70, 84, 32, 32, 32, 32]    // "MSFT    "
  const DEFAULT_ATTRIBUTION: ByteString := [78, 83, 68, 81]              // "NSDQ"
  const PRINTABLE: Byte := 89                                            // 'Y'
  const MAX_SHARES: nat := 500

  datatype LiveOrder = LiveOrder(side: Side, price: nat, shares: nat)

  datatype Options = Options(locate: nat, startOrderRef: nat, startTimestamp: nat, basePrice: nat)

  /** Everything one turn of the generator draws. */
  datatype Choice =
    | AddChoice(side: Side, priceOffset: int, shares: nat, withMpid: bool)
    | ExecuteChoice(ref: nat, shares: nat, withPrice: bool)
    | CancelChoice(ref: nat, shares: nat)
    | DeleteChoice(ref: nat)
    | ReplaceChoice(ref: nat, sameRef: bool, priceStep: int, shares: nat)

  datatype Generator = Generator(live: map<nat, LiveOrder>, nextOrderRef: nat, timestamp: nat)

  /** The draws a random source can make when some orders are live. */
  predicate Drawable(live: map<nat, LiveOrder>, c: Choice) {
    match c
    case AddChoice(side, priceOffset, shares, _) =>
      side != Unknown && -20 <= priceOffset <= 20 && 1 <= shares <= MAX_SHARES
    case ExecuteChoice(ref, shares, _) => ref in live && 1 <= shares <= live[ref].shares
    case CancelChoice(ref, shares) => ref in live && 1 <= shares <= live[ref].shares
    case DeleteChoice(ref) => ref in live
    case ReplaceChoice(ref, _, priceStep, shares) =>
      ref in live && -5 <= priceStep <= 5 && 1 <= shares <= MAX_SHARES
  }

  function Min(a: int, b: int): int { if a < b then a else b }

  function Max(a: int, b: int): int { if a < b then b else a }

  function AddPrice(basePrice: nat, side: Side, priceOffset: int): int {
    basePrice + if side == Buy then Min(priceOffset, 0) else Max(priceOffset, 1)
  }

  function ReplacePrice(basePrice: nat, order: LiveOrder, priceStep: int): (price: nat) {
    if order.side == Buy then Max(1, Min(basePrice, order.price + priceStep))
    else Max(basePrice + 1, order.price + priceStep)
  }

  function NewRef(g: Generator, c: Choice): nat
    requires c.ReplaceChoice?
  {
    if c.sameRef then c.ref else g.nextOrderRef
  }

  /** Whether the price of an add is not negative; below a base price of 20 a deep bid can be. */
  predicate Priced(options: Options, c: Choice) {
    c.AddChoice? ==> AddPrice(options.basePrice, c.side, c.priceOffset) >= 0
  }

  /** The message one turn emits. */
  function Emitted(options: Options, g: Generator, c: Choice): Message
    requires Drawable(g.live, c) && Priced(options, c)
  {
    var (ref, body) := match c
      case AddChoice(side, priceOffset, shares, withMpid) =>
        (g.nextOrderRef, AddBody(side, shares, DEFAULT_STOCK, AddPrice(options.basePrice, side, priceOffset),
                                 if withMpid then Some(DEFAULT_ATTRIBUTION) else None))
      case ExecuteChoice(ref, shares, withPrice) =>
        (ref, ExecuteBody(shares, g.timestamp,
                          if withPrice then Some(Pricing(PRINTABLE, g.live[ref].price)) else None))
      case CancelChoice(ref, shares) => (ref, CancelBody(shares))
      case DeleteChoice(ref) => (ref, DeleteBody)
      case ReplaceChoice(ref, _, priceStep, shares) =>
        (ref, ReplaceBody(NewRef(g, c), shares, ReplacePrice(options.basePrice, g.live[ref], priceStep)));
    Message(options.locate, DEFAULT_TRACKING_NUMBER, g.timestamp, ref, body)
  }

  /** The mirror of live orders after one turn. */
  function LiveAfter(options: Options, g: Generator, c: Choice): map<nat, LiveOrder>
    requires Drawable(g.live, c) && Priced(options, c)
  {
    match c
    case AddChoice(side, priceOffset, shares, _) =>
      g.live[g.nextOrderRef := LiveOrder(side, AddPrice(options.basePrice, side, priceOffset), shares)]
    case ExecuteChoice(ref, shares, _) => Reduced(g.live, ref, shares)
    case CancelChoice(ref, shares) => Reduced(g.live, ref, shares)
    case DeleteChoice(ref) => g.live - {ref}
    case ReplaceChoice(ref, _, priceStep, shares) =>
      var order := g.live[ref];
      (g.live - {ref})[NewRef(g, c) :=
        LiveOrder(order.side, ReplacePrice(options.basePrice, order, priceStep), shares)]
  }

  function Reduced(live: map<nat, LiveOrder>, ref: nat, delta: nat): map<nat, LiveOrder>
    requires ref in live && delta <= live[ref].shares
  {
    var remaining := live[ref].shares - delta;
    if remaining == 0 then live - {ref} else live[ref := live[ref].(shares := remaining)]
  }

  function Advance(options: Options, g: Generator, c: Choice): Generator
    requires Drawable(g.live, c) && Priced(options, c)
  {
    var takesRef := c.AddChoice? || (c.ReplaceChoice? && !c.sameRef);
    Generator(LiveAfter(options, g, c), g.nextOrderRef + (if takesRef then 1 else 0), g.timestamp + 1)
  }

  function Initial(options: Options): Generator {
    Generator(map[], options.startOrderRef, options.startTimestamp)
  }

  /** A turn that raises no error: every field of its message fits. */
  predicate Completes(options: Options, g: Generator, c: Choice) {
    Drawable(g.live, c) && Priced(options, c) && Encodable(Emitted(options, g, c))
  }

  /** A choice sequence the generator gets through. */
  predicate Completed(options: Options, choices: seq<Choice>)
    decreases |choices|, 0
  {
    choices == [] || (
      && Completed(options, choices[..|choices| - 1])
      && Completes(options, After(options, choices[..|choices| - 1]), choices[|choices| - 1]))
  }

  /** The generator after a choice sequence. */
  function After(options: Options, choices: seq<Choice>): Generator
    requires Completed(options, choices)
    decreases |choices|, 1
  {
    if choices == [] then Initial(options)
    else Advance(options, After(options, choices[..|choices| - 1]), choices[|choices| - 1])
  }

  /** A choice sequence the random source can make: an error ends the run, so only the last turn can raise one. */
  predicate Drawn(options: Options, choices: seq<Choice>) {
    choices == [] || (
      && Completed(options, choices[..|choices| - 1])
      && Drawable(After(options, choices[..|choices| - 1]).live, choices[|choices| - 1]))
  }

  /** The messages a choice sequence produces. */
  function Messages(options: Options, choices: seq<Choice>): (messages: seq<Message>)
    requires Completed(options, choices)
    ensures |messages| == |choices| && AllEncodable(messages)
  {
    if choices == [] then []
    else
      var earlier := choices[..|choices| - 1];
      Messages(options, earlier) + [Emitted(options, After(options, earlier), choices[|choices| - 1])]
  }

  /** When no draw can push a field out of its width in so many turns. */
  predicate OptionsFit(options: Options, turns: nat) {
    turns > 0 ==>
      && options.locate < LOCATE_LIMIT
      && options.startOrderRef + turns <= ORDER_REF_LIMIT
      && options.startTimestamp + turns <= TIMESTAMP_LIMIT
      && 20 <= options.basePrice && options.basePrice + 15 + 5 * turns < PRICE_LIMIT
  }

  /** What the mirror of live orders satisfies after so many turns. */
  predicate LiveInvariant(options: Options, g: Generator, turns: nat) {
    && g.timestamp == options.startTimestamp + turns
    && g.nextOrderRef <= options.startOrderRef + turns
    && |g.live| <= turns
    && forall r :: r in g.live ==> r < g.nextOrderRef && OrderInBounds(options, g.live[r], turns)
  }

  predicate OrderInBounds(options: Options, order: LiveOrder, turns: nat) {
    && 1 <= order.shares <= MAX_SHARES
    && match order.side
       case Buy => order.price <= Max(1, options.basePrice)
       case Sell => options.basePrice < order.price <= options.basePrice + 15 + 5 * turns
       case Unknown => false
  }

  lemma LiveGrowsByOne(options: Options, g: Generator, c: Choice)
    requires Drawable(g.live, c) && Priced(options, c)
    ensures |LiveAfter(options, g, c)| <= |g.live| + 1
  {
  }

  lemma AdvanceKeepsOrders(options: Options, g: Generator, c: Choice, turns: nat)
    requires Drawable(g.live, c) && Priced(options, c)
    requires forall r :: r in g.live ==> r < g.nextOrderRef && OrderInBounds(options, g.live[r], turns)
    ensures var g' := Advance(options, g, c);
      forall r :: r in g'.live ==> r < g'.nextOrderRef && OrderInBounds(options, g'.live[r], turns + 1)
  {
  }

  lemma AdvanceKeepsInvariant(options: Options, g: Generator, c: Choice, turns: nat)
    requires Drawable(g.live, c) && Priced(options, c) && LiveInvariant(options, g, turns)
    ensures LiveInvariant(options, Advance(options, g, c), turns + 1)
  {
    hide LiveAfter, OrderInBounds;
    LiveGrowsByOne(options, g, c);
    AdvanceKeepsOrders(options, g, c, turns);
  }

  lemma {:induction false} SubsetSmaller(a: set<nat>, b: set<nat>)
    requires a <= b
    ensures |a| <= |b|
  {
    if a != {} {
      var x :| x in a;
      SubsetSmaller(a - {x}, b - {x});
    }
  }

  lemma {:induction false} InvariantHolds(options: Options, choices: seq<Choice>)
    requires Completed(options, choices)
    ensures LiveInvariant(options, After(options, choices), |choices|)
  {
    if choices != [] {
      var earlier := choices[..|choices| - 1];
      InvariantHolds(options, earlier);
      AdvanceKeepsInvariant(options, After(options, earlier), choices[|choices| - 1], |earlier|);
    }
  }

  // ----- the bytes each draw calls for

  /** How many draws have taken a fresh reference. */
  function RefsTaken(choices: seq<Choice>): nat {
    if choices == [] then 0
    else
      RefsTaken(choices[..|choices| - 1])
      + match choices[|choices| - 1]
        case AddChoice(_, _, _, _) => 1
        case ReplaceChoice(_, sameRef, _, _) => if sameRef then 0 else 1
        case _ => 0
  }

  /** An add's price: a bid never above the base price, an ask always above it. */
  predicate IsAddPrice(price: nat, basePrice: nat, side: Side, priceOffset: int) {
    if side == Buy then price == basePrice + (if priceOffset < 0 then priceOffset else 0)
    else price == basePrice + (if priceOffset > 1 then priceOffset else 1)
  }

  /** A replace's price: one step from the old one, kept on its side of the base price and above zero. */
  predicate IsReplacePrice(price: nat, basePrice: nat, order: LiveOrder, priceStep: int) {
    var moved := order.price + priceStep;
    if order.side == Buy then
      if basePrice == 0 || moved < 1 then price == 1 else price == (if moved > basePrice then basePrice else moved)
    else price == (if moved > basePrice then moved else basePrice + 1)
  }

  /** Whether a payload is, byte by byte, what a draw calls for. */
  predicate TurnBytes(p: ByteString, options: Options, live: map<nat, LiveOrder>, nextRef: nat, timestamp: nat,
                      c: Choice) {
    && |p| >= 19 && U16(p, 1) == options.locate && U16(p, 3) == 7 && U48(p, 5) == timestamp
    && match c
       case AddChoice(side, priceOffset, shares, withMpid) =>
         && p[0] == (if withMpid then 0x46 else 0x41) && |p| == (if withMpid then 40 else 36)
         && U64(p, 11) == nextRef && p[19] == (if side == Buy then 0x42 else 0x53) && U32(p, 20) == shares
         && p[24..32] == [0x4D, 0x53, 0x46, 0x54, 0x20, 0x20, 0x20, 0x20]
         && IsAddPrice(U32(p, 32), options.basePrice, side, priceOffset)
         && (withMpid ==> p[36..40] == [0x4E, 0x53, 0x44, 0x51])
       case ExecuteChoice(ref, shares, withPrice) =>
         && p[0] == (if withPrice then 0x43 else 0x45) && |p| == (if withPrice then 36 else 31)
         && U64(p, 11) == ref && U32(p, 19) == shares && U64(p, 23) == timestamp
         && (withPrice ==> p[31] == 0x59 && ref in live && U32(p, 32) == live[ref].price)
       case CancelChoice(ref, shares) =>
         p[0] == 0x58 && |p| == 23 && U64(p, 11) == ref && U32(p, 19) == shares
       case DeleteChoice(ref) =>
         p[0] == 0x44 && |p| == 19 && U64(p, 11) == ref
       case ReplaceChoice(ref, sameRef, priceStep, shares) =>
         && p[0] == 0x55 && |p| == 35 && U64(p, 11) == ref && U64(p, 19) == (if sameRef then ref else nextRef)
         && U32(p, 27) == shares
         && ref in live && IsReplacePrice(U32(p, 31), options.basePrice, live[ref], priceStep)
  }

  lemma EmittedBytes(options: Options, g: Generator, c: Choice)
    requires Completes(options, g, c)
    ensures TurnBytes(Encode(Emitted(options, g, c)), options, g.live, g.nextOrderRef, g.timestamp, c)
  {
    hide Encode, Field, Encodable;
    var m := Emitted(options, g, c);
    EncodedHeader(m);
    EncodedTracking(m);
    match c {
      case AddChoice(_, _, _, _) =>
        EncodedAdd(m);
        EncodedText(m);
      case ExecuteChoice(_, _, _) =>
        EncodedReduction(m);
        EncodedExecution(m);
      case CancelChoice(_, _) => EncodedReduction(m);
      case DeleteChoice(_) => EncodedDelete(m);
      case ReplaceChoice(_, _, _, _) => EncodedReplace(m);
    }
  }

  lemma {:induction false} RefsCounted(options: Options, choices: seq<Choice>)
    requires Completed(options, choices)
    ensures After(options, choices).nextOrderRef == options.startOrderRef + RefsTaken(choices)
  {
    hide Emitted, Encodable, LiveAfter;
    if choices != [] {
      RefsCounted(options, choices[..|choices| - 1]);
    }
  }

  lemma {:induction false} MessageAt(options: Options, choices: seq<Choice>, k: nat)
    requires Completed(options, choices) && k < |choices|
    ensures Completed(options, choices[..k]) && Completes(options, After(options, choices[..k]), choices[k])
    ensures Messages(options, choices)[k] == Emitted(options, After(options, choices[..k]), choices[k])
  {
    hide Completes, Emitted;
    var n := |choices| - 1;
    if k < n {
      MessageAt(options, choices[..n], k);
      assert choices[..n][..k] == choices[..k];
    }
  }

  /** Whether a payload is what one turn's draw calls for, after the turns before it. */
  predicate SpeaksTurn(p: ByteString, options: Options, choices: seq<Choice>, k: nat)
    requires k < |choices|
  {
    && Completed(options, choices[..k])
    && TurnBytes(p, options, After(options, choices[..k]).live, options.startOrderRef + RefsTaken(choices[..k]),
                 options.startTimestamp + k, choices[k])
  }

  lemma MessageBytes(options: Options, choices: seq<Choice>, k: nat)
    requires Completed(options, choices) && k < |choices|
    ensures SpeaksTurn(Encodings(Messages(options, choices))[k], options, choices, k)
  {
    hide TurnBytes, Completes, Emitted, Encode, Drawable, LiveAfter, RefsTaken;
    MessageAt(options, choices, k);
    RefsCounted(options, choices[..k]);
    InvariantHolds(options, choices[..k]);
    EmittedBytes(options, After(options, choices[..k]), choices[k]);
  }

  /** Whether payloads are, one by one, what the draws call for. */
  predicate SpeaksTurns(payloads: seq<ByteString>, options: Options, choices: seq<Choice>) {
    |payloads| == |choices| && forall k :: 0 <= k < |choices| ==> SpeaksTurn(payloads[k], options, choices, k)
  }

  /** Message by message, what is written is what the draws call for. */
  lemma MessagesBytes(options: Options, choices: seq<Choice>)
    requires Completed(options, choices)
    ensures SpeaksTurns(Encodings(Messages(options, choices)), options, choices)
  {
    hide SpeaksTurn, Encode, Emitted;
    forall k | 0 <= k < |choices|
      ensures SpeaksTurn(Encodings(Messages(options, choices))[k], options, choices, k)
    {
      MessageBytes(options, choices, k);
    }
  }

  /** Whether an event is the one a draw calls for. */
  predicate DrawnEvent(e: RawEvent, options: Options, live: map<nat, LiveOrder>, nextRef: nat, timestamp: nat,
                       c: Choice) {
    && e.locate == options.locate && e.timestampNs == Some(timestamp as int)
    && match c
       case AddChoice(side, priceOffset, shares, _) =>
         && e.op == Op.Add && e.side == side && e.orderRef == nextRef && e.shares == Some(shares as int)
         && e.price.Some? && e.price.value >= 0
         && IsAddPrice(e.price.value, options.basePrice, side, priceOffset)
       case ExecuteChoice(ref, shares, _) =>
         e.op == Op.Execute && e.orderRef == ref && e.shares == Some(shares as int)
       case CancelChoice(ref, shares) =>
         e.op == Op.Cancel && e.orderRef == ref && e.shares == Some(shares as int)
       case DeleteChoice(ref) => e.op == Op.Delete && e.orderRef == ref
       case ReplaceChoice(ref, sameRef, priceStep, shares) =>
         && e.op == Op.Replace && e.orderRef == ref && e.shares == Some(shares as int)
         && e.newOrderRef == Some((if sameRef then ref else nextRef) as int)
         && e.price.Some? && e.price.value >= 0 && ref in live
         && IsReplacePrice(e.price.value, options.basePrice, live[ref], priceStep)
  }

  /** The decoder reads from the drawn bytes the drawn event. */
  lemma DrawnIsRead(p: ByteString, options: Options, live: map<nat, LiveOrder>, nextRef: nat, timestamp: nat,
                    c: Choice, msgIndex: nat)
    requires TurnBytes(p, options, live, nextRef, timestamp, c) && (c.AddChoice? ==> c.side != Unknown)
    ensures var r := ParseItchMessage(p, msgIndex);
      && r.Ok? && r.value.Some? && r.value.value.msgIndex == msgIndex
      && DrawnEvent(r.value.value, options, live, nextRef, timestamp, c)
  {
    hide ParseItchMessage, IsAddPrice, IsReplacePrice;
    DecodedExactly(p, msgIndex);
  }

  // ----- the generator

  datatype GeneratorError = FieldDoesNotFit

  /** The generator's loop; it ends with an error at the first message that cannot be encoded. */
  method RandomValidMessages(options: Options, choices: seq<Choice>)
    returns (result: Result<seq<ByteString>, GeneratorError>, liveOrders: map<nat, LiveOrder>)
    requires Drawn(options, choices)
    ensures if Completed(options, choices)
      then result == Ok(Encodings(Messages(options, choices))) && liveOrders == After(options, choices).live
      else result == Err(FieldDoesNotFit)
    ensures result.Ok? ==> SpeaksTurns(result.value, options, choices)
    ensures OptionsFit(options, |choices|) ==> result.Ok?
  {
    hide Encode, Messages, After, Completed, Drawn, Fits, LiveInvariant, OptionsFit, Encodable, Emitted;
    hide SpeaksTurns;
    var messages: seq<ByteString> := [];
    liveOrders := map[];
    NoTurns(options, choices[..0]);
    var nextOrderRef, timestamp := options.startOrderRef, options.startTimestamp;
    if OptionsFit(options, |choices|) {
      FitCompletes(options, choices);
    }
    for i := 0 to |choices|
      invariant Completed(options, choices[..i])
      invariant After(options, choices[..i]) == Generator(liveOrders, nextOrderRef, timestamp)
      invariant messages == Encodings(Messages(options, choices[..i]))
    {
      var g := Generator(liveOrders, nextOrderRef, timestamp);
      TurnDrawn(options, choices, i);
      var c := choices[i];
      if !Priced(options, c) || !Encodable(Emitted(options, g, c)) {
        return Err(FieldDoesNotFit), liveOrders;
      }
      TurnMade(options, choices, i);
      messages := messages + [Encode(Emitted(options, g, c))];
      match c {
        case AddChoice(side, priceOffset, shares, _) =>
          var price := AddPrice(options.basePrice, side, priceOffset);
          liveOrders := liveOrders[nextOrderRef := LiveOrder(side, price, shares)];
          nextOrderRef := nextOrderRef + 1;
        case ExecuteChoice(ref, shares, _) =>
          liveOrders := ReduceLiveOrder(liveOrders, ref, shares);
        case CancelChoice(ref, shares) =>
          liveOrders := ReduceLiveOrder(liveOrders, ref, shares);
        case DeleteChoice(ref) =>
          liveOrders := liveOrders - {ref};
        case ReplaceChoice(ref, sameRef, priceStep, shares) =>
          var newRef := if sameRef then ref else nextOrderRef;
          if !sameRef {
            nextOrderRef := nextOrderRef + 1;
          }
          var order := liveOrders[ref];
          var price := ReplacePrice(options.basePrice, order, priceStep);
          liveOrders := liveOrders - {ref};
          liveOrders := liveOrders[newRef := LiveOrder(order.side, price, shares)];
      }
      timestamp := timestamp + 1;
      assert Advance(options, g, c) == Generator(liveOrders, nextOrderRef, timestamp);
    }
    assert choices[..|choices|] == choices;
    MessagesBytes(options, choices);
    result := Ok(messages);
  }

  method ReduceLiveOrder(liveOrders: map<nat, LiveOrder>, ref: nat, sharesDelta: nat)
    returns (reduced: map<nat, LiveOrder>)
    requires ref in liveOrders && sharesDelta <= liveOrders[ref].shares
    ensures reduced == Reduced(liveOrders, ref, sharesDelta)
  {
    var order := liveOrders[ref];
    var remaining := order.shares - sharesDelta;
    if remaining == 0 {
      return liveOrders - {ref};
    }
    reduced := liveOrders[ref := LiveOrder(order.side, order.price, remaining)];
  }

  lemma {:induction false} CompletedPrefix(options: Options, choices: seq<Choice>, k: nat)
    requires k <= |choices| && Completed(options, choices)
    ensures Completed(options, choices[..k])
  {
    if k == |choices| {
      assert choices[..k] == choices;
    } else {
      CompletedPrefix(options, choices[..|choices| - 1], k);
      assert choices[..|choices| - 1][..k] == choices[..k];
    }
  }

  lemma NoTurns(options: Options, choices: seq<Choice>)
    requires choices == []
    ensures Completed(options, choices)
    ensures After(options, choices) == Initial(options) && Messages(options, choices) == []
  {
  }

  /** Up to any of its turns a drawn sequence has completed, and the turn can be drawn there. */
  lemma TurnDrawn(options: Options, choices: seq<Choice>, k: nat)
    requires k < |choices| && Drawn(options, choices)
    ensures Completed(options, choices[..k])
    ensures Drawable(After(options, choices[..k]).live, choices[k])
    ensures Completed(options, choices) ==> Completes(options, After(options, choices[..k]), choices[k])
  {
    hide Encodable, Drawable, Emitted;
    var n := |choices| - 1;
    CompletedPrefix(options, choices[..n], k);
    assert choices[..n][..k] == choices[..k];
    if k < n {
      CompletedPrefix(options, choices[..n], k + 1);
      assert choices[..n][..k + 1] == choices[..k + 1] && choices[..k + 1][..k] == choices[..k];
    }
  }

  /** One more completed turn. */
  lemma TurnMade(options: Options, choices: seq<Choice>, k: nat)
    requires k < |choices| && Completed(options, choices[..k])
    requires Completes(options, After(options, choices[..k]), choices[k])
    ensures Completed(options, choices[..k + 1])
    ensures After(options, choices[..k + 1]) == Advance(options, After(options, choices[..k]), choices[k])
    ensures Messages(options, choices[..k + 1])
         == Messages(options, choices[..k]) + [Emitted(options, After(options, choices[..k]), choices[k])]
  {
    hide Completes, Emitted, Advance;
    assert choices[..k + 1][..k] == choices[..k];
  }

  // ----- which options keep every field in its width

  /** Within the options' reach every turn completes. */
  lemma TurnFits(options: Options, g: Generator, c: Choice, turns: nat)
    requires OptionsFit(options, turns + 1) && Drawable(g.live, c) && LiveInvariant(options, g, turns)
    ensures Completes(options, g, c)
  {
    hide Fits;
    FieldWidths();
    FitsWidths();
    if !c.AddChoice? {
      assert OrderInBounds(options, g.live[c.ref], turns);
    }
  }

  lemma FitsWidths()
    ensures forall v: nat :: Fits(v, 2) <==> v < LOCATE_LIMIT
    ensures forall v: nat :: Fits(v, 4) <==> v < PRICE_LIMIT
    ensures forall v: nat :: Fits(v, 6) <==> v < TIMESTAMP_LIMIT
    ensures forall v: nat :: Fits(v, 8) <==> v < ORDER_REF_LIMIT
  {
    FieldWidths();
  }

  lemma FitCompletes(options: Options, choices: seq<Choice>)
    requires OptionsFit(options, |choices|) && Drawn(options, choices)
    ensures Completed(options, choices)
  {
    hide Completes, Drawable, LiveInvariant, After;
    if choices != [] {
      var n := |choices| - 1;
      InvariantHolds(options, choices[..n]);
      TurnFits(options, After(options, choices[..n]), choices[n], n);
    }
  }
}
