/** The generator emits only streams the whole golden path accepts. */
module StimulusTheorems {
  import opened Wrappers
  import opened Contracts
  import opened Bytes
  import opened ItchMessages
  import opened ItchParser
  import opened ItchFeed
  import opened BinaryFile
  import opened BookSteps
  import opened BookIndex
  import opened BookRefinement
  import opened BookTheorems
  import opened Stimulus

  /** The order table that mirrors a set of live orders. */
  function BookOrders(live: map<nat, LiveOrder>, locate: nat): Orders {
    map r | r in live :: Order(live[r].side, live[r].price, live[r].shares, locate)
  }

  /** A level holds at most one maximum order per order in the table. */
  lemma {:induction false} LevelBounded(t: Orders, side: Side, price: nat)
    requires forall r :: r in t ==> t[r].shares <= MAX_SHARES
    ensures LevelAt(t, side, price).shares <= MAX_SHARES * |t|
    decreases |t|
  {
    hide LevelAt;
    if t == map[] {
      EmptyLevel(side, price);
    } else {
      var r: nat :| r in t;
      LevelAtRemove(t, r, side, price);
      LevelBounded(t - {r}, side, price);
      assert (t - {r}).Keys == t.Keys - {r};
    }
  }

  lemma EmptyLevel(side: Side, price: nat)
    ensures LevelAt(map[], side, price) == Level(0, 0)
  {
  }

  lemma MirrorRoom(live: map<nat, LiveOrder>, locate: nat, side: Side, price: nat, turns: nat)
    requires |live| <= turns && forall r :: r in live ==> live[r].shares <= MAX_SHARES
    ensures LevelAt(BookOrders(live, locate), side, price).shares <= MAX_SHARES * turns
  {
    var t := BookOrders(live, locate);
    assert t.Keys == live.Keys;
    assert |t| == |live|;
    LevelBounded(t, side, price);
  }

  /** The book's table follows the generator's mirror through one turn, and the turn is accepted. */
  lemma TurnMirrored(options: Options, g: Generator, c: Choice, turns: nat, msgIndex: nat)
    requires Completes(options, g, c) && LiveInvariant(options, g, turns)
    requires MAX_SHARES * (turns + 1) < SHARES_LIMIT
    ensures var t, e := BookOrders(g.live, options.locate), EventOf(Emitted(options, g, c), msgIndex);
      && Rejection(t, e, None) == None
      && OrdersAfter(t, e) == BookOrders(LiveAfter(options, g, c), options.locate)
  {
    hide Rejection, OrdersAfter, LiveAfter, EventOf, Emitted, BookOrders;
    TurnAccepted(options, g, c, turns, msgIndex);
    TurnFollowed(options, g, c, msgIndex);
  }

  lemma TurnFollowed(options: Options, g: Generator, c: Choice, msgIndex: nat)
    requires Completes(options, g, c)
    requires Rejection(BookOrders(g.live, options.locate), EventOf(Emitted(options, g, c), msgIndex), None) == None
    ensures OrdersAfter(BookOrders(g.live, options.locate), EventOf(Emitted(options, g, c), msgIndex))
         == BookOrders(LiveAfter(options, g, c), options.locate)
  {
    hide LevelAt, HasRoom, Fits;
  }

  lemma TurnAccepted(options: Options, g: Generator, c: Choice, turns: nat, msgIndex: nat)
    requires Completes(options, g, c) && LiveInvariant(options, g, turns)
    requires MAX_SHARES * (turns + 1) < SHARES_LIMIT
    ensures Rejection(BookOrders(g.live, options.locate), EventOf(Emitted(options, g, c), msgIndex), None) == None
  {
    hide LevelAt, Fits;
    var t, e := BookOrders(g.live, options.locate), EventOf(Emitted(options, g, c), msgIndex);
    assert forall r :: r in g.live ==> r < g.nextOrderRef && OrderInBounds(options, g.live[r], turns);
    if c.AddChoice? {
      MirrorRoom(g.live, options.locate, e.side, e.price.value, turns);
    } else if c.ReplaceChoice? {
      var rest := g.live - {c.ref};
      assert rest.Keys <= g.live.Keys;
      SubsetSmaller(rest.Keys, g.live.Keys);
      MirrorRoom(rest, options.locate, g.live[c.ref].side, e.price.value, turns);
      assert BookOrders(rest, options.locate) == t - {c.ref};
    }
  }

  lemma EventsOfPrefix(options: Options, choices: seq<Choice>, k: nat, start: nat)
    requires k < |choices| && Completed(options, choices)
    ensures Completed(options, choices[..k]) && Completed(options, choices[..k + 1])
    ensures Completes(options, After(options, choices[..k]), choices[k])
    ensures EventsOf(Messages(options, choices[..k + 1]), start)
         == EventsOf(Messages(options, choices[..k]), start)
          + [EventOf(Emitted(options, After(options, choices[..k]), choices[k]), start + k)]
  {
    hide Messages, After, Emitted, EventOf, Encodable, EventsOf;
    CompletedPrefix(options, choices, k + 1);
    TurnDrawn(options, choices, k);
    TurnMade(options, choices, k);
    EventsOfSnoc(Messages(options, choices[..k]), Emitted(options, After(options, choices[..k]), choices[k]), start);
  }

  lemma EventsOfSnoc(messages: seq<Message>, m: Message, start: nat)
    requires AllEncodable(messages) && Encodable(m)
    ensures AllEncodable(messages + [m])
    ensures EventsOf(messages + [m], start) == EventsOf(messages, start) + [EventOf(m, start + |messages|)]
  {
    hide EventOf, Encodable;
  }

  lemma RunPlusOne(events: seq<Event>, e: Event)
    ensures Run(EMPTY_BOOK, events + [e], None)
         == var o := Run(EMPTY_BOOK, events, None); if o.error.Some? then o else Apply(o.book, e, None)
  {
  }

  /** After every turn the replayed book holds exactly the generator's live orders. */
  lemma {:induction false} ReplayMirrors(options: Options, choices: seq<Choice>, k: nat, start: nat)
    requires k <= |choices| && Completed(options, choices)
    requires MAX_SHARES * |choices| < SHARES_LIMIT
    ensures Completed(options, choices[..k])
    ensures var o := Run(EMPTY_BOOK, EventsOf(Messages(options, choices[..k]), start), None);
      && o.error == None && Consistent(o.book)
      && o.book.orders == BookOrders(After(options, choices[..k]).live, options.locate)
  {
    hide Run, Emitted, EventOf, LiveAfter, Encodable, Consistent, LiveInvariant, Drawable, BookOrders;
    hide Completed, Completes, After, Messages, EventsOf;
    if k == 0 {
      ReplayNothing(options, choices[..0], start);
    } else {
      ReplayMirrors(options, choices, k - 1, start);
      EventsOfPrefix(options, choices, k - 1, start);
      TurnMade(options, choices, k - 1);
      InvariantHolds(options, choices[..k - 1]);
      var events := EventsOf(Messages(options, choices[..k - 1]), start);
      ReplayTurn(options, After(options, choices[..k - 1]), choices[k - 1], k - 1, start + k - 1, events);
    }
  }

  lemma ReplayNothing(options: Options, choices: seq<Choice>, start: nat)
    requires choices == []
    ensures Completed(options, choices)
    ensures var o := Run(EMPTY_BOOK, EventsOf(Messages(options, choices), start), None);
      && o.error == None && Consistent(o.book)
      && o.book.orders == BookOrders(After(options, choices).live, options.locate)
  {
    EmptyConsistent();
  }

  lemma ReplayTurn(options: Options, g: Generator, c: Choice, turns: nat, msgIndex: nat, events: seq<Event>)
    requires Completes(options, g, c) && LiveInvariant(options, g, turns)
    requires MAX_SHARES * (turns + 1) < SHARES_LIMIT
    requires var o := Run(EMPTY_BOOK, events, None);
      o.error == None && Consistent(o.book) && o.book.orders == BookOrders(g.live, options.locate)
    ensures var o := Run(EMPTY_BOOK, events + [EventOf(Emitted(options, g, c), msgIndex)], None);
      && o.error == None && Consistent(o.book)
      && o.book.orders == BookOrders(LiveAfter(options, g, c), options.locate)
  {
    hide Apply, Emitted, EventOf, LiveAfter, Encodable, Rejection, OrdersAfter, Consistent, LiveInvariant, Drawable;
    var e := EventOf(Emitted(options, g, c), msgIndex);
    TurnMirrored(options, g, c, turns, msgIndex);
    RunPlusOne(events, e);
    ApplyRefines(Run(EMPTY_BOOK, events, None).book, e, None);
  }

  /** No bid is above the base price and every ask is. */
  predicate Uncrossed(t: Orders, basePrice: nat) {
    forall r :: r in t ==> t[r].side != Unknown && (t[r].side == Buy <==> t[r].price <= basePrice)
  }

  /**
    End to end: for every choice sequence the messages encode, the file parses back to one event
    per message, the replay is accepted, and after every message the book mirrors the
    generator's live orders with all bids at or below the base price and all asks above it.
    */
  lemma StimulusAccepted(options: Options, choices: seq<Choice>, start: nat)
    requires OptionsFit(options, |choices|) && Drawn(options, choices)
    requires 500 * |choices| < 0x1_0000_0000
    ensures Completed(options, choices) && Framable(Encodings(Messages(options, choices)))
    ensures var stream := EncodeBinaryFile(Encodings(Messages(options, choices)));
      var parsed := StreamEvents(stream, start, None);
      && parsed.error == None && |parsed.items| == |choices|
      && forall k :: 0 <= k <= |choices| ==>
         var o := Run(EMPTY_BOOK, parsed.items[..k], None);
         && Completed(options, choices[..k])
         && o.error == None && Consistent(o.book)
         && o.book.orders == BookOrders(After(options, choices[..k]).live, options.locate)
         && Uncrossed(o.book.orders, options.basePrice)
  {
    hide StreamEvents, EncodeBinaryFile, Run, Consistent, EventOf, Encodable, Completes, Drawn, BookOrders, Uncrossed;
    FitCompletes(options, choices);
    FeedRoundTrip(Messages(options, choices), start);
    var events := EventsOf(Messages(options, choices), start);
    forall k | 0 <= k <= |choices|
      ensures var o := Run(EMPTY_BOOK, events[..k], None);
        && Completed(options, choices[..k])
        && o.error == None && Consistent(o.book)
        && o.book.orders == BookOrders(After(options, choices[..k]).live, options.locate)
        && Uncrossed(o.book.orders, options.basePrice)
    {
      EventsOfAll(options, choices, k, start);
      if choices == [] {
        ReplayNothing(options, choices[..k], start);
        NothingCrossed(options, choices[..k]);
      } else {
        ReplayMirrors(options, choices, k, start);
        InvariantHolds(options, choices[..k]);
        MirrorUncrossed(options, After(options, choices[..k]), k);
      }
    }
  }

  /** The generator's view of a book's orders. */
  function LiveIn(t: Orders): map<nat, LiveOrder> {
    map r | r in t :: LiveOrder(t[r].side, t[r].price, t[r].shares)
  }

  lemma LiveInMirror(live: map<nat, LiveOrder>, locate: nat)
    ensures LiveIn(BookOrders(live, locate)) == live
  {
  }

  /**
    Message by message: the bytes written and the event read back are what the draw calls for, given
    the orders that replaying the earlier events has left in the book.
    */
  lemma StimulusSpeaks(options: Options, choices: seq<Choice>, start: nat, k: nat)
    requires OptionsFit(options, |choices|) && Drawn(options, choices)
    requires 500 * |choices| < 0x1_0000_0000 && k < |choices|
    ensures Completed(options, choices) && Framable(Encodings(Messages(options, choices)))
    ensures var payloads := Encodings(Messages(options, choices));
      var parsed := StreamEvents(EncodeBinaryFile(payloads), start, None);
      && parsed.error == None && |parsed.items| == |choices|
      && var live := LiveIn(Run(EMPTY_BOOK, parsed.items[..k], None).book.orders);
         var nextRef, timestamp := options.startOrderRef + RefsTaken(choices[..k]), options.startTimestamp + k;
         && TurnBytes(payloads[k], options, live, nextRef, timestamp, choices[k])
         && DrawnEvent(parsed.items[k], options, live, nextRef, timestamp, choices[k])
         && parsed.items[k].msgIndex == start + k
  {
    hide *;
    LiveBefore(options, choices, start, k);
    FeedRoundTrip(Messages(options, choices), start);
    DrawSpoken(options, choices, start, k);
  }

  /** What the replay of the earlier events leaves is what the generator drew from. */
  lemma LiveBefore(options: Options, choices: seq<Choice>, start: nat, k: nat)
    requires OptionsFit(options, |choices|) && Drawn(options, choices)
    requires 500 * |choices| < 0x1_0000_0000 && k <= |choices|
    ensures Completed(options, choices) && Completed(options, choices[..k])
    ensures Framable(Encodings(Messages(options, choices)))
    ensures var parsed := StreamEvents(EncodeBinaryFile(Encodings(Messages(options, choices))), start, None);
      && |parsed.items| == |choices|
      && LiveIn(Run(EMPTY_BOOK, parsed.items[..k], None).book.orders) == After(options, choices[..k]).live
  {
    hide StreamEvents, EncodeBinaryFile, Run, Consistent, Completed, Drawn, BookOrders, Uncrossed, LiveIn, After;
    StimulusAccepted(options, choices, start);
    LiveInMirror(After(options, choices[..k]).live, options.locate);
  }

  lemma DrawSpoken(options: Options, choices: seq<Choice>, start: nat, k: nat)
    requires Completed(options, choices) && Drawn(options, choices) && k < |choices|
    ensures Completed(options, choices[..k])
    ensures var live := After(options, choices[..k]).live;
      var nextRef, timestamp := options.startOrderRef + RefsTaken(choices[..k]), options.startTimestamp + k;
      && TurnBytes(Encodings(Messages(options, choices))[k], options, live, nextRef, timestamp, choices[k])
      && DrawnEvent(EventsOf(Messages(options, choices), start)[k], options, live, nextRef, timestamp, choices[k])
      && EventsOf(Messages(options, choices), start)[k].msgIndex == start + k
  {
    hide TurnBytes, DrawnEvent, Encode, Emitted, After, Completes, Completed, Drawn, EventOf, RefsTaken, Messages;
    MessageBytes(options, choices, k);
    TurnDrawn(options, choices, k);
    SpokenIsRead(Messages(options, choices)[k], options, After(options, choices[..k]).live,
                 options.startOrderRef + RefsTaken(choices[..k]), options.startTimestamp + k, choices[k], start + k);
  }

  lemma SpokenIsRead(m: Message, options: Options, live: map<nat, LiveOrder>, nextRef: nat, timestamp: nat, c: Choice,
                     msgIndex: nat)
    requires Encodable(m) && TurnBytes(Encode(m), options, live, nextRef, timestamp, c) && Drawable(live, c)
    ensures DrawnEvent(EventOf(m, msgIndex), options, live, nextRef, timestamp, c)
    ensures EventOf(m, msgIndex).msgIndex == msgIndex
  {
    hide TurnBytes, DrawnEvent, Encode, ParseItchMessage, EventOf, Encodable;
    DrawnIsRead(Encode(m), options, live, nextRef, timestamp, c, msgIndex);
    ParseEncoded(m, msgIndex);
  }

  lemma MirrorUncrossed(options: Options, g: Generator, turns: nat)
    requires LiveInvariant(options, g, turns) && options.basePrice > 0
    ensures Uncrossed(BookOrders(g.live, options.locate), options.basePrice)
  {
    assert forall r :: r in g.live ==> OrderInBounds(options, g.live[r], turns);
  }

  lemma NothingCrossed(options: Options, choices: seq<Choice>)
    requires choices == []
    ensures Uncrossed(BookOrders(After(options, choices).live, options.locate), options.basePrice)
  {
  }

  lemma {:induction false} EventsOfAll(options: Options, choices: seq<Choice>, k: nat, start: nat)
    requires k <= |choices| && Completed(options, choices)
    ensures Completed(options, choices[..k])
    ensures EventsOf(Messages(options, choices), start)[..k] == EventsOf(Messages(options, choices[..k]), start)
    decreases |choices| - k
  {
    hide Messages, After, Emitted, EventOf, Encodable, Completes;
    CompletedPrefix(options, choices, k);
    assert choices[..|choices|] == choices;
    if k < |choices| {
      EventsOfAll(options, choices, k + 1, start);
      EventsOfPrefix(options, choices, k, start);
    }
  }

  // ----- the bound on the number of turns is exact

  /** A sequence that piles full-size bids onto the base price. */
  function Piling(turns: nat): seq<Choice> {
    seq(turns, k => AddChoice(Buy, 0, MAX_SHARES, false))
  }

  lemma {:induction false} PilingCompletes(options: Options, turns: nat)
    requires OptionsFit(options, turns)
    ensures Completed(options, Piling(turns))
  {
    hide Completes;
    if turns > 0 {
      assert Piling(turns)[..turns - 1] == Piling(turns - 1);
      PilingCompletes(options, turns - 1);
      FitCompletes(options, Piling(turns));
    }
  }

  /** While it is accepted, the pile's one level holds everything added so far. */
  lemma {:induction false} PileGrows(options: Options, turns: nat, start: nat)
    requires OptionsFit(options, turns)
    ensures Completed(options, Piling(turns))
    ensures var o := Run(EMPTY_BOOK, EventsOf(Messages(options, Piling(turns)), start), None);
      && (o.error == None <==> MAX_SHARES * turns < SHARES_LIMIT)
      && (o.error != None ==> o.error == Some(LevelWidth))
      && (o.error == None ==>
           && Consistent(o.book)
           && LevelAt(o.book.orders, Buy, options.basePrice).shares == MAX_SHARES * turns)
  {
    hide Apply, EventOf, Emitted, LevelAt, Encodable, Consistent, LiveInvariant, Drawable, After, Messages;
    hide BookOrders, AllEncodable, Completed, Run, EventsOf, Completes, OptionsFit;
    PilingCompletes(options, turns);
    var choices := Piling(turns);
    EmptyConsistent();
    if turns == 0 {
      ReplayNothing(options, choices, start);
      NoTurns(options, choices);
      NothingPiled(options, start);
    } else {
      FewerTurnsFit(options, turns);
      PileGrows(options, turns - 1, start);
      assert choices[..turns - 1] == Piling(turns - 1) && choices[..turns] == choices;
      EventsOfPrefix(options, choices, turns - 1, start);
      PileContinues(options, Piling(turns - 1), turns - 1, start);
    }
  }

  lemma FewerTurnsFit(options: Options, turns: nat)
    requires turns > 0 && OptionsFit(options, turns)
    ensures OptionsFit(options, turns - 1)
  {
  }

  lemma NothingPiled(options: Options, start: nat)
    ensures Completed(options, Piling(0))
    ensures var o := Run(EMPTY_BOOK, EventsOf(Messages(options, Piling(0)), start), None);
      o == Outcome(EMPTY_BOOK, None) && LevelAt(o.book.orders, Buy, options.basePrice).shares == 0
  {
    NoTurns(options, Piling(0));
    EmptyLevel(Buy, options.basePrice);
  }

  /** One more order on a pile that has been accepted so far. */
  lemma PileContinues(options: Options, earlier: seq<Choice>, turns: nat, start: nat)
    requires Completed(options, earlier) && |earlier| == turns
    requires Completes(options, After(options, earlier), AddChoice(Buy, 0, MAX_SHARES, false))
    requires var o := Run(EMPTY_BOOK, EventsOf(Messages(options, earlier), start), None);
      && (o.error == None <==> MAX_SHARES * turns < SHARES_LIMIT)
      && (o.error != None ==> o.error == Some(LevelWidth))
      && (o.error == None ==> LevelAt(o.book.orders, Buy, options.basePrice).shares == MAX_SHARES * turns)
    ensures var m := Emitted(options, After(options, earlier), AddChoice(Buy, 0, MAX_SHARES, false));
      var e := EventOf(m, start + turns);
      var o := Run(EMPTY_BOOK, EventsOf(Messages(options, earlier), start) + [e], None);
      && (o.error == None <==> MAX_SHARES * (turns + 1) < SHARES_LIMIT)
      && (o.error != None ==> o.error == Some(LevelWidth))
      && (o.error == None ==>
           && Consistent(o.book)
           && LevelAt(o.book.orders, Buy, options.basePrice).shares == MAX_SHARES * (turns + 1))
  {
    hide Apply, EventOf, Emitted, LevelAt, Encodable, Consistent, LiveInvariant, Drawable, After, Messages;
    hide BookOrders, Completed, Run, EventsOf;
    var g := After(options, earlier);
    InvariantHolds(options, earlier);
    var events := EventsOf(Messages(options, earlier), start);
    RunPlusOne(events, EventOf(Emitted(options, g, AddChoice(Buy, 0, MAX_SHARES, false)), start + turns));
    if Run(EMPTY_BOOK, events, None).error == None {
      ReplayMirrors(options, earlier, turns, start);
      assert earlier[..turns] == earlier;
      PileTurn(options, Run(EMPTY_BOOK, events, None).book, g, turns, start + turns);
    }
  }

  lemma PileTurn(options: Options, b: Book, g: Generator, turns: nat, msgIndex: nat)
    requires LiveInvariant(options, g, turns) && Consistent(b)
    requires b.orders == BookOrders(g.live, options.locate)
    requires LevelAt(b.orders, Buy, options.basePrice).shares == MAX_SHARES * turns
    requires Completes(options, g, AddChoice(Buy, 0, MAX_SHARES, false))
    ensures var o := Apply(b, EventOf(Emitted(options, g, AddChoice(Buy, 0, MAX_SHARES, false)), msgIndex), None);
      && (o.error == None <==> MAX_SHARES * (turns + 1) < SHARES_LIMIT)
      && (o.error != None ==> o.error == Some(LevelWidth))
      && (o.error == None ==>
           && Consistent(o.book)
           && LevelAt(o.book.orders, Buy, options.basePrice).shares == MAX_SHARES * (turns + 1))
  {
    hide Apply, LevelAt, Consistent;
    var e := EventOf(Emitted(options, g, AddChoice(Buy, 0, MAX_SHARES, false)), msgIndex);
    ApplyRefines(b, e, None);
    LevelAtInsert(b.orders, g.nextOrderRef, Order(Buy, options.basePrice, MAX_SHARES, options.locate),
                  Buy, options.basePrice);
  }

  /** Every stream of so many turns is accepted if and only if so many full-size orders fit one level. */
  lemma TurnBoundExact(options: Options, turns: nat, start: nat)
    requires OptionsFit(options, turns)
    ensures 500 * turns < 0x1_0000_0000 <==>
      forall choices :: |choices| == turns && Drawn(options, choices) ==>
        && Completed(options, choices)
        && Run(EMPTY_BOOK, EventsOf(Messages(options, choices), start), None).error == None
  {
    hide Run, EventOf, Encodable, Drawn, Completes;
    if MAX_SHARES * turns < SHARES_LIMIT {
      forall choices | |choices| == turns && Drawn(options, choices)
        ensures Completed(options, choices)
        ensures Run(EMPTY_BOOK, EventsOf(Messages(options, choices), start), None).error == None
      {
        FitCompletes(options, choices);
        assert choices[..turns] == choices;
        if turns == 0 {
          ReplayNothing(options, choices, start);
        } else {
          ReplayMirrors(options, choices, turns, start);
        }
      }
    } else {
      PileGrows(options, turns, start);
      CompletedIsDrawn(options, Piling(turns));
    }
  }

  lemma CompletedIsDrawn(options: Options, choices: seq<Choice>)
    requires Completed(options, choices)
    ensures Drawn(options, choices)
  {
    hide Encodable, Emitted;
  }

  // ----- the condition on the options is exact

  /** A sell at the top of its range, and then the same order repriced upwards turn after turn. */
  function Climbing(locateRef: nat, turns: nat): seq<Choice> {
    seq(turns, k => if k == 0 then AddChoice(Sell, 20, 1, false) else ReplaceChoice(locateRef, true, 5, 1))
  }

  /** Whether nothing the source can draw in so many turns raises an error. */
  ghost predicate NeverFails(options: Options, turns: nat) {
    forall choices :: |choices| <= turns && Drawn(options, choices) ==> Completed(options, choices)
  }

  /** The generator after so many climbing turns. */
  function Climbed(options: Options, turns: nat): Generator {
    if turns == 0 then Initial(options)
    else
      Generator(map[options.startOrderRef := LiveOrder(Sell, options.basePrice + 15 + 5 * turns, 1)],
                options.startOrderRef + 1, options.startTimestamp + turns)
  }

  lemma ClimbingTurn(options: Options, turns: nat)
    ensures var g, c := Climbed(options, turns), Climbing(options.startOrderRef, turns + 1)[turns];
      && Drawable(g.live, c) && Priced(options, c)
      && Advance(options, g, c) == Climbed(options, turns + 1)
      && (Encodable(Emitted(options, g, c)) ==> options.basePrice + 15 + 5 * (turns + 1) < PRICE_LIMIT)
  {
    hide Fits;
    FitsWidths();
  }

  lemma {:induction false} ClimbingClimbs(options: Options, turns: nat, most: nat)
    requires turns <= most && NeverFails(options, most)
    ensures var choices := Climbing(options.startOrderRef, turns);
      && Completed(options, choices)
      && After(options, choices) == Climbed(options, turns)
      && (turns > 0 ==> options.basePrice + 15 + 5 * turns < PRICE_LIMIT)
  {
    hide Drawable, Priced, Advance, Emitted, Encodable, Completed, After;
    var choices := Climbing(options.startOrderRef, turns);
    if turns == 0 {
      NoTurns(options, choices);
    } else {
      assert choices[..turns - 1] == Climbing(options.startOrderRef, turns - 1);
      ClimbingClimbs(options, turns - 1, most);
      ClimbingTurn(options, turns - 1);
      assert Drawn(options, choices);
      TurnDrawn(options, choices, turns - 1);
      TurnMade(options, choices, turns - 1);
      assert choices[..turns] == choices;
    }
  }

  lemma {:induction false} PilingPiles(options: Options, turns: nat, most: nat)
    requires turns <= most && NeverFails(options, most)
    ensures Completed(options, Piling(turns))
    ensures var g := After(options, Piling(turns));
      g.nextOrderRef == options.startOrderRef + turns && g.timestamp == options.startTimestamp + turns
    ensures turns > 0 ==>
      && options.locate < LOCATE_LIMIT && options.startOrderRef + turns <= ORDER_REF_LIMIT
      && options.startTimestamp + turns <= TIMESTAMP_LIMIT
  {
    hide Fits;
    FitsWidths();
    var choices := Piling(turns);
    if turns == 0 {
      NoTurns(options, choices);
    } else {
      assert choices[..turns - 1] == Piling(turns - 1);
      PilingPiles(options, turns - 1, most);
      assert Drawn(options, choices);
      assert choices[..turns] == choices;
      TurnMade(options, choices, turns - 1);
    }
  }

  /** The options keep every field in its width whatever is drawn if and only if they fit that many turns. */
  lemma OptionsFitExactly(options: Options, turns: nat)
    ensures OptionsFit(options, turns) <==> NeverFails(options, turns)
  {
    hide Completed, Completes, Drawn;
    if OptionsFit(options, turns) {
      forall choices | |choices| <= turns && Drawn(options, choices) ensures Completed(options, choices) {
        FitCompletes(options, choices);
      }
    }
    if NeverFails(options, turns) && turns > 0 {
      ClimbingClimbs(options, turns, turns);
      PilingPiles(options, turns, turns);
      DeepBid(options, turns);
    }
  }

  lemma DeepBid(options: Options, turns: nat)
    requires turns > 0 && NeverFails(options, turns)
    ensures options.basePrice >= 20
  {
    hide Encodable;
    var choices := [AddChoice(Buy, -20, 1, false)];
    NoTurns(options, choices[..0]);
    assert Drawn(options, choices);
  }
}
