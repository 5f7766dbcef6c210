/** The golden runner: records in, one event and one book state out per selected book message. */
module Runner {
  import opened Wrappers
  import opened Contracts
  import opened Bytes
  import opened ItchParser
  import opened BinaryFile
  import opened BookSteps
  import opened GoldenOrderBook
  import opened LocateProjection
  import opened BookTheorems

  // ----- levels serialised best to worst

  datatype Row = Row(price: nat, shares: nat, orderCount: nat)

  function RowAt(levels: Levels, price: nat): Row
    requires price in levels
  {
    Row(price, levels[price].shares, levels[price].orderCount)
  }

  function LevelsToList(levels: Levels, side: Side): seq<Row>
    decreases |levels|
  {
    if levels == map[] then []
    else
      var best := BestPrice(levels.Keys, side);
      [RowAt(levels, best)] + LevelsToList(levels - {best}, side)
  }

  /** A bid is better for being higher, an ask for being lower. */
  predicate Better(side: Side, price: nat, other: nat) {
    if side == Buy then price > other else price < other
  }

  /** Rows strictly from best to worst, one per level and nothing else. */
  predicate Lists(rows: seq<Row>, levels: Levels, side: Side) {
    && |rows| == |levels|
    && (forall k :: 0 <= k < |rows| ==>
          && rows[k].price in levels
          && rows[k] == Row(rows[k].price, levels[rows[k].price].shares, levels[rows[k].price].orderCount))
    && (forall j, k :: 0 <= j < k < |rows| ==> Better(side, rows[j].price, rows[k].price))
  }

  lemma {:induction false} ListedInOrder(levels: Levels, side: Side)
    ensures Lists(LevelsToList(levels, side), levels, side)
    decreases |levels|
  {
    if levels != map[] {
      var best := BestPrice(levels.Keys, side);
      assert (levels - {best}).Keys == levels.Keys - {best};
      ListedInOrder(levels - {best}, side);
    }
  }

  /** A listing mentions every level. */
  lemma {:induction false} ListsAll(rows: seq<Row>, levels: Levels, side: Side, price: nat)
    requires Lists(rows, levels, side) && price in levels
    ensures exists k :: 0 <= k < |rows| && rows[k].price == price
    decreases |rows|
  {
    if rows[0].price != price {
      var rest := levels - {rows[0].price};
      assert rest.Keys == levels.Keys - {rows[0].price};
      assert Lists(rows[1..], rest, side);
      ListsAll(rows[1..], rest, side, price);
      var k :| 0 <= k < |rows[1..]| && rows[1..][k].price == price;
      assert rows[k + 1].price == price;
    }
  }

  /** A listing starts with the best level and goes on listing the others. */
  lemma ListsBestFirst(rows: seq<Row>, levels: Levels, side: Side)
    requires Lists(rows, levels, side) && levels != map[]
    ensures var best := BestPrice(levels.Keys, side);
      rows != [] && rows[0] == RowAt(levels, best) && Lists(rows[1..], levels - {best}, side)
  {
    hide LevelsToList;
    var best := BestPrice(levels.Keys, side);
    ListsAll(rows, levels, side, best);
    var k :| 0 <= k < |rows| && rows[k].price == best;
    assert NoWorse(side, best, rows[0].price);
    assert k == 0;
    assert (levels - {best}).Keys == levels.Keys - {best};
  }

  /** Only one listing exists, so the output does not depend on the dictionary's own order. */
  lemma {:induction false} ListingUnique(rows: seq<Row>, levels: Levels, side: Side)
    requires Lists(rows, levels, side)
    ensures rows == LevelsToList(levels, side)
    decreases |levels|
  {
    hide Lists, RowAt, BestPrice;
    if levels == map[] {
      EmptyListing(rows, side);
    } else {
      ListsBestFirst(rows, levels, side);
      var best := BestPrice(levels.Keys, side);
      assert (levels - {best}).Keys == levels.Keys - {best};
      ListingUnique(rows[1..], levels - {best}, side);
    }
  }

  lemma EmptyListing(rows: seq<Row>, side: Side)
    requires Lists(rows, map[], side)
    ensures rows == []
  {
  }

  /** The first row of a side is its quote. */
  lemma FirstRowIsQuote(levels: Levels, side: Side)
    ensures var rows := LevelsToList(levels, side);
      QuoteOf(levels, side) == if rows == [] then None else Some(Quote(rows[0].price, rows[0].shares))
  {
  }

  // ----- the runner's loop

  datatype RunnerError = Parsing(parseError: ParseError) | Rejected(bookError: BookError)

  datatype Stats = Stats(
    sourceMessagesSeen: nat,
    finalMsgIndex: Option<nat>,
    finalBbo: Option<Bbo>,
    peakLiveOrders: nat,
    peakBidLevels: nat,
    peakAskLevels: nat)

  function Selected(events: seq<Event>, filter: Option<nat>): seq<Event> {
    if filter.Some? then Filter(events, filter.value) else events
  }

  /** The book after the first events of a run. */
  function BookAfter(events: seq<Event>, k: nat, filter: Option<nat>): Book
    requires k <= |events|
  {
    Run(EMPTY_BOOK, events[..k], filter).book
  }

  /** The statistics after some states have been written. */
  function StatsAfter(seen: nat, events: seq<Event>, written: nat, filter: Option<nat>): Stats
    requires written <= |events|
    decreases written
  {
    if written == 0 then Stats(seen, None, None, 0, 0, 0)
    else
      var before := StatsAfter(seen, events, written - 1, filter);
      var b := BookAfter(events, written, filter);
      Stats(seen, Some(events[written - 1].msgIndex), Some(BboOf(b)),
            Larger(before.peakLiveOrders, |b.orders|),
            Larger(before.peakBidLevels, |b.bids|),
            Larger(before.peakAskLevels, |b.asks|))
  }

  function Larger(a: nat, b: nat): nat {
    if a < b then b else a
  }

  /** The states written are the books after each accepted event. */
  predicate StatesFollow(states: seq<BookState>, events: seq<Event>, filter: Option<nat>) {
    && |states| <= |events|
    && forall k :: 0 <= k < |states| ==> StateFollows(states[k], events, k, filter)
  }

  predicate StateFollows(state: BookState, events: seq<Event>, k: nat, filter: Option<nat>)
    requires k < |events|
  {
    && Run(EMPTY_BOOK, events[..k + 1], filter).error == None
    && state == StateOf(BookAfter(events, k + 1, filter), events[k].msgIndex)
  }

  // How one more record, event or state extends what the loop has produced so far.

  lemma EventsStep(records: seq<Record>, i: nat)
    requires i < |records|
    ensures var before, after := Events(records[..i]), Events(records[..i + 1]);
      if before.error.Some? then after == before
      else match ParseItchMessage(records[i].payload, records[i].msgIndex)
        case Err(e) => after == Yielded(before.items, Some(e))
        case Ok(None) => after == before
        case Ok(Some(event)) => after == Yielded(before.items + [event], None)
  {
    hide ParseItchMessage;
    assert records[..i + 1][..i] == records[..i];
  }

  lemma SelectedSnoc(events: seq<Event>, e: Event, filter: Option<nat>)
    ensures Selected(events + [e], filter)
         == Selected(events, filter) + (if filter.None? || e.locate == filter.value then [e] else [])
  {
    assert (events + [e])[..|events|] == events;
  }

  lemma EventsSnoc(records: seq<Record>, i: nat, filter: Option<nat>)
    requires i < |records| && Events(records[..i]).error == None
    ensures var before, after := Events(records[..i]), Events(records[..i + 1]);
      match ParseItchMessage(records[i].payload, records[i].msgIndex)
      case Err(e) => after == Yielded(before.items, Some(e))
      case Ok(None) => after == before
      case Ok(Some(event)) =>
        && after.error == None
        && Selected(after.items, filter)
        == Selected(before.items, filter) + (if filter.None? || event.locate == filter.value then [event] else [])
  {
    hide *;
    EventsStep(records, i);
    var parsed := ParseItchMessage(records[i].payload, records[i].msgIndex);
    if parsed.Ok? && parsed.value.Some? {
      SelectedSnoc(Events(records[..i]).items, parsed.value.value, filter);
    }
  }

  lemma RunOneMore(events: seq<Event>, e: Event, filter: Option<nat>)
    requires Run(EMPTY_BOOK, events, filter).error == None
    ensures Run(EMPTY_BOOK, events + [e], filter) == Apply(BookAfter(events, |events|, filter), e, filter)
  {
    hide Apply;
    assert (events + [e])[..|events|] == events == events[..|events|];
  }

  lemma {:induction false} StatsExtend(seen: nat, seen': nat, events: seq<Event>, more: seq<Event>, written: nat,
                                       filter: Option<nat>)
    requires written <= |events|
    ensures StatsAfter(seen', events + more, written, filter)
         == StatsAfter(seen, events, written, filter).(sourceMessagesSeen := seen')
  {
    hide Run, BboOf;
    if written > 0 {
      StatsExtend(seen, seen', events, more, written - 1, filter);
      assert (events + more)[..written] == events[..written];
    }
  }

  lemma StatesExtend(states: seq<BookState>, events: seq<Event>, more: seq<Event>, filter: Option<nat>)
    requires StatesFollow(states, events, filter)
    ensures StatesFollow(states, events + more, filter)
  {
    hide Run, StateOf;
    forall k | 0 <= k < |states|
      ensures StateFollows(states[k], events + more, k, filter)
    {
      assert (events + more)[..k + 1] == events[..k + 1];
      assert StateFollows(states[k], events, k, filter);
    }
  }

  lemma NothingYet(records: seq<Record>, filter: Option<nat>)
    ensures Events(records[..0]).error == None && SelectedFrom(records, 0, filter) == []
    ensures Run(EMPTY_BOOK, [], filter) == Outcome(EMPTY_BOOK, None) && StatesFollow([], [], filter)
    ensures StatsAfter(0, [], 0, filter) == Stats(0, None, None, 0, 0, 0)
  {
  }

  /** One more accepted event and its state. */
  lemma StateAppended(states: seq<BookState>, events: seq<Event>, state: BookState, seen: nat, filter: Option<nat>)
    requires |states| + 1 == |events| && StatesFollow(states, events, filter)
    requires Run(EMPTY_BOOK, events, filter).error == None
    requires state == StateOf(Run(EMPTY_BOOK, events, filter).book, events[|events| - 1].msgIndex)
    ensures StatesFollow(states + [state], events, filter)
    ensures var before, b := StatsAfter(seen, events, |states|, filter), Run(EMPTY_BOOK, events, filter).book;
      && state.bbo == BboOf(b)
      && StatsAfter(seen, events, |events|, filter)
      == Stats(seen, Some(events[|events| - 1].msgIndex), Some(state.bbo), Larger(before.peakLiveOrders, |b.orders|),
               Larger(before.peakBidLevels, |b.bids|), Larger(before.peakAskLevels, |b.asks|))
  {
    hide Run, BboOf;
    assert events[..|events|] == events;
    assert StateFollows(state, events, |states|, filter);
  }

  lemma StatsSeen(seen: nat, events: seq<Event>, filter: Option<nat>)
    ensures StatsAfter(seen + 1, events, |events|, filter)
         == StatsAfter(seen, events, |events|, filter).(sourceMessagesSeen := seen + 1)
  {
    hide StatsAfter;
    StatsExtend(seen, seen + 1, events, [], |events|, filter);
    assert events + [] == events;
  }

  /** One more event, before its own state is written. */
  lemma NextEvent(events: seq<Event>, event: Event, states: seq<BookState>, seen: nat, filter: Option<nat>)
    requires Run(EMPTY_BOOK, events, filter).error == None
    requires |states| == |events| && StatesFollow(states, events, filter)
    ensures var written := events + [event];
      && Run(EMPTY_BOOK, written, filter) == Apply(Run(EMPTY_BOOK, events, filter).book, event, filter)
      && StatesFollow(states, written, filter)
      && StatsAfter(seen + 1, written, |events|, filter)
         == StatsAfter(seen, events, |events|, filter).(sourceMessagesSeen := seen + 1)
  {
    hide Apply, StatesFollow, StatsAfter, Run;
    RunOneMore(events, event, filter);
    assert events[..|events|] == events;
    StatsExtend(seen, seen + 1, events, [event], |events|, filter);
    StatesExtend(states, events, [event], filter);
  }

  /** What has been selected from so many records. */
  function SelectedFrom(records: seq<Record>, seen: nat, filter: Option<nat>): seq<Event>
    requires seen <= |records|
  {
    Selected(Events(records[..seen]).items, filter)
  }

  /** What one more record adds. */
  lemma SelectedFromSnoc(records: seq<Record>, i: nat, filter: Option<nat>)
    requires i < |records| && Events(records[..i]).error == None
    ensures var before, after := SelectedFrom(records, i, filter), SelectedFrom(records, i + 1, filter);
      match ParseItchMessage(records[i].payload, records[i].msgIndex)
      case Err(e) => after == before && Events(records[..i + 1]).error == Some(e)
      case Ok(None) => after == before && Events(records[..i + 1]).error == None
      case Ok(Some(event)) =>
        && after == before + (if filter.None? || event.locate == filter.value then [event] else [])
        && Events(records[..i + 1]).error == None
  {
    hide Events, Selected, ParseItchMessage;
    EventsSnoc(records, i, filter);
  }

  /** The event limit, which is looked at after each event. */
  predicate LimitReached(written: nat, maxEvents: Option<nat>) {
    maxEvents.Some? && written > 0 && written >= maxEvents.value
  }

  /** After so many records nothing has ended the run: no decoding error, no rejection, no limit. */
  predicate Undecided(records: seq<Record>, seen: nat, filter: Option<nat>, maxEvents: Option<nat>)
    requires seen <= |records|
  {
    && Events(records[..seen]).error == None
    && Run(EMPTY_BOOK, SelectedFrom(records, seen, filter), filter).error == None
    && !LimitReached(|SelectedFrom(records, seen, filter)|, maxEvents)
  }

  lemma IsUndecided(records: seq<Record>, seen: nat, filter: Option<nat>, maxEvents: Option<nat>)
    requires seen <= |records| && Events(records[..seen]).error == None
    requires Run(EMPTY_BOOK, SelectedFrom(records, seen, filter), filter).error == None
    requires !LimitReached(|SelectedFrom(records, seen, filter)|, maxEvents)
    ensures Undecided(records, seen, filter, maxEvents)
  {
  }

  /** What a run over some records may report. */
  predicate Reports(read: Yielded<Record>, filter: Option<nat>, maxEvents: Option<nat>,
                    events: seq<Event>, states: seq<BookState>, stats: Stats, error: Option<RunnerError>) {
    var seen := stats.sourceMessagesSeen;
    && seen <= |read.items|
    && (seen > 0 ==> Undecided(read.items, seen - 1, filter, maxEvents))
    && events == SelectedFrom(read.items, seen, filter)
    && StatesFollow(states, events, filter)
    && stats == StatsAfter(seen, events, |states|, filter)
    && match error
       case None =>
         && |states| == |events|
         && Events(read.items[..seen]).error == None
         && (LimitReached(|events|, maxEvents) || (seen == |read.items| && read.error == None))
       case Some(Parsing(e)) =>
         && |states| == |events|
         && (|| Events(read.items[..seen]).error == Some(e)
             || (seen == |read.items| && read.error == Some(e) && Undecided(read.items, seen, filter, maxEvents)))
       case Some(Rejected(e)) =>
         && |states| + 1 == |events|
         && Events(read.items[..seen]).error == None
         && Run(EMPTY_BOOK, events, filter).error == Some(e)
  }

  method RunBytes(data: ByteString, filter: Option<nat>, startIndex: nat, maxMessages: Option<nat>,
                  maxEvents: Option<nat>)
    returns (events: seq<Event>, states: seq<BookState>, stats: Stats, error: Option<RunnerError>)
    ensures Reports(Records(data, startIndex, maxMessages), filter, maxEvents, events, states, stats, error)
  {
    var records, readError := ReadBinaryFile(data, startIndex, maxMessages);
    events, states, stats, error := RunRecords(records, readError, filter, maxEvents);
  }

  method RunRecords(records: seq<Record>, readError: Option<ParseError>, filter: Option<nat>, maxEvents: Option<nat>)
    returns (events: seq<Event>, states: seq<BookState>, stats: Stats, error: Option<RunnerError>)
    ensures Reports(Yielded(records, readError), filter, maxEvents, events, states, stats, error)
  {
    hide Filter, Apply, StatsAfter, StateOf, BboOf, Run, StateFollows, Selected, ParseItchMessage;
    hide Events, SelectedFrom, Undecided, StatesFollow;
    events, states, error := [], [], None;
    stats := Stats(0, None, None, 0, 0, 0);
    var book := new OrderBook(filter);
    NothingYet(records, filter);
    for i := 0 to |records|
      invariant book.expectedLocate == filter
      invariant Run(EMPTY_BOOK, events, filter) == Outcome(book.State(), None)
      invariant stats.sourceMessagesSeen == i && stats == StatsAfter(i, events, |events|, filter)
      invariant Events(records[..i]).error == None
      invariant events == SelectedFrom(records, i, filter)
      invariant |states| == |events| && StatesFollow(states, events, filter)
      invariant !LimitReached(|events|, maxEvents)
      invariant i > 0 ==> Undecided(records, i - 1, filter, maxEvents)
    {
      SelectedFromSnoc(records, i, filter);
      IsUndecided(records, i, filter, maxEvents);
      stats := stats.(sourceMessagesSeen := i + 1);
      StatsSeen(i, events, filter);
      match ParseItchMessage(records[i].payload, records[i].msgIndex) {
        case Err(e) =>
          return events, states, stats, Some(Parsing(e));
        case Ok(None) =>
        case Ok(Some(event)) =>
          if filter.None? || event.locate == filter.value {
            var written := events + [event];
            NextEvent(events, event, states, i, filter);
            events := written;
            var refused := book.Apply(event);
            if refused.Some? {
              return events, states, stats, Some(Rejected(refused.value));
            }
            var state := book.Snapshot(event.msgIndex);
            StateAppended(states, events, state, i + 1, filter);
            states := states + [state];
            stats := Stats(i + 1, Some(event.msgIndex), Some(state.bbo),
                           Larger(stats.peakLiveOrders, |book.orderTable|),
                           Larger(stats.peakBidLevels, |book.bidLevels|),
                           Larger(stats.peakAskLevels, |book.askLevels|));
            if maxEvents.Some? && |events| >= maxEvents.value {
              return;
            }
          }
      }
    }
    IsUndecided(records, |records|, filter, maxEvents);
    if readError.Some? {
      error := Some(Parsing(readError.value));
    }
  }

  // ----- a run has one report

  lemma UndecidedEarlier(records: seq<Record>, k: nat, filter: Option<nat>, maxEvents: Option<nat>)
    requires k < |records| && Undecided(records, k + 1, filter, maxEvents)
    ensures Undecided(records, k, filter, maxEvents)
  {
    hide Selected, ParseItchMessage, Run, LimitReached;
    EventsStep(records, k);
    EventsSnoc(records, k, filter);
    var before, after := SelectedFrom(records, k, filter), SelectedFrom(records, k + 1, filter);
    assert after[..|before|] == before;
    PrefixAccepted(EMPTY_BOOK, after, |before|, filter);
    LimitLater(|before|, |after|, maxEvents);
  }

  lemma LimitLater(n: nat, m: nat, maxEvents: Option<nat>)
    requires n <= m && !LimitReached(m, maxEvents)
    ensures !LimitReached(n, maxEvents)
  {
  }

  lemma {:induction false} UndecidedBefore(records: seq<Record>, k: nat, n: nat, filter: Option<nat>,
                                           maxEvents: Option<nat>)
    requires k <= n <= |records| && Undecided(records, n, filter, maxEvents)
    ensures Undecided(records, k, filter, maxEvents)
    decreases n
  {
    hide Undecided;
    if k < n {
      UndecidedEarlier(records, n - 1, filter, maxEvents);
      UndecidedBefore(records, k, n - 1, filter, maxEvents);
    }
  }

  /** A run that stops before the last record has been decided there. */
  lemma StoppedIsDecided(read: Yielded<Record>, filter: Option<nat>, maxEvents: Option<nat>,
                         events: seq<Event>, states: seq<BookState>, stats: Stats, error: Option<RunnerError>)
    requires Reports(read, filter, maxEvents, events, states, stats, error)
    ensures var seen := stats.sourceMessagesSeen;
      seen < |read.items| ==> !Undecided(read.items, seen, filter, maxEvents)
  {
    hide Events, Selected, StatesFollow, StatsAfter, Run, LimitReached;
  }

  /** The input determines the whole report: what was written, the statistics and the error. */
  lemma ReportUnique(read: Yielded<Record>, filter: Option<nat>, maxEvents: Option<nat>,
                     events: seq<Event>, states: seq<BookState>, stats: Stats, error: Option<RunnerError>,
                     events': seq<Event>, states': seq<BookState>, stats': Stats, error': Option<RunnerError>)
    requires Reports(read, filter, maxEvents, events, states, stats, error)
    requires Reports(read, filter, maxEvents, events', states', stats', error')
    ensures events == events' && states == states' && stats == stats' && error == error'
  {
    hide Events, Selected, StatesFollow, StatsAfter, Run, LimitReached;
    var seen, seen' := stats.sourceMessagesSeen, stats'.sourceMessagesSeen;
    StoppedIsDecided(read, filter, maxEvents, events, states, stats, error);
    StoppedIsDecided(read, filter, maxEvents, events', states', stats', error');
    if seen < seen' {
      UndecidedBefore(read.items, seen, seen' - 1, filter, maxEvents);
    } else if seen' < seen {
      UndecidedBefore(read.items, seen', seen - 1, filter, maxEvents);
    }
    AllStatesAccepted(states, events, filter);
    AllStatesAccepted(states', events', filter);
    StatesDetermined(states, states', events, filter);
  }

  lemma AllStatesAccepted(states: seq<BookState>, events: seq<Event>, filter: Option<nat>)
    requires StatesFollow(states, events, filter)
    ensures |states| == |events| ==> Run(EMPTY_BOOK, events, filter).error == None
  {
    hide BboOf, StateOf, Apply;
    if events != [] && |states| == |events| {
      assert StateFollows(states[|states| - 1], events, |states| - 1, filter);
      assert events[..|events|] == events;
    }
  }

  lemma StatesDetermined(states: seq<BookState>, states': seq<BookState>, events: seq<Event>, filter: Option<nat>)
    requires StatesFollow(states, events, filter) && StatesFollow(states', events, filter)
    ensures |states| == |states'| ==> states == states'
  {
    hide Run, StateOf;
    forall k | 0 <= k < |states| && k < |states'| ensures states[k] == states'[k] {
      assert StateFollows(states[k], events, k, filter) && StateFollows(states'[k], events, k, filter);
    }
  }

  // ----- the event limit

  lemma OneMoreSelected(records: seq<Record>, k: nat, filter: Option<nat>)
    requires k < |records|
    ensures var before, after := SelectedFrom(records, k, filter), SelectedFrom(records, k + 1, filter);
      |before| <= |after| <= |before| + 1
  {
    hide Events, Selected, ParseItchMessage;
    EventsStep(records, k);
    if Events(records[..k]).error == None {
      EventsSnoc(records, k, filter);
    }
  }

  /** However low the limit, no more than one event goes past it. */
  lemma OnePastLimit(read: Yielded<Record>, filter: Option<nat>, m: nat,
                     events: seq<Event>, states: seq<BookState>, stats: Stats, error: Option<RunnerError>)
    requires Reports(read, filter, Some(m), events, states, stats, error)
    ensures |events| <= 1 || |events| <= m
  {
    hide Events, Selected, StatesFollow, StatsAfter, Run;
    if stats.sourceMessagesSeen > 0 {
      OneMoreSelected(read.items, stats.sourceMessagesSeen - 1, filter);
    } else {
      NothingSelected(read.items, filter);
    }
  }

  lemma NothingSelected(records: seq<Record>, filter: Option<nat>)
    ensures SelectedFrom(records, 0, filter) == [] && Events(records[..0]).error == None
  {
  }

  lemma {:induction false} SelectedGrows(records: seq<Record>, k: nat, n: nat, filter: Option<nat>)
    requires k <= n <= |records|
    ensures |SelectedFrom(records, k, filter)| <= |SelectedFrom(records, n, filter)|
    ensures Events(records[..k]).error.Some? ==> Events(records[..n]) == Events(records[..k])
    decreases n
  {
    hide Events, Selected, ParseItchMessage;
    if k < n {
      SelectedGrows(records, k, n - 1, filter);
      OneMoreSelected(records, n - 1, filter);
      EventsStep(records, n - 1);
    }
  }

  /** A limit of zero writes exactly one event, as soon as there is one to write. */
  lemma ZeroLimitWritesOne(read: Yielded<Record>, filter: Option<nat>,
                           events: seq<Event>, states: seq<BookState>, stats: Stats, error: Option<RunnerError>)
    requires Reports(read, filter, Some(0), events, states, stats, error)
    ensures |events| == if Selected(Events(read.items).items, filter) == [] then 0 else 1
  {
    hide Events, Selected, StatesFollow, StatsAfter, Run;
    OnePastLimit(read, filter, 0, events, states, stats, error);
    SelectedGrows(read.items, stats.sourceMessagesSeen, |read.items|, filter);
    assert read.items[..|read.items|] == read.items;
  }

  /** The limit holds if and only if it is at least one or the input has no event to select. */
  lemma LimitHoldsExactly(read: Yielded<Record>, filter: Option<nat>, m: nat,
                          events: seq<Event>, states: seq<BookState>, stats: Stats, error: Option<RunnerError>)
    requires Reports(read, filter, Some(m), events, states, stats, error)
    ensures |events| <= m <==> m >= 1 || Selected(Events(read.items).items, filter) == []
  {
    hide Reports, Events, Selected;
    OnePastLimit(read, filter, m, events, states, stats, error);
    if m == 0 {
      ZeroLimitWritesOne(read, filter, events, states, stats, error);
    }
  }

  /** The stimulus module's replay: every event through one unfiltered book, a state after each. */
  method ReplayEvents(events: seq<Event>) returns (states: seq<BookState>, error: Option<BookError>)
    ensures StatesFollow(states, events, None)
    ensures error == None ==> |states| == |events|
    ensures error != None ==> |states| < |events| && Run(EMPTY_BOOK, events[..|states| + 1], None).error == error
  {
    hide Apply, StateOf, StateFollows;
    states := [];
    var book := new OrderBook(None);
    for i := 0 to |events|
      invariant book.expectedLocate == None
      invariant Run(EMPTY_BOOK, events[..i], None) == Outcome(book.State(), None)
      invariant |states| == i && StatesFollow(states, events, None)
    {
      assert events[..i + 1][..i] == events[..i];
      error := book.Apply(events[i]);
      if error.Some? {
        return;
      }
      var state := book.Snapshot(events[i].msgIndex);
      StateMatches(state, events, i);
      states := states + [state];
    }
    error := None;
  }

  lemma StateMatches(state: BookState, events: seq<Event>, k: nat)
    requires k < |events| && Run(EMPTY_BOOK, events[..k + 1], None).error == None
    requires state == StateOf(Run(EMPTY_BOOK, events[..k + 1], None).book, events[k].msgIndex)
    ensures StateFollows(state, events, k, None)
  {
  }

  // ----- the two output streams keep step

  predicate Increasing(events: seq<Event>) {
    forall j, k :: 0 <= j < k < |events| ==> events[j].msgIndex < events[k].msgIndex
  }

  predicate NumberedFrom(records: seq<Record>, start: nat) {
    forall k :: 0 <= k < |records| ==> records[k].msgIndex == start + k
  }

  lemma {:induction false} RecordsNumbered(data: ByteString, start: nat, limit: Option<nat>)
    ensures NumberedFrom(Records(data, start, limit).items, start)
    decreases |data|
  {
    hide Field;
    if |data| >= 2 && limit != Some(0) && 2 + Field(data, 0, 2) <= |data| {
      var end := 2 + Field(data, 0, 2);
      RecordsNumbered(data[end..], start + 1, Decrement(limit));
      var rest := Records(data[end..], start + 1, Decrement(limit)).items;
    }
  }

  lemma {:induction false} EventsNumbered(records: seq<Record>)
    requires forall j, k :: 0 <= j < k < |records| ==> records[j].msgIndex < records[k].msgIndex
    ensures var events := Events(records).items;
      && Increasing(events)
      && forall k :: 0 <= k < |events| ==> records != [] && events[k].msgIndex <= records[|records| - 1].msgIndex
  {
    hide ParseItchMessage;
    if records != [] {
      EventsNumbered(records[..|records| - 1]);
      ParsedIndex(records[|records| - 1]);
    }
  }

  lemma ParsedIndex(record: Record)
    ensures var parsed := ParseItchMessage(record.payload, record.msgIndex);
      parsed.Ok? && parsed.value.Some? ==> parsed.value.value.msgIndex == record.msgIndex
  {
  }

  lemma {:induction false} FilterIncreasing(events: seq<Event>, locate: nat)
    requires Increasing(events)
    ensures var kept := Filter(events, locate);
      && Increasing(kept)
      && forall k :: 0 <= k < |kept| ==> events != [] && kept[k].msgIndex <= events[|events| - 1].msgIndex
  {
    if events != [] {
      FilterIncreasing(events[..|events| - 1], locate);
    }
  }

  /** In every report the events are numbered strictly upwards and each state carries its event's number. */
  lemma StreamsInStep(data: ByteString, startIndex: nat, maxMessages: Option<nat>, filter: Option<nat>,
                      maxEvents: Option<nat>, events: seq<Event>, states: seq<BookState>, stats: Stats,
                      error: Option<RunnerError>)
    requires Reports(Records(data, startIndex, maxMessages), filter, maxEvents, events, states, stats, error)
    ensures Increasing(events)
    ensures |states| <= |events| && forall k :: 0 <= k < |states| ==> states[k].msgIndex == events[k].msgIndex
  {
    hide Records, Events, Filter, StatsAfter, Run;
    RecordsNumbered(data, startIndex, maxMessages);
    var read := Records(data, startIndex, maxMessages).items[..stats.sourceMessagesSeen];
    EventsNumbered(read);
    if filter.Some? {
      FilterIncreasing(Events(read).items, filter.value);
    }
    forall k | 0 <= k < |states| ensures states[k].msgIndex == events[k].msgIndex {
      assert StateFollows(states[k], events, k, filter);
    }
  }
}
