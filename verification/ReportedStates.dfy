/** What the runner's states and statistics say, in terms of the order table the events leave. */
module ReportedStates {
  import opened Wrappers
  import opened Contracts
  import opened BookSteps
  import opened BookIndex
  import opened BookTheorems
  import opened GoldenOrderBook
  import opened BinaryFile
  import opened Runner

  /** The table after the first events of a run. */
  function TableAfter(events: seq<Event>, k: nat, filter: Option<nat>): Orders
    requires k <= |events|
  {
    Run(EMPTY_BOOK, events[..k], filter).book.orders
  }

  /** A quote is a best order's price with every share resting there; a side without orders has none. */
  ghost predicate Quotes(quote: Option<Quote>, t: Orders, side: Side) {
    match quote
    case None => forall r :: r in t ==> t[r].side != side
    case Some(q) =>
      && q.size == LevelAt(t, side, q.price).shares
      && exists r :: IsBest(t, side, r) && t[r].price == q.price
  }

  /** The first row of a listing is the quote. */
  predicate Heads(rows: seq<Row>, quote: Option<Quote>) {
    if rows == [] then quote == None else quote == Some(Quote(rows[0].price, rows[0].shares))
  }

  /** A state shows a table: levels under their own side, best quotes, and listings that start with them. */
  ghost predicate Shows(state: BookState, t: Orders) {
    && Indexes(state.bidLevels, t, Buy) && Indexes(state.askLevels, t, Sell)
    && Quotes(state.bbo.bid, t, Buy) && Quotes(state.bbo.ask, t, Sell)
    && Heads(LevelsToList(state.bidLevels, Buy), state.bbo.bid)
    && Heads(LevelsToList(state.askLevels, Sell), state.bbo.ask)
  }

  lemma QuoteQuotes(levels: Levels, t: Orders, side: Side)
    requires Indexes(levels, t, side)
    ensures Quotes(QuoteOf(levels, side), t, side)
    ensures Heads(LevelsToList(levels, side), QuoteOf(levels, side))
  {
    hide Indexes, IsBest, QuoteOf;
    QuoteIsBest(levels, t, side);
    FirstRowIsQuote(levels, side);
    if exists r :: r in t && t[r].side == side {
      var r := SomeBest(t, side);
    }
  }

  /** A side with orders has a best one. */
  lemma SomeBest(t: Orders, side: Side) returns (r: nat)
    requires exists q :: q in t && t[q].side == side
    ensures IsBest(t, side, r)
  {
    var prices := set q | q in t && t[q].side == side :: t[q].price;
    var q :| q in t && t[q].side == side;
    assert t[q].price in prices;
    var best := BestPrice(prices, side);
    r :| r in t && t[r].side == side && t[r].price == best;
    forall x | x in t && t[x].side == side ensures NoWorse(side, best, t[x].price) {
      assert t[x].price in prices;
    }
  }

  lemma BookShows(b: Book, msgIndex: nat)
    requires Consistent(b)
    ensures Shows(StateOf(b, msgIndex), b.orders)
  {
    hide Indexes, Quotes, Heads, QuoteOf;
    QuoteQuotes(b.bids, b.orders, Buy);
    QuoteQuotes(b.asks, b.orders, Sell);
  }

  /** Every state written shows the table after its event and carries the event's number. */
  lemma StatesShow(states: seq<BookState>, events: seq<Event>, filter: Option<nat>)
    requires StatesFollow(states, events, filter)
    ensures |states| <= |events|
    ensures forall k :: 0 <= k < |states| ==>
      Shows(states[k], TableAfter(events, k + 1, filter)) && states[k].msgIndex == events[k].msgIndex
  {
    hide Shows, StateOf, Run, Consistent;
    EmptyConsistent();
    forall k | 0 <= k < |states|
      ensures Shows(states[k], TableAfter(events, k + 1, filter)) && states[k].msgIndex == events[k].msgIndex
    {
      assert StateFollows(states[k], events, k, filter);
      RunConsistent(EMPTY_BOOK, events[..k + 1], filter);
      BookShows(BookAfter(events, k + 1, filter), events[k].msgIndex);
      StateNumber(BookAfter(events, k + 1, filter), events[k].msgIndex);
    }
  }

  lemma StateNumber(b: Book, msgIndex: nat)
    ensures StateOf(b, msgIndex).msgIndex == msgIndex
  {
  }

  // ----- the statistics

  /** A value is the greatest of some numbers, or zero if there are none. */
  ghost predicate IsPeak(peak: nat, numbers: seq<nat>) {
    && (forall n :: n in numbers ==> n <= peak)
    && (if numbers == [] then peak == 0 else peak in numbers)
  }

  lemma PeakSnoc(peak: nat, numbers: seq<nat>, n: nat)
    requires IsPeak(peak, numbers)
    ensures IsPeak(if peak < n then n else peak, numbers + [n])
  {
  }

  /** How many orders are live after each of the first events. */
  function LiveCounts(events: seq<Event>, written: nat, filter: Option<nat>): seq<nat>
    requires written <= |events|
  {
    seq(written, k requires 0 <= k < written => |TableAfter(events, k + 1, filter)|)
  }

  function BidCounts(states: seq<BookState>): seq<nat> {
    seq(|states|, k requires 0 <= k < |states| => |states[k].bidLevels|)
  }

  function AskCounts(states: seq<BookState>): seq<nat> {
    seq(|states|, k requires 0 <= k < |states| => |states[k].askLevels|)
  }

  /** The last state's number and quotes, and the peaks over all states written. */
  lemma {:induction false} StatsExactly(seen: nat, events: seq<Event>, states: seq<BookState>, filter: Option<nat>)
    requires StatesFollow(states, events, filter)
    ensures var stats := StatsAfter(seen, events, |states|, filter);
      && stats.sourceMessagesSeen == seen
      && stats.finalMsgIndex == (if states == [] then None else Some(states[|states| - 1].msgIndex))
      && stats.finalBbo == (if states == [] then None else Some(states[|states| - 1].bbo))
      && IsPeak(stats.peakLiveOrders, LiveCounts(events, |states|, filter))
      && IsPeak(stats.peakBidLevels, BidCounts(states))
      && IsPeak(stats.peakAskLevels, AskCounts(states))
    decreases |states|
  {
    hide Run, BboOf, IsPeak, StatsAfter, LiveCounts, BidCounts, AskCounts, StatesFollow;
    if states == [] {
      NoStats(seen, events, states, filter);
    } else {
      var n := |states| - 1;
      FewerStates(states, events, filter);
      StatsExactly(seen, events, states[..n], filter);
      StatsStep(seen, events, states, filter);
      CountsSnoc(events, states, filter);
      var before, b := StatsAfter(seen, events, n, filter), BookAfter(events, n + 1, filter);
      PeakSnoc(before.peakLiveOrders, LiveCounts(events, n, filter), |b.orders|);
      PeakSnoc(before.peakBidLevels, BidCounts(states[..n]), |states[n].bidLevels|);
      PeakSnoc(before.peakAskLevels, AskCounts(states[..n]), |states[n].askLevels|);
    }
  }

  lemma FewerStates(states: seq<BookState>, events: seq<Event>, filter: Option<nat>)
    requires states != [] && StatesFollow(states, events, filter)
    ensures |states| <= |events| && StatesFollow(states[..|states| - 1], events, filter)
  {
    hide Run, StateOf;
  }

  /** One more state's share in the statistics. */
  lemma StatsStep(seen: nat, events: seq<Event>, states: seq<BookState>, filter: Option<nat>)
    requires states != [] && StatesFollow(states, events, filter)
    ensures var n := |states| - 1;
      var before, b := StatsAfter(seen, events, n, filter), BookAfter(events, n + 1, filter);
      && StatsAfter(seen, events, n + 1, filter)
         == Stats(seen, Some(states[n].msgIndex), Some(states[n].bbo), Larger(before.peakLiveOrders, |b.orders|),
                  Larger(before.peakBidLevels, |states[n].bidLevels|),
                  Larger(before.peakAskLevels, |states[n].askLevels|))
  {
    hide Run, BboOf;
    assert StateFollows(states[|states| - 1], events, |states| - 1, filter);
  }

  lemma CountsSnoc(events: seq<Event>, states: seq<BookState>, filter: Option<nat>)
    requires states != [] && |states| <= |events|
    ensures var n := |states| - 1;
      && LiveCounts(events, n + 1, filter)
         == LiveCounts(events, n, filter) + [|BookAfter(events, n + 1, filter).orders|]
      && BidCounts(states) == BidCounts(states[..n]) + [|states[n].bidLevels|]
      && AskCounts(states) == AskCounts(states[..n]) + [|states[n].askLevels|]
  {
    hide Run;
  }

  lemma NoStats(seen: nat, events: seq<Event>, states: seq<BookState>, filter: Option<nat>)
    requires states == []
    ensures StatsAfter(seen, events, 0, filter) == Stats(seen, None, None, 0, 0, 0)
    ensures IsPeak(0, LiveCounts(events, 0, filter)) && IsPeak(0, BidCounts(states)) && IsPeak(0, AskCounts(states))
  {
  }

  /** What every report shows: its states, its statistics, and the errors it may end in. */
  lemma ReportShows(read: Yielded<Record>, filter: Option<nat>, maxEvents: Option<nat>, events: seq<Event>,
                    states: seq<BookState>, stats: Stats, error: Option<RunnerError>)
    requires Reports(read, filter, maxEvents, events, states, stats, error)
    ensures |states| <= |events|
    ensures forall k :: 0 <= k < |states| ==>
      Shows(states[k], TableAfter(events, k + 1, filter)) && states[k].msgIndex == events[k].msgIndex
    ensures stats.finalMsgIndex == (if states == [] then None else Some(states[|states| - 1].msgIndex))
    ensures stats.finalBbo == (if states == [] then None else Some(states[|states| - 1].bbo))
    ensures IsPeak(stats.peakLiveOrders, LiveCounts(events, |states|, filter))
    ensures IsPeak(stats.peakBidLevels, BidCounts(states)) && IsPeak(stats.peakAskLevels, AskCounts(states))
  {
    hide Events, Run, StatesFollow, StatsAfter, SelectedFrom, Shows, IsPeak, LiveCounts, BidCounts, AskCounts;
    StatesShow(states, events, filter);
    StatsExactly(stats.sourceMessagesSeen, events, states, filter);
  }
}
