/**
  The performance monitor of the feed-handler harness: decoded events are followed through the
  book, the per-stock BBO and the external BBO by three queues per stock.
  */
module FeedPerf {
  import opened Wrappers

  datatype Latencies = Latencies(
    decodedToBookAccept: nat,
    bookAcceptToInternalBbo: nat,
    decodedToInternalBbo: nat,
    internalToExternalBbo: nat,
    decodedToExternalBbo: nat)

  datatype LatencyError = Incomplete | NegativeLatency

  class FeedPerfEvent {
    const messageType: nat
    const stockLocate: nat
    const orn: nat
    const updatedOrn: nat
    const decodedCycle: nat
    var bookAcceptCycle: Option<nat>
    var internalBboCycle: Option<nat>
    var externalBboCycle: Option<nat>

    constructor (messageType: nat, stockLocate: nat, orn: nat, updatedOrn: nat, decodedCycle: nat)
      ensures this.messageType == messageType && this.stockLocate == stockLocate
      ensures this.orn == orn && this.updatedOrn == updatedOrn && this.decodedCycle == decodedCycle
      ensures bookAcceptCycle == None && internalBboCycle == None && externalBboCycle == None
    {
      this.messageType, this.stockLocate, this.orn, this.updatedOrn := messageType, stockLocate, orn, updatedOrn;
      this.decodedCycle := decodedCycle;
      bookAcceptCycle, internalBboCycle, externalBboCycle := None, None, None;
    }

    // The four stages of an event, each with its cycles in order.

    ghost predicate Waiting(cycle: nat)
      reads this
    {
      decodedCycle <= cycle && bookAcceptCycle.None? && internalBboCycle.None? && externalBboCycle.None?
    }

    ghost predicate Accepted(cycle: nat)
      reads this
    {
      && bookAcceptCycle.Some? && decodedCycle <= bookAcceptCycle.value <= cycle
      && internalBboCycle.None? && externalBboCycle.None?
    }

    ghost predicate Priced(cycle: nat)
      reads this
    {
      && bookAcceptCycle.Some? && internalBboCycle.Some?
      && decodedCycle <= bookAcceptCycle.value <= internalBboCycle.value <= cycle
      && externalBboCycle.None?
    }

    ghost predicate Complete(cycle: nat)
      reads this
    {
      && bookAcceptCycle.Some? && internalBboCycle.Some? && externalBboCycle.Some?
      && decodedCycle <= bookAcceptCycle.value <= internalBboCycle.value <= externalBboCycle.value <= cycle
    }

    /** The stages passed so far have their cycles, in order, whatever stage that is. */
    ghost predicate InStageOrder(cycle: nat)
      reads this
    {
      && decodedCycle <= cycle
      && (bookAcceptCycle.Some? ==> decodedCycle <= bookAcceptCycle.value <= cycle)
      && (internalBboCycle.Some? ==> bookAcceptCycle.Some? && bookAcceptCycle.value <= internalBboCycle.value <= cycle)
      && (externalBboCycle.Some? ==>
           internalBboCycle.Some? && internalBboCycle.value <= externalBboCycle.value <= cycle)
    }

    predicate RequireComplete()
      reads this
    {
      bookAcceptCycle.Some? && internalBboCycle.Some? && externalBboCycle.Some?
    }

    /** The stage latencies; an incomplete event and a negative difference are refused. */
    method LatencyCycles() returns (result: Result<Latencies, LatencyError>)
      ensures !RequireComplete() ==> result == Err(Incomplete)
      ensures RequireComplete() ==>
        var d, b, i, x := decodedCycle, bookAcceptCycle.value, internalBboCycle.value, externalBboCycle.value;
        if d <= b <= i <= x then
          && result.Ok?
          && result.value.decodedToBookAccept == b - d && result.value.bookAcceptToInternalBbo == i - b
          && result.value.decodedToInternalBbo == i - d && result.value.internalToExternalBbo == x - i
          && result.value.decodedToExternalBbo == x - d
        else result == Err(NegativeLatency)
    {
      if !RequireComplete() {
        return Err(Incomplete);
      }
      var d: int, b: int, i: int, x: int :=
        decodedCycle, bookAcceptCycle.value, internalBboCycle.value, externalBboCycle.value;
      if b - d < 0 || i - b < 0 || i - d < 0 || x - i < 0 || x - d < 0 {
        return Err(NegativeLatency);
      }
      result := Ok(Latencies(b - d, i - b, i - d, x - i, x - d));
    }
  }

  type Queue = seq<FeedPerfEvent>

  ghost predicate NoDup(q: Queue) {
    forall j, k :: 0 <= j < k < |q| ==> q[j] != q[k]
  }

  ghost predicate OfStock(q: Queue, stock: nat) {
    forall e :: e in q ==> e.stockLocate == stock + 1
  }

  /** One stock's events by how far they have come; within each queue the oldest is first. */
  datatype Lanes = Lanes(done: Queue, external: Queue, inner: Queue, book: Queue)

  ghost predicate StagesHold(stock: nat, cycle: nat, lanes: Lanes)
    reads lanes.done, lanes.external, lanes.inner, lanes.book
  {
    && OfStock(lanes.done, stock) && OfStock(lanes.external, stock)
    && OfStock(lanes.inner, stock) && OfStock(lanes.book, stock)
    && NoDup(lanes.external) && NoDup(lanes.inner) && NoDup(lanes.book)
    && (forall e :: e in lanes.done ==> e.Complete(cycle))
    && (forall e :: e in lanes.external ==> e.Priced(cycle))
    && (forall e :: e in lanes.inner ==> e.Accepted(cycle))
    && (forall e :: e in lanes.book ==> e.Waiting(cycle))
  }

  /** Each event carries the cycle recorded for its position in a stage's fire list. */
  ghost predicate StampedAccept(q: Queue, cycles: seq<nat>)
    reads q
  {
    |q| == |cycles| && forall k :: 0 <= k < |q| ==> q[k].bookAcceptCycle == Some(cycles[k])
  }

  ghost predicate StampedInternal(q: Queue, cycles: seq<nat>)
    reads q
  {
    |q| == |cycles| && forall k :: 0 <= k < |q| ==> q[k].internalBboCycle == Some(cycles[k])
  }

  ghost predicate StampedExternal(q: Queue, cycles: seq<nat>)
    reads q
  {
    |q| == |cycles| && forall k :: 0 <= k < |q| ==> q[k].externalBboCycle == Some(cycles[k])
  }

  /** The fire cycles that found an event, stage by stage. */
  datatype Stamps = Stamps(accepted: seq<nat>, priced: seq<nat>, published: seq<nat>)

  /** The oldest events of a stock carry the oldest fire cycles of every stage they have passed. */
  ghost predicate Stamped(lanes: Lanes, stamps: Stamps)
    reads lanes.done, lanes.external, lanes.inner
  {
    && StampedAccept(lanes.done + lanes.external + lanes.inner, stamps.accepted)
    && StampedInternal(lanes.done + lanes.external, stamps.priced)
    && StampedExternal(lanes.done, stamps.published)
  }

  // One step per stage: the event at the head of a queue gets its cycle and moves to the end of the next queue.

  ghost function AcceptedLanes(lanes: Lanes): Lanes
    requires lanes.book != []
  {
    lanes.(inner := lanes.inner + [lanes.book[0]], book := lanes.book[1..])
  }

  ghost function PricedLanes(lanes: Lanes): Lanes
    requires lanes.inner != []
  {
    lanes.(external := lanes.external + [lanes.inner[0]], inner := lanes.inner[1..])
  }

  ghost function PublishedLanes(lanes: Lanes): Lanes
    requires lanes.external != []
  {
    lanes.(done := lanes.done + [lanes.external[0]], external := lanes.external[1..])
  }

  lemma HeadIsNowhereElse(lanes: Lanes, stock: nat, cycle: nat, e: FeedPerfEvent)
    requires StagesHold(stock, cycle, lanes)
    ensures lanes.book != [] && e == lanes.book[0] ==>
      e !in lanes.done && e !in lanes.external && e !in lanes.inner && e !in lanes.book[1..]
    ensures lanes.inner != [] && e == lanes.inner[0] ==>
      e !in lanes.done && e !in lanes.external && e !in lanes.inner[1..] && e !in lanes.book
    ensures lanes.external != [] && e == lanes.external[0] ==>
      e !in lanes.done && e !in lanes.external[1..] && e !in lanes.inner && e !in lanes.book
  {
    assert forall o :: o in lanes.done ==> o.Complete(cycle);
    assert forall o :: o in lanes.external ==> o.Priced(cycle);
    assert forall o :: o in lanes.inner ==> o.Accepted(cycle);
    assert forall o :: o in lanes.book ==> o.Waiting(cycle);
    assert lanes.book != [] ==> lanes.book[0] in lanes.book;
    assert lanes.inner != [] ==> lanes.inner[0] in lanes.inner;
    assert lanes.external != [] ==> lanes.external[0] in lanes.external;
  }

  /** No event is waiting for any stage. */
  ghost predicate Drained(lanes: Lanes) {
    lanes.external == [] && lanes.inner == [] && lanes.book == []
  }

  lemma QueuedIsIncomplete(lanes: Lanes, stock: nat, cycle: nat)
    requires StagesHold(stock, cycle, lanes)
    ensures lanes.external + lanes.inner + lanes.book != [] ==>
      exists e :: e in Flow(lanes) && !e.RequireComplete()
  {
    var queued := lanes.external + lanes.inner + lanes.book;
    if queued != [] {
      var e := queued[0];
      assert e in lanes.external || e in lanes.inner || e in lanes.book;
      assert e in Flow(lanes) && !e.RequireComplete();
    }
  }

  lemma PassedAreElsewhere(lanes: Lanes)
    ensures forall k :: 0 <= k < |lanes.done| ==> lanes.done[k] in lanes.done
    ensures var passed := lanes.done + lanes.external;
      forall k :: 0 <= k < |passed| ==> passed[k] in lanes.done || passed[k] in lanes.external
    ensures var passed := lanes.done + lanes.external + lanes.inner;
      forall k :: 0 <= k < |passed| ==>
        passed[k] in lanes.done || passed[k] in lanes.external || passed[k] in lanes.inner
  {
  }

  // Once the head of a queue carries its cycle, moving it on keeps all stamps in place.

  lemma StampAccepted(lanes: Lanes, stamps: Stamps, cycle: nat)
    requires Stamped(lanes, stamps) && lanes.book != [] && lanes.book[0].bookAcceptCycle == Some(cycle)
    ensures Stamped(AcceptedLanes(lanes), stamps.(accepted := stamps.accepted + [cycle]))
  {
    assert lanes.done + lanes.external + (lanes.inner + [lanes.book[0]])
        == lanes.done + lanes.external + lanes.inner + [lanes.book[0]];
  }

  lemma StampPriced(lanes: Lanes, stamps: Stamps, cycle: nat)
    requires Stamped(lanes, stamps) && lanes.inner != [] && lanes.inner[0].internalBboCycle == Some(cycle)
    ensures Stamped(PricedLanes(lanes), stamps.(priced := stamps.priced + [cycle]))
  {
    assert lanes.done + (lanes.external + [lanes.inner[0]]) == lanes.done + lanes.external + [lanes.inner[0]];
    assert lanes.done + (lanes.external + [lanes.inner[0]]) + lanes.inner[1..]
        == lanes.done + lanes.external + lanes.inner;
  }

  lemma StampPublished(lanes: Lanes, stamps: Stamps, cycle: nat)
    requires Stamped(lanes, stamps) && lanes.external != [] && lanes.external[0].externalBboCycle == Some(cycle)
    ensures Stamped(PublishedLanes(lanes), stamps.(published := stamps.published + [cycle]))
  {
    assert lanes.done + [lanes.external[0]] + lanes.external[1..] == lanes.done + lanes.external;
  }

  method MarkAccepted(e: FeedPerfEvent, cycle: nat, ghost stock: nat, ghost lanes: Lanes, ghost stamps: Stamps)
    requires lanes.book != [] && e == lanes.book[0] && StagesHold(stock, cycle, lanes) && Stamped(lanes, stamps)
    modifies e`bookAcceptCycle
    ensures e.bookAcceptCycle == Some(cycle)
    ensures StagesHold(stock, cycle, AcceptedLanes(lanes))
    ensures Stamped(AcceptedLanes(lanes), stamps.(accepted := stamps.accepted + [cycle]))
  {
    HeadIsNowhereElse(lanes, stock, cycle, e);
    assert e.Waiting(cycle) && forall o :: o in lanes.book[1..] ==> o.Waiting(cycle);
    PassedAreElsewhere(lanes);
    e.bookAcceptCycle := Some(cycle);
    StampAccepted(lanes, stamps, cycle);
  }

  method MarkPriced(e: FeedPerfEvent, cycle: nat, ghost stock: nat, ghost lanes: Lanes, ghost stamps: Stamps)
    requires lanes.inner != [] && e == lanes.inner[0] && StagesHold(stock, cycle, lanes) && Stamped(lanes, stamps)
    modifies e`internalBboCycle
    ensures e.internalBboCycle == Some(cycle)
    ensures StagesHold(stock, cycle, PricedLanes(lanes))
    ensures Stamped(PricedLanes(lanes), stamps.(priced := stamps.priced + [cycle]))
  {
    HeadIsNowhereElse(lanes, stock, cycle, e);
    assert e.Accepted(cycle) && forall o :: o in lanes.inner[1..] ==> o.Accepted(cycle);
    PassedAreElsewhere(lanes);
    e.internalBboCycle := Some(cycle);
    StampPriced(lanes, stamps, cycle);
  }

  method MarkPublished(e: FeedPerfEvent, cycle: nat, ghost stock: nat, ghost lanes: Lanes, ghost stamps: Stamps)
    requires lanes.external != [] && e == lanes.external[0] && StagesHold(stock, cycle, lanes) && Stamped(lanes, stamps)
    modifies e`externalBboCycle
    ensures e.externalBboCycle == Some(cycle)
    ensures StagesHold(stock, cycle, PublishedLanes(lanes))
    ensures Stamped(PublishedLanes(lanes), stamps.(published := stamps.published + [cycle]))
  {
    HeadIsNowhereElse(lanes, stock, cycle, e);
    assert e.Priced(cycle) && forall o :: o in lanes.external[1..] ==> o.Priced(cycle);
    PassedAreElsewhere(lanes);
    e.externalBboCycle := Some(cycle);
    StampPublished(lanes, stamps, cycle);
  }

  // ----- one stock

  /** The queues of one stock, its fire cycles, the fires that found an event and how many found none. */
  datatype StockState = StockState(
    lanes: Lanes, bookFires: seq<nat>, internalFires: seq<nat>, stamps: Stamps, misses: nat)

  ghost const IDLE := StockState(Lanes([], [], [], []), [], [], Stamps([], [], []), 0)

  /** A stock's events from the oldest to the youngest. */
  ghost function Flow(lanes: Lanes): Queue {
    lanes.done + lanes.external + lanes.inner + lanes.book
  }

  ghost function DecodeStep(s: StockState, e: FeedPerfEvent): StockState {
    s.(lanes := s.lanes.(book := s.lanes.book + [e]))
  }

  /** The book accepts the oldest waiting event; with none waiting the fire is a miss. */
  ghost function AcceptStep(s: StockState, cycle: nat): StockState {
    var fired := s.(bookFires := s.bookFires + [cycle]);
    if s.lanes.book == [] then fired.(misses := s.misses + 1)
    else fired.(lanes := AcceptedLanes(s.lanes), stamps := s.stamps.(accepted := s.stamps.accepted + [cycle]))
  }

  /** The stock's BBO follows the oldest accepted event. */
  ghost function PriceStep(s: StockState, cycle: nat): StockState {
    var fired := s.(internalFires := s.internalFires + [cycle]);
    if s.lanes.inner == [] then fired.(misses := s.misses + 1)
    else fired.(lanes := PricedLanes(s.lanes), stamps := s.stamps.(priced := s.stamps.priced + [cycle]))
  }

  /** The external BBO follows the oldest event with a BBO of its own. */
  ghost function PublishStep(s: StockState, cycle: nat): StockState {
    if s.lanes.external == [] then s.(misses := s.misses + 1)
    else s.(lanes := PublishedLanes(s.lanes), stamps := s.stamps.(published := s.stamps.published + [cycle]))
  }

  /** Without a miss the fires that found an event are all the fires. */
  ghost predicate Tallied(s: StockState) {
    s.misses == 0 ==> s.bookFires == s.stamps.accepted && s.internalFires == s.stamps.priced
  }

  /** The steps only move the stock's events along. */
  lemma StepsKeepFlow(s: StockState, cycle: nat)
    ensures Flow(AcceptStep(s, cycle).lanes) == Flow(s.lanes)
    ensures Flow(PriceStep(s, cycle).lanes) == Flow(s.lanes)
    ensures Flow(PublishStep(s, cycle).lanes) == Flow(s.lanes)
  {
    hide Flow, AcceptedLanes, PricedLanes, PublishedLanes;
    MovesKeepFlow(s.lanes);
  }

  lemma MovesKeepFlow(lanes: Lanes)
    ensures lanes.book != [] ==> Flow(AcceptedLanes(lanes)) == Flow(lanes)
    ensures lanes.inner != [] ==> Flow(PricedLanes(lanes)) == Flow(lanes)
    ensures lanes.external != [] ==> Flow(PublishedLanes(lanes)) == Flow(lanes)
  {
    HeadMoves(lanes.done + lanes.external, lanes.inner, lanes.book, []);
    HeadMoves(lanes.done, lanes.external, lanes.inner, lanes.book);
    HeadMoves([], lanes.done, lanes.external, lanes.inner + lanes.book);
  }

  /** Moving the head of one queue to the end of the one before it. */
  lemma HeadMoves(front: Queue, a: Queue, b: Queue, back: Queue)
    ensures b != [] ==> front + (a + [b[0]]) + b[1..] + back == front + a + b + back
  {
  }

  /** The three queues of one stock and the cycles in which its stages fired. */
  class StockPipeline {
    const stock: nat
    var pendingBook: Queue
    var pendingInternal: Queue
    var pendingExternal: Queue
    var bookFireCycles: seq<nat>
    var internalBboCycles: seq<nat>

    /** The events that have left the last queue, the fires that found an event, and the misses. */
    ghost var completed: Queue
    ghost var stamps: Stamps
    ghost var misses: nat

    ghost var Repr: set<object>

    ghost function State(): StockState
      reads this
    {
      StockState(Lanes(completed, pendingExternal, pendingInternal, pendingBook),
                 bookFireCycles, internalBboCycles, stamps, misses)
    }

    ghost predicate Valid(cycle: nat)
      reads this, Repr
      ensures Valid(cycle) ==> this in Repr
    {
      && this in Repr
      && (forall e :: e in completed ==> e in Repr) && (forall e :: e in pendingExternal ==> e in Repr)
      && (forall e :: e in pendingInternal ==> e in Repr) && (forall e :: e in pendingBook ==> e in Repr)
      && StagesHold(stock, cycle, State().lanes) && Stamped(State().lanes, stamps) && Tallied(State())
    }

    constructor (stock: nat)
      ensures Valid(0) && fresh(Repr) && this.stock == stock && State() == IDLE
    {
      this.stock := stock;
      pendingBook, pendingInternal, pendingExternal, completed := [], [], [], [];
      bookFireCycles, internalBboCycles, stamps, misses := [], [], Stamps([], [], []), 0;
      Repr := {this};
    }

    method Decode(e: FeedPerfEvent, ghost cycle: nat)
      requires Valid(cycle) && e !in Repr && e.stockLocate == stock + 1 && e.Waiting(cycle)
      modifies this`pendingBook, this`Repr
      ensures Valid(cycle) && Repr == old(Repr) + {e} && State() == DecodeStep(old(State()), e)
    {
      assert forall k :: 0 <= k < |pendingBook| ==> pendingBook[k] in pendingBook;
      pendingBook := pendingBook + [e];
      Repr := Repr + {e};
    }

    method Accept(cycle: nat) returns (ok: bool)
      requires Valid(cycle)
      modifies Repr
      ensures Valid(cycle) && Repr == old(Repr) && State() == AcceptStep(old(State()), cycle)
      ensures ok == (old(State().lanes.book) != [])
    {
      hide StagesHold, Stamped;
      bookFireCycles := bookFireCycles + [cycle];
      ok := pendingBook != [];
      if !ok {
        misses := misses + 1;
        return;
      }
      var e := pendingBook[0];
      MarkAccepted(e, cycle, stock, State().lanes, stamps);
      pendingBook, pendingInternal := pendingBook[1..], pendingInternal + [e];
      stamps := stamps.(accepted := stamps.accepted + [cycle]);
    }

    method Price(cycle: nat) returns (ok: bool)
      requires Valid(cycle)
      modifies Repr
      ensures Valid(cycle) && Repr == old(Repr) && State() == PriceStep(old(State()), cycle)
      ensures ok == (old(State().lanes.inner) != [])
    {
      hide StagesHold, Stamped;
      internalBboCycles := internalBboCycles + [cycle];
      ok := pendingInternal != [];
      if !ok {
        misses := misses + 1;
        return;
      }
      var e := pendingInternal[0];
      MarkPriced(e, cycle, stock, State().lanes, stamps);
      pendingInternal, pendingExternal := pendingInternal[1..], pendingExternal + [e];
      stamps := stamps.(priced := stamps.priced + [cycle]);
    }

    method Publish(cycle: nat) returns (ok: bool)
      requires Valid(cycle)
      modifies Repr
      ensures Valid(cycle) && Repr == old(Repr) && State() == PublishStep(old(State()), cycle)
      ensures ok == (old(State().lanes.external) != [])
    {
      hide StagesHold, Stamped;
      ok := pendingExternal != [];
      if !ok {
        misses := misses + 1;
        return;
      }
      var e := pendingExternal[0];
      MarkPublished(e, cycle, stock, State().lanes, stamps);
      pendingExternal := pendingExternal[1..];
      completed := completed + [e];
      stamps := stamps.(published := stamps.published + [cycle]);
    }

    /** Every event of the stock has its stages in order, wherever it stands. */
    lemma FlowInOrder(cycle: nat)
      requires Valid(cycle)
      ensures forall e :: e in Flow(State().lanes) ==> e.InStageOrder(cycle)
    {
      var lanes := State().lanes;
      assert forall o :: o in lanes.done ==> o.Complete(cycle);
      assert forall o :: o in lanes.external ==> o.Priced(cycle);
      assert forall o :: o in lanes.inner ==> o.Accepted(cycle);
      assert forall o :: o in lanes.book ==> o.Waiting(cycle);
    }

    /** Time may pass. */
    lemma ValidLater(cycle: nat, later: nat)
      requires Valid(cycle) && cycle <= later
      ensures Valid(later)
    {
    }

    lemma DrainedExactly(cycle: nat)
      requires Valid(cycle)
      ensures Drained(State().lanes) <==> forall e :: e in Flow(State().lanes) ==> e.RequireComplete()
    {
      QueuedIsIncomplete(State().lanes, stock, cycle);
    }

    /** If every event of the stock is complete, they all left the queues and carry the fire cycles one for one. */
    lemma AllComplete(cycle: nat, q: Queue)
      requires Valid(cycle) && misses == 0 && q == Flow(State().lanes)
      requires forall e :: e in q ==> e.RequireComplete()
      ensures StampedAccept(q, bookFireCycles) && StampedInternal(q, internalBboCycles)
      ensures StampedExternal(q, stamps.published)
      ensures forall e :: e in q ==> e.Complete(cycle)
    {
      var lanes := State().lanes;
      QueuedIsIncomplete(lanes, stock, cycle);
      assert lanes.external + lanes.inner + lanes.book == [];
      assert q == lanes.done == lanes.done + lanes.external == lanes.done + lanes.external + lanes.inner;
    }
  }
}
