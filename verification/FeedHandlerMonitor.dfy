/** The monitor over all three stocks: what one cycle does to the capture, and what a clean capture means. */
module FeedHandlerMonitor {
  import opened Wrappers
  import opened FeedPerf
  import opened FifoOccupancy

  datatype DecodedProbe = DecodedProbe(messageType: nat, stockLocate: nat, orn: nat, updatedOrn: nat)

  datatype CorrelationError =
    | UnsupportedLocate(cycle: nat, stockLocate: nat)
    | AcceptWithoutDecode(cycle: nat, stock: nat)
    | InternalWithoutAccept(cycle: nat, stock: nat)
    | InvalidStockId(cycle: nat, stockId: nat)
    | ExternalWithoutInternal(cycle: nat, stock: nat)

  /** The correlation part of a capture; ids names the stock of each external BBO. */
  datatype Capture = Capture(
    states: seq<StockState>, events: Queue, decodedFires: seq<nat>,
    ids: seq<nat>, externalFires: seq<nat>, errors: seq<CorrelationError>)

  /** The decoded events of one stock, in decode order. */
  ghost function DecodedFor(events: Queue, stock: nat): Queue {
    if events == [] then []
    else
      var before, last := DecodedFor(events[..|events| - 1], stock), events[|events| - 1];
      if last.stockLocate == stock + 1 then before + [last] else before
  }

  /** The external BBO cycles that named one stock. */
  function CyclesFor(ids: seq<nat>, cycles: seq<nat>, stock: nat): seq<nat>
    requires |ids| == |cycles|
  {
    if ids == [] then []
    else
      var n := |ids| - 1;
      CyclesFor(ids[..n], cycles[..n], stock) + if ids[n] == stock + 1 then [cycles[n]] else []
  }

  predicate Supported(locate: nat) {
    1 <= locate <= STOCKS
  }

  ghost predicate Undisturbed(c: Capture) {
    && (forall s: StockState :: s in c.states ==> s.misses == 0)
    && (forall e: FeedPerfEvent :: e in c.events ==> Supported(e.stockLocate))
    && (forall id: nat :: id in c.ids ==> Supported(id))
  }

  /**
    The correlation invariant: for each stock the decoded events, in order, are those completed, then
    those awaiting the external BBO, the internal BBO and the book; and an error is on record exactly
    if something went wrong.
    */
  ghost predicate Correlated(c: Capture) {
    && |c.states| == STOCKS && |c.ids| == |c.externalFires| && |c.decodedFires| == |c.events|
    && (forall s :: 0 <= s < STOCKS ==> Flow(c.states[s].lanes) == DecodedFor(c.events, s))
    && (c.errors == [] <==> Undisturbed(c))
    && (c.errors == [] ==>
          forall s :: 0 <= s < STOCKS ==> c.states[s].stamps.published == CyclesFor(c.ids, c.externalFires, s))
  }

  ghost const NOTHING := Capture([IDLE, IDLE, IDLE], [], [], [], [], [])

  // ----- what each sample does

  ghost function Decoded(c: Capture, cycle: nat, e: FeedPerfEvent): Capture
    requires |c.states| == STOCKS
  {
    var seen := c.(events := c.events + [e], decodedFires := c.decodedFires + [cycle]);
    if !Supported(e.stockLocate) then seen.(errors := c.errors + [UnsupportedLocate(cycle, e.stockLocate)])
    else
      var s := e.stockLocate - 1;
      seen.(states := c.states[s := DecodeStep(c.states[s], e)])
  }

  ghost function Accepted(c: Capture, cycle: nat, s: nat): Capture
    requires |c.states| == STOCKS && s < STOCKS
  {
    c.(states := c.states[s := AcceptStep(c.states[s], cycle)],
       errors := c.errors + if c.states[s].lanes.book == [] then [AcceptWithoutDecode(cycle, s)] else [])
  }

  ghost function Priced(c: Capture, cycle: nat, s: nat): Capture
    requires |c.states| == STOCKS && s < STOCKS
  {
    c.(states := c.states[s := PriceStep(c.states[s], cycle)],
       errors := c.errors + if c.states[s].lanes.inner == [] then [InternalWithoutAccept(cycle, s)] else [])
  }

  ghost function Published(c: Capture, cycle: nat, id: nat): Capture
    requires |c.states| == STOCKS
  {
    var seen := c.(externalFires := c.externalFires + [cycle], ids := c.ids + [id]);
    if !Supported(id) then seen.(errors := c.errors + [InvalidStockId(cycle, id)])
    else
      var s := id - 1;
      seen.(states := c.states[s := PublishStep(c.states[s], cycle)],
            errors := c.errors + if c.states[s].lanes.external == [] then [ExternalWithoutInternal(cycle, s)] else [])
  }

  lemma DecodedSnoc(events: Queue, e: FeedPerfEvent, s: nat)
    ensures DecodedFor(events + [e], s) == DecodedFor(events, s) + if e.stockLocate == s + 1 then [e] else []
  {
  }

  lemma {:induction false} DecodedAreEvents(events: Queue, s: nat)
    ensures forall e :: e in DecodedFor(events, s) <==> e in events && e.stockLocate == s + 1
  {
    if events != [] {
      DecodedAreEvents(events[..|events| - 1], s);
      assert events == events[..|events| - 1] + [events[|events| - 1]];
    }
  }

  /** Supported events are complete exactly if those of each stock are. */
  lemma ByStock(events: Queue)
    requires forall e :: e in events ==> e.stockLocate == 1 || e.stockLocate == 2 || e.stockLocate == 3
    ensures (forall e :: e in events ==> e.RequireComplete())
       <==> && (forall e :: e in DecodedFor(events, 0) ==> e.RequireComplete())
            && (forall e :: e in DecodedFor(events, 1) ==> e.RequireComplete())
            && (forall e :: e in DecodedFor(events, 2) ==> e.RequireComplete())
  {
    DecodedAreEvents(events, 0);
    DecodedAreEvents(events, 1);
    DecodedAreEvents(events, 2);
    if (forall e :: e in DecodedFor(events, 0) ==> e.RequireComplete())
       && (forall e :: e in DecodedFor(events, 1) ==> e.RequireComplete())
       && (forall e :: e in DecodedFor(events, 2) ==> e.RequireComplete())
    {
      forall e | e in events ensures e.RequireComplete() {
        assert e in DecodedFor(events, 0) || e in DecodedFor(events, 1) || e in DecodedFor(events, 2);
      }
    }
  }

  lemma CyclesSnoc(ids: seq<nat>, cycles: seq<nat>, id: nat, cycle: nat, s: nat)
    requires |ids| == |cycles|
    ensures CyclesFor(ids + [id], cycles + [cycle], s)
         == CyclesFor(ids, cycles, s) + if id == s + 1 then [cycle] else []
  {
  }

  lemma DecodedKeepsCorrelation(c: Capture, cycle: nat, e: FeedPerfEvent)
    requires Correlated(c)
    ensures Correlated(Decoded(c, cycle, e))
  {
    hide DecodedFor, CyclesFor, Undisturbed, Supported;
    forall s | 0 <= s < STOCKS
      ensures DecodedFor(c.events + [e], s) == DecodedFor(c.events, s) + if e.stockLocate == s + 1 then [e] else []
    {
      DecodedSnoc(c.events, e, s);
    }
    DecodedDisturbs(c, cycle, e);
  }

  lemma DecodedDisturbs(c: Capture, cycle: nat, e: FeedPerfEvent)
    requires |c.states| == STOCKS
    ensures Supported(e.stockLocate) <==> 1 <= e.stockLocate <= STOCKS
    ensures Undisturbed(Decoded(c, cycle, e)) <==> Undisturbed(c) && Supported(e.stockLocate)
  {
    var d := Decoded(c, cycle, e);
    assert e in d.events && forall o :: o in c.events ==> o in d.events;
    if Supported(e.stockLocate) {
      MissesElsewhere(c.states, e.stockLocate - 1, DecodeStep(c.states[e.stockLocate - 1], e));
    }
  }

  lemma MissesElsewhere(states: seq<StockState>, s: nat, next: StockState)
    requires s < |states| && next.misses >= states[s].misses
    ensures (forall st: StockState :: st in states[s := next] ==> st.misses == 0)
       <==> (forall st: StockState :: st in states ==> st.misses == 0) && next.misses == 0
  {
    var after := states[s := next];
    assert forall k :: 0 <= k < |states| ==> after[k] in after && states[k] in states;
  }

  lemma AcceptedKeepsCorrelation(c: Capture, cycle: nat, s: nat)
    requires Correlated(c) && s < STOCKS
    ensures Correlated(Accepted(c, cycle, s))
  {
    hide DecodedFor, CyclesFor, Flow;
    StepsKeepFlow(c.states[s], cycle);
    MissesElsewhere(c.states, s, AcceptStep(c.states[s], cycle));
  }

  lemma PricedKeepsCorrelation(c: Capture, cycle: nat, s: nat)
    requires Correlated(c) && s < STOCKS
    ensures Correlated(Priced(c, cycle, s))
  {
    hide DecodedFor, CyclesFor, Flow;
    StepsKeepFlow(c.states[s], cycle);
    MissesElsewhere(c.states, s, PriceStep(c.states[s], cycle));
  }

  lemma PublishedKeepsCorrelation(c: Capture, cycle: nat, id: nat)
    requires Correlated(c)
    ensures Correlated(Published(c, cycle, id))
  {
    hide DecodedFor, CyclesFor, Flow;
    forall s | 0 <= s < STOCKS
      ensures CyclesFor(c.ids + [id], c.externalFires + [cycle], s)
           == CyclesFor(c.ids, c.externalFires, s) + if id == s + 1 then [cycle] else []
    {
      CyclesSnoc(c.ids, c.externalFires, id, cycle, s);
    }
    var d := Published(c, cycle, id);
    assert id in d.ids && forall o :: o in c.ids ==> o in d.ids;
    if Supported(id) {
      StepsKeepFlow(c.states[id - 1], cycle);
      MissesElsewhere(c.states, id - 1, PublishStep(c.states[id - 1], cycle));
    }
  }

  /** The accepts of the first n stocks in one cycle. */
  ghost function AcceptedFirst(c: Capture, cycle: nat, fires: seq<bool>, n: nat): (d: Capture)
    requires |c.states| == STOCKS == |fires| && n <= STOCKS
    ensures |d.states| == STOCKS
  {
    if n == 0 then c
    else
      var before := AcceptedFirst(c, cycle, fires, n - 1);
      if fires[n - 1] then Accepted(before, cycle, n - 1) else before
  }

  ghost function PricedFirst(c: Capture, cycle: nat, valids: seq<bool>, n: nat): (d: Capture)
    requires |c.states| == STOCKS == |valids| && n <= STOCKS
    ensures |d.states| == STOCKS
  {
    if n == 0 then c
    else
      var before := PricedFirst(c, cycle, valids, n - 1);
      if valids[n - 1] then Priced(before, cycle, n - 1) else before
  }

  predicate Shows(e: FeedPerfEvent, p: DecodedProbe, cycle: nat) {
    && e.messageType == p.messageType && e.stockLocate == p.stockLocate
    && e.orn == p.orn && e.updatedOrn == p.updatedOrn && e.decodedCycle == cycle
  }

  /** How many events have reached the external BBO. */
  ghost function Completed(q: Queue): (count: nat)
    reads q
    ensures count <= |q|
    ensures count == |q| <==> forall e :: e in q ==> e.externalBboCycle.Some?
  {
    if q == [] then 0
    else
      assert q == q[..|q| - 1] + [q[|q| - 1]];
      Completed(q[..|q| - 1]) + if q[|q| - 1].externalBboCycle.Some? then 1 else 0
  }

  /** The signals of one cycle that the correlation and the FIFO watch look at. */
  datatype Probe = Probe(
    reset: bool, decoded: Option<DecodedProbe>, bookFires: seq<bool>, internalValids: seq<bool>,
    externalStockId: Option<nat>, pointers: Pointers)

  predicate WellFormed(p: Probe) {
    |p.bookFires| == STOCKS && |p.internalValids| == STOCKS && PerStock(p.pointers)
  }

  /** One cycle: decode, accepts, internal BBOs and the external BBO, in that order. */
  ghost function CycleStep(c: Capture, cycle: nat, p: Probe, e: Option<FeedPerfEvent>): Capture
    requires |c.states| == STOCKS && WellFormed(p)
  {
    var decoded := if e == None then c else Decoded(c, cycle, e.value);
    var accepted := AcceptedFirst(decoded, cycle, p.bookFires, STOCKS);
    var priced := PricedFirst(accepted, cycle, p.internalValids, STOCKS);
    if p.externalStockId == None then priced else Published(priced, cycle, p.externalStockId.value)
  }

  /** The decoded events no stock takes up. */
  ghost function Strays(events: Queue): set<FeedPerfEvent> {
    set e | e in events && !Supported(e.stockLocate)
  }

  ghost predicate AllWaiting(strays: set<FeedPerfEvent>, cycle: nat)
    reads strays
  {
    forall e :: e in strays ==> e.Waiting(cycle)
  }

  lemma StraysSnoc(events: Queue, e: FeedPerfEvent)
    ensures Strays(events + [e]) == Strays(events) + if Supported(e.stockLocate) then {} else {e}
    ensures e !in events ==> e !in Strays(events)
  {
  }

  lemma WaitingSnoc(strays: set<FeedPerfEvent>, e: FeedPerfEvent, cycle: nat)
    requires AllWaiting(strays, cycle) && e.Waiting(cycle)
    ensures AllWaiting(strays + {e}, cycle) && AllWaiting(strays + {}, cycle)
  {
  }

  lemma WaitingLater(strays: set<FeedPerfEvent>, cycle: nat)
    requires AllWaiting(strays, cycle)
    ensures AllWaiting(strays, cycle + 1)
  {
  }

  /** Three stocks with nothing in common. */
  method NewPipelines() returns (first: StockPipeline, second: StockPipeline, third: StockPipeline)
    ensures first.Valid(0) && first.stock == 0 && first.State() == IDLE && fresh(first.Repr)
    ensures second.Valid(0) && second.stock == 1 && second.State() == IDLE && fresh(second.Repr)
    ensures third.Valid(0) && third.stock == 2 && third.State() == IDLE && fresh(third.Repr)
    ensures first.Repr !! second.Repr && first.Repr !! third.Repr && second.Repr !! third.Repr
  {
    hide StockPipeline.Valid, StockPipeline.State, IDLE;
    first := new StockPipeline(0);
    second := new StockPipeline(1);
    third := new StockPipeline(2);
  }

  class FeedHandlerPerfMonitor {
    const pipelines: seq<StockPipeline>
    const fifos: FifoPointerWatch
    var cycle: nat
    var events: Queue
    var decodedFireCycles: seq<nat>
    var externalBboCycles: seq<nat>
    var correlationErrors: seq<CorrelationError>

    /** The stock named by each external BBO. */
    ghost var externalIds: seq<nat>

    ghost predicate Apart()
      reads this, pipelines
    {
      && |pipelines| == STOCKS
      && (forall s :: 0 <= s < STOCKS ==>
            pipelines[s].stock == s && pipelines[s] in pipelines[s].Repr
            && this !in pipelines[s].Repr && fifos !in pipelines[s].Repr)
      && (forall s, t :: 0 <= s < t < STOCKS ==> pipelines[s].Repr !! pipelines[t].Repr)
    }

    ghost function View(): Capture
      requires |pipelines| == STOCKS
      reads this, pipelines
    {
      Capture([pipelines[0].State(), pipelines[1].State(), pipelines[2].State()],
              events, decodedFireCycles, externalIds, externalBboCycles, correlationErrors)
    }

    ghost function Reach(): set<object>
      requires |pipelines| == STOCKS
      reads this, pipelines
    {
      pipelines[0].Repr + pipelines[1].Repr + pipelines[2].Repr
    }

    /** The objects are where they belong, whatever has been counted. */
    ghost predicate Standing()
      reads this, pipelines, if |pipelines| == STOCKS then Reach() else {}, Strays(events)
    {
      && Apart()
      && pipelines[0].Valid(cycle) && pipelines[1].Valid(cycle) && pipelines[2].Valid(cycle)
      && Strays(events) !! Reach() && AllWaiting(Strays(events), cycle)
    }

    ghost predicate Sound()
      reads this, pipelines, if |pipelines| == STOCKS then Reach() else {}, Strays(events)
    {
      Standing() && Correlated(View())
    }

    constructor ()
      ensures Sound() && View() == NOTHING && cycle == 0
      ensures fresh(this) && fresh(Reach()) && fresh(fifos) && fifos.View() == UNWATCHED
    {
      hide StockPipeline.Valid, StockPipeline.State, FifoPointerWatch.View, IDLE, Correlated;
      var first, second, third := NewPipelines();
      pipelines := [first, second, third];
      fifos := new FifoPointerWatch();
      cycle, events, decodedFireCycles, externalBboCycles, correlationErrors, externalIds := 0, [], [], [], [], [];
      new;
      assert View().states == NOTHING.states;
      NothingCorrelated();
    }

    method SampleDecodedEvent(probe: Option<DecodedProbe>)
      requires Sound()
      modifies this`events, this`decodedFireCycles, this`correlationErrors, pipelines
      ensures Sound() && fresh(Reach() - old(Reach()))
      ensures probe == None ==> View() == old(View())
      ensures probe.Some? ==>
        && |events| == |old(events)| + 1 && fresh(events[|old(events)|])
        && Shows(events[|old(events)|], probe.value, cycle)
        && View() == Decoded(old(View()), cycle, events[|old(events)|])
    {
      hide StockPipeline.Valid, StockPipeline.State, Correlated, Decoded;
      if probe.None? {
        return;
      }
      var p := probe.value;
      var event := new FeedPerfEvent(p.messageType, p.stockLocate, p.orn, p.updatedOrn, cycle);
      RecordDecoded(event);
    }

    method RecordDecoded(event: FeedPerfEvent)
      requires Sound() && event.Waiting(cycle) && event !in Reach() && event !in events
      modifies this`events, this`decodedFireCycles, this`correlationErrors, pipelines
      ensures Sound() && Reach() <= old(Reach()) + {event}
      ensures events == old(events) + [event] && View() == Decoded(old(View()), cycle, event)
    {
      hide StockPipeline.Valid, StockPipeline.State, Correlated, DecodeStep;
      ghost var next := Decoded(View(), cycle, event);
      DecodedKeepsCorrelation(View(), cycle, event);
      StraysSnoc(events, event);
      WaitingSnoc(Strays(events), event, cycle);
      events := events + [event];
      decodedFireCycles := decodedFireCycles + [cycle];
      if !(1 <= event.stockLocate <= STOCKS) {
        correlationErrors := correlationErrors + [UnsupportedLocate(cycle, event.stockLocate)];
        return;
      }
      pipelines[event.stockLocate - 1].Decode(event, cycle);
      assert View().states == next.states;
    }

    method SampleBookAccepts(fires: seq<bool>)
      requires Sound() && |fires| == STOCKS
      modifies this`correlationErrors, Reach()
      ensures Sound() && Reach() == old(Reach()) && View() == AcceptedFirst(old(View()), cycle, fires, STOCKS)
    {
      hide StockPipeline.Valid, StockPipeline.State, Correlated, Accepted;
      for stock := 0 to STOCKS
        invariant Sound() && Reach() == old(Reach()) && View() == AcceptedFirst(old(View()), cycle, fires, stock)
      {
        if fires[stock] {
          AcceptStock(stock);
        }
      }
    }

    method AcceptStock(stock: nat)
      requires Sound() && stock < STOCKS
      modifies this`correlationErrors, pipelines[stock].Repr
      ensures Sound() && Reach() == old(Reach()) && View() == Accepted(old(View()), cycle, stock)
    {
      hide StockPipeline.Valid, StockPipeline.State, Correlated, AcceptStep;
      ghost var next := Accepted(View(), cycle, stock);
      AcceptedKeepsCorrelation(View(), cycle, stock);
      var ok := pipelines[stock].Accept(cycle);
      if !ok {
        correlationErrors := correlationErrors + [AcceptWithoutDecode(cycle, stock)];
      }
      assert View().states == next.states;
      assert View().errors == next.errors;
    }

    method SampleInternalBbos(valids: seq<bool>)
      requires Sound() && |valids| == STOCKS
      modifies this`correlationErrors, Reach()
      ensures Sound() && Reach() == old(Reach()) && View() == PricedFirst(old(View()), cycle, valids, STOCKS)
    {
      hide StockPipeline.Valid, StockPipeline.State, Correlated, Priced;
      for stock := 0 to STOCKS
        invariant Sound() && Reach() == old(Reach()) && View() == PricedFirst(old(View()), cycle, valids, stock)
      {
        if valids[stock] {
          PriceStock(stock);
        }
      }
    }

    method PriceStock(stock: nat)
      requires Sound() && stock < STOCKS
      modifies this`correlationErrors, pipelines[stock].Repr
      ensures Sound() && Reach() == old(Reach()) && View() == Priced(old(View()), cycle, stock)
    {
      hide StockPipeline.Valid, StockPipeline.State, Correlated, PriceStep;
      ghost var next := Priced(View(), cycle, stock);
      PricedKeepsCorrelation(View(), cycle, stock);
      var ok := pipelines[stock].Price(cycle);
      if !ok {
        correlationErrors := correlationErrors + [InternalWithoutAccept(cycle, stock)];
      }
      assert View().states == next.states;
      assert View().errors == next.errors;
    }

    method SampleExternalBbo(stockId: Option<nat>)
      requires Sound()
      modifies this`correlationErrors, this`externalBboCycles, this`externalIds, Reach()
      ensures Sound() && Reach() == old(Reach())
      ensures View() == if stockId == None then old(View()) else Published(old(View()), cycle, stockId.value)
    {
      hide StockPipeline.Valid, StockPipeline.State, Correlated, PublishStep;
      if stockId.None? {
        return;
      }
      var id := stockId.value;
      ghost var next := Published(View(), cycle, id);
      PublishedKeepsCorrelation(View(), cycle, id);
      externalBboCycles := externalBboCycles + [cycle];
      externalIds := externalIds + [id];
      if !(1 <= id <= STOCKS) {
        correlationErrors := correlationErrors + [InvalidStockId(cycle, id)];
        return;
      }
      PublishStock(id - 1, next.errors);
    }

    method PublishStock(stock: nat, ghost errors: seq<CorrelationError>)
      requires Standing() && stock < STOCKS
      requires errors == correlationErrors
        + if View().states[stock].lanes.external == [] then [ExternalWithoutInternal(cycle, stock)] else []
      modifies this`correlationErrors, pipelines[stock].Repr
      ensures Standing() && Reach() == old(Reach())
      ensures View() == old(View()).(
        states := old(View()).states[stock := PublishStep(old(View()).states[stock], cycle)], errors := errors)
    {
      hide StockPipeline.Valid, StockPipeline.State, Correlated, PublishStep;
      ghost var states := View().states[stock := PublishStep(View().states[stock], cycle)];
      var ok := pipelines[stock].Publish(cycle);
      if !ok {
        correlationErrors := correlationErrors + [ExternalWithoutInternal(cycle, stock)];
      }
      assert View().states == states;
      assert correlationErrors == errors;
    }

    /** The event decoded since there were so many. */
    ghost function NewEvent(before: nat): Option<FeedPerfEvent>
      reads this
    {
      if before < |events| then Some(events[before]) else None
    }

    method Correlate(p: Probe)
      requires Sound() && WellFormed(p)
      modifies this, Reach()
      ensures Sound() && fresh(Reach() - old(Reach())) && cycle == old(cycle)
      ensures NewEvent(|old(events)|).Some? == p.decoded.Some?
      ensures p.decoded.Some? ==> Shows(NewEvent(|old(events)|).value, p.decoded.value, cycle)
      ensures View() == CycleStep(old(View()), cycle, p, NewEvent(|old(events)|))
    {
      hide StockPipeline.Valid, StockPipeline.State, Correlated, AcceptedFirst, PricedFirst, Published, Decoded;
      SampleDecodedEvent(p.decoded);
      SampleBookAccepts(p.bookFires);
      SampleInternalBbos(p.internalValids);
      SampleExternalBbo(p.externalStockId);
    }

    /** One clock cycle; in reset nothing is sampled. */
    method Tick(p: Probe)
      requires Sound() && WellFormed(p) && fifos.View().Valid()
      modifies this, Reach(), fifos
      ensures Sound() && fresh(Reach() - old(Reach())) && cycle == old(cycle) + 1
      ensures NewEvent(|old(events)|).Some? == (!p.reset && p.decoded.Some?)
      ensures !p.reset && p.decoded.Some? ==> Shows(NewEvent(|old(events)|).value, p.decoded.value, old(cycle))
      ensures View() == if p.reset then old(View()) else CycleStep(old(View()), old(cycle), p, NewEvent(|old(events)|))
      ensures fifos.View() == if p.reset then old(fifos.View()) else Sampled(old(fifos.View()), old(cycle), p.pointers)
    {
      hide StockPipeline.Valid, StockPipeline.State, Correlated, CycleStep, Shows, Sampled;
      if !p.reset {
        Correlate(p);
        fifos.SampleFifoPointers(cycle, p.pointers);
      }
      AdvanceCycle();
    }

    method AdvanceCycle()
      requires Sound()
      modifies this`cycle
      ensures Sound() && cycle == old(cycle) + 1 && View() == old(View()) && Reach() == old(Reach())
    {
      hide StockPipeline.Valid, StockPipeline.State, Correlated;
      pipelines[0].ValidLater(cycle, cycle + 1);
      pipelines[1].ValidLater(cycle, cycle + 1);
      pipelines[2].ValidLater(cycle, cycle + 1);
      WaitingLater(Strays(events), cycle);
      cycle := cycle + 1;
    }

    /** With no error on record and every event complete, each stage fired once for each decoded event, in order. */
    ghost predicate Matched(s: nat)
      requires Apart() && |externalIds| == |externalBboCycles| && s < STOCKS
      reads this, pipelines, events, DecodedFor(events, s)
    {
      var decoded := DecodedFor(events, s);
      && StampedAccept(decoded, pipelines[s].bookFireCycles)
      && StampedInternal(decoded, pipelines[s].internalBboCycles)
      && StampedExternal(decoded, CyclesFor(externalIds, externalBboCycles, s))
    }

    lemma StockCompleteExactly(s: nat)
      requires Sound() && s < STOCKS
      ensures Drained(View().states[s].lanes) <==> forall e :: e in DecodedFor(events, s) ==> e.RequireComplete()
    {
      hide Drained, Flow, FeedPerfEvent.RequireComplete;
      pipelines[s].DrainedExactly(cycle);
      assert View().states[s] == pipelines[s].State();
    }

    /** Every event is complete exactly if all queues have drained. */
    lemma CompleteExactly()
      requires Sound() && correlationErrors == []
      ensures (forall e :: e in events ==> e.RequireComplete())
         <==> forall s :: 0 <= s < STOCKS ==> Drained(View().states[s].lanes)
    {
      AllSupported();
      hide Drained, Correlated, StockPipeline.Valid, StockPipeline.State, FeedPerfEvent.RequireComplete;
      ghost var view := View();
      ByStock(events);
      StockCompleteExactly(0);
      StockCompleteExactly(1);
      StockCompleteExactly(2);
    }

    lemma CleanMatches(s: nat)
      requires Sound() && correlationErrors == [] && s < STOCKS
      requires forall e :: e in events ==> e.RequireComplete()
      ensures Matched(s)
      ensures forall e :: e in events && e.stockLocate == s + 1 ==> e.Complete(cycle)
    {
      DecodedAreEvents(events, s);
      forall e | e in DecodedFor(events, s) ensures e.RequireComplete() {
        assert e in events;
      }
      assert pipelines[s].State() in View().states;
      pipelines[s].AllComplete(cycle, DecodedFor(events, s));
    }

    method CompletedEventCount() returns (count: nat)
      ensures count == Completed(events)
    {
      count := 0;
      for k := 0 to |events|
        invariant count == Completed(events[..k])
      {
        assert events[..k + 1][..k] == events[..k];
        if events[k].externalBboCycle.Some? {
          count := count + 1;
        }
      }
      assert events[..|events|] == events;
    }

    /**
      The capture check. The stream error lists are not sampled by this model; whether they are empty is
      an input. A clean capture matches every stage to every decoded event of every stock.
      */
    method AssertClean(streamsClean: bool, expectedEvents: Option<nat>) returns (clean: bool)
      requires Sound() && fifos.View().Valid()
      ensures clean <==>
        && streamsClean && correlationErrors == [] && fifos.anomalies == []
        && (forall s :: 0 <= s < 3 ==> fifos.fifos[s].overflowCycles == [] && fifos.fifos[s].occupancy == 0)
        && (forall e :: e in events ==> e.RequireComplete())
        && (expectedEvents.Some? ==> |events| == expectedEvents.value)
      ensures clean ==> Matched(0) && Matched(1) && Matched(2)
      ensures clean ==> forall e :: e in events ==> e.Complete(cycle)
    {
      hide StockPipeline.Valid, StockPipeline.State, Correlated, Matched, View;
      if !streamsClean || correlationErrors != [] || fifos.anomalies != [] {
        return false;
      }
      for s := 0 to STOCKS
        invariant forall t :: 0 <= t < s ==> fifos.fifos[t].overflowCycles == [] && fifos.fifos[t].occupancy == 0
      {
        if fifos.fifos[s].overflowCycles != [] || fifos.fifos[s].occupancy != 0 {
          return false;
        }
      }
      for k := 0 to |events|
        invariant forall j :: 0 <= j < k ==> events[j].RequireComplete()
      {
        if !events[k].RequireComplete() {
          assert events[k] in events;
          return false;
        }
      }
      if expectedEvents.Some? {
        var completed := CompletedEventCount();
        if |events| != expectedEvents.value || completed != expectedEvents.value {
          return false;
        }
      }
      clean := true;
      CleanMatches(0);
      CleanMatches(1);
      CleanMatches(2);
      AllSupported();
    }

    /** In every reachable state each event's stages are in order, clean capture or not, supported locate or not. */
    lemma StagesInOrder(e: FeedPerfEvent)
      requires Sound() && e in events
      ensures e.InStageOrder(cycle)
      ensures e.RequireComplete() ==> e.Complete(cycle)
    {
      if Supported(e.stockLocate) {
        var s := e.stockLocate - 1;
        DecodedAreEvents(events, s);
        assert e in DecodedFor(events, s);
        pipelines[s].FlowInOrder(cycle);
        assert View().states[s] == pipelines[s].State();
        assert Flow(View().states[s].lanes) == DecodedFor(events, s);
      } else {
        assert e in Strays(events);
      }
    }

    /** So a latency is never negative, in whatever state it is asked for. */
    method LatencyOf(e: FeedPerfEvent) returns (result: Result<Latencies, LatencyError>)
      requires Sound() && e in events
      ensures result != Err(NegativeLatency)
      ensures result.Ok? <==> e.RequireComplete()
    {
      StagesInOrder(e);
      result := e.LatencyCycles();
    }

    lemma AllSupported()
      requires Sound() && correlationErrors == []
      ensures forall e :: e in events ==> e.stockLocate == 1 || e.stockLocate == 2 || e.stockLocate == 3
    {
    }
  }

  lemma NothingCorrelated()
    ensures Correlated(NOTHING)
  {
  }
}
