/** Exactly which signal traces the monitor finds no correlation error in. */
module CorrelationTheorems {
  import opened Wrappers
  import opened FeedPerf
  import opened FeedHandlerMonitor
  import opened FifoOccupancy

  datatype Stage = Decode | Accept | Price | Publish

  /** What one stock's stages did in one cycle. */
  datatype Signals = Signals(decode: bool, accept: bool, price: bool, publish: bool)

  predicate Fired(g: Signals, stage: Stage) {
    match stage
    case Decode => g.decode
    case Accept => g.accept
    case Price => g.price
    case Publish => g.publish
  }

  /** How often a stage has fired. */
  function Total(trace: seq<Signals>, stage: Stage): nat {
    if trace == [] then 0
    else Total(trace[..|trace| - 1], stage) + if Fired(trace[|trace| - 1], stage) then 1 else 0
  }

  /** No stage is ever ahead of the stage before it. */
  predicate InOrder(trace: seq<Signals>) {
    && Total(trace, Accept) <= Total(trace, Decode)
    && Total(trace, Price) <= Total(trace, Accept)
    && Total(trace, Publish) <= Total(trace, Price)
  }

  ghost predicate AlwaysInOrder(trace: seq<Signals>) {
    forall k :: 0 <= k <= |trace| ==> InOrder(trace[..k])
  }

  /** The lengths of one stock's queues. */
  datatype Counts = Counts(book: nat, inner: nat, external: nat, misses: nat)

  function CountStep(c: Counts, g: Signals): Counts {
    var c1 := if g.decode then c.(book := c.book + 1) else c;
    var c2 := if !g.accept then c1
              else if c1.book == 0 then c1.(misses := c1.misses + 1)
              else c1.(book := c1.book - 1, inner := c1.inner + 1);
    var c3 := if !g.price then c2
              else if c2.inner == 0 then c2.(misses := c2.misses + 1)
              else c2.(inner := c2.inner - 1, external := c2.external + 1);
    if !g.publish then c3
    else if c3.external == 0 then c3.(misses := c3.misses + 1)
    else c3.(external := c3.external - 1)
  }

  function After(trace: seq<Signals>): Counts {
    if trace == [] then Counts(0, 0, 0, 0)
    else CountStep(After(trace[..|trace| - 1]), trace[|trace| - 1])
  }

  /** A stock never misses exactly if no stage ever gets ahead; then its queues hold the differences. */
  lemma {:induction false} NoMissExactly(trace: seq<Signals>)
    ensures After(trace).misses == 0 <==> AlwaysInOrder(trace)
    ensures After(trace).misses == 0 ==>
      && After(trace).book == Total(trace, Decode) - Total(trace, Accept)
      && After(trace).inner == Total(trace, Accept) - Total(trace, Price)
      && After(trace).external == Total(trace, Price) - Total(trace, Publish)
  {
    if trace == [] {
      assert forall k :: 0 <= k <= |trace| ==> trace[..k] == [];
    } else {
      hide AlwaysInOrder, After, Total, CountStep, Fired;
      var before, last := trace[..|trace| - 1], trace[|trace| - 1];
      NoMissExactly(before);
      AlwaysSnoc(trace);
      StepExactly(After(before), last,
                  Total(before, Decode), Total(before, Accept), Total(before, Price), Total(before, Publish));
    }
  }

  /** One cycle: with the queues holding the differences, a miss is a stage getting ahead. */
  lemma StepExactly(c: Counts, g: Signals, decodes: nat, accepts: nat, prices: nat, publishes: nat)
    ensures CountStep(c, g).misses >= c.misses
    ensures
      var d, a, p, x := decodes + (if Fired(g, Decode) then 1 else 0), accepts + (if Fired(g, Accept) then 1 else 0),
                        prices + (if Fired(g, Price) then 1 else 0), publishes + (if Fired(g, Publish) then 1 else 0);
      && c.misses == 0
      && c.book == decodes - accepts && c.inner == accepts - prices && c.external == prices - publishes ==>
        && (CountStep(c, g).misses == 0 <==> a <= d && p <= a && x <= p)
        && (CountStep(c, g).misses == 0 ==>
              CountStep(c, g).book == d - a && CountStep(c, g).inner == a - p && CountStep(c, g).external == p - x)
  {
  }

  lemma AlwaysSnoc(trace: seq<Signals>)
    requires trace != []
    ensures AlwaysInOrder(trace) <==> AlwaysInOrder(trace[..|trace| - 1]) && InOrder(trace)
  {
    hide InOrder;
    var before := trace[..|trace| - 1];
    assert trace[..|trace|] == trace;
    assert forall k :: 0 <= k <= |before| ==> before[..k] == trace[..k];
    if AlwaysInOrder(before) && InOrder(trace) {
      forall k | 0 <= k <= |trace| ensures InOrder(trace[..k]) {
        assert k < |trace| ==> InOrder(before[..k]);
      }
    }
  }

  // ----- the monitor counts this way

  ghost function CountsOf(s: StockState): Counts {
    Counts(|s.lanes.book|, |s.lanes.inner|, |s.lanes.external|, s.misses)
  }

  function SignalsOf(p: Probe, s: nat): Signals
    requires WellFormed(p) && s < STOCKS
  {
    if p.reset then Signals(false, false, false, false)
    else
      Signals(p.decoded.Some? && p.decoded.value.stockLocate == s + 1, p.bookFires[s], p.internalValids[s],
              p.externalStockId == Some(s + 1))
  }

  lemma {:induction false} AcceptedState(c: Capture, cycle: nat, fires: seq<bool>, n: nat)
    requires |c.states| == STOCKS == |fires| && n <= STOCKS
    ensures var d := AcceptedFirst(c, cycle, fires, n);
      && d.events == c.events && d.ids == c.ids
      && d.decodedFires == c.decodedFires && d.externalFires == c.externalFires
      && forall s :: 0 <= s < STOCKS ==>
           d.states[s] == if s < n && fires[s] then AcceptStep(c.states[s], cycle) else c.states[s]
  {
    hide AcceptStep;
    if n > 0 {
      AcceptedState(c, cycle, fires, n - 1);
    }
  }

  lemma {:induction false} PricedState(c: Capture, cycle: nat, valids: seq<bool>, n: nat)
    requires |c.states| == STOCKS == |valids| && n <= STOCKS
    ensures var d := PricedFirst(c, cycle, valids, n);
      && d.events == c.events && d.ids == c.ids
      && d.decodedFires == c.decodedFires && d.externalFires == c.externalFires
      && forall s :: 0 <= s < STOCKS ==>
           d.states[s] == if s < n && valids[s] then PriceStep(c.states[s], cycle) else c.states[s]
  {
    hide PriceStep;
    if n > 0 {
      PricedState(c, cycle, valids, n - 1);
    }
  }

  /** The four stages of a stock in one cycle. */
  ghost function StockCycle(st: StockState, cycle: nat, g: Signals, e: Option<FeedPerfEvent>): StockState
    requires g.decode ==> e.Some?
  {
    var s1 := if g.decode then DecodeStep(st, e.value) else st;
    var s2 := if g.accept then AcceptStep(s1, cycle) else s1;
    var s3 := if g.price then PriceStep(s2, cycle) else s2;
    if g.publish then PublishStep(s3, cycle) else s3
  }

  lemma CycleByStock(c: Capture, cycle: nat, p: Probe, e: Option<FeedPerfEvent>, s: nat)
    requires |c.states| == STOCKS && WellFormed(p) && !p.reset && s < STOCKS
    requires e.Some? == p.decoded.Some? && (e.Some? ==> Shows(e.value, p.decoded.value, cycle))
    ensures var d := CycleStep(c, cycle, p, e);
      && |d.states| == STOCKS
      && d.states[s] == StockCycle(c.states[s], cycle, SignalsOf(p, s), e)
      && d.events == c.events + (if e.Some? then [e.value] else [])
      && d.ids == c.ids + (if p.externalStockId.Some? then [p.externalStockId.value] else [])
  {
    hide DecodeStep, AcceptStep, PriceStep, PublishStep, AcceptedFirst, PricedFirst, Accepted, Priced;
    hide Decoded, Published, Supported;
    var decoded := if e == None then c else Decoded(c, cycle, e.value);
    if e.Some? {
      DecodedState(c, cycle, e.value, s);
    }
    AcceptedState(decoded, cycle, p.bookFires, STOCKS);
    var accepted := AcceptedFirst(decoded, cycle, p.bookFires, STOCKS);
    PricedState(accepted, cycle, p.internalValids, STOCKS);
    if p.externalStockId.Some? {
      PublishedState(PricedFirst(accepted, cycle, p.internalValids, STOCKS), cycle, p.externalStockId.value, s);
    }
  }

  lemma DecodedState(c: Capture, cycle: nat, e: FeedPerfEvent, s: nat)
    requires |c.states| == STOCKS && s < STOCKS
    ensures var d := Decoded(c, cycle, e);
      && |d.states| == STOCKS && d.events == c.events + [e] && d.ids == c.ids
      && d.states[s] == if e.stockLocate == s + 1 then DecodeStep(c.states[s], e) else c.states[s]
  {
    hide DecodeStep;
  }

  lemma PublishedState(c: Capture, cycle: nat, id: nat, s: nat)
    requires |c.states| == STOCKS && s < STOCKS
    ensures var d := Published(c, cycle, id);
      && |d.states| == STOCKS && d.events == c.events && d.ids == c.ids + [id]
      && d.states[s] == if id == s + 1 then PublishStep(c.states[s], cycle) else c.states[s]
  {
    hide PublishStep;
  }

  lemma StockCycleCounts(st: StockState, cycle: nat, g: Signals, e: Option<FeedPerfEvent>)
    requires g.decode ==> e.Some?
    ensures CountsOf(StockCycle(st, cycle, g, e)) == CountStep(CountsOf(st), g)
  {
    hide CountsOf, DecodeStep, AcceptStep, PriceStep, PublishStep;
    var s1 := if g.decode then DecodeStep(st, e.value) else st;
    var s2 := if g.accept then AcceptStep(s1, cycle) else s1;
    var s3 := if g.price then PriceStep(s2, cycle) else s2;
    if g.decode {
      DecodeCounts(st, e.value);
    }
    AcceptCounts(s1, cycle);
    PriceCounts(s2, cycle);
    PublishCounts(s3, cycle);
  }

  lemma DecodeCounts(st: StockState, e: FeedPerfEvent)
    ensures CountsOf(DecodeStep(st, e)) == CountsOf(st).(book := CountsOf(st).book + 1)
  {
  }

  lemma AcceptCounts(st: StockState, cycle: nat)
    ensures var c := CountsOf(st);
      CountsOf(AcceptStep(st, cycle)) == if c.book == 0 then c.(misses := c.misses + 1)
                                         else c.(book := c.book - 1, inner := c.inner + 1)
  {
  }

  lemma PriceCounts(st: StockState, cycle: nat)
    ensures var c := CountsOf(st);
      CountsOf(PriceStep(st, cycle)) == if c.inner == 0 then c.(misses := c.misses + 1)
                                        else c.(inner := c.inner - 1, external := c.external + 1)
  {
  }

  lemma PublishCounts(st: StockState, cycle: nat)
    ensures var c := CountsOf(st);
      CountsOf(PublishStep(st, cycle)) == if c.external == 0 then c.(misses := c.misses + 1)
                                          else c.(external := c.external - 1)
  {
  }

  // ----- whole runs

  predicate AllWellFormed(probes: seq<Probe>) {
    forall k :: 0 <= k < |probes| ==> WellFormed(probes[k])
  }

  /** One stock's signals, cycle by cycle. */
  function Trace(probes: seq<Probe>, s: nat): (trace: seq<Signals>)
    requires AllWellFormed(probes) && s < STOCKS
    ensures |trace| == |probes|
  {
    seq(|probes|, k requires 0 <= k < |probes| => SignalsOf(probes[k], s))
  }

  lemma TraceSnoc(probes: seq<Probe>, s: nat)
    requires AllWellFormed(probes) && probes != [] && s < STOCKS
    ensures var n := |probes| - 1;
      AllWellFormed(probes[..n])
      && After(Trace(probes, s)) == CountStep(After(Trace(probes[..n], s)), SignalsOf(probes[n], s))
  {
    hide CountStep, SignalsOf;
    var n := |probes| - 1;
    assert Trace(probes, s)[..n] == Trace(probes[..n], s);
  }

  predicate GoodLocate(p: Probe) {
    !p.reset && p.decoded.Some? ==> Supported(p.decoded.value.stockLocate)
  }

  predicate GoodId(p: Probe) {
    !p.reset && p.externalStockId.Some? ==> Supported(p.externalStockId.value)
  }

  predicate AllGood(probes: seq<Probe>) {
    forall k :: 0 <= k < |probes| ==> GoodLocate(probes[k]) && GoodId(probes[k])
  }

  lemma GoodSnoc(probes: seq<Probe>)
    requires probes != []
    ensures var n := |probes| - 1;
      AllGood(probes) <==> AllGood(probes[..n]) && GoodLocate(probes[n]) && GoodId(probes[n])
  {
  }

  ghost predicate NamesGood(c: Capture) {
    (forall e: FeedPerfEvent :: e in c.events ==> Supported(e.stockLocate))
    && (forall id: nat :: id in c.ids ==> Supported(id))
  }

  /** A capture whose counts are those of the probes so far. */
  ghost predicate Follows(c: Capture, probes: seq<Probe>)
    requires AllWellFormed(probes)
  {
    && |c.states| == STOCKS
    && (forall s :: 0 <= s < STOCKS ==> CountsOf(c.states[s]) == After(Trace(probes, s)))
    && (NamesGood(c) <==> AllGood(probes))
    && |c.events| == DecodeCount(probes)
  }

  /** How many events the probes decode. */
  function DecodeCount(probes: seq<Probe>): nat {
    if probes == [] then 0
    else
      var p := probes[|probes| - 1];
      DecodeCount(probes[..|probes| - 1]) + if !p.reset && p.decoded.Some? then 1 else 0
  }

  lemma NamesSnoc(c: Capture, cycle: nat, p: Probe, e: Option<FeedPerfEvent>)
    requires |c.states| == STOCKS && WellFormed(p) && !p.reset
    requires e.Some? == p.decoded.Some? && (e.Some? ==> Shows(e.value, p.decoded.value, cycle))
    ensures NamesGood(CycleStep(c, cycle, p, e)) <==> NamesGood(c) && GoodLocate(p) && GoodId(p)
  {
    hide CycleStep, StockCycle, Supported, SignalsOf;
    CycleByStock(c, cycle, p, e, 0);
    var d := CycleStep(c, cycle, p, e);
    assert forall o :: o in c.events ==> o in d.events;
    assert forall id :: id in c.ids ==> id in d.ids;
    assert e.Some? ==> e.value in d.events;
    assert p.externalStockId.Some? ==> p.externalStockId.value in d.ids;
  }

  lemma FollowsNext(c: Capture, cycle: nat, probes: seq<Probe>, e: Option<FeedPerfEvent>)
    requires AllWellFormed(probes) && probes != [] && Follows(c, probes[..|probes| - 1])
    requires var p := probes[|probes| - 1];
      p.reset || (e.Some? == p.decoded.Some? && (e.Some? ==> Shows(e.value, p.decoded.value, cycle)))
    ensures var p := probes[|probes| - 1];
      Follows(if p.reset then c else CycleStep(c, cycle, p, e), probes)
  {
    hide CycleStep, StockCycle, Shows, NamesGood, AllGood, CountsOf, After, Trace, WellFormed;
    var n := |probes| - 1;
    var p := probes[n];
    GoodSnoc(probes);
    var d := if p.reset then c else CycleStep(c, cycle, p, e);
    if !p.reset {
      NamesSnoc(c, cycle, p, e);
      CycleByStock(c, cycle, p, e, 0);
    }
    forall s | 0 <= s < STOCKS ensures CountsOf(d.states[s]) == After(Trace(probes, s)) {
      TraceSnoc(probes, s);
      if !p.reset {
        CycleByStock(c, cycle, p, e, s);
        StockCycleCounts(c.states[s], cycle, SignalsOf(p, s), e);
      }
    }
  }

  lemma NothingFollows()
    ensures Follows(NOTHING, [])
  {
  }

  /** What the correlation check finds out about a trace. */
  ghost predicate Orderly(probes: seq<Probe>)
    requires AllWellFormed(probes)
  {
    AllGood(probes) && forall s :: 0 <= s < STOCKS ==> AlwaysInOrder(Trace(probes, s))
  }

  lemma ErrorFreeExactly(c: Capture, probes: seq<Probe>)
    requires AllWellFormed(probes) && Follows(c, probes) && Correlated(c)
    ensures c.errors == [] <==> Orderly(probes)
  {
    hide After, Trace, AlwaysInOrder, AllGood, AllWellFormed, Supported, Flow, DecodedFor, CyclesFor;
    forall s | 0 <= s < STOCKS
      ensures c.states[s].misses == 0 <==> AlwaysInOrder(Trace(probes, s))
    {
      NoMissExactly(Trace(probes, s));
    }
    assert forall s :: 0 <= s < STOCKS ==> c.states[s] in c.states;
  }

  /** What the FIFO watch holds after sampling the probes' pointers, reset cycles left out. */
  function WatchAfter(probes: seq<Probe>): (w: Watch)
    requires AllWellFormed(probes)
    ensures w.Valid()
  {
    if probes == [] then UNWATCHED
    else
      var n := |probes| - 1;
      var before := WatchAfter(probes[..n]);
      if probes[n].reset then before else Sampled(before, n, probes[n].pointers)
  }

  lemma NothingSampled(probes: seq<Probe>)
    requires probes == []
    ensures WatchAfter(probes) == UNWATCHED
  {
  }

  lemma WatchNext(probes: seq<Probe>, n: nat)
    requires AllWellFormed(probes) && n < |probes|
    ensures WatchAfter(probes[..n + 1])
         == if probes[n].reset then WatchAfter(probes[..n]) else Sampled(WatchAfter(probes[..n]), n, probes[n].pointers)
  {
    hide Sampled;
    assert probes[..n + 1][..n] == probes[..n];
  }

  // ----- what is on record after a run, cycle by cycle

  // The three ways one stock can miss in one cycle, from its queues before the cycle and its signals in it.

  predicate AcceptMisses(q: Counts, g: Signals) {
    g.accept && q.book == 0 && !g.decode
  }

  predicate PriceMisses(q: Counts, g: Signals) {
    g.price && q.inner == 0 && !(g.accept && !AcceptMisses(q, g))
  }

  predicate PublishMisses(q: Counts, g: Signals) {
    g.publish && q.external == 0 && !(g.price && !PriceMisses(q, g))
  }

  /** The lengths of all three stocks' queues after some cycles. */
  function QueuesAfter(probes: seq<Probe>): (queues: seq<Counts>)
    requires AllWellFormed(probes)
    ensures |queues| == 3
  {
    [After(Trace(probes, 0)), After(Trace(probes, 1)), After(Trace(probes, 2))]
  }

  function AcceptErrors(p: Probe, cycle: nat, queues: seq<Counts>, n: nat): seq<CorrelationError>
    requires WellFormed(p) && |queues| == 3 && n <= 3
  {
    if n == 0 then []
    else
      AcceptErrors(p, cycle, queues, n - 1)
      + if AcceptMisses(queues[n - 1], SignalsOf(p, n - 1)) then [AcceptWithoutDecode(cycle, n - 1)] else []
  }

  function PriceErrors(p: Probe, cycle: nat, queues: seq<Counts>, n: nat): seq<CorrelationError>
    requires WellFormed(p) && |queues| == 3 && n <= 3
  {
    if n == 0 then []
    else
      PriceErrors(p, cycle, queues, n - 1)
      + if PriceMisses(queues[n - 1], SignalsOf(p, n - 1)) then [InternalWithoutAccept(cycle, n - 1)] else []
  }

  function LocateErrors(p: Probe, cycle: nat): seq<CorrelationError> {
    if p.decoded.Some? && !(1 <= p.decoded.value.stockLocate <= 3)
    then [UnsupportedLocate(cycle, p.decoded.value.stockLocate)] else []
  }

  /** The errors of one cycle, in the order in which they are recorded. */
  function CycleErrors(p: Probe, cycle: nat, queues: seq<Counts>): seq<CorrelationError>
    requires WellFormed(p) && |queues| == 3
  {
    if p.reset then []
    else
      LocateErrors(p, cycle)
      + AcceptErrors(p, cycle, queues, 3)
      + PriceErrors(p, cycle, queues, 3)
      + if p.externalStockId == None then [] else PublishErrors(p, cycle, queues, p.externalStockId.value)
  }

  function PublishErrors(p: Probe, cycle: nat, queues: seq<Counts>, id: nat): seq<CorrelationError>
    requires WellFormed(p) && |queues| == 3
  {
    if !(1 <= id <= 3) then [InvalidStockId(cycle, id)]
    else if PublishMisses(queues[id - 1], SignalsOf(p, id - 1)) then [ExternalWithoutInternal(cycle, id - 1)]
    else []
  }

  /** Every error of a run. */
  function ErrorsOf(probes: seq<Probe>): seq<CorrelationError>
    requires AllWellFormed(probes)
  {
    if probes == [] then []
    else
      var n := |probes| - 1;
      ErrorsOf(probes[..n]) + CycleErrors(probes[n], n, QueuesAfter(probes[..n]))
  }

  /** The cycles in which a stage of a stock fired. */
  function FireCycles(trace: seq<Signals>, stage: Stage): seq<nat> {
    if trace == [] then []
    else
      var n := |trace| - 1;
      FireCycles(trace[..n], stage) + if Fired(trace[n], stage) then [n] else []
  }

  /** The external BBOs of a run, each with its cycle and the stock id it named. */
  function Externals(probes: seq<Probe>): seq<(nat, nat)> {
    if probes == [] then []
    else
      var n := |probes| - 1;
      Externals(probes[..n])
      + if !probes[n].reset && probes[n].externalStockId.Some? then [(n, probes[n].externalStockId.value)] else []
  }

  /** The decoded events of a run, each with its cycle and its probe. */
  function Decodes(probes: seq<Probe>): seq<(nat, DecodedProbe)> {
    if probes == [] then []
    else
      var n := |probes| - 1;
      Decodes(probes[..n]) + if !probes[n].reset && probes[n].decoded.Some? then [(n, probes[n].decoded.value)] else []
  }

  /** The events and the external BBOs of a capture are some decodes and some BBOs, with their cycles. */
  ghost predicate Lists(c: Capture, decodes: seq<(nat, DecodedProbe)>, externals: seq<(nat, nat)>) {
    && |c.events| == |c.decodedFires| == |decodes|
    && (forall k :: 0 <= k < |c.events| ==>
          var e, (cycle, p) := c.events[k], decodes[k];
          && c.decodedFires[k] == e.decodedCycle == cycle
          && e.messageType == p.messageType && e.stockLocate == p.stockLocate
          && e.orn == p.orn && e.updatedOrn == p.updatedOrn)
    && |c.externalFires| == |c.ids| == |externals|
    && (forall k :: 0 <= k < |c.ids| ==> (c.externalFires[k], c.ids[k]) == externals[k])
  }

  ghost predicate Listed(c: Capture, probes: seq<Probe>) {
    Lists(c, Decodes(probes), Externals(probes))
  }

  /** Everything on record in a capture follows from the probes. */
  ghost predicate OnRecord(c: Capture, probes: seq<Probe>)
    requires AllWellFormed(probes)
  {
    && |c.states| == STOCKS && Listed(c, probes)
    && c.errors == ErrorsOf(probes)
    && (forall s :: 0 <= s < STOCKS ==>
          && c.states[s].bookFires == FireCycles(Trace(probes, s), Accept)
          && c.states[s].internalFires == FireCycles(Trace(probes, s), Price))
  }

  lemma DecodedErrors(c: Capture, cycle: nat, e: FeedPerfEvent, p: Probe)
    requires |c.states| == STOCKS && p.decoded.Some? && Shows(e, p.decoded.value, cycle)
    ensures Decoded(c, cycle, e).errors
         == c.errors + LocateErrors(p, cycle)
  {
    hide DecodeStep;
  }

  /** The accepts' errors, when the queues hold the events decoded this cycle already. */
  lemma {:induction false} AcceptedErrors(c: Capture, cycle: nat, p: Probe, queues: seq<Counts>, n: nat)
    requires |c.states| == STOCKS == |queues| && WellFormed(p) && !p.reset && n <= STOCKS
    requires forall s :: 0 <= s < STOCKS ==>
      |c.states[s].lanes.book| == queues[s].book + if SignalsOf(p, s).decode then 1 else 0
    ensures AcceptedFirst(c, cycle, p.bookFires, n).errors == c.errors + AcceptErrors(p, cycle, queues, n)
  {
    hide AcceptStep;
    if n > 0 {
      AcceptedErrors(c, cycle, p, queues, n - 1);
      AcceptedState(c, cycle, p.bookFires, n - 1);
    }
  }

  lemma {:induction false} PricedErrors(c: Capture, cycle: nat, p: Probe, queues: seq<Counts>, n: nat)
    requires |c.states| == STOCKS == |queues| && WellFormed(p) && !p.reset && n <= STOCKS
    requires forall s :: 0 <= s < STOCKS ==>
      var g := SignalsOf(p, s);
      |c.states[s].lanes.inner| == queues[s].inner + if g.accept && !AcceptMisses(queues[s], g) then 1 else 0
    ensures PricedFirst(c, cycle, p.internalValids, n).errors == c.errors + PriceErrors(p, cycle, queues, n)
  {
    hide PriceStep, AcceptMisses;
    if n > 0 {
      PricedErrors(c, cycle, p, queues, n - 1);
      PricedState(c, cycle, p.internalValids, n - 1);
    }
  }

  lemma PublishedErrors(c: Capture, cycle: nat, p: Probe, queues: seq<Counts>)
    requires |c.states| == STOCKS == |queues| && WellFormed(p) && !p.reset && p.externalStockId.Some?
    requires forall s :: 0 <= s < STOCKS ==>
      var g := SignalsOf(p, s);
      |c.states[s].lanes.external| == queues[s].external + if g.price && !PriceMisses(queues[s], g) then 1 else 0
    ensures Published(c, cycle, p.externalStockId.value).errors
         == c.errors + PublishErrors(p, cycle, queues, p.externalStockId.value)
  {
    hide PublishStep, PriceMisses;
    var id := p.externalStockId.value;
    if 1 <= id <= 3 {
      assert SignalsOf(p, id - 1).publish;
    }
  }

  /** One cycle adds its errors. */
  lemma CycleAddsErrors(c: Capture, cycle: nat, p: Probe, e: Option<FeedPerfEvent>, queues: seq<Counts>)
    requires |c.states| == STOCKS == |queues| && WellFormed(p) && !p.reset
    requires e.Some? == p.decoded.Some? && (e.Some? ==> Shows(e.value, p.decoded.value, cycle))
    requires forall s :: 0 <= s < STOCKS ==> CountsOf(c.states[s]) == queues[s]
    ensures CycleStep(c, cycle, p, e).errors == c.errors + CycleErrors(p, cycle, queues)
  {
    hide DecodeStep, AcceptStep, PriceStep, PublishStep, Decoded, Published, AcceptedFirst, PricedFirst, Shows;
    hide PublishErrors, CountsOf, SignalsOf, AcceptMisses, PriceMisses;
    var decoded := if e == None then c else Decoded(c, cycle, e.value);
    if e.Some? {
      DecodedErrors(c, cycle, e.value, p);
    }
    QueuesDecoded(c, cycle, p, e, queues);
    AcceptedErrors(decoded, cycle, p, queues, STOCKS);
    var accepted := AcceptedFirst(decoded, cycle, p.bookFires, STOCKS);
    QueuesAccepted(decoded, cycle, p, queues);
    PricedErrors(accepted, cycle, p, queues, STOCKS);
    var priced := PricedFirst(accepted, cycle, p.internalValids, STOCKS);
    QueuesPriced(accepted, cycle, p, queues);
    if p.externalStockId.Some? {
      PublishedErrors(priced, cycle, p, queues);
    }
    var noted := LocateErrors(p, cycle);
    assert decoded.errors == c.errors + noted;
    var accepts, prices := AcceptErrors(p, cycle, queues, 3), PriceErrors(p, cycle, queues, 3);
    var publishes := if p.externalStockId == None then [] else PublishErrors(p, cycle, queues, p.externalStockId.value);
    FourParts(c.errors, noted, accepts, prices, publishes);
  }

  lemma FourParts<T>(a: seq<T>, b: seq<T>, c: seq<T>, d: seq<T>, e: seq<T>)
    ensures a + b + c + d + e == a + (b + c + d + e)
  {
  }

  // How long the queues are when each stage looks at them.

  ghost predicate AfterDecode(st: StockState, q: Counts, g: Signals) {
    && |st.lanes.book| == q.book + (if g.decode then 1 else 0)
    && |st.lanes.inner| == q.inner && |st.lanes.external| == q.external
  }

  ghost predicate AfterAccept(st: StockState, q: Counts, g: Signals) {
    && |st.lanes.inner| == q.inner + (if g.accept && !AcceptMisses(q, g) then 1 else 0)
    && |st.lanes.external| == q.external
  }

  ghost predicate AfterPrice(st: StockState, q: Counts, g: Signals) {
    |st.lanes.external| == q.external + if g.price && !PriceMisses(q, g) then 1 else 0
  }

  lemma QueuesDecoded(c: Capture, cycle: nat, p: Probe, e: Option<FeedPerfEvent>, queues: seq<Counts>)
    requires |c.states| == STOCKS == |queues| && WellFormed(p) && !p.reset
    requires e.Some? == p.decoded.Some? && (e.Some? ==> Shows(e.value, p.decoded.value, cycle))
    requires forall s :: 0 <= s < STOCKS ==> CountsOf(c.states[s]) == queues[s]
    ensures var d := if e == None then c else Decoded(c, cycle, e.value);
      |d.states| == STOCKS && forall s :: 0 <= s < STOCKS ==> AfterDecode(d.states[s], queues[s], SignalsOf(p, s))
  {
    hide Decoded, AfterDecode, CountsOf, SignalsOf, Shows;
    var d := if e == None then c else Decoded(c, cycle, e.value);
    if e.Some? {
      DecodedState(c, cycle, e.value, 0);
    }
    forall s | 0 <= s < STOCKS ensures AfterDecode(d.states[s], queues[s], SignalsOf(p, s)) {
      if e.Some? {
        DecodedState(c, cycle, e.value, s);
      }
      QueueDecoded(c.states[s], d.states[s], p, e, cycle, s);
    }
  }

  lemma QueueDecoded(st: StockState, st': StockState, p: Probe, e: Option<FeedPerfEvent>, cycle: nat, s: nat)
    requires WellFormed(p) && !p.reset && s < STOCKS
    requires e.Some? == p.decoded.Some? && (e.Some? ==> Shows(e.value, p.decoded.value, cycle))
    requires st' == if e.Some? && e.value.stockLocate == s + 1 then DecodeStep(st, e.value) else st
    ensures AfterDecode(st', CountsOf(st), SignalsOf(p, s))
  {
  }

  lemma QueuesAccepted(c: Capture, cycle: nat, p: Probe, queues: seq<Counts>)
    requires |c.states| == STOCKS == |queues| && WellFormed(p) && !p.reset
    requires forall s :: 0 <= s < STOCKS ==> AfterDecode(c.states[s], queues[s], SignalsOf(p, s))
    ensures var d := AcceptedFirst(c, cycle, p.bookFires, STOCKS);
      forall s :: 0 <= s < STOCKS ==> AfterAccept(d.states[s], queues[s], SignalsOf(p, s))
  {
    AcceptedState(c, cycle, p.bookFires, STOCKS);
  }

  lemma QueuesPriced(c: Capture, cycle: nat, p: Probe, queues: seq<Counts>)
    requires |c.states| == STOCKS == |queues| && WellFormed(p) && !p.reset
    requires forall s :: 0 <= s < STOCKS ==> AfterAccept(c.states[s], queues[s], SignalsOf(p, s))
    ensures var d := PricedFirst(c, cycle, p.internalValids, STOCKS);
      forall s :: 0 <= s < STOCKS ==> AfterPrice(d.states[s], queues[s], SignalsOf(p, s))
  {
    PricedState(c, cycle, p.internalValids, STOCKS);
  }

  // The lists a cycle extends.

  lemma CycleLists(c: Capture, cycle: nat, p: Probe, e: Option<FeedPerfEvent>)
    requires |c.states| == STOCKS && WellFormed(p) && !p.reset && e.Some? == p.decoded.Some?
    ensures var d := CycleStep(c, cycle, p, e);
      && d.events == c.events + (if e.Some? then [e.value] else [])
      && d.decodedFires == c.decodedFires + (if e.Some? then [cycle] else [])
      && d.ids == c.ids + (if p.externalStockId.Some? then [p.externalStockId.value] else [])
      && d.externalFires == c.externalFires + (if p.externalStockId.Some? then [cycle] else [])
  {
    hide DecodeStep, PublishStep, Accepted, Priced;
    var decoded := if e == None then c else Decoded(c, cycle, e.value);
    AcceptedState(decoded, cycle, p.bookFires, STOCKS);
    PricedState(AcceptedFirst(decoded, cycle, p.bookFires, STOCKS), cycle, p.internalValids, STOCKS);
  }

  lemma ListedNext(c: Capture, probes: seq<Probe>, e: Option<FeedPerfEvent>)
    requires probes != [] && |c.states| == STOCKS && Listed(c, probes[..|probes| - 1])
    requires var p := probes[|probes| - 1];
      WellFormed(p) && !p.reset
      && e.Some? == p.decoded.Some? && (e.Some? ==> Shows(e.value, p.decoded.value, |probes| - 1))
    ensures Listed(CycleStep(c, |probes| - 1, probes[|probes| - 1], e), probes)
  {
    hide CycleStep, WellFormed;
    CycleLists(c, |probes| - 1, probes[|probes| - 1], e);
  }

  lemma StockCycleFires(st: StockState, cycle: nat, g: Signals, e: Option<FeedPerfEvent>)
    requires g.decode ==> e.Some?
    ensures var st' := StockCycle(st, cycle, g, e);
      && st'.bookFires == st.bookFires + (if g.accept then [cycle] else [])
      && st'.internalFires == st.internalFires + (if g.price then [cycle] else [])
  {
    hide AcceptedLanes, PricedLanes, PublishedLanes;
  }

  lemma FiresSnoc(probes: seq<Probe>, s: nat, stage: Stage)
    requires AllWellFormed(probes) && probes != [] && s < STOCKS
    ensures var n := |probes| - 1;
      && AllWellFormed(probes[..n])
      && FireCycles(Trace(probes, s), stage)
         == FireCycles(Trace(probes[..n], s), stage) + if Fired(SignalsOf(probes[n], s), stage) then [n] else []
  {
    hide SignalsOf, Fired;
    var n := |probes| - 1;
    assert Trace(probes, s)[..n] == Trace(probes[..n], s);
  }

  /** One more cycle leaves on record what it adds. */
  lemma OnRecordNext(c: Capture, probes: seq<Probe>, e: Option<FeedPerfEvent>)
    requires AllWellFormed(probes) && probes != []
    requires Follows(c, probes[..|probes| - 1]) && OnRecord(c, probes[..|probes| - 1])
    requires var p := probes[|probes| - 1];
      p.reset || (e.Some? == p.decoded.Some? && (e.Some? ==> Shows(e.value, p.decoded.value, |probes| - 1)))
    ensures var p := probes[|probes| - 1];
      OnRecord(if p.reset then c else CycleStep(c, |probes| - 1, p, e), probes)
  {
    hide CycleStep, StockCycle, Shows, NamesGood, AllGood, CountsOf, After, Trace, WellFormed, Listed;
    hide CycleErrors;
    var n := |probes| - 1;
    var p := probes[n];
    var d := if p.reset then c else CycleStep(c, n, p, e);
    forall s | 0 <= s < STOCKS
      ensures |d.states| == STOCKS
      ensures d.states[s].bookFires == FireCycles(Trace(probes, s), Accept)
      ensures d.states[s].internalFires == FireCycles(Trace(probes, s), Price)
    {
      FiresSnoc(probes, s, Accept);
      FiresSnoc(probes, s, Price);
      if p.reset {
        ResetIsSilent(p, s);
      } else {
        CycleByStock(c, n, p, e, s);
        StockCycleFires(c.states[s], n, SignalsOf(p, s), e);
      }
    }
    if p.reset {
      NothingRecorded(c, probes);
    } else {
      ListedNext(c, probes, e);
      CycleAddsErrors(c, n, p, e, QueuesAfter(probes[..n]));
    }
  }

  lemma ResetIsSilent(p: Probe, s: nat)
    requires WellFormed(p) && s < STOCKS && p.reset
    ensures !SignalsOf(p, s).accept && !SignalsOf(p, s).price
  {
  }

  lemma NothingRecorded(c: Capture, probes: seq<Probe>)
    requires AllWellFormed(probes) && probes != [] && probes[|probes| - 1].reset
    ensures Listed(c, probes[..|probes| - 1]) ==> Listed(c, probes)
    ensures ErrorsOf(probes) == ErrorsOf(probes[..|probes| - 1])
  {
    hide Lists, WellFormed, QueuesAfter;
    var earlier := probes[..|probes| - 1];
    assert Decodes(probes) == Decodes(earlier) && Externals(probes) == Externals(earlier);
  }

  lemma NothingOnRecord()
    ensures OnRecord(NOTHING, [])
  {
  }

  // ----- the monitor over any trace

  /** The monitor's run loop over any trace: no correlation error exactly if the trace is orderly. */
  method MonitorRun(probes: seq<Probe>) returns (monitor: FeedHandlerPerfMonitor)
    requires AllWellFormed(probes)
    ensures monitor.Sound() && monitor.cycle == |probes| && Follows(monitor.View(), probes)
    ensures OnRecord(monitor.View(), probes)
    ensures monitor.correlationErrors == [] <==> Orderly(probes)
    ensures monitor.fifos.View() == WatchAfter(probes)
    ensures forall e :: e in monitor.events ==> e.InStageOrder(monitor.cycle)
  {
    hide StockPipeline.Valid, StockPipeline.State, Correlated, CycleStep, Shows, WellFormed, Follows, OnRecord;
    hide FifoPointerWatch.View, Sampled, WatchAfter, FeedPerfEvent.InStageOrder;
    monitor := new FeedHandlerPerfMonitor();
    NothingFollows();
    NothingOnRecord();
    NothingSampled(probes[..0]);
    for n := 0 to |probes|
      invariant fresh(monitor) && monitor.Sound() && fresh(monitor.Reach()) && fresh(monitor.fifos)
      invariant monitor.cycle == n && AllWellFormed(probes[..n]) && Follows(monitor.View(), probes[..n])
      invariant OnRecord(monitor.View(), probes[..n])
      invariant monitor.fifos.View() == WatchAfter(probes[..n])
    {
      ghost var c, before := monitor.View(), |monitor.events|;
      WatchNext(probes, n);
      monitor.Tick(probes[n]);
      assert probes[..n + 1][..n] == probes[..n];
      FollowsNext(c, n, probes[..n + 1], monitor.NewEvent(before));
      OnRecordNext(c, probes[..n + 1], monitor.NewEvent(before));
    }
    assert probes[..|probes|] == probes;
    ErrorFreeExactly(monitor.View(), probes);
    forall e | e in monitor.events ensures e.InStageOrder(monitor.cycle) {
      monitor.StagesInOrder(e);
    }
  }

  // ----- clean captures, said of the trace

  /** In the end every event a stock decoded has been published. */
  predicate AllPublished(probes: seq<Probe>)
    requires AllWellFormed(probes)
  {
    forall s :: 0 <= s < STOCKS ==> Total(Trace(probes, s), Decode) == Total(Trace(probes, s), Publish)
  }

  /** Without errors the queues have drained exactly if everything has been published. */
  lemma DrainedExactly(c: Capture, probes: seq<Probe>)
    requires AllWellFormed(probes) && Follows(c, probes) && Orderly(probes)
    ensures AllPublished(probes) <==> forall s :: 0 <= s < STOCKS ==> Drained(c.states[s].lanes)
  {
    hide After, Total, Trace, AllGood, NamesGood;
    forall s | 0 <= s < STOCKS
      ensures Drained(c.states[s].lanes)
         <==> Total(Trace(probes, s), Decode) == Total(Trace(probes, s), Publish)
    {
      var trace := Trace(probes, s);
      NoMissExactly(trace);
      assert trace[..|trace|] == trace;
      assert InOrder(trace[..|trace|]);
    }
  }

  /**
    A whole measurement: the capture is clean if and only if the trace is orderly, every decoded
    event was published, the sampled pointers gave no reason to object, the other streams were clean
    and the expected number of events was decoded.
    */
  method CheckedRun(probes: seq<Probe>, streamsClean: bool, expectedEvents: Option<nat>)
    returns (monitor: FeedHandlerPerfMonitor, clean: bool)
    requires AllWellFormed(probes)
    ensures clean <==>
      && streamsClean && Orderly(probes) && AllPublished(probes) && WatchAfter(probes).anomalies == []
      && (forall s :: 0 <= s < 3 ==>
            WatchAfter(probes).fifos[s].overflowCycles == [] && WatchAfter(probes).fifos[s].occupancy == 0)
      && (expectedEvents.Some? ==> DecodeCount(probes) == expectedEvents.value)
  {
    hide StockPipeline.Valid, StockPipeline.State, Correlated, Orderly, AllPublished, WatchAfter, Drained;
    hide FeedHandlerPerfMonitor.Matched, OnRecord, FeedPerfEvent.InStageOrder;
    monitor := MonitorRun(probes);
    clean := monitor.AssertClean(streamsClean, expectedEvents);
    if monitor.correlationErrors == [] {
      monitor.CompleteExactly();
      DrainedExactly(monitor.View(), probes);
    }
  }
}
