/** FIFO occupancy reconstructed from four-bit write and read pointers. */
module FifoOccupancy {
  import opened Wrappers

  const FIFO_DEPTH: nat := 16
  const FIFO_SAFE_OCCUPANCY: nat := FIFO_DEPTH - 1
  const STOCKS: nat := 3

  datatype Fifo = Fifo(occupancy: int, maxOccupancy: int, overflowCycles: seq<nat>)

  const EMPTY_FIFO := Fifo(0, 0, [])

  datatype Anomaly =
    | WritePointerJump(cycle: nat, stock: nat, delta: nat)
    | ReadPointerJump(cycle: nat, stock: nat, delta: nat)
    | NegativeOccupancy(cycle: nat, stock: nat, occupancy: int)

  /** How far a pointer has moved, as far as four bits can tell. */
  function Delta(pointer: nat, previous: nat): nat {
    (pointer - previous) % FIFO_DEPTH
  }

  function FifoStep(f: Fifo, cycle: nat, wrDelta: nat, rdDelta: nat): Fifo {
    var occupancy := f.occupancy + wrDelta - rdDelta;
    Fifo(occupancy,
         if f.maxOccupancy < occupancy then occupancy else f.maxOccupancy,
         if occupancy > FIFO_SAFE_OCCUPANCY then f.overflowCycles + [cycle] else f.overflowCycles)
  }

  function StepAnomalies(f: Fifo, cycle: nat, stock: nat, wrDelta: nat, rdDelta: nat): seq<Anomaly> {
    (if wrDelta > 1 then [WritePointerJump(cycle, stock, wrDelta)] else [])
    + (if rdDelta > 1 then [ReadPointerJump(cycle, stock, rdDelta)] else [])
    + (if f.occupancy + wrDelta - rdDelta < 0
       then [NegativeOccupancy(cycle, stock, f.occupancy + wrDelta - rdDelta)] else [])
  }

  datatype Pointers = Pointers(write: seq<nat>, read: seq<nat>)

  predicate PerStock(p: Pointers) {
    |p.write| == STOCKS && |p.read| == STOCKS
  }

  function StockStep(f: Fifo, cycle: nat, p: Pointers, previous: Pointers, stock: nat): Fifo
    requires PerStock(p) && PerStock(previous) && stock < STOCKS
  {
    FifoStep(f, cycle, Delta(p.write[stock], previous.write[stock]), Delta(p.read[stock], previous.read[stock]))
  }

  function StockAnomalies(f: Fifo, cycle: nat, p: Pointers, previous: Pointers, stock: nat): seq<Anomaly>
    requires PerStock(p) && PerStock(previous) && stock < STOCKS
  {
    StepAnomalies(f, cycle, stock,
                  Delta(p.write[stock], previous.write[stock]), Delta(p.read[stock], previous.read[stock]))
  }

  /** Everything the watch holds. */
  datatype Watch = Watch(previous: Option<Pointers>, fifos: seq<Fifo>, anomalies: seq<Anomaly>)
  {
    predicate Valid() {
      |fifos| == STOCKS && (previous.Some? ==> PerStock(previous.value))
    }
  }

  const UNWATCHED := Watch(None, [EMPTY_FIFO, EMPTY_FIFO, EMPTY_FIFO], [])

  /** One sample; the first one only sets the reference. */
  function Sampled(w: Watch, cycle: nat, p: Pointers): (w': Watch)
    requires w.Valid() && PerStock(p)
    ensures w'.Valid()
  {
    if w.previous == None then w.(previous := Some(p))
    else
      var was := w.previous.value;
      Watch(Some(p),
            [StockStep(w.fifos[0], cycle, p, was, 0), StockStep(w.fifos[1], cycle, p, was, 1),
             StockStep(w.fifos[2], cycle, p, was, 2)],
            w.anomalies + StockAnomalies(w.fifos[0], cycle, p, was, 0)
            + StockAnomalies(w.fifos[1], cycle, p, was, 1) + StockAnomalies(w.fifos[2], cycle, p, was, 2))
  }

  class FifoPointerWatch {
    var previous: Option<Pointers>
    var fifos: seq<Fifo>
    var anomalies: seq<Anomaly>

    function View(): Watch
      reads this
    {
      Watch(previous, fifos, anomalies)
    }

    constructor ()
      ensures View() == UNWATCHED
    {
      previous := None;
      fifos := [EMPTY_FIFO, EMPTY_FIFO, EMPTY_FIFO];
      anomalies := [];
    }

    method SampleFifoPointers(cycle: nat, pointers: Pointers)
      requires View().Valid() && PerStock(pointers)
      modifies this
      ensures View() == Sampled(old(View()), cycle, pointers)
    {
      if previous.None? {
        previous := Some(pointers);
        return;
      }
      var was := previous.value;
      SampleStock(cycle, pointers, was, 0);
      SampleStock(cycle, pointers, was, 1);
      SampleStock(cycle, pointers, was, 2);
      previous := Some(pointers);
      assert View().fifos == Sampled(old(View()), cycle, pointers).fifos;
    }

    method SampleStock(cycle: nat, pointers: Pointers, was: Pointers, s: nat)
      requires |fifos| == STOCKS && PerStock(pointers) && PerStock(was) && s < STOCKS
      modifies this`fifos, this`anomalies
      ensures fifos == old(fifos)[s := StockStep(old(fifos)[s], cycle, pointers, was, s)]
      ensures anomalies == old(anomalies) + StockAnomalies(old(fifos)[s], cycle, pointers, was, s)
    {
      var wrDelta := Delta(pointers.write[s], was.write[s]);
      var rdDelta := Delta(pointers.read[s], was.read[s]);
      if wrDelta != 0 && wrDelta != 1 {
        anomalies := anomalies + [WritePointerJump(cycle, s, wrDelta)];
      }
      if rdDelta != 0 && rdDelta != 1 {
        anomalies := anomalies + [ReadPointerJump(cycle, s, rdDelta)];
      }
      var f := fifos[s];
      var occupancy := f.occupancy + wrDelta - rdDelta;
      if occupancy < 0 {
        anomalies := anomalies + [NegativeOccupancy(cycle, s, occupancy)];
      }
      var overflowCycles := f.overflowCycles;
      if occupancy > FIFO_SAFE_OCCUPANCY {
        overflowCycles := overflowCycles + [cycle];
      }
      var maxOccupancy := if f.maxOccupancy < occupancy then occupancy else f.maxOccupancy;
      fifos := fifos[s := Fifo(occupancy, maxOccupancy, overflowCycles)];
    }
  }

  // ----- the hidden counters behind the pointers

  /** What the watch holds for one FIFO after sampling two hidden counters, one sample a cycle. */
  function Watched(pushes: seq<nat>, pops: seq<nat>): Fifo
    requires |pushes| == |pops|
  {
    var n := |pushes| - 1;
    if n <= 0 then EMPTY_FIFO
    else
      FifoStep(Watched(pushes[..n], pops[..n]), n,
               Delta(pushes[n] % FIFO_DEPTH, pushes[n - 1] % FIFO_DEPTH),
               Delta(pops[n] % FIFO_DEPTH, pops[n - 1] % FIFO_DEPTH))
  }

  function WatchedAnomalies(pushes: seq<nat>, pops: seq<nat>, stock: nat): seq<Anomaly>
    requires |pushes| == |pops|
  {
    var n := |pushes| - 1;
    if n <= 0 then []
    else
      WatchedAnomalies(pushes[..n], pops[..n], stock)
      + StepAnomalies(Watched(pushes[..n], pops[..n]), n, stock,
                      Delta(pushes[n] % FIFO_DEPTH, pushes[n - 1] % FIFO_DEPTH),
                      Delta(pops[n] % FIFO_DEPTH, pops[n - 1] % FIFO_DEPTH))
  }

  /** A counter that moves forward by at most so much between samples. */
  predicate Advances(counter: seq<nat>, most: nat) {
    forall k :: 0 < k < |counter| ==> counter[k - 1] <= counter[k] <= counter[k - 1] + most
  }

  /** Writes minus reads since the first sample. */
  function TrueOccupancy(pushes: seq<nat>, pops: seq<nat>, k: nat): int
    requires k < |pushes| && k < |pops|
  {
    pushes[k] as int - pushes[0] as int - (pops[k] as int - pops[0] as int)
  }

  /** How many times a counter has gone round between two samples. */
  function Laps(counter: seq<nat>, k: nat): int
    requires 0 < k < |counter|
  {
    (counter[k] as int - counter[k - 1] as int) / FIFO_DEPTH
  }

  /** Between any two samples both counters go round equally often. */
  predicate LapTogether(pushes: seq<nat>, pops: seq<nat>) {
    |pushes| == |pops| && forall k :: 0 < k < |pushes| ==> Laps(pushes, k) == Laps(pops, k)
  }

  /** The occupancy held after some sample is the true one. */
  ghost predicate TrueAfter(pushes: seq<nat>, pops: seq<nat>, k: nat)
    requires |pushes| == |pops| && k < |pushes|
  {
    Watched(pushes[..k + 1], pops[..k + 1]).occupancy == TrueOccupancy(pushes, pops, k)
  }

  ghost predicate AlwaysTrue(pushes: seq<nat>, pops: seq<nat>)
    requires |pushes| == |pops|
  {
    forall k :: 0 <= k < |pushes| ==> TrueAfter(pushes, pops, k)
  }

  lemma VisibleDelta(counter: seq<nat>, k: nat)
    requires 0 < k < |counter|
    ensures Delta(counter[k] % FIFO_DEPTH, counter[k - 1] % FIFO_DEPTH)
         == counter[k] as int - counter[k - 1] as int - FIFO_DEPTH * Laps(counter, k)
  {
  }

  /** Each sample adds to the error whatever the two counters went round apart. */
  lemma ErrorSnoc(pushes: seq<nat>, pops: seq<nat>)
    requires |pushes| == |pops| > 1
    ensures var n := |pushes| - 1;
      Watched(pushes, pops).occupancy - TrueOccupancy(pushes, pops, n)
      == Watched(pushes[..n], pops[..n]).occupancy - TrueOccupancy(pushes[..n], pops[..n], n - 1)
         - FIFO_DEPTH * (Laps(pushes, n) - Laps(pops, n))
  {
    hide Delta, Laps;
    VisibleDelta(pushes, |pushes| - 1);
    VisibleDelta(pops, |pops| - 1);
  }

  lemma LapSnoc(pushes: seq<nat>, pops: seq<nat>)
    requires |pushes| == |pops| > 1
    ensures var n := |pushes| - 1;
      LapTogether(pushes, pops) <==> LapTogether(pushes[..n], pops[..n]) && Laps(pushes, n) == Laps(pops, n)
  {
    var n := |pushes| - 1;
    assert forall k :: 0 < k < n ==> Laps(pushes[..n], k) == Laps(pushes, k) && Laps(pops[..n], k) == Laps(pops, k);
  }

  lemma TruePrefix(pushes: seq<nat>, pops: seq<nat>, k: nat)
    requires |pushes| == |pops| && k < |pushes| - 1
    ensures TrueAfter(pushes[..|pushes| - 1], pops[..|pops| - 1], k) <==> TrueAfter(pushes, pops, k)
  {
    hide Watched;
    var n := |pushes| - 1;
    assert pushes[..n][..k + 1] == pushes[..k + 1] && pops[..n][..k + 1] == pops[..k + 1];
  }

  lemma AlwaysTrueSnoc(pushes: seq<nat>, pops: seq<nat>)
    requires |pushes| == |pops| > 1
    ensures var n := |pushes| - 1;
      AlwaysTrue(pushes, pops) <==> AlwaysTrue(pushes[..n], pops[..n]) && TrueAfter(pushes, pops, n)
  {
    hide TrueAfter;
    var n := |pushes| - 1;
    forall k | 0 <= k < n ensures TrueAfter(pushes[..n], pops[..n], k) <==> TrueAfter(pushes, pops, k) {
      TruePrefix(pushes, pops, k);
    }
  }

  lemma TrueAfterLast(pushes: seq<nat>, pops: seq<nat>)
    requires |pushes| == |pops| > 0
    ensures TrueAfter(pushes, pops, |pushes| - 1)
       <==> Watched(pushes, pops).occupancy == TrueOccupancy(pushes, pops, |pushes| - 1)
  {
    hide Watched;
    assert pushes[..|pushes|] == pushes && pops[..|pops|] == pops;
  }

  /** Four bits suffice throughout if and only if the two counters always go round equally often. */
  lemma {:induction false} OccupancyExactly(pushes: seq<nat>, pops: seq<nat>)
    requires |pushes| == |pops| > 0
    ensures AlwaysTrue(pushes, pops) <==> LapTogether(pushes, pops)
    ensures LapTogether(pushes, pops) ==>
      Watched(pushes, pops).occupancy == TrueOccupancy(pushes, pops, |pushes| - 1)
  {
    var n := |pushes| - 1;
    TrueAfterLast(pushes, pops);
    if n > 0 {
      hide AlwaysTrue, TrueAfter, LapTogether, Laps, Watched, TrueOccupancy;
      OccupancyExactly(pushes[..n], pops[..n]);
      LapSnoc(pushes, pops);
      AlwaysTrueSnoc(pushes, pops);
      ErrorSnoc(pushes, pops);
    }
  }

  lemma AdvancesLapTogether(pushes: seq<nat>, pops: seq<nat>)
    requires |pushes| == |pops| && Advances(pushes, FIFO_DEPTH - 1) && Advances(pops, FIFO_DEPTH - 1)
    ensures LapTogether(pushes, pops)
  {
  }

  /** In particular, four bits suffice as long as no counter moves sixteen or more at once. */
  lemma OccupancyExact(pushes: seq<nat>, pops: seq<nat>)
    requires |pushes| == |pops| > 0
    requires Advances(pushes, FIFO_DEPTH - 1) && Advances(pops, FIFO_DEPTH - 1)
    ensures AlwaysTrue(pushes, pops)
    ensures Watched(pushes, pops).occupancy == TrueOccupancy(pushes, pops, |pushes| - 1)
  {
    hide Advances, AlwaysTrue, LapTogether, Watched;
    AdvancesLapTogether(pushes, pops);
    OccupancyExactly(pushes, pops);
  }

  /** One more sample, in terms of the hidden counters. */
  lemma WatchedSnoc(pushes: seq<nat>, pops: seq<nat>)
    requires |pushes| == |pops| > 1
    requires LapTogether(pushes, pops)
    ensures var n := |pushes| - 1;
      var before, occupancy := Watched(pushes[..n], pops[..n]), TrueOccupancy(pushes, pops, n);
      Watched(pushes, pops)
      == Fifo(occupancy, if before.maxOccupancy < occupancy then occupancy else before.maxOccupancy,
              before.overflowCycles + if occupancy > FIFO_SAFE_OCCUPANCY then [n] else [])
  {
    hide Delta, LapTogether, AlwaysTrue;
    OccupancyExactly(pushes, pops);
  }

  /** At a jump of sixteen it no longer does: the watch sees nothing at all. */
  lemma SixteenIsInvisible(counter: nat)
    ensures Delta((counter + FIFO_DEPTH) % FIFO_DEPTH, counter % FIFO_DEPTH) == 0
    ensures Watched([counter, counter + FIFO_DEPTH], [0, 0]) == EMPTY_FIFO
    ensures TrueOccupancy([counter, counter + FIFO_DEPTH], [0, 0], 1) == FIFO_DEPTH
  {
  }

  /** The greatest true occupancy so far. */
  function RunningMaximum(pushes: seq<nat>, pops: seq<nat>, k: nat): int
    requires k < |pushes| && k < |pops|
  {
    var here := TrueOccupancy(pushes, pops, k);
    if k == 0 then here
    else
      var before := RunningMaximum(pushes, pops, k - 1);
      if before < here then here else before
  }

  lemma {:induction false} RunningMaximumIsMaximum(pushes: seq<nat>, pops: seq<nat>, k: nat)
    requires k < |pushes| && k < |pops|
    ensures forall j :: 0 <= j <= k ==> TrueOccupancy(pushes, pops, j) <= RunningMaximum(pushes, pops, k)
    ensures exists j :: 0 <= j <= k && TrueOccupancy(pushes, pops, j) == RunningMaximum(pushes, pops, k)
  {
    hide TrueOccupancy;
    if k > 0 {
      RunningMaximumIsMaximum(pushes, pops, k - 1);
      var before := RunningMaximum(pushes, pops, k - 1);
      var j :| 0 <= j <= k - 1 && TrueOccupancy(pushes, pops, j) == before;
      assert TrueOccupancy(pushes, pops, if before < TrueOccupancy(pushes, pops, k) then k else j)
          == RunningMaximum(pushes, pops, k);
    } else {
      assert TrueOccupancy(pushes, pops, 0) == RunningMaximum(pushes, pops, 0);
    }
  }

  lemma {:induction false} RunningMaximumPrefix(pushes: seq<nat>, pops: seq<nat>, k: nat)
    requires |pushes| == |pops| && k < |pushes| - 1
    ensures RunningMaximum(pushes[..|pushes| - 1], pops[..|pops| - 1], k) == RunningMaximum(pushes, pops, k)
  {
    if k > 0 {
      RunningMaximumPrefix(pushes, pops, k - 1);
    }
  }

  /** The recorded maximum is the running maximum. */
  lemma {:induction false} MaximumExact(pushes: seq<nat>, pops: seq<nat>)
    requires |pushes| == |pops| > 0
    requires LapTogether(pushes, pops)
    ensures Watched(pushes, pops).maxOccupancy == RunningMaximum(pushes, pops, |pushes| - 1)
  {
    var n := |pushes| - 1;
    if n > 0 {
      hide Watched, TrueOccupancy, LapTogether;
      LapSnoc(pushes, pops);
      MaximumExact(pushes[..n], pops[..n]);
      WatchedSnoc(pushes, pops);
      RunningMaximumPrefix(pushes, pops, n - 1);
    }
  }

  /** A list of earlier cycles, with the latest one added or not. */
  lemma FlaggedSnoc(flagged: seq<nat>, n: nat, now: bool)
    requires forall k :: k in flagged ==> k < n
    requires forall j, k :: 0 <= j < k < |flagged| ==> flagged[j] < flagged[k]
    ensures var all := flagged + if now then [n] else [];
      && (forall k :: k in all <==> k in flagged || (now && k == n))
      && (forall j, k :: 0 <= j < k < |all| ==> all[j] < all[k])
  {
    assert forall k :: 0 <= k < |flagged| ==> flagged[k] in flagged;
  }

  /** Overflow is flagged in exactly the cycles that overflow, once each. */
  lemma {:induction false} OverflowExact(pushes: seq<nat>, pops: seq<nat>)
    requires |pushes| == |pops| > 0
    requires LapTogether(pushes, pops)
    ensures var flagged := Watched(pushes, pops).overflowCycles;
      && (forall k :: k in flagged <==> 0 <= k < |pushes| && TrueOccupancy(pushes, pops, k) > 15)
      && (forall j, k :: 0 <= j < k < |flagged| ==> flagged[j] < flagged[k])
  {
    var n := |pushes| - 1;
    if n == 0 {
      assert TrueOccupancy(pushes, pops, 0) == 0;
    } else {
      hide Watched, TrueOccupancy, LapTogether;
      var ws, rs := pushes[..n], pops[..n];
      LapSnoc(pushes, pops);
      OverflowExact(ws, rs);
      WatchedSnoc(pushes, pops);
      FlaggedSnoc(Watched(ws, rs).overflowCycles, n, TrueOccupancy(pushes, pops, n) > FIFO_SAFE_OCCUPANCY);
    }
  }

  // ----- anomalies

  /** How many rounds the writes have gone ahead of the reads without the watch seeing it. */
  function LapGap(pushes: seq<nat>, pops: seq<nat>, k: nat): int
    requires |pushes| == |pops| && k < |pushes|
  {
    if k == 0 then 0 else LapGap(pushes, pops, k - 1) + Laps(pushes, k) - Laps(pops, k)
  }

  lemma {:induction false} LapGapPrefix(pushes: seq<nat>, pops: seq<nat>, k: nat)
    requires |pushes| == |pops| && k < |pushes| - 1
    ensures LapGap(pushes[..|pushes| - 1], pops[..|pops| - 1], k) == LapGap(pushes, pops, k)
  {
    if k > 0 {
      LapGapPrefix(pushes, pops, k - 1);
    }
  }

  /** The occupancy held, for any counters whatever. */
  lemma {:induction false} OccupancyHeld(pushes: seq<nat>, pops: seq<nat>)
    requires |pushes| == |pops| > 0
    ensures var n := |pushes| - 1;
      Watched(pushes, pops).occupancy == TrueOccupancy(pushes, pops, n) - FIFO_DEPTH * LapGap(pushes, pops, n)
  {
    var n := |pushes| - 1;
    if n > 0 {
      hide Watched, Laps, TrueOccupancy;
      OccupancyHeld(pushes[..n], pops[..n]);
      LapGapPrefix(pushes, pops, n - 1);
      ErrorSnoc(pushes, pops);
    }
  }

  /** A step of zero or one, as far as four bits can tell. */
  predicate SmallStep(counter: seq<nat>, k: nat)
    requires 0 < k < |counter|
  {
    (counter[k] as int - counter[k - 1] as int) % FIFO_DEPTH <= 1
  }

  /** A sample the watch has nothing to say about. */
  predicate Unremarkable(pushes: seq<nat>, pops: seq<nat>, k: nat)
    requires |pushes| == |pops| && k < |pushes|
  {
    && (k > 0 ==> SmallStep(pushes, k) && SmallStep(pops, k))
    && TrueOccupancy(pushes, pops, k) >= FIFO_DEPTH * LapGap(pushes, pops, k)
  }

  lemma UnremarkablePrefix(pushes: seq<nat>, pops: seq<nat>, k: nat)
    requires |pushes| == |pops| && k < |pushes| - 1
    ensures Unremarkable(pushes[..|pushes| - 1], pops[..|pops| - 1], k) <==> Unremarkable(pushes, pops, k)
  {
    LapGapPrefix(pushes, pops, k);
  }

  lemma AnomaliesSnoc(pushes: seq<nat>, pops: seq<nat>, stock: nat)
    requires |pushes| == |pops| > 1
    ensures var n := |pushes| - 1;
      WatchedAnomalies(pushes, pops, stock) == []
      <==> WatchedAnomalies(pushes[..n], pops[..n], stock) == [] && Unremarkable(pushes, pops, n)
  {
    hide Delta, TrueOccupancy, LapGap;
    var n := |pushes| - 1;
    OccupancyHeld(pushes, pops);
    StepIsDelta(pushes, n);
    StepIsDelta(pops, n);
  }

  lemma StepIsDelta(counter: seq<nat>, k: nat)
    requires 0 < k < |counter|
    ensures SmallStep(counter, k) <==> Delta(counter[k] % FIFO_DEPTH, counter[k - 1] % FIFO_DEPTH) <= 1
  {
    VisibleDelta(counter, k);
  }

  /**
    For any counters no anomaly is reported if and only if every step is zero or one modulo sixteen and
    the true occupancy never falls below what the unseen rounds account for.
    */
  lemma {:induction false} AnomaliesExactly(pushes: seq<nat>, pops: seq<nat>, stock: nat)
    requires |pushes| == |pops| > 0
    ensures WatchedAnomalies(pushes, pops, stock) == []
       <==> forall k :: 0 <= k < |pushes| ==> Unremarkable(pushes, pops, k)
  {
    var n := |pushes| - 1;
    if n == 0 {
      assert Unremarkable(pushes, pops, 0);
    } else {
      hide WatchedAnomalies, Unremarkable;
      AnomaliesExactly(pushes[..n], pops[..n], stock);
      AnomaliesSnoc(pushes, pops, stock);
      forall k | 0 <= k < n ensures Unremarkable(pushes[..n], pops[..n], k) <==> Unremarkable(pushes, pops, k) {
        UnremarkablePrefix(pushes, pops, k);
      }
    }
  }

  /** Whether an anomaly is one the counters call for, with its cycle, its stock and its amount. */
  predicate Notes(a: Anomaly, pushes: seq<nat>, pops: seq<nat>, stock: nat)
    requires |pushes| == |pops|
  {
    && a.stock == stock && 0 < a.cycle < |pushes|
    && match a
       case WritePointerJump(k, _, delta) => delta == (pushes[k] as int - pushes[k - 1] as int) % 16 && delta > 1
       case ReadPointerJump(k, _, delta) => delta == (pops[k] as int - pops[k - 1] as int) % 16 && delta > 1
       case NegativeOccupancy(k, _, occupancy) =>
         occupancy == TrueOccupancy(pushes, pops, k) - 16 * LapGap(pushes, pops, k) && occupancy < 0
  }

  /** The anomalies reported are exactly those the counters call for. */
  lemma {:induction false} AnomaliesListed(pushes: seq<nat>, pops: seq<nat>, stock: nat)
    requires |pushes| == |pops| > 0
    ensures forall a :: a in WatchedAnomalies(pushes, pops, stock) <==> Notes(a, pushes, pops, stock)
  {
    var n := |pushes| - 1;
    if n > 0 {
      hide Notes, TrueOccupancy, LapGap, Delta;
      AnomaliesListed(pushes[..n], pops[..n], stock);
      forall a ensures a in WatchedAnomalies(pushes, pops, stock) <==> Notes(a, pushes, pops, stock) {
        EarlierNotes(a, pushes, pops, stock);
        LatestNotes(a, pushes, pops, stock);
      }
    } else {
      assert forall a :: !Notes(a, pushes, pops, stock);
    }
  }

  /** The order of the report: cycle by cycle, the write pointer before the read pointer before the occupancy. */
  predicate NotedBefore(a: Anomaly, b: Anomaly) {
    || a.cycle < b.cycle
    || (a.cycle == b.cycle && ((a.WritePointerJump? && !b.WritePointerJump?)
                               || (a.ReadPointerJump? && b.NegativeOccupancy?)))
  }

  predicate InReportOrder(noted: seq<Anomaly>) {
    forall i, j :: 0 <= i < j < |noted| ==> NotedBefore(noted[i], noted[j])
  }

  /** They are listed once each and in that order. */
  lemma {:induction false} AnomaliesOrdered(pushes: seq<nat>, pops: seq<nat>, stock: nat)
    requires |pushes| == |pops| > 0
    ensures InReportOrder(WatchedAnomalies(pushes, pops, stock))
  {
    var n := |pushes| - 1;
    if n > 0 {
      hide InReportOrder, StepAnomalies, Delta, TrueOccupancy;
      AnomaliesOrdered(pushes[..n], pops[..n], stock);
      AnomaliesListed(pushes[..n], pops[..n], stock);
      var earlier := WatchedAnomalies(pushes[..n], pops[..n], stock);
      forall i | 0 <= i < |earlier| ensures earlier[i].cycle < n {
        assert earlier[i] in earlier;
      }
      var wrDelta := Delta(pushes[n] % FIFO_DEPTH, pushes[n - 1] % FIFO_DEPTH);
      var rdDelta := Delta(pops[n] % FIFO_DEPTH, pops[n - 1] % FIFO_DEPTH);
      OrderedStep(earlier, Watched(pushes[..n], pops[..n]), n, stock, wrDelta, rdDelta);
    } else {
      assert WatchedAnomalies(pushes, pops, stock) == [];
    }
  }

  lemma OrderedStep(earlier: seq<Anomaly>, f: Fifo, cycle: nat, stock: nat, wrDelta: nat, rdDelta: nat)
    requires InReportOrder(earlier) && forall i :: 0 <= i < |earlier| ==> earlier[i].cycle < cycle
    ensures InReportOrder(earlier + StepAnomalies(f, cycle, stock, wrDelta, rdDelta))
  {
    var noted := StepAnomalies(f, cycle, stock, wrDelta, rdDelta);
    assert InReportOrder(noted) && forall i :: 0 <= i < |noted| ==> noted[i].cycle == cycle;
  }

  lemma EarlierNotes(a: Anomaly, pushes: seq<nat>, pops: seq<nat>, stock: nat)
    requires |pushes| == |pops| > 1
    ensures Notes(a, pushes[..|pushes| - 1], pops[..|pops| - 1], stock)
       <==> Notes(a, pushes, pops, stock) && a.cycle < |pushes| - 1
  {
    hide LapGap;
    if 0 < a.cycle < |pushes| - 1 {
      LapGapPrefix(pushes, pops, a.cycle);
    }
  }

  lemma LatestNotes(a: Anomaly, pushes: seq<nat>, pops: seq<nat>, stock: nat)
    requires |pushes| == |pops| > 1
    ensures var n := |pushes| - 1;
      a in StepAnomalies(Watched(pushes[..n], pops[..n]), n, stock,
                         Delta(pushes[n] % FIFO_DEPTH, pushes[n - 1] % FIFO_DEPTH),
                         Delta(pops[n] % FIFO_DEPTH, pops[n - 1] % FIFO_DEPTH))
      <==> Notes(a, pushes, pops, stock) && a.cycle == n
  {
    hide LapGap, TrueOccupancy;
    var n := |pushes| - 1;
    OccupancyHeld(pushes, pops);
    VisibleDelta(pushes, n);
    VisibleDelta(pops, n);
  }

  lemma {:induction false} NoLapGap(pushes: seq<nat>, pops: seq<nat>, k: nat)
    requires LapTogether(pushes, pops) && k < |pushes|
    ensures LapGap(pushes, pops, k) == 0
  {
    hide Laps;
    if k > 0 {
      NoLapGap(pushes, pops, k - 1);
    }
  }

  /** While the counters go round equally often: small steps, and reads never overtake writes. */
  lemma AnomaliesTogether(pushes: seq<nat>, pops: seq<nat>, stock: nat)
    requires |pushes| == |pops| > 0 && LapTogether(pushes, pops)
    ensures WatchedAnomalies(pushes, pops, stock) == [] <==>
      && (forall k :: 0 < k < |pushes| ==> SmallStep(pushes, k) && SmallStep(pops, k))
      && (forall k :: 0 <= k < |pushes| ==> TrueOccupancy(pushes, pops, k) >= 0)
  {
    hide WatchedAnomalies, LapTogether, SmallStep, TrueOccupancy, LapGap;
    AnomaliesExactly(pushes, pops, stock);
    forall k | 0 <= k < |pushes|
      ensures Unremarkable(pushes, pops, k) <==>
        && (k > 0 ==> SmallStep(pushes, k) && SmallStep(pops, k)) && TrueOccupancy(pushes, pops, k) >= 0
    {
      NoLapGap(pushes, pops, k);
    }
  }

  /** While no counter moves sixteen or more at once: both move by at most one, and reads never overtake writes. */
  lemma AnomaliesExact(pushes: seq<nat>, pops: seq<nat>, stock: nat)
    requires |pushes| == |pops| > 0
    requires Advances(pushes, FIFO_DEPTH - 1) && Advances(pops, FIFO_DEPTH - 1)
    ensures WatchedAnomalies(pushes, pops, stock) == [] <==>
      && Advances(pushes, 1) && Advances(pops, 1)
      && forall k :: 0 <= k < |pushes| ==> TrueOccupancy(pushes, pops, k) >= 0
  {
    hide WatchedAnomalies, TrueOccupancy;
    AdvancesLapTogether(pushes, pops);
    AnomaliesTogether(pushes, pops, stock);
    SmallAdvances(pushes);
    SmallAdvances(pops);
  }

  lemma SmallAdvances(counter: seq<nat>)
    requires Advances(counter, FIFO_DEPTH - 1)
    ensures Advances(counter, 1) <==> forall k :: 0 < k < |counter| ==> SmallStep(counter, k)
  {
    if forall k :: 0 < k < |counter| ==> SmallStep(counter, k) {
      forall k | 0 < k < |counter| ensures counter[k - 1] <= counter[k] <= counter[k - 1] + 1 {
        assert SmallStep(counter, k) && counter[k - 1] <= counter[k] <= counter[k - 1] + (FIFO_DEPTH - 1);
      }
    }
  }

  /** An input: both counters jump a whole round, and the watch reports nothing. */
  lemma JointJumpIsInvisible(stock: nat)
    ensures WatchedAnomalies([0, FIFO_DEPTH], [0, FIFO_DEPTH], stock) == []
    ensures !Advances([0, FIFO_DEPTH], 1)
  {
    assert [0, FIFO_DEPTH][..1] == [0];
    assert [0, FIFO_DEPTH][1] == FIFO_DEPTH;
  }

  // ----- the watch over a whole run

  predicate AllPerStock(samples: seq<seq<nat>>) {
    forall k :: 0 <= k < |samples| ==> |samples[k]| == STOCKS
  }

  /** One FIFO's hidden counter, sample by sample. */
  function Column(samples: seq<seq<nat>>, stock: nat): (counter: seq<nat>)
    requires AllPerStock(samples) && stock < STOCKS
    ensures |counter| == |samples|
  {
    seq(|samples|, k requires 0 <= k < |samples| => samples[k][stock])
  }

  /** Four-bit views of three counters. */
  function Visible(counters: seq<nat>): seq<nat> {
    seq(|counters|, s requires 0 <= s < |counters| => counters[s] % FIFO_DEPTH)
  }

  function VisiblePointers(pushes: seq<seq<nat>>, pops: seq<seq<nat>>, k: nat): (p: Pointers)
    requires k < |pushes| && k < |pops| && AllPerStock(pushes) && AllPerStock(pops)
    ensures PerStock(p)
  {
    Pointers(Visible(pushes[k]), Visible(pops[k]))
  }

  lemma ColumnPrefix(samples: seq<seq<nat>>, n: nat, s: nat)
    requires n < |samples| && AllPerStock(samples) && s < STOCKS
    ensures var longer := Column(samples[..n + 1], s);
      && longer[..n] == Column(samples[..n], s) && longer[n] == samples[n][s]
      && (n > 0 ==> longer[n - 1] == samples[n - 1][s])
  {
  }

  /** One more sample of one stock's counters is one step on the visible pointers. */
  lemma WatchedColumn(pushes: seq<seq<nat>>, pops: seq<seq<nat>>, n: nat, s: nat)
    requires n < |pushes| == |pops| && AllPerStock(pushes) && AllPerStock(pops) && s < STOCKS
    ensures WatchedAnomalies(Column(pushes[..n + 1], s), Column(pops[..n + 1], s), s)
         == if n == 0 then []
            else WatchedAnomalies(Column(pushes[..n], s), Column(pops[..n], s), s)
                 + StockAnomalies(Watched(Column(pushes[..n], s), Column(pops[..n], s)), n,
                                  VisiblePointers(pushes, pops, n), VisiblePointers(pushes, pops, n - 1), s)
    ensures Watched(Column(pushes[..n + 1], s), Column(pops[..n + 1], s))
         == if n == 0 then EMPTY_FIFO
            else StockStep(Watched(Column(pushes[..n], s), Column(pops[..n], s)), n,
                           VisiblePointers(pushes, pops, n), VisiblePointers(pushes, pops, n - 1), s)
  {
    hide Delta, FifoStep, StepAnomalies, Column;
    ColumnPrefix(pushes, n, s);
    ColumnPrefix(pops, n, s);
  }

  /** What the watch should hold after the samples: three FIFOs, and an anomaly only where one stock has one. */
  ghost predicate Holds(fifos: seq<Fifo>, anomalies: seq<Anomaly>, pushes: seq<seq<nat>>, pops: seq<seq<nat>>)
    requires |fifos| == STOCKS && |pushes| == |pops| && AllPerStock(pushes) && AllPerStock(pops)
  {
    && (forall s :: 0 <= s < STOCKS ==> fifos[s] == Watched(Column(pushes, s), Column(pops, s)))
    && (anomalies == [] <==>
        forall s :: 0 <= s < STOCKS ==> WatchedAnomalies(Column(pushes, s), Column(pops, s), s) == [])
  }

  lemma HoldsAtFirst(pushes: seq<seq<nat>>, pops: seq<seq<nat>>)
    requires |pushes| == |pops| <= 1 && AllPerStock(pushes) && AllPerStock(pops)
    ensures Holds([EMPTY_FIFO, EMPTY_FIFO, EMPTY_FIFO], [], pushes, pops)
  {
  }

  /** WatchedColumn for the FIFO the watch holds for a stock. */
  lemma ColumnNext(f: Fifo, pushes: seq<seq<nat>>, pops: seq<seq<nat>>, n: nat, s: nat)
    requires 0 < n < |pushes| == |pops| && AllPerStock(pushes) && AllPerStock(pops) && s < STOCKS
    requires f == Watched(Column(pushes[..n], s), Column(pops[..n], s))
    ensures var here, there := VisiblePointers(pushes, pops, n), VisiblePointers(pushes, pops, n - 1);
      && Watched(Column(pushes[..n + 1], s), Column(pops[..n + 1], s)) == StockStep(f, n, here, there, s)
      && (WatchedAnomalies(Column(pushes[..n + 1], s), Column(pops[..n + 1], s), s) == []
          <==> WatchedAnomalies(Column(pushes[..n], s), Column(pops[..n], s), s) == []
               && StockAnomalies(f, n, here, there, s) == [])
  {
    hide *;
    WatchedColumn(pushes, pops, n, s);
  }

  lemma HoldsNext(w: Watch, pushes: seq<seq<nat>>, pops: seq<seq<nat>>, n: nat)
    requires 0 < n < |pushes| == |pops| && AllPerStock(pushes) && AllPerStock(pops)
    requires w.Valid() && w.previous == Some(VisiblePointers(pushes, pops, n - 1))
    requires Holds(w.fifos, w.anomalies, pushes[..n], pops[..n])
    ensures var w' := Sampled(w, n, VisiblePointers(pushes, pops, n));
      Holds(w'.fifos, w'.anomalies, pushes[..n + 1], pops[..n + 1])
  {
    hide Delta, FifoStep, Watched, WatchedAnomalies, Column, StockStep, StockAnomalies, VisiblePointers;
    hide AllPerStock, PerStock;
    ColumnNext(w.fifos[0], pushes, pops, n, 0);
    ColumnNext(w.fifos[1], pushes, pops, n, 1);
    ColumnNext(w.fifos[2], pushes, pops, n, 2);
  }

  /**
    A watch that samples the visible pointers once a cycle holds what the hidden counters imply, and
    has reported an anomaly only if one of the three stocks calls for one.
    */
  method WatchRun(pushes: seq<seq<nat>>, pops: seq<seq<nat>>) returns (watch: FifoPointerWatch)
    requires |pushes| == |pops| && AllPerStock(pushes) && AllPerStock(pops)
    ensures fresh(watch) && watch.View().Valid()
    ensures Holds(watch.fifos, watch.anomalies, pushes, pops)
  {
    hide Delta, FifoStep, Watched, WatchedAnomalies, Column, StockStep, StockAnomalies, Holds, Sampled, VisiblePointers;
    watch := new FifoPointerWatch();
    HoldsAtFirst(pushes[..0], pops[..0]);
    for n := 0 to |pushes|
      invariant fresh(watch) && watch.View().Valid()
      invariant n == 0 ==> watch.View() == UNWATCHED
      invariant n > 0 ==> watch.previous == Some(VisiblePointers(pushes, pops, n - 1))
      invariant Holds(watch.fifos, watch.anomalies, pushes[..n], pops[..n])
    {
      if n == 0 {
        HoldsAtFirst(pushes[..1], pops[..1]);
      } else {
        HoldsNext(watch.View(), pushes, pops, n);
      }
      SampledPrevious(watch.View(), n, VisiblePointers(pushes, pops, n));
      watch.SampleFifoPointers(n, VisiblePointers(pushes, pops, n));
    }
    assert pushes[..|pushes|] == pushes && pops[..|pops|] == pops;
  }

  lemma SampledPrevious(w: Watch, cycle: nat, p: Pointers)
    requires w.Valid() && PerStock(p)
    ensures Sampled(w, cycle, p).previous == Some(p)
    ensures w.previous == None ==> Sampled(w, cycle, p) == w.(previous := Some(p))
  {
  }
}
