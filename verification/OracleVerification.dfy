/** The demo's verifier: every observed BBO is compared with its stock's expected stream. */
module OracleVerification {
  import opened Wrappers
  import opened GreedyAlignment
  import Contracts

  datatype Entry = Entry(bidPrice: Option<int>, bidSize: Option<int>, askPrice: Option<int>, askSize: Option<int>)

  /** A side without shares has no quote. */
  function NormaliseHwBbo(bidPrice: int, bidSize: int, askPrice: int, askSize: int): Entry {
    var bidValid := if bidSize != 0 then Some(bidPrice) else None;
    var askValid := if askSize != 0 then Some(askPrice) else None;
    Entry(bidValid, if bidValid.Some? then Some(bidSize) else None,
          askValid, if askValid.Some? then Some(askSize) else None)
  }

  /** A golden quote as the stream entry it is compared with, and as the RTL drives it: an empty side is all zero. */
  function EntryOf(b: Contracts.Bbo): Entry {
    Entry(if b.bid.Some? then Some(b.bid.value.price) else None, if b.bid.Some? then Some(b.bid.value.size) else None,
          if b.ask.Some? then Some(b.ask.value.price) else None, if b.ask.Some? then Some(b.ask.value.size) else None)
  }

  function DrivenPrice(quote: Option<Contracts.Quote>): int {
    if quote.Some? then quote.value.price else 0
  }

  function DrivenSize(quote: Option<Contracts.Quote>): int {
    if quote.Some? then quote.value.size else 0
  }

  /** A golden BBO survives being driven and normalised exactly if neither side is quoted with no shares. */
  lemma NormalisedExactly(b: Contracts.Bbo)
    ensures NormaliseHwBbo(DrivenPrice(b.bid), DrivenSize(b.bid), DrivenPrice(b.ask), DrivenSize(b.ask)) == EntryOf(b)
       <==> (b.bid.Some? ==> b.bid.value.size != 0) && (b.ask.Some? ==> b.ask.value.size != 0)
  {
  }

  /** A stock symbol as hardware reports it; only the first three are on show. */
  datatype Ticker = AAPL | MSFT | NFLX | Other(name: string)

  predicate IsSymbol(symbol: Ticker) {
    !symbol.Other?
  }

  datatype Reason =
    | MissingUpdates(resynchronisedTo: nat)
    | ExtraUpdate
    | UnexpectedState
    | SourceMessageCount
    | WorkloadHash
    | MissingAtEnd

  /** The first failure; summary failures concern no single stock. */
  datatype Failure = Failure(reason: Reason, symbol: Ticker, bboIndex: nat, expectedIndex: nat)

  type Streams = map<Ticker, seq<Entry>>

  predicate HasSymbols<V>(m: map<Ticker, V>) {
    AAPL in m && MSFT in m && NFLX in m
  }

  datatype Observation = Observation(symbol: Ticker, actual: Entry)

  /** What one stock's hardware emitted. */
  function Projection(history: seq<Observation>, symbol: Ticker): seq<Entry> {
    if history == [] then []
    else
      var before := Projection(history[..|history| - 1], symbol);
      var last := history[|history| - 1];
      if last.symbol == symbol then before + [last.actual] else before
  }

  predicate AllKnown(history: seq<Observation>) {
    forall o :: o in history ==> IsSymbol(o.symbol)
  }

  ghost function StockComparison(expected: Streams, history: seq<Observation>, symbol: Ticker): Comparison
    requires symbol in expected
  {
    Compare(expected[symbol], Projection(history, symbol))
  }

  /** The failure an observation reports, if it reports one. */
  ghost function FailureAt(expected: seq<Entry>, symbol: Ticker, c: Comparison, observedIndex: nat, actual: Entry)
    : Option<Failure>
  {
    if c.position < |expected| && expected[c.position] == actual then None
    else match Seek(expected, c.position + 1, actual)
      case Some(index) => Some(Failure(MissingUpdates(index), symbol, observedIndex, c.position))
      case None =>
        var reason := if c.position >= |expected| then ExtraUpdate else UnexpectedState;
        Some(Failure(reason, symbol, observedIndex, c.position))
  }

  /** The first failure of a history. */
  ghost function FirstFailure(expected: Streams, history: seq<Observation>): Option<Failure>
    requires HasSymbols(expected) && AllKnown(history)
  {
    if history == [] then None
    else
      var earlier, last := history[..|history| - 1], history[|history| - 1];
      var before := FirstFailure(expected, earlier);
      if before.Some? then before
      else
        assert last in history;
        FailureAt(expected[last.symbol], last.symbol, StockComparison(expected, earlier, last.symbol),
                  |Projection(earlier, last.symbol)|, last.actual)
  }

  ghost function TotalMismatches(expected: Streams, history: seq<Observation>): nat
    requires HasSymbols(expected)
  {
    StockComparison(expected, history, AAPL).mismatches
    + StockComparison(expected, history, MSFT).mismatches
    + StockComparison(expected, history, NFLX).mismatches
  }

  /** The counters are what comparing each stock's own stream, on its own, comes to. */
  ghost predicate Counted(expected: Streams, history: seq<Observation>, positions: map<Ticker, nat>,
                          observedPositions: map<Ticker, nat>, mismatches: nat, firstMismatch: Option<Failure>)
    requires HasSymbols(expected) && HasSymbols(positions) && HasSymbols(observedPositions)
  {
    && AllKnown(history)
    && (forall symbol :: IsSymbol(symbol) ==>
         && positions[symbol] == StockComparison(expected, history, symbol).position
         && observedPositions[symbol] == |Projection(history, symbol)|)
    && mismatches == TotalMismatches(expected, history)
    && firstMismatch == FirstFailure(expected, history)
  }

  class OracleVerifier {
    const expected: Streams
    const sourceMessageLimit: int
    const workloadHash: string

    var positions: map<Ticker, nat>
    var observedPositions: map<Ticker, nat>
    var comparisons: nat
    var mismatches: nat
    var latchedFail: bool
    var firstMismatch: Option<Failure>

    /** Every observation so far. */
    ghost var history: seq<Observation>

    ghost predicate Valid()
      reads this
    {
      && HasSymbols(expected) && HasSymbols(positions) && HasSymbols(observedPositions)
      && Counted(expected, history, positions, observedPositions, mismatches, firstMismatch)
      && comparisons == |history|
      && (latchedFail <==> mismatches > 0)
    }

    constructor (expected: Streams, sourceMessageLimit: int, workloadHash: string)
      requires HasSymbols(expected)
      ensures Valid() && history == []
      ensures this.expected == expected
      ensures this.sourceMessageLimit == sourceMessageLimit && this.workloadHash == workloadHash
    {
      this.expected := expected;
      this.sourceMessageLimit, this.workloadHash := sourceMessageLimit, workloadHash;
      positions := map[AAPL := 0, MSFT := 0, NFLX := 0];
      observedPositions := map[AAPL := 0, MSFT := 0, NFLX := 0];
      comparisons, mismatches, latchedFail, firstMismatch := 0, 0, false, None;
      history := [];
    }

    /** Compares one observation; the result says whether it matched, or nothing for an unknown symbol. */
    method Observe(symbol: Ticker, bidPrice: int, bidSize: int, askPrice: int, askSize: int)
      returns (matched: Option<bool>)
      requires Valid()
      modifies this
      ensures Valid()
      ensures !IsSymbol(symbol) ==> matched == None && history == old(history)
      ensures IsSymbol(symbol) ==>
        var actual := NormaliseHwBbo(bidPrice, bidSize, askPrice, askSize);
        && history == old(history) + [Observation(symbol, actual)]
        && var position := old(positions)[symbol];
           matched == Some(position < |expected[symbol]| && expected[symbol][position] == actual)
    {
      hide Counted, FailureAt, GreedyAlignment.Observe;
      if !IsSymbol(symbol) {
        return None;
      }
      var actual := NormaliseHwBbo(bidPrice, bidSize, askPrice, askSize);
      ghost var o := Observation(symbol, actual);
      CountedGrows(expected, history, positions, observedPositions, mismatches, firstMismatch, o);

      var observedIndex := observedPositions[symbol];
      observedPositions := observedPositions[symbol := observedIndex + 1];
      comparisons := comparisons + 1;
      var hit := Resynchronise(symbol, observedIndex, actual);
      history := history + [o];
      matched := Some(hit);
    }

    /** Moves one stock's position past an observation and counts what it skipped or could not place. */
    method Resynchronise(symbol: Ticker, observedIndex: nat, actual: Entry) returns (hit: bool)
      requires symbol in expected && symbol in positions
      modifies this`positions, this`mismatches, this`latchedFail, this`firstMismatch
      ensures var c := Comparison(old(positions)[symbol], 0, []);
        var c' := GreedyAlignment.Observe(expected[symbol], c, observedIndex, actual);
        && positions == old(positions)[symbol := c'.position]
        && mismatches == old(mismatches) + c'.mismatches
        && (latchedFail <==> old(latchedFail) || c'.mismatches > 0)
        && firstMismatch == (if old(firstMismatch).Some? then old(firstMismatch)
                             else FailureAt(expected[symbol], symbol, c, observedIndex, actual))
        && hit == (c.position < |expected[symbol]| && expected[symbol][c.position] == actual)
    {
      var position, stream := positions[symbol], expected[symbol];
      hit := position < |stream| && stream[position] == actual;
      if hit {
        positions := positions[symbol := position + 1];
        return;
      }
      var resynchronisedTo: Option<nat> := None;
      if position < |stream| {
        resynchronisedTo := FindForward(stream, position + 1, actual);
      }
      latchedFail := true;
      if resynchronisedTo.Some? {
        mismatches := mismatches + (resynchronisedTo.value - position);
        if firstMismatch.None? {
          firstMismatch := Some(Failure(MissingUpdates(resynchronisedTo.value), symbol, observedIndex, position));
        }
        positions := positions[symbol := resynchronisedTo.value + 1];
      } else {
        mismatches := mismatches + 1;
        if firstMismatch.None? {
          var reason := if position >= |stream| then ExtraUpdate else UnexpectedState;
          firstMismatch := Some(Failure(reason, symbol, observedIndex, position));
        }
        assert positions == positions[symbol := position];
      }
    }

    /** Adds a failure that belongs to the run as a whole. */
    method LatchSummaryFailure(reason: Reason, increment: nat)
      modifies this`mismatches, this`latchedFail, this`firstMismatch
      ensures mismatches == old(mismatches) + increment && latchedFail
      ensures firstMismatch
           == if old(firstMismatch).Some? then old(firstMismatch) else Some(Failure(reason, Other(""), 0, 0))
    {
      mismatches := mismatches + increment;
      latchedFail := true;
      if firstMismatch.None? {
        firstMismatch := Some(Failure(reason, Other(""), 0, 0));
      }
    }

    /** Closes the comparison: the message count, the workload hash, and whatever was never observed. */
    method Finalise(sourceMessages: int, hash: string)
      requires Valid()
      modifies this
      ensures history == old(history)
      ensures mismatches
           == FinalTotal(expected, history)
              + (if sourceMessages != sourceMessageLimit then 1 else 0)
              + (if hash != workloadHash then 1 else 0)
      ensures latchedFail <==> mismatches > 0
      ensures firstMismatch.Some? <==> latchedFail
      ensures old(firstMismatch).Some? ==> firstMismatch == old(firstMismatch)
      ensures old(firstMismatch).None? && firstMismatch.Some? ==>
        firstMismatch.value.symbol == Other("") && firstMismatch.value.reason
          == if sourceMessages != sourceMessageLimit then SourceMessageCount
             else if hash != workloadHash then WorkloadHash else MissingAtEnd
      ensures old(firstMismatch).None? ==>
        (firstMismatch.Some? <==>
          || sourceMessages != sourceMessageLimit || hash != workloadHash
          || |Projection(history, AAPL)| < |expected[AAPL]|
          || |Projection(history, MSFT)| < |expected[MSFT]|
          || |Projection(history, NFLX)| < |expected[NFLX]|)
      ensures !latchedFail <==>
        && (forall symbol :: IsSymbol(symbol) ==> Projection(history, symbol) == expected[symbol])
        && sourceMessages == sourceMessageLimit && hash == workloadHash
      ensures positions == old(positions) && observedPositions == old(observedPositions)
      ensures comparisons == old(comparisons)
    {
      hide Projection, Compare, FirstFailure, StockComparison, TotalMismatches, FinalTotal, AllKnown;
      FinalTotalSplits(expected, history);
      FailureIffMismatch(expected, history);
      PassMeansEqual(expected, history);
      if firstMismatch.None? {
        UnfailedIsPrefix(expected, history);
      }
      if sourceMessages != sourceMessageLimit {
        LatchSummaryFailure(SourceMessageCount, 1);
      }
      if hash != workloadHash {
        LatchSummaryFailure(WorkloadHash, 1);
      }
      var missing := Remaining(|expected[AAPL]|, positions[AAPL])
        + Remaining(|expected[MSFT]|, positions[MSFT])
        + Remaining(|expected[NFLX]|, positions[NFLX]);
      if missing > 0 {
        LatchSummaryFailure(MissingAtEnd, missing);
      }
    }
  }

  function Remaining(length: nat, position: nat): nat {
    if position < length then length - position else 0
  }

  /** What the three stocks' comparisons come to once what was never observed is counted. */
  ghost function FinalTotal(expected: Streams, history: seq<Observation>): nat
    requires HasSymbols(expected)
  {
    FinalMismatches(expected[AAPL], Projection(history, AAPL))
    + FinalMismatches(expected[MSFT], Projection(history, MSFT))
    + FinalMismatches(expected[NFLX], Projection(history, NFLX))
  }

  lemma FinalTotalSplits(expected: Streams, history: seq<Observation>)
    requires HasSymbols(expected)
    ensures FinalTotal(expected, history)
         == TotalMismatches(expected, history)
            + Remaining(|expected[AAPL]|, StockComparison(expected, history, AAPL).position)
            + Remaining(|expected[MSFT]|, StockComparison(expected, history, MSFT).position)
            + Remaining(|expected[NFLX]|, StockComparison(expected, history, NFLX).position)
  {
  }

  /** What an observation adds depends on the current position alone. */
  lemma ObserveFrom(stream: seq<Entry>, c: Comparison, observedIndex: nat, actual: Entry)
    ensures var here := GreedyAlignment.Observe(stream, Comparison(c.position, 0, []), observedIndex, actual);
      var there := GreedyAlignment.Observe(stream, c, observedIndex, actual);
      && there.position == here.position && there.mismatches == c.mismatches + here.mismatches
    ensures forall symbol ::
      (FailureAt(stream, symbol, c, observedIndex, actual)
       == FailureAt(stream, symbol, Comparison(c.position, 0, []), observedIndex, actual))
  {
  }

  /** The forward search. */
  method FindForward(stream: seq<Entry>, from: nat, actual: Entry) returns (index: Option<nat>)
    requires from <= |stream|
    ensures index == Seek(stream, from, actual)
  {
    for i := from to |stream|
      invariant Seek(stream, from, actual) == Seek(stream, i, actual)
    {
      if stream[i] == actual {
        return Some(i);
      }
    }
    index := None;
  }

  /** One more observation moves its own stock's comparison and leaves the others alone. */
  lemma HistoryGrows(expected: Streams, history: seq<Observation>, o: Observation)
    requires HasSymbols(expected) && IsSymbol(o.symbol) && AllKnown(history)
    ensures AllKnown(history + [o])
    ensures Projection(history + [o], o.symbol) == Projection(history, o.symbol) + [o.actual]
    ensures forall symbol :: symbol != o.symbol ==> Projection(history + [o], symbol) == Projection(history, symbol)
    ensures forall symbol :: symbol in expected && symbol != o.symbol ==>
      StockComparison(expected, history + [o], symbol) == StockComparison(expected, history, symbol)
    ensures StockComparison(expected, history + [o], o.symbol)
         == GreedyAlignment.Observe(expected[o.symbol], StockComparison(expected, history, o.symbol),
                                    |Projection(history, o.symbol)|, o.actual)
  {
  }

  lemma TotalGrows(expected: Streams, history: seq<Observation>, o: Observation)
    requires HasSymbols(expected) && IsSymbol(o.symbol) && AllKnown(history)
    ensures TotalMismatches(expected, history + [o]) - StockComparison(expected, history + [o], o.symbol).mismatches
         == TotalMismatches(expected, history) - StockComparison(expected, history, o.symbol).mismatches
  {
  }

  lemma FailureGrows(expected: Streams, history: seq<Observation>, o: Observation)
    requires HasSymbols(expected) && IsSymbol(o.symbol) && AllKnown(history)
    ensures AllKnown(history + [o])
    ensures FirstFailure(expected, history + [o])
         == if FirstFailure(expected, history).Some? then FirstFailure(expected, history)
            else FailureAt(expected[o.symbol], o.symbol, StockComparison(expected, history, o.symbol),
                           |Projection(history, o.symbol)|, o.actual)
  {
  }

  /** The counters after one more observation depend on the counters before it, not on the history. */
  lemma CountedGrows(expected: Streams, history: seq<Observation>, positions: map<Ticker, nat>,
                     observedPositions: map<Ticker, nat>, mismatches: nat, firstMismatch: Option<Failure>,
                     o: Observation)
    requires HasSymbols(expected) && HasSymbols(positions) && HasSymbols(observedPositions) && IsSymbol(o.symbol)
    requires Counted(expected, history, positions, observedPositions, mismatches, firstMismatch)
    ensures var c := Comparison(positions[o.symbol], 0, []);
      var c' := GreedyAlignment.Observe(expected[o.symbol], c, observedPositions[o.symbol], o.actual);
      Counted(expected, history + [o], positions[o.symbol := c'.position],
              observedPositions[o.symbol := observedPositions[o.symbol] + 1], mismatches + c'.mismatches,
              if firstMismatch.Some? then firstMismatch
              else FailureAt(expected[o.symbol], o.symbol, c, observedPositions[o.symbol], o.actual))
  {
    hide Projection, StockComparison, TotalMismatches, AllKnown, FailureAt, FirstFailure;
    hide GreedyAlignment.Observe;
    HistoryGrows(expected, history, o);
    TotalGrows(expected, history, o);
    FailureGrows(expected, history, o);
    ObserveFrom(expected[o.symbol], StockComparison(expected, history, o.symbol),
                |Projection(history, o.symbol)|, o.actual);
  }

  /** A failure is on record exactly when something has been counted. */
  lemma {:induction false} FailureIffMismatch(expected: Streams, history: seq<Observation>)
    requires HasSymbols(expected) && AllKnown(history)
    ensures FirstFailure(expected, history).Some? <==> TotalMismatches(expected, history) > 0
  {
    hide Projection, Compare, FirstFailure;
    if history == [] {
      NoFailureYet(expected);
    } else {
      var earlier, last := history[..|history| - 1], history[|history| - 1];
      assert last in history && history == earlier + [last];
      FailureIffMismatch(expected, earlier);
      HistoryGrows(expected, earlier, last);
      TotalGrows(expected, earlier, last);
      FailureGrows(expected, earlier, last);
    }
  }

  lemma NoFailureYet(expected: Streams)
    requires HasSymbols(expected)
    ensures FirstFailure(expected, []) == None && TotalMismatches(expected, []) == 0
  {
  }

  /** Without a failure every stock has shown a prefix of its stream and stands at its end. */
  lemma UnfailedIsPrefix(expected: Streams, history: seq<Observation>)
    requires HasSymbols(expected) && AllKnown(history) && FirstFailure(expected, history) == None
    ensures forall symbol :: IsSymbol(symbol) ==>
      && Projection(history, symbol) <= expected[symbol]
      && StockComparison(expected, history, symbol).position == |Projection(history, symbol)|
  {
    hide Projection, Compare, FirstFailure, AllKnown;
    FailureIffMismatch(expected, history);
    CleanMeansPrefix(expected[AAPL], Projection(history, AAPL));
    CleanMeansPrefix(expected[MSFT], Projection(history, MSFT));
    CleanMeansPrefix(expected[NFLX], Projection(history, NFLX));
    assert forall symbol :: IsSymbol(symbol) ==> symbol == AAPL || symbol == MSFT || symbol == NFLX;
  }

  // ----- the first failure

  /** How many updates a stock has shown before some observation. */
  function SeenBefore(history: seq<Observation>, k: nat): nat
    requires k < |history|
  {
    |Projection(history[..k], history[k].symbol)|
  }

  /** An observation is the entry its stock was to show next. */
  predicate InPlace(expected: Streams, history: seq<Observation>, k: nat)
    requires HasSymbols(expected) && AllKnown(history) && k < |history|
  {
    assert history[k] in history;
    var stream, n := expected[history[k].symbol], SeenBefore(history, k);
    n < |stream| && stream[n] == history[k].actual
  }

  /** The failure reported for an observation out of place when everything before it was in place. */
  ghost predicate Explains(f: Failure, expected: Streams, history: seq<Observation>, k: nat)
    requires HasSymbols(expected) && AllKnown(history) && k < |history|
  {
    assert history[k] in history;
    var o, n := history[k], SeenBefore(history, k);
    var stream := expected[o.symbol];
    && f.symbol == o.symbol && f.bboIndex == n && f.expectedIndex == n
    && match f.reason
       case ExtraUpdate => n >= |stream|
       case UnexpectedState => n < |stream| && forall i :: n < i < |stream| ==> stream[i] != o.actual
       case MissingUpdates(next) =>
         && n < next < |stream| && stream[next] == o.actual
         && forall i :: n < i < next ==> stream[i] != o.actual
       case _ => false
  }

  /** The first failure is that of the first observation out of place, with its position and its cause. */
  lemma {:induction false} FirstFailureExactly(expected: Streams, history: seq<Observation>)
    requires HasSymbols(expected) && AllKnown(history)
    ensures match FirstFailure(expected, history)
      case None => forall k :: 0 <= k < |history| ==> InPlace(expected, history, k)
      case Some(f) =>
        exists k :: 0 <= k < |history| && !InPlace(expected, history, k) && Explains(f, expected, history, k)
               && forall j :: 0 <= j < k ==> InPlace(expected, history, j)
  {
    if history != [] {
      hide Projection, Compare, FirstFailure, StockComparison, InPlace, Explains, FailureAt;
      var n := |history| - 1;
      var earlier, last := history[..n], history[n];
      assert last in history && history == earlier + [last];
      FirstFailureExactly(expected, earlier);
      FailureGrows(expected, earlier, last);
      forall j | 0 <= j < n
        ensures InPlace(expected, history, j) <==> InPlace(expected, earlier, j)
        ensures forall f :: Explains(f, expected, history, j) <==> Explains(f, expected, earlier, j)
      {
        SameJudgement(expected, history, j);
      }
      if FirstFailure(expected, earlier) == None {
        LastJudged(expected, history);
      }
    } else {
      NoFailureYet(expected);
    }
  }

  lemma SameJudgement(expected: Streams, history: seq<Observation>, j: nat)
    requires HasSymbols(expected) && AllKnown(history) && j < |history| - 1
    ensures InPlace(expected, history, j) <==> InPlace(expected, history[..|history| - 1], j)
    ensures forall f :: Explains(f, expected, history, j) <==> Explains(f, expected, history[..|history| - 1], j)
  {
    hide Projection;
    assert history[..|history| - 1][..j] == history[..j];
  }

  /** The last observation, when nothing has failed before it. */
  lemma LastJudged(expected: Streams, history: seq<Observation>)
    requires HasSymbols(expected) && AllKnown(history) && history != []
    requires FirstFailure(expected, history[..|history| - 1]) == None
    ensures var n := |history| - 1;
      var earlier, last := history[..n], history[n];
      && last.symbol in expected
      && var failed := FailureAt(expected[last.symbol], last.symbol, StockComparison(expected, earlier, last.symbol),
                                 |Projection(earlier, last.symbol)|, last.actual);
         && (failed == None <==> InPlace(expected, history, n))
         && (failed.Some? ==> Explains(failed.value, expected, history, n))
  {
    hide Projection, StockComparison, FirstFailure;
    assert history[|history| - 1] in history;
    UnfailedIsPrefix(expected, history[..|history| - 1]);
  }

  // ----- what a finished run means

  /** Every count depends on the per-stock streams alone, not on how the stocks interleave. */
  lemma InterleavingIrrelevant(expected: Streams, history: seq<Observation>, other: seq<Observation>)
    requires HasSymbols(expected)
    requires forall symbol :: IsSymbol(symbol) ==> Projection(history, symbol) == Projection(other, symbol)
    ensures TotalMismatches(expected, history) == TotalMismatches(expected, other)
    ensures FinalTotal(expected, history) == FinalTotal(expected, other)
  {
  }

  /** Entries the three comparisons paired. */
  ghost function TotalPaired(expected: Streams, history: seq<Observation>): nat
    requires HasSymbols(expected)
  {
    |StockComparison(expected, history, AAPL).pairs|
    + |StockComparison(expected, history, MSFT).pairs|
    + |StockComparison(expected, history, NFLX).pairs|
  }

  function TotalExpected(expected: Streams): nat
    requires HasSymbols(expected)
  {
    |expected[AAPL]| + |expected[MSFT]| + |expected[NFLX]|
  }

  lemma {:induction false} ObservationsPartition(history: seq<Observation>)
    requires AllKnown(history)
    ensures |Projection(history, AAPL)| + |Projection(history, MSFT)| + |Projection(history, NFLX)| == |history|
  {
    if history != [] {
      assert history[|history| - 1] in history;
      ObservationsPartition(history[..|history| - 1]);
    }
  }

  /** The final count is what the pairing leaves over of all expected and all observed updates. */
  lemma FinalTotalAccounts(expected: Streams, history: seq<Observation>)
    requires HasSymbols(expected) && AllKnown(history)
    ensures FinalTotal(expected, history) + 2 * TotalPaired(expected, history) == TotalExpected(expected) + |history|
  {
    FinalAccounts(expected[AAPL], Projection(history, AAPL));
    FinalAccounts(expected[MSFT], Projection(history, MSFT));
    FinalAccounts(expected[NFLX], Projection(history, NFLX));
    ObservationsPartition(history);
  }

  /** Nothing is counted exactly when each stock emitted precisely its expected stream. */
  lemma PassMeansEqual(expected: Streams, history: seq<Observation>)
    requires HasSymbols(expected)
    ensures FinalTotal(expected, history) == 0 <==>
      forall symbol :: IsSymbol(symbol) ==> Projection(history, symbol) == expected[symbol]
  {
    CleanMeansEqual(expected[AAPL], Projection(history, AAPL));
    CleanMeansEqual(expected[MSFT], Projection(history, MSFT));
    CleanMeansEqual(expected[NFLX], Projection(history, NFLX));
  }
}
