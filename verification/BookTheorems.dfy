/** What the order book guarantees over whole runs. */
module BookTheorems {
  import opened Wrappers
  import opened Contracts
  import opened FiniteSums
  import opened BookSteps
  import opened BookIndex
  import opened BookRefinement
  import opened GoldenOrderBook

  // ----- what a refused event leaves

  /** A refused event leaves the whole book as it was if and only if it is not refused for the level width. */
  lemma UntouchedExactly(b: Book, e: Event, expectedLocate: Option<nat>)
    requires Consistent(b) && Rejection(b.orders, e, expectedLocate) != None
    ensures Apply(b, e, expectedLocate).book == b <==> Rejection(b.orders, e, expectedLocate) != Some(LevelWidth)
  {
    hide LevelAt, Indexes, EntryRight;
    ApplyRefines(b, e, expectedLocate);
    var after := Apply(b, e, expectedLocate).book;
    if Rejection(b.orders, e, expectedLocate) == Some(LevelWidth) {
      NotBoth(after, AddedRef(e));
    }
  }

  /** The levels of a table are not those of the table without one of its orders. */
  lemma NotBoth(b: Book, r: nat)
    requires r in b.orders && Consistent(b.(orders := b.orders - {r}))
    ensures !Consistent(b)
  {
    hide LevelAt, Indexes;
    if Consistent(b) {
      var o := b.orders[r];
      LevelAtRemove(b.orders, r, o.side, o.price);
      EntryOf(b, o.side, o.price);
      EntryOf(b.(orders := b.orders - {r}), o.side, o.price);
      assert false;
    }
  }

  // ----- which error a refused event raises

  /** Each refusal of a consistent book has its own condition on the event and the orders, and no two overlap. */
  lemma RefusedExactly(b: Book, e: Event, expectedLocate: Option<nat>)
    requires Consistent(b)
    ensures var t, error := b.orders, Apply(b, e, expectedLocate).error;
      var located := expectedLocate == None || expectedLocate.value == e.locate;
      var known := e.orderRef in t;
      && (error == Some(UnexpectedLocate) <==> !located)
      && (error == Some(UnknownRef) <==> located && e.op != Op.Add && !known)
      && (error == Some(ReusedRef) <==> located && known && (e.op == Op.Add || TakenByReplace(t, e)))
      && (error == Some(ExcessShares) <==>
            located && known && (e.op == Op.Execute || e.op == Op.Cancel) && e.shares.value > t[e.orderRef].shares)
      && (error == Some(LevelWidth) <==>
            if e.op == Op.Add then located && !known && Crowded(t, e.side, e)
            else
              located && known && e.op == Op.Replace && !TakenByReplace(t, e)
              && Crowded(t - {e.orderRef}, t[e.orderRef].side, e))
      && (error == None || error.value in {UnexpectedLocate, UnknownRef, ReusedRef, ExcessShares, LevelWidth})
  {
    hide LevelAt, Consistent;
    ApplyRefines(b, e, expectedLocate);
  }

  /** Whether a replace names another order's reference as its new one. */
  predicate TakenByReplace(t: Orders, e: Event) {
    e.op == Op.Replace && e.newOrderRef.value != e.orderRef && e.newOrderRef.value in t
  }

  /** Whether the shares an event enters bring its level to 2^32 or more. */
  ghost predicate Crowded(t: Orders, side: Side, e: Event)
    requires e.op == Op.Add || e.op == Op.Replace
  {
    LevelAt(t, side, e.price.value).shares + e.shares.value >= 0x1_0000_0000
  }

  /** On any book, consistent or not: which failure a decrease of a level meets. */
  lemma DecreaseFailsExactly(b: Book, side: Side, price: nat, sharesDelta: nat, countDelta: nat)
    ensures var error := DecreaseLevel(b, side, price, sharesDelta, countDelta).error;
      var levels := if side == Buy then b.bids else b.asks;
      if side == Unknown then error == Some(NotBookSide)
      else if price !in levels then error == Some(MissingLevel)
      else
        var shares, count := levels[price].shares, levels[price].orderCount;
        && (error == Some(NegativeShares) <==> sharesDelta > shares)
        && (error == Some(NegativeCount) <==> sharesDelta <= shares && countDelta > count)
        && (error == Some(EmptyLevelHasShares) <==> sharesDelta < shares && countDelta == count)
        && (error == Some(LevelWidth) <==>
              sharesDelta <= shares && countDelta < count && shares - sharesDelta >= 0x1_0000_0000)
        && (error == None || error.value in {NegativeShares, NegativeCount, EmptyLevelHasShares, LevelWidth})
  {
  }

  /** And which failure an increase meets. */
  lemma IncreaseFailsExactly(b: Book, side: Side, price: nat, shares: nat)
    ensures var error := IncreaseLevel(b, side, price, shares).error;
      var levels := if side == Buy then b.bids else b.asks;
      error == if side == Unknown then Some(NotBookSide)
               else if (if price in levels then levels[price].shares else 0) + shares >= 0x1_0000_0000
               then Some(LevelWidth) else None
  {
  }

  // ----- every reachable book is consistent

  /** The refusals that blame the event stream rather than the book's own bookkeeping. */
  predicate BlamesStream(error: BookError) {
    error in {UnexpectedLocate, UnknownRef, ReusedRef, ExcessShares, LevelWidth}
  }

  lemma EmptyConsistent()
    ensures Consistent(EMPTY_BOOK)
  {
    forall side, p: nat ensures EntryRight(map[], map[], side, p) {
      assert LevelAt(map[], side, p) == Level(0, 0);
    }
  }

  /**
    However a run ends, its bookkeeping failures never fire; unless it ends in a level-width
    overflow, the book it leaves is consistent.
    */
  lemma {:induction false} RunConsistent(b: Book, events: seq<Event>, expectedLocate: Option<nat>)
    requires Consistent(b)
    ensures var o := Run(b, events, expectedLocate);
      && (o.error.Some? ==> BlamesStream(o.error.value))
      && (o.error != Some(LevelWidth) ==> Consistent(o.book))
  {
    if events != [] {
      var before := Run(b, events[..|events| - 1], expectedLocate);
      RunConsistent(b, events[..|events| - 1], expectedLocate);
      if before.error == None {
        ApplyRefines(before.book, events[|events| - 1], expectedLocate);
      }
    }
  }

  /** A run that has been accepted was accepted at every earlier point. */
  lemma {:induction false} PrefixAccepted(b: Book, events: seq<Event>, k: nat, expectedLocate: Option<nat>)
    requires k <= |events| && Run(b, events, expectedLocate).error == None
    ensures Run(b, events[..k], expectedLocate).error == None
  {
    if k < |events| {
      assert events[..|events| - 1][..k] == events[..k];
      PrefixAccepted(b, events[..|events| - 1], k, expectedLocate);
    } else {
      assert events[..k] == events;
    }
  }

  // ----- what an overflow leaves behind

  /** The table, the side and the level a new order joins; a replaced order has left before its successor joins. */
  function JoinedTable(t: Orders, e: Event): Orders {
    if e.op == Replace then t - {e.orderRef} else t
  }

  function JoinedSide(t: Orders, e: Event): Side
    requires e.op == Add || (e.op == Replace && e.orderRef in t)
  {
    if e.op == Add then e.side else t[e.orderRef].side
  }

  /**
    The width check fires after the order has been recorded, so an add or a replace refused for it
    leaves an order that no level counts.  What deleting that order then meets depends on the level
    it failed to join: too few shares there is one bookkeeping failure, shares left over by its only
    counted order the other, and otherwise the deletion goes through and takes away an order that is
    still on display.
    */
  lemma DeletingPhantomExactly(b: Book, e: Event, deletion: Event)
    requires Consistent(b) && (e.op == Add || e.op == Replace) && Apply(b, e, None).error == Some(LevelWidth)
    requires deletion.op == Delete && deletion.orderRef == AddedRef(e)
    ensures e.op == Replace ==> e.orderRef in b.orders
    ensures var o := Apply(Apply(b, e, None).book, deletion, None);
      var t := JoinedTable(b.orders, e);
      var l := LevelAt(t, JoinedSide(b.orders, e), e.price.value);
      && (o.error == Some(NegativeShares) <==> l.shares < e.shares.value)
      && (o.error == Some(EmptyLevelHasShares) <==> l.shares > e.shares.value && l.orderCount == 1)
      && (o.error == None <==> l.shares == e.shares.value || (l.shares > e.shares.value && l.orderCount > 1))
      && (o.error == None ==> o.book.orders == t && !Consistent(o.book))
  {
    ApplyRefines(b, e, None);
    if e.op == Add {
      DeletingPhantomOrder(b, e.orderRef, Order(e.side, e.price.value, e.shares.value, e.locate));
    } else {
      RemoveRefines(b, e.orderRef);
      var rest := RemoveOrder(b, e.orderRef).book;
      DeletingPhantomOrder(rest, e.newOrderRef.value, Replacement(b.orders[e.orderRef], e));
    }
  }

  lemma DeletingPhantomOrder(b: Book, r: nat, p: Order)
    requires Consistent(b) && r !in b.orders
    requires p.side != Unknown && p.price < PRICE_LIMIT && p.shares < SHARES_LIMIT
    requires !HasRoom(b.orders, p.side, p.price, p.shares)
    ensures r in AddOrder(b, r, p).book.orders
    ensures var o := RemoveOrder(AddOrder(b, r, p).book, r);
      var l := LevelAt(b.orders, p.side, p.price);
      && (o.error == Some(NegativeShares) <==> l.shares < p.shares)
      && (o.error == Some(EmptyLevelHasShares) <==> l.shares > p.shares && l.orderCount == 1)
      && (o.error == None <==> l.shares == p.shares || (l.shares > p.shares && l.orderCount > 1))
      && (o.error == None ==> o.book.orders == b.orders && !Consistent(o.book))
  {
    hide LevelAt, Indexes, LevelsFit, OnBookSides;
    AddRefines(b, r, p);
    UncountedIsEmpty(b.orders, p.side, p.price);
    EntryOf(b, p.side, p.price);
    FitsAt(b, p.side, p.price);
    var o := RemoveOrder(AddOrder(b, r, p).book, r);
    if o.error == None {
      assert b.orders[r := p] - {r} == b.orders;
      if Consistent(o.book) {
        EntryOf(o.book, p.side, p.price);
        assert false;
      }
    }
  }

  lemma FitsAt(b: Book, side: Side, price: nat)
    requires Consistent(b)
    ensures LevelAt(b.orders, side, price).shares < SHARES_LIMIT
  {
  }

  /** An input on which the deletion fails: the only order of a full level, then one share more. */
  lemma OverflowLeavesPhantomOrder(first: Event, second: Event, deletion: Event)
    requires first == NormalisedEvent(Op.Add, 1, Buy, 1, 0, Some(10), Some(SHARES_LIMIT - 1), None, None)
    requires second == NormalisedEvent(Op.Add, 1, Buy, 2, 1, Some(10), Some(1), None, None)
    requires deletion == NormalisedEvent(Op.Delete, 1, Unknown, 2, 2, None, None, None, None)
    ensures var o := Run(EMPTY_BOOK, [first, second], None);
      && o.error == Some(LevelWidth) && 2 in o.book.orders
      && Apply(o.book, deletion, None).error == Some(EmptyLevelHasShares)
  {
    var b := Apply(EMPTY_BOOK, first, None).book;
    assert b == Book(map[1 := Order(Buy, 10, SHARES_LIMIT - 1, 1)], map[10 := Level(SHARES_LIMIT - 1, 1)], map[]);
    assert [first, second][..1] == [first] && [first][..0] == [];
    assert Run(EMPTY_BOOK, [first], None) == Outcome(b, None);
  }

  // ----- the best bid and offer

  /** An order on a side that no other order on that side betters. */
  ghost predicate IsBest(t: Orders, side: Side, r: nat) {
    && r in t && t[r].side == side
    && (side == Buy ==> forall q :: q in t && t[q].side == Buy ==> t[r].price >= t[q].price)
    && (side != Buy ==> forall q :: q in t && t[q].side == side ==> t[r].price <= t[q].price)
  }

  /** The quote of a side is the price of a best order, with every share resting there. */
  lemma QuoteIsBest(levels: Levels, t: Orders, side: Side)
    requires Indexes(levels, t, side)
    ensures QuoteOf(levels, side) == None <==> forall r :: r in t ==> t[r].side != side
    ensures forall r :: IsBest(t, side, r) ==>
      QuoteOf(levels, side) == Some(Quote(t[r].price, LevelAt(t, side, t[r].price).shares))
  {
    forall r | r in t && t[r].side == side
      ensures t[r].price in levels
    {
      LevelAtRemove(t, r, side, t[r].price);
    }
    if levels != map[] {
      var best := BestPrice(levels.Keys, side);
      var r := OrderAt(t, side, best);
      forall q | IsBest(t, side, q)
        ensures t[q].price == best
      {
        assert t[q].price in levels.Keys;
      }
    }
  }

  /** Every counted level has an order in it. */
  lemma {:induction false} OrderAt(t: Orders, side: Side, price: nat) returns (r: nat)
    requires LevelAt(t, side, price).orderCount > 0
    ensures r in t && t[r].side == side && t[r].price == price
    decreases |t|
  {
    r :| r in t;
    if t[r].side != side || t[r].price != price {
      LevelAtRemove(t, r, side, price);
      var q := OrderAt(t - {r}, side, price);
      r := q;
    }
  }

  lemma BboIsBest(b: Book, side: Side, r: nat)
    requires Consistent(b) && side != Unknown && IsBest(b.orders, side, r)
    ensures var quote := Quote(b.orders[r].price, LevelAt(b.orders, side, b.orders[r].price).shares);
      && (side == Buy ==> BboOf(b).bid == Some(quote))
      && (side == Sell ==> BboOf(b).ask == Some(quote))
      && quote.price < PRICE_LIMIT && quote.size < SHARES_LIMIT
  {
    QuoteIsBest(b.bids, b.orders, Buy);
    QuoteIsBest(b.asks, b.orders, Sell);
  }

  // ----- replace

  /** The delete and the add that a replace stands for. */
  function DeleteHalf(e: Event): Event
    requires e.op == Replace
  {
    NormalisedEvent(Op.Delete, e.locate, Unknown, e.orderRef, e.msgIndex, None, None, None, e.timestampNs)
  }

  function AddHalf(e: Event, side: Side): Event
    requires e.op == Replace && side != Unknown
  {
    NormalisedEvent(Op.Add, e.locate, side, e.newOrderRef.value, e.msgIndex, e.price, e.shares, None, e.timestampNs)
  }

  /**
    A replace that is not refused for its references is a delete followed by an add on the
    inherited side, whatever becomes of the two halves; a replace refused for its references
    changes nothing.
    */
  lemma ReplaceIsDeleteThenAdd(b: Book, e: Event, expectedLocate: Option<nat>)
    requires Consistent(b) && e.op == Replace
    ensures var o := Apply(b, e, expectedLocate);
      if o.error in {Some(UnexpectedLocate), Some(UnknownRef), Some(ReusedRef)} then o.book == b
      else
        && e.orderRef in b.orders && b.orders[e.orderRef].side != Unknown
        && o == Run(b, [DeleteHalf(e), AddHalf(e, b.orders[e.orderRef].side)], expectedLocate)
  {
    ApplyRefines(b, e, expectedLocate);
    var o := Apply(b, e, expectedLocate);
    if o.error !in {Some(UnexpectedLocate), Some(UnknownRef), Some(ReusedRef)} {
      var halves := [DeleteHalf(e), AddHalf(e, b.orders[e.orderRef].side)];
      RemoveRefines(b, e.orderRef);
      assert halves[..1] == [DeleteHalf(e)] && halves[..1][..0] == [];
      assert Run(b, halves[..1], expectedLocate) == RemoveOrder(b, e.orderRef);
    }
  }

  // ----- displayed shares are conserved

  ghost function LevelTotal(levels: Levels): nat {
    Total(LevelShares(levels))
  }

  ghost function LevelShares(levels: Levels): map<nat, nat> {
    map p | p in levels :: levels[p].shares
  }

  ghost function SideShares(t: Orders, side: Side): nat {
    Total(OrderShares(t, side))
  }

  ghost function OrderShares(t: Orders, side: Side): map<nat, nat> {
    map r | r in t && t[r].side == side :: t[r].shares
  }

  lemma SideSharesInsert(t: Orders, r: nat, o: Order, side: Side)
    requires r !in t
    ensures SideShares(t[r := o], side) == SideShares(t, side) + (if o.side == side then o.shares else 0)
  {
    var w, w' := OrderShares(t, side), OrderShares(t[r := o], side);
    if o.side == side {
      assert w' == w[r := o.shares];
      TotalInsert(w, r, o.shares);
    } else {
      assert w' == w;
    }
  }

  lemma SideSharesRemove(t: Orders, r: nat, side: Side)
    requires r in t
    ensures SideShares(t, side) == SideShares(t - {r}, side) + (if t[r].side == side then t[r].shares else 0)
  {
    assert (t - {r})[r := t[r]] == t;
    SideSharesInsert(t - {r}, r, t[r], side);
  }

  /** The levels of a side together hold exactly the shares of the side's orders. */
  lemma {:induction false} LevelsHoldSideShares(levels: Levels, t: Orders, side: Side)
    requires Indexes(levels, t, side)
    ensures LevelTotal(levels) == SideShares(t, side)
    decreases |t|
  {
    if t == map[] {
      assert levels == map[] by {
        forall p: nat ensures p !in levels {
          assert LevelAt(t, side, p) == Level(0, 0);
        }
      }
      assert LevelShares(map[]) == map[] && OrderShares(map[], side) == map[];
    } else {
      var r: nat :| r in t;
      var levels' := WithoutOrder(levels, t, side, r);
      LevelsHoldSideShares(levels', t - {r}, side);
      SideSharesRemove(t, r, side);
    }
  }

  /** The index of a table from which one order has been taken. */
  lemma WithoutOrder(levels: Levels, t: Orders, side: Side, r: nat) returns (levels': Levels)
    requires Indexes(levels, t, side) && r in t
    ensures Indexes(levels', t - {r}, side)
    ensures LevelTotal(levels) == LevelTotal(levels') + (if t[r].side == side then t[r].shares else 0)
  {
    hide LevelAt, Total;
    var t', o := t - {r}, t[r];
    forall p: nat
      ensures LevelAt(t, side, p) == Joined(LevelAt(t', side, p), o, side, p)
    {
      LevelAtRemove(t, r, side, p);
    }
    levels' := levels;
    if o.side == side {
      var l := LevelAt(t', side, o.price);
      var w := LevelShares(levels);
      if l.orderCount == 0 {
        UncountedIsEmpty(t', side, o.price);
        levels' := levels - {o.price};
        TotalRemove(w, o.price);
        assert LevelShares(levels') == w - {o.price};
      } else {
        levels' := levels[o.price := l];
        TotalUpdate(w, o.price, l.shares);
        assert LevelShares(levels') == w[o.price := l.shares];
      }
      IndexStep(levels, t, levels', t', side, o.price);
    } else {
      IndexSame(levels, t, t', side);
    }
  }

  /** Shares an accepted event puts on display on one side. */
  function Entered(t: Orders, e: Event, side: Side): nat
    requires e.op != Add ==> e.orderRef in t
  {
    if e.op == Add && e.side == side then e.shares.value
    else if e.op == Replace && t[e.orderRef].side == side then e.shares.value
    else 0
  }

  /** Shares an accepted event takes off display on one side. */
  function Left(t: Orders, e: Event, side: Side): nat
    requires e.op != Add ==> e.orderRef in t
  {
    if e.op == Add || t[e.orderRef].side != side then 0
    else if e.op == Execute || e.op == Cancel then e.shares.value
    else t[e.orderRef].shares
  }

  lemma EventConserves(t: Orders, e: Event, side: Side)
    requires Rejection(t, e, None) == None
    ensures SideShares(OrdersAfter(t, e), side) + Left(t, e, side) == SideShares(t, side) + Entered(t, e, side)
  {
    var r := e.orderRef;
    if e.op == Add {
      SideSharesInsert(t, r, Order(e.side, e.price.value, e.shares.value, e.locate), side);
    } else {
      SideSharesRemove(t, r, side);
      var rest := t - {r};
      if e.op == Replace {
        SideSharesInsert(rest, e.newOrderRef.value, Replacement(t[r], e), side);
      } else if (e.op == Execute || e.op == Cancel) && e.shares.value < t[r].shares {
        var o' := t[r].(shares := t[r].shares - e.shares.value);
        assert OrdersAfter(t, e) == rest[r := o'];
        SideSharesInsert(rest, r, o', side);
      }
    }
  }

  /** What has entered and what has left over a run. */
  ghost function RunEntered(b: Book, events: seq<Event>, side: Side): nat {
    if events == [] || Run(b, events, None).error.Some? then 0
    else
      var t := Run(b, events[..|events| - 1], None).book.orders;
      var e := events[|events| - 1];
      RunEntered(b, events[..|events| - 1], side) + if e.op != Add && e.orderRef !in t then 0 else Entered(t, e, side)
  }

  ghost function RunLeft(b: Book, events: seq<Event>, side: Side): nat {
    if events == [] || Run(b, events, None).error.Some? then 0
    else
      var t := Run(b, events[..|events| - 1], None).book.orders;
      var e := events[|events| - 1];
      RunLeft(b, events[..|events| - 1], side) + if e.op != Add && e.orderRef !in t then 0 else Left(t, e, side)
  }

  /** Over an accepted run from the empty book, each side's levels hold what entered minus what left. */
  lemma {:induction false} SharesConserved(events: seq<Event>)
    requires Run(EMPTY_BOOK, events, None).error == None
    ensures var b := Run(EMPTY_BOOK, events, None).book;
      && LevelTotal(b.bids) + RunLeft(EMPTY_BOOK, events, Buy) == RunEntered(EMPTY_BOOK, events, Buy)
      && LevelTotal(b.asks) + RunLeft(EMPTY_BOOK, events, Sell) == RunEntered(EMPTY_BOOK, events, Sell)
  {
    EmptyConsistent();
    RunConsistent(EMPTY_BOOK, events, None);
    var b := Run(EMPTY_BOOK, events, None).book;
    LevelsHoldSideShares(b.bids, b.orders, Buy);
    LevelsHoldSideShares(b.asks, b.orders, Sell);
    RunConserves(events, Buy);
    RunConserves(events, Sell);
  }

  lemma {:induction false} RunConserves(events: seq<Event>, side: Side)
    requires Run(EMPTY_BOOK, events, None).error == None
    ensures SideShares(Run(EMPTY_BOOK, events, None).book.orders, side) + RunLeft(EMPTY_BOOK, events, side)
         == RunEntered(EMPTY_BOOK, events, side)
  {
    if events == [] {
      assert OrderShares(map[], side) == map[];
    } else {
      var earlier, e := events[..|events| - 1], events[|events| - 1];
      RunConserves(earlier, side);
      EmptyConsistent();
      RunConsistent(EMPTY_BOOK, earlier, None);
      var b := Run(EMPTY_BOOK, earlier, None).book;
      ApplyRefines(b, e, None);
      EventConserves(b.orders, e, side);
    }
  }

  // ----- zero-share orders

  predicate ShowsShares(e: Event) {
    e.op == Add || e.op == Replace ==> e.shares.value > 0
  }

  ghost predicate AllPositive(t: Orders) {
    forall r :: r in t ==> t[r].shares > 0
  }

  lemma EventKeepsPositive(t: Orders, e: Event)
    requires AllPositive(t) && ShowsShares(e) && Rejection(t, e, None) == None
    ensures AllPositive(OrdersAfter(t, e))
  {
  }

  /** Without zero-share adds and replaces every order on display has shares in it. */
  lemma {:induction false} OrdersPositive(events: seq<Event>)
    requires Run(EMPTY_BOOK, events, None).error == None
    requires forall e :: e in events ==> ShowsShares(e)
    ensures AllPositive(Run(EMPTY_BOOK, events, None).book.orders)
  {
    if events != [] {
      var earlier, e := events[..|events| - 1], events[|events| - 1];
      OrdersPositive(earlier);
      EmptyConsistent();
      RunConsistent(EMPTY_BOOK, earlier, None);
      var b := Run(EMPTY_BOOK, earlier, None).book;
      ApplyRefines(b, e, None);
      EventKeepsPositive(b.orders, e);
    }
  }

  /** Every displayed order has shares after every event if and only if no add or replace was for none. */
  lemma {:induction false} OrdersPositiveExactly(events: seq<Event>)
    requires Run(EMPTY_BOOK, events, None).error == None
    ensures (forall k :: 0 <= k <= |events| ==> AllPositive(Run(EMPTY_BOOK, events[..k], None).book.orders))
       <==> forall e :: e in events ==> ShowsShares(e)
  {
    hide AllPositive, ShowsShares, Run;
    if forall e :: e in events ==> ShowsShares(e) {
      forall k | 0 <= k <= |events| ensures AllPositive(Run(EMPTY_BOOK, events[..k], None).book.orders) {
        PrefixAccepted(EMPTY_BOOK, events, k, None);
        OrdersPositive(events[..k]);
      }
    }
    if forall k :: 0 <= k <= |events| ==> AllPositive(Run(EMPTY_BOOK, events[..k], None).book.orders) {
      forall i | 0 <= i < |events| ensures ShowsShares(events[i]) {
        assert AllPositive(Run(EMPTY_BOOK, events[..i + 1], None).book.orders);
        AddedShares(events, i);
      }
    }
  }

  /** What an accepted event adds or replaces is in the table right after it. */
  lemma AddedShares(events: seq<Event>, i: nat)
    requires Run(EMPTY_BOOK, events, None).error == None && i < |events|
    requires AllPositive(Run(EMPTY_BOOK, events[..i + 1], None).book.orders)
    ensures ShowsShares(events[i])
  {
    hide AllPositive, ShowsShares, Apply, Consistent, Rejection, OrdersAfter;
    PrefixAccepted(EMPTY_BOOK, events, i + 1, None);
    assert events[..i + 1][..i] == events[..i];
    EmptyConsistent();
    RunConsistent(EMPTY_BOOK, events[..i], None);
    var b := Run(EMPTY_BOOK, events[..i], None).book;
    ApplyRefines(b, events[i], None);
    AddedOrderShows(b.orders, events[i]);
  }

  lemma AddedOrderShows(t: Orders, e: Event)
    requires Rejection(t, e, None) == None && AllPositive(OrdersAfter(t, e))
    ensures ShowsShares(e)
  {
    if e.op == Add || e.op == Replace {
      assert AddedRef(e) in OrdersAfter(t, e);
    }
  }

  /** The orders resting on one side at one price. */
  ghost predicate RestsAt(t: Orders, r: nat, side: Side, price: nat) {
    r in t && t[r].side == side && t[r].price == price
  }

  lemma {:induction false} LevelZeroExactly(t: Orders, side: Side, price: nat)
    ensures LevelAt(t, side, price).shares == 0 <==> forall r: nat :: RestsAt(t, r, side, price) ==> t[r].shares == 0
    decreases |t|
  {
    if t != map[] {
      var q: nat :| q in t;
      LevelAtRemove(t, q, side, price);
      LevelZeroExactly(t - {q}, side, price);
      assert forall r: nat :: RestsAt(t, r, side, price) <==>
        RestsAt(t - {q}, r, side, price) || (r == q && RestsAt(t, q, side, price));
    }
  }

  /** A displayed level is positive exactly if some order resting there has shares. */
  lemma LevelPositiveExactly(b: Book, side: Side, price: nat)
    requires Consistent(b) && side != Unknown && price in b.LevelsFor(side)
    ensures b.LevelsFor(side)[price].shares > 0
       <==> exists r: nat :: RestsAt(b.orders, r, side, price) && b.orders[r].shares > 0
  {
    EntryOf(b, side, price);
    LevelZeroExactly(b.orders, side, price);
  }

  /** Without zero-share adds and replaces every displayed level has shares. */
  lemma LevelsPositive(events: seq<Event>, side: Side, price: nat)
    requires Run(EMPTY_BOOK, events, None).error == None && side != Unknown
    requires forall e :: e in events ==> ShowsShares(e)
    ensures var levels := Run(EMPTY_BOOK, events, None).book.LevelsFor(side);
      price in levels ==> levels[price].shares > 0
  {
    var b := Run(EMPTY_BOOK, events, None).book;
    EmptyConsistent();
    RunConsistent(EMPTY_BOOK, events, None);
    OrdersPositive(events);
    if price in b.LevelsFor(side) {
      EntryOf(b, side, price);
      var r := OrderAt(b.orders, side, price);
      assert RestsAt(b.orders, r, side, price);
      LevelPositiveExactly(b, side, price);
    }
  }

  /** The contract allows an order for no shares, and then a level with none is on display. */
  lemma ZeroShareLevel(e: Event)
    requires e == NormalisedEvent(Op.Add, 1, Buy, 1, 0, Some(10), Some(0), None, None)
    ensures var o := Run(EMPTY_BOOK, [e], None);
      o.error == None && o.book.bids == map[10 := Level(0, 1)] && BboOf(o.book).bid == Some(Quote(10, 0))
  {
  }
}
