/** Filtering a feed to one stock locate gives the book of that stock. */
module LocateProjection {
  import opened Wrappers
  import opened Contracts
  import opened BookSteps
  import opened BookIndex
  import opened BookRefinement
  import opened BookTheorems

  /** The orders of one stock. */
  function Restrict(t: Orders, locate: nat): Orders {
    map r | r in t && t[r].locate == locate :: t[r]
  }

  /** The events of one stock, in feed order. */
  function Filter(events: seq<Event>, locate: nat): seq<Event> {
    if events == [] then []
    else
      var rest := Filter(events[..|events| - 1], locate);
      var e := events[|events| - 1];
      if e.locate == locate then rest + [e] else rest
  }

  /** An event that names a live order carries that order's locate. */
  predicate WellLocated(t: Orders, e: Event) {
    e.op != Add && e.orderRef in t ==> t[e.orderRef].locate == e.locate
  }

  /** Every event of a run is well located in the book it meets. */
  predicate RunWellLocated(events: seq<Event>) {
    events != [] ==>
    && RunWellLocated(events[..|events| - 1])
    && WellLocated(Run(EMPTY_BOOK, events[..|events| - 1], None).book.orders, events[|events| - 1])
  }

  lemma {:induction false} LevelAtRestrict(t: Orders, locate: nat, side: Side, price: nat)
    ensures LevelAt(Restrict(t, locate), side, price).shares <= LevelAt(t, side, price).shares
    decreases |t|
  {
    if t == map[] {
      assert Restrict(t, locate) == map[];
    } else {
      var r: nat :| r in t;
      LevelAtRestrict(t - {r}, locate, side, price);
      LevelAtRemove(t, r, side, price);
      if t[r].locate == locate {
        LevelAtRemove(Restrict(t, locate), r, side, price);
        assert Restrict(t, locate) - {r} == Restrict(t - {r}, locate);
      } else {
        assert Restrict(t, locate) == Restrict(t - {r}, locate);
      }
    }
  }

  /**
    An event that does right by one stock: if it carries the stock's locate the order it names is the
    stock's, and if it does not it leaves the stock's orders alone, if only by taking no shares off one.
    */
  predicate RightFor(t: Orders, e: Event, locate: nat) {
    e.op != Add && e.orderRef in t ==>
      if e.locate == locate then t[e.orderRef].locate == locate
      else
        t[e.orderRef].locate == locate ==>
          (e.op == Execute || e.op == Cancel) && e.shares.value == 0 && t[e.orderRef].shares > 0
  }

  predicate RunRightFor(events: seq<Event>, locate: nat) {
    events != [] ==>
    && RunRightFor(events[..|events| - 1], locate)
    && RightFor(Run(EMPTY_BOOK, events[..|events| - 1], None).book.orders, events[|events| - 1], locate)
  }

  /** One accepted event that carries a stock's locate, seen from the stock's own book. */
  lemma OwnEvent(t: Orders, e: Event, locate: nat)
    requires Rejection(t, e, None) == None && e.locate == locate
    ensures if RightFor(t, e, locate) then
        && Rejection(Restrict(t, locate), e, Some(locate)) == None
        && OrdersAfter(Restrict(t, locate), e) == Restrict(OrdersAfter(t, e), locate)
      else Rejection(Restrict(t, locate), e, Some(locate)) == Some(UnknownRef)
  {
    if e.op == Add {
      LevelAtRestrict(t, locate, e.side, e.price.value);
    } else if e.op == Replace {
      LevelAtRestrict(t - {e.orderRef}, locate, t[e.orderRef].side, e.price.value);
      assert Restrict(t - {e.orderRef}, locate) == Restrict(t, locate) - {e.orderRef};
    }
  }

  /** One accepted event that carries another locate. */
  lemma OtherEvent(t: Orders, e: Event, locate: nat)
    requires Rejection(t, e, None) == None && e.locate != locate
    ensures Restrict(OrdersAfter(t, e), locate) == Restrict(t, locate) <==> RightFor(t, e, locate)
  {
    var r, before, after := e.orderRef, Restrict(t, locate), Restrict(OrdersAfter(t, e), locate);
    if e.op != Add && t[r].locate == locate && !RightFor(t, e, locate) {
      assert r in before && before[r] == t[r];
      assert r !in after || after[r] != t[r];
    }
  }

  lemma FilterSnoc(events: seq<Event>, locate: nat)
    requires events != []
    ensures var f, e := Filter(events, locate), events[|events| - 1];
      var rest := Filter(events[..|events| - 1], locate);
      if e.locate == locate then f != [] && f[|f| - 1] == e && f[..|f| - 1] == rest else f == rest
  {
  }

  /** The filtered run accepts and holds exactly the stock's orders, with levels to match. */
  ghost predicate Projects(events: seq<Event>, locate: nat) {
    var filtered := Run(EMPTY_BOOK, Filter(events, locate), Some(locate));
    && filtered.error == None && Consistent(filtered.book)
    && filtered.book.orders == Restrict(Run(EMPTY_BOOK, events, None).book.orders, locate)
  }

  /** From a stock's book that has kept up, one more event keeps it up exactly if it does right by the stock. */
  lemma ProjectsNext(events: seq<Event>, locate: nat)
    requires events != [] && Run(EMPTY_BOOK, events, None).error == None
    requires Projects(events[..|events| - 1], locate)
    ensures Projects(events, locate)
       <==> RightFor(Run(EMPTY_BOOK, events[..|events| - 1], None).book.orders, events[|events| - 1], locate)
  {
    hide LevelAt, RightFor, Rejection, OrdersAfter, Consistent, Apply;
    var earlier, e := events[..|events| - 1], events[|events| - 1];
    FilterSnoc(events, locate);
    EmptyConsistent();
    RunConsistent(EMPTY_BOOK, earlier, None);
    var b := Run(EMPTY_BOOK, earlier, None).book;
    var f := Run(EMPTY_BOOK, Filter(earlier, locate), Some(locate)).book;
    ApplyRefines(b, e, None);
    if e.locate == locate {
      ApplyRefines(f, e, Some(locate));
      OwnEvent(b.orders, e, locate);
    } else {
      OtherEvent(b.orders, e, locate);
    }
  }

  lemma NothingProjects(locate: nat)
    ensures Projects([], locate)
  {
    EmptyConsistent();
    assert Restrict(map[], locate) == map[];
  }

  /**
    For one stock: the filtered run accepts and holds exactly the stock's orders after every event if
    and only if every event does right by that stock.
    */
  lemma {:induction false} StockProjectionExact(events: seq<Event>, locate: nat)
    requires Run(EMPTY_BOOK, events, None).error == None
    ensures RunRightFor(events, locate) <==> forall k :: 0 <= k <= |events| ==> Projects(events[..k], locate)
  {
    hide Projects, RightFor, Run;
    if events == [] {
      NothingProjects(locate);
      assert events[..0] == [];
    } else {
      var n := |events| - 1;
      PrefixAccepted(EMPTY_BOOK, events, n, None);
      StockProjectionExact(events[..n], locate);
      assert events[..n][..n] == events[..n];
      if Projects(events[..n], locate) {
        ProjectsNext(events, locate);
      }
      AllPrefixes(events, locate);
    }
  }

  lemma AllPrefixes(events: seq<Event>, locate: nat)
    requires events != []
    ensures var n := |events| - 1;
      (forall k :: 0 <= k <= |events| ==> Projects(events[..k], locate))
      <==> (forall k :: 0 <= k <= n ==> Projects(events[..n][..k], locate)) && Projects(events, locate)
  {
    hide Projects;
    var n := |events| - 1;
    assert events[..|events|] == events;
    assert forall k :: 0 <= k <= n ==> events[..n][..k] == events[..k];
    if (forall k :: 0 <= k <= n ==> Projects(events[..n][..k], locate)) && Projects(events, locate) {
      forall k | 0 <= k <= |events| ensures Projects(events[..k], locate) {
        assert k <= n ==> Projects(events[..n][..k], locate);
      }
    }
    if forall k :: 0 <= k <= |events| ==> Projects(events[..k], locate) {
      forall k | 0 <= k <= n ensures Projects(events[..n][..k], locate) {
        assert Projects(events[..k], locate);
      }
      assert Projects(events[..|events|], locate);
    }
  }

  lemma {:induction false} WellLocatedIsRight(events: seq<Event>, locate: nat)
    requires RunWellLocated(events)
    ensures RunRightFor(events, locate)
  {
    if events != [] {
      WellLocatedIsRight(events[..|events| - 1], locate);
    }
  }

  lemma WellLocatedProjects(events: seq<Event>, locate: nat)
    requires Run(EMPTY_BOOK, events, None).error == None && RunWellLocated(events)
    ensures Projects(events, locate)
  {
    hide Projects;
    WellLocatedIsRight(events, locate);
    StockProjectionExact(events, locate);
    assert events[..|events|] == events;
  }

  lemma {:induction false} WellLocatedPrefix(events: seq<Event>, k: nat)
    requires k <= |events| && RunWellLocated(events)
    ensures RunWellLocated(events[..k])
  {
    if k == |events| {
      assert events[..k] == events;
    } else {
      assert events[..|events| - 1][..k] == events[..k];
      WellLocatedPrefix(events[..|events| - 1], k);
    }
  }

  /** A misplaced event is the first thing the filtered run trips over. */
  lemma MisplacedRejects(events: seq<Event>)
    requires events != [] && Run(EMPTY_BOOK, events, None).error == None
    requires RunWellLocated(events[..|events| - 1]) && !RunWellLocated(events)
    ensures Run(EMPTY_BOOK, Filter(events, events[|events| - 1].locate), Some(events[|events| - 1].locate)).error
         == Some(UnknownRef)
  {
    var earlier, e := events[..|events| - 1], events[|events| - 1];
    var b := Run(EMPTY_BOOK, earlier, None).book;
    WellLocatedProjects(earlier, e.locate);
    FilterSnoc(events, e.locate);
    var f := Run(EMPTY_BOOK, Filter(earlier, e.locate), Some(e.locate)).book;
    ApplyRefines(f, e, Some(e.locate));
  }

  /**
    An accepted run projects onto every stock after every one of its events if and only if each
    of its events carries the locate of the order it names.
    */
  lemma {:induction false} ProjectionExact(events: seq<Event>)
    requires Run(EMPTY_BOOK, events, None).error == None
    ensures RunWellLocated(events) <==> forall k, locate: nat :: 0 <= k <= |events| ==> Projects(events[..k], locate)
  {
    if RunWellLocated(events) {
      forall k, locate: nat | 0 <= k <= |events| ensures Projects(events[..k], locate) {
        PrefixAccepted(EMPTY_BOOK, events, k, None);
        WellLocatedPrefix(events, k);
        WellLocatedProjects(events[..k], locate);
      }
    } else {
      var k := FirstMisplaced(events);
      var upTo := events[..k + 1];
      assert upTo[..|upTo| - 1] == events[..k];
      PrefixAccepted(EMPTY_BOOK, events, k + 1, None);
      MisplacedRejects(upTo);
      assert !Projects(upTo, upTo[k].locate);
    }
  }

  lemma {:induction false} FirstMisplaced(events: seq<Event>) returns (k: nat)
    requires !RunWellLocated(events)
    ensures k < |events| && RunWellLocated(events[..k]) && !RunWellLocated(events[..k + 1])
  {
    var earlier := events[..|events| - 1];
    if RunWellLocated(earlier) {
      k := |events| - 1;
      assert events[..k + 1] == events;
    } else {
      k := FirstMisplaced(earlier);
      assert earlier[..k] == events[..k] && earlier[..k + 1] == events[..k + 1];
    }
  }
}
