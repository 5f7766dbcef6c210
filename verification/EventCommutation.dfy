/** Events that name different orders can be applied in either order. */
module EventCommutation {
  import opened Wrappers
  import opened Contracts
  import opened BookSteps
  import opened BookIndex
  import opened BookRefinement

  function Refs(e: Event): set<nat> {
    {e.orderRef} + if e.op == Replace then {e.newOrderRef.value} else {}
  }

  /** Whether the reference book has the same reason, level width apart, to refuse an event on two tables. */
  lemma SameRefsSameRefusal(t: Orders, t': Orders, e: Event, expectedLocate: Option<nat>)
    requires forall r :: r in Refs(e) ==> (r in t <==> r in t') && (r in t ==> t[r] == t'[r])
    ensures Rejection(t, e, expectedLocate) != Rejection(t', e, expectedLocate) ==>
      && Rejection(t, e, expectedLocate) in {None, Some(LevelWidth)}
      && Rejection(t', e, expectedLocate) in {None, Some(LevelWidth)}
  {
  }

  lemma OtherRefsUntouched(t: Orders, e: Event, r: nat)
    requires e.op != Add ==> e.orderRef in t
    requires r !in Refs(e)
    ensures r in OrdersAfter(t, e) <==> r in t
    ensures r in t ==> OrdersAfter(t, e)[r] == t[r]
  {
  }

  lemma OrdersCommute(t: Orders, e1: Event, e2: Event)
    requires Refs(e1) !! Refs(e2)
    requires e1.op != Add ==> e1.orderRef in t
    requires e2.op != Add ==> e2.orderRef in t
    ensures e2.op != Add ==> e2.orderRef in OrdersAfter(t, e1)
    ensures e1.op != Add ==> e1.orderRef in OrdersAfter(t, e2)
    ensures OrdersAfter(OrdersAfter(t, e1), e2) == OrdersAfter(OrdersAfter(t, e2), e1)
  {
    assert e1.orderRef in Refs(e1) && e2.orderRef in Refs(e2);
    assert e1.orderRef !in Refs(e2) && e2.orderRef !in Refs(e1);
    OtherRefsUntouched(t, e1, e2.orderRef);
    OtherRefsUntouched(t, e2, e1.orderRef);
    var t12, t21 := OrdersAfter(OrdersAfter(t, e1), e2), OrdersAfter(OrdersAfter(t, e2), e1);
    forall r: nat
      ensures r in t12 <==> r in t21
      ensures r in t12 ==> t12[r] == t21[r]
    {
      if r !in Refs(e1) {
        OtherRefsUntouched(t, e1, r);
        OtherRefsUntouched(OrdersAfter(t, e2), e1, r);
        SameRefSameResult(t, OrdersAfter(t, e1), e2, r);
      } else {
        OtherRefsUntouched(t, e2, r);
        OtherRefsUntouched(OrdersAfter(t, e1), e2, r);
        SameRefSameResult(t, OrdersAfter(t, e2), e1, r);
      }
    }
  }

  /** What an event does to one entry depends on that entry and on the order it names. */
  lemma SameRefSameResult(t: Orders, t': Orders, e: Event, r: nat)
    requires r in t <==> r in t'
    requires r in t ==> t[r] == t'[r]
    requires e.op != Add ==> e.orderRef in t && e.orderRef in t' && t[e.orderRef] == t'[e.orderRef]
    ensures r in OrdersAfter(t, e) <==> r in OrdersAfter(t', e)
    ensures r in OrdersAfter(t, e) ==> OrdersAfter(t, e)[r] == OrdersAfter(t', e)[r]
  {
  }

  /** An event that has room in the table it produces had room in the table it came from. */
  lemma RoomAfterwards(t: Orders, e: Event)
    requires e.op == Add || e.op == Replace
    requires Rejection(t, e, None) in {None, Some(LevelWidth)}
    requires LevelsFit(OrdersAfter(t, e))
    ensures Rejection(t, e, None) == None
  {
    var rest := if e.op == Add then t else t - {e.orderRef};
    var o := OrdersAfter(t, e)[AddedRef(e)];
    assert OrdersAfter(t, e) == rest[AddedRef(e) := o];
    LevelAtInsert(rest, AddedRef(e), o, o.side, o.price);
    assert LevelAt(OrdersAfter(t, e), o.side, o.price).shares < SHARES_LIMIT;
  }

  lemma RunTwo(b: Book, e1: Event, e2: Event, expectedLocate: Option<nat>)
    ensures Run(b, [e1, e2], expectedLocate)
         == var o := Apply(b, e1, expectedLocate); if o.error.Some? then o else Apply(o.book, e2, expectedLocate)
  {
    assert [e1, e2][..1] == [e1] && [e1][..0] == [];
    assert Run(b, [e1], expectedLocate) == Apply(b, e1, expectedLocate);
  }

  /**
    If one order of two events that share no reference is accepted, the other order is accepted
    exactly when the event moved to the front is accepted there, then leaves the very same book
    (orders, both level maps and hence best prices), and otherwise fails on the level width.
    */
  lemma EventsCommute(b: Book, e1: Event, e2: Event, expectedLocate: Option<nat>)
    requires Consistent(b) && Refs(e1) !! Refs(e2)
    requires Run(b, [e1, e2], expectedLocate).error == None
    ensures var o := Run(b, [e2, e1], expectedLocate);
      && (o.error == None <==> Apply(b, e2, expectedLocate).error == None)
      && (o.error == None ==> o == Run(b, [e1, e2], expectedLocate))
      && (o.error != None ==> o.error == Some(LevelWidth))
  {
    RunTwo(b, e1, e2, expectedLocate);
    RunTwo(b, e2, e1, expectedLocate);
    var t := b.orders;
    var b1 := Apply(b, e1, expectedLocate).book;
    var b12 := Apply(b1, e2, expectedLocate).book;
    ApplyRefines(b, e1, expectedLocate);
    ApplyRefines(b, e2, expectedLocate);
    ApplyRefines(b1, e2, expectedLocate);
    SameRefusals(t, e1, e2, expectedLocate);
    if Apply(b, e2, expectedLocate).error == None {
      var b2 := Apply(b, e2, expectedLocate).book;
      SameRefusals(t, e2, e1, expectedLocate);
      OrdersCommute(t, e1, e2);
      ApplyRefines(b2, e1, expectedLocate);
      if Rejection(b2.orders, e1, expectedLocate) != None {
        RoomAfterwards(b2.orders, e1);
      }
      var b21 := Apply(b2, e1, expectedLocate).book;
      IndexUnique(b12.bids, b21.bids, b12.orders, Buy);
      IndexUnique(b12.asks, b21.asks, b12.orders, Sell);
    }
  }

  /** An accepted event leaves another's refusal as it was, level width apart. */
  lemma SameRefusals(t: Orders, e1: Event, e2: Event, expectedLocate: Option<nat>)
    requires Refs(e1) !! Refs(e2)
    requires e1.op != Add ==> e1.orderRef in t
    ensures Rejection(t, e2, expectedLocate) != Rejection(OrdersAfter(t, e1), e2, expectedLocate) ==>
      && Rejection(t, e2, expectedLocate) in {None, Some(LevelWidth)}
      && Rejection(OrdersAfter(t, e1), e2, expectedLocate) in {None, Some(LevelWidth)}
  {
    hide Rejection, OrdersAfter;
    forall r | r in Refs(e2)
      ensures (r in t <==> r in OrdersAfter(t, e1)) && (r in t ==> t[r] == OrdersAfter(t, e1)[r])
    {
      OtherRefsUntouched(t, e1, r);
    }
    SameRefsSameRefusal(t, OrdersAfter(t, e1), e2, expectedLocate);
  }
}
