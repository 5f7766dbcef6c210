/**
  The incremental book does what the reference book says, on every consistent book and every event
  (`ApplyRefines`).
  */
module BookRefinement {
  import opened Wrappers
  import opened Contracts
  import opened BookSteps
  import opened BookIndex

  lemma RemoveRefines(b: Book, r: nat)
    requires Consistent(b) && r in b.orders
    ensures var o := RemoveOrder(b, r);
      o.error == None && o.book.orders == b.orders - {r} && Consistent(o.book)
  {
    var t, o := b.orders, b.orders[r];
    forall s, p: nat
      ensures LevelAt(t, s, p) == Joined(LevelAt(t - {r}, s, p), o, s, p)
    {
      LevelAtRemove(t, r, s, p);
    }
    DecreaseRefines(b, t - {r}, o.side, o.price, o.shares, 1);
  }

  lemma AddRefines(b: Book, r: nat, o: Order)
    requires Consistent(b) && r !in b.orders
    requires o.side != Unknown && o.price < PRICE_LIMIT && o.shares < SHARES_LIMIT
    ensures var added := AddOrder(b, r, o);
      if HasRoom(b.orders, o.side, o.price, o.shares)
      then added.error == None && added.book.orders == b.orders[r := o] && Consistent(added.book)
      else added == Outcome(b.(orders := b.orders[r := o]), Some(LevelWidth))
  {
    hide LevelAt, Indexes;
    var t := b.orders;
    UncountedIsEmpty(t, o.side, o.price);
    EntryOf(b, o.side, o.price);
    if HasRoom(t, o.side, o.price, o.shares) {
      forall s, p: nat
        ensures LevelAt(t[r := o], s, p) == Joined(LevelAt(t, s, p), o, s, p)
      {
        LevelAtInsert(t, r, o, s, p);
      }
      ConsistentStep(b, t[r := o], o.side, o.price, AddOrder(b, r, o).book.LevelsFor(o.side));
    }
  }

  lemma PartialReduceRefines(b: Book, r: nat, delta: nat)
    requires Consistent(b) && r in b.orders && delta < b.orders[r].shares
    ensures var o := b.orders[r];
      var decreased := DecreaseLevel(b, o.side, o.price, delta, 0);
      && decreased.error == None && decreased.book.orders == b.orders
      && Consistent(decreased.book.(orders := b.orders[r := o.(shares := o.shares - delta)]))
  {
    var t, o := b.orders, b.orders[r];
    hide LevelAt, Indexes;
    var t' := t[r := o.(shares := o.shares - delta)];
    forall s, p: nat | s != o.side || p != o.price
      ensures LevelAt(t', s, p) == LevelAt(t, s, p)
    {
      LevelAtShrink(t, r, delta, s, p);
    }
    LevelAtShrink(t, r, delta, o.side, o.price);
    LevelAtRemove(t, r, o.side, o.price);
    DecreaseRefines(b, t', o.side, o.price, delta, 0);
  }

  lemma ReduceRefines(b: Book, e: Event)
    requires Consistent(b) && (e.op == Execute || e.op == Cancel)
    requires Rejection(b.orders, e, None) == None
    ensures var o := ReduceOrder(b, e);
      o.error == None && o.book.orders == OrdersAfter(b.orders, e) && Consistent(o.book)
  {
    if b.orders[e.orderRef].shares == e.shares.value {
      RemoveRefines(b, e.orderRef);
    } else {
      PartialReduceRefines(b, e.orderRef, e.shares.value);
    }
  }

  /**
    The main refinement.  On a consistent book an event is refused exactly when the reference
    refuses it and for the same reason; an accepted event leaves a consistent book over the
    new table; every refusal leaves the book untouched except a level-width overflow, which
    leaves the new table with the levels of that table before its new order joined.
    */
  lemma ApplyRefines(b: Book, e: Event, expectedLocate: Option<nat>)
    requires Consistent(b)
    ensures var o := Apply(b, e, expectedLocate);
      && o.error == Rejection(b.orders, e, expectedLocate)
      && (o.error == None ==> o.book.orders == OrdersAfter(b.orders, e) && Consistent(o.book))
      && (o.error == Some(LevelWidth) ==>
           && (e.op == Add || e.op == Replace)
           && o.book.orders == OrdersAfter(b.orders, e)
           && Consistent(o.book.(orders := o.book.orders - {AddedRef(e)})))
      && (o.error != None && o.error != Some(LevelWidth) ==> o.book == b)
  {
    hide LevelAt, Indexes;
    var t, r := b.orders, e.orderRef;
    if Rejection(t, e, expectedLocate) == None || Rejection(t, e, expectedLocate) == Some(LevelWidth) {
      match e.op {
        case Add =>
          var o := Order(e.side, e.price.value, e.shares.value, e.locate);
          AddRefines(b, r, o);
          assert t[r := o] - {r} == t;
        case Delete =>
          RemoveRefines(b, r);
        case Replace =>
          RemoveRefines(b, r);
          var b' := RemoveOrder(b, r).book;
          var r', o := e.newOrderRef.value, Replacement(t[r], e);
          AddRefines(b', r', o);
          assert b'.orders[r' := o] - {r'} == b'.orders;
        case _ =>
          ReduceRefines(b, e);
      }
    }
  }
}
