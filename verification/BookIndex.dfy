/**
  What the price levels must be: an index that can be rebuilt from the order table alone.

  The reference book below keeps only the order table: whether it refuses an event, and the table an
  accepted event leaves.
  */
module BookIndex {
  import opened Wrappers
  import opened Contracts
  import opened BookSteps

  // ----- the index rebuilt from the table

  /** The shares and the number of the orders resting on one side at one price. */
  ghost function LevelAt(t: Orders, side: Side, price: nat): Level
    decreases |t|
  {
    if t == map[] then Level(0, 0)
    else
      var r: nat :| r in t;
      Joined(LevelAt(t - {r}, side, price), t[r], side, price)
  }

  /** A level's aggregate once an order has been taken into account. */
  function Joined(level: Level, o: Order, side: Side, price: nat): Level {
    if o.side == side && o.price == price then Level(level.shares + o.shares, level.orderCount + 1) else level
  }

  /** The aggregate does not depend on the order in which the table is visited. */
  lemma {:induction false} LevelAtRemove(t: Orders, r: nat, side: Side, price: nat)
    requires r in t
    ensures LevelAt(t, side, price) == Joined(LevelAt(t - {r}, side, price), t[r], side, price)
    decreases |t|
  {
    var q: nat :| q in t && LevelAt(t, side, price) == Joined(LevelAt(t - {q}, side, price), t[q], side, price);
    if q != r {
      LevelAtRemove(t - {q}, r, side, price);
      LevelAtRemove(t - {r}, q, side, price);
      assert t - {q} - {r} == t - {r} - {q};
      var rest := LevelAt(t - {q} - {r}, side, price);
      assert LevelAt(t, side, price) == Joined(Joined(rest, t[r], side, price), t[q], side, price);
      assert LevelAt(t - {r}, side, price) == Joined(rest, t[q], side, price);
    }
  }

  lemma LevelAtInsert(t: Orders, r: nat, o: Order, side: Side, price: nat)
    requires r !in t
    ensures LevelAt(t[r := o], side, price) == Joined(LevelAt(t, side, price), o, side, price)
  {
    LevelAtRemove(t[r := o], r, side, price);
    assert t[r := o] - {r} == t;
  }

  /** A level's aggregate once one of its orders has lost some shares. */
  function Shrunk(level: Level, o: Order, delta: nat, side: Side, price: nat): Level {
    if o.side == side && o.price == price && delta <= level.shares then level.(shares := level.shares - delta)
    else level
  }

  lemma LevelAtShrink(t: Orders, r: nat, delta: nat, side: Side, price: nat)
    requires r in t && delta <= t[r].shares
    ensures t[r].side == side && t[r].price == price ==> delta <= LevelAt(t, side, price).shares
    ensures LevelAt(t[r := t[r].(shares := t[r].shares - delta)], side, price)
         == Shrunk(LevelAt(t, side, price), t[r], delta, side, price)
  {
    var t' := t[r := t[r].(shares := t[r].shares - delta)];
    LevelAtRemove(t, r, side, price);
    LevelAtRemove(t', r, side, price);
    assert t' - {r} == t - {r};
  }

  /** A price has an entry exactly when some order rests there, and the entry is its aggregate. */
  ghost predicate EntryRight(levels: Levels, t: Orders, side: Side, price: nat) {
    && (price in levels <==> LevelAt(t, side, price).orderCount > 0)
    && (price in levels ==> levels[price] == LevelAt(t, side, price))
  }

  ghost predicate Indexes(levels: Levels, t: Orders, side: Side) {
    forall p: nat {:trigger p in levels} {:trigger LevelAt(t, side, p)} :: EntryRight(levels, t, side, p)
  }

  ghost predicate OnBookSides(t: Orders) {
    forall r :: r in t ==> t[r].side != Unknown && t[r].price < PRICE_LIMIT && t[r].shares < SHARES_LIMIT
  }

  ghost predicate LevelsFit(t: Orders) {
    forall side, p: nat :: LevelAt(t, side, p).shares < SHARES_LIMIT
  }

  ghost predicate GoodOrders(t: Orders) {
    OnBookSides(t) && LevelsFit(t)
  }

  /** The invariant of the book: both level maps are exactly the index of the order table. */
  ghost predicate Consistent(b: Book) {
    && GoodOrders(b.orders)
    && Indexes(b.bids, b.orders, Buy)
    && Indexes(b.asks, b.orders, Sell)
  }

  /** The index is a function of the table: equal tables have equal level maps. */
  lemma IndexUnique(l: Levels, l': Levels, t: Orders, side: Side)
    requires Indexes(l, t, side) && Indexes(l', t, side)
    ensures l == l'
  {
  }

  /** An empty level has no shares either, so no entry can be left behind with shares in it. */
  lemma {:induction false} UncountedIsEmpty(t: Orders, side: Side, price: nat)
    ensures LevelAt(t, side, price).orderCount == 0 ==> LevelAt(t, side, price).shares == 0
    decreases |t|
  {
    if t != map[] {
      var r: nat :| r in t;
      LevelAtRemove(t, r, side, price);
      UncountedIsEmpty(t - {r}, side, price);
    }
  }

  /** One level entry has been corrected for one order; every other entry stays right. */
  lemma IndexStep(levels: Levels, t: Orders, levels': Levels, t': Orders, side: Side, price: nat)
    requires Indexes(levels, t, side)
    requires forall p: nat :: p != price ==> LevelAt(t', side, p) == LevelAt(t, side, p)
    requires levels' - {price} == levels - {price}
    requires EntryRight(levels', t', side, price)
    ensures Indexes(levels', t', side)
  {
    forall p: nat ensures EntryRight(levels', t', side, p) {
      if p != price {
        assert EntryRight(levels, t, side, p);
        assert p in levels' <==> p in levels' - {price};
        assert p in levels <==> p in levels - {price};
        assert p in levels' ==> levels'[p] == (levels' - {price})[p];
      }
    }
  }

  // ----- the reference book: an order table and nothing else

  /** Why the reference book refuses an event, if it does. */
  ghost function Rejection(t: Orders, e: Event, expectedLocate: Option<nat>): Option<BookError> {
    if expectedLocate.Some? && e.locate != expectedLocate.value then Some(UnexpectedLocate)
    else if e.op == Add then
      if e.orderRef in t then Some(ReusedRef)
      else if !HasRoom(t, e.side, e.price.value, e.shares.value) then Some(LevelWidth)
      else None
    else if e.orderRef !in t then Some(UnknownRef)
    else if e.op == Execute || e.op == Cancel then
      if e.shares.value > t[e.orderRef].shares then Some(ExcessShares) else None
    else if e.op == Replace then
      if e.newOrderRef.value in t - {e.orderRef} then Some(ReusedRef)
      else if !HasRoom(t - {e.orderRef}, t[e.orderRef].side, e.price.value, e.shares.value) then Some(LevelWidth)
      else None
    else None
  }

  /** Whether a level has room for some more shares. */
  ghost predicate HasRoom(t: Orders, side: Side, price: nat, shares: nat) {
    LevelAt(t, side, price).shares + shares < SHARES_LIMIT
  }

  /** The order table an event is meant to leave behind. */
  function OrdersAfter(t: Orders, e: Event): Orders
    requires e.op != Add ==> e.orderRef in t
  {
    match e.op
    case Add => t[e.orderRef := Order(e.side, e.price.value, e.shares.value, e.locate)]
    case Delete => t - {e.orderRef}
    case Replace => (t - {e.orderRef})[e.newOrderRef.value := Replacement(t[e.orderRef], e)]
    case _ =>
      var order := t[e.orderRef];
      if order.shares <= e.shares.value then t - {e.orderRef}
      else t[e.orderRef := order.(shares := order.shares - e.shares.value)]
  }

  /** The reference an event introduces. */
  function AddedRef(e: Event): nat
    requires e.op == Add || e.op == Replace
  {
    if e.op == Add then e.orderRef else e.newOrderRef.value
  }

  // ----- one level of the incremental book is corrected

  /** A table change confined to one level, with that level's entry corrected, keeps the book consistent. */
  lemma ConsistentStep(b: Book, t': Orders, side: Side, price: nat, levels': Levels)
    requires Consistent(b) && side != Unknown
    requires OnBookSides(t') && LevelAt(t', side, price).shares < SHARES_LIMIT
    requires forall s, p: nat :: s != side || p != price ==> LevelAt(t', s, p) == LevelAt(b.orders, s, p)
    requires levels' - {price} == b.LevelsFor(side) - {price}
    requires EntryRight(levels', t', side, price)
    ensures Consistent(b.WithLevels(side, levels').(orders := t'))
  {
    hide LevelAt, Indexes;
    var b' := b.WithLevels(side, levels').(orders := t');
    IndexStep(b.LevelsFor(side), b.orders, levels', t', side, price);
    IndexSame(b.LevelsFor(Other(side)), b.orders, t', Other(side));
  }

  function Other(side: Side): Side {
    if side == Buy then Sell else Buy
  }

  lemma IndexSame(levels: Levels, t: Orders, t': Orders, side: Side)
    requires Indexes(levels, t, side)
    requires forall p: nat :: LevelAt(t', side, p) == LevelAt(t, side, p)
    ensures Indexes(levels, t', side)
  {
    hide LevelAt;
    forall p: nat ensures EntryRight(levels, t', side, p) {
      assert EntryRight(levels, t, side, p);
    }
  }

  /** A decrease succeeds on a right entry and leaves the entry right for a table with that much less. */
  lemma DecreaseEntry(b: Book, t': Orders, side: Side, price: nat, sharesDelta: nat, countDelta: nat)
    requires side != Unknown && EntryRight(b.LevelsFor(side), b.orders, side, price)
    requires LevelAt(b.orders, side, price).shares < SHARES_LIMIT
    requires LevelAt(b.orders, side, price).shares == LevelAt(t', side, price).shares + sharesDelta
    requires LevelAt(b.orders, side, price).orderCount == LevelAt(t', side, price).orderCount + countDelta
    requires LevelAt(b.orders, side, price).orderCount > 0
    ensures var o := DecreaseLevel(b, side, price, sharesDelta, countDelta);
      && o.error == None && o.book == b.WithLevels(side, o.book.LevelsFor(side))
      && o.book.LevelsFor(side) - {price} == b.LevelsFor(side) - {price}
      && EntryRight(o.book.LevelsFor(side), t', side, price)
  {
  }

  lemma DecreaseRefines(b: Book, t': Orders, side: Side, price: nat, sharesDelta: nat, countDelta: nat)
    requires Consistent(b) && side != Unknown && OnBookSides(t')
    requires forall s, p: nat :: s != side || p != price ==> LevelAt(t', s, p) == LevelAt(b.orders, s, p)
    requires LevelAt(b.orders, side, price).shares == LevelAt(t', side, price).shares + sharesDelta
    requires LevelAt(b.orders, side, price).orderCount == LevelAt(t', side, price).orderCount + countDelta
    requires LevelAt(b.orders, side, price).orderCount > 0
    ensures var o := DecreaseLevel(b, side, price, sharesDelta, countDelta);
      o.error == None && o.book.orders == b.orders && Consistent(o.book.(orders := t'))
  {
    assert LevelAt(b.orders, side, price).shares < SHARES_LIMIT;
    EntryOf(b, side, price);
    DecreaseEntry(b, t', side, price, sharesDelta, countDelta);
    var levels' := DecreaseLevel(b, side, price, sharesDelta, countDelta).book.LevelsFor(side);
    ConsistentStep(b, t', side, price, levels');
  }

  lemma EntryOf(b: Book, side: Side, price: nat)
    requires Consistent(b) && side != Unknown
    ensures EntryRight(b.LevelsFor(side), b.orders, side, price)
  {
  }
}
