/** What every version of the book keeps true of a price level between
    operations, and how matching, resting and cancelling preserve it. */
module Levels {
  import opened Orders
  import opened PriceDeques

  /** `b` holds the same orders as `a`, changed at most in their quantity. */
  predicate SameExceptQuantity(a: map<Id, LimitOrder>, b: map<Id, LimitOrder>)
  {
    a.Keys == b.Keys && forall id | id in a :: b[id] == a[id].(quantity := b[id].quantity)
  }

  /** Why `cancel` fails: the identifier is not in `orders` (KeyError), the
      tree holds no level at the order's price (KeyError), or the order is not
      queued at its level any more, as happens to an order already filled
      (ValueError from `deque.remove`). */
  datatype CancelError = UnknownOrderId | MissingLevel | NotInLevel

  /** An order resting at level `p` has price `p`, and lies on its side of the
      book: a buy at or below the best bid, a sell at or above the best ask. */
  predicate RestsAt(o: LimitOrder, p: int, bidMax: int, askMin: int)
  {
    && o.price == p
    && (o.direction == Buy ==> p <= bidMax)
    && (o.direction == Sell ==> askMin <= p)
  }

  predicate Distinct(ids: seq<Id>)
  {
    forall i, j | 0 <= i < j < |ids| :: ids[i] != ids[j]
  }

  /** Level `p` holds registered, distinct orders that all rest at `p`. */
  predicate LevelHolds(level: PriceDeque, p: int, orders: map<Id, LimitOrder>, bidMax: int, askMin: int)
  {
    && level.price == p
    && Registered(level.ids, orders)
    && Distinct(level.ids)
    && forall i | 0 <= i < |level.ids| :: RestsAt(orders[level.ids[i]], p, bidMax, askMin)
  }

  function Max(a: int, b: int): int { if a < b then b else a }

  function Min(a: int, b: int): int { if a < b then a else b }

  /** Matching leaves a suffix of a level's queue and changes only quantities. */
  lemma LevelHoldsAfterMatch(
    level: PriceDeque, p: int, orders: map<Id, LimitOrder>, orders': map<Id, LimitOrder>,
    bidMax: int, askMin: int, queue': seq<Id>)
    requires LevelHolds(level, p, orders, bidMax, askMin)
    requires SameExceptQuantity(orders, orders')
    requires |queue'| <= |level.ids| && queue' == level.ids[|level.ids| - |queue'|..]
    ensures LevelHolds(level.(ids := queue'), p, orders', bidMax, askMin)
  {
    var k := |level.ids| - |queue'|;
    forall i | 0 <= i < |queue'|
      ensures queue'[i] in orders' && RestsAt(orders'[queue'[i]], p, bidMax, askMin)
    {
      assert queue'[i] == level.ids[k + i];
    }
    forall i, j | 0 <= i < j < |queue'|
      ensures queue'[i] != queue'[j]
    {
      assert queue'[i] == level.ids[k + i] && queue'[j] == level.ids[k + j];
    }
  }

  /** The same orders with changed quantities keep a level valid. */
  lemma LevelHoldsAfterQuantities(
    level: PriceDeque, p: int, orders: map<Id, LimitOrder>, orders': map<Id, LimitOrder>,
    bidMax: int, askMin: int)
    requires LevelHolds(level, p, orders, bidMax, askMin)
    requires SameExceptQuantity(orders, orders')
    ensures LevelHolds(level, p, orders', bidMax, askMin)
  {
    assert level.ids[0..] == level.ids;
    LevelHoldsAfterMatch(level, p, orders, orders', bidMax, askMin, level.ids);
  }

  /** Registering a new order keeps every level valid. */
  lemma LevelHoldsAfterRegister(
    level: PriceDeque, p: int, orders: map<Id, LimitOrder>, o: LimitOrder, bidMax: int, askMin: int)
    requires LevelHolds(level, p, orders, bidMax, askMin)
    requires o.id !in orders
    ensures LevelHolds(level, p, orders[o.id := o], bidMax, askMin)
  {
  }

  /** Appending a new order that rests at the level keeps it valid. */
  lemma LevelHoldsAfterAppend(
    level: PriceDeque, p: int, orders: map<Id, LimitOrder>, o: LimitOrder, bidMax: int, askMin: int)
    requires LevelHolds(level, p, orders, bidMax, askMin)
    requires o.id !in orders && RestsAt(o, p, bidMax, askMin)
    ensures LevelHolds(level.Append(o.id), p, orders[o.id := o], bidMax, askMin)
  {
    var ids' := level.Append(o.id).ids;
    forall i | 0 <= i < |ids'|
      ensures ids'[i] in orders[o.id := o] && RestsAt(orders[o.id := o][ids'[i]], p, bidMax, askMin)
    {
      if i < |level.ids| {
        assert ids'[i] == level.ids[i];
      }
    }
  }

  /** Cancelling from a level: the order leaves it and `orders`, the other
      orders stay valid, and the order is no longer queued there. */
  lemma LevelHoldsAfterRemove(
    level: PriceDeque, p: int, orders: map<Id, LimitOrder>, id: Id, bidMax: int, askMin: int)
    requires LevelHolds(level, p, orders, bidMax, askMin)
    requires id in level.ids
    ensures id !in level.Remove(id).ids
    ensures LevelHolds(level.Remove(id), p, orders - {id}, bidMax, askMin)
  {
    var i := IndexOf(level.ids, id);
    var ids', orders' := level.Remove(id).ids, orders - {id};
    assert |ids'| == |level.ids| - 1;
    assert forall k | 0 <= k < |ids'| :: ids'[k] == (if k < i then level.ids[k] else level.ids[k + 1]);
    forall k | 0 <= k < |ids'|
      ensures ids'[k] != id && ids'[k] in orders' && RestsAt(orders'[ids'[k]], p, bidMax, askMin)
    {
    }
  }

  /** A level that does not queue `id` is unaffected by deleting its record. */
  lemma LevelHoldsAfterDelete(
    level: PriceDeque, p: int, orders: map<Id, LimitOrder>, id: Id, bidMax: int, askMin: int)
    requires LevelHolds(level, p, orders, bidMax, askMin)
    requires id !in level.ids
    ensures LevelHolds(level, p, orders - {id}, bidMax, askMin)
  {
  }

  /** An order queued at a valid level has that level's price, so it is
      queued at no other. */
  lemma QueuedAtItsPrice(level: PriceDeque, p: int, orders: map<Id, LimitOrder>, id: Id, bidMax: int, askMin: int)
    requires LevelHolds(level, p, orders, bidMax, askMin)
    requires id in orders && orders[id].price != p
    ensures id !in level.ids
  {
  }

  /** Moving the cursors keeps a level valid when the level is empty or lies
      outside the stretch the cursors move over. */
  lemma LevelHoldsAfterCursorMove(
    level: PriceDeque, p: int, orders: map<Id, LimitOrder>,
    bidMax: int, askMin: int, bidMax': int, askMin': int)
    requires LevelHolds(level, p, orders, bidMax, askMin)
    requires level.ids == [] || (!(bidMax' < p <= bidMax) && !(askMin <= p < askMin'))
    ensures LevelHolds(level, p, orders, bidMax', askMin')
  {
  }

  /** On a valid level no order is both a buy and a sell: when the cursors
      are uncrossed, a non-empty level lies on one side of the spread. */
  lemma NonEmptyLevelIsOutsideSpread(level: PriceDeque, p: int, orders: map<Id, LimitOrder>, bidMax: int, askMin: int)
    requires LevelHolds(level, p, orders, bidMax, askMin)
    requires level.ids != []
    ensures p <= bidMax || askMin <= p
  {
    assert RestsAt(orders[level.ids[0]], p, bidMax, askMin);
  }

  // Flat arrays of levels, level `p` at index `p`.

  /** Every level `p` of `ls` is valid at price `p`. */
  predicate LevelsHold(ls: seq<PriceDeque>, orders: map<Id, LimitOrder>, bidMax: int, askMin: int)
  {
    forall p | 0 <= p < |ls| :: LevelHolds(ls[p], p, orders, bidMax, askMin)
  }

  /** Matching at level `p` keeps every level valid. */
  lemma LevelsHoldAfterMatch(
    ls: seq<PriceDeque>, p: int, orders: map<Id, LimitOrder>, orders': map<Id, LimitOrder>,
    bidMax: int, askMin: int, queue': seq<Id>)
    requires LevelsHold(ls, orders, bidMax, askMin) && 0 <= p < |ls|
    requires SameExceptQuantity(orders, orders')
    requires |queue'| <= |ls[p].ids| && queue' == ls[p].ids[|ls[p].ids| - |queue'|..]
    ensures LevelsHold(ls[p := ls[p].(ids := queue')], orders', bidMax, askMin)
  {
    var ls' := ls[p := ls[p].(ids := queue')];
    forall k | 0 <= k < |ls'|
      ensures LevelHolds(ls'[k], k, orders', bidMax, askMin)
    {
      if k == p {
        LevelHoldsAfterMatch(ls[p], p, orders, orders', bidMax, askMin, queue');
      } else {
        LevelHoldsAfterQuantities(ls[k], k, orders, orders', bidMax, askMin);
      }
    }
  }

  /** Resting a new order at its own price keeps every level valid. */
  lemma LevelsHoldAfterAppend(
    ls: seq<PriceDeque>, orders: map<Id, LimitOrder>, o: LimitOrder, bidMax: int, askMin: int)
    requires LevelsHold(ls, orders, bidMax, askMin) && 0 <= o.price < |ls|
    requires o.id !in orders && RestsAt(o, o.price, bidMax, askMin)
    ensures LevelsHold(ls[o.price := ls[o.price].Append(o.id)], orders[o.id := o], bidMax, askMin)
  {
    var ls' := ls[o.price := ls[o.price].Append(o.id)];
    forall k | 0 <= k < |ls'|
      ensures LevelHolds(ls'[k], k, orders[o.id := o], bidMax, askMin)
    {
      if k == o.price {
        LevelHoldsAfterAppend(ls[k], k, orders, o, bidMax, askMin);
      } else {
        LevelHoldsAfterRegister(ls[k], k, orders, o, bidMax, askMin);
      }
    }
  }

  /** Cancelling an order queued at its price keeps every level valid. */
  lemma LevelsHoldAfterCancel(
    ls: seq<PriceDeque>, orders: map<Id, LimitOrder>, id: Id, bidMax: int, askMin: int)
    requires LevelsHold(ls, orders, bidMax, askMin)
    requires id in orders && 0 <= orders[id].price < |ls| && id in ls[orders[id].price].ids
    ensures var p := orders[id].price;
      LevelsHold(ls[p := ls[p].Remove(id)], orders - {id}, bidMax, askMin)
  {
    var p := orders[id].price;
    var ls' := ls[p := ls[p].Remove(id)];
    forall k | 0 <= k < |ls'|
      ensures LevelHolds(ls'[k], k, orders - {id}, bidMax, askMin)
    {
      if k == p {
        LevelHoldsAfterRemove(ls[k], k, orders, id, bidMax, askMin);
      } else {
        QueuedAtItsPrice(ls[k], k, orders, id, bidMax, askMin);
        LevelHoldsAfterDelete(ls[k], k, orders, id, bidMax, askMin);
      }
    }
  }

  /** Moving the cursors keeps every level valid when each level the move
      passes over is empty (always so when the spread only widens). */
  lemma LevelsHoldAfterCursorMove(
    ls: seq<PriceDeque>, orders: map<Id, LimitOrder>, bidMax: int, askMin: int, bidMax': int, askMin': int)
    requires LevelsHold(ls, orders, bidMax, askMin)
    requires forall p | 0 <= p < |ls| && (bidMax' < p <= bidMax || askMin <= p < askMin') :: ls[p].ids == []
    ensures LevelsHold(ls, orders, bidMax', askMin')
  {
    forall p | 0 <= p < |ls|
      ensures LevelHolds(ls[p], p, orders, bidMax', askMin')
    {
      LevelHoldsAfterCursorMove(ls[p], p, orders, bidMax, askMin, bidMax', askMin');
    }
  }
}
