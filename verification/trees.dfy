/** The ordered-map view of a `bintrees.FastAVLTree` of price levels, as the
    two tree books use it: `min_item`, `max_item`, `succ_item` and
    `prev_item` on the keys, the per-side validity of the levels, and
    `_add_order_to_queue`'s insert-or-append. Balancing is not modelled. */
module Trees {
  import opened Orders
  import opened PriceDeques
  import opened Levels
  import opened Matching

  /** A set with no element is the empty set. */
  lemma NoElementMeansEmpty(s: set<int>)
    ensures (forall x :: x !in s) ==> s == {}
  {
    if forall x :: x !in s {
      assert s == {};
    }
  }

  lemma HasElement(s: set<int>)
    requires s != {}
    ensures exists x :: x in s
  {
    NoElementMeansEmpty(s);
  }

  lemma {:induction false} MinExists(s: set<int>)
    requires s != {}
    ensures exists m :: m in s && forall k | k in s :: m <= k
    decreases |s|
  {
    HasElement(s);
    var x :| x in s;
    if s != {x} {
      MinExists(s - {x});
      var m :| m in s - {x} && forall k | k in s - {x} :: m <= k;
      if x < m {
        forall k | k in s
          ensures x <= k
        {
          if k != x {
            assert k in s - {x};
          }
        }
      } else {
        forall k | k in s
          ensures m <= k
        {
          if k != x {
            assert k in s - {x};
          }
        }
      }
    } else {
      assert forall k | k in s :: x <= k;
    }
  }

  lemma {:induction false} MaxExists(s: set<int>)
    requires s != {}
    ensures exists m :: m in s && forall k | k in s :: k <= m
    decreases |s|
  {
    HasElement(s);
    var x :| x in s;
    if s != {x} {
      MaxExists(s - {x});
      var m :| m in s - {x} && forall k | k in s - {x} :: k <= m;
      if m < x {
        forall k | k in s
          ensures k <= x
        {
          if k != x {
            assert k in s - {x};
          }
        }
      } else {
        forall k | k in s
          ensures k <= m
        {
          if k != x {
            assert k in s - {x};
          }
        }
      }
    } else {
      assert forall k | k in s :: k <= x;
    }
  }

  /** `min_item()[0]`. */
  function MinKey(s: set<int>): (m: int)
    requires s != {}
    ensures m in s && forall k | k in s :: m <= k
  {
    MinExists(s);
    var m :| m in s && forall k | k in s :: m <= k;
    m
  }

  /** `max_item()[0]`. */
  function MaxKey(s: set<int>): (m: int)
    requires s != {}
    ensures m in s && forall k | k in s :: k <= m
  {
    MaxExists(s);
    var m :| m in s && forall k | k in s :: k <= m;
    m
  }

  /** A key no greater than every key is the least one. */
  lemma MinKeyIs(s: set<int>, m: int)
    requires m in s && forall k | k in s :: m <= k
    ensures MinKey(s) == m
  {
  }

  /** A key no less than every key is the greatest one. */
  lemma MaxKeyIs(s: set<int>, m: int)
    requires m in s && forall k | k in s :: k <= m
    ensures MaxKey(s) == m
  {
  }

  /** `succ_item(p)[0]`: the least key above `p`; bintrees raises KeyError
      when `p` is not a key or is the largest one. */
  function Succ(s: set<int>, p: int): (q: int)
    requires p in s && p < MaxKey(s)
    ensures q in s && p < q && forall k | k in s && p < k :: q <= k
  {
    var above := set k | k in s && p < k;
    assert MaxKey(s) in above;
    assert forall k | k in s && p < k :: k in above;
    MinKey(above)
  }

  /** `prev_item(p)[0]`: the greatest key below `p`, under the same
      conditions mirrored. */
  function Pred(s: set<int>, p: int): (q: int)
    requires p in s && MinKey(s) < p
    ensures q in s && q < p && forall k | k in s && k < p :: k <= q
  {
    var below := set k | k in s && k < p;
    assert MinKey(s) in below;
    assert forall k | k in s && k < p :: k in below;
    MaxKey(below)
  }

  /** `cur` is what is left of the keys `all` once some of the lowest, all
      at or below `limit`, were removed: the removed keys lie below every key
      left. */
  predicate LowestRemoved(all: set<int>, cur: set<int>, limit: int)
  {
    && cur <= all
    && forall p | p in all && p !in cur :: p <= limit && (cur != {} ==> p < MinKey(cur))
  }

  /** Removing the least key left, when it is at or below `limit`, removes
      one more of the lowest. */
  lemma LowestRemovedStep(all: set<int>, cur: set<int>, limit: int, m: int)
    requires LowestRemoved(all, cur, limit)
    requires m in cur && m <= limit && forall q | q in cur :: m <= q
    ensures LowestRemoved(all, cur - {m}, limit)
  {
  }

  /** The mirror image: some of the highest keys, all at or above `limit`,
      were removed. */
  predicate HighestRemoved(all: set<int>, cur: set<int>, limit: int)
  {
    && cur <= all
    && forall p | p in all && p !in cur :: limit <= p && (cur != {} ==> MaxKey(cur) < p)
  }

  lemma HighestRemovedStep(all: set<int>, cur: set<int>, limit: int, m: int)
    requires HighestRemoved(all, cur, limit)
    requires m in cur && limit <= m && forall q | q in cur :: q <= m
    ensures HighestRemoved(all, cur - {m}, limit)
  {
  }

  /** The tree after one round of a sweep at its level `at`: the level's
      queue becomes what matching left of it, and the level then leaves the
      tree unless the incoming order was completed there. No other level
      changes. */
  function AfterRound(tree: map<int, PriceDeque>, at: int, queue: seq<Id>, filled: bool): (t: map<int, PriceDeque>)
    requires at in tree
    ensures filled ==> t.Keys == tree.Keys && t[at] == tree[at].(ids := queue)
    ensures !filled ==> t.Keys == tree.Keys - {at}
    ensures forall p | p in t && p != at :: t[p] == tree[p]
  {
    var t := tree[at := tree[at].(ids := queue)];
    if filled then t else t - {at}
  }

  /** What a sweep upward from the lowest key, bounded by `limit`, leaves of
      the tree `all`: some of its lowest levels, all at or below `limit`,
      were removed, and the levels left are as they were. */
  predicate SweptUp(all: map<int, PriceDeque>, cur: map<int, PriceDeque>, limit: int)
  {
    LowestRemoved(all.Keys, cur.Keys, limit) && forall p | p in cur :: cur[p] == all[p]
  }

  /** A round that exhausts the lowest level, at or below `limit`, keeps the
      sweep upward. */
  lemma SweptUpStep(all: map<int, PriceDeque>, cur: map<int, PriceDeque>, limit: int, at: int, queue: seq<Id>)
    requires SweptUp(all, cur, limit)
    requires at in cur && at <= limit && forall q | q in cur :: at <= q
    ensures SweptUp(all, AfterRound(cur, at, queue, false), limit)
  {
    LowestRemovedStep(all.Keys, cur.Keys, limit, at);
  }

  /** A round that completes the incoming order at the lowest level keeps
      every key, and changes no level but that one. */
  lemma SweptUpLast(all: map<int, PriceDeque>, cur: map<int, PriceDeque>, limit: int, at: int, queue: seq<Id>)
    requires SweptUp(all, cur, limit) && at in cur
    ensures var t := AfterRound(cur, at, queue, true);
      && LowestRemoved(all.Keys, t.Keys, limit)
      && forall p | p in t && p != at :: t[p] == all[p]
  {
  }

  /** After a sweep upward, the keys left are exactly those of `all` at or
      above `best`, the least key left (or, with none left, a bound above
      every key of `all`). */
  lemma LowestRemovedFrom(all: set<int>, cur: set<int>, limit: int, best: int)
    requires LowestRemoved(all, cur, limit)
    requires cur != {} ==> best in cur && forall q | q in cur :: best <= q
    requires cur == {} ==> forall p | p in all :: p < best
    ensures forall p | p in all :: p in cur <==> best <= p
  {
    if cur != {} {
      MinKeyIs(cur, best);
    }
  }

  /** The mirror image: a sweep downward from the highest key, bounded by
      `limit`. */
  predicate SweptDown(all: map<int, PriceDeque>, cur: map<int, PriceDeque>, limit: int)
  {
    HighestRemoved(all.Keys, cur.Keys, limit) && forall p | p in cur :: cur[p] == all[p]
  }

  /** The mirror image of `LowestRemovedFrom`. */
  lemma HighestRemovedFrom(all: set<int>, cur: set<int>, limit: int, best: int)
    requires HighestRemoved(all, cur, limit)
    requires cur != {} ==> best in cur && forall q | q in cur :: q <= best
    requires cur == {} ==> forall p | p in all :: best < p
    ensures forall p | p in all :: p in cur <==> p <= best
  {
    if cur != {} {
      MaxKeyIs(cur, best);
    }
  }

  lemma SweptDownStep(all: map<int, PriceDeque>, cur: map<int, PriceDeque>, limit: int, at: int, queue: seq<Id>)
    requires SweptDown(all, cur, limit)
    requires at in cur && limit <= at && forall q | q in cur :: q <= at
    ensures SweptDown(all, AfterRound(cur, at, queue, false), limit)
  {
    HighestRemovedStep(all.Keys, cur.Keys, limit, at);
  }

  lemma SweptDownLast(all: map<int, PriceDeque>, cur: map<int, PriceDeque>, limit: int, at: int, queue: seq<Id>)
    requires SweptDown(all, cur, limit) && at in cur
    ensures var t := AfterRound(cur, at, queue, true);
      && HighestRemoved(all.Keys, t.Keys, limit)
      && forall p | p in t && p != at :: t[p] == all[p]
  {
  }

  /** A level of the side `d`'s tree: valid, and holding orders of side `d`
      only (the cursors are placed so that a buy rests only on the bid
      side and a sell only on the ask side). */
  predicate OnSide(level: PriceDeque, p: int, orders: map<Id, LimitOrder>, d: Direction)
  {
    LevelHolds(level, p, orders, if d == Buy then p else p - 1, if d == Buy then p + 1 else p)
  }

  predicate SideHolds(tree: map<int, PriceDeque>, orders: map<Id, LimitOrder>, d: Direction)
  {
    forall p {:trigger OnSide(tree[p], p, orders, d)} | p in tree :: OnSide(tree[p], p, orders, d)
  }

  /** The orders queued on side `d` are of direction `d`. */
  lemma OnSideDirection(level: PriceDeque, p: int, orders: map<Id, LimitOrder>, d: Direction, i: int)
    requires OnSide(level, p, orders, d) && 0 <= i < |level.ids|
    ensures orders[level.ids[i]].direction == d && orders[level.ids[i]].price == p
  {
    assert RestsAt(orders[level.ids[i]], p, if d == Buy then p else p - 1, if d == Buy then p + 1 else p);
  }

  /** `_add_order_to_queue` on one tree: a new price gets a one-order level,
      an existing price gets the order appended at its tail. */
  function InsertOrAppend(tree: map<int, PriceDeque>, o: LimitOrder): (t: map<int, PriceDeque>)
    ensures t.Keys == tree.Keys + {o.price}
    ensures o.price !in tree ==> t[o.price] == PriceDeque(o.price, [o.id])
    ensures o.price in tree ==> t[o.price].ids == tree[o.price].ids + [o.id] && t[o.price].price == tree[o.price].price
    ensures forall p | p in tree && p != o.price :: t[p] == tree[p]
  {
    if o.price !in tree then tree[o.price := PriceDeque(o.price, [o.id])]
    else tree[o.price := tree[o.price].Append(o.id)]
  }

  lemma SideHoldsAfterMatch(
    tree: map<int, PriceDeque>, p: int, orders: map<Id, LimitOrder>, orders': map<Id, LimitOrder>,
    d: Direction, queue': seq<Id>)
    requires SideHolds(tree, orders, d) && p in tree
    requires SameExceptQuantity(orders, orders')
    requires |queue'| <= |tree[p].ids| && queue' == tree[p].ids[|tree[p].ids| - |queue'|..]
    ensures SideHolds(tree[p := tree[p].(ids := queue')], orders', d)
  {
    var t := tree[p := tree[p].(ids := queue')];
    forall k | k in t
      ensures OnSide(t[k], k, orders', d)
    {
      var b, a := if d == Buy then k else k - 1, if d == Buy then k + 1 else k;
      if k == p {
        assert OnSide(tree[k], k, orders, d);
        LevelHoldsAfterMatch(tree[k], k, orders, orders', b, a, queue');
      } else {
        assert OnSide(tree[k], k, orders, d);
        LevelHoldsAfterQuantities(tree[k], k, orders, orders', b, a);
      }
    }
  }

  lemma SideHoldsAfterQuantities(
    tree: map<int, PriceDeque>, orders: map<Id, LimitOrder>, orders': map<Id, LimitOrder>, d: Direction)
    requires SideHolds(tree, orders, d)
    requires SameExceptQuantity(orders, orders')
    ensures SideHolds(tree, orders', d)
  {
    forall k | k in tree
      ensures OnSide(tree[k], k, orders', d)
    {
      assert OnSide(tree[k], k, orders, d);
      LevelHoldsAfterQuantities(tree[k], k, orders, orders', if d == Buy then k else k - 1, if d == Buy then k + 1 else k);
    }
  }

  /** Resting a new order of side `d` keeps that side valid; registering it
      keeps any side valid. */
  lemma SideHoldsAfterRest(tree: map<int, PriceDeque>, orders: map<Id, LimitOrder>, o: LimitOrder)
    requires SideHolds(tree, orders, o.direction) && o.id !in orders
    ensures SideHolds(InsertOrAppend(tree, o), orders[o.id := o], o.direction)
  {
    var t := InsertOrAppend(tree, o);
    var d := o.direction;
    forall k | k in t
      ensures OnSide(t[k], k, orders[o.id := o], d)
    {
      var b, a := if d == Buy then k else k - 1, if d == Buy then k + 1 else k;
      if k == o.price {
        if k in tree {
          assert OnSide(tree[k], k, orders, d);
          LevelHoldsAfterAppend(tree[k], k, orders, o, b, a);
        } else {
          LevelHoldsAfterAppend(PriceDeque(k, []), k, orders, o, b, a);
        }
      } else {
        assert OnSide(tree[k], k, orders, d);
        LevelHoldsAfterRegister(tree[k], k, orders, o, b, a);
      }
    }
  }

  lemma SideHoldsAfterRegister(tree: map<int, PriceDeque>, orders: map<Id, LimitOrder>, o: LimitOrder, d: Direction)
    requires SideHolds(tree, orders, d) && o.id !in orders
    ensures SideHolds(tree, orders[o.id := o], d)
  {
    forall k | k in tree
      ensures OnSide(tree[k], k, orders[o.id := o], d)
    {
      assert OnSide(tree[k], k, orders, d);
      LevelHoldsAfterRegister(tree[k], k, orders, o, if d == Buy then k else k - 1, if d == Buy then k + 1 else k);
    }
  }

  /** Cancelling an order queued at its level keeps its side valid. */
  lemma SideHoldsAfterCancel(tree: map<int, PriceDeque>, orders: map<Id, LimitOrder>, id: Id, p: int, d: Direction)
    requires SideHolds(tree, orders, d) && p in tree && id in tree[p].ids
    ensures SideHolds(tree[p := tree[p].Remove(id)], orders - {id}, d)
  {
    var t := tree[p := tree[p].Remove(id)];
    var i := IndexOf(tree[p].ids, id);
    assert OnSide(tree[p], p, orders, d);
    OnSideDirection(tree[p], p, orders, d, i);
    forall k | k in t
      ensures OnSide(t[k], k, orders - {id}, d)
    {
      var b, a := if d == Buy then k else k - 1, if d == Buy then k + 1 else k;
      if k == p {
        assert OnSide(tree[k], k, orders, d);
        LevelHoldsAfterRemove(tree[k], k, orders, id, b, a);
      } else {
        assert OnSide(tree[k], k, orders, d);
        QueuedAtItsPrice(tree[k], k, orders, id, b, a);
        assert OnSide(tree[k], k, orders, d);
        LevelHoldsAfterDelete(tree[k], k, orders, id, b, a);
      }
    }
  }

  /** Deleting the record of an order of the other side leaves a side valid. */
  lemma SideHoldsAfterDelete(tree: map<int, PriceDeque>, orders: map<Id, LimitOrder>, id: Id, d: Direction)
    requires SideHolds(tree, orders, d) && id in orders && orders[id].direction != d
    ensures SideHolds(tree, orders - {id}, d)
  {
    forall k | k in tree
      ensures OnSide(tree[k], k, orders - {id}, d)
    {
      var b, a := if d == Buy then k else k - 1, if d == Buy then k + 1 else k;
      forall i | 0 <= i < |tree[k].ids|
        ensures tree[k].ids[i] != id
      {
        assert OnSide(tree[k], k, orders, d);
        OnSideDirection(tree[k], k, orders, d, i);
      }
      assert OnSide(tree[k], k, orders, d);
      LevelHoldsAfterDelete(tree[k], k, orders, id, b, a);
    }
  }

  /** Matching one level of side `d` leaves a suffix of its queue, changes
      only quantities, and gives trades that add up as the level loop
      promises and stay within the incoming order's limit when the level's
      price does. */
  lemma LevelMatchOnSide(
    rules: TradeRules, level: PriceDeque, at: int, orders: map<Id, LimitOrder>, d: Direction,
    inc: Incoming, remaining: int)
    requires rules.finalQuantity == FilledQuantity
    requires OnSide(level, at, orders, d)
    ensures Registered(level.ids, orders)
    ensures var o := MatchLevelSpec(rules, inc, remaining, level.ids, orders);
      && SameExceptQuantity(orders, o.orders)
      && |o.queue| <= |level.ids| && o.queue == level.ids[|level.ids| - |o.queue|..]
      && (o.filled ==> o.trades != [] && Last(o.trades).quantity == o.remaining)
      && (o.filled ==> TotalQuantity(o.trades) == remaining)
      && (!o.filled ==> o.queue == [] && TotalQuantity(o.trades) + o.remaining == remaining)
      && (Crosses(inc, at) ==> TradesOf(o.trades, inc))
  {
    MatchLevelTouchesOnlyFront(rules, inc, remaining, level.ids, orders);
    MatchLevelConserves(rules, inc, remaining, level.ids, orders);
    MatchLevelFifo(rules, inc, remaining, level.ids, orders);
    if Crosses(inc, at) {
      forall i | 0 <= i < |level.ids|
        ensures Crosses(inc, orders[level.ids[i]].price)
      {
        OnSideDirection(level, at, orders, d, i);
      }
      MatchLevelWithinLimit(rules, inc, remaining, level.ids, orders);
    }
  }

  /** Matching the level at key `at` of the tree of side `d` leaves that
      tree valid with the level's new queue, and the tree `other` of side `e`
      valid as it is; fills change only quantities, and the trades add up as
      the level loop promises and stay within the incoming order's limit
      when `at` does. */
  lemma SidesHoldAfterMatch(
    rules: TradeRules, tree: map<int, PriceDeque>, d: Direction, other: map<int, PriceDeque>, e: Direction,
    orders: map<Id, LimitOrder>, at: int, inc: Incoming, remaining: int)
    requires rules.finalQuantity == FilledQuantity
    requires SideHolds(tree, orders, d) && SideHolds(other, orders, e) && at in tree
    ensures Registered(tree[at].ids, orders)
    ensures var o := MatchLevelSpec(rules, inc, remaining, tree[at].ids, orders);
      && SideHolds(tree[at := tree[at].(ids := o.queue)], o.orders, d)
      && SideHolds(other, o.orders, e)
      && SameExceptQuantity(orders, o.orders)
      && (o.filled ==> o.trades != [] && Last(o.trades).quantity == o.remaining)
      && (o.filled ==> TotalQuantity(o.trades) == remaining)
      && (!o.filled ==> o.queue == [] && TotalQuantity(o.trades) + o.remaining == remaining)
      && (Crosses(inc, at) ==> TradesOf(o.trades, inc))
  {
    assert OnSide(tree[at], at, orders, d);
    LevelMatchOnSide(rules, tree[at], at, orders, d, inc, remaining);
    var o := MatchLevelSpec(rules, inc, remaining, tree[at].ids, orders);
    SideHoldsAfterMatch(tree, at, orders, o.orders, d, o.queue);
    SideHoldsAfterQuantities(other, orders, o.orders, e);
  }

  /** Every level of `tree` queues registered orders only. */
  ghost predicate TreeRegistered(tree: map<int, PriceDeque>, orders: map<Id, LimitOrder>)
  {
    forall p | p in tree :: Registered(tree[p].ids, orders)
  }

  lemma SideHoldsRegistered(tree: map<int, PriceDeque>, orders: map<Id, LimitOrder>, d: Direction)
    requires SideHolds(tree, orders, d)
    ensures TreeRegistered(tree, orders)
  {
    forall p | p in tree
      ensures Registered(tree[p].ids, orders)
    {
      assert OnSide(tree[p], p, orders, d);
    }
  }

  /** A round of a sweep leaves every level queueing registered orders. */
  lemma TreeRegisteredAfterRound(
    rules: TradeRules, inc: Incoming, remaining: int, tree: map<int, PriceDeque>,
    orders: map<Id, LimitOrder>, at: int)
    requires TreeRegistered(tree, orders) && at in tree
    ensures var o := MatchLevelSpec(rules, inc, remaining, tree[at].ids, orders);
      TreeRegistered(AfterRound(tree, at, o.queue, o.filled), o.orders)
  {
    MatchLevelTouchesOnlyFront(rules, inc, remaining, tree[at].ids, orders);
  }

  /** The buy loop of `add` over the tree of asks, as a reference, in three
      stages: the sweep stops when the tree is empty (`SweepUpTree`) or when
      its lowest level lies above `limit` (`SweepUpLowest`); otherwise the
      level loop runs on that level (`SweepUpRound`), which leaves the tree
      unless it completed the incoming order, and the sweep goes on. `at` is
      the level that completed the order, or one past `limit`. */
  ghost function SweepUpTree(
    rules: TradeRules, inc: Incoming, remaining: int, tree: map<int, PriceDeque>,
    orders: map<Id, LimitOrder>, limit: int): SweepOutcome<map<int, PriceDeque>>
    requires TreeRegistered(tree, orders)
    decreases tree.Keys, 2
  {
    if tree.Keys == {} then SweepOutcome(tree, orders, remaining, [], false, limit + 1)
    else SweepUpLowest(rules, inc, remaining, tree, orders, limit)
  }

  ghost function SweepUpLowest(
    rules: TradeRules, inc: Incoming, remaining: int, tree: map<int, PriceDeque>,
    orders: map<Id, LimitOrder>, limit: int): SweepOutcome<map<int, PriceDeque>>
    requires TreeRegistered(tree, orders) && tree.Keys != {}
    decreases tree.Keys, 1
  {
    if limit < MinKey(tree.Keys) then SweepOutcome(tree, orders, remaining, [], false, limit + 1)
    else SweepUpRound(rules, inc, remaining, tree, orders, limit, MinKey(tree.Keys))
  }

  ghost function SweepUpRound(
    rules: TradeRules, inc: Incoming, remaining: int, tree: map<int, PriceDeque>,
    orders: map<Id, LimitOrder>, limit: int, at: int): SweepOutcome<map<int, PriceDeque>>
    requires TreeRegistered(tree, orders) && at in tree
    decreases tree.Keys, 0
  {
    var o := MatchLevelSpec(rules, inc, remaining, tree[at].ids, orders);
    var t := AfterRound(tree, at, o.queue, o.filled);
    TreeRegisteredAfterRound(rules, inc, remaining, tree, orders, at);
    if o.filled then SweepOutcome(t, o.orders, o.remaining, o.trades, true, at)
    else PrependSweep(o.trades, SweepUpTree(rules, inc, o.remaining, t, o.orders, limit))
  }

  /** The sell loop of `add` over the tree of bids: the mirror image of
      `SweepUpTree`, from the highest level down to `limit`; `at` is the level
      that completed the order, or one below `limit`. */
  ghost function SweepDownTree(
    rules: TradeRules, inc: Incoming, remaining: int, tree: map<int, PriceDeque>,
    orders: map<Id, LimitOrder>, limit: int): SweepOutcome<map<int, PriceDeque>>
    requires TreeRegistered(tree, orders)
    decreases tree.Keys, 2
  {
    if tree.Keys == {} then SweepOutcome(tree, orders, remaining, [], false, limit - 1)
    else SweepDownHighest(rules, inc, remaining, tree, orders, limit)
  }

  ghost function SweepDownHighest(
    rules: TradeRules, inc: Incoming, remaining: int, tree: map<int, PriceDeque>,
    orders: map<Id, LimitOrder>, limit: int): SweepOutcome<map<int, PriceDeque>>
    requires TreeRegistered(tree, orders) && tree.Keys != {}
    decreases tree.Keys, 1
  {
    if MaxKey(tree.Keys) < limit then SweepOutcome(tree, orders, remaining, [], false, limit - 1)
    else SweepDownRound(rules, inc, remaining, tree, orders, limit, MaxKey(tree.Keys))
  }

  ghost function SweepDownRound(
    rules: TradeRules, inc: Incoming, remaining: int, tree: map<int, PriceDeque>,
    orders: map<Id, LimitOrder>, limit: int, at: int): SweepOutcome<map<int, PriceDeque>>
    requires TreeRegistered(tree, orders) && at in tree
    decreases tree.Keys, 0
  {
    var o := MatchLevelSpec(rules, inc, remaining, tree[at].ids, orders);
    var t := AfterRound(tree, at, o.queue, o.filled);
    TreeRegisteredAfterRound(rules, inc, remaining, tree, orders, at);
    if o.filled then SweepOutcome(t, o.orders, o.remaining, o.trades, true, at)
    else PrependSweep(o.trades, SweepDownTree(rules, inc, o.remaining, t, o.orders, limit))
  }

  /** A sweep upward that finds no level within `limit` changes nothing. */
  lemma SweepUpTreeStops(
    rules: TradeRules, inc: Incoming, remaining: int, tree: map<int, PriceDeque>,
    orders: map<Id, LimitOrder>, limit: int)
    requires TreeRegistered(tree, orders)
    requires tree.Keys == {} || limit < MinKey(tree.Keys)
    ensures SweepUpTree(rules, inc, remaining, tree, orders, limit) == SweepOutcome(tree, orders, remaining, [], false, limit + 1)
  {
  }

  lemma SweepDownTreeStops(
    rules: TradeRules, inc: Incoming, remaining: int, tree: map<int, PriceDeque>,
    orders: map<Id, LimitOrder>, limit: int)
    requires TreeRegistered(tree, orders)
    requires tree.Keys == {} || MaxKey(tree.Keys) < limit
    ensures SweepDownTree(rules, inc, remaining, tree, orders, limit) == SweepOutcome(tree, orders, remaining, [], false, limit - 1)
  {
  }

  /** A sweep upward whose lowest level is within `limit` runs a round
      there: matching its queue, then going on unless the order was
      completed. */
  lemma SweepUpTreeRound(
    rules: TradeRules, inc: Incoming, remaining: int, tree: map<int, PriceDeque>,
    orders: map<Id, LimitOrder>, limit: int)
    requires TreeRegistered(tree, orders)
    requires tree.Keys != {} && MinKey(tree.Keys) <= limit
    ensures var at := MinKey(tree.Keys);
      var o := MatchLevelSpec(rules, inc, remaining, tree[at].ids, orders);
      var t := AfterRound(tree, at, o.queue, o.filled);
      && TreeRegistered(t, o.orders)
      && SweepUpTree(rules, inc, remaining, tree, orders, limit) ==
        if o.filled then SweepOutcome(t, o.orders, o.remaining, o.trades, true, at)
        else PrependSweep(o.trades, SweepUpTree(rules, inc, o.remaining, t, o.orders, limit))
  {
    TreeRegisteredAfterRound(rules, inc, remaining, tree, orders, MinKey(tree.Keys));
    assert SweepUpTree(rules, inc, remaining, tree, orders, limit)
      == SweepUpRound(rules, inc, remaining, tree, orders, limit, MinKey(tree.Keys));
  }

  lemma SweepDownTreeRound(
    rules: TradeRules, inc: Incoming, remaining: int, tree: map<int, PriceDeque>,
    orders: map<Id, LimitOrder>, limit: int)
    requires TreeRegistered(tree, orders)
    requires tree.Keys != {} && limit <= MaxKey(tree.Keys)
    ensures var at := MaxKey(tree.Keys);
      var o := MatchLevelSpec(rules, inc, remaining, tree[at].ids, orders);
      var t := AfterRound(tree, at, o.queue, o.filled);
      && TreeRegistered(t, o.orders)
      && SweepDownTree(rules, inc, remaining, tree, orders, limit) ==
        if o.filled then SweepOutcome(t, o.orders, o.remaining, o.trades, true, at)
        else PrependSweep(o.trades, SweepDownTree(rules, inc, o.remaining, t, o.orders, limit))
  {
    TreeRegisteredAfterRound(rules, inc, remaining, tree, orders, MaxKey(tree.Keys));
    assert SweepDownTree(rules, inc, remaining, tree, orders, limit)
      == SweepDownRound(rules, inc, remaining, tree, orders, limit, MaxKey(tree.Keys));
  }

  /** A round of a sweep keeps a side valid. */
  lemma SideHoldsAfterRound(
    tree: map<int, PriceDeque>, orders: map<Id, LimitOrder>, d: Direction, at: int, queue: seq<Id>, filled: bool)
    requires at in tree && SideHolds(tree[at := tree[at].(ids := queue)], orders, d)
    ensures SideHolds(AfterRound(tree, at, queue, filled), orders, d)
  {
    var u := tree[at := tree[at].(ids := queue)];
    var t := AfterRound(tree, at, queue, filled);
    forall p | p in t
      ensures OnSide(t[p], p, orders, d)
    {
      assert OnSide(u[p], p, orders, d);
    }
  }

  /** What the sweep of a buy at `limit` over a valid ask tree promises: the
      side stays valid, fills change only quantities, every trade has the
      buyer on the buy side at a price within its limit, and the quantities
      add up. Unless it completed the buy, it removed exactly the levels at
      or below `limit`, lowest first; if it did, it stopped at the lowest
      level left, at or below `limit`, having removed only lower ones, and no
      other level changed. `all` is the tree before any earlier rounds. */
  lemma {:induction false} SweepUpTreeHolds(
    rules: TradeRules, inc: Incoming, remaining: int, all: map<int, PriceDeque>,
    tree: map<int, PriceDeque>, orders: map<Id, LimitOrder>, limit: int)
    requires rules.finalQuantity == FilledQuantity
    requires inc.direction == Buy && inc.price == limit
    requires SideHolds(tree, orders, Sell) && SweptUp(all, tree, limit)
    ensures TreeRegistered(tree, orders)
    ensures var s := SweepUpTree(rules, inc, remaining, tree, orders, limit);
      && SideHolds(s.side, s.orders, Sell)
      && SameExceptQuantity(orders, s.orders)
      && TradesOf(s.trades, inc)
      && (s.filled ==> s.trades != [] && TotalQuantity(s.trades) == remaining && Last(s.trades).quantity == s.remaining)
      && (!s.filled ==> TotalQuantity(s.trades) + s.remaining == remaining && s.at == limit + 1)
      && (!s.filled ==> SweptUp(all, s.side, limit) && (s.side.Keys == {} || limit < MinKey(s.side.Keys)))
      && (s.filled ==>
            && s.at in s.side && s.at <= limit && (forall p | p in s.side :: s.at <= p)
            && LowestRemoved(all.Keys, s.side.Keys, limit)
            && forall p | p in s.side && p != s.at :: s.side[p] == all[p])
    decreases tree.Keys
  {
    SideHoldsRegistered(tree, orders, Sell);
    if tree.Keys == {} || limit < MinKey(tree.Keys) {
      SweepUpTreeStops(rules, inc, remaining, tree, orders, limit);
    } else {
      var at := MinKey(tree.Keys);
      SweepUpTreeRound(rules, inc, remaining, tree, orders, limit);
      SidesHoldAfterMatch(rules, tree, Sell, map[], Buy, orders, at, inc, remaining);
      var o := MatchLevelSpec(rules, inc, remaining, tree[at].ids, orders);
      var t := AfterRound(tree, at, o.queue, o.filled);
      SideHoldsAfterRound(tree, o.orders, Sell, at, o.queue, o.filled);
      if o.filled {
        SweptUpLast(all, tree, limit, at, o.queue);
      } else {
        SweptUpStep(all, tree, limit, at, o.queue);
        SweepUpTreeHolds(rules, inc, o.remaining, all, t, o.orders, limit);
        var r := SweepUpTree(rules, inc, o.remaining, t, o.orders, limit);
        TotalQuantityConcat(o.trades, r.trades);
        TradesOfConcat(o.trades, r.trades, inc);
        if r.filled {
          assert Last(o.trades + r.trades) == Last(r.trades);
        }
      }
    }
  }

  /** The mirror image for the sweep of a sell at `limit` over the bid tree. */
  lemma {:induction false} SweepDownTreeHolds(
    rules: TradeRules, inc: Incoming, remaining: int, all: map<int, PriceDeque>,
    tree: map<int, PriceDeque>, orders: map<Id, LimitOrder>, limit: int)
    requires rules.finalQuantity == FilledQuantity
    requires inc.direction == Sell && inc.price == limit
    requires SideHolds(tree, orders, Buy) && SweptDown(all, tree, limit)
    ensures TreeRegistered(tree, orders)
    ensures var s := SweepDownTree(rules, inc, remaining, tree, orders, limit);
      && SideHolds(s.side, s.orders, Buy)
      && SameExceptQuantity(orders, s.orders)
      && TradesOf(s.trades, inc)
      && (s.filled ==> s.trades != [] && TotalQuantity(s.trades) == remaining && Last(s.trades).quantity == s.remaining)
      && (!s.filled ==> TotalQuantity(s.trades) + s.remaining == remaining && s.at == limit - 1)
      && (!s.filled ==> SweptDown(all, s.side, limit) && (s.side.Keys == {} || MaxKey(s.side.Keys) < limit))
      && (s.filled ==>
            && s.at in s.side && limit <= s.at && (forall p | p in s.side :: p <= s.at)
            && HighestRemoved(all.Keys, s.side.Keys, limit)
            && forall p | p in s.side && p != s.at :: s.side[p] == all[p])
    decreases tree.Keys
  {
    SideHoldsRegistered(tree, orders, Buy);
    if tree.Keys == {} || MaxKey(tree.Keys) < limit {
      SweepDownTreeStops(rules, inc, remaining, tree, orders, limit);
    } else {
      var at := MaxKey(tree.Keys);
      SweepDownTreeRound(rules, inc, remaining, tree, orders, limit);
      SidesHoldAfterMatch(rules, tree, Buy, map[], Sell, orders, at, inc, remaining);
      var o := MatchLevelSpec(rules, inc, remaining, tree[at].ids, orders);
      var t := AfterRound(tree, at, o.queue, o.filled);
      SideHoldsAfterRound(tree, o.orders, Buy, at, o.queue, o.filled);
      if o.filled {
        SweptDownLast(all, tree, limit, at, o.queue);
      } else {
        SweptDownStep(all, tree, limit, at, o.queue);
        SweepDownTreeHolds(rules, inc, o.remaining, all, t, o.orders, limit);
        var r := SweepDownTree(rules, inc, o.remaining, t, o.orders, limit);
        TotalQuantityConcat(o.trades, r.trades);
        TradesOfConcat(o.trades, r.trades, inc);
        if r.filled {
          assert Last(o.trades + r.trades) == Last(r.trades);
        }
      }
    }
  }
}
