/** `HashDequeLimitOrderBook` of `limit_order_book/hash_deque.py`: levels in a
    dictionary from price to level, created on demand and never deleted, and
    the best prices kept in `bidMax` and `askMin`, which step by one price at
    a time while an incoming order sweeps the other side. */
module HashBook {
  import opened Wrappers
  import opened Orders
  import opened PriceDeques
  import opened BaseBook
  import opened Levels
  import opened Matching
  import opened Trees
  import opened LevelSweeps

  /** Every level of the dictionary is valid at its key. */
  predicate QueuesHold(pq: map<int, PriceDeque>, orders: map<Id, LimitOrder>, bidMax: int, askMin: int)
  {
    forall p | p in pq :: LevelHolds(pq[p], p, orders, bidMax, askMin)
  }

  /** Every level of a valid dictionary queues registered orders only. */
  lemma QueuesHoldRegistered(pq: map<int, PriceDeque>, orders: map<Id, LimitOrder>, bidMax: int, askMin: int)
    requires QueuesHold(pq, orders, bidMax, askMin)
    ensures TreeRegistered(pq, orders)
  {
    forall p | p in pq
      ensures Registered(pq[p].ids, orders)
    {
      assert LevelHolds(pq[p], p, orders, bidMax, askMin);
    }
  }

  /** Matching the stored level at `at` leaves every level valid with that
      level's new queue; fills change only quantities, the trades add up as
      the level loop promises, and they stay within the incoming order's
      limit when `at` does. */
  lemma QueuesHoldAfterMatchStored(
    pq: map<int, PriceDeque>, orders: map<Id, LimitOrder>, bidMax: int, askMin: int,
    at: int, inc: Incoming, remaining: int)
    requires QueuesHold(pq, orders, bidMax, askMin) && at in pq
    ensures Registered(pq[at].ids, orders)
    ensures var o := MatchLevelSpec(IncomingFinalRules, inc, remaining, pq[at].ids, orders);
      && QueuesHold(pq[at := pq[at].(ids := o.queue)], o.orders, bidMax, askMin)
      && SameExceptQuantity(orders, o.orders)
      && (o.filled ==> o.trades != [] && Last(o.trades).quantity == o.remaining)
      && (o.filled ==> TotalQuantity(o.trades) == remaining)
      && (!o.filled ==> o.queue == [] && TotalQuantity(o.trades) + o.remaining == remaining)
      && (Crosses(inc, at) ==> TradesOf(o.trades, inc))
  {
    var level := pq[at];
    assert LevelHolds(level, at, orders, bidMax, askMin);
    var o := MatchLevelSpec(IncomingFinalRules, inc, remaining, level.ids, orders);
    MatchLevelTouchesOnlyFront(IncomingFinalRules, inc, remaining, level.ids, orders);
    MatchLevelConserves(IncomingFinalRules, inc, remaining, level.ids, orders);
    MatchLevelFifo(IncomingFinalRules, inc, remaining, level.ids, orders);
    if Crosses(inc, at) {
      MatchLevelWithinLimit(IncomingFinalRules, inc, remaining, level.ids, orders);
    }
    var pq' := pq[at := level.(ids := o.queue)];
    forall p | p in pq'
      ensures LevelHolds(pq'[p], p, o.orders, bidMax, askMin)
    {
      if p == at {
        LevelHoldsAfterMatch(level, p, orders, o.orders, bidMax, askMin, o.queue);
      } else {
        LevelHoldsAfterQuantities(pq[p], p, orders, o.orders, bidMax, askMin);
      }
    }
  }

  /** The same for the level `price_queues.get` yields at `at`: the stored
      one, or a fresh empty one that matches nothing and is not stored. */
  lemma QueuesHoldAfterMatch(
    pq: map<int, PriceDeque>, orders: map<Id, LimitOrder>, bidMax: int, askMin: int,
    at: int, inc: Incoming, remaining: int)
    requires QueuesHold(pq, orders, bidMax, askMin)
    ensures Registered(QueueAt(pq, at), orders)
    ensures var o := MatchLevelSpec(IncomingFinalRules, inc, remaining, QueueAt(pq, at), orders);
      && QueuesHold(SetQueue(pq, at, o.queue), o.orders, bidMax, askMin)
      && SameExceptQuantity(orders, o.orders)
      && (o.filled ==> o.trades != [] && Last(o.trades).quantity == o.remaining)
      && (o.filled ==> TotalQuantity(o.trades) == remaining)
      && (!o.filled ==> o.queue == [] && TotalQuantity(o.trades) + o.remaining == remaining)
      && (Crosses(inc, at) ==> TradesOf(o.trades, inc))
  {
    if at in pq {
      QueuesHoldAfterMatchStored(pq, orders, bidMax, askMin, at, inc, remaining);
    } else {
      var o := MatchLevelSpec(IncomingFinalRules, inc, remaining, [], orders);
      assert o == LevelOutcome([], orders, remaining, [], false);
    }
  }

  /** What the upward sweep of a buy over a valid dictionary, up to the
      buy's own price, promises: the orders change only in quantity; every
      trade is the buy's and within its limit; the trades add up to the
      buy's quantity when it is completed, the completing trade logging what
      was left of it, and otherwise to what it lost. */
  lemma {:induction false} SweepUpHashHolds(
    inc: Incoming, remaining: int,
    pq: map<int, PriceDeque>, orders: map<Id, LimitOrder>, bidMax: int, askMin: int, at: int)
    requires inc.direction == Buy && QueuesHold(pq, orders, bidMax, askMin)
    ensures TreeRegistered(pq, orders)
    ensures var s := SweepUpHash(IncomingFinalRules, inc, remaining, pq, orders, at, inc.price);
      && SameExceptQuantity(orders, s.orders)
      && TradesOf(s.trades, inc)
      && (s.filled ==> s.trades != [] && TotalQuantity(s.trades) == remaining && Last(s.trades).quantity == s.remaining)
      && (!s.filled ==> TotalQuantity(s.trades) + s.remaining == remaining)
    decreases inc.price - at + 1
  {
    QueuesHoldRegistered(pq, orders, bidMax, askMin);
    if inc.price < at {
      SweepUpHashStops(IncomingFinalRules, inc, remaining, pq, orders, at, inc.price);
    } else {
      SweepUpHashStep(IncomingFinalRules, inc, remaining, pq, orders, at, inc.price);
      QueuesHoldAfterMatch(pq, orders, bidMax, askMin, at, inc, remaining);
      var o := MatchLevelSpec(IncomingFinalRules, inc, remaining, QueueAt(pq, at), orders);
      var pq' := SetQueue(pq, at, o.queue);
      if !o.filled {
        SweepUpHashHolds(inc, o.remaining, pq', o.orders, bidMax, askMin, at + 1);
        var r := SweepUpHash(IncomingFinalRules, inc, o.remaining, pq', o.orders, at + 1, inc.price);
        TotalQuantityConcat(o.trades, r.trades);
        TradesOfConcat(o.trades, r.trades, inc);
        if r.filled {
          assert Last(o.trades + r.trades) == Last(r.trades);
        }
      }
    }
  }

  /** The mirror of `SweepUpHashHolds` for a sell going down. */
  lemma {:induction false} SweepDownHashHolds(
    inc: Incoming, remaining: int,
    pq: map<int, PriceDeque>, orders: map<Id, LimitOrder>, bidMax: int, askMin: int, at: int)
    requires inc.direction == Sell && QueuesHold(pq, orders, bidMax, askMin)
    ensures TreeRegistered(pq, orders)
    ensures var s := SweepDownHash(IncomingFinalRules, inc, remaining, pq, orders, at, inc.price);
      && SameExceptQuantity(orders, s.orders)
      && TradesOf(s.trades, inc)
      && (s.filled ==> s.trades != [] && TotalQuantity(s.trades) == remaining && Last(s.trades).quantity == s.remaining)
      && (!s.filled ==> TotalQuantity(s.trades) + s.remaining == remaining)
    decreases at - inc.price + 1
  {
    QueuesHoldRegistered(pq, orders, bidMax, askMin);
    if at < inc.price {
      SweepDownHashStops(IncomingFinalRules, inc, remaining, pq, orders, at, inc.price);
    } else {
      SweepDownHashStep(IncomingFinalRules, inc, remaining, pq, orders, at, inc.price);
      QueuesHoldAfterMatch(pq, orders, bidMax, askMin, at, inc, remaining);
      var o := MatchLevelSpec(IncomingFinalRules, inc, remaining, QueueAt(pq, at), orders);
      var pq' := SetQueue(pq, at, o.queue);
      if !o.filled {
        SweepDownHashHolds(inc, o.remaining, pq', o.orders, bidMax, askMin, at - 1);
        var r := SweepDownHash(IncomingFinalRules, inc, o.remaining, pq', o.orders, at - 1, inc.price);
        TotalQuantityConcat(o.trades, r.trades);
        TradesOfConcat(o.trades, r.trades, inc);
        if r.filled {
          assert Last(o.trades + r.trades) == Last(r.trades);
        }
      }
    }
  }

  /** Resting a new order at its price through `setdefault(...).append`
      keeps every level valid. */
  lemma QueuesHoldAfterRest(
    pq: map<int, PriceDeque>, orders: map<Id, LimitOrder>, o: LimitOrder, bidMax: int, askMin: int)
    requires QueuesHold(pq, orders, bidMax, askMin)
    requires o.id !in orders && RestsAt(o, o.price, bidMax, askMin)
    ensures QueuesHold(InsertOrAppend(pq, o), orders[o.id := o], bidMax, askMin)
  {
    var pq' := InsertOrAppend(pq, o);
    forall p | p in pq'
      ensures LevelHolds(pq'[p], p, orders[o.id := o], bidMax, askMin)
    {
      if p == o.price {
        var level := if p in pq then pq[p] else PriceDeque(p, []);
        LevelHoldsAfterAppend(level, p, orders, o, bidMax, askMin);
      } else {
        LevelHoldsAfterRegister(pq[p], p, orders, o, bidMax, askMin);
      }
    }
  }

  /** Cancelling an order queued at its price keeps every level valid. */
  lemma QueuesHoldAfterCancel(
    pq: map<int, PriceDeque>, orders: map<Id, LimitOrder>, id: Id, bidMax: int, askMin: int)
    requires QueuesHold(pq, orders, bidMax, askMin)
    requires id in orders && orders[id].price in pq && id in pq[orders[id].price].ids
    ensures var p := orders[id].price;
      QueuesHold(pq[p := pq[p].Remove(id)], orders - {id}, bidMax, askMin)
  {
    var p := orders[id].price;
    var pq' := pq[p := pq[p].Remove(id)];
    forall k | k in pq'
      ensures LevelHolds(pq'[k], k, orders - {id}, bidMax, askMin)
    {
      if k == p {
        LevelHoldsAfterRemove(pq[k], k, orders, id, bidMax, askMin);
      } else {
        QueuedAtItsPrice(pq[k], k, orders, id, bidMax, askMin);
        LevelHoldsAfterDelete(pq[k], k, orders, id, bidMax, askMin);
      }
    }
  }

  /** Moving the cursors keeps every level valid when each level the move
      passes over is empty. */
  lemma QueuesHoldAfterCursorMove(
    pq: map<int, PriceDeque>, orders: map<Id, LimitOrder>,
    bidMax: int, askMin: int, bidMax': int, askMin': int)
    requires QueuesHold(pq, orders, bidMax, askMin)
    requires forall p | p in pq && (bidMax' < p <= bidMax || askMin <= p < askMin') :: pq[p].ids == []
    ensures QueuesHold(pq, orders, bidMax', askMin')
  {
    forall p | p in pq
      ensures LevelHolds(pq[p], p, orders, bidMax', askMin')
    {
      LevelHoldsAfterCursorMove(pq[p], p, orders, bidMax, askMin, bidMax', askMin');
    }
  }

  class HashDequeLimitOrderBook {
    const base: BaseLimitOrderBook
    var bidMax: int
    var askMin: int
    var orders: map<Id, LimitOrder>
    /** `price_queues`: price to level. */
    var priceQueues: map<int, PriceDeque>

    /** The cursors are uncrossed and every level is valid: it holds buys
        at or below the best bid and sells at or above the best ask. */
    ghost predicate Valid()
      reads this
    {
      && bidMax < askMin
      && QueuesHold(priceQueues, orders, bidMax, askMin)
    }

    /** `__init__`: no levels, the best bid at 0 and the best ask just above
        max_price. */
    constructor (name: string, maxPrice: int)
      ensures 0 <= maxPrice ==> Valid()
      ensures fresh(base)
      ensures base.name == name && base.maxPrice == maxPrice && base.matches == []
      ensures bidMax == 0 && askMin == maxPrice + 1 && orders == map[] && priceQueues == map[]
    {
      base := new BaseLimitOrderBook(name, maxPrice);
      bidMax := 0;
      askMin := maxPrice + 1;
      orders := map[];
      priceQueues := map[];
    }

    /** `best_bid`: at or above every resting buy, below the best ask. */
    function BestBid(): (r: int)
      reads this
      requires Valid()
      ensures r < askMin
      ensures forall p, i | p in priceQueues && 0 <= i < |priceQueues[p].ids| &&
        orders[priceQueues[p].ids[i]].direction == Buy :: p <= r
    {
      assert QueuesHold(priceQueues, orders, bidMax, askMin);
      bidMax
    }

    /** `best_ask`: at or below every resting sell, above the best bid. */
    function BestAsk(): (r: int)
      reads this
      requires Valid()
      ensures bidMax < r
      ensures forall p, i | p in priceQueues && 0 <= i < |priceQueues[p].ids| &&
        orders[priceQueues[p].ids[i]].direction == Sell :: r <= p
    {
      assert QueuesHold(priceQueues, orders, bidMax, askMin);
      askMin
    }

    /** The reference sweep of an incoming buy over the dictionary as it
        is, from the best ask up to the buy's price, one price at a time. */
    ghost function AskSweep(inc: Incoming, remaining: int): SweepOutcome<map<int, PriceDeque>>
      reads this
      requires Valid()
    {
      QueuesHoldRegistered(priceQueues, orders, bidMax, askMin);
      SweepUpHash(IncomingFinalRules, inc, remaining, priceQueues, orders, askMin, inc.price)
    }

    /** The reference sweep of an incoming sell over the dictionary as it
        is, from the best bid down to the sell's price. */
    ghost function BidSweep(inc: Incoming, remaining: int): SweepOutcome<map<int, PriceDeque>>
      reads this
      requires Valid()
    {
      QueuesHoldRegistered(priceQueues, orders, bidMax, askMin);
      SweepDownHash(IncomingFinalRules, inc, remaining, priceQueues, orders, bidMax, inc.price)
    }

    /** The inner loop of `add` at price `at`: `price_queues.get(at, ...)`
        yields the stored level or a fresh empty one, which is matched front
        first as the level loop does; only a stored level is updated. */
    method MatchAt(at: int, inc: Incoming, remaining: int) returns (out: LevelOutcome)
      requires Valid()
      modifies this, base
      ensures Registered(QueueAt(old(priceQueues), at), old(orders)) &&
        out == MatchLevelSpec(IncomingFinalRules, inc, remaining, QueueAt(old(priceQueues), at), old(orders))
      ensures base.matches == old(base.matches) + out.trades
      ensures priceQueues == SetQueue(old(priceQueues), at, out.queue)
      ensures orders == out.orders && bidMax == old(bidMax) && askMin == old(askMin)
      ensures Valid()
      ensures SameExceptQuantity(old(orders), orders)
      ensures out.filled ==> out.trades != [] && Last(out.trades).quantity == out.remaining
      ensures out.filled ==> TotalQuantity(out.trades) == remaining
      ensures !out.filled ==> out.queue == [] && TotalQuantity(out.trades) + out.remaining == remaining
      ensures Crosses(inc, at) ==> TradesOf(out.trades, inc)
    {
      var level := if at in priceQueues then priceQueues[at] else PriceDeque(at, []);
      QueuesHoldAfterMatch(priceQueues, orders, bidMax, askMin, at, inc, remaining);
      out := MatchLevel(base, IncomingFinalRules, inc, remaining, level.ids, orders);
      if at in priceQueues {
        priceQueues := priceQueues[at := level.(ids := out.queue)];
        orders := out.orders;
      }
    }

    /** One round of the buy loop of `add`: the level at the best ask is
        matched front first; unless that completes the incoming order, the
        best ask moves up by one. This is one round of the reference sweep:
        what that sweep does from the old book is this round's trades
        followed by what it does from the new one. */
    method MatchAskMin(inc: Incoming, remaining: int) returns (out: LevelOutcome)
      requires Valid() && inc.direction == Buy && askMin <= inc.price
      modifies this, base
      ensures Valid()
      ensures base.matches == old(base.matches) + out.trades
      ensures orders == out.orders && SameExceptQuantity(old(orders), orders)
      ensures TradesOf(out.trades, inc)
      ensures out.filled ==> out.trades != [] && Last(out.trades).quantity == out.remaining
      ensures out.filled ==> TotalQuantity(out.trades) == remaining
      ensures !out.filled ==> TotalQuantity(out.trades) + out.remaining == remaining
      ensures bidMax == old(bidMax) && askMin == old(askMin) + (if out.filled then 0 else 1)
      ensures priceQueues == SetQueue(old(priceQueues), old(askMin), out.queue)
      ensures !out.filled ==> out.queue == []
      ensures old(AskSweep(inc, remaining)) ==
        if out.filled then SweepOutcome(priceQueues, orders, out.remaining, out.trades, true, old(askMin))
        else PrependSweep(out.trades, AskSweep(inc, out.remaining))
    {
      var at := askMin;
      QueuesHoldRegistered(priceQueues, orders, bidMax, askMin);
      SweepUpHashStep(IncomingFinalRules, inc, remaining, priceQueues, orders, at, inc.price);
      out := MatchAt(at, inc, remaining);
      if !out.filled {
        QueuesHoldAfterCursorMove(priceQueues, orders, bidMax, askMin, bidMax, askMin + 1);
        askMin := askMin + 1;
      }
    }

    /** One round of the sell loop of `add`, mirrored: the best bid moves
        down by one. */
    method MatchBidMax(inc: Incoming, remaining: int) returns (out: LevelOutcome)
      requires Valid() && inc.direction == Sell && inc.price <= bidMax
      modifies this, base
      ensures Valid()
      ensures base.matches == old(base.matches) + out.trades
      ensures orders == out.orders && SameExceptQuantity(old(orders), orders)
      ensures TradesOf(out.trades, inc)
      ensures out.filled ==> out.trades != [] && Last(out.trades).quantity == out.remaining
      ensures out.filled ==> TotalQuantity(out.trades) == remaining
      ensures !out.filled ==> TotalQuantity(out.trades) + out.remaining == remaining
      ensures askMin == old(askMin) && bidMax == old(bidMax) - (if out.filled then 0 else 1)
      ensures priceQueues == SetQueue(old(priceQueues), old(bidMax), out.queue)
      ensures !out.filled ==> out.queue == []
      ensures old(BidSweep(inc, remaining)) ==
        if out.filled then SweepOutcome(priceQueues, orders, out.remaining, out.trades, true, old(bidMax))
        else PrependSweep(out.trades, BidSweep(inc, out.remaining))
    {
      var at := bidMax;
      QueuesHoldRegistered(priceQueues, orders, bidMax, askMin);
      SweepDownHashStep(IncomingFinalRules, inc, remaining, priceQueues, orders, at, inc.price);
      out := MatchAt(at, inc, remaining);
      if !out.filled {
        QueuesHoldAfterCursorMove(priceQueues, orders, bidMax, askMin, bidMax - 1, askMin);
        bidMax := bidMax - 1;
      }
    }

    /** The buy loop of `add`: while the buy reaches the best ask, the level
        there is matched and, once exhausted, passed. What it does is the
        reference sweep from the best ask up to the buy's price; when the buy
        is not completed the best ask ends just above that price, or where
        it was when the buy did not reach it. */
    method MatchAsks(inc: Incoming, quantity: int) returns (filled: bool, remaining: int, trades: seq<Trade>)
      requires Valid() && inc.direction == Buy
      modifies this, base
      ensures Valid()
      ensures base.matches == old(base.matches) + trades
      ensures var s := old(AskSweep(inc, quantity));
        && priceQueues == s.side && orders == s.orders
        && filled == s.filled && remaining == s.remaining && trades == s.trades
        && (filled ==> askMin == s.at)
      ensures !filled ==> askMin == Max(old(askMin), inc.price + 1)
      ensures bidMax == old(bidMax) && old(askMin) <= askMin
    {
      filled, remaining, trades := false, quantity, [];
      ghost var sweep := AskSweep(inc, quantity);
      while !filled && inc.price >= askMin
        invariant Valid()
        invariant base.matches == old(base.matches) + trades
        invariant bidMax == old(bidMax) && old(askMin) <= askMin
        invariant askMin == old(askMin) || askMin <= inc.price + 1
        invariant !filled ==> sweep == PrependSweep(trades, AskSweep(inc, remaining))
        invariant filled ==> sweep == SweepOutcome(priceQueues, orders, remaining, trades, true, askMin)
        decreases inc.price + 1 - askMin, if filled then 0 else 1
      {
        var out := MatchAskMin(inc, remaining);
        PrependSweepTwice(trades, out.trades, AskSweep(inc, out.remaining));
        trades := trades + out.trades;
        remaining := out.remaining;
        filled := out.filled;
      }
      if !filled {
        QueuesHoldRegistered(priceQueues, orders, bidMax, askMin);
        SweepUpHashStops(IncomingFinalRules, inc, remaining, priceQueues, orders, askMin, inc.price);
      }
    }

    /** The sell loop of `add`, mirrored: the best bid steps down by one. */
    method MatchBids(inc: Incoming, quantity: int) returns (filled: bool, remaining: int, trades: seq<Trade>)
      requires Valid() && inc.direction == Sell
      modifies this, base
      ensures Valid()
      ensures base.matches == old(base.matches) + trades
      ensures var s := old(BidSweep(inc, quantity));
        && priceQueues == s.side && orders == s.orders
        && filled == s.filled && remaining == s.remaining && trades == s.trades
        && (filled ==> bidMax == s.at)
      ensures !filled ==> bidMax == Min(old(bidMax), inc.price - 1)
      ensures askMin == old(askMin) && bidMax <= old(bidMax)
    {
      filled, remaining, trades := false, quantity, [];
      ghost var sweep := BidSweep(inc, quantity);
      while !filled && inc.price <= bidMax
        invariant Valid()
        invariant base.matches == old(base.matches) + trades
        invariant askMin == old(askMin) && bidMax <= old(bidMax)
        invariant bidMax == old(bidMax) || inc.price - 1 <= bidMax
        invariant !filled ==> sweep == PrependSweep(trades, BidSweep(inc, remaining))
        invariant filled ==> sweep == SweepOutcome(priceQueues, orders, remaining, trades, true, bidMax)
        decreases bidMax - inc.price + 1, if filled then 0 else 1
      {
        var out := MatchBidMax(inc, remaining);
        PrependSweepTwice(trades, out.trades, BidSweep(inc, out.remaining));
        trades := trades + out.trades;
        remaining := out.remaining;
        filled := out.filled;
      }
      if !filled {
        QueuesHoldRegistered(priceQueues, orders, bidMax, askMin);
        SweepDownHashStops(IncomingFinalRules, inc, remaining, priceQueues, orders, bidMax, inc.price);
      }
    }

    /** The buy half of `add` up to resting: the buy loop, with what the
        reference sweep promises about it. Either the buy is completed, or
        the best ask has passed its price and every level it passed is
        empty; the trades are the buy's and account for its quantity; the
        levels outside the swept range are untouched and no level is added
        or deleted. */
    method SweepAsks(order: LimitOrder) returns (filled: bool, remaining: int, trades: seq<Trade>)
      requires Valid() && order.direction == Buy
      modifies this, base
      ensures Valid()
      ensures base.matches == old(base.matches) + trades
      ensures var s := old(AskSweep(IncomingOf(order), order.quantity));
        && priceQueues == s.side && orders == s.orders
        && filled == s.filled && remaining == s.remaining && trades == s.trades
        && (filled ==> askMin == s.at)
      ensures TradesOf(trades, IncomingOf(order))
      ensures filled ==> trades != [] && TotalQuantity(trades) == order.quantity && Last(trades).quantity == remaining
      ensures !filled ==> TotalQuantity(trades) + remaining == order.quantity && order.price < askMin
      ensures !filled ==> askMin == Max(old(askMin), order.price + 1)
      ensures order.price < old(askMin) ==> !filled && trades == [] && remaining == order.quantity
      ensures SameExceptQuantity(old(orders), orders)
      ensures bidMax == old(bidMax) && old(askMin) <= askMin
      ensures priceQueues.Keys == old(priceQueues).Keys
      ensures forall p | p in priceQueues && old(askMin) <= p < askMin :: priceQueues[p].ids == []
      ensures forall p | p in priceQueues && (p < old(askMin) || askMin < p || (!filled && p == askMin)) ::
        priceQueues[p] == old(priceQueues)[p]
    {
      var inc := IncomingOf(order);
      ghost var pq0, orders0, askMin0 := priceQueues, orders, askMin;
      ghost var sweep := AskSweep(inc, order.quantity);
      filled, remaining, trades := MatchAsks(inc, order.quantity);
      assert
        && TradesOf(sweep.trades, inc)
        && (sweep.filled ==>
              sweep.trades != [] && TotalQuantity(sweep.trades) == order.quantity
              && Last(sweep.trades).quantity == sweep.remaining)
        && (!sweep.filled ==> TotalQuantity(sweep.trades) + sweep.remaining == order.quantity)
        && (order.price < askMin0 ==> !sweep.filled && sweep.trades == [] && sweep.remaining == order.quantity)
        && SameExceptQuantity(orders0, sweep.orders)
        && sweep.side.Keys == pq0.Keys
        && (sweep.filled ==> askMin0 <= sweep.at <= order.price)
        && (forall p | p in pq0 && (p < askMin0 || (if sweep.filled then sweep.at < p else order.price < p)) ::
              sweep.side[p] == pq0[p])
        && (forall p | p in pq0 && askMin0 <= p <= order.price && (!sweep.filled || p < sweep.at) ::
              sweep.side[p].ids == [])
      by {
        SweepUpHashHolds(inc, order.quantity, pq0, orders0, bidMax, askMin0, askMin0);
        SweepUpHashClears(IncomingFinalRules, inc, order.quantity, pq0, orders0, askMin0, order.price);
        if order.price < askMin0 {
          SweepUpHashStops(IncomingFinalRules, inc, order.quantity, pq0, orders0, askMin0, order.price);
        }
      }
    }

    /** The sell half of `add` up to resting, symmetric to `SweepAsks`. */
    method SweepBids(order: LimitOrder) returns (filled: bool, remaining: int, trades: seq<Trade>)
      requires Valid() && order.direction == Sell
      modifies this, base
      ensures Valid()
      ensures base.matches == old(base.matches) + trades
      ensures var s := old(BidSweep(IncomingOf(order), order.quantity));
        && priceQueues == s.side && orders == s.orders
        && filled == s.filled && remaining == s.remaining && trades == s.trades
        && (filled ==> bidMax == s.at)
      ensures TradesOf(trades, IncomingOf(order))
      ensures filled ==> trades != [] && TotalQuantity(trades) == order.quantity && Last(trades).quantity == remaining
      ensures !filled ==> TotalQuantity(trades) + remaining == order.quantity && bidMax < order.price
      ensures !filled ==> bidMax == Min(old(bidMax), order.price - 1)
      ensures old(bidMax) < order.price ==> !filled && trades == [] && remaining == order.quantity
      ensures SameExceptQuantity(old(orders), orders)
      ensures askMin == old(askMin) && bidMax <= old(bidMax)
      ensures priceQueues.Keys == old(priceQueues).Keys
      ensures forall p | p in priceQueues && bidMax < p <= old(bidMax) :: priceQueues[p].ids == []
      ensures forall p | p in priceQueues && (old(bidMax) < p || p < bidMax || (!filled && p == bidMax)) ::
        priceQueues[p] == old(priceQueues)[p]
    {
      var inc := IncomingOf(order);
      ghost var pq0, orders0, bidMax0 := priceQueues, orders, bidMax;
      ghost var sweep := BidSweep(inc, order.quantity);
      filled, remaining, trades := MatchBids(inc, order.quantity);
      assert
        && TradesOf(sweep.trades, inc)
        && (sweep.filled ==>
              sweep.trades != [] && TotalQuantity(sweep.trades) == order.quantity
              && Last(sweep.trades).quantity == sweep.remaining)
        && (!sweep.filled ==> TotalQuantity(sweep.trades) + sweep.remaining == order.quantity)
        && (bidMax0 < order.price ==> !sweep.filled && sweep.trades == [] && sweep.remaining == order.quantity)
        && SameExceptQuantity(orders0, sweep.orders)
        && sweep.side.Keys == pq0.Keys
        && (sweep.filled ==> order.price <= sweep.at <= bidMax0)
        && (forall p | p in pq0 && (bidMax0 < p || (if sweep.filled then p < sweep.at else p < order.price)) ::
              sweep.side[p] == pq0[p])
        && (forall p | p in pq0 && order.price <= p <= bidMax0 && (!sweep.filled || sweep.at < p) ::
              sweep.side[p].ids == [])
      by {
        SweepDownHashHolds(inc, order.quantity, pq0, orders0, bidMax0, askMin, bidMax0);
        SweepDownHashClears(IncomingFinalRules, inc, order.quantity, pq0, orders0, bidMax0, order.price);
        if bidMax0 < order.price {
          SweepDownHashStops(IncomingFinalRules, inc, order.quantity, pq0, orders0, bidMax0, order.price);
        }
      }
    }

    /** `add`: a buy that reaches the best ask (a sell that reaches the best
        bid) is matched level by level, one price at a time from the best
        price and each level front first; what is left of it rests at its
        own price, creating the level if needed, and the best bid is raised
        to its price (the best ask lowered to it). `quantity` is what the
        caller's order object holds afterwards. */
    method Add(order: LimitOrder) returns (quantity: int, trades: seq<Trade>)
      requires Valid()
      requires order.id !in orders
      modifies this, base
      ensures Valid()
      ensures base.matches == old(base.matches) + trades
      ensures TradesOf(trades, IncomingOf(order))
      ensures order.id in orders ==>
        TotalQuantity(trades) + quantity == order.quantity && orders[order.id] == order.(quantity := quantity)
      ensures order.id !in orders ==>
        trades != [] && TotalQuantity(trades) == order.quantity && Last(trades).quantity == quantity
      ensures !EntersMatching(order, old(bidMax), old(askMin)) ==>
        order.id in orders && trades == [] && quantity == order.quantity
      ensures old(orders).Keys <= orders.Keys <= old(orders).Keys + {order.id}
      ensures SameExceptQuantity(old(orders), orders - {order.id})
      ensures priceQueues.Keys == old(priceQueues).Keys + (if order.id in orders then {order.price} else {})
      ensures order.id in orders ==>
        priceQueues[order.price].ids ==
          (if EntersMatching(order, old(bidMax), old(askMin)) then []
           else if order.price in old(priceQueues) then old(priceQueues)[order.price].ids else [])
          + [order.id]
      ensures order.direction == Buy ==>
        && old(askMin) <= askMin
        && (order.id in orders ==> order.price < askMin && bidMax == Max(old(bidMax), order.price))
        && (order.id !in orders ==> bidMax == old(bidMax))
        && (forall p | p in priceQueues && old(askMin) <= p < askMin && p != order.price :: priceQueues[p].ids == [])
        && (forall p | p in old(priceQueues) && p != order.price && (p < old(askMin) || askMin < p) ::
              priceQueues[p] == old(priceQueues)[p])
      ensures order.direction == Sell ==>
        && bidMax <= old(bidMax)
        && (order.id in orders ==> bidMax < order.price && askMin == Min(old(askMin), order.price))
        && (order.id !in orders ==> askMin == old(askMin))
        && (forall p | p in priceQueues && bidMax < p <= old(bidMax) && p != order.price :: priceQueues[p].ids == [])
        && (forall p | p in old(priceQueues) && p != order.price && (old(bidMax) < p || p < bidMax) ::
              priceQueues[p] == old(priceQueues)[p])
      ensures order.direction == Buy ==> var s := old(AskSweep(IncomingOf(order), order.quantity));
        && trades == s.trades && quantity == s.remaining
        && (s.filled ==> priceQueues == s.side && orders == s.orders && askMin == s.at && bidMax == old(bidMax))
        && (!s.filled ==>
              && priceQueues == InsertOrAppend(s.side, order.(quantity := quantity))
              && orders == s.orders[order.id := order.(quantity := quantity)]
              && bidMax == Max(old(bidMax), order.price) && askMin == Max(old(askMin), order.price + 1))
      ensures order.direction == Sell ==> var s := old(BidSweep(IncomingOf(order), order.quantity));
        && trades == s.trades && quantity == s.remaining
        && (s.filled ==> priceQueues == s.side && orders == s.orders && bidMax == s.at && askMin == old(askMin))
        && (!s.filled ==>
              && priceQueues == InsertOrAppend(s.side, order.(quantity := quantity))
              && orders == s.orders[order.id := order.(quantity := quantity)]
              && bidMax == Min(old(bidMax), order.price - 1) && askMin == Min(old(askMin), order.price))
    {
      if order.direction == Buy {
        quantity, trades := AddBuy(order);
      } else {
        quantity, trades := AddSell(order);
      }
    }

    /** The buy branch of `add`: the buy sweeps the ask side and what is
        left of it rests. */
    method AddBuy(order: LimitOrder) returns (quantity: int, trades: seq<Trade>)
      requires Valid()
      requires order.id !in orders
      requires order.direction == Buy
      modifies this, base
      ensures Valid()
      ensures base.matches == old(base.matches) + trades
      ensures TradesOf(trades, IncomingOf(order))
      ensures order.id in orders ==>
        TotalQuantity(trades) + quantity == order.quantity && orders[order.id] == order.(quantity := quantity)
      ensures order.id !in orders ==>
        trades != [] && TotalQuantity(trades) == order.quantity && Last(trades).quantity == quantity
      ensures !EntersMatching(order, old(bidMax), old(askMin)) ==>
        order.id in orders && trades == [] && quantity == order.quantity
      ensures old(orders).Keys <= orders.Keys <= old(orders).Keys + {order.id}
      ensures SameExceptQuantity(old(orders), orders - {order.id})
      ensures priceQueues.Keys == old(priceQueues).Keys + (if order.id in orders then {order.price} else {})
      ensures order.id in orders ==>
        priceQueues[order.price].ids ==
          (if EntersMatching(order, old(bidMax), old(askMin)) then []
           else if order.price in old(priceQueues) then old(priceQueues)[order.price].ids else [])
          + [order.id]
      ensures old(askMin) <= askMin
      ensures order.id in orders ==> order.price < askMin && bidMax == Max(old(bidMax), order.price)
      ensures order.id !in orders ==> bidMax == old(bidMax)
      ensures forall p | p in priceQueues && old(askMin) <= p < askMin && p != order.price :: priceQueues[p].ids == []
      ensures forall p | p in old(priceQueues) && p != order.price && (p < old(askMin) || askMin < p) ::
          priceQueues[p] == old(priceQueues)[p]
      ensures var s := old(AskSweep(IncomingOf(order), order.quantity));
        && trades == s.trades && quantity == s.remaining
        && (s.filled ==> priceQueues == s.side && orders == s.orders && askMin == s.at && bidMax == old(bidMax))
        && (!s.filled ==>
              && priceQueues == InsertOrAppend(s.side, order.(quantity := quantity))
              && orders == s.orders[order.id := order.(quantity := quantity)]
              && bidMax == Max(old(bidMax), order.price) && askMin == Max(old(askMin), order.price + 1))
    {
      var filled;
      filled, quantity, trades := SweepAsks(order);
      if filled {
        return;
      }
      var o := order.(quantity := quantity);
      QueuesHoldAfterCursorMove(priceQueues, orders, bidMax, askMin, Max(bidMax, o.price), askMin);
      QueuesHoldAfterRest(priceQueues, orders, o, Max(bidMax, o.price), askMin);
      AddOrderToQueue(o);
      if bidMax < o.price {
        bidMax := o.price;
      }
    }

    /** The sell branch of `add`, mirrored on the bid side. */
    method AddSell(order: LimitOrder) returns (quantity: int, trades: seq<Trade>)
      requires Valid()
      requires order.id !in orders
      requires order.direction == Sell
      modifies this, base
      ensures Valid()
      ensures base.matches == old(base.matches) + trades
      ensures TradesOf(trades, IncomingOf(order))
      ensures order.id in orders ==>
        TotalQuantity(trades) + quantity == order.quantity && orders[order.id] == order.(quantity := quantity)
      ensures order.id !in orders ==>
        trades != [] && TotalQuantity(trades) == order.quantity && Last(trades).quantity == quantity
      ensures !EntersMatching(order, old(bidMax), old(askMin)) ==>
        order.id in orders && trades == [] && quantity == order.quantity
      ensures old(orders).Keys <= orders.Keys <= old(orders).Keys + {order.id}
      ensures SameExceptQuantity(old(orders), orders - {order.id})
      ensures priceQueues.Keys == old(priceQueues).Keys + (if order.id in orders then {order.price} else {})
      ensures order.id in orders ==>
        priceQueues[order.price].ids ==
          (if EntersMatching(order, old(bidMax), old(askMin)) then []
           else if order.price in old(priceQueues) then old(priceQueues)[order.price].ids else [])
          + [order.id]
      ensures bidMax <= old(bidMax)
      ensures order.id in orders ==> bidMax < order.price && askMin == Min(old(askMin), order.price)
      ensures order.id !in orders ==> askMin == old(askMin)
      ensures forall p | p in priceQueues && bidMax < p <= old(bidMax) && p != order.price :: priceQueues[p].ids == []
      ensures forall p | p in old(priceQueues) && p != order.price && (old(bidMax) < p || p < bidMax) ::
          priceQueues[p] == old(priceQueues)[p]
      ensures var s := old(BidSweep(IncomingOf(order), order.quantity));
        && trades == s.trades && quantity == s.remaining
        && (s.filled ==> priceQueues == s.side && orders == s.orders && bidMax == s.at && askMin == old(askMin))
        && (!s.filled ==>
              && priceQueues == InsertOrAppend(s.side, order.(quantity := quantity))
              && orders == s.orders[order.id := order.(quantity := quantity)]
              && bidMax == Min(old(bidMax), order.price - 1) && askMin == Min(old(askMin), order.price))
    {
      var filled;
      filled, quantity, trades := SweepBids(order);
      if filled {
        return;
      }
      var o := order.(quantity := quantity);
      QueuesHoldAfterCursorMove(priceQueues, orders, bidMax, askMin, bidMax, Min(askMin, o.price));
      QueuesHoldAfterRest(priceQueues, orders, o, bidMax, Min(askMin, o.price));
      AddOrderToQueue(o);
      if askMin > o.price {
        askMin := o.price;
      }
    }

    /** `cancel`: an unknown id fails (KeyError), a price without a level
        fails (KeyError), and an order no longer queued at its level fails
        (ValueError); otherwise the order leaves its level, which stays in
        the dictionary even when emptied, and `orders`. Nothing changes on
        failure, and the cursors never change. */
    method Cancel(id: Id) returns (r: Result<(), CancelError>)
      requires Valid()
      modifies this
      ensures Valid()
      ensures bidMax == old(bidMax) && askMin == old(askMin)
      ensures id !in old(orders) ==> r == Failure(UnknownOrderId)
      ensures id in old(orders) && old(orders)[id].price !in old(priceQueues) ==> r == Failure(MissingLevel)
      ensures r.Success? <==>
        id in old(orders) && old(orders)[id].price in old(priceQueues) &&
        id in old(priceQueues)[old(orders)[id].price].ids
      ensures id in old(orders) && old(orders)[id].price in old(priceQueues) && r.Failure? ==>
        r == Failure(NotInLevel)
      ensures r.Failure? ==> orders == old(orders) && priceQueues == old(priceQueues)
      ensures r.Success? ==>
        var p := old(orders)[id].price;
        && orders == old(orders) - {id}
        && priceQueues == old(priceQueues)[p := old(priceQueues)[p].Remove(id)]
    {
      if id !in orders {
        return Failure(UnknownOrderId);
      }
      var p := orders[id].price;
      if p !in priceQueues {
        return Failure(MissingLevel);
      }
      var level := priceQueues[p];
      if id !in level.ids {
        return Failure(NotInLevel);
      }
      QueuesHoldAfterCancel(priceQueues, orders, id, bidMax, askMin);
      priceQueues := priceQueues[p := level.Remove(id)];
      orders := orders - {id};
      r := Success(());
    }

    /** `_add_order_to_queue`: the order is registered under its id and
        appended at the tail of its price's level, which `setdefault` creates
        when missing; nothing else changes. */
    method AddOrderToQueue(o: LimitOrder)
      modifies this
      ensures orders == old(orders)[o.id := o]
      ensures priceQueues == InsertOrAppend(old(priceQueues), o)
      ensures bidMax == old(bidMax) && askMin == old(askMin)
    {
      orders := orders[o.id := o];
      priceQueues := InsertOrAppend(priceQueues, o);
    }
  }
}
