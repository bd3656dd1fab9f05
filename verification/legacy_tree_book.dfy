/** The older stand-alone `BalancedTreeDequeLimitOrderBook` of
    `limit_order_book/balanced_tree.py`: one ordered map of levels per side,
    the best bid being the largest bid key (0 when there is none) and the
    best ask the smallest ask key (max_price + 1 when there is none). An
    incoming order sweeps the other side best level first, and each level it
    exhausts leaves its tree before the next one is tried. */
module LegacyTreeBook {
  import opened Wrappers
  import opened Orders
  import opened PriceDeques
  import opened BaseBook
  import opened Levels
  import opened Matching
  import opened Trees

  class BalancedTreeDequeLimitOrderBook {
    const base: BaseLimitOrderBook
    var orders: map<Id, LimitOrder>
    /** `_bids` and `_asks`: price to level. */
    var bids: map<int, PriceDeque>
    var asks: map<int, PriceDeque>

    /** Every bid key is below every ask key, and each side's levels are
        valid and hold orders of that side only. */
    ghost predicate Valid()
      reads this
    {
      && (forall b, a | b in bids && a in asks :: b < a)
      && SideHolds(bids, orders, Buy)
      && SideHolds(asks, orders, Sell)
    }

    /** The tree of side `d`. */
    function Side(d: Direction): map<int, PriceDeque>
      reads this
    {
      if d == Buy then bids else asks
    }

    /** The reference sweep of an incoming buy over the ask tree as it is. */
    ghost function AskSweep(inc: Incoming, remaining: int, limit: int): SweepOutcome<map<int, PriceDeque>>
      reads this
      requires Valid()
    {
      SideHoldsRegistered(asks, orders, Sell);
      SweepUpTree(IncomingFinalRules, inc, remaining, asks, orders, limit)
    }

    /** The reference sweep of an incoming sell over the bid tree as it is. */
    ghost function BidSweep(inc: Incoming, remaining: int, limit: int): SweepOutcome<map<int, PriceDeque>>
      reads this
      requires Valid()
    {
      SideHoldsRegistered(bids, orders, Buy);
      SweepDownTree(IncomingFinalRules, inc, remaining, bids, orders, limit)
    }

    /** `__init__`: two empty trees. */
    constructor (name: string, maxPrice: int)
      ensures Valid()
      ensures fresh(base)
      ensures base.name == name && base.maxPrice == maxPrice && base.matches == []
      ensures orders == map[] && bids == map[] && asks == map[]
    {
      base := new BaseLimitOrderBook(name, maxPrice);
      orders := map[];
      bids := map[];
      asks := map[];
    }

    /** `best_bid`: 0 for an empty bid tree, else its largest key, which is
        below every ask key. */
    function BestBid(): (r: int)
      reads this
      requires Valid()
      ensures bids.Keys == {} ==> r == 0
      ensures bids.Keys != {} ==> r in bids && (forall p | p in bids :: p <= r) && (forall p | p in asks :: r < p)
    {
      if bids.Keys == {} then 0 else MaxKey(bids.Keys)
    }

    /** `best_ask`: max_price + 1 for an empty ask tree, else its smallest
        key, which is above every bid key. */
    function BestAsk(): (r: int)
      reads this
      requires Valid()
      ensures asks.Keys == {} ==> r == base.maxPrice + 1
      ensures asks.Keys != {} ==> r in asks && (forall p | p in asks :: r <= p) && (forall p | p in bids :: p < r)
    {
      if asks.Keys == {} then base.maxPrice + 1 else MinKey(asks.Keys)
    }

    /** One round of the buy loop of `add`: the level at the best ask is
        matched front first; unless that completes the buy, the exhausted
        level leaves the ask tree. This is one round of the reference sweep
        up to `limit`: what that sweep does from the old book is this round's
        trades followed by what it does from the new one. */
    method MatchBestAsk(inc: Incoming, remaining: int, ghost limit: int) returns (out: LevelOutcome)
      requires Valid() && asks.Keys != {} && BestAsk() <= limit
      requires Registered(asks[BestAsk()].ids, orders)
      modifies this, base
      ensures Valid()
      ensures base.matches == old(base.matches) + out.trades
      ensures orders == out.orders && bids == old(bids)
      ensures out == MatchLevelSpec(IncomingFinalRules, inc, remaining, old(asks)[old(BestAsk())].ids, old(orders))
      ensures asks == AfterRound(old(asks), old(BestAsk()), out.queue, out.filled)
      ensures !out.filled && asks.Keys != {} ==> old(BestAsk()) < BestAsk()
      ensures out.filled ==> BestAsk() == old(BestAsk())
      ensures old(AskSweep(inc, remaining, limit)) ==
        if out.filled then SweepOutcome(asks, orders, out.remaining, out.trades, true, old(BestAsk()))
        else PrependSweep(out.trades, AskSweep(inc, out.remaining, limit))
    {
      var at := BestAsk();
      var level := asks[at];
      SideHoldsRegistered(asks, orders, Sell);
      SweepUpTreeRound(IncomingFinalRules, inc, remaining, asks, orders, limit);
      SidesHoldAfterMatch(IncomingFinalRules, asks, Sell, bids, Buy, orders, at, inc, remaining);
      out := MatchLevel(base, IncomingFinalRules, inc, remaining, level.ids, orders);
      SideHoldsAfterRound(asks, out.orders, Sell, at, out.queue, out.filled);
      asks := asks[at := level.(ids := out.queue)];
      orders := out.orders;
      if !out.filled {
        asks := asks - {at};
      }
    }

    /** One round of the sell loop of `add`, mirrored on the bid tree. */
    method MatchBestBid(inc: Incoming, remaining: int, ghost limit: int) returns (out: LevelOutcome)
      requires Valid() && bids.Keys != {} && limit <= BestBid()
      requires Registered(bids[BestBid()].ids, orders)
      modifies this, base
      ensures Valid()
      ensures base.matches == old(base.matches) + out.trades
      ensures orders == out.orders && asks == old(asks)
      ensures out == MatchLevelSpec(IncomingFinalRules, inc, remaining, old(bids)[old(BestBid())].ids, old(orders))
      ensures bids == AfterRound(old(bids), old(BestBid()), out.queue, out.filled)
      ensures !out.filled && bids.Keys != {} ==> BestBid() < old(BestBid())
      ensures out.filled ==> BestBid() == old(BestBid())
      ensures old(BidSweep(inc, remaining, limit)) ==
        if out.filled then SweepOutcome(bids, orders, out.remaining, out.trades, true, old(BestBid()))
        else PrependSweep(out.trades, BidSweep(inc, out.remaining, limit))
    {
      var at := BestBid();
      var level := bids[at];
      SideHoldsRegistered(bids, orders, Buy);
      SweepDownTreeRound(IncomingFinalRules, inc, remaining, bids, orders, limit);
      SidesHoldAfterMatch(IncomingFinalRules, bids, Buy, asks, Sell, orders, at, inc, remaining);
      out := MatchLevel(base, IncomingFinalRules, inc, remaining, level.ids, orders);
      SideHoldsAfterRound(bids, out.orders, Buy, at, out.queue, out.filled);
      bids := bids[at := level.(ids := out.queue)];
      orders := out.orders;
      if !out.filled {
        bids := bids - {at};
      }
    }

    /** The buy half of `add` up to resting: while the ask tree is not empty
        and the buy reaches the best ask, the level there is matched and,
        once exhausted, removed. The result is the reference sweep of the buy
        over the old ask tree: either the buy is completed at the level that
        is now the best ask, or the ask tree is empty or its best ask is
        above the buy; the ask levels removed are all within the buy's limit
        and below every level left, and no other ask level changed. */
    method SweepAsks(order: LimitOrder) returns (filled: bool, remaining: int, trades: seq<Trade>)
      requires Valid() && order.direction == Buy
      modifies this, base
      ensures Valid()
      ensures base.matches == old(base.matches) + trades
      ensures var s := old(AskSweep(IncomingOf(order), order.quantity, order.price));
        && asks == s.side && orders == s.orders
        && filled == s.filled && remaining == s.remaining && trades == s.trades
        && (filled ==> BestAsk() == s.at)
      ensures bids == old(bids)
      ensures TradesOf(trades, IncomingOf(order))
      ensures filled ==> trades != [] && TotalQuantity(trades) == order.quantity && Last(trades).quantity == remaining
      ensures !filled ==> TotalQuantity(trades) + remaining == order.quantity && (asks.Keys == {} || order.price < BestAsk())
      ensures (old(asks).Keys == {} || order.price < old(BestAsk())) ==> !filled && trades == [] && remaining == order.quantity
      ensures SameExceptQuantity(old(orders), orders)
      ensures LowestRemoved(old(asks).Keys, asks.Keys, order.price)
      ensures forall p | p in asks && (p != BestAsk() || !filled) :: asks[p] == old(asks)[p]
    {
      var inc := IncomingOf(order);
      ghost var asks0, orders0 := asks, orders;
      if asks.Keys == {} || order.price < BestAsk() {
        SideHoldsRegistered(asks, orders, Sell);
        SweepUpTreeStops(IncomingFinalRules, inc, order.quantity, asks, orders, order.price);
      }
      filled, remaining, trades := false, order.quantity, [];
      while asks.Keys != {} && order.price >= BestAsk()
        invariant Valid()
        invariant base.matches == old(base.matches) + trades
        invariant bids == old(bids)
        invariant old(AskSweep(inc, order.quantity, order.price)) == PrependSweep(trades, AskSweep(inc, remaining, order.price))
        decreases if asks.Keys == {} then -1 else order.price - BestAsk()
      {
        assert OnSide(asks[BestAsk()], BestAsk(), orders, Sell);
        var out := MatchBestAsk(inc, remaining, order.price);
        PrependSweepTwice(trades, out.trades, AskSweep(inc, out.remaining, order.price));
        trades := trades + out.trades;
        remaining := out.remaining;
        if out.filled {
          filled := true;
          SweepUpTreeHolds(IncomingFinalRules, inc, order.quantity, asks0, asks0, orders0, order.price);
          return;
        }
      }
      SweepUpTreeHolds(IncomingFinalRules, inc, order.quantity, asks0, asks0, orders0, order.price);
      SideHoldsRegistered(asks, orders, Sell);
      SweepUpTreeStops(IncomingFinalRules, inc, remaining, asks, orders, order.price);
    }

    /** The sell half of `add` up to resting, symmetric to `SweepAsks`. */
    method SweepBids(order: LimitOrder) returns (filled: bool, remaining: int, trades: seq<Trade>)
      requires Valid() && order.direction == Sell
      modifies this, base
      ensures Valid()
      ensures base.matches == old(base.matches) + trades
      ensures var s := old(BidSweep(IncomingOf(order), order.quantity, order.price));
        && bids == s.side && orders == s.orders
        && filled == s.filled && remaining == s.remaining && trades == s.trades
        && (filled ==> BestBid() == s.at)
      ensures asks == old(asks)
      ensures TradesOf(trades, IncomingOf(order))
      ensures filled ==> trades != [] && TotalQuantity(trades) == order.quantity && Last(trades).quantity == remaining
      ensures !filled ==> TotalQuantity(trades) + remaining == order.quantity && (bids.Keys == {} || BestBid() < order.price)
      ensures (old(bids).Keys == {} || old(BestBid()) < order.price) ==> !filled && trades == [] && remaining == order.quantity
      ensures SameExceptQuantity(old(orders), orders)
      ensures HighestRemoved(old(bids).Keys, bids.Keys, order.price)
      ensures forall p | p in bids && (p != BestBid() || !filled) :: bids[p] == old(bids)[p]
    {
      var inc := IncomingOf(order);
      ghost var bids0, orders0 := bids, orders;
      if bids.Keys == {} || BestBid() < order.price {
        SideHoldsRegistered(bids, orders, Buy);
        SweepDownTreeStops(IncomingFinalRules, inc, order.quantity, bids, orders, order.price);
      }
      filled, remaining, trades := false, order.quantity, [];
      while bids.Keys != {} && order.price <= BestBid()
        invariant Valid()
        invariant base.matches == old(base.matches) + trades
        invariant asks == old(asks)
        invariant old(BidSweep(inc, order.quantity, order.price)) == PrependSweep(trades, BidSweep(inc, remaining, order.price))
        decreases if bids.Keys == {} then -1 else BestBid() - order.price
      {
        assert OnSide(bids[BestBid()], BestBid(), orders, Buy);
        var out := MatchBestBid(inc, remaining, order.price);
        PrependSweepTwice(trades, out.trades, BidSweep(inc, out.remaining, order.price));
        trades := trades + out.trades;
        remaining := out.remaining;
        if out.filled {
          filled := true;
          SweepDownTreeHolds(IncomingFinalRules, inc, order.quantity, bids0, bids0, orders0, order.price);
          return;
        }
      }
      SweepDownTreeHolds(IncomingFinalRules, inc, order.quantity, bids0, bids0, orders0, order.price);
      SideHoldsRegistered(bids, orders, Buy);
      SweepDownTreeStops(IncomingFinalRules, inc, remaining, bids, orders, order.price);
    }

    /** The tail of `add` for a buy below every ask key: it rests in the bid
        tree. */
    method RestBuy(o: LimitOrder)
      requires Valid() && o.direction == Buy && o.id !in orders
      requires forall p | p in asks :: o.price < p
      modifies this
      ensures Valid()
      ensures orders == old(orders)[o.id := o]
      ensures bids == InsertOrAppend(old(bids), o) && asks == old(asks)
    {
      SideHoldsAfterRest(bids, orders, o);
      SideHoldsAfterRegister(asks, orders, o, Sell);
      AddOrderToQueue(o);
    }

    /** The tail of `add` for a sell above every bid key, mirrored. */
    method RestSell(o: LimitOrder)
      requires Valid() && o.direction == Sell && o.id !in orders
      requires forall p | p in bids :: p < o.price
      modifies this
      ensures Valid()
      ensures orders == old(orders)[o.id := o]
      ensures asks == InsertOrAppend(old(asks), o) && bids == old(bids)
    {
      SideHoldsAfterRest(asks, orders, o);
      SideHoldsAfterRegister(bids, orders, o, Buy);
      AddOrderToQueue(o);
    }

    /** `add`: a buy that reaches the best ask of a non-empty ask tree (a
        sell that reaches the best bid of a non-empty bid tree) is matched
        level by level, best price first and each level front first,
        exhausted levels leaving the tree; what is left of it rests in its
        side's tree. `quantity` is what the caller's order object holds
        afterwards. */
    method Add(order: LimitOrder) returns (quantity: int, trades: seq<Trade>)
      requires Valid()
      requires order.id !in orders
      modifies this, base
      ensures Valid()
      ensures base.matches == old(base.matches) + trades
      ensures TradesOf(trades, IncomingOf(order))
      ensures order.id in orders ==>
        TotalQuantity(trades) + quantity == order.quantity && orders[order.id] == order.(quantity := quantity)
      ensures order.id !in orders ==>
        trades != [] && TotalQuantity(trades) == order.quantity && Last(trades).quantity == quantity
      ensures !EntersMatching(order, old(BestBid()), old(BestAsk())) ==>
        order.id in orders && trades == [] && quantity == order.quantity
      ensures old(orders).Keys <= orders.Keys <= old(orders).Keys + {order.id}
      ensures SameExceptQuantity(old(orders), orders - {order.id})
      ensures order.id in orders ==>
        && order.price in Side(order.direction)
        && Side(order.direction)[order.price].ids ==
             (if order.price in old(Side(order.direction)) then old(Side(order.direction))[order.price].ids else [])
             + [order.id]
      ensures order.direction == Buy ==>
        && LowestRemoved(old(asks).Keys, asks.Keys, order.price)
        && (forall p | p in asks && (p != BestAsk() || order.id in orders) :: asks[p] == old(asks)[p])
        && (order.id in orders ==> forall p | p in asks :: order.price < p)
        && (order.id !in orders ==> bids == old(bids))
      ensures order.direction == Sell ==>
        && HighestRemoved(old(bids).Keys, bids.Keys, order.price)
        && (forall p | p in bids && (p != BestBid() || order.id in orders) :: bids[p] == old(bids)[p])
        && (order.id in orders ==> forall p | p in bids :: p < order.price)
        && (order.id !in orders ==> asks == old(asks))
      ensures order.direction == Buy ==> var s := old(AskSweep(IncomingOf(order), order.quantity, order.price));
          && trades == s.trades && quantity == s.remaining && asks == s.side
          && (s.filled ==> orders == s.orders && bids == old(bids))
          && (!s.filled ==>
                && orders == s.orders[order.id := order.(quantity := quantity)]
                && bids == InsertOrAppend(old(bids), order.(quantity := quantity)))
      ensures order.direction == Sell ==> var s := old(BidSweep(IncomingOf(order), order.quantity, order.price));
          && trades == s.trades && quantity == s.remaining && bids == s.side
          && (s.filled ==> orders == s.orders && asks == old(asks))
          && (!s.filled ==>
                && orders == s.orders[order.id := order.(quantity := quantity)]
                && asks == InsertOrAppend(old(asks), order.(quantity := quantity)))
    {
      if order.direction == Buy {
        quantity, trades := AddBuy(order);
      } else {
        quantity, trades := AddSell(order);
      }
    }

    /** The buy branch of `add`: the buy sweeps the ask side and what is
        left of it rests. */
    method AddBuy(order: LimitOrder) returns (quantity: int, trades: seq<Trade>)
      requires Valid()
      requires order.id !in orders
      requires order.direction == Buy
      modifies this, base
      ensures Valid()
      ensures base.matches == old(base.matches) + trades
      ensures TradesOf(trades, IncomingOf(order))
      ensures order.id in orders ==>
        TotalQuantity(trades) + quantity == order.quantity && orders[order.id] == order.(quantity := quantity)
      ensures order.id !in orders ==>
        trades != [] && TotalQuantity(trades) == order.quantity && Last(trades).quantity == quantity
      ensures !EntersMatching(order, old(BestBid()), old(BestAsk())) ==>
        order.id in orders && trades == [] && quantity == order.quantity
      ensures old(orders).Keys <= orders.Keys <= old(orders).Keys + {order.id}
      ensures SameExceptQuantity(old(orders), orders - {order.id})
      ensures order.id in orders ==>
        && order.price in bids
        && bids[order.price].ids ==
             (if order.price in old(bids) then old(bids)[order.price].ids else [])
             + [order.id]
      ensures LowestRemoved(old(asks).Keys, asks.Keys, order.price)
      ensures forall p | p in asks && (p != BestAsk() || order.id in orders) :: asks[p] == old(asks)[p]
      ensures order.id in orders ==> forall p | p in asks :: order.price < p
      ensures order.id !in orders ==> bids == old(bids)
      ensures var s := old(AskSweep(IncomingOf(order), order.quantity, order.price));
        && trades == s.trades && quantity == s.remaining && asks == s.side
        && (s.filled ==> orders == s.orders && bids == old(bids))
        && (!s.filled ==>
              && orders == s.orders[order.id := order.(quantity := quantity)]
              && bids == InsertOrAppend(old(bids), order.(quantity := quantity)))
    {
      var filled;
      filled, quantity, trades := SweepAsks(order);
      if filled {
        return;
      }
      RestBuy(order.(quantity := quantity));
    }

    /** The sell branch of `add`, mirrored on the bid side. */
    method AddSell(order: LimitOrder) returns (quantity: int, trades: seq<Trade>)
      requires Valid()
      requires order.id !in orders
      requires order.direction == Sell
      modifies this, base
      ensures Valid()
      ensures base.matches == old(base.matches) + trades
      ensures TradesOf(trades, IncomingOf(order))
      ensures order.id in orders ==>
        TotalQuantity(trades) + quantity == order.quantity && orders[order.id] == order.(quantity := quantity)
      ensures order.id !in orders ==>
        trades != [] && TotalQuantity(trades) == order.quantity && Last(trades).quantity == quantity
      ensures !EntersMatching(order, old(BestBid()), old(BestAsk())) ==>
        order.id in orders && trades == [] && quantity == order.quantity
      ensures old(orders).Keys <= orders.Keys <= old(orders).Keys + {order.id}
      ensures SameExceptQuantity(old(orders), orders - {order.id})
      ensures order.id in orders ==>
        && order.price in asks
        && asks[order.price].ids ==
             (if order.price in old(asks) then old(asks)[order.price].ids else [])
             + [order.id]
      ensures HighestRemoved(old(bids).Keys, bids.Keys, order.price)
      ensures forall p | p in bids && (p != BestBid() || order.id in orders) :: bids[p] == old(bids)[p]
      ensures order.id in orders ==> forall p | p in bids :: p < order.price
      ensures order.id !in orders ==> asks == old(asks)
      ensures var s := old(BidSweep(IncomingOf(order), order.quantity, order.price));
        && trades == s.trades && quantity == s.remaining && bids == s.side
        && (s.filled ==> orders == s.orders && asks == old(asks))
        && (!s.filled ==>
              && orders == s.orders[order.id := order.(quantity := quantity)]
              && asks == InsertOrAppend(old(asks), order.(quantity := quantity)))
    {
      var filled;
      filled, quantity, trades := SweepBids(order);
      if filled {
        return;
      }
      RestSell(order.(quantity := quantity));
    }

    /** `cancel`: an unknown id fails (KeyError); the level is looked up in
        the tree of the order's side, and a missing one fails (KeyError); an
        order no longer queued there fails (ValueError). Otherwise the order
        leaves its level, which stays in its tree even when emptied, and
        `orders`. Nothing changes on failure, and every queued order can be
        cancelled. */
    method Cancel(id: Id) returns (r: Result<(), CancelError>)
      requires Valid()
      modifies this
      ensures Valid()
      ensures id !in old(orders) ==> r == Failure(UnknownOrderId)
      ensures id in old(orders) ==>
        var o := old(orders)[id];
        var book := old(Side(o.direction));
        && (o.price !in book ==> r == Failure(MissingLevel))
        && (o.price in book && id !in book[o.price].ids ==> r == Failure(NotInLevel))
        && (o.price in book && id in book[o.price].ids ==> r == Success(()))
      ensures forall p | p in old(bids) && id in old(bids)[p].ids :: r.Success?
      ensures forall p | p in old(asks) && id in old(asks)[p].ids :: r.Success?
      ensures r.Failure? ==> orders == old(orders) && bids == old(bids) && asks == old(asks)
      ensures r.Success? ==>
        var o := old(orders)[id];
        && orders == old(orders) - {id}
        && (o.direction == Buy ==> bids == old(bids)[o.price := old(bids)[o.price].Remove(id)] && asks == old(asks))
        && (o.direction == Sell ==> asks == old(asks)[o.price := old(asks)[o.price].Remove(id)] && bids == old(bids))
    {
      forall p | p in bids && id in bids[p].ids
        ensures id in orders && orders[id].direction == Buy && orders[id].price == p
      {
        OnSideDirection(bids[p], p, orders, Buy, IndexOf(bids[p].ids, id));
      }
      forall p | p in asks && id in asks[p].ids
        ensures id in orders && orders[id].direction == Sell && orders[id].price == p
      {
        OnSideDirection(asks[p], p, orders, Sell, IndexOf(asks[p].ids, id));
      }
      if id !in orders {
        return Failure(UnknownOrderId);
      }
      var o := orders[id];
      var book := if o.direction == Buy then bids else asks;
      if o.price !in book {
        return Failure(MissingLevel);
      }
      var level := book[o.price];
      if id !in level.ids {
        return Failure(NotInLevel);
      }
      if o.direction == Buy {
        SideHoldsAfterCancel(bids, orders, id, o.price, Buy);
        SideHoldsAfterDelete(asks, orders, id, Sell);
        bids := bids[o.price := level.Remove(id)];
      } else {
        SideHoldsAfterCancel(asks, orders, id, o.price, Sell);
        SideHoldsAfterDelete(bids, orders, id, Buy);
        asks := asks[o.price := level.Remove(id)];
      }
      orders := orders - {id};
      r := Success(());
    }

    /** `_add_order_to_queue`: the order is registered under its id and put
        in its side's tree (a one-order level for a new price, at the tail
        otherwise); the other tree is untouched. */
    method AddOrderToQueue(o: LimitOrder)
      modifies this
      ensures orders == old(orders)[o.id := o]
      ensures o.direction == Buy ==> bids == InsertOrAppend(old(bids), o) && asks == old(asks)
      ensures o.direction == Sell ==> asks == InsertOrAppend(old(asks), o) && bids == old(bids)
    {
      orders := orders[o.id := o];
      if o.direction == Buy {
        bids := InsertOrAppend(bids, o);
      } else {
        asks := InsertOrAppend(asks, o);
      }
    }
  }
}
