/** `BalancedTreeDequeLimitOrderBook` of
    `limit_order_book/deque_lob/balanced_tree.py` together with the
    `add`/`cancel` loop it inherits from
    `limit_order_book/deque_lob/base_deque_limit_order_book.py`: one ordered
    map of levels per side, the best bid being the largest bid key (0 when
    there is none) and the best ask the smallest ask key (`max_price` when
    there is none). Exhausted levels leave their tree when the best price is
    updated. */
module DequeTreeBook {
  import opened Wrappers
  import opened Orders
  import opened PriceDeques
  import opened BaseBook
  import opened Levels
  import opened Matching
  import opened Trees

  class BalancedTreeDequeLimitOrderBook {
    const base: BaseLimitOrderBook
    var orders: map<Id, LimitOrder>
    /** `_bids` and `_asks`: price to level. */
    var bids: map<int, PriceDeque>
    var asks: map<int, PriceDeque>

    /** Levels sit strictly between the sentinels 0 and max_price, every bid
        key is below every ask key, and each side's levels are valid and hold
        orders of that side only. */
    ghost predicate Valid()
      reads this
    {
      && 1 <= base.maxPrice
      && (forall p | p in bids :: 1 <= p < base.maxPrice)
      && (forall p | p in asks :: 1 <= p < base.maxPrice)
      && (forall b, a | b in bids && a in asks :: b < a)
      && SideHolds(bids, orders, Buy)
      && SideHolds(asks, orders, Sell)
    }

    /** The tree of side `d`. */
    function Side(d: Direction): map<int, PriceDeque>
      reads this
    {
      if d == Buy then bids else asks
    }

    /** The reference sweep of an incoming buy over the ask tree as it is. */
    ghost function AskSweep(inc: Incoming, remaining: int, limit: int): SweepOutcome<map<int, PriceDeque>>
      reads this
      requires Valid()
    {
      SideHoldsRegistered(asks, orders, Sell);
      SweepUpTree(DequeRules, inc, remaining, asks, orders, limit)
    }

    /** The reference sweep of an incoming sell over the bid tree as it is. */
    ghost function BidSweep(inc: Incoming, remaining: int, limit: int): SweepOutcome<map<int, PriceDeque>>
      reads this
      requires Valid()
    {
      SideHoldsRegistered(bids, orders, Buy);
      SweepDownTree(DequeRules, inc, remaining, bids, orders, limit)
    }

    /** `__init__`: two empty trees. */
    constructor (name: string, maxPrice: int)
      ensures 1 <= maxPrice ==> Valid()
      ensures fresh(base)
      ensures base.name == name && base.maxPrice == maxPrice && base.matches == []
      ensures orders == map[] && bids == map[] && asks == map[]
    {
      base := new BaseLimitOrderBook(name, maxPrice);
      orders := map[];
      bids := map[];
      asks := map[];
    }

    /** `best_bid`: 0 for an empty bid tree, else its largest key; below
        every ask key. */
    function BestBid(): (r: int)
      reads this
      requires Valid()
      ensures bids.Keys == {} ==> r == 0
      ensures bids.Keys != {} ==> r in bids && forall p | p in bids :: p <= r
      ensures 0 <= r < base.maxPrice
      ensures forall p | p in asks :: r < p
    {
      if bids.Keys == {} then 0 else MaxKey(bids.Keys)
    }

    /** `best_ask`: max_price for an empty ask tree, else its smallest key;
        above the best bid. */
    function BestAsk(): (r: int)
      reads this
      requires Valid()
      ensures asks.Keys == {} ==> r == base.maxPrice
      ensures asks.Keys != {} ==> r in asks && forall p | p in asks :: r <= p
      ensures 1 <= r <= base.maxPrice
      ensures forall p | p in bids :: p < r
    {
      if asks.Keys == {} then base.maxPrice else MinKey(asks.Keys)
    }

    /** `spread`: positive, and no level of either tree lies strictly inside
        it. */
    function Spread(): (r: int)
      reads this
      requires Valid()
      ensures r >= 1 && r == BestAsk() - BestBid()
      ensures forall p | p in bids || p in asks :: !(BestBid() < p < BestAsk())
    {
      BaseBook.Spread(BestAsk(), BestBid())
    }

    /** `_get_price_level`: the bid tree is asked for prices up to the best
        bid, the ask tree for the others, and a missing key is a KeyError
        (None). Because the trees are separated by the best bid, this finds
        the level of every key of either tree. */
    function GetPriceLevel(price: int): (r: Option<PriceDeque>)
      reads this
      requires Valid()
      ensures price in bids ==> r == Some(bids[price])
      ensures price in asks ==> r == Some(asks[price])
      ensures r.Some? ==> price in bids || price in asks
    {
      var book := if price <= BestBid() then bids else asks;
      if price in book then Some(book[price]) else None
    }

    /** `_get_next_level`, where its tree calls succeed: from the best bid,
        from the largest ask key, or from a key of the tree `price` selects.
        The result is the nearest key of either tree above `price`, or
        max_price when there is none. */
    function GetNextLevel(price: int): (q: int)
      reads this
      requires Valid()
      requires price == BestBid() || (asks.Keys != {} && (price == MaxKey(asks.Keys) ||
        (if price <= BestBid() then price in bids else price in asks)))
      ensures price < q <= base.maxPrice
      ensures q == base.maxPrice || q in bids || q in asks
      ensures forall p | (p in bids || p in asks) && price < p :: q <= p
    {
      if price == BestBid() then BestAsk()
      else if price == MaxKey(asks.Keys) then base.maxPrice
      else if price <= BestBid() then Succ(bids.Keys, price)
      else Succ(asks.Keys, price)
    }

    /** `_get_prev_level`, mirrored: the nearest key of either tree below
        `price`, or 0 when there is none. */
    function GetPrevLevel(price: int): (q: int)
      reads this
      requires Valid()
      requires price == BestAsk() || (bids.Keys != {} && (price == MinKey(bids.Keys) ||
        (if price <= BestBid() then price in bids else price in asks)))
      ensures 0 <= q < price
      ensures q == 0 || q in bids || q in asks
      ensures forall p | (p in bids || p in asks) && p < price :: p <= q
    {
      if price == BestAsk() then BestBid()
      else if price == MinKey(bids.Keys) then 0
      else if price <= BestBid() then Pred(bids.Keys, price)
      else Pred(asks.Keys, price)
    }

    /** `_update_best_ask_price`: the level at the reference price (the best
        ask when none is given) leaves the ask tree exactly when it is empty.
        Python fails when the level is missing or when an empty one is not an
        ask key. */
    method UpdateBestAskPrice(price: Option<int>)
      requires Valid()
      requires var level := if price.None? then BestAsk() else price.value;
        GetPriceLevel(level).Some? && (GetPriceLevel(level).value.ids == [] ==> level in asks)
      modifies this
      ensures Valid()
      ensures var level := if price.None? then old(BestAsk()) else price.value;
        asks == if old(GetPriceLevel(level)).value.ids == [] then old(asks) - {level} else old(asks)
      ensures bids == old(bids) && orders == old(orders)
    {
      var level := if price.None? then BestAsk() else price.value;
      if |GetPriceLevel(level).value.ids| == 0 {
        asks := asks - {level};
      }
    }

    /** `_update_best_bid_price`, mirrored on the bid tree. */
    method UpdateBestBidPrice(price: Option<int>)
      requires Valid()
      requires var level := if price.None? then BestBid() else price.value;
        GetPriceLevel(level).Some? && (GetPriceLevel(level).value.ids == [] ==> level in bids)
      modifies this
      ensures Valid()
      ensures var level := if price.None? then old(BestBid()) else price.value;
        bids == if old(GetPriceLevel(level)).value.ids == [] then old(bids) - {level} else old(bids)
      ensures asks == old(asks) && orders == old(orders)
    {
      var level := if price.None? then BestBid() else price.value;
      if |GetPriceLevel(level).value.ids| == 0 {
        bids := bids - {level};
      }
    }

    /** One pass of the inner loop of `add` over the ask level at `at`: that
        level's queue and the orders become the outcome of matching, each
        trade is executed, the bid tree is untouched and the book stays
        valid. */
    method MatchAsks(at: int, inc: Incoming, remaining: int) returns (out: LevelOutcome)
      requires Valid() && at in asks && Registered(asks[at].ids, orders)
      modifies this, base
      ensures out == MatchLevelSpec(DequeRules, inc, remaining, old(asks)[at].ids, old(orders))
      ensures base.matches == old(base.matches) + out.trades
      ensures asks == old(asks)[at := old(asks)[at].(ids := out.queue)] && bids == old(bids)
      ensures orders == out.orders
      ensures Valid()
      ensures BestBid() == old(BestBid()) && BestAsk() == old(BestAsk())
      ensures SameExceptQuantity(old(orders), orders)
      ensures out.filled ==> out.trades != [] && Last(out.trades).quantity == out.remaining
      ensures out.filled ==> TotalQuantity(out.trades) == remaining
      ensures !out.filled ==> out.queue == [] && TotalQuantity(out.trades) + out.remaining == remaining
      ensures Crosses(inc, at) ==> TradesOf(out.trades, inc)
    {
      var level := asks[at];
      SidesHoldAfterMatch(DequeRules, asks, Sell, bids, Buy, orders, at, inc, remaining);
      out := MatchLevel(base, DequeRules, inc, remaining, level.ids, orders);
      asks := asks[at := level.(ids := out.queue)];
      orders := out.orders;
      assert asks.Keys == old(asks).Keys;
    }

    /** The same over the bid level at `at`. */
    method MatchBids(at: int, inc: Incoming, remaining: int) returns (out: LevelOutcome)
      requires Valid() && at in bids && Registered(bids[at].ids, orders)
      modifies this, base
      ensures out == MatchLevelSpec(DequeRules, inc, remaining, old(bids)[at].ids, old(orders))
      ensures base.matches == old(base.matches) + out.trades
      ensures bids == old(bids)[at := old(bids)[at].(ids := out.queue)] && asks == old(asks)
      ensures orders == out.orders
      ensures Valid()
      ensures BestBid() == old(BestBid()) && BestAsk() == old(BestAsk())
      ensures SameExceptQuantity(old(orders), orders)
      ensures out.filled ==> out.trades != [] && Last(out.trades).quantity == out.remaining
      ensures out.filled ==> TotalQuantity(out.trades) == remaining
      ensures !out.filled ==> out.queue == [] && TotalQuantity(out.trades) + out.remaining == remaining
      ensures Crosses(inc, at) ==> TradesOf(out.trades, inc)
    {
      var level := bids[at];
      SidesHoldAfterMatch(DequeRules, bids, Buy, asks, Sell, orders, at, inc, remaining);
      out := MatchLevel(base, DequeRules, inc, remaining, level.ids, orders);
      bids := bids[at := level.(ids := out.queue)];
      orders := out.orders;
      assert bids.Keys == old(bids).Keys;
    }

    /** One round of the buy loop of `add`: match the level at the best ask;
        unless that completes the incoming order, the exhausted level leaves
        the ask tree. This is one round of the reference sweep up to `limit`:
        what that sweep does from the old book is this round's trades
        followed by what it does from the new one. */
    method MatchBestAsk(inc: Incoming, remaining: int, ghost limit: int) returns (out: LevelOutcome)
      requires Valid() && asks.Keys != {} && BestAsk() <= limit
      modifies this, base
      ensures Valid()
      ensures base.matches == old(base.matches) + out.trades
      ensures bids == old(bids)
      ensures asks == AfterRound(old(asks), old(BestAsk()), out.queue, out.filled)
      ensures !out.filled ==> old(BestAsk()) < BestAsk()
      ensures out.filled ==> BestAsk() == old(BestAsk())
      ensures old(AskSweep(inc, remaining, limit)) ==
        if out.filled then SweepOutcome(asks, orders, out.remaining, out.trades, true, old(BestAsk()))
        else PrependSweep(out.trades, AskSweep(inc, out.remaining, limit))
    {
      var at := BestAsk();
      assert OnSide(asks[at], at, orders, Sell);
      SideHoldsRegistered(asks, orders, Sell);
      SweepUpTreeRound(DequeRules, inc, remaining, asks, orders, limit);
      out := MatchAsks(at, inc, remaining);
      if !out.filled {
        UpdateBestAskPrice(None);
      }
    }

    /** One round of the sell loop of `add`, mirrored. */
    method MatchBestBid(inc: Incoming, remaining: int, ghost limit: int) returns (out: LevelOutcome)
      requires Valid() && bids.Keys != {} && limit <= BestBid()
      modifies this, base
      ensures Valid()
      ensures base.matches == old(base.matches) + out.trades
      ensures asks == old(asks)
      ensures bids == AfterRound(old(bids), old(BestBid()), out.queue, out.filled)
      ensures !out.filled ==> BestBid() < old(BestBid())
      ensures out.filled ==> BestBid() == old(BestBid())
      ensures old(BidSweep(inc, remaining, limit)) ==
        if out.filled then SweepOutcome(bids, orders, out.remaining, out.trades, true, old(BestBid()))
        else PrependSweep(out.trades, BidSweep(inc, out.remaining, limit))
    {
      var at := BestBid();
      assert OnSide(bids[at], at, orders, Buy);
      SideHoldsRegistered(bids, orders, Buy);
      SweepDownTreeRound(DequeRules, inc, remaining, bids, orders, limit);
      out := MatchBids(at, inc, remaining);
      if !out.filled {
        UpdateBestBidPrice(None);
      }
    }

    /** The buy half of `add` up to resting: while the buy reaches the best
        ask, match the level there front-first; an exhausted level leaves the
        ask tree. The result is the reference sweep of the buy over the old
        ask tree, so either the buy is completed at the level that is now the
        best ask, or it no longer reaches the best ask; the ask levels removed
        are exactly those below the new best ask, all within the buy's limit,
        and no other ask level changed. */
    method SweepAsks(order: LimitOrder) returns (filled: bool, remaining: int, trades: seq<Trade>)
      requires Valid() && order.direction == Buy && 1 <= order.price < base.maxPrice
      modifies this, base
      ensures Valid()
      ensures base.matches == old(base.matches) + trades
      ensures var s := old(AskSweep(IncomingOf(order), order.quantity, order.price));
        && asks == s.side && orders == s.orders
        && filled == s.filled && remaining == s.remaining && trades == s.trades
        && (filled ==> BestAsk() == s.at)
      ensures bids == old(bids)
      ensures TradesOf(trades, IncomingOf(order))
      ensures filled ==> trades != [] && TotalQuantity(trades) == order.quantity && Last(trades).quantity == remaining
      ensures !filled ==> TotalQuantity(trades) + remaining == order.quantity && order.price < BestAsk()
      ensures order.price < old(BestAsk()) ==> !filled && trades == [] && remaining == order.quantity
      ensures SameExceptQuantity(old(orders), orders)
      ensures !filled ==> SweptUp(old(asks), asks, order.price)
      ensures filled ==>
        && LowestRemoved(old(asks).Keys, asks.Keys, order.price)
        && forall p | p in asks && p != BestAsk() :: asks[p] == old(asks)[p]
    {
      var inc := IncomingOf(order);
      ghost var asks0, orders0 := asks, orders;
      if order.price < BestAsk() {
        SideHoldsRegistered(asks, orders, Sell);
        SweepUpTreeStops(DequeRules, inc, order.quantity, asks, orders, order.price);
      }
      filled, remaining, trades := false, order.quantity, [];
      while order.price >= BestAsk()
        invariant Valid()
        invariant base.matches == old(base.matches) + trades
        invariant bids == old(bids)
        invariant old(AskSweep(inc, order.quantity, order.price)) == PrependSweep(trades, AskSweep(inc, remaining, order.price))
        decreases base.maxPrice - BestAsk()
      {
        var out := MatchBestAsk(inc, remaining, order.price);
        PrependSweepTwice(trades, out.trades, AskSweep(inc, out.remaining, order.price));
        trades := trades + out.trades;
        remaining := out.remaining;
        if out.filled {
          filled := true;
          SweepUpTreeHolds(DequeRules, inc, order.quantity, asks0, asks0, orders0, order.price);
          return;
        }
      }
      SweepUpTreeHolds(DequeRules, inc, order.quantity, asks0, asks0, orders0, order.price);
      SideHoldsRegistered(asks, orders, Sell);
      SweepUpTreeStops(DequeRules, inc, remaining, asks, orders, order.price);
    }

    /** The sell half of `add` up to resting, symmetric to `SweepAsks`. */
    method SweepBids(order: LimitOrder) returns (filled: bool, remaining: int, trades: seq<Trade>)
      requires Valid() && order.direction == Sell && 1 <= order.price < base.maxPrice
      modifies this, base
      ensures Valid()
      ensures base.matches == old(base.matches) + trades
      ensures var s := old(BidSweep(IncomingOf(order), order.quantity, order.price));
        && bids == s.side && orders == s.orders
        && filled == s.filled && remaining == s.remaining && trades == s.trades
        && (filled ==> BestBid() == s.at)
      ensures asks == old(asks)
      ensures TradesOf(trades, IncomingOf(order))
      ensures filled ==> trades != [] && TotalQuantity(trades) == order.quantity && Last(trades).quantity == remaining
      ensures !filled ==> TotalQuantity(trades) + remaining == order.quantity && BestBid() < order.price
      ensures old(BestBid()) < order.price ==> !filled && trades == [] && remaining == order.quantity
      ensures SameExceptQuantity(old(orders), orders)
      ensures !filled ==> SweptDown(old(bids), bids, order.price)
      ensures filled ==>
        && HighestRemoved(old(bids).Keys, bids.Keys, order.price)
        && forall p | p in bids && p != BestBid() :: bids[p] == old(bids)[p]
    {
      var inc := IncomingOf(order);
      ghost var bids0, orders0 := bids, orders;
      if BestBid() < order.price {
        SideHoldsRegistered(bids, orders, Buy);
        SweepDownTreeStops(DequeRules, inc, order.quantity, bids, orders, order.price);
      }
      filled, remaining, trades := false, order.quantity, [];
      while order.price <= BestBid()
        invariant Valid()
        invariant base.matches == old(base.matches) + trades
        invariant asks == old(asks)
        invariant old(BidSweep(inc, order.quantity, order.price)) == PrependSweep(trades, BidSweep(inc, remaining, order.price))
        decreases BestBid()
      {
        var out := MatchBestBid(inc, remaining, order.price);
        PrependSweepTwice(trades, out.trades, BidSweep(inc, out.remaining, order.price));
        trades := trades + out.trades;
        remaining := out.remaining;
        if out.filled {
          filled := true;
          SweepDownTreeHolds(DequeRules, inc, order.quantity, bids0, bids0, orders0, order.price);
          return;
        }
      }
      SweepDownTreeHolds(DequeRules, inc, order.quantity, bids0, bids0, orders0, order.price);
      SideHoldsRegistered(bids, orders, Buy);
      SweepDownTreeStops(DequeRules, inc, remaining, bids, orders, order.price);
    }

    /** The tail of `add` for a buy below the best ask: it rests in the bid
        tree and the best-bid update from its price removes nothing, so the
        best bid becomes the higher of the old one and its price. */
    method RestBuy(o: LimitOrder)
      requires Valid() && o.direction == Buy && 1 <= o.price < BestAsk() && o.id !in orders
      modifies this
      ensures Valid()
      ensures orders == old(orders)[o.id := o]
      ensures bids == InsertOrAppend(old(bids), o) && asks == old(asks)
      ensures BestBid() == Max(old(BestBid()), o.price)
    {
      ghost var b0 := BestBid();
      SideHoldsAfterRest(bids, orders, o);
      SideHoldsAfterRegister(asks, orders, o, Sell);
      AddOrderToQueue(o);
      assert o.price in bids && bids[o.price].ids != [];
      UpdateBestBidPrice(Some(o.price));
      MaxKeyIs(bids.Keys, Max(b0, o.price));
    }

    /** The tail of `add` for a sell above the best bid, mirrored. */
    method RestSell(o: LimitOrder)
      requires Valid() && o.direction == Sell && BestBid() < o.price < base.maxPrice && o.id !in orders
      modifies this
      ensures Valid()
      ensures orders == old(orders)[o.id := o]
      ensures asks == InsertOrAppend(old(asks), o) && bids == old(bids)
      ensures BestAsk() == Min(old(BestAsk()), o.price)
    {
      ghost var a0 := BestAsk();
      SideHoldsAfterRest(asks, orders, o);
      SideHoldsAfterRegister(bids, orders, o, Buy);
      AddOrderToQueue(o);
      assert o.price in asks && asks[o.price].ids != [];
      UpdateBestAskPrice(Some(o.price));
      MinKeyIs(asks.Keys, Min(a0, o.price));
    }

    /** `add`: a buy that reaches the best ask (a sell that reaches the best
        bid) is matched level by level, best price first and each level front
        first, exhausted levels leaving the tree; what is left of it rests in
        its side's tree. `quantity` is what the caller's order object holds
        afterwards. */
    method Add(order: LimitOrder) returns (quantity: int, trades: seq<Trade>)
      requires Valid()
      requires 1 <= order.price < base.maxPrice
      requires order.id !in orders
      modifies this, base
      ensures Valid()
      ensures base.matches == old(base.matches) + trades
      ensures TradesOf(trades, IncomingOf(order))
      ensures order.id in orders ==>
        TotalQuantity(trades) + quantity == order.quantity && orders[order.id] == order.(quantity := quantity)
      ensures order.id !in orders ==>
        trades != [] && TotalQuantity(trades) == order.quantity && Last(trades).quantity == quantity
      ensures !EntersMatching(order, old(BestBid()), old(BestAsk())) ==>
        order.id in orders && trades == [] && quantity == order.quantity
      ensures old(orders).Keys <= orders.Keys <= old(orders).Keys + {order.id}
      ensures SameExceptQuantity(old(orders), orders - {order.id})
      ensures order.id in orders ==>
        && order.price in Side(order.direction)
        && Side(order.direction)[order.price].ids ==
             (if order.price in old(Side(order.direction)) then old(Side(order.direction))[order.price].ids else [])
             + [order.id]
      ensures order.direction == Buy ==>
        && (forall p | p in old(asks) :: p in asks <==> BestAsk() <= p)
        && (forall p | p in old(asks) && p !in asks :: p <= order.price)
        && (forall p | p in asks && p in old(asks) && p != BestAsk() :: asks[p] == old(asks)[p])
        && (order.id in orders ==> order.price < BestAsk() && BestBid() == Max(old(BestBid()), order.price))
        && (order.id !in orders ==> bids == old(bids))
      ensures order.direction == Sell ==>
        && (forall p | p in old(bids) :: p in bids <==> p <= BestBid())
        && (forall p | p in old(bids) && p !in bids :: order.price <= p)
        && (forall p | p in bids && p in old(bids) && p != BestBid() :: bids[p] == old(bids)[p])
        && (order.id in orders ==> BestBid() < order.price && BestAsk() == Min(old(BestAsk()), order.price))
        && (order.id !in orders ==> asks == old(asks))
      ensures order.direction == Buy ==> var s := old(AskSweep(IncomingOf(order), order.quantity, order.price));
          && trades == s.trades && quantity == s.remaining && asks == s.side
          && (s.filled ==> orders == s.orders && bids == old(bids))
          && (!s.filled ==>
                && orders == s.orders[order.id := order.(quantity := quantity)]
                && bids == InsertOrAppend(old(bids), order.(quantity := quantity)))
      ensures order.direction == Sell ==> var s := old(BidSweep(IncomingOf(order), order.quantity, order.price));
          && trades == s.trades && quantity == s.remaining && bids == s.side
          && (s.filled ==> orders == s.orders && asks == old(asks))
          && (!s.filled ==>
                && orders == s.orders[order.id := order.(quantity := quantity)]
                && asks == InsertOrAppend(old(asks), order.(quantity := quantity)))
    {
      if order.direction == Buy {
        quantity, trades := AddBuy(order);
      } else {
        quantity, trades := AddSell(order);
      }
    }

    /** The buy branch of `add`: the buy sweeps the ask side and what is
        left of it rests. */
    method AddBuy(order: LimitOrder) returns (quantity: int, trades: seq<Trade>)
      requires Valid()
      requires 1 <= order.price < base.maxPrice
      requires order.id !in orders
      requires order.direction == Buy
      modifies this, base
      ensures Valid()
      ensures base.matches == old(base.matches) + trades
      ensures TradesOf(trades, IncomingOf(order))
      ensures order.id in orders ==>
        TotalQuantity(trades) + quantity == order.quantity && orders[order.id] == order.(quantity := quantity)
      ensures order.id !in orders ==>
        trades != [] && TotalQuantity(trades) == order.quantity && Last(trades).quantity == quantity
      ensures !EntersMatching(order, old(BestBid()), old(BestAsk())) ==>
        order.id in orders && trades == [] && quantity == order.quantity
      ensures old(orders).Keys <= orders.Keys <= old(orders).Keys + {order.id}
      ensures SameExceptQuantity(old(orders), orders - {order.id})
      ensures order.id in orders ==>
        && order.price in bids
        && bids[order.price].ids ==
             (if order.price in old(bids) then old(bids)[order.price].ids else [])
             + [order.id]
      ensures forall p | p in old(asks) :: p in asks <==> BestAsk() <= p
      ensures forall p | p in old(asks) && p !in asks :: p <= order.price
      ensures forall p | p in asks && p in old(asks) && p != BestAsk() :: asks[p] == old(asks)[p]
      ensures order.id in orders ==> order.price < BestAsk() && BestBid() == Max(old(BestBid()), order.price)
      ensures order.id !in orders ==> bids == old(bids)
      ensures var s := old(AskSweep(IncomingOf(order), order.quantity, order.price));
        && trades == s.trades && quantity == s.remaining && asks == s.side
        && (s.filled ==> orders == s.orders && bids == old(bids))
        && (!s.filled ==>
              && orders == s.orders[order.id := order.(quantity := quantity)]
              && bids == InsertOrAppend(old(bids), order.(quantity := quantity)))
    {
      var filled;
      filled, quantity, trades := SweepAsks(order);
      if !filled {
        RestBuy(order.(quantity := quantity));
      }
      LowestRemovedFrom(old(asks).Keys, asks.Keys, order.price, BestAsk());
    }

    /** The sell branch of `add`, mirrored on the bid side. */
    method AddSell(order: LimitOrder) returns (quantity: int, trades: seq<Trade>)
      requires Valid()
      requires 1 <= order.price < base.maxPrice
      requires order.id !in orders
      requires order.direction == Sell
      modifies this, base
      ensures Valid()
      ensures base.matches == old(base.matches) + trades
      ensures TradesOf(trades, IncomingOf(order))
      ensures order.id in orders ==>
        TotalQuantity(trades) + quantity == order.quantity && orders[order.id] == order.(quantity := quantity)
      ensures order.id !in orders ==>
        trades != [] && TotalQuantity(trades) == order.quantity && Last(trades).quantity == quantity
      ensures !EntersMatching(order, old(BestBid()), old(BestAsk())) ==>
        order.id in orders && trades == [] && quantity == order.quantity
      ensures old(orders).Keys <= orders.Keys <= old(orders).Keys + {order.id}
      ensures SameExceptQuantity(old(orders), orders - {order.id})
      ensures order.id in orders ==>
        && order.price in asks
        && asks[order.price].ids ==
             (if order.price in old(asks) then old(asks)[order.price].ids else [])
             + [order.id]
      ensures forall p | p in old(bids) :: p in bids <==> p <= BestBid()
      ensures forall p | p in old(bids) && p !in bids :: order.price <= p
      ensures forall p | p in bids && p in old(bids) && p != BestBid() :: bids[p] == old(bids)[p]
      ensures order.id in orders ==> BestBid() < order.price && BestAsk() == Min(old(BestAsk()), order.price)
      ensures order.id !in orders ==> asks == old(asks)
      ensures var s := old(BidSweep(IncomingOf(order), order.quantity, order.price));
        && trades == s.trades && quantity == s.remaining && bids == s.side
        && (s.filled ==> orders == s.orders && asks == old(asks))
        && (!s.filled ==>
              && orders == s.orders[order.id := order.(quantity := quantity)]
              && asks == InsertOrAppend(old(asks), order.(quantity := quantity)))
    {
      var filled;
      filled, quantity, trades := SweepBids(order);
      if !filled {
        RestSell(order.(quantity := quantity));
      }
      HighestRemovedFrom(old(bids).Keys, bids.Keys, order.price, BestBid());
    }

    /** `cancel`: an unknown id fails (KeyError), a price whose level the
        lookup does not find fails (KeyError), and an order no longer queued
        at that level fails (ValueError); otherwise the order leaves its level,
        which stays in its tree even when emptied, and `orders`. Nothing
        changes on failure, and every queued order can be cancelled. */
    method Cancel(id: Id) returns (r: Result<(), CancelError>)
      requires Valid()
      modifies this
      ensures Valid()
      ensures id !in old(orders) ==> r == Failure(UnknownOrderId)
      ensures id in old(orders) ==>
        var found := old(GetPriceLevel(orders[id].price));
        && (found.None? ==> r == Failure(MissingLevel))
        && (found.Some? && id !in found.value.ids ==> r == Failure(NotInLevel))
        && (found.Some? && id in found.value.ids ==> r == Success(()))
      ensures forall p | p in old(bids) && id in old(bids)[p].ids :: r.Success?
      ensures forall p | p in old(asks) && id in old(asks)[p].ids :: r.Success?
      ensures r.Failure? ==> orders == old(orders) && bids == old(bids) && asks == old(asks)
      ensures r.Success? ==>
        var p := old(orders)[id].price;
        && orders == old(orders) - {id}
        && (p in old(bids) ==> bids == old(bids)[p := old(bids)[p].Remove(id)] && asks == old(asks))
        && (p !in old(bids) ==> p in old(asks) && asks == old(asks)[p := old(asks)[p].Remove(id)] && bids == old(bids))
    {
      forall q | q in bids && id in bids[q].ids
        ensures id in orders && orders[id].price == q
      {
        assert OnSide(bids[q], q, orders, Buy);
        OnSideDirection(bids[q], q, orders, Buy, IndexOf(bids[q].ids, id));
      }
      forall q | q in asks && id in asks[q].ids
        ensures id in orders && orders[id].price == q
      {
        assert OnSide(asks[q], q, orders, Sell);
        OnSideDirection(asks[q], q, orders, Sell, IndexOf(asks[q].ids, id));
      }
      if id !in orders {
        return Failure(UnknownOrderId);
      }
      var p := orders[id].price;
      var found := GetPriceLevel(p);
      if found.None? {
        return Failure(MissingLevel);
      }
      var level := found.value;
      if id !in level.ids {
        return Failure(NotInLevel);
      }
      if p <= BestBid() {
        SideHoldsAfterCancel(bids, orders, id, p, Buy);
        OnSideDirection(bids[p], p, orders, Buy, IndexOf(bids[p].ids, id));
        SideHoldsAfterDelete(asks, orders, id, Sell);
        bids := bids[p := level.Remove(id)];
      } else {
        SideHoldsAfterCancel(asks, orders, id, p, Sell);
        OnSideDirection(asks[p], p, orders, Sell, IndexOf(asks[p].ids, id));
        SideHoldsAfterDelete(bids, orders, id, Buy);
        asks := asks[p := level.Remove(id)];
      }
      orders := orders - {id};
      r := Success(());
    }

    /** `_add_order_to_queue`: the order is registered under its id and put
        in its side's tree (a one-order level for a new price, at the tail
        otherwise); the other tree is untouched. */
    method AddOrderToQueue(o: LimitOrder)
      modifies this
      ensures orders == old(orders)[o.id := o]
      ensures o.direction == Buy ==> bids == InsertOrAppend(old(bids), o) && asks == old(asks)
      ensures o.direction == Sell ==> asks == InsertOrAppend(old(asks), o) && bids == old(bids)
    {
      orders := orders[o.id := o];
      if o.direction == Buy {
        bids := InsertOrAppend(bids, o);
      } else {
        asks := InsertOrAppend(asks, o);
      }
    }
  }
}
