/** The older stand-alone `ArrayDequeLimitOrderBook` of
    `limit_order_book/array_deque.py`: one deque per price 0..max_price-1 in a
    flat array, the best prices kept in `bidMax` and `askMin`, which step by
    one price at a time while an incoming order sweeps the other side. `add`
    takes the order's fields and builds the resting order itself, with a
    freshly drawn UUID. */
module LegacyArrayBook {
  import opened Wrappers
  import opened Orders
  import opened PriceDeques
  import opened BaseBook
  import opened Levels
  import opened Matching
  import opened LegacyOrders
  import opened LevelSweeps

  class ArrayDequeLimitOrderBook {
    const base: BaseLimitOrderBook
    /** `price_queues`: the deque of price `p` sits at index `p`. */
    const queues: array<PriceDeque>
    var orders: map<Id, LimitOrder>
    var bidMax: int
    var askMin: int

    /** One deque per price below max_price; the cursors are uncrossed, the
        best bid at least -1 (where a sell sweep at price 0 leaves it) and the
        best ask at most max_price + 1, and the best bid indexes a deque
        unless there is none; every recorded order has an index
        price; every level is valid. */
    ghost predicate Valid()
      reads this, queues
    {
      && queues.Length == base.maxPrice
      && -1 <= bidMax < askMin <= base.maxPrice + 1
      && (bidMax < base.maxPrice || bidMax == 0)
      && (forall id | id in orders :: 0 <= orders[id].price < base.maxPrice)
      && LevelsHold(queues[..], orders, bidMax, askMin)
    }

    /** The reference sweep of an incoming buy over the deques as they are,
        from the best ask up to the buy's price, one price at a time. */
    ghost function AskSweep(inc: Incoming, remaining: int): SweepOutcome<seq<PriceDeque>>
      reads this, queues
      requires Valid() && inc.price < queues.Length
    {
      LevelsHoldRegistered(queues[..], orders, bidMax, askMin);
      SweepUpArray(LegacyBuyRules, inc, remaining, queues[..], orders, askMin, inc.price)
    }

    /** The reference sweep of an incoming sell over the deques as they are,
        from the best bid down to the sell's price. */
    ghost function BidSweep(inc: Incoming, remaining: int): SweepOutcome<seq<PriceDeque>>
      reads this, queues
      requires Valid() && 0 <= inc.price < queues.Length
    {
      LevelsHoldRegistered(queues[..], orders, bidMax, askMin);
      SweepDownArray(LegacySellRules, inc, remaining, queues[..], orders, bidMax, inc.price)
    }

    /** `__init__`: `max_price` empty deques (none for a negative max_price,
        as `range` gives), the best bid at 0 and the best ask just above
        max_price. */
    constructor (name: string, maxPrice: int)
      ensures 0 <= maxPrice ==> Valid()
      ensures fresh(base) && fresh(queues)
      ensures base.name == name && base.maxPrice == maxPrice && base.matches == []
      ensures queues.Length == Max(maxPrice, 0)
      ensures forall p | 0 <= p < queues.Length :: queues[p] == PriceDeque(p, [])
      ensures orders == map[] && bidMax == 0 && askMin == maxPrice + 1
    {
      base := new BaseLimitOrderBook(name, maxPrice);
      queues := new PriceDeque[Max(maxPrice, 0)](p => PriceDeque(p, []));
      orders := map[];
      bidMax := 0;
      askMin := maxPrice + 1;
    }

    /** `best_bid`: at or above every resting buy, below the best ask. */
    function BestBid(): (r: int)
      reads this, queues
      requires Valid()
      ensures -1 <= r < askMin
      ensures forall p, i | 0 <= p < queues.Length && 0 <= i < |queues[p].ids| &&
        orders[queues[p].ids[i]].direction == Buy :: p <= r
    {
      assert LevelsHold(queues[..], orders, bidMax, askMin);
      bidMax
    }

    /** `best_ask`: at or below every resting sell, above the best bid. */
    function BestAsk(): (r: int)
      reads this, queues
      requires Valid()
      ensures bidMax < r <= base.maxPrice + 1
      ensures forall p, i | 0 <= p < queues.Length && 0 <= i < |queues[p].ids| &&
        orders[queues[p].ids[i]].direction == Sell :: r <= p
    {
      assert LevelsHold(queues[..], orders, bidMax, askMin);
      askMin
    }

    /** One pass of the inner loop of `add` over the deque at `at` under the
        branch's trade rules: the deque's queue and the orders become the
        outcome of matching, each trade is executed, and every level stays
        valid. */
    method MatchAt(rules: TradeRules, at: int, inc: Incoming, remaining: int) returns (out: LevelOutcome)
      requires Valid() && 0 <= at < queues.Length && Registered(queues[at].ids, orders)
      requires rules.finalQuantity == FilledQuantity
      modifies this, base, queues
      ensures out == MatchLevelSpec(rules, inc, remaining, old(queues[at]).ids, old(orders))
      ensures base.matches == old(base.matches) + out.trades
      ensures queues[..] == old(queues[..])[at := old(queues[at]).(ids := out.queue)]
      ensures orders == out.orders && bidMax == old(bidMax) && askMin == old(askMin)
      ensures Valid()
      ensures SameExceptQuantity(old(orders), orders)
      ensures out.filled ==> out.trades != [] && Last(out.trades).quantity == out.remaining
      ensures out.filled ==> TotalQuantity(out.trades) == remaining
      ensures !out.filled ==> out.queue == [] && TotalQuantity(out.trades) + out.remaining == remaining
      ensures Crosses(inc, at) ==> TradesOf(out.trades, inc)
      ensures rules.partialPrice == IncomingPrice && rules.finalPrice == IncomingPrice ==>
        AllAtPrice(out.trades, inc.price)
    {
      var level := queues[at];
      ghost var ls := queues[..];
      LevelsHoldAfterMatchAt(rules, ls, orders, bidMax, askMin, at, inc, remaining);
      if rules.partialPrice == IncomingPrice && rules.finalPrice == IncomingPrice {
        MatchLevelAtIncomingPrice(rules, inc, remaining, level.ids, orders);
      }
      out := MatchLevel(base, rules, inc, remaining, level.ids, orders);
      queues[at] := level.(ids := out.queue);
      orders := out.orders;
    }

    /** One round of the buy loop of `add`: the deque at the best ask is
        matched front first, every trade at the buy's price; unless that
        completes the buy, the best ask moves up by one. This is one round
        of the reference sweep: what that sweep does from the old book is
        this round's trades followed by what it does from the new one. */
    method MatchAskMin(inc: Incoming, remaining: int) returns (out: LevelOutcome)
      requires Valid() && inc.direction == Buy && askMin <= inc.price < base.maxPrice
      modifies this, base, queues
      ensures Valid()
      ensures base.matches == old(base.matches) + out.trades
      ensures orders == out.orders && SameExceptQuantity(old(orders), orders)
      ensures TradesOf(out.trades, inc)
      ensures AllAtPrice(out.trades, inc.price)
      ensures out.filled ==> out.trades != [] && Last(out.trades).quantity == out.remaining
      ensures out.filled ==> TotalQuantity(out.trades) == remaining
      ensures !out.filled ==> TotalQuantity(out.trades) + out.remaining == remaining
      ensures bidMax == old(bidMax) && askMin == old(askMin) + (if out.filled then 0 else 1)
      ensures queues[..] == old(queues[..])[old(askMin) := old(queues[askMin]).(ids := out.queue)]
      ensures !out.filled ==> out.queue == []
      ensures old(AskSweep(inc, remaining)) ==
        if out.filled then SweepOutcome(queues[..], orders, out.remaining, out.trades, true, old(askMin))
        else PrependSweep(out.trades, AskSweep(inc, out.remaining))
    {
      var at := askMin;
      LevelsHoldRegistered(queues[..], orders, bidMax, askMin);
      SweepUpArrayStep(LegacyBuyRules, inc, remaining, queues[..], orders, at, inc.price);
      out := MatchAt(LegacyBuyRules, at, inc, remaining);
      if !out.filled {
        LevelsHoldAfterCursorMove(queues[..], orders, bidMax, askMin, bidMax, askMin + 1);
        askMin := askMin + 1;
      }
    }

    /** One round of the sell loop of `add`, mirrored, every trade at the
        resting buy's price: the best bid moves down by one. */
    method MatchBidMax(inc: Incoming, remaining: int) returns (out: LevelOutcome)
      requires Valid() && inc.direction == Sell && 0 <= inc.price <= bidMax && inc.price < base.maxPrice
      modifies this, base, queues
      ensures Valid()
      ensures base.matches == old(base.matches) + out.trades
      ensures orders == out.orders && SameExceptQuantity(old(orders), orders)
      ensures TradesOf(out.trades, inc)
      ensures out.filled ==> out.trades != [] && Last(out.trades).quantity == out.remaining
      ensures out.filled ==> TotalQuantity(out.trades) == remaining
      ensures !out.filled ==> TotalQuantity(out.trades) + out.remaining == remaining
      ensures askMin == old(askMin) && bidMax == old(bidMax) - (if out.filled then 0 else 1)
      ensures queues[..] == old(queues[..])[old(bidMax) := old(queues[bidMax]).(ids := out.queue)]
      ensures !out.filled ==> out.queue == []
      ensures old(BidSweep(inc, remaining)) ==
        if out.filled then SweepOutcome(queues[..], orders, out.remaining, out.trades, true, old(bidMax))
        else PrependSweep(out.trades, BidSweep(inc, out.remaining))
    {
      var at := bidMax;
      LevelsHoldRegistered(queues[..], orders, bidMax, askMin);
      SweepDownArrayStep(LegacySellRules, inc, remaining, queues[..], orders, at, inc.price);
      out := MatchAt(LegacySellRules, at, inc, remaining);
      if !out.filled {
        LevelsHoldAfterCursorMove(queues[..], orders, bidMax, askMin, bidMax - 1, askMin);
        bidMax := bidMax - 1;
      }
    }

    /** The buy loop of `add`: while the buy reaches the best ask, the deque
        there is matched and, once exhausted, passed. What it does is the
        reference sweep from the best ask up to the buy's price; when the buy
        is not completed the best ask ends just above that price, or where
        it was when the buy did not reach it. */
    method MatchAsks(inc: Incoming, quantity: int) returns (filled: bool, remaining: int, trades: seq<Trade>)
      requires Valid() && inc.direction == Buy && 0 <= inc.price < base.maxPrice
      modifies this, base, queues
      ensures Valid()
      ensures base.matches == old(base.matches) + trades
      ensures var s := old(AskSweep(inc, quantity));
        && queues[..] == s.side && orders == s.orders
        && filled == s.filled && remaining == s.remaining && trades == s.trades
        && (filled ==> askMin == s.at)
      ensures !filled ==> askMin == Max(old(askMin), inc.price + 1)
      ensures bidMax == old(bidMax) && old(askMin) <= askMin
    {
      filled, remaining, trades := false, quantity, [];
      ghost var sweep := AskSweep(inc, quantity);
      while !filled && inc.price >= askMin
        invariant Valid()
        invariant base.matches == old(base.matches) + trades
        invariant bidMax == old(bidMax) && old(askMin) <= askMin
        invariant askMin == old(askMin) || askMin <= inc.price + 1
        invariant !filled ==> sweep == PrependSweep(trades, AskSweep(inc, remaining))
        invariant filled ==> sweep == SweepOutcome(queues[..], orders, remaining, trades, true, askMin)
        decreases inc.price + 1 - askMin, if filled then 0 else 1
      {
        var out := MatchAskMin(inc, remaining);
        PrependSweepTwice(trades, out.trades, AskSweep(inc, out.remaining));
        trades := trades + out.trades;
        remaining := out.remaining;
        filled := out.filled;
      }
      if !filled {
        LevelsHoldRegistered(queues[..], orders, bidMax, askMin);
        SweepUpArrayStops(LegacyBuyRules, inc, remaining, queues[..], orders, askMin, inc.price);
      }
    }

    /** The buy half of `add` up to resting: the buy loop, with what the
        reference sweep promises about it. Either the buy is completed, or
        the best ask has passed its price and every deque it passed is
        empty; the trades are the buy's, all at its price, and account for
        its quantity; the deques outside the swept range are untouched. */
    method SweepAsks(inc: Incoming, quantity: int) returns (filled: bool, remaining: int, trades: seq<Trade>)
      requires Valid() && inc.direction == Buy && 0 <= inc.price < base.maxPrice
      modifies this, base, queues
      ensures Valid()
      ensures base.matches == old(base.matches) + trades
      ensures var s := old(AskSweep(inc, quantity));
        && queues[..] == s.side && orders == s.orders
        && filled == s.filled && remaining == s.remaining && trades == s.trades
        && (filled ==> askMin == s.at)
      ensures TradesOf(trades, inc)
      ensures AllAtPrice(trades, inc.price)
      ensures filled ==> trades != [] && TotalQuantity(trades) == quantity && Last(trades).quantity == remaining
      ensures !filled ==> TotalQuantity(trades) + remaining == quantity && inc.price < askMin
      ensures inc.price < old(askMin) ==> !filled && trades == [] && remaining == quantity
      ensures SameExceptQuantity(old(orders), orders)
      ensures bidMax == old(bidMax) && old(askMin) <= askMin
      ensures forall p | 0 <= p < queues.Length && old(askMin) <= p < askMin :: queues[p].ids == []
      ensures forall p | 0 <= p < queues.Length && (p < old(askMin) || askMin < p || (!filled && p == askMin)) ::
        queues[p] == old(queues[p])
    {
      ghost var ls0, orders0, askMin0 := queues[..], orders, askMin;
      ghost var sweep := AskSweep(inc, quantity);
      filled, remaining, trades := MatchAsks(inc, quantity);
      assert
        && TradesOf(sweep.trades, inc)
        && AllAtPrice(sweep.trades, inc.price)
        && (sweep.filled ==>
              sweep.trades != [] && TotalQuantity(sweep.trades) == quantity
              && Last(sweep.trades).quantity == sweep.remaining)
        && (!sweep.filled ==> TotalQuantity(sweep.trades) + sweep.remaining == quantity)
        && (inc.price < askMin0 ==> !sweep.filled && sweep.trades == [] && sweep.remaining == quantity)
        && SameExceptQuantity(orders0, sweep.orders)
        && (sweep.filled ==> askMin0 <= sweep.at <= inc.price)
        && (forall p | 0 <= p < |ls0| && (p < askMin0 || (if sweep.filled then sweep.at < p else inc.price < p)) ::
              sweep.side[p] == ls0[p])
        && (forall p | askMin0 <= p <= inc.price && (!sweep.filled || p < sweep.at) :: sweep.side[p].ids == [])
      by {
        SweepUpArrayHolds(LegacyBuyRules, inc, quantity, ls0, orders0, bidMax, askMin0, askMin0, inc.price);
        SweepUpArrayClears(LegacyBuyRules, inc, quantity, ls0, orders0, askMin0, inc.price);
        SweepUpArrayAtIncomingPrice(LegacyBuyRules, inc, quantity, ls0, orders0, askMin0, inc.price);
        if inc.price < askMin0 {
          SweepUpArrayStops(LegacyBuyRules, inc, quantity, ls0, orders0, askMin0, inc.price);
        }
      }
    }

    /** The sell loop of `add`, mirrored: the best bid steps down by one. */
    method MatchBids(inc: Incoming, quantity: int) returns (filled: bool, remaining: int, trades: seq<Trade>)
      requires Valid() && inc.direction == Sell && 0 <= inc.price < base.maxPrice
      modifies this, base, queues
      ensures Valid()
      ensures base.matches == old(base.matches) + trades
      ensures var s := old(BidSweep(inc, quantity));
        && queues[..] == s.side && orders == s.orders
        && filled == s.filled && remaining == s.remaining && trades == s.trades
        && (filled ==> bidMax == s.at)
      ensures !filled ==> bidMax == Min(old(bidMax), inc.price - 1)
      ensures askMin == old(askMin) && bidMax <= old(bidMax)
    {
      filled, remaining, trades := false, quantity, [];
      ghost var sweep := BidSweep(inc, quantity);
      while !filled && inc.price <= bidMax
        invariant Valid()
        invariant base.matches == old(base.matches) + trades
        invariant askMin == old(askMin) && bidMax <= old(bidMax)
        invariant bidMax == old(bidMax) || inc.price - 1 <= bidMax
        invariant !filled ==> sweep == PrependSweep(trades, BidSweep(inc, remaining))
        invariant filled ==> sweep == SweepOutcome(queues[..], orders, remaining, trades, true, bidMax)
        decreases bidMax - inc.price + 1, if filled then 0 else 1
      {
        var out := MatchBidMax(inc, remaining);
        PrependSweepTwice(trades, out.trades, BidSweep(inc, out.remaining));
        trades := trades + out.trades;
        remaining := out.remaining;
        filled := out.filled;
      }
      if !filled {
        LevelsHoldRegistered(queues[..], orders, bidMax, askMin);
        SweepDownArrayStops(LegacySellRules, inc, remaining, queues[..], orders, bidMax, inc.price);
      }
    }

    /** The sell half of `add` up to resting, symmetric to `SweepAsks`. */
    method SweepBids(inc: Incoming, quantity: int) returns (filled: bool, remaining: int, trades: seq<Trade>)
      requires Valid() && inc.direction == Sell && 0 <= inc.price < base.maxPrice
      modifies this, base, queues
      ensures Valid()
      ensures base.matches == old(base.matches) + trades
      ensures var s := old(BidSweep(inc, quantity));
        && queues[..] == s.side && orders == s.orders
        && filled == s.filled && remaining == s.remaining && trades == s.trades
        && (filled ==> bidMax == s.at)
      ensures TradesOf(trades, inc)
      ensures filled ==> trades != [] && TotalQuantity(trades) == quantity && Last(trades).quantity == remaining
      ensures !filled ==> TotalQuantity(trades) + remaining == quantity && bidMax < inc.price
      ensures old(bidMax) < inc.price ==> !filled && trades == [] && remaining == quantity
      ensures SameExceptQuantity(old(orders), orders)
      ensures askMin == old(askMin) && bidMax <= old(bidMax)
      ensures forall p | 0 <= p < queues.Length && bidMax < p <= old(bidMax) :: queues[p].ids == []
      ensures forall p | 0 <= p < queues.Length && (old(bidMax) < p || p < bidMax || (!filled && p == bidMax)) ::
        queues[p] == old(queues[p])
    {
      ghost var ls0, orders0, bidMax0 := queues[..], orders, bidMax;
      ghost var sweep := BidSweep(inc, quantity);
      filled, remaining, trades := MatchBids(inc, quantity);
      assert
        && TradesOf(sweep.trades, inc)
        && (sweep.filled ==>
              sweep.trades != [] && TotalQuantity(sweep.trades) == quantity
              && Last(sweep.trades).quantity == sweep.remaining)
        && (!sweep.filled ==> TotalQuantity(sweep.trades) + sweep.remaining == quantity)
        && (bidMax0 < inc.price ==> !sweep.filled && sweep.trades == [] && sweep.remaining == quantity)
        && SameExceptQuantity(orders0, sweep.orders)
        && (sweep.filled ==> inc.price <= sweep.at <= bidMax0)
        && (forall p | 0 <= p < |ls0| && (bidMax0 < p || (if sweep.filled then p < sweep.at else p < inc.price)) ::
              sweep.side[p] == ls0[p])
        && (forall p | inc.price <= p <= bidMax0 && (!sweep.filled || sweep.at < p) :: sweep.side[p].ids == [])
      by {
        SweepDownArrayHolds(LegacySellRules, inc, quantity, ls0, orders0, bidMax0, askMin, bidMax0, inc.price);
        SweepDownArrayClears(LegacySellRules, inc, quantity, ls0, orders0, bidMax0, inc.price);
        if bidMax0 < inc.price {
          SweepDownArrayStops(LegacySellRules, inc, quantity, ls0, orders0, bidMax0, inc.price);
        }
      }
    }

    /** The tail of `add` for a buy below the best ask: it rests at its
        price and the best bid is raised to that price. */
    method RestBuy(o: LimitOrder)
      requires Valid() && o.direction == Buy && 0 <= o.price < base.maxPrice && o.price < askMin
      requires o.id !in orders
      modifies this, queues
      ensures Valid()
      ensures orders == old(orders)[o.id := o]
      ensures queues[..] == old(queues[..])[o.price := old(queues[o.price]).Append(o.id)]
      ensures bidMax == Max(old(bidMax), o.price) && askMin == old(askMin)
    {
      LevelsHoldAfterCursorMove(queues[..], orders, bidMax, askMin, Max(bidMax, o.price), askMin);
      LevelsHoldAfterAppend(queues[..], orders, o, Max(bidMax, o.price), askMin);
      AddOrderToQueue(o);
      if bidMax < o.price {
        bidMax := o.price;
      }
    }

    /** The tail of `add` for a sell above the best bid: it rests at its
        price and the best ask is lowered to that price. */
    method RestSell(o: LimitOrder)
      requires Valid() && o.direction == Sell && 0 <= o.price < base.maxPrice && bidMax < o.price
      requires o.id !in orders
      modifies this, queues
      ensures Valid()
      ensures orders == old(orders)[o.id := o]
      ensures queues[..] == old(queues[..])[o.price := old(queues[o.price]).Append(o.id)]
      ensures askMin == Min(old(askMin), o.price) && bidMax == old(bidMax)
    {
      LevelsHoldAfterCursorMove(queues[..], orders, bidMax, askMin, bidMax, Min(askMin, o.price));
      LevelsHoldAfterAppend(queues[..], orders, o, bidMax, Min(askMin, o.price));
      AddOrderToQueue(o);
      if askMin > o.price {
        askMin := o.price;
      }
    }

    /** `add`: a buy that reaches the best ask (a sell that reaches the best
        bid) is matched one price at a time from the best price, each deque
        front first; a completed order gives None. Otherwise a new order with
        UUID `uuid` and the unmatched quantity rests at its price, the best
        bid is raised to its price (the best ask lowered to it), and the new
        order is returned. */
    method Add(traderId: TraderId, direction: Direction, quantity: int, price: int, uuid: nat)
      returns (r: Option<LimitOrder>, trades: seq<Trade>)
      requires Valid()
      requires 0 <= price < base.maxPrice
      requires IsUuid(uuid) && UuidHex(uuid) !in orders
      modifies this, base, queues
      ensures Valid()
      ensures base.matches == old(base.matches) + trades
      ensures TradesOf(trades, Incoming(traderId, direction, price))
      ensures direction == Buy ==> AllAtPrice(trades, price)
      ensures r.None? ==> trades != [] && TotalQuantity(trades) == quantity && orders.Keys == old(orders).Keys
      ensures r.Some? ==>
        && r.value == LegacyOrders.NewLimitOrder(traderId, price, quantity - TotalQuantity(trades), direction, uuid)
        && orders.Keys == old(orders).Keys + {r.value.id}
        && orders[r.value.id] == r.value
        && queues[price].ids ==
             (if EntersMatching(r.value, old(bidMax), old(askMin)) then [] else old(queues[price].ids)) + [r.value.id]
      ensures !EntersMatching(LegacyOrders.NewLimitOrder(traderId, price, quantity, direction, uuid), old(bidMax), old(askMin)) ==>
        r.Some? && trades == [] && r.value.quantity == quantity
      ensures SameExceptQuantity(old(orders), orders - {UuidHex(uuid)})
      ensures direction == Buy ==>
        && old(askMin) <= askMin
        && (r.Some? ==> price < askMin && bidMax == Max(old(bidMax), price))
        && (r.None? ==> bidMax == old(bidMax))
        && (forall p | 0 <= p < queues.Length && old(askMin) <= p < askMin && p != price :: queues[p].ids == [])
        && (forall p | 0 <= p < queues.Length && p != price && (p < old(askMin) || askMin < p) ::
              queues[p] == old(queues[p]))
      ensures direction == Sell ==>
        && bidMax <= old(bidMax)
        && (r.Some? ==> bidMax < price && askMin == Min(old(askMin), price))
        && (r.None? ==> askMin == old(askMin))
        && (forall p | 0 <= p < queues.Length && bidMax < p <= old(bidMax) && p != price :: queues[p].ids == [])
        && (forall p | 0 <= p < queues.Length && p != price && (old(bidMax) < p || p < bidMax) ::
              queues[p] == old(queues[p]))
      ensures direction == Buy ==> var s := old(AskSweep(Incoming(traderId, direction, price), quantity));
        && trades == s.trades
        && (s.filled ==> r.None? && queues[..] == s.side && orders == s.orders && askMin == s.at && bidMax == old(bidMax))
        && (!s.filled ==>
              && r == Some(LegacyOrders.NewLimitOrder(traderId, price, s.remaining, direction, uuid))
              && |s.side| == queues.Length
              && queues[..] == s.side[price := s.side[price].Append(r.value.id)]
              && orders == s.orders[r.value.id := r.value]
              && bidMax == Max(old(bidMax), price))
      ensures direction == Sell ==> var s := old(BidSweep(Incoming(traderId, direction, price), quantity));
        && trades == s.trades
        && (s.filled ==> r.None? && queues[..] == s.side && orders == s.orders && bidMax == s.at && askMin == old(askMin))
        && (!s.filled ==>
              && r == Some(LegacyOrders.NewLimitOrder(traderId, price, s.remaining, direction, uuid))
              && |s.side| == queues.Length
              && queues[..] == s.side[price := s.side[price].Append(r.value.id)]
              && orders == s.orders[r.value.id := r.value]
              && askMin == Min(old(askMin), price))
    {
      if direction == Buy {
        r, trades := AddBuy(traderId, direction, quantity, price, uuid);
      } else {
        r, trades := AddSell(traderId, direction, quantity, price, uuid);
      }
    }

    /** The buy branch of `add`: the buy sweeps the ask side and what is
        left of it rests. */
    method AddBuy(traderId: TraderId, direction: Direction, quantity: int, price: int, uuid: nat)
      returns (r: Option<LimitOrder>, trades: seq<Trade>)
      requires Valid()
      requires 0 <= price < base.maxPrice
      requires IsUuid(uuid) && UuidHex(uuid) !in orders
      requires direction == Buy
      modifies this, base, queues
      ensures Valid()
      ensures base.matches == old(base.matches) + trades
      ensures TradesOf(trades, Incoming(traderId, direction, price))
      ensures AllAtPrice(trades, price)
      ensures r.None? ==> trades != [] && TotalQuantity(trades) == quantity && orders.Keys == old(orders).Keys
      ensures r.Some? ==>
        && r.value == LegacyOrders.NewLimitOrder(traderId, price, quantity - TotalQuantity(trades), direction, uuid)
        && orders.Keys == old(orders).Keys + {r.value.id}
        && orders[r.value.id] == r.value
        && queues[price].ids ==
             (if EntersMatching(r.value, old(bidMax), old(askMin)) then [] else old(queues[price].ids)) + [r.value.id]
      ensures !EntersMatching(LegacyOrders.NewLimitOrder(traderId, price, quantity, direction, uuid), old(bidMax), old(askMin)) ==>
        r.Some? && trades == [] && r.value.quantity == quantity
      ensures SameExceptQuantity(old(orders), orders - {UuidHex(uuid)})
      ensures old(askMin) <= askMin
      ensures r.Some? ==> price < askMin && bidMax == Max(old(bidMax), price)
      ensures r.None? ==> bidMax == old(bidMax)
      ensures forall p | 0 <= p < queues.Length && old(askMin) <= p < askMin && p != price :: queues[p].ids == []
      ensures forall p | 0 <= p < queues.Length && p != price && (p < old(askMin) || askMin < p) ::
        queues[p] == old(queues[p])
      ensures var s := old(AskSweep(Incoming(traderId, direction, price), quantity));
        && trades == s.trades
        && (s.filled ==> r.None? && queues[..] == s.side && orders == s.orders && askMin == s.at && bidMax == old(bidMax))
        && (!s.filled ==>
              && r == Some(LegacyOrders.NewLimitOrder(traderId, price, s.remaining, direction, uuid))
              && |s.side| == queues.Length
              && queues[..] == s.side[price := s.side[price].Append(r.value.id)]
              && orders == s.orders[r.value.id := r.value]
              && bidMax == Max(old(bidMax), price))
    {
      var inc := Incoming(traderId, direction, price);
      var filled, remaining;
      filled, remaining, trades := SweepAsks(inc, quantity);
      if filled {
        return None, trades;
      }
      var o := LegacyOrders.NewLimitOrder(traderId, price, remaining, direction, uuid);
      ghost var swept := queues[..];
      assert swept[price] == queues[price];
      RestBuy(o);
      r := Some(o);
    }

    /** The sell branch of `add`, mirrored on the bid side. */
    method AddSell(traderId: TraderId, direction: Direction, quantity: int, price: int, uuid: nat)
      returns (r: Option<LimitOrder>, trades: seq<Trade>)
      requires Valid()
      requires 0 <= price < base.maxPrice
      requires IsUuid(uuid) && UuidHex(uuid) !in orders
      requires direction == Sell
      modifies this, base, queues
      ensures Valid()
      ensures base.matches == old(base.matches) + trades
      ensures TradesOf(trades, Incoming(traderId, direction, price))
      ensures r.None? ==> trades != [] && TotalQuantity(trades) == quantity && orders.Keys == old(orders).Keys
      ensures r.Some? ==>
        && r.value == LegacyOrders.NewLimitOrder(traderId, price, quantity - TotalQuantity(trades), direction, uuid)
        && orders.Keys == old(orders).Keys + {r.value.id}
        && orders[r.value.id] == r.value
        && queues[price].ids ==
             (if EntersMatching(r.value, old(bidMax), old(askMin)) then [] else old(queues[price].ids)) + [r.value.id]
      ensures !EntersMatching(LegacyOrders.NewLimitOrder(traderId, price, quantity, direction, uuid), old(bidMax), old(askMin)) ==>
        r.Some? && trades == [] && r.value.quantity == quantity
      ensures SameExceptQuantity(old(orders), orders - {UuidHex(uuid)})
      ensures bidMax <= old(bidMax)
      ensures r.Some? ==> bidMax < price && askMin == Min(old(askMin), price)
      ensures r.None? ==> askMin == old(askMin)
      ensures forall p | 0 <= p < queues.Length && bidMax < p <= old(bidMax) && p != price :: queues[p].ids == []
      ensures forall p | 0 <= p < queues.Length && p != price && (old(bidMax) < p || p < bidMax) ::
        queues[p] == old(queues[p])
      ensures var s := old(BidSweep(Incoming(traderId, direction, price), quantity));
        && trades == s.trades
        && (s.filled ==> r.None? && queues[..] == s.side && orders == s.orders && bidMax == s.at && askMin == old(askMin))
        && (!s.filled ==>
              && r == Some(LegacyOrders.NewLimitOrder(traderId, price, s.remaining, direction, uuid))
              && |s.side| == queues.Length
              && queues[..] == s.side[price := s.side[price].Append(r.value.id)]
              && orders == s.orders[r.value.id := r.value]
              && askMin == Min(old(askMin), price))
    {
      var inc := Incoming(traderId, direction, price);
      var filled, remaining;
      filled, remaining, trades := SweepBids(inc, quantity);
      if filled {
        return None, trades;
      }
      var o := LegacyOrders.NewLimitOrder(traderId, price, remaining, direction, uuid);
      ghost var swept := queues[..];
      assert swept[price] == queues[price];
      RestSell(o);
      r := Some(o);
    }

    /** `cancel`: an unknown id fails (KeyError) and an order no longer
        queued at its price fails (ValueError from `deque.remove`, which finds
        the order by its id); otherwise the order leaves its deque and
        `orders`. Nothing changes on failure, and the cursors never change. */
    method Cancel(id: Id) returns (r: Result<(), CancelError>)
      requires Valid()
      modifies this, queues
      ensures Valid()
      ensures bidMax == old(bidMax) && askMin == old(askMin)
      ensures r.Success? <==> id in old(orders) && id in old(queues[orders[id].price].ids)
      ensures id !in old(orders) ==> r == Failure(UnknownOrderId)
      ensures id in old(orders) && r.Failure? ==> r == Failure(NotInLevel)
      ensures r.Failure? ==> orders == old(orders) && queues[..] == old(queues[..])
      ensures r.Success? ==>
        && orders == old(orders) - {id}
        && queues[..] == old(queues[..])[old(orders)[id].price := old(queues[orders[id].price]).Remove(id)]
    {
      if id !in orders {
        return Failure(UnknownOrderId);
      }
      var o := orders[id];
      var level := queues[o.price];
      if id !in level.ids {
        return Failure(NotInLevel);
      }
      LevelsHoldAfterCancel(queues[..], orders, id, bidMax, askMin);
      queues[o.price] := level.Remove(id);
      orders := orders - {id};
      r := Success(());
    }

    /** `_add_order_to_queue`: the order is registered under its id and
        appended at the tail of its price's deque; nothing else changes. */
    method AddOrderToQueue(o: LimitOrder)
      requires 0 <= o.price < queues.Length
      modifies this, queues
      ensures orders == old(orders)[o.id := o]
      ensures queues[..] == old(queues[..])[o.price := old(queues[o.price]).Append(o.id)]
      ensures bidMax == old(bidMax) && askMin == old(askMin)
    {
      orders := orders[o.id := o];
      queues[o.price] := queues[o.price].Append(o.id);
    }
  }
}
