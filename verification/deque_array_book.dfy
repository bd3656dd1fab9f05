/** `ArrayDequeLimitOrderBook` of `limit_order_book/deque_lob/array_deque.py`
    together with the `add`/`cancel` loop it inherits from
    `limit_order_book/deque_lob/base_deque_limit_order_book.py`: one level per
    price 0..max_price in a flat array, with the best prices kept in `bidMax`
    and `askMin`. Prices 0 and max_price are the empty sentinels the cursors
    rest on when a side is empty. */
module DequeArrayBook {
  import opened Wrappers
  import opened Orders
  import opened PriceDeques
  import opened BaseBook
  import opened Levels
  import opened Matching
  import opened LevelSweeps

  /** `_get_next_level`: the nearest level above `p` holding orders, or the
      top sentinel when there is none. */
  function NextLevel(ls: seq<PriceDeque>, p: int): (q: int)
    requires 0 <= p < |ls| - 1
    ensures p < q <= |ls| - 1
    ensures forall k | p < k < q :: ls[k].ids == []
    ensures q == |ls| - 1 || ls[q].ids != []
    decreases |ls| - p
  {
    if ls[p + 1].ids != [] || p + 1 >= |ls| - 1 then p + 1 else NextLevel(ls, p + 1)
  }

  /** `_get_prev_level`: the nearest level below `p` holding orders, or the
      bottom sentinel 0 when there is none. */
  function PrevLevel(ls: seq<PriceDeque>, p: int): (q: int)
    requires 0 < p < |ls|
    ensures 0 <= q < p
    ensures forall k | q < k < p :: ls[k].ids == []
    ensures q == 0 || ls[q].ids != []
    decreases p
  {
    if ls[p - 1].ids != [] || p - 1 <= 0 then p - 1 else PrevLevel(ls, p - 1)
  }

  /** The reference price of `_update_best_ask_price`: the lower of the given
      price and the best ask; a missing price, and by Python's truthiness a
      price of 0, leave the best ask. */
  function AskStart(price: Option<int>, askMin: int): int
  {
    if price.Some? && price.value != 0 then Min(price.value, askMin) else askMin
  }

  /** The reference price of `_update_best_bid_price`, symmetrically. */
  function BidStart(price: Option<int>, bidMax: int): int
  {
    if price.Some? && price.value != 0 then Max(price.value, bidMax) else bidMax
  }

  /** The best ask `_update_best_ask_price` sets as written: the reference
      level if it holds orders, else the nearest level BELOW it. */
  function AskAsWritten(ls: seq<PriceDeque>, price: Option<int>, askMin: int): int
    requires 0 <= AskStart(price, askMin) < |ls|
    requires ls[AskStart(price, askMin)].ids == [] ==> 0 < AskStart(price, askMin)
  {
    var s := AskStart(price, askMin);
    if ls[s].ids != [] then s else PrevLevel(ls, s)
  }

  /** The best ask as evidently intended: the reference level if it holds
      orders, else the nearest level above it (as the tree version does). */
  function AskCorrected(ls: seq<PriceDeque>, price: Option<int>, askMin: int): int
    requires 0 <= AskStart(price, askMin) < |ls|
    requires ls[AskStart(price, askMin)].ids == [] ==> AskStart(price, askMin) < |ls| - 1
  {
    var s := AskStart(price, askMin);
    if ls[s].ids != [] then s else NextLevel(ls, s)
  }

  /** The best bid `_update_best_bid_price` sets: the reference level if it
      holds orders, else the nearest level below it. */
  function BidUpdated(ls: seq<PriceDeque>, price: Option<int>, bidMax: int): int
    requires 0 <= BidStart(price, bidMax) < |ls|
    requires ls[BidStart(price, bidMax)].ids == [] ==> 0 < BidStart(price, bidMax)
  {
    var s := BidStart(price, bidMax);
    if ls[s].ids != [] then s else PrevLevel(ls, s)
  }

  /** Moving the best ask up to the corrected result, from a reference price
      above the best bid whose side of the book is valid, keeps every level
      valid; the new best ask is the lowest level holding orders from the
      reference price up, or the top sentinel. */
  lemma AskCorrectedKeepsLevelsValid(
    ls: seq<PriceDeque>, orders: map<Id, LimitOrder>, bidMax: int, price: Option<int>, askMin: int)
    requires var s := AskStart(price, askMin);
      0 <= bidMax < s < |ls| && (ls[s].ids == [] ==> s < |ls| - 1)
    requires LevelsHold(ls, orders, bidMax, AskStart(price, askMin))
    ensures var s, a := AskStart(price, askMin), AskCorrected(ls, price, askMin);
      && s <= a < |ls|
      && (forall k | s <= k < a :: ls[k].ids == [])
      && (a == |ls| - 1 || ls[a].ids != [])
      && LevelsHold(ls, orders, bidMax, a)
  {
    var s, a := AskStart(price, askMin), AskCorrected(ls, price, askMin);
    forall p | 0 <= p < |ls|
      ensures LevelHolds(ls[p], p, orders, bidMax, a)
    {
      LevelHoldsAfterCursorMove(ls[p], p, orders, bidMax, s, bidMax, a);
    }
  }

  /** Moving the best bid down to the result of `_update_best_bid_price`,
      from a reference price below the best ask whose side of the book is
      valid, keeps every level valid; the new best bid is the highest level
      holding orders from the reference price down, or the sentinel 0. */
  lemma BidUpdatedKeepsLevelsValid(
    ls: seq<PriceDeque>, orders: map<Id, LimitOrder>, price: Option<int>, bidMax: int, askMin: int)
    requires var s := BidStart(price, bidMax);
      0 <= s < askMin && s < |ls| && (ls[s].ids == [] ==> 0 < s)
    requires LevelsHold(ls, orders, BidStart(price, bidMax), askMin)
    ensures var s, b := BidStart(price, bidMax), BidUpdated(ls, price, bidMax);
      && 0 <= b <= s
      && (forall k | b < k <= s :: ls[k].ids == [])
      && (b == 0 || ls[b].ids != [])
      && LevelsHold(ls, orders, b, askMin)
  {
    var s, b := BidStart(price, bidMax), BidUpdated(ls, price, bidMax);
    forall p | 0 <= p < |ls|
      ensures LevelHolds(ls[p], p, orders, b, askMin)
    {
      LevelHoldsAfterCursorMove(ls[p], p, orders, s, askMin, b, askMin);
    }
  }

  /** The best ask moved DOWN, as written: with a buy resting at 1, the best
      bid at 1 and the level at the best ask 2 exhausted, the best ask becomes
      1, level with the best bid and on a level of buys, so the next buy at
      price 1 or more would be matched against a buy. The corrected update
      moves up to the sentinel 3 and leaves the book uncrossed. */
  lemma AskAsWrittenCrossesBook()
    ensures var orders := map["b" := LimitOrder(7, 1, 5, Buy, "b")];
      var ls := [PriceDeque(0, []), PriceDeque(1, ["b"]), PriceDeque(2, []), PriceDeque(3, [])];
      && LevelsHold(ls, orders, 1, 2)
      && AskAsWritten(ls, None, 2) == 1
      && orders[ls[AskAsWritten(ls, None, 2)].ids[0]].direction == Buy
      && !(1 < AskAsWritten(ls, None, 2))
      && AskCorrected(ls, None, 2) == 3
      && 1 < AskCorrected(ls, None, 2)
  {
    var orders := map["b" := LimitOrder(7, 1, 5, Buy, "b")];
    var ls := [PriceDeque(0, []), PriceDeque(1, ["b"]), PriceDeque(2, []), PriceDeque(3, [])];
    assert LevelHolds(ls[1], 1, orders, 1, 2);
  }

  class ArrayDequeLimitOrderBook {
    const base: BaseLimitOrderBook
    /** `price_queues`: level `p` sits at index `p`. */
    const levels: array<PriceDeque>
    var orders: map<Id, LimitOrder>
    var bidMax: int
    var askMin: int

    /** Prices 1..max_price-1 carry orders; the sentinels 0 and max_price stay
        empty; the cursors are uncrossed and every level is valid. */
    ghost predicate Valid()
      reads this, levels
    {
      && 1 <= base.maxPrice
      && levels.Length == base.maxPrice + 1
      && 0 <= bidMax < askMin <= base.maxPrice
      && levels[0].ids == [] && levels[base.maxPrice].ids == []
      && (forall id | id in orders :: 1 <= orders[id].price < base.maxPrice)
      && LevelsHold(levels[..], orders, bidMax, askMin)
    }

    /** The reference sweep of an incoming buy over the levels as they are,
        from the best ask up to `limit`. */
    ghost function AskSweep(inc: Incoming, remaining: int, limit: int): SweepOutcome<seq<PriceDeque>>
      reads this, levels
      requires Valid() && limit < levels.Length
    {
      LevelsHoldRegistered(levels[..], orders, bidMax, askMin);
      SweepUpArray(DequeRules, inc, remaining, levels[..], orders, askMin, limit)
    }

    /** The reference sweep of an incoming sell over the levels as they are,
        from the best bid down to `limit`. */
    ghost function BidSweep(inc: Incoming, remaining: int, limit: int): SweepOutcome<seq<PriceDeque>>
      reads this, levels
      requires Valid() && 0 <= limit
    {
      LevelsHoldRegistered(levels[..], orders, bidMax, askMin);
      SweepDownArray(DequeRules, inc, remaining, levels[..], orders, bidMax, limit)
    }

    /** `__init__`: `max_price + 1` empty levels, level `p` at price `p`, the
        best bid at 0 and the best ask at `max_price`. */
    constructor (name: string, maxPrice: int)
      requires 0 <= maxPrice
      ensures 1 <= maxPrice ==> Valid()
      ensures fresh(base) && fresh(levels)
      ensures base.name == name && base.maxPrice == maxPrice && base.matches == []
      ensures levels.Length == maxPrice + 1
      ensures forall p | 0 <= p < levels.Length :: levels[p] == PriceDeque(p, [])
      ensures orders == map[] && bidMax == 0 && askMin == maxPrice
    {
      base := new BaseLimitOrderBook(name, maxPrice);
      levels := new PriceDeque[maxPrice + 1](p => PriceDeque(p, []));
      orders := map[];
      bidMax := 0;
      askMin := maxPrice;
    }

    /** `best_bid`: the best bid, at or above every resting buy and below the
        best ask. */
    function BestBid(): (r: int)
      reads this, levels
      requires Valid()
      ensures 0 <= r < askMin
      ensures forall p, i | 0 <= p < levels.Length && 0 <= i < |levels[p].ids| &&
        orders[levels[p].ids[i]].direction == Buy :: p <= r
    {
      assert LevelsHold(levels[..], orders, bidMax, askMin);
      bidMax
    }

    /** `best_ask`: the best ask, at or below every resting sell and above the
        best bid. */
    function BestAsk(): (r: int)
      reads this, levels
      requires Valid()
      ensures bidMax < r <= base.maxPrice
      ensures forall p, i | 0 <= p < levels.Length && 0 <= i < |levels[p].ids| &&
        orders[levels[p].ids[i]].direction == Sell :: r <= p
    {
      assert LevelsHold(levels[..], orders, bidMax, askMin);
      askMin
    }

    /** `spread`: positive, and no level strictly inside it holds orders. */
    function Spread(): (r: int)
      reads this, levels
      requires Valid()
      ensures r >= 1 && r == askMin - bidMax
      ensures forall p | bidMax < p < askMin :: levels[p].ids == []
    {
      forall p | bidMax < p < askMin
        ensures levels[p].ids == []
      {
        assert LevelHolds(levels[..][p], p, orders, bidMax, askMin);
        if levels[p].ids != [] {
          NonEmptyLevelIsOutsideSpread(levels[p], p, orders, bidMax, askMin);
        }
      }
      BaseBook.Spread(BestAsk(), BestBid())
    }

    /** `_get_next_level`. */
    method GetNextLevel(price: int) returns (q: int)
      requires levels.Length == base.maxPrice + 1
      requires 0 <= price < base.maxPrice
      ensures q == NextLevel(levels[..], price)
    {
      q := price + 1;
      while levels[q].ids == [] && q < base.maxPrice
        invariant price < q <= base.maxPrice
        invariant NextLevel(levels[..], price) == NextLevel(levels[..], q - 1)
        decreases base.maxPrice - q
      {
        q := q + 1;
      }
    }

    /** `_get_prev_level`. */
    method GetPrevLevel(price: int) returns (q: int)
      requires levels.Length == base.maxPrice + 1
      requires 0 < price <= base.maxPrice
      ensures q == PrevLevel(levels[..], price)
    {
      q := price - 1;
      while levels[q].ids == [] && q > 0
        invariant 0 <= q < price
        invariant PrevLevel(levels[..], price) == PrevLevel(levels[..], q + 1)
        decreases q
      {
        q := q - 1;
      }
    }

    /** `_update_best_ask_price` as written, moving down. */
    method UpdateBestAskPriceAsWritten(price: Option<int>)
      requires levels.Length == base.maxPrice + 1
      requires 0 <= AskStart(price, askMin) < levels.Length
      requires levels[AskStart(price, askMin)].ids == [] ==> 0 < AskStart(price, askMin)
      modifies this
      ensures askMin == AskAsWritten(levels[..], price, old(askMin))
      ensures bidMax == old(bidMax) && orders == old(orders)
    {
      var start := if price.Some? && price.value != 0 then Min(price.value, askMin) else askMin;
      if levels[start].ids != [] {
        askMin := start;
      } else {
        askMin := GetPrevLevel(start);
      }
    }

    /** `_update_best_ask_price` as evidently intended, moving up. */
    method UpdateBestAskPrice(price: Option<int>)
      requires levels.Length == base.maxPrice + 1
      requires 0 <= AskStart(price, askMin) < levels.Length
      requires levels[AskStart(price, askMin)].ids == [] ==> AskStart(price, askMin) < base.maxPrice
      modifies this
      ensures askMin == AskCorrected(levels[..], price, old(askMin))
      ensures bidMax == old(bidMax) && orders == old(orders)
    {
      var start := if price.Some? && price.value != 0 then Min(price.value, askMin) else askMin;
      if levels[start].ids != [] {
        askMin := start;
      } else {
        askMin := GetNextLevel(start);
      }
    }

    /** `_update_best_bid_price`. */
    method UpdateBestBidPrice(price: Option<int>)
      requires levels.Length == base.maxPrice + 1
      requires 0 <= BidStart(price, bidMax) < levels.Length
      requires levels[BidStart(price, bidMax)].ids == [] ==> 0 < BidStart(price, bidMax)
      modifies this
      ensures bidMax == BidUpdated(levels[..], price, old(bidMax))
      ensures askMin == old(askMin) && orders == old(orders)
    {
      var start := if price.Some? && price.value != 0 then Max(price.value, bidMax) else bidMax;
      if levels[start].ids != [] {
        bidMax := start;
      } else {
        bidMax := GetPrevLevel(start);
      }
    }

    /** One pass of the inner loop of `add` over the level at `at` (the best
        ask for a buy, the best bid for a sell): the level's queue and the
        orders become the outcome of matching, each trade is executed, and
        every level stays valid. */
    method MatchAt(at: int, inc: Incoming, remaining: int) returns (out: LevelOutcome)
      requires Valid() && 0 <= at < levels.Length && Registered(levels[at].ids, orders)
      modifies this, base, levels
      ensures out == MatchLevelSpec(DequeRules, inc, remaining, old(levels[at]).ids, old(orders))
      ensures base.matches == old(base.matches) + out.trades
      ensures levels[..] == old(levels[..])[at := old(levels[at]).(ids := out.queue)]
      ensures orders == out.orders && bidMax == old(bidMax) && askMin == old(askMin)
      ensures Valid()
      ensures SameExceptQuantity(old(orders), orders)
      ensures out.filled ==> out.trades != [] && Last(out.trades).quantity == out.remaining
      ensures out.filled ==> TotalQuantity(out.trades) == remaining
      ensures !out.filled ==> out.queue == [] && TotalQuantity(out.trades) + out.remaining == remaining
      ensures Crosses(inc, at) ==> TradesOf(out.trades, inc)
    {
      var level := levels[at];
      ghost var ls := levels[..];
      LevelsHoldAfterMatchAt(DequeRules, ls, orders, bidMax, askMin, at, inc, remaining);
      out := MatchLevel(base, DequeRules, inc, remaining, level.ids, orders);
      levels[at] := level.(ids := out.queue);
      orders := out.orders;
    }

    /** One round of the buy loop of `add`: the level at the best ask is
        matched; unless that completes the incoming order, the best ask moves
        up to the next level holding orders, or to the top sentinel. This is
        one round of the reference sweep up to `limit`: what that sweep does
        from the old book is this round's trades followed by what it does
        from the new one. */
    method MatchBestAsk(inc: Incoming, remaining: int, ghost limit: int) returns (out: LevelOutcome)
      requires Valid() && askMin <= limit < base.maxPrice
      modifies this, base, levels
      ensures Valid()
      ensures base.matches == old(base.matches) + out.trades
      ensures orders == out.orders && SameExceptQuantity(old(orders), orders) && bidMax == old(bidMax)
      ensures levels[..] == old(levels[..])[old(askMin) := old(levels[askMin]).(ids := out.queue)]
      ensures out.filled ==> askMin == old(askMin)
      ensures !out.filled ==>
        && old(askMin) < askMin && (askMin == base.maxPrice || levels[askMin].ids != [])
        && forall p | old(askMin) <= p < askMin :: levels[p].ids == []
      ensures out.filled ==> out.trades != [] && Last(out.trades).quantity == out.remaining
      ensures out.filled ==> TotalQuantity(out.trades) == remaining
      ensures !out.filled ==> TotalQuantity(out.trades) + out.remaining == remaining
      ensures Crosses(inc, old(askMin)) ==> TradesOf(out.trades, inc)
      ensures old(AskSweep(inc, remaining, limit)) ==
        if out.filled then SweepOutcome(levels[..], orders, out.remaining, out.trades, true, old(askMin))
        else PrependSweep(out.trades, AskSweep(inc, out.remaining, limit))
    {
      var at := askMin;
      LevelsHoldRegistered(levels[..], orders, bidMax, askMin);
      SweepUpArrayStep(DequeRules, inc, remaining, levels[..], orders, at, limit);
      out := MatchAt(at, inc, remaining);
      if !out.filled {
        UpdateBestAskPrice(None);
        AskCorrectedKeepsLevelsValid(levels[..], orders, bidMax, None, at);
        LevelsHoldRegistered(levels[..], orders, bidMax, askMin);
        SweepUpArraySkips(DequeRules, inc, out.remaining, levels[..], orders, at + 1, askMin, limit);
      }
    }

    /** One round of the sell loop of `add`, mirrored: the best bid moves
        down to the next level holding orders, or to the bottom sentinel. */
    method MatchBestBid(inc: Incoming, remaining: int, ghost limit: int) returns (out: LevelOutcome)
      requires Valid() && 1 <= limit <= bidMax
      modifies this, base, levels
      ensures Valid()
      ensures base.matches == old(base.matches) + out.trades
      ensures orders == out.orders && SameExceptQuantity(old(orders), orders) && askMin == old(askMin)
      ensures levels[..] == old(levels[..])[old(bidMax) := old(levels[bidMax]).(ids := out.queue)]
      ensures out.filled ==> bidMax == old(bidMax)
      ensures !out.filled ==>
        && bidMax < old(bidMax) && (bidMax == 0 || levels[bidMax].ids != [])
        && forall p | bidMax < p <= old(bidMax) :: levels[p].ids == []
      ensures out.filled ==> out.trades != [] && Last(out.trades).quantity == out.remaining
      ensures out.filled ==> TotalQuantity(out.trades) == remaining
      ensures !out.filled ==> TotalQuantity(out.trades) + out.remaining == remaining
      ensures Crosses(inc, old(bidMax)) ==> TradesOf(out.trades, inc)
      ensures old(BidSweep(inc, remaining, limit)) ==
        if out.filled then SweepOutcome(levels[..], orders, out.remaining, out.trades, true, old(bidMax))
        else PrependSweep(out.trades, BidSweep(inc, out.remaining, limit))
    {
      var at := bidMax;
      LevelsHoldRegistered(levels[..], orders, bidMax, askMin);
      SweepDownArrayStep(DequeRules, inc, remaining, levels[..], orders, at, limit);
      out := MatchAt(at, inc, remaining);
      if !out.filled {
        UpdateBestBidPrice(None);
        BidUpdatedKeepsLevelsValid(levels[..], orders, None, at, askMin);
        LevelsHoldRegistered(levels[..], orders, bidMax, askMin);
        SweepDownArraySkips(DequeRules, inc, out.remaining, levels[..], orders, at - 1, bidMax, limit);
      }
    }

    /** The buy loop of `add`: while the buy reaches the best ask, the level
        there is matched front-first and an exhausted level moves the best
        ask up. What it does is the reference sweep from the best ask up to
        the buy's price. */
    method MatchAsks(order: LimitOrder) returns (filled: bool, remaining: int, trades: seq<Trade>)
      requires Valid() && order.direction == Buy && 1 <= order.price < base.maxPrice
      modifies this, base, levels
      ensures Valid()
      ensures base.matches == old(base.matches) + trades
      ensures var s := old(AskSweep(IncomingOf(order), order.quantity, order.price));
        && levels[..] == s.side && orders == s.orders
        && filled == s.filled && remaining == s.remaining && trades == s.trades
        && (filled ==> askMin == s.at)
      ensures !filled ==> order.price < askMin
      ensures !filled && old(askMin) <= order.price ==> askMin == base.maxPrice || levels[askMin].ids != []
      ensures bidMax == old(bidMax) && old(askMin) <= askMin
      ensures forall p | old(askMin) <= p < askMin :: levels[p].ids == []
    {
      var inc := IncomingOf(order);
      filled, remaining, trades := false, order.quantity, [];
      ghost var moved := false;
      ghost var askMin0 := askMin;
      ghost var sweep := AskSweep(inc, order.quantity, order.price);
      while !filled && order.price >= askMin
        invariant Valid()
        invariant base.matches == old(base.matches) + trades
        invariant bidMax == old(bidMax) && old(askMin) <= askMin
        invariant forall p | old(askMin) <= p < askMin :: levels[p].ids == []
        invariant !filled ==> sweep == PrependSweep(trades, AskSweep(inc, remaining, order.price))
        invariant filled ==> sweep == SweepOutcome(levels[..], orders, remaining, trades, true, askMin)
        invariant !moved ==> askMin == askMin0
        invariant moved && !filled ==> askMin == base.maxPrice || levels[askMin].ids != []
        decreases base.maxPrice - askMin, if filled then 0 else 1
      {
        var out := MatchBestAsk(inc, remaining, order.price);
        PrependSweepTwice(trades, out.trades, AskSweep(inc, out.remaining, order.price));
        trades := trades + out.trades;
        remaining := out.remaining;
        filled := out.filled;
        moved := moved || !filled;
      }
      if !filled {
        LevelsHoldRegistered(levels[..], orders, bidMax, askMin);
        SweepUpArrayStops(DequeRules, inc, remaining, levels[..], orders, askMin, order.price);
      }
    }

    /** The buy half of `add` up to resting: the buy loop, with what the
        reference sweep promises about it. Either the buy is completed, or it
        no longer reaches the best ask and every level it swept is empty;
        the trades are the buy's and account for its quantity; the levels
        outside the swept range are untouched. */
    method SweepAsks(order: LimitOrder) returns (filled: bool, remaining: int, trades: seq<Trade>)
      requires Valid() && order.direction == Buy && 1 <= order.price < base.maxPrice
      modifies this, base, levels
      ensures Valid()
      ensures base.matches == old(base.matches) + trades
      ensures var s := old(AskSweep(IncomingOf(order), order.quantity, order.price));
        && levels[..] == s.side && orders == s.orders
        && filled == s.filled && remaining == s.remaining && trades == s.trades
        && (filled ==> askMin == s.at)
      ensures TradesOf(trades, IncomingOf(order))
      ensures filled ==> trades != [] && TotalQuantity(trades) == order.quantity && Last(trades).quantity == remaining
      ensures !filled ==> TotalQuantity(trades) + remaining == order.quantity && order.price < askMin
      ensures order.price < old(askMin) ==> !filled && trades == [] && remaining == order.quantity
      ensures !filled && old(askMin) <= order.price ==> askMin == base.maxPrice || levels[askMin].ids != []
      ensures SameExceptQuantity(old(orders), orders)
      ensures bidMax == old(bidMax) && old(askMin) <= askMin
      ensures forall p | old(askMin) <= p < askMin :: levels[p].ids == []
      ensures forall p | 0 <= p < levels.Length && (p < old(askMin) || askMin < p || (!filled && p == askMin)) ::
        levels[p] == old(levels[p])
    {
      var inc := IncomingOf(order);
      ghost var ls0, orders0, askMin0 := levels[..], orders, askMin;
      ghost var sweep := AskSweep(inc, order.quantity, order.price);
      filled, remaining, trades := MatchAsks(order);
      assert
        && TradesOf(sweep.trades, inc)
        && (sweep.filled ==>
              sweep.trades != [] && TotalQuantity(sweep.trades) == order.quantity
              && Last(sweep.trades).quantity == sweep.remaining)
        && (!sweep.filled ==> TotalQuantity(sweep.trades) + sweep.remaining == order.quantity)
        && (order.price < askMin0 ==> !sweep.filled && sweep.trades == [] && sweep.remaining == order.quantity)
        && SameExceptQuantity(orders0, sweep.orders)
        && (forall p | 0 <= p < |ls0| && (p < askMin0 || (if sweep.filled then sweep.at < p else order.price < p)) ::
              sweep.side[p] == ls0[p])
      by {
        SweepUpArrayHolds(DequeRules, inc, order.quantity, ls0, orders0, bidMax, askMin0, askMin0, order.price);
        SweepUpArrayClears(DequeRules, inc, order.quantity, ls0, orders0, askMin0, order.price);
        if order.price < askMin0 {
          SweepUpArrayStops(DequeRules, inc, order.quantity, ls0, orders0, askMin0, order.price);
        }
      }
    }

    /** The sell loop of `add`, mirrored: an exhausted level moves the best
        bid down. What it does is the reference sweep from the best bid down
        to the sell's price. */
    method MatchBids(order: LimitOrder) returns (filled: bool, remaining: int, trades: seq<Trade>)
      requires Valid() && order.direction == Sell && 1 <= order.price < base.maxPrice
      modifies this, base, levels
      ensures Valid()
      ensures base.matches == old(base.matches) + trades
      ensures var s := old(BidSweep(IncomingOf(order), order.quantity, order.price));
        && levels[..] == s.side && orders == s.orders
        && filled == s.filled && remaining == s.remaining && trades == s.trades
        && (filled ==> bidMax == s.at)
      ensures !filled ==> bidMax < order.price
      ensures !filled && order.price <= old(bidMax) ==> bidMax == 0 || levels[bidMax].ids != []
      ensures askMin == old(askMin) && bidMax <= old(bidMax)
      ensures forall p | bidMax < p <= old(bidMax) :: levels[p].ids == []
    {
      var inc := IncomingOf(order);
      filled, remaining, trades := false, order.quantity, [];
      ghost var moved := false;
      ghost var bidMax0 := bidMax;
      ghost var sweep := BidSweep(inc, order.quantity, order.price);
      while !filled && order.price <= bidMax
        invariant Valid()
        invariant base.matches == old(base.matches) + trades
        invariant askMin == old(askMin) && bidMax <= old(bidMax)
        invariant forall p | bidMax < p <= old(bidMax) :: levels[p].ids == []
        invariant !filled ==> sweep == PrependSweep(trades, BidSweep(inc, remaining, order.price))
        invariant filled ==> sweep == SweepOutcome(levels[..], orders, remaining, trades, true, bidMax)
        invariant !moved ==> bidMax == bidMax0
        invariant moved && !filled ==> bidMax == 0 || levels[bidMax].ids != []
        decreases bidMax, if filled then 0 else 1
      {
        var out := MatchBestBid(inc, remaining, order.price);
        PrependSweepTwice(trades, out.trades, BidSweep(inc, out.remaining, order.price));
        trades := trades + out.trades;
        remaining := out.remaining;
        filled := out.filled;
        moved := moved || !filled;
      }
      if !filled {
        LevelsHoldRegistered(levels[..], orders, bidMax, askMin);
        SweepDownArrayStops(DequeRules, inc, remaining, levels[..], orders, bidMax, order.price);
      }
    }

    /** The sell half of `add` up to resting, symmetric to `SweepAsks`. */
    method SweepBids(order: LimitOrder) returns (filled: bool, remaining: int, trades: seq<Trade>)
      requires Valid() && order.direction == Sell && 1 <= order.price < base.maxPrice
      modifies this, base, levels
      ensures Valid()
      ensures base.matches == old(base.matches) + trades
      ensures var s := old(BidSweep(IncomingOf(order), order.quantity, order.price));
        && levels[..] == s.side && orders == s.orders
        && filled == s.filled && remaining == s.remaining && trades == s.trades
        && (filled ==> bidMax == s.at)
      ensures TradesOf(trades, IncomingOf(order))
      ensures filled ==> trades != [] && TotalQuantity(trades) == order.quantity && Last(trades).quantity == remaining
      ensures !filled ==> TotalQuantity(trades) + remaining == order.quantity && bidMax < order.price
      ensures old(bidMax) < order.price ==> !filled && trades == [] && remaining == order.quantity
      ensures !filled && order.price <= old(bidMax) ==> bidMax == 0 || levels[bidMax].ids != []
      ensures SameExceptQuantity(old(orders), orders)
      ensures askMin == old(askMin) && bidMax <= old(bidMax)
      ensures forall p | bidMax < p <= old(bidMax) :: levels[p].ids == []
      ensures forall p | 0 <= p < levels.Length && (old(bidMax) < p || p < bidMax || (!filled && p == bidMax)) ::
        levels[p] == old(levels[p])
    {
      var inc := IncomingOf(order);
      ghost var ls0, orders0, bidMax0 := levels[..], orders, bidMax;
      ghost var sweep := BidSweep(inc, order.quantity, order.price);
      filled, remaining, trades := MatchBids(order);
      assert
        && TradesOf(sweep.trades, inc)
        && (sweep.filled ==>
              sweep.trades != [] && TotalQuantity(sweep.trades) == order.quantity
              && Last(sweep.trades).quantity == sweep.remaining)
        && (!sweep.filled ==> TotalQuantity(sweep.trades) + sweep.remaining == order.quantity)
        && (bidMax0 < order.price ==> !sweep.filled && sweep.trades == [] && sweep.remaining == order.quantity)
        && SameExceptQuantity(orders0, sweep.orders)
        && (forall p | 0 <= p < |ls0| && (bidMax0 < p || (if sweep.filled then p < sweep.at else p < order.price)) ::
              sweep.side[p] == ls0[p])
      by {
        SweepDownArrayHolds(DequeRules, inc, order.quantity, ls0, orders0, bidMax0, askMin, bidMax0, order.price);
        SweepDownArrayClears(DequeRules, inc, order.quantity, ls0, orders0, bidMax0, order.price);
        if bidMax0 < order.price {
          SweepDownArrayStops(DequeRules, inc, order.quantity, ls0, orders0, bidMax0, order.price);
        }
      }
    }

    /** The tail of `add` for a buy that no longer reaches the best ask: it
        rests at its price and the best bid is updated from that price. */
    method RestBuy(o: LimitOrder)
      requires Valid() && o.direction == Buy && 1 <= o.price < askMin && o.id !in orders
      modifies this, levels
      ensures Valid()
      ensures orders == old(orders)[o.id := o]
      ensures levels[..] == old(levels[..])[o.price := old(levels[o.price]).Append(o.id)]
      ensures askMin == old(askMin)
      ensures bidMax == BidUpdated(levels[..], Some(o.price), old(bidMax))
      ensures o.price <= bidMax <= Max(old(bidMax), o.price) && levels[bidMax].ids != []
    {
      ghost var b := Max(bidMax, o.price);
      LevelsHoldAfterCursorMove(levels[..], orders, bidMax, askMin, b, askMin);
      LevelsHoldAfterAppend(levels[..], orders, o, b, askMin);
      AddOrderToQueue(o);
      ghost var b0 := bidMax;
      UpdateBestBidPrice(Some(o.price));
      assert levels[..][o.price].ids != [];
      BidUpdatedKeepsLevelsValid(levels[..], orders, Some(o.price), b0, askMin);
    }

    /** The tail of `add` for a sell that no longer reaches the best bid: it
        rests at its price and the best ask is updated from that price. */
    method RestSell(o: LimitOrder)
      requires Valid() && o.direction == Sell && bidMax < o.price < base.maxPrice && o.id !in orders
      modifies this, levels
      ensures Valid()
      ensures orders == old(orders)[o.id := o]
      ensures levels[..] == old(levels[..])[o.price := old(levels[o.price]).Append(o.id)]
      ensures bidMax == old(bidMax)
      ensures askMin == AskCorrected(levels[..], Some(o.price), old(askMin))
      ensures Min(old(askMin), o.price) <= askMin <= o.price && levels[askMin].ids != []
    {
      ghost var a := Min(askMin, o.price);
      LevelsHoldAfterCursorMove(levels[..], orders, bidMax, askMin, bidMax, a);
      LevelsHoldAfterAppend(levels[..], orders, o, bidMax, a);
      AddOrderToQueue(o);
      ghost var a0 := askMin;
      UpdateBestAskPrice(Some(o.price));
      assert levels[..][o.price].ids != [];
      AskCorrectedKeepsLevelsValid(levels[..], orders, bidMax, Some(o.price), a0);
    }

    /** `add`: a buy that reaches the best ask (a sell that reaches the best
        bid) is matched level by level, best price first and each level front
        first; what is left of it rests at its own price, and the best bid
        (ask) is updated from that price. `quantity` is what the caller's
        order object holds afterwards: what was left when it rested or when
        its last trade completed it. */
    method Add(order: LimitOrder) returns (quantity: int, trades: seq<Trade>)
      requires Valid()
      requires 1 <= order.price < base.maxPrice
      requires order.id !in orders
      modifies this, base, levels
      ensures Valid()
      ensures base.matches == old(base.matches) + trades
      ensures TradesOf(trades, IncomingOf(order))
      ensures order.id in orders ==>
        TotalQuantity(trades) + quantity == order.quantity && orders[order.id] == order.(quantity := quantity)
      ensures order.id !in orders ==>
        trades != [] && TotalQuantity(trades) == order.quantity && Last(trades).quantity == quantity
      ensures !EntersMatching(order, old(bidMax), old(askMin)) ==>
        order.id in orders && trades == [] && quantity == order.quantity
      ensures old(orders).Keys <= orders.Keys <= old(orders).Keys + {order.id}
      ensures SameExceptQuantity(old(orders), orders - {order.id})
      ensures order.id in orders ==>
        levels[order.price].ids ==
          (if EntersMatching(order, old(bidMax), old(askMin)) then [] else old(levels[order.price].ids)) + [order.id]
      ensures order.direction == Buy ==>
        && old(askMin) <= askMin
        && (order.id in orders ==>
              order.price < askMin && order.price <= bidMax <= Max(old(bidMax), order.price) && levels[bidMax].ids != [])
        && (order.id !in orders ==> bidMax == old(bidMax))
        && (forall p | old(askMin) <= p < askMin && p != order.price :: levels[p].ids == [])
        && (forall p | 0 <= p < levels.Length && p != order.price && (p < old(askMin) || askMin < p) ::
              levels[p] == old(levels[p]))
      ensures order.direction == Sell ==>
        && bidMax <= old(bidMax)
        && (order.id in orders ==>
              bidMax < order.price && Min(old(askMin), order.price) <= askMin <= order.price && levels[askMin].ids != [])
        && (order.id !in orders ==> askMin == old(askMin))
        && (forall p | bidMax < p <= old(bidMax) && p != order.price :: levels[p].ids == [])
        && (forall p | 0 <= p < levels.Length && p != order.price && (old(bidMax) < p || p < bidMax) ::
              levels[p] == old(levels[p]))
      ensures order.direction == Buy ==> var s := old(AskSweep(IncomingOf(order), order.quantity, order.price));
        && trades == s.trades && quantity == s.remaining
        && (s.filled ==> levels[..] == s.side && orders == s.orders && askMin == s.at && bidMax == old(bidMax))
        && (!s.filled ==>
              && |s.side| == levels.Length
              && levels[..] == s.side[order.price := s.side[order.price].Append(order.id)]
              && orders == s.orders[order.id := order.(quantity := quantity)]
              && bidMax == BidUpdated(levels[..], Some(order.price), old(bidMax)))
      ensures order.direction == Sell ==> var s := old(BidSweep(IncomingOf(order), order.quantity, order.price));
        && trades == s.trades && quantity == s.remaining
        && (s.filled ==> levels[..] == s.side && orders == s.orders && bidMax == s.at && askMin == old(askMin))
        && (!s.filled ==>
              && |s.side| == levels.Length
              && levels[..] == s.side[order.price := s.side[order.price].Append(order.id)]
              && orders == s.orders[order.id := order.(quantity := quantity)]
              && askMin == AskCorrected(levels[..], Some(order.price), old(askMin)))
    {
      if order.direction == Buy {
        quantity, trades := AddBuy(order);
      } else {
        quantity, trades := AddSell(order);
      }
    }

    /** The buy branch of `add`: the buy sweeps the ask side and what is
        left of it rests. */
    method AddBuy(order: LimitOrder) returns (quantity: int, trades: seq<Trade>)
      requires Valid()
      requires 1 <= order.price < base.maxPrice
      requires order.id !in orders
      requires order.direction == Buy
      modifies this, base, levels
      ensures Valid()
      ensures base.matches == old(base.matches) + trades
      ensures TradesOf(trades, IncomingOf(order))
      ensures order.id in orders ==>
        TotalQuantity(trades) + quantity == order.quantity && orders[order.id] == order.(quantity := quantity)
      ensures order.id !in orders ==>
        trades != [] && TotalQuantity(trades) == order.quantity && Last(trades).quantity == quantity
      ensures !EntersMatching(order, old(bidMax), old(askMin)) ==>
        order.id in orders && trades == [] && quantity == order.quantity
      ensures old(orders).Keys <= orders.Keys <= old(orders).Keys + {order.id}
      ensures SameExceptQuantity(old(orders), orders - {order.id})
      ensures order.id in orders ==>
        levels[order.price].ids ==
          (if EntersMatching(order, old(bidMax), old(askMin)) then [] else old(levels[order.price].ids)) + [order.id]
      ensures old(askMin) <= askMin
      ensures order.id in orders ==>
          order.price < askMin && order.price <= bidMax <= Max(old(bidMax), order.price) && levels[bidMax].ids != []
      ensures order.id !in orders ==> bidMax == old(bidMax)
      ensures forall p | old(askMin) <= p < askMin && p != order.price :: levels[p].ids == []
      ensures forall p | 0 <= p < levels.Length && p != order.price && (p < old(askMin) || askMin < p) ::
        levels[p] == old(levels[p])
      ensures var s := old(AskSweep(IncomingOf(order), order.quantity, order.price));
        && trades == s.trades && quantity == s.remaining
        && (s.filled ==> levels[..] == s.side && orders == s.orders && askMin == s.at && bidMax == old(bidMax))
        && (!s.filled ==>
              && |s.side| == levels.Length
              && levels[..] == s.side[order.price := s.side[order.price].Append(order.id)]
              && orders == s.orders[order.id := order.(quantity := quantity)]
              && bidMax == BidUpdated(levels[..], Some(order.price), old(bidMax)))
    {
      var filled;
      filled, quantity, trades := SweepAsks(order);
      if filled {
        return;
      }
      ghost var swept := levels[..];
      assert swept[order.price] == levels[order.price];
      RestBuy(order.(quantity := quantity));
    }

    /** The sell branch of `add`, mirrored on the bid side. */
    method AddSell(order: LimitOrder) returns (quantity: int, trades: seq<Trade>)
      requires Valid()
      requires 1 <= order.price < base.maxPrice
      requires order.id !in orders
      requires order.direction == Sell
      modifies this, base, levels
      ensures Valid()
      ensures base.matches == old(base.matches) + trades
      ensures TradesOf(trades, IncomingOf(order))
      ensures order.id in orders ==>
        TotalQuantity(trades) + quantity == order.quantity && orders[order.id] == order.(quantity := quantity)
      ensures order.id !in orders ==>
        trades != [] && TotalQuantity(trades) == order.quantity && Last(trades).quantity == quantity
      ensures !EntersMatching(order, old(bidMax), old(askMin)) ==>
        order.id in orders && trades == [] && quantity == order.quantity
      ensures old(orders).Keys <= orders.Keys <= old(orders).Keys + {order.id}
      ensures SameExceptQuantity(old(orders), orders - {order.id})
      ensures order.id in orders ==>
        levels[order.price].ids ==
          (if EntersMatching(order, old(bidMax), old(askMin)) then [] else old(levels[order.price].ids)) + [order.id]
      ensures bidMax <= old(bidMax)
      ensures order.id in orders ==>
          bidMax < order.price && Min(old(askMin), order.price) <= askMin <= order.price && levels[askMin].ids != []
      ensures order.id !in orders ==> askMin == old(askMin)
      ensures forall p | bidMax < p <= old(bidMax) && p != order.price :: levels[p].ids == []
      ensures forall p | 0 <= p < levels.Length && p != order.price && (old(bidMax) < p || p < bidMax) ::
        levels[p] == old(levels[p])
      ensures var s := old(BidSweep(IncomingOf(order), order.quantity, order.price));
        && trades == s.trades && quantity == s.remaining
        && (s.filled ==> levels[..] == s.side && orders == s.orders && bidMax == s.at && askMin == old(askMin))
        && (!s.filled ==>
              && |s.side| == levels.Length
              && levels[..] == s.side[order.price := s.side[order.price].Append(order.id)]
              && orders == s.orders[order.id := order.(quantity := quantity)]
              && askMin == AskCorrected(levels[..], Some(order.price), old(askMin)))
    {
      var filled;
      filled, quantity, trades := SweepBids(order);
      if filled {
        return;
      }
      ghost var swept := levels[..];
      assert swept[order.price] == levels[order.price];
      RestSell(order.(quantity := quantity));
    }

    /** `cancel`: an unknown id fails (KeyError) and an order no longer
        queued at its level fails (ValueError); otherwise the order leaves
        its level and `orders`. Nothing changes on failure, and the cursors
        never change. */
    method Cancel(id: Id) returns (r: Result<(), CancelError>)
      requires Valid()
      modifies this, levels
      ensures Valid()
      ensures bidMax == old(bidMax) && askMin == old(askMin)
      ensures r.Success? <==> id in old(orders) && id in old(levels[orders[id].price].ids)
      ensures id !in old(orders) ==> r == Failure(UnknownOrderId)
      ensures id in old(orders) && r.Failure? ==> r == Failure(NotInLevel)
      ensures r.Failure? ==> orders == old(orders) && levels[..] == old(levels[..])
      ensures r.Success? ==>
        && orders == old(orders) - {id}
        && levels[..] == old(levels[..])[old(orders)[id].price := old(levels[orders[id].price]).Remove(id)]
    {
      if id !in orders {
        return Failure(UnknownOrderId);
      }
      var o := orders[id];
      var level := levels[o.price];
      if id !in level.ids {
        return Failure(NotInLevel);
      }
      LevelsHoldAfterCancel(levels[..], orders, id, bidMax, askMin);
      levels[o.price] := level.Remove(id);
      orders := orders - {id};
      r := Success(());
    }

    /** `_add_order_to_queue`: the order is registered under its id and
        appended at the tail of its price's level; nothing else changes. */
    method AddOrderToQueue(o: LimitOrder)
      requires levels.Length == base.maxPrice + 1
      requires 0 <= o.price < levels.Length
      modifies this, levels
      ensures orders == old(orders)[o.id := o]
      ensures levels[..] == old(levels[..])[o.price := old(levels[o.price]).Append(o.id)]
      ensures bidMax == old(bidMax) && askMin == old(askMin)
    {
      orders := orders[o.id := o];
      levels[o.price] := levels[o.price].Append(o.id);
    }
  }
}
