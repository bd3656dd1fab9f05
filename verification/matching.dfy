/** The loop that every version of the book runs over the queue of one price
    level (`while entries:` in each `add`): resting orders are consumed from
    the front while they are smaller than what is left of the incoming order;
    the first one that is not smaller completes the incoming order, is reduced
    (or popped when equal), and matching stops. The versions differ only in the
    price and quantity they log for a trade, captured by `TradeRules`. */
module Matching {
  import opened Orders
  import opened PriceDeques
  import opened BaseBook
  import opened Levels

  /** Which price a trade is logged at. */
  datatype PriceRule = RestingPrice | IncomingPrice

  /** Which quantity the trade that completes the incoming order logs: the
      quantity filled, or (as written in the older array book's sell branch)
      what the resting order has left after the fill. */
  datatype QuantityRule = FilledQuantity | RestingLeftover

  /** `partialPrice` prices a trade against a smaller resting order,
      `finalPrice` and `finalQuantity` the trade that completes the incoming
      order. */
  datatype TradeRules = TradeRules(partialPrice: PriceRule, finalPrice: PriceRule, finalQuantity: QuantityRule)

  /** `deque_lob/base_deque_limit_order_book.py`: always the resting price. */
  const DequeRules := TradeRules(RestingPrice, RestingPrice, FilledQuantity)

  /** `hash_deque.py` and `balanced_tree.py`: the completing trade is logged
      at the incoming order's price. */
  const IncomingFinalRules := TradeRules(RestingPrice, IncomingPrice, FilledQuantity)

  /** `array_deque.py`, buy branch: every trade at the incoming price. */
  const LegacyBuyRules := TradeRules(IncomingPrice, IncomingPrice, FilledQuantity)

  /** `array_deque.py`, sell branch as written: the completing trade logs the
      resting order's leftover quantity. */
  const LegacySellRulesAsWritten := TradeRules(RestingPrice, RestingPrice, RestingLeftover)

  /** `array_deque.py`, sell branch as evidently intended. */
  const LegacySellRules := TradeRules(RestingPrice, RestingPrice, FilledQuantity)

  /** What matching needs of the incoming order besides its quantity. */
  datatype Incoming = Incoming(traderId: TraderId, direction: Direction, price: int)

  function IncomingOf(o: LimitOrder): Incoming
  {
    Incoming(o.traderId, o.direction, o.price)
  }

  function PriceOf(rule: PriceRule, inc: Incoming, entry: LimitOrder): int
  {
    match rule
    case RestingPrice => entry.price
    case IncomingPrice => inc.price
  }

  /** The trade of `quantity` between the incoming order and a resting one:
      on a buy the incoming trader buys, on a sell the incoming trader sells. */
  function MakeTrade(inc: Incoming, entry: LimitOrder, price: int, quantity: int): Trade
  {
    if inc.direction == Buy then Trade(inc.traderId, entry.traderId, price, quantity)
    else Trade(entry.traderId, inc.traderId, price, quantity)
  }

  function IncomingParty(t: Trade, d: Direction): TraderId
  {
    if d == Buy then t.buyTraderId else t.sellTraderId
  }

  function RestingParty(t: Trade, d: Direction): TraderId
  {
    if d == Buy then t.sellTraderId else t.buyTraderId
  }

  /** Price `p` is within the incoming order's limit: at or below a buy's
      price, at or above a sell's. */
  predicate Crosses(inc: Incoming, p: int)
  {
    if inc.direction == Buy then p <= inc.price else inc.price <= p
  }

  /** The order enters matching: a buy at or above the best ask, a sell at
      or below the best bid. */
  predicate EntersMatching(o: LimitOrder, bestBid: int, bestAsk: int)
  {
    if o.direction == Buy then bestAsk <= o.price else o.price <= bestBid
  }

  /** Every trade has the incoming trader on the incoming order's side and a
      price within its limit. */
  predicate TradesOf(ts: seq<Trade>, inc: Incoming)
  {
    forall i | 0 <= i < |ts| :: IncomingParty(ts[i], inc.direction) == inc.traderId && Crosses(inc, ts[i].price)
  }

  function TotalQuantity(ts: seq<Trade>): int
  {
    if ts == [] then 0 else ts[0].quantity + TotalQuantity(ts[1..])
  }

  lemma {:induction false} TotalQuantityConcat(a: seq<Trade>, b: seq<Trade>)
    ensures TotalQuantity(a + b) == TotalQuantity(a) + TotalQuantity(b)
  {
    if a == [] {
      assert a + b == b;
    } else {
      assert (a + b)[1..] == a[1..] + b;
      TotalQuantityConcat(a[1..], b);
    }
  }

  lemma TradesOfConcat(a: seq<Trade>, b: seq<Trade>, inc: Incoming)
    requires TradesOf(a, inc) && TradesOf(b, inc)
    ensures TradesOf(a + b, inc)
  {
    forall i | 0 <= i < |a + b|
      ensures IncomingParty((a + b)[i], inc.direction) == inc.traderId && Crosses(inc, (a + b)[i].price)
    {
      if i >= |a| {
        assert (a + b)[i] == b[i - |a|];
      }
    }
  }

  /** The state after matching one level: what is left of its queue, the
      orders, what is left of the incoming order, the trades in the order they
      were executed, and whether the incoming order was completed (in which
      case `add` returns at once). */
  datatype LevelOutcome = LevelOutcome(
    queue: seq<Id>,
    orders: map<Id, LimitOrder>,
    remaining: int,
    trades: seq<Trade>,
    filled: bool)

  /** The level loop as a function of the incoming remainder `remaining`, the
      level's queue and the orders. */
  function MatchLevelSpec(
    rules: TradeRules, inc: Incoming, remaining: int,
    queue: seq<Id>, orders: map<Id, LimitOrder>): LevelOutcome
    requires Registered(queue, orders)
    decreases |queue|
  {
    if queue == [] then LevelOutcome([], orders, remaining, [], false)
    else
      var entry := orders[queue[0]];
      if entry.quantity < remaining then
        var t := MakeTrade(inc, entry, PriceOf(rules.partialPrice, inc, entry), entry.quantity);
        var rest := MatchLevelSpec(rules, inc, remaining - entry.quantity, queue[1..], orders);
        rest.(trades := [t] + rest.trades)
      else
        var left := entry.quantity - remaining;
        var queue' := if left > 0 then queue else queue[1..];
        var orders' := if left > 0 then orders[queue[0] := entry.(quantity := left)] else orders;
        var logged := if rules.finalQuantity == FilledQuantity then remaining
                      else if left > 0 then left else entry.quantity;
        var t := MakeTrade(inc, entry, PriceOf(rules.finalPrice, inc, entry), logged);
        LevelOutcome(queue', orders', remaining, [t], true)
  }

  /** `o` with `done` executed before its trades. */
  function Prepend(done: seq<Trade>, o: LevelOutcome): LevelOutcome
  {
    o.(trades := done + o.trades)
  }

  lemma PrependTwice(done: seq<Trade>, t: Trade, o: LevelOutcome)
    ensures Prepend(done, Prepend([t], o)) == Prepend(done + [t], o)
  {
    assert done + ([t] + o.trades) == (done + [t]) + o.trades;
  }

  /** The state after an incoming order swept the levels of one side, best
      price first: that side, the orders, what is left of the incoming order,
      the trades in the order they were executed, whether the order was
      completed, and the price where the sweep ended (that of the level that
      completed the order, otherwise a price past its limit). */
  datatype SweepOutcome<S> = SweepOutcome(
    side: S,
    orders: map<Id, LimitOrder>,
    remaining: int,
    trades: seq<Trade>,
    filled: bool,
    at: int)

  /** `s` with `done` executed before its trades. */
  function PrependSweep<S>(done: seq<Trade>, s: SweepOutcome<S>): SweepOutcome<S>
  {
    s.(trades := done + s.trades)
  }

  lemma PrependSweepTwice<S>(done: seq<Trade>, ts: seq<Trade>, s: SweepOutcome<S>)
    ensures PrependSweep(done, PrependSweep(ts, s)) == PrependSweep(done + ts, s)
  {
    assert done + (ts + s.trades) == (done + ts) + s.trades;
  }

  /** Runs the level loop, executing each trade on `base` as it is made. */
  method MatchLevel(
    base: BaseLimitOrderBook, rules: TradeRules, inc: Incoming, remaining: int,
    queue: seq<Id>, orders: map<Id, LimitOrder>) returns (out: LevelOutcome)
    requires Registered(queue, orders)
    modifies base
    ensures out == MatchLevelSpec(rules, inc, remaining, queue, orders)
    ensures base.matches == old(base.matches) + out.trades
  {
    var q, os, left := queue, orders, remaining;
    var done: seq<Trade> := [];
    while q != []
      invariant Registered(q, os)
      invariant MatchLevelSpec(rules, inc, remaining, queue, orders)
        == Prepend(done, MatchLevelSpec(rules, inc, left, q, os))
      invariant base.matches == old(base.matches) + done
      decreases |q|
    {
      var entry := os[q[0]];
      if entry.quantity < left {
        var t := MakeTrade(inc, entry, PriceOf(rules.partialPrice, inc, entry), entry.quantity);
        PrependTwice(done, t, MatchLevelSpec(rules, inc, left - entry.quantity, q[1..], os));
        left := left - entry.quantity;
        q := q[1..];
        base.Execute(t);
        done := done + [t];
      } else {
        var rest := entry.quantity - left;
        var logged: int;
        if rest > 0 {
          os := os[q[0] := entry.(quantity := rest)];
          logged := if rules.finalQuantity == FilledQuantity then left else rest;
        } else {
          q := q[1..];
          logged := if rules.finalQuantity == FilledQuantity then left else entry.quantity;
        }
        var t := MakeTrade(inc, entry, PriceOf(rules.finalPrice, inc, entry), logged);
        base.Execute(t);
        out := LevelOutcome(q, os, left, done + [t], true);
        return;
      }
    }
    out := LevelOutcome([], os, left, done, false);
  }

  function Last<T>(s: seq<T>): T
    requires s != []
  {
    s[|s| - 1]
  }

  /** What is left of the queue is a suffix of it, shorter by the number of
      trades or by one less (when the completing order stays at the front);
      the level is left unfinished only when it is empty. */
  lemma {:induction false} MatchLevelShape(
    rules: TradeRules, inc: Incoming, remaining: int,
    queue: seq<Id>, orders: map<Id, LimitOrder>)
    requires Registered(queue, orders)
    ensures var o := MatchLevelSpec(rules, inc, remaining, queue, orders);
      && |o.trades| <= |queue|
      && (!o.filled ==> o.queue == [] && |o.trades| == |queue|)
      && (o.filled ==> |o.trades| >= 1 &&
                       (o.queue == queue[|o.trades|..] || o.queue == queue[|o.trades| - 1..]))
    decreases |queue|
  {
    if queue != [] && orders[queue[0]].quantity < remaining {
      var entry := orders[queue[0]];
      MatchLevelShape(rules, inc, remaining - entry.quantity, queue[1..], orders);
      var r := MatchLevelSpec(rules, inc, remaining - entry.quantity, queue[1..], orders);
      if r.filled {
        assert queue[1..][|r.trades|..] == queue[|r.trades| + 1..];
        assert queue[1..][|r.trades| - 1..] == queue[|r.trades|..];
      }
    }
  }

  /** Trade `i` is against the `i`-th queued order, with the incoming trader
      on the incoming side; unless it completes the incoming order it takes
      that resting order's whole quantity at the partial-fill price, and the
      completing trade is at the final price. */
  lemma {:induction false} NthTrade(
    rules: TradeRules, inc: Incoming, remaining: int,
    queue: seq<Id>, orders: map<Id, LimitOrder>, i: nat)
    requires Registered(queue, orders)
    requires i < |MatchLevelSpec(rules, inc, remaining, queue, orders).trades|
    ensures i < |queue|
    ensures var o := MatchLevelSpec(rules, inc, remaining, queue, orders);
      && IncomingParty(o.trades[i], inc.direction) == inc.traderId
      && RestingParty(o.trades[i], inc.direction) == orders[queue[i]].traderId
      && ((i < |o.trades| - 1 || !o.filled) ==>
            o.trades[i].quantity == orders[queue[i]].quantity
            && o.trades[i].price == PriceOf(rules.partialPrice, inc, orders[queue[i]]))
      && ((i == |o.trades| - 1 && o.filled) ==>
            o.trades[i].price == PriceOf(rules.finalPrice, inc, orders[queue[i]]))
    decreases |queue|
  {
    var entry := orders[queue[0]];
    if entry.quantity < remaining && i > 0 {
      NthTrade(rules, inc, remaining - entry.quantity, queue[1..], orders, i - 1);
      var r := MatchLevelSpec(rules, inc, remaining - entry.quantity, queue[1..], orders);
      var t := MakeTrade(inc, entry, PriceOf(rules.partialPrice, inc, entry), entry.quantity);
      assert MatchLevelSpec(rules, inc, remaining, queue, orders).trades == [t] + r.trades;
      assert queue[i] == queue[1..][i - 1];
    }
  }

  /** Every trade of a level, as `NthTrade` describes it. */
  lemma MatchLevelTradesFollowQueue(
    rules: TradeRules, inc: Incoming, remaining: int,
    queue: seq<Id>, orders: map<Id, LimitOrder>)
    requires Registered(queue, orders)
    ensures var o := MatchLevelSpec(rules, inc, remaining, queue, orders);
      && |o.trades| <= |queue|
      && (forall i | 0 <= i < |o.trades| ::
            IncomingParty(o.trades[i], inc.direction) == inc.traderId
            && RestingParty(o.trades[i], inc.direction) == orders[queue[i]].traderId)
      && (forall i | 0 <= i < |o.trades| && (i < |o.trades| - 1 || !o.filled) ::
            o.trades[i].quantity == orders[queue[i]].quantity
            && o.trades[i].price == PriceOf(rules.partialPrice, inc, orders[queue[i]]))
      && (o.filled ==>
            o.trades != [] && Last(o.trades).price == PriceOf(rules.finalPrice, inc, orders[queue[|o.trades| - 1]]))
  {
    var o := MatchLevelSpec(rules, inc, remaining, queue, orders);
    MatchLevelShape(rules, inc, remaining, queue, orders);
    forall i | 0 <= i < |o.trades|
      ensures IncomingParty(o.trades[i], inc.direction) == inc.traderId
      ensures RestingParty(o.trades[i], inc.direction) == orders[queue[i]].traderId
      ensures (i < |o.trades| - 1 || !o.filled) ==>
            o.trades[i].quantity == orders[queue[i]].quantity
            && o.trades[i].price == PriceOf(rules.partialPrice, inc, orders[queue[i]])
      ensures (i == |o.trades| - 1 && o.filled) ==>
            o.trades[i].price == PriceOf(rules.finalPrice, inc, orders[queue[i]])
    {
      NthTrade(rules, inc, remaining, queue, orders, i);
    }
  }

  /** FIFO consumption: the shape of what is left of the queue and the
      correspondence between trades and queued orders, together. */
  lemma MatchLevelFifo(
    rules: TradeRules, inc: Incoming, remaining: int,
    queue: seq<Id>, orders: map<Id, LimitOrder>)
    requires Registered(queue, orders)
    ensures var o := MatchLevelSpec(rules, inc, remaining, queue, orders);
      && |o.trades| <= |queue|
      && (!o.filled ==> o.queue == [] && |o.trades| == |queue|)
      && (o.filled ==> |o.trades| >= 1 &&
                       (o.queue == queue[|o.trades|..] || o.queue == queue[|o.trades| - 1..]))
      && (forall i | 0 <= i < |o.trades| ::
            IncomingParty(o.trades[i], inc.direction) == inc.traderId
            && RestingParty(o.trades[i], inc.direction) == orders[queue[i]].traderId)
      && (forall i | 0 <= i < |o.trades| && (i < |o.trades| - 1 || !o.filled) ::
            o.trades[i].quantity == orders[queue[i]].quantity
            && o.trades[i].price == PriceOf(rules.partialPrice, inc, orders[queue[i]]))
      && (o.filled ==>
            Last(o.trades).price == PriceOf(rules.finalPrice, inc, orders[queue[|o.trades| - 1]]))
  {
    MatchLevelShape(rules, inc, remaining, queue, orders);
    MatchLevelTradesFollowQueue(rules, inc, remaining, queue, orders);
  }

  /** Conservation: when the completing trade logs the quantity filled, the
      trades of a level add up to the incoming remainder if the order was
      completed, and otherwise to the remainder minus what is still left of
      it. */
  lemma {:induction false} MatchLevelConserves(
    rules: TradeRules, inc: Incoming, remaining: int,
    queue: seq<Id>, orders: map<Id, LimitOrder>)
    requires Registered(queue, orders)
    requires rules.finalQuantity == FilledQuantity
    ensures var o := MatchLevelSpec(rules, inc, remaining, queue, orders);
      && (o.filled ==> o.trades != [] && Last(o.trades).quantity == o.remaining)
      && (o.filled ==> TotalQuantity(o.trades) == remaining && o.remaining == remaining - TotalQuantity(o.trades[..|o.trades| - 1]))
      && (!o.filled ==> TotalQuantity(o.trades) + o.remaining == remaining)
    decreases |queue|
  {
    if queue != [] {
      var entry := orders[queue[0]];
      if entry.quantity < remaining {
        MatchLevelConserves(rules, inc, remaining - entry.quantity, queue[1..], orders);
        var r := MatchLevelSpec(rules, inc, remaining - entry.quantity, queue[1..], orders);
        var o := MatchLevelSpec(rules, inc, remaining, queue, orders);
        if o.filled {
          assert o.trades[..|o.trades| - 1] == [o.trades[0]] + r.trades[..|r.trades| - 1];
          TotalQuantityConcat([o.trades[0]], r.trades[..|r.trades| - 1]);
        }
      } else {
        var o := MatchLevelSpec(rules, inc, remaining, queue, orders);
        assert o.trades[..|o.trades| - 1] == [];
      }
    }
  }

  /** Matching changes the orders only in their quantities, and only that of
      the order left at the front of the level, which loses exactly what the
      completing trade filled; fills never delete an entry of `orders`. */
  lemma {:induction false} MatchLevelTouchesOnlyFront(
    rules: TradeRules, inc: Incoming, remaining: int,
    queue: seq<Id>, orders: map<Id, LimitOrder>)
    requires Registered(queue, orders)
    ensures var o := MatchLevelSpec(rules, inc, remaining, queue, orders);
      && SameExceptQuantity(orders, o.orders)
      && Registered(o.queue, o.orders)
      && (forall id | id in orders && (o.queue == [] || id != o.queue[0]) :: o.orders[id] == orders[id])
      && (o.queue != [] && o.orders[o.queue[0]] != orders[o.queue[0]] ==>
            o.filled && o.orders[o.queue[0]].quantity == orders[o.queue[0]].quantity - o.remaining)
    decreases |queue|
  {
    if queue != [] && orders[queue[0]].quantity < remaining {
      MatchLevelTouchesOnlyFront(rules, inc, remaining - orders[queue[0]].quantity, queue[1..], orders);
    }
  }

  /** When every queued order's price is within the incoming order's limit,
      so is every trade's price. */
  lemma {:induction false} MatchLevelWithinLimit(
    rules: TradeRules, inc: Incoming, remaining: int,
    queue: seq<Id>, orders: map<Id, LimitOrder>)
    requires Registered(queue, orders)
    requires forall i | 0 <= i < |queue| :: Crosses(inc, orders[queue[i]].price)
    ensures TradesOf(MatchLevelSpec(rules, inc, remaining, queue, orders).trades, inc)
    decreases |queue|
  {
    if queue != [] && orders[queue[0]].quantity < remaining {
      MatchLevelWithinLimit(rules, inc, remaining - orders[queue[0]].quantity, queue[1..], orders);
      var r := MatchLevelSpec(rules, inc, remaining - orders[queue[0]].quantity, queue[1..], orders);
      var t := MakeTrade(inc, orders[queue[0]], PriceOf(rules.partialPrice, inc, orders[queue[0]]), orders[queue[0]].quantity);
      TradesOfConcat([t], r.trades, inc);
    }
  }

  /** Every trade of `ts` is at price `p`. */
  predicate AllAtPrice(ts: seq<Trade>, p: int)
  {
    forall i | 0 <= i < |ts| :: ts[i].price == p
  }

  /** When both prices are the incoming order's, as in the older array
      book's buy branch, every trade is at the incoming order's price. */
  lemma {:induction false} MatchLevelAtIncomingPrice(
    rules: TradeRules, inc: Incoming, remaining: int,
    queue: seq<Id>, orders: map<Id, LimitOrder>)
    requires Registered(queue, orders)
    requires rules.partialPrice == IncomingPrice && rules.finalPrice == IncomingPrice
    ensures AllAtPrice(MatchLevelSpec(rules, inc, remaining, queue, orders).trades, inc.price)
    decreases |queue|
  {
    if queue != [] && orders[queue[0]].quantity < remaining {
      MatchLevelAtIncomingPrice(rules, inc, remaining - orders[queue[0]].quantity, queue[1..], orders);
      var ts := MatchLevelSpec(rules, inc, remaining, queue, orders).trades;
      var rest := MatchLevelSpec(rules, inc, remaining - orders[queue[0]].quantity, queue[1..], orders).trades;
      assert ts == [ts[0]] + rest;
      assert AllAtPrice(rest, inc.price);
      forall i | 0 <= i < |ts|
        ensures ts[i].price == inc.price
      {
        if i > 0 {
          assert ts[i] == rest[i - 1];
        }
      }
    }
  }

  /** The older array book's sell branch logs, for the completing trade, the
      resting order's leftover instead of the quantity filled: a sell of 3
      against a resting buy of 10 logs a trade of 7, so the trades no longer
      add up to the sell. With the quantity filled logged instead, they do
      (MatchLevelConserves). */
  lemma LegacySellFinalFillMisreports()
    ensures var orders := map["b" := LimitOrder(1, 5, 10, Buy, "b")];
      var inc := Incoming(2, Sell, 5);
      var asWritten := MatchLevelSpec(LegacySellRulesAsWritten, inc, 3, ["b"], orders);
      var corrected := MatchLevelSpec(LegacySellRules, inc, 3, ["b"], orders);
      && asWritten.filled && asWritten.trades == [Trade(1, 2, 5, 7)]
      && TotalQuantity(asWritten.trades) != 3
      && corrected.trades == [Trade(1, 2, 5, 3)]
      && asWritten.orders == corrected.orders
      && asWritten.orders["b"].quantity == 7
  {
    var orders := map["b" := LimitOrder(1, 5, 10, Buy, "b")];
    assert Registered(["b"], orders);
  }

  /** Matching the level at index `at` leaves every level valid with that
      level's new queue; fills change only quantities, the trades add up as
      the level loop promises, and they stay within the incoming order's limit
      when `at` does. */
  lemma LevelsHoldAfterMatchAt(
    rules: TradeRules, ls: seq<PriceDeque>, orders: map<Id, LimitOrder>, bidMax: int, askMin: int,
    at: int, inc: Incoming, remaining: int)
    requires rules.finalQuantity == FilledQuantity
    requires LevelsHold(ls, orders, bidMax, askMin) && 0 <= at < |ls|
    ensures Registered(ls[at].ids, orders)
    ensures var o := MatchLevelSpec(rules, inc, remaining, ls[at].ids, orders);
      && LevelsHold(ls[at := ls[at].(ids := o.queue)], o.orders, bidMax, askMin)
      && SameExceptQuantity(orders, o.orders)
      && (o.filled ==> o.trades != [] && Last(o.trades).quantity == o.remaining)
      && (o.filled ==> TotalQuantity(o.trades) == remaining)
      && (!o.filled ==> o.queue == [] && TotalQuantity(o.trades) + o.remaining == remaining)
      && (Crosses(inc, at) ==> TradesOf(o.trades, inc))
  {
    var level := ls[at];
    assert LevelHolds(level, at, orders, bidMax, askMin);
    var o := MatchLevelSpec(rules, inc, remaining, level.ids, orders);
    MatchLevelTouchesOnlyFront(rules, inc, remaining, level.ids, orders);
    MatchLevelConserves(rules, inc, remaining, level.ids, orders);
    MatchLevelFifo(rules, inc, remaining, level.ids, orders);
    if Crosses(inc, at) {
      MatchLevelWithinLimit(rules, inc, remaining, level.ids, orders);
    }
    LevelsHoldAfterMatch(ls, at, orders, o.orders, bidMax, askMin, o.queue);
  }
}
