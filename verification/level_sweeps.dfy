/** Reference sweeps over levels indexed by price, for the books that keep
    the best prices in cursors: a flat sequence of levels (level `p` at
    index `p`) and a dictionary from price to level. An incoming order visits
    the prices from the cursor towards its limit one at a time; a price whose
    level holds no orders is passed, the level at any other price is matched
    front first, and the sweep ends at the level that completes the order or
    once the next price is beyond the limit. Each sweep is written in three
    stages (the limit test, the empty-level test, one round), and the lemmas
    after it take one stage or one round at a time. */
module LevelSweeps {
  import opened Orders
  import opened PriceDeques
  import opened Levels
  import opened Matching
  import opened Trees

  /** Every level of the sequence queues registered orders only. */
  ghost predicate LevelsRegistered(ls: seq<PriceDeque>, orders: map<Id, LimitOrder>)
  {
    forall p | 0 <= p < |ls| :: Registered(ls[p].ids, orders)
  }

  /** Valid levels queue registered orders only. */
  lemma LevelsHoldRegistered(ls: seq<PriceDeque>, orders: map<Id, LimitOrder>, bidMax: int, askMin: int)
    requires LevelsHold(ls, orders, bidMax, askMin)
    ensures LevelsRegistered(ls, orders)
  {
    forall p | 0 <= p < |ls|
      ensures Registered(ls[p].ids, orders)
    {
      assert LevelHolds(ls[p], p, orders, bidMax, askMin);
    }
  }

  /** Matching the level at `at` keeps every level registered. */
  lemma LevelsRegisteredAfterRound(
    rules: TradeRules, inc: Incoming, remaining: int,
    ls: seq<PriceDeque>, orders: map<Id, LimitOrder>, at: int)
    requires LevelsRegistered(ls, orders) && 0 <= at < |ls|
    ensures var o := MatchLevelSpec(rules, inc, remaining, ls[at].ids, orders);
      LevelsRegistered(ls[at := ls[at].(ids := o.queue)], o.orders)
  {
    MatchLevelTouchesOnlyFront(rules, inc, remaining, ls[at].ids, orders);
  }

  // Upward over a sequence of levels: a buy over the asks.

  /** The sweep of an incoming buy with `remaining` left over the levels
      from index `at` up to its limit `limit`. */
  ghost function SweepUpArray(
    rules: TradeRules, inc: Incoming, remaining: int,
    ls: seq<PriceDeque>, orders: map<Id, LimitOrder>, at: int, limit: int): SweepOutcome<seq<PriceDeque>>
    requires 0 <= at && limit < |ls| && LevelsRegistered(ls, orders)
    decreases |ls| - at, 2
  {
    if limit < at then SweepOutcome(ls, orders, remaining, [], false, limit + 1)
    else SweepUpArrayLevel(rules, inc, remaining, ls, orders, at, limit)
  }

  /** An empty level within the limit is passed. */
  ghost function SweepUpArrayLevel(
    rules: TradeRules, inc: Incoming, remaining: int,
    ls: seq<PriceDeque>, orders: map<Id, LimitOrder>, at: int, limit: int): SweepOutcome<seq<PriceDeque>>
    requires 0 <= at <= limit < |ls| && LevelsRegistered(ls, orders)
    decreases |ls| - at, 1
  {
    if ls[at].ids == [] then SweepUpArray(rules, inc, remaining, ls, orders, at + 1, limit)
    else SweepUpArrayRound(rules, inc, remaining, ls, orders, at, limit)
  }

  /** One round: the level at `at` is matched; unless that completes the
      order, the sweep goes on at the next price. */
  ghost function SweepUpArrayRound(
    rules: TradeRules, inc: Incoming, remaining: int,
    ls: seq<PriceDeque>, orders: map<Id, LimitOrder>, at: int, limit: int): SweepOutcome<seq<PriceDeque>>
    requires 0 <= at <= limit < |ls| && LevelsRegistered(ls, orders)
    decreases |ls| - at, 0
  {
    var o := MatchLevelSpec(rules, inc, remaining, ls[at].ids, orders);
    var ls' := ls[at := ls[at].(ids := o.queue)];
    LevelsRegisteredAfterRound(rules, inc, remaining, ls, orders, at);
    if o.filled then SweepOutcome(ls', o.orders, o.remaining, o.trades, true, at)
    else PrependSweep(o.trades, SweepUpArray(rules, inc, o.remaining, ls', o.orders, at + 1, limit))
  }

  /** Past the limit the sweep does nothing. */
  lemma SweepUpArrayStops(
    rules: TradeRules, inc: Incoming, remaining: int,
    ls: seq<PriceDeque>, orders: map<Id, LimitOrder>, at: int, limit: int)
    requires 0 <= at && limit < |ls| && LevelsRegistered(ls, orders) && limit < at
    ensures SweepUpArray(rules, inc, remaining, ls, orders, at, limit)
      == SweepOutcome(ls, orders, remaining, [], false, limit + 1)
  {
  }

  /** Within the limit the sweep is one round at `at` followed by the sweep
      from the next price, whether or not the level holds orders: matching
      an empty level changes nothing. */
  lemma SweepUpArrayStep(
    rules: TradeRules, inc: Incoming, remaining: int,
    ls: seq<PriceDeque>, orders: map<Id, LimitOrder>, at: int, limit: int)
    requires 0 <= at <= limit < |ls| && LevelsRegistered(ls, orders)
    ensures var o := MatchLevelSpec(rules, inc, remaining, ls[at].ids, orders);
      var ls' := ls[at := ls[at].(ids := o.queue)];
      && LevelsRegistered(ls', o.orders)
      && SweepUpArray(rules, inc, remaining, ls, orders, at, limit) ==
           if o.filled then SweepOutcome(ls', o.orders, o.remaining, o.trades, true, at)
           else PrependSweep(o.trades, SweepUpArray(rules, inc, o.remaining, ls', o.orders, at + 1, limit))
  {
    LevelsRegisteredAfterRound(rules, inc, remaining, ls, orders, at);
    if ls[at].ids == [] {
      var o := MatchLevelSpec(rules, inc, remaining, ls[at].ids, orders);
      assert o == LevelOutcome([], orders, remaining, [], false);
      assert ls[at := ls[at].(ids := [])] == ls;
      var s := SweepUpArray(rules, inc, remaining, ls, orders, at + 1, limit);
      assert SweepUpArrayLevel(rules, inc, remaining, ls, orders, at, limit) == s;
      assert PrependSweep([], s) == s by {
        assert [] + s.trades == s.trades;
      }
    } else {
      assert SweepUpArray(rules, inc, remaining, ls, orders, at, limit)
        == SweepUpArrayRound(rules, inc, remaining, ls, orders, at, limit);
    }
  }

  /** Empty levels from `lo` up to `hi` do not change the sweep. */
  lemma {:induction false} SweepUpArraySkips(
    rules: TradeRules, inc: Incoming, remaining: int,
    ls: seq<PriceDeque>, orders: map<Id, LimitOrder>, lo: int, hi: int, limit: int)
    requires 0 <= lo <= hi && limit < |ls| && LevelsRegistered(ls, orders)
    requires forall k | lo <= k < hi && k < |ls| :: ls[k].ids == []
    ensures SweepUpArray(rules, inc, remaining, ls, orders, lo, limit)
      == SweepUpArray(rules, inc, remaining, ls, orders, hi, limit)
    decreases hi - lo
  {
    if lo < hi && lo <= limit {
      assert ls[lo].ids == [];
      SweepUpArraySkips(rules, inc, remaining, ls, orders, lo + 1, hi, limit);
    }
  }

  /** What the upward sweep of a buy up to its own price promises: the
      orders change only in quantity; every trade is the buy's and within its
      limit; the trades add up to the buy's quantity when it is completed,
      the completing trade logging what was left of it, and otherwise to
      what it lost. */
  lemma {:induction false} SweepUpArrayHolds(
    rules: TradeRules, inc: Incoming, remaining: int,
    ls: seq<PriceDeque>, orders: map<Id, LimitOrder>, bidMax: int, askMin: int, at: int, limit: int)
    requires rules.finalQuantity == FilledQuantity
    requires inc.direction == Buy && inc.price == limit
    requires 0 <= at && limit < |ls| && LevelsHold(ls, orders, bidMax, askMin)
    ensures LevelsRegistered(ls, orders)
    ensures var s := SweepUpArray(rules, inc, remaining, ls, orders, at, limit);
      && SameExceptQuantity(orders, s.orders)
      && TradesOf(s.trades, inc)
      && (s.filled ==> s.trades != [] && TotalQuantity(s.trades) == remaining && Last(s.trades).quantity == s.remaining)
      && (!s.filled ==> TotalQuantity(s.trades) + s.remaining == remaining)
    decreases |ls| - at
  {
    LevelsHoldRegistered(ls, orders, bidMax, askMin);
    if limit < at {
      SweepUpArrayStops(rules, inc, remaining, ls, orders, at, limit);
    } else {
      SweepUpArrayStep(rules, inc, remaining, ls, orders, at, limit);
      LevelsHoldAfterMatchAt(rules, ls, orders, bidMax, askMin, at, inc, remaining);
      var o := MatchLevelSpec(rules, inc, remaining, ls[at].ids, orders);
      var ls' := ls[at := ls[at].(ids := o.queue)];
      if !o.filled {
        SweepUpArrayHolds(rules, inc, o.remaining, ls', o.orders, bidMax, askMin, at + 1, limit);
        var r := SweepUpArray(rules, inc, o.remaining, ls', o.orders, at + 1, limit);
        TotalQuantityConcat(o.trades, r.trades);
        TradesOfConcat(o.trades, r.trades, inc);
        if r.filled {
          assert Last(o.trades + r.trades) == Last(r.trades);
        }
      }
    }
  }

  /** A sweep keeps one level per price. */
  lemma {:induction false} SweepUpArrayLength(
    rules: TradeRules, inc: Incoming, remaining: int,
    ls: seq<PriceDeque>, orders: map<Id, LimitOrder>, at: int, limit: int)
    requires 0 <= at && limit < |ls| && LevelsRegistered(ls, orders)
    ensures |SweepUpArray(rules, inc, remaining, ls, orders, at, limit).side| == |ls|
    decreases |ls| - at
  {
    if limit < at {
      SweepUpArrayStops(rules, inc, remaining, ls, orders, at, limit);
    } else {
      SweepUpArrayStep(rules, inc, remaining, ls, orders, at, limit);
      var o := MatchLevelSpec(rules, inc, remaining, ls[at].ids, orders);
      if !o.filled {
        SweepUpArrayLength(rules, inc, o.remaining, ls[at := ls[at].(ids := o.queue)], o.orders, at + 1, limit);
      }
    }
  }

  /** The levels below `at`, and those above where the sweep ended, are as
      they were; every level it passed without completing the order is
      empty; an order completed is completed within the limit. */
  lemma {:induction false} SweepUpArrayClears(
    rules: TradeRules, inc: Incoming, remaining: int,
    ls: seq<PriceDeque>, orders: map<Id, LimitOrder>, at: int, limit: int)
    requires 0 <= at && limit < |ls| && LevelsRegistered(ls, orders)
    ensures var s := SweepUpArray(rules, inc, remaining, ls, orders, at, limit);
      && |s.side| == |ls|
      && (s.filled ==> at <= s.at <= limit)
      && (forall p | 0 <= p < |ls| && (p < at || (if s.filled then s.at < p else limit < p)) :: s.side[p] == ls[p])
      && (forall p | at <= p <= limit && (!s.filled || p < s.at) :: s.side[p].ids == [])
    decreases |ls| - at
  {
    if limit < at {
      SweepUpArrayStops(rules, inc, remaining, ls, orders, at, limit);
    } else {
      SweepUpArrayStep(rules, inc, remaining, ls, orders, at, limit);
      MatchLevelShape(rules, inc, remaining, ls[at].ids, orders);
      var o := MatchLevelSpec(rules, inc, remaining, ls[at].ids, orders);
      if !o.filled {
        SweepUpArrayClears(rules, inc, o.remaining, ls[at := ls[at].(ids := o.queue)], o.orders, at + 1, limit);
      }
    }
  }

  /** When every trade is priced at the incoming order's price, so is
      every trade of the sweep. */
  lemma {:induction false} SweepUpArrayAtIncomingPrice(
    rules: TradeRules, inc: Incoming, remaining: int,
    ls: seq<PriceDeque>, orders: map<Id, LimitOrder>, at: int, limit: int)
    requires rules.partialPrice == IncomingPrice && rules.finalPrice == IncomingPrice
    requires 0 <= at && limit < |ls| && LevelsRegistered(ls, orders)
    ensures AllAtPrice(SweepUpArray(rules, inc, remaining, ls, orders, at, limit).trades, inc.price)
    decreases |ls| - at
  {
    if limit < at {
      SweepUpArrayStops(rules, inc, remaining, ls, orders, at, limit);
    } else {
      SweepUpArrayStep(rules, inc, remaining, ls, orders, at, limit);
      MatchLevelAtIncomingPrice(rules, inc, remaining, ls[at].ids, orders);
      var o := MatchLevelSpec(rules, inc, remaining, ls[at].ids, orders);
      if !o.filled {
        var ls' := ls[at := ls[at].(ids := o.queue)];
        SweepUpArrayAtIncomingPrice(rules, inc, o.remaining, ls', o.orders, at + 1, limit);
        var r := SweepUpArray(rules, inc, o.remaining, ls', o.orders, at + 1, limit);
        forall i | 0 <= i < |o.trades + r.trades|
          ensures (o.trades + r.trades)[i].price == inc.price
        {
          if i >= |o.trades| {
            assert (o.trades + r.trades)[i] == r.trades[i - |o.trades|];
          }
        }
      }
    }
  }

  // Downward over a sequence of levels: a sell over the bids.

  /** The sweep of an incoming sell with `remaining` left over the levels
      from index `at` down to its limit `limit`. */
  ghost function SweepDownArray(
    rules: TradeRules, inc: Incoming, remaining: int,
    ls: seq<PriceDeque>, orders: map<Id, LimitOrder>, at: int, limit: int): SweepOutcome<seq<PriceDeque>>
    requires at < |ls| && 0 <= limit && LevelsRegistered(ls, orders)
    decreases at + 1, 2
  {
    if at < limit then SweepOutcome(ls, orders, remaining, [], false, limit - 1)
    else SweepDownArrayLevel(rules, inc, remaining, ls, orders, at, limit)
  }

  /** An empty level within the limit is passed. */
  ghost function SweepDownArrayLevel(
    rules: TradeRules, inc: Incoming, remaining: int,
    ls: seq<PriceDeque>, orders: map<Id, LimitOrder>, at: int, limit: int): SweepOutcome<seq<PriceDeque>>
    requires 0 <= limit <= at < |ls| && LevelsRegistered(ls, orders)
    decreases at + 1, 1
  {
    if ls[at].ids == [] then SweepDownArray(rules, inc, remaining, ls, orders, at - 1, limit)
    else SweepDownArrayRound(rules, inc, remaining, ls, orders, at, limit)
  }

  /** One round at `at`, going on at the price below. */
  ghost function SweepDownArrayRound(
    rules: TradeRules, inc: Incoming, remaining: int,
    ls: seq<PriceDeque>, orders: map<Id, LimitOrder>, at: int, limit: int): SweepOutcome<seq<PriceDeque>>
    requires 0 <= limit <= at < |ls| && LevelsRegistered(ls, orders)
    decreases at + 1, 0
  {
    var o := MatchLevelSpec(rules, inc, remaining, ls[at].ids, orders);
    var ls' := ls[at := ls[at].(ids := o.queue)];
    LevelsRegisteredAfterRound(rules, inc, remaining, ls, orders, at);
    if o.filled then SweepOutcome(ls', o.orders, o.remaining, o.trades, true, at)
    else PrependSweep(o.trades, SweepDownArray(rules, inc, o.remaining, ls', o.orders, at - 1, limit))
  }

  /** Below the limit the sweep does nothing. */
  lemma SweepDownArrayStops(
    rules: TradeRules, inc: Incoming, remaining: int,
    ls: seq<PriceDeque>, orders: map<Id, LimitOrder>, at: int, limit: int)
    requires at < |ls| && 0 <= limit && LevelsRegistered(ls, orders) && at < limit
    ensures SweepDownArray(rules, inc, remaining, ls, orders, at, limit)
      == SweepOutcome(ls, orders, remaining, [], false, limit - 1)
  {
  }

  /** Within the limit the sweep is one round at `at` followed by the sweep
      from the price below. */
  lemma SweepDownArrayStep(
    rules: TradeRules, inc: Incoming, remaining: int,
    ls: seq<PriceDeque>, orders: map<Id, LimitOrder>, at: int, limit: int)
    requires 0 <= limit <= at < |ls| && LevelsRegistered(ls, orders)
    ensures var o := MatchLevelSpec(rules, inc, remaining, ls[at].ids, orders);
      var ls' := ls[at := ls[at].(ids := o.queue)];
      && LevelsRegistered(ls', o.orders)
      && SweepDownArray(rules, inc, remaining, ls, orders, at, limit) ==
           if o.filled then SweepOutcome(ls', o.orders, o.remaining, o.trades, true, at)
           else PrependSweep(o.trades, SweepDownArray(rules, inc, o.remaining, ls', o.orders, at - 1, limit))
  {
    LevelsRegisteredAfterRound(rules, inc, remaining, ls, orders, at);
    if ls[at].ids == [] {
      var o := MatchLevelSpec(rules, inc, remaining, ls[at].ids, orders);
      assert o == LevelOutcome([], orders, remaining, [], false);
      assert ls[at := ls[at].(ids := [])] == ls;
      var s := SweepDownArray(rules, inc, remaining, ls, orders, at - 1, limit);
      assert SweepDownArrayLevel(rules, inc, remaining, ls, orders, at, limit) == s;
      assert PrependSweep([], s) == s by {
        assert [] + s.trades == s.trades;
      }
    } else {
      assert SweepDownArray(rules, inc, remaining, ls, orders, at, limit)
        == SweepDownArrayRound(rules, inc, remaining, ls, orders, at, limit);
    }
  }

  /** Empty levels from `hi` down to `lo` do not change the sweep. */
  lemma {:induction false} SweepDownArraySkips(
    rules: TradeRules, inc: Incoming, remaining: int,
    ls: seq<PriceDeque>, orders: map<Id, LimitOrder>, hi: int, lo: int, limit: int)
    requires lo <= hi < |ls| && 0 <= limit && LevelsRegistered(ls, orders)
    requires forall k | lo < k <= hi && 0 <= k :: ls[k].ids == []
    ensures SweepDownArray(rules, inc, remaining, ls, orders, hi, limit)
      == SweepDownArray(rules, inc, remaining, ls, orders, lo, limit)
    decreases hi - lo
  {
    if lo < hi && limit <= hi {
      assert ls[hi].ids == [];
      SweepDownArraySkips(rules, inc, remaining, ls, orders, hi - 1, lo, limit);
    }
  }

  /** What the downward sweep of a sell down to its own price promises,
      mirroring `SweepUpArrayHolds`. */
  lemma {:induction false} SweepDownArrayHolds(
    rules: TradeRules, inc: Incoming, remaining: int,
    ls: seq<PriceDeque>, orders: map<Id, LimitOrder>, bidMax: int, askMin: int, at: int, limit: int)
    requires rules.finalQuantity == FilledQuantity
    requires inc.direction == Sell && inc.price == limit
    requires at < |ls| && 0 <= limit && LevelsHold(ls, orders, bidMax, askMin)
    ensures LevelsRegistered(ls, orders)
    ensures var s := SweepDownArray(rules, inc, remaining, ls, orders, at, limit);
      && SameExceptQuantity(orders, s.orders)
      && TradesOf(s.trades, inc)
      && (s.filled ==> s.trades != [] && TotalQuantity(s.trades) == remaining && Last(s.trades).quantity == s.remaining)
      && (!s.filled ==> TotalQuantity(s.trades) + s.remaining == remaining)
    decreases at + 1
  {
    LevelsHoldRegistered(ls, orders, bidMax, askMin);
    if at < limit {
      SweepDownArrayStops(rules, inc, remaining, ls, orders, at, limit);
    } else {
      SweepDownArrayStep(rules, inc, remaining, ls, orders, at, limit);
      LevelsHoldAfterMatchAt(rules, ls, orders, bidMax, askMin, at, inc, remaining);
      var o := MatchLevelSpec(rules, inc, remaining, ls[at].ids, orders);
      var ls' := ls[at := ls[at].(ids := o.queue)];
      if !o.filled {
        SweepDownArrayHolds(rules, inc, o.remaining, ls', o.orders, bidMax, askMin, at - 1, limit);
        var r := SweepDownArray(rules, inc, o.remaining, ls', o.orders, at - 1, limit);
        TotalQuantityConcat(o.trades, r.trades);
        TradesOfConcat(o.trades, r.trades, inc);
        if r.filled {
          assert Last(o.trades + r.trades) == Last(r.trades);
        }
      }
    }
  }

  /** A sweep keeps one level per price. */
  lemma {:induction false} SweepDownArrayLength(
    rules: TradeRules, inc: Incoming, remaining: int,
    ls: seq<PriceDeque>, orders: map<Id, LimitOrder>, at: int, limit: int)
    requires at < |ls| && 0 <= limit && LevelsRegistered(ls, orders)
    ensures |SweepDownArray(rules, inc, remaining, ls, orders, at, limit).side| == |ls|
    decreases at + 1
  {
    if at < limit {
      SweepDownArrayStops(rules, inc, remaining, ls, orders, at, limit);
    } else {
      SweepDownArrayStep(rules, inc, remaining, ls, orders, at, limit);
      var o := MatchLevelSpec(rules, inc, remaining, ls[at].ids, orders);
      if !o.filled {
        SweepDownArrayLength(rules, inc, o.remaining, ls[at := ls[at].(ids := o.queue)], o.orders, at - 1, limit);
      }
    }
  }

  /** The levels above `at`, and those below where the sweep ended, are as
      they were; every level it passed without completing the order is
      empty. */
  lemma {:induction false} SweepDownArrayClears(
    rules: TradeRules, inc: Incoming, remaining: int,
    ls: seq<PriceDeque>, orders: map<Id, LimitOrder>, at: int, limit: int)
    requires at < |ls| && 0 <= limit && LevelsRegistered(ls, orders)
    ensures var s := SweepDownArray(rules, inc, remaining, ls, orders, at, limit);
      && |s.side| == |ls|
      && (s.filled ==> limit <= s.at <= at)
      && (forall p | 0 <= p < |ls| && (at < p || (if s.filled then p < s.at else p < limit)) :: s.side[p] == ls[p])
      && (forall p | limit <= p <= at && (!s.filled || s.at < p) :: s.side[p].ids == [])
    decreases at + 1
  {
    if at < limit {
      SweepDownArrayStops(rules, inc, remaining, ls, orders, at, limit);
    } else {
      SweepDownArrayStep(rules, inc, remaining, ls, orders, at, limit);
      MatchLevelShape(rules, inc, remaining, ls[at].ids, orders);
      var o := MatchLevelSpec(rules, inc, remaining, ls[at].ids, orders);
      if !o.filled {
        SweepDownArrayClears(rules, inc, o.remaining, ls[at := ls[at].(ids := o.queue)], o.orders, at - 1, limit);
      }
    }
  }

  // Over a dictionary of levels, where a price without an entry has an
  // empty level that is not stored.

  /** The queue at price `p`. */
  function QueueAt(pq: map<int, PriceDeque>, p: int): seq<Id>
  {
    if p in pq then pq[p].ids else []
  }

  /** The dictionary with the queue at `p` replaced, when there is an entry. */
  function SetQueue(pq: map<int, PriceDeque>, p: int, queue: seq<Id>): map<int, PriceDeque>
  {
    if p in pq then pq[p := pq[p].(ids := queue)] else pq
  }

  /** Matching the stored level at `at` keeps every level registered; the
      level stays in the dictionary even when exhausted. */
  lemma QueuesRegisteredAfterRound(
    rules: TradeRules, inc: Incoming, remaining: int,
    pq: map<int, PriceDeque>, orders: map<Id, LimitOrder>, at: int)
    requires TreeRegistered(pq, orders) && at in pq
    ensures var o := MatchLevelSpec(rules, inc, remaining, pq[at].ids, orders);
      TreeRegistered(pq[at := pq[at].(ids := o.queue)], o.orders)
  {
    MatchLevelTouchesOnlyFront(rules, inc, remaining, pq[at].ids, orders);
  }

  /** The sweep of an incoming buy over the dictionary, from price `at` up. */
  ghost function SweepUpHash(
    rules: TradeRules, inc: Incoming, remaining: int,
    pq: map<int, PriceDeque>, orders: map<Id, LimitOrder>, at: int, limit: int): SweepOutcome<map<int, PriceDeque>>
    requires TreeRegistered(pq, orders)
    decreases limit - at + 1, 2
  {
    if limit < at then SweepOutcome(pq, orders, remaining, [], false, limit + 1)
    else SweepUpHashLevel(rules, inc, remaining, pq, orders, at, limit)
  }

  /** A price without orders within the limit is passed. */
  ghost function SweepUpHashLevel(
    rules: TradeRules, inc: Incoming, remaining: int,
    pq: map<int, PriceDeque>, orders: map<Id, LimitOrder>, at: int, limit: int): SweepOutcome<map<int, PriceDeque>>
    requires at <= limit && TreeRegistered(pq, orders)
    decreases limit - at + 1, 1
  {
    if QueueAt(pq, at) == [] then SweepUpHash(rules, inc, remaining, pq, orders, at + 1, limit)
    else SweepUpHashRound(rules, inc, remaining, pq, orders, at, limit)
  }

  /** One round at `at`, going on at the price above. */
  ghost function SweepUpHashRound(
    rules: TradeRules, inc: Incoming, remaining: int,
    pq: map<int, PriceDeque>, orders: map<Id, LimitOrder>, at: int, limit: int): SweepOutcome<map<int, PriceDeque>>
    requires at <= limit && at in pq && TreeRegistered(pq, orders)
    decreases limit - at + 1, 0
  {
    var o := MatchLevelSpec(rules, inc, remaining, pq[at].ids, orders);
    var pq' := pq[at := pq[at].(ids := o.queue)];
    QueuesRegisteredAfterRound(rules, inc, remaining, pq, orders, at);
    if o.filled then SweepOutcome(pq', o.orders, o.remaining, o.trades, true, at)
    else PrependSweep(o.trades, SweepUpHash(rules, inc, o.remaining, pq', o.orders, at + 1, limit))
  }

  /** Past the limit the sweep does nothing. */
  lemma SweepUpHashStops(
    rules: TradeRules, inc: Incoming, remaining: int,
    pq: map<int, PriceDeque>, orders: map<Id, LimitOrder>, at: int, limit: int)
    requires TreeRegistered(pq, orders) && limit < at
    ensures SweepUpHash(rules, inc, remaining, pq, orders, at, limit)
      == SweepOutcome(pq, orders, remaining, [], false, limit + 1)
  {
  }

  /** Within the limit the sweep is one round at `at`, on the stored level
      or on an empty one, followed by the sweep from the price above. */
  lemma SweepUpHashStep(
    rules: TradeRules, inc: Incoming, remaining: int,
    pq: map<int, PriceDeque>, orders: map<Id, LimitOrder>, at: int, limit: int)
    requires at <= limit && TreeRegistered(pq, orders)
    ensures Registered(QueueAt(pq, at), orders)
    ensures var o := MatchLevelSpec(rules, inc, remaining, QueueAt(pq, at), orders);
      var pq' := SetQueue(pq, at, o.queue);
      && TreeRegistered(pq', o.orders)
      && SweepUpHash(rules, inc, remaining, pq, orders, at, limit) ==
           if o.filled then SweepOutcome(pq', o.orders, o.remaining, o.trades, true, at)
           else PrependSweep(o.trades, SweepUpHash(rules, inc, o.remaining, pq', o.orders, at + 1, limit))
  {
    if at in pq {
      QueuesRegisteredAfterRound(rules, inc, remaining, pq, orders, at);
    }
    if QueueAt(pq, at) == [] {
      var o := MatchLevelSpec(rules, inc, remaining, QueueAt(pq, at), orders);
      assert o == LevelOutcome([], orders, remaining, [], false);
      if at in pq {
        assert pq[at := pq[at].(ids := [])] == pq;
      }
      var s := SweepUpHash(rules, inc, remaining, pq, orders, at + 1, limit);
      assert SweepUpHashLevel(rules, inc, remaining, pq, orders, at, limit) == s;
      assert PrependSweep([], s) == s by {
        assert [] + s.trades == s.trades;
      }
    } else {
      assert SweepUpHash(rules, inc, remaining, pq, orders, at, limit)
        == SweepUpHashRound(rules, inc, remaining, pq, orders, at, limit);
    }
  }

  /** The dictionary keeps its prices; the levels below `at`, and those
      above where the sweep ended, are as they were; every stored level it
      passed without completing the order is empty; an order completed is
      completed within the limit. */
  lemma {:induction false} SweepUpHashClears(
    rules: TradeRules, inc: Incoming, remaining: int,
    pq: map<int, PriceDeque>, orders: map<Id, LimitOrder>, at: int, limit: int)
    requires TreeRegistered(pq, orders)
    ensures var s := SweepUpHash(rules, inc, remaining, pq, orders, at, limit);
      && s.side.Keys == pq.Keys
      && (s.filled ==> at <= s.at <= limit)
      && (forall p | p in pq && (p < at || (if s.filled then s.at < p else limit < p)) :: s.side[p] == pq[p])
      && (forall p | p in pq && at <= p <= limit && (!s.filled || p < s.at) :: s.side[p].ids == [])
    decreases limit - at + 1
  {
    if limit < at {
      SweepUpHashStops(rules, inc, remaining, pq, orders, at, limit);
    } else {
      SweepUpHashStep(rules, inc, remaining, pq, orders, at, limit);
      MatchLevelShape(rules, inc, remaining, QueueAt(pq, at), orders);
      var o := MatchLevelSpec(rules, inc, remaining, QueueAt(pq, at), orders);
      if !o.filled {
        SweepUpHashClears(rules, inc, o.remaining, SetQueue(pq, at, o.queue), o.orders, at + 1, limit);
      }
    }
  }

  /** The sweep of an incoming sell over the dictionary, from price `at`
      down. */
  ghost function SweepDownHash(
    rules: TradeRules, inc: Incoming, remaining: int,
    pq: map<int, PriceDeque>, orders: map<Id, LimitOrder>, at: int, limit: int): SweepOutcome<map<int, PriceDeque>>
    requires TreeRegistered(pq, orders)
    decreases at - limit + 1, 2
  {
    if at < limit then SweepOutcome(pq, orders, remaining, [], false, limit - 1)
    else SweepDownHashLevel(rules, inc, remaining, pq, orders, at, limit)
  }

  /** A price without orders within the limit is passed. */
  ghost function SweepDownHashLevel(
    rules: TradeRules, inc: Incoming, remaining: int,
    pq: map<int, PriceDeque>, orders: map<Id, LimitOrder>, at: int, limit: int): SweepOutcome<map<int, PriceDeque>>
    requires limit <= at && TreeRegistered(pq, orders)
    decreases at - limit + 1, 1
  {
    if QueueAt(pq, at) == [] then SweepDownHash(rules, inc, remaining, pq, orders, at - 1, limit)
    else SweepDownHashRound(rules, inc, remaining, pq, orders, at, limit)
  }

  /** One round at `at`, going on at the price below. */
  ghost function SweepDownHashRound(
    rules: TradeRules, inc: Incoming, remaining: int,
    pq: map<int, PriceDeque>, orders: map<Id, LimitOrder>, at: int, limit: int): SweepOutcome<map<int, PriceDeque>>
    requires limit <= at && at in pq && TreeRegistered(pq, orders)
    decreases at - limit + 1, 0
  {
    var o := MatchLevelSpec(rules, inc, remaining, pq[at].ids, orders);
    var pq' := pq[at := pq[at].(ids := o.queue)];
    QueuesRegisteredAfterRound(rules, inc, remaining, pq, orders, at);
    if o.filled then SweepOutcome(pq', o.orders, o.remaining, o.trades, true, at)
    else PrependSweep(o.trades, SweepDownHash(rules, inc, o.remaining, pq', o.orders, at - 1, limit))
  }

  /** Below the limit the sweep does nothing. */
  lemma SweepDownHashStops(
    rules: TradeRules, inc: Incoming, remaining: int,
    pq: map<int, PriceDeque>, orders: map<Id, LimitOrder>, at: int, limit: int)
    requires TreeRegistered(pq, orders) && at < limit
    ensures SweepDownHash(rules, inc, remaining, pq, orders, at, limit)
      == SweepOutcome(pq, orders, remaining, [], false, limit - 1)
  {
  }

  /** Within the limit the sweep is one round at `at` followed by the sweep
      from the price below. */
  lemma SweepDownHashStep(
    rules: TradeRules, inc: Incoming, remaining: int,
    pq: map<int, PriceDeque>, orders: map<Id, LimitOrder>, at: int, limit: int)
    requires limit <= at && TreeRegistered(pq, orders)
    ensures Registered(QueueAt(pq, at), orders)
    ensures var o := MatchLevelSpec(rules, inc, remaining, QueueAt(pq, at), orders);
      var pq' := SetQueue(pq, at, o.queue);
      && TreeRegistered(pq', o.orders)
      && SweepDownHash(rules, inc, remaining, pq, orders, at, limit) ==
           if o.filled then SweepOutcome(pq', o.orders, o.remaining, o.trades, true, at)
           else PrependSweep(o.trades, SweepDownHash(rules, inc, o.remaining, pq', o.orders, at - 1, limit))
  {
    if at in pq {
      QueuesRegisteredAfterRound(rules, inc, remaining, pq, orders, at);
    }
    if QueueAt(pq, at) == [] {
      var o := MatchLevelSpec(rules, inc, remaining, QueueAt(pq, at), orders);
      assert o == LevelOutcome([], orders, remaining, [], false);
      if at in pq {
        assert pq[at := pq[at].(ids := [])] == pq;
      }
      var s := SweepDownHash(rules, inc, remaining, pq, orders, at - 1, limit);
      assert SweepDownHashLevel(rules, inc, remaining, pq, orders, at, limit) == s;
      assert PrependSweep([], s) == s by {
        assert [] + s.trades == s.trades;
      }
    } else {
      assert SweepDownHash(rules, inc, remaining, pq, orders, at, limit)
        == SweepDownHashRound(rules, inc, remaining, pq, orders, at, limit);
    }
  }

  /** The mirror of `SweepUpHashClears` for a sell going down. */
  lemma {:induction false} SweepDownHashClears(
    rules: TradeRules, inc: Incoming, remaining: int,
    pq: map<int, PriceDeque>, orders: map<Id, LimitOrder>, at: int, limit: int)
    requires TreeRegistered(pq, orders)
    ensures var s := SweepDownHash(rules, inc, remaining, pq, orders, at, limit);
      && s.side.Keys == pq.Keys
      && (s.filled ==> limit <= s.at <= at)
      && (forall p | p in pq && (at < p || (if s.filled then p < s.at else p < limit)) :: s.side[p] == pq[p])
      && (forall p | p in pq && limit <= p <= at && (!s.filled || s.at < p) :: s.side[p].ids == [])
    decreases at - limit + 1
  {
    if at < limit {
      SweepDownHashStops(rules, inc, remaining, pq, orders, at, limit);
    } else {
      SweepDownHashStep(rules, inc, remaining, pq, orders, at, limit);
      MatchLevelShape(rules, inc, remaining, QueueAt(pq, at), orders);
      var o := MatchLevelSpec(rules, inc, remaining, QueueAt(pq, at), orders);
      if !o.filled {
        SweepDownHashClears(rules, inc, o.remaining, SetQueue(pq, at, o.queue), o.orders, at - 1, limit);
      }
    }
  }
}
