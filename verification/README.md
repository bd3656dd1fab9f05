# Limit order book — a verified Dafny model

The repository is a single-instrument limit order book matching engine,
written five times over. Every version keeps, per price, a FIFO deque of
resting limit orders; a dictionary from order id to order; and a log of
matched orders. An incoming buy consumes resting sells from the best ask
upward while its limit price still crosses; an incoming sell does the same
downward on the bids. Whatever remains rests at its own price. `cancel`
looks the order up by id and removes it from its level.

The versions differ in how they find price levels:

| Dafny module | source | levels held in |
|---|---|---|
| `DequeArrayBook` | `deque_lob/array_deque.py` + `deque_lob/base_deque_limit_order_book.py` | an array of `max_price + 1` levels, cursors `bidMax`/`askMin` |
| `DequeTreeBook` | `deque_lob/balanced_tree.py` + `deque_lob/base_deque_limit_order_book.py` | two ordered maps (the AVL trees) |
| `HashBook` | `hash_deque.py` | a dictionary of levels created on demand, cursors stepping by one |
| `LegacyArrayBook` | `array_deque.py` | an array of `max_price` deques; `add` takes fields and returns the resting order |
| `LegacyTreeBook` | `balanced_tree.py` | two ordered maps; exhausted levels are deleted while matching |

Shared modules:
- `Orders`: the order records of `base/order.py`.
- `LegacyOrders`: the UUID-based records of `order.py`.
- `PriceDeques`: the level and its `as_dict` summary, from `base/price_deque.py`.
- `BaseBook`: the match log, `spread` and `get_latest_matches`, from `base/limit_order_book.py`.
- `Levels`: the per-level invariant of the cursor books.
- `Trees`: the ordered-map view of an AVL tree, and the per-side invariant of the tree books.
- `Matching`: the per-level matching loop, shared by all five books.
- `LevelSweeps`: the reference sweeps over an array of levels and over a dictionary of levels.

How the model represents the system:
- **Orders are stored once.** Orders live in `orders: map<Id, LimitOrder>`, and a level holds the ids of its orders in FIFO order. This reproduces Python's object sharing: a fill's `entry.quantity -= …` is visible through both the deque and the dictionary.
- **One matching loop.** The inner `while entries:` loop is the same in every version up to two choices:
  - the price each trade is logged at;
  - the quantity the completing trade is logged with.

  It is therefore one method, `Matching.MatchLevel`, parameterised by `TradeRules` and proved equal to the function `Matching.MatchLevelSpec`. Each trade is appended to the match log through `BaseLimitOrderBook.Execute`.
- **Trade prices per version:**
  - `deque_lob`: always the resting price.
  - `hash_deque.py` and `balanced_tree.py`: the resting price for a partial fill, the incoming price for the completing fill.
  - `array_deque.py`: the incoming price on the buy side, the resting price on the sell side.
- **The two branches of `add`.** Each book's `Add` dispatches on the direction to `AddBuy` and `AddSell`, the buy and sell branches of the Python `add`. They have the same requirements as `Add`, and each one's contract names the side it sweeps and the side it rests on.
- **Logged trades.** A logged trade is a `Trade`: a `MatchedOrder` without its random id.
- **Invariants.** The cursor books keep `Levels.LevelsHold`:
  - every level's orders are registered, distinct and at that level's price;
  - resting buys are at or below the best bid;
  - resting sells are at or above the best ask;
  - the best bid is below the best ask.

  The tree books keep `Trees.SideHolds` for each side, and every bid key is below every ask key.
- **Reference sweeps.** Each book's matching is specified by a ghost function that runs the level loop (`MatchLevelSpec`) price by price, from the best price to the incoming limit (`LevelSweeps` for the array and dictionary books, `Trees` for the tree books). Each book's `AskSweep`/`BidSweep` applies it to the book as it is. Every round of the buy or sell loop is proved to be one step of it, and every `Add` to produce exactly its trades, levels and orders. Price-time priority therefore carries over from the level lemmas `MatchLevelFifo`, `MatchLevelTradesFollowQueue` and `MatchLevelTouchesOnlyFront`.

Where a generic price-time-priority description of such an engine and this
code differ, the model follows the code:
- There is no amend operation, no sequence counter and no `DuplicateOrderId` error.
- Trades are not always at the resting order's price (see above).
- Fills never delete `orders` entries; only `cancel` does.
- A filled order can therefore still be found in `orders`, though it is no longer in its level. Cancelling it fails:
  - in the array books and `hash_deque.py`, in the level's `remove` (ValueError), which the model reports as `NotInLevel`;
  - in both tree books, when matching has deleted the exhausted level, in the tree lookup (KeyError), which the model reports as `MissingLevel`; if the level survived, as `NotInLevel`.
- Emptied levels persist:
  - in the array books and in `hash_deque.py` always: the dictionary never loses a key, not even for a level that matching exhausts;
  - in both tree books only after `cancel`, since matching removes an exhausted level.

## Model

| member | source | states |
|---|---|---|
| Orders.IdDefaulting | limit_order_book/base/order.py:21-22 | a supplied id is kept whatever fresh value is drawn; without one, orders built from distinct fresh values are unequal |
| Orders.MatchIdDefaulting | limit_order_book/base/order.py:45-46 | the same id defaulting for matched orders |
| Orders.SameOrderIgnoresFields | limit_order_book/base/order.py:33-34 | order equality holds exactly when the ids agree, survives a quantity change, is transitive, and differs from field equality |
| Orders.SameMatchIgnoresFields | limit_order_book/base/order.py:58-59 | matched-order equality holds exactly when the ids agree, whatever the other fields |
| Orders.LimitOrderAsDictMirrorsFields | limit_order_book/base/order.py:24-31 | the order view has exactly the keys id, trader_id, quantity, price, and two views agree iff those four fields do; the older `order.py` view (lines 25-32) has the same keys |
| Orders.MatchedOrderAsDictMirrorsFields | limit_order_book/base/order.py:48-56 | the matched-order view has exactly the keys Id, BuyTraderId, SellTraderId, Quantity, Price and determines the whole record |
| LegacyOrders.HexInjective | limit_order_book/order.py:22-23 | two numbers below 16^n with the same n-digit hex form are equal |
| LegacyOrders.HexDigitsOnly | limit_order_book/order.py:22-23 | the hex form consists of lower-case hex digits only |
| LegacyOrders.UuidHexIsFaithful | limit_order_book/order.py:19-23 | an id is 32 lower-case hex digits, and two UUIDs give the same id iff they are equal |
| LegacyOrders.EqualityIsUuidEquality | limit_order_book/order.py:34-35 | two orders are equal iff their UUIDs are, whatever their other fields |
| LegacyOrders.MatchEqualityIsUuidEquality | limit_order_book/order.py:60-61 | the same for matched orders |
| LegacyOrders.MatchedOrderAsDictMirrorsFields | limit_order_book/order.py:50-58 | the older matched-order view has the lower-case keys id, buy_trader_id, sell_trader_id, quantity, price and determines the record |
| PriceDeques.NewLevelSummary | limit_order_book/base/price_deque.py:8-17 | a new level keeps its price and its initial orders in order; its summary reports that price, their count, and quantity 0 when empty |
| PriceDeques.QuantityConcat | limit_order_book/base/price_deque.py:15 | the summed quantity of two queues placed end to end is the sum of their quantities |
| PriceDeques.QuantitySplit | limit_order_book/base/price_deque.py:15 | inserting one order anywhere in a queue adds exactly its quantity |
| PriceDeques.AsDictAfterAppend | limit_order_book/base/price_deque.py:6-17 | append puts the order at the tail, keeps the rest, adds one to the count and its quantity to the total |
| PriceDeques.AsDictAfterPopLeft | limit_order_book/base/price_deque.py:6-17 | popleft takes the front order; the count drops by one and the total by its quantity |
| PriceDeques.RemoveDeletesFirstOccurrence | limit_order_book/base/price_deque.py:6 | remove deletes the first occurrence of the id, keeps the others in order, and removes exactly one element |
| PriceDeques.AsDictAfterRemove | limit_order_book/base/price_deque.py:6-17 | after remove, the count drops by one and the total by the removed order's quantity |
| BaseBook.BaseLimitOrderBook.constructor | limit_order_book/base/limit_order_book.py:24-31 | stores name and max_price and starts an empty match log |
| BaseBook.BaseLimitOrderBook.Execute | limit_order_book/base/limit_order_book.py:38-45 | appends exactly the given match at the end of the log and changes nothing else |
| BaseBook.SliceStart | limit_order_book/base/limit_order_book.py:82 | Python's start index of the `[-n:]` slice stays inside the log |
| BaseBook.LatestMatches | limit_order_book/base/limit_order_book.py:79-83 | the selection is a suffix of the log in execution order: the last n entries for n >= 1, the whole log for n = 0, all but the first -n for negative n |
| Levels.LevelHoldsAfterMatch | limit_order_book/deque_lob/base_deque_limit_order_book.py:82-120 | a level stays valid when matching leaves a suffix of its queue and changes only quantities |
| Levels.LevelHoldsAfterQuantities | limit_order_book/deque_lob/base_deque_limit_order_book.py:105 | changing quantities only keeps a level valid |
| Levels.LevelHoldsAfterRegister | limit_order_book/deque_lob/array_deque.py:38 | registering a new id keeps every level valid |
| Levels.LevelHoldsAfterAppend | limit_order_book/deque_lob/array_deque.py:38-39 | appending a newly registered order at its price, on the correct side of the cursors, keeps the level valid |
| Levels.LevelHoldsAfterRemove | limit_order_book/deque_lob/base_deque_limit_order_book.py:207-213 | removing an order from its level and from `orders` removes every copy of the id and keeps the level valid |
| Levels.LevelHoldsAfterDelete | limit_order_book/deque_lob/base_deque_limit_order_book.py:213 | deleting an id that a level does not hold keeps that level valid |
| Levels.QueuedAtItsPrice | limit_order_book/deque_lob/base_deque_limit_order_book.py:210 | an order can only be queued at its own price |
| Levels.LevelHoldsAfterCursorMove | limit_order_book/deque_lob/array_deque.py:115-142 | moving a cursor across empty levels only keeps a level valid |
| Levels.NonEmptyLevelIsOutsideSpread | limit_order_book/base/limit_order_book.py:64-67 | a level holding orders is never strictly inside the spread |
| Levels.LevelsHoldAfterMatch | limit_order_book/deque_lob/base_deque_limit_order_book.py:80-120 | matching at one level keeps every level valid |
| Levels.LevelsHoldAfterAppend | limit_order_book/deque_lob/base_deque_limit_order_book.py:126-131 | resting a new order on the correct side of the cursors keeps every level valid |
| Levels.LevelsHoldAfterCancel | limit_order_book/deque_lob/base_deque_limit_order_book.py:197-213 | cancel keeps every level valid |
| Levels.LevelsHoldAfterCursorMove | limit_order_book/deque_lob/array_deque.py:100-142 | cursors may move over empty levels only, and doing so keeps every level valid |
| Matching.TotalQuantityConcat | limit_order_book/deque_lob/base_deque_limit_order_book.py:74-134 | traded quantity adds up over concatenated trade lists |
| Matching.TradesOfConcat | limit_order_book/deque_lob/base_deque_limit_order_book.py:92-98 | trades naming the incoming trader on its side within its limit stay so when concatenated |
| Matching.MatchLevel | limit_order_book/deque_lob/base_deque_limit_order_book.py:82-120 | the imperative level loop computes `MatchLevelSpec` and logs exactly its trades, in order |
| Matching.MatchLevelShape | limit_order_book/deque_lob/base_deque_limit_order_book.py:82-120 | at most one trade per queued order; an unfilled order empties the level with one trade per order; a filled one leaves the queue from its last trade partner on, or from the next order when that partner was used up |
| Matching.NthTrade | limit_order_book/deque_lob/base_deque_limit_order_book.py:85-118 | trade i is against the i-th queued order, the incoming trader on its own side; a non-completing trade takes that order's whole quantity at the partial price, the completing one is at the final price |
| Matching.MatchLevelTradesFollowQueue | limit_order_book/deque_lob/base_deque_limit_order_book.py:85-118 | the same correspondence for every trade of a level at once |
| Matching.MatchLevelFifo | limit_order_book/deque_lob/base_deque_limit_order_book.py:82-120 | trade i is with the i-th queued order; the resting party, price and quantity follow that order, and a partial trade takes all of it; the loop stops only when the incoming order is filled or the level is empty |
| Matching.MatchLevelConserves | limit_order_book/deque_lob/base_deque_limit_order_book.py:85-120 | when the completing trade logs the filled amount, traded quantity plus remainder equals the incoming quantity, and a fill trades exactly it |
| Matching.MatchLevelTouchesOnlyFront | limit_order_book/deque_lob/base_deque_limit_order_book.py:83-109 | matching leaves a suffix of the queue, changes only quantities, and only the new front order's; that order was reduced, not emptied |
| Matching.MatchLevelWithinLimit | limit_order_book/deque_lob/base_deque_limit_order_book.py:77-98 | at a crossing level every trade names the incoming trader on its side and is priced within its limit |
| Matching.MatchLevelAtIncomingPrice | limit_order_book/array_deque.py:96-113 | with both price rules at the incoming price, every trade is at the incoming price |
| Matching.LegacySellFinalFillMisreports | limit_order_book/array_deque.py:172-189 | as written, a sell of 3 against a bid of 10 logs quantity 7; the corrected rules log 3 and leave the same book |
| Matching.LevelsHoldAfterMatchAt | limit_order_book/deque_lob/base_deque_limit_order_book.py:80-120 | with filled-amount logging, matching the level at one index keeps every level valid, changes only quantities, conserves quantity, and stays within the limit at a crossing level |
| Trees.MinKey | limit_order_book/deque_lob/balanced_tree.py:175-178 | the smallest key of a non-empty tree |
| Trees.MaxKey | limit_order_book/deque_lob/balanced_tree.py:161-164 | the largest key of a non-empty tree |
| Trees.Succ | limit_order_book/deque_lob/balanced_tree.py:90-91 | `succ_item`: the nearest larger key |
| Trees.Pred | limit_order_book/deque_lob/balanced_tree.py:111-112 | `prev_item`: the nearest smaller key |
| Trees.LowestRemovedStep | limit_order_book/balanced_tree.py:102-104 | removing the lowest remaining ask key within the buy limit keeps "only the lowest keys within the limit were removed" |
| Trees.HighestRemovedStep | limit_order_book/balanced_tree.py:163-165 | the same for the highest bid keys |
| Trees.LowestRemovedFrom | limit_order_book/deque_lob/balanced_tree.py:166-178 | after such a removal, an old ask key is still present exactly when it is at or above the new best ask |
| Trees.HighestRemovedFrom | limit_order_book/deque_lob/balanced_tree.py:152-164 | after such a removal, an old bid key is still present exactly when it is at or below the new best bid |
| Trees.AfterRound | limit_order_book/deque_lob/base_deque_limit_order_book.py:80-124 | one round of a sweep: the level keeps the queue matching left and stays only when the incoming order was completed there, otherwise its key leaves the tree; no other level changes |
| Trees.SweptUpStep | limit_order_book/deque_lob/base_deque_limit_order_book.py:77-124 | exhausting the lowest ask level within the buy limit keeps "only the lowest levels within the limit are gone, the rest unchanged" |
| Trees.SweptUpLast | limit_order_book/deque_lob/base_deque_limit_order_book.py:80-124 | a round that completes the buy keeps every key and changes no other level |
| Trees.SweptDownStep | limit_order_book/deque_lob/base_deque_limit_order_book.py:138-185 | the same for the highest bid levels against a sell |
| Trees.SweptDownLast | limit_order_book/deque_lob/base_deque_limit_order_book.py:141-185 | the same as `SweptUpLast` on the bids |
| Trees.OnSideDirection | limit_order_book/deque_lob/balanced_tree.py:41-43 | every order queued in a side's tree has that side's direction and the level's price |
| Trees.InsertOrAppend | limit_order_book/deque_lob/balanced_tree.py:41-54 | a new price gets a one-order level; an existing one gets the order at its tail; keys grow by exactly the price, and other levels are unchanged |
| Trees.SideHoldsAfterMatch | limit_order_book/deque_lob/base_deque_limit_order_book.py:82-120 | a side stays valid when matching leaves a suffix of one level and changes only quantities |
| Trees.SideHoldsAfterQuantities | limit_order_book/deque_lob/base_deque_limit_order_book.py:105 | changing quantities only keeps a side valid |
| Trees.SideHoldsAfterRest | limit_order_book/deque_lob/balanced_tree.py:39-54 | resting a new order in its own side's tree keeps that side valid |
| Trees.SideHoldsAfterRegister | limit_order_book/deque_lob/balanced_tree.py:39 | registering a new id keeps the other side valid |
| Trees.SideHoldsAfterCancel | limit_order_book/deque_lob/base_deque_limit_order_book.py:207-213 | removing a queued order from its level and from `orders` keeps its side valid |
| Trees.SideHoldsAfterDelete | limit_order_book/deque_lob/base_deque_limit_order_book.py:213 | deleting an order of the other direction keeps a side valid |
| Trees.SidesHoldAfterMatch | limit_order_book/deque_lob/base_deque_limit_order_book.py:80-120 | matching one tree level keeps both sides valid and conserves quantity; at a crossing level the trades are within the limit |
| Trees.TreeRegisteredAfterRound | limit_order_book/deque_lob/base_deque_limit_order_book.py:80-124 | a round of the level loop, with the level then kept or deleted, leaves every level queueing registered orders only |
| Trees.SideHoldsAfterRound | limit_order_book/deque_lob/base_deque_limit_order_book.py:80-124 | deleting the matched level, or keeping it with its new queue, keeps the side valid |
| Trees.SweepUpTreeStops | limit_order_book/deque_lob/base_deque_limit_order_book.py:77 | when no ask level lies within the buy limit, the reference sweep trades nothing and changes nothing |
| Trees.SweepUpTreeRound | limit_order_book/deque_lob/base_deque_limit_order_book.py:77-124 | within the limit the reference sweep is the level loop on the lowest ask level (`MatchLevelSpec`), then the level leaves unless the buy was completed there, then the sweep from what is left |
| Trees.SweepUpTreeHolds | limit_order_book/deque_lob/base_deque_limit_order_book.py:77-124 | the reference sweep of a buy keeps the ask side valid, changes only quantities, trades with the buyer within its limit and conserves quantity; unfilled, it removed exactly the ask levels within the limit, lowest first; filled, it stopped at the new lowest level, within the limit, and every other level is as it was |
| Trees.SweepDownTreeStops | limit_order_book/deque_lob/base_deque_limit_order_book.py:138 | the mirror of `SweepUpTreeStops` for a sell against the bids |
| Trees.SweepDownTreeRound | limit_order_book/deque_lob/base_deque_limit_order_book.py:138-185 | the mirror of `SweepUpTreeRound`, on the highest bid level |
| Trees.SweepDownTreeHolds | limit_order_book/deque_lob/base_deque_limit_order_book.py:138-185 | the mirror of `SweepUpTreeHolds` for a sell against the bids |
| LevelSweeps.LevelsHoldRegistered | limit_order_book/deque_lob/base_deque_limit_order_book.py:80-84 | every level of a valid array queues registered orders only |
| LevelSweeps.LevelsRegisteredAfterRound | limit_order_book/deque_lob/base_deque_limit_order_book.py:80-120 | matching one level of the array keeps every level's queue registered |
| LevelSweeps.SweepUpArrayStops | limit_order_book/deque_lob/base_deque_limit_order_book.py:77 | past the buy limit the reference sweep over the array trades nothing and changes nothing |
| LevelSweeps.SweepUpArrayStep | limit_order_book/deque_lob/base_deque_limit_order_book.py:77-124 | within the limit the reference sweep over the array is the level loop on the level at `at` (`MatchLevelSpec`, nothing for an empty level) followed by the sweep from the next price |
| LevelSweeps.SweepUpArraySkips | limit_order_book/deque_lob/array_deque.py:56-78 | a run of empty levels is skipped without trading: the sweep from the first equals the sweep from the level after the run |
| LevelSweeps.SweepUpArrayHolds | limit_order_book/deque_lob/base_deque_limit_order_book.py:77-124 | the reference sweep of a buy up to its own price changes only quantities, trades with the buyer within its limit, and conserves quantity; a completing trade logs what was left |
| LevelSweeps.SweepUpArrayLength | limit_order_book/deque_lob/base_deque_limit_order_book.py:77-124 | the sweep keeps one level per price |
| LevelSweeps.SweepUpArrayClears | limit_order_book/deque_lob/base_deque_limit_order_book.py:77-124 | the sweep leaves every level below its start, and above where it ended, as it was; every level it passed without completing the buy is empty; a completion is within the limit |
| LevelSweeps.SweepUpArrayAtIncomingPrice | limit_order_book/array_deque.py:96-113 | when both price rules use the incoming price, every trade of the sweep is at the buy's price |
| LevelSweeps.SweepDownArrayStops | limit_order_book/deque_lob/base_deque_limit_order_book.py:138 | the mirror of `SweepUpArrayStops` for a sell |
| LevelSweeps.SweepDownArrayStep | limit_order_book/deque_lob/base_deque_limit_order_book.py:138-185 | the mirror of `SweepUpArrayStep`, stepping down |
| LevelSweeps.SweepDownArraySkips | limit_order_book/deque_lob/array_deque.py:80-98 | the mirror of `SweepUpArraySkips`, stepping down |
| LevelSweeps.SweepDownArrayHolds | limit_order_book/deque_lob/base_deque_limit_order_book.py:138-185 | the mirror of `SweepUpArrayHolds` for a sell |
| LevelSweeps.SweepDownArrayLength | limit_order_book/deque_lob/base_deque_limit_order_book.py:138-185 | the mirror of `SweepUpArrayLength` |
| LevelSweeps.SweepDownArrayClears | limit_order_book/deque_lob/base_deque_limit_order_book.py:138-185 | the mirror of `SweepUpArrayClears`, stepping down |
| LevelSweeps.QueuesRegisteredAfterRound | limit_order_book/hash_deque.py:48-90 | matching one stored level of the dictionary keeps every level's queue registered; the level stays even when exhausted |
| LevelSweeps.SweepUpHashStops | limit_order_book/hash_deque.py:46 | past the buy limit the reference sweep over the dictionary trades nothing and changes nothing |
| LevelSweeps.SweepUpHashStep | limit_order_book/hash_deque.py:46-94 | within the limit the reference sweep over the dictionary is the level loop on `price_queues.get(at, empty)` (a missing level matches nothing and is not created) followed by the sweep from the price above |
| LevelSweeps.SweepUpHashClears | limit_order_book/hash_deque.py:46-94 | the dictionary keeps its prices; levels below the start, and above where the sweep ended, are as they were; every stored level passed without completing the buy is empty; a completion is within the limit |
| LevelSweeps.SweepDownHashStops | limit_order_book/hash_deque.py:109 | the mirror of `SweepUpHashStops` for a sell |
| LevelSweeps.SweepDownHashStep | limit_order_book/hash_deque.py:109-159 | the mirror of `SweepUpHashStep`, stepping down |
| LevelSweeps.SweepDownHashClears | limit_order_book/hash_deque.py:109-159 | the mirror of `SweepUpHashClears`, stepping down |
| DequeArrayBook.NextLevel | limit_order_book/deque_lob/array_deque.py:56-78 | the result q satisfies p < q <= max_price, every level strictly between is empty, and q holds orders unless it is max_price |
| DequeArrayBook.PrevLevel | limit_order_book/deque_lob/array_deque.py:80-98 | the result q satisfies 0 <= q < p, every level strictly between is empty, and q holds orders unless it is 0 |
| DequeArrayBook.AskCorrectedKeepsLevelsValid | limit_order_book/deque_lob/array_deque.py:100-120 | the corrected update sets the best ask to the lowest non-empty level from the reference price up (or max_price) and keeps every level valid |
| DequeArrayBook.BidUpdatedKeepsLevelsValid | limit_order_book/deque_lob/array_deque.py:122-142 | the bid update sets the best bid to the highest non-empty level from max(price, bid_max) down (or 0) and keeps every level valid |
| DequeArrayBook.AskAsWrittenCrossesBook | limit_order_book/deque_lob/array_deque.py:115-120 | as written, an empty ask level moves the best ask down onto a level of resting buys, at or below the best bid; the correction moves it up |
| DequeArrayBook.ArrayDequeLimitOrderBook.constructor | limit_order_book/deque_lob/array_deque.py:21-28 | max_price + 1 empty levels, level p at price p, bid_max 0 and ask_min max_price |
| DequeArrayBook.ArrayDequeLimitOrderBook.BestBid | limit_order_book/deque_lob/array_deque.py:144-153 | the best bid is below the best ask and at or above every resting buy |
| DequeArrayBook.ArrayDequeLimitOrderBook.BestAsk | limit_order_book/deque_lob/array_deque.py:155-164 | the best ask is above the best bid and at or below every resting sell |
| DequeArrayBook.ArrayDequeLimitOrderBook.Spread | limit_order_book/base/limit_order_book.py:64-67 | the spread is best ask minus best bid, at least 1, and no level inside it holds orders |
| DequeArrayBook.ArrayDequeLimitOrderBook.GetNextLevel | limit_order_book/deque_lob/array_deque.py:56-78 | the stepping loop returns `NextLevel` |
| DequeArrayBook.ArrayDequeLimitOrderBook.GetPrevLevel | limit_order_book/deque_lob/array_deque.py:80-98 | the stepping loop returns `PrevLevel` |
| DequeArrayBook.ArrayDequeLimitOrderBook.UpdateBestAskPriceAsWritten | limit_order_book/deque_lob/array_deque.py:100-120 | ask_min becomes `AskAsWritten` (downward search); nothing else changes |
| DequeArrayBook.ArrayDequeLimitOrderBook.UpdateBestAskPrice | limit_order_book/deque_lob/array_deque.py:100-120 | ask_min becomes `AskCorrected` (upward search); nothing else changes; this is the corrected upward best-ask search, while as written it falls (first row of Findings) |
| DequeArrayBook.ArrayDequeLimitOrderBook.UpdateBestBidPrice | limit_order_book/deque_lob/array_deque.py:122-142 | bid_max becomes `BidUpdated`; nothing else changes |
| DequeArrayBook.ArrayDequeLimitOrderBook.MatchAt | limit_order_book/deque_lob/base_deque_limit_order_book.py:82-120 | the outcome is `MatchLevelSpec` of the level's old queue (FIFO, counterparties, the queue left and the quantities changed); the level gets that queue, `orders` that map, the trades are logged in order; the book stays valid and quantity is conserved |
| DequeArrayBook.ArrayDequeLimitOrderBook.MatchBestAsk | limit_order_book/deque_lob/base_deque_limit_order_book.py:80-124 | one round of the buy loop is one step of the reference sweep: the old sweep is this round's trades followed by the sweep from the new book; unless filled, the best ask rises over empty levels to a non-empty level or the max_price sentinel; this is the corrected upward best-ask search, while as written it falls (first row of Findings) |
| DequeArrayBook.ArrayDequeLimitOrderBook.MatchBestBid | limit_order_book/deque_lob/base_deque_limit_order_book.py:141-185 | the mirror of `MatchBestAsk`; unless filled the best bid falls to a non-empty level or the 0 sentinel |
| DequeArrayBook.ArrayDequeLimitOrderBook.MatchAsks | limit_order_book/deque_lob/base_deque_limit_order_book.py:77-124 | the buy loop computes exactly the reference sweep from the best ask up to the buy's price: the levels, orders, trades, remainder and completion it returns; unless filled the best ask ends above the buy's price, on a non-empty level or the sentinel when it moved; this is the corrected upward best-ask search, while as written it falls (first row of Findings) |
| DequeArrayBook.ArrayDequeLimitOrderBook.MatchBids | limit_order_book/deque_lob/base_deque_limit_order_book.py:138-185 | the mirror of `MatchAsks` for a sell |
| DequeArrayBook.ArrayDequeLimitOrderBook.SweepAsks | limit_order_book/deque_lob/base_deque_limit_order_book.py:77-124 | the buy half of `add` is the reference sweep, hence FIFO level by level from the best ask up; a buy matches only while its price >= best ask; trades are the buyer's within its limit and conserve its quantity; the asks it passed are empty, no other level changes, and unless filled the best ask is a non-empty level or the sentinel; this is the corrected upward best-ask search, while as written it falls (first row of Findings) |
| DequeArrayBook.ArrayDequeLimitOrderBook.SweepBids | limit_order_book/deque_lob/base_deque_limit_order_book.py:138-185 | the mirror image of `SweepAsks` for a sell against the bids |
| DequeArrayBook.ArrayDequeLimitOrderBook.RestBuy | limit_order_book/deque_lob/base_deque_limit_order_book.py:126-131 | the remainder is appended at the tail of its level and registered; the best bid becomes exactly `BidUpdated` from the resting price |
| DequeArrayBook.ArrayDequeLimitOrderBook.RestSell | limit_order_book/deque_lob/base_deque_limit_order_book.py:187-192 | the mirror image for a sell; the best ask becomes exactly `AskCorrected` from the resting price; this is the corrected upward best-ask search, while as written it falls (first row of Findings) |
| DequeArrayBook.ArrayDequeLimitOrderBook.Add | limit_order_book/deque_lob/base_deque_limit_order_book.py:65-195 | the book stays valid and uncrossed; trades are the reference sweep's (FIFO, price by price) with the incoming trader within its limit; traded plus resting quantity equals the order's quantity; the remainder rests last at its price on the swept book, and the cursor is `BidUpdated`/`AskCorrected` from it |
| DequeArrayBook.ArrayDequeLimitOrderBook.AddBuy | limit_order_book/deque_lob/base_deque_limit_order_book.py:75-134 | the trades, levels and orders are the reference sweep's; when filled the best ask is where it completed; otherwise the remainder is appended at its price on the swept levels, registered with its quantity, and the best bid is `BidUpdated` from its price; the best ask only rises, over empty levels; this is the corrected upward best-ask search, while as written it falls (first row of Findings) |
| DequeArrayBook.ArrayDequeLimitOrderBook.AddSell | limit_order_book/deque_lob/base_deque_limit_order_book.py:136-195 | the mirror image for a sell; the best ask becomes `AskCorrected` from its price; this is the corrected upward best-ask search, while as written it falls (first row of Findings) |
| DequeArrayBook.ArrayDequeLimitOrderBook.Cancel | limit_order_book/deque_lob/base_deque_limit_order_book.py:197-213 | success iff the id is known and queued at its price, in which case it leaves its level and `orders`; an unknown id or a filled order fails without any change |
| DequeArrayBook.ArrayDequeLimitOrderBook.AddOrderToQueue | limit_order_book/deque_lob/array_deque.py:30-39 | registers the order and appends it at the tail of its level; nothing else changes |
| DequeTreeBook.BalancedTreeDequeLimitOrderBook.constructor | limit_order_book/deque_lob/balanced_tree.py:26-29 | two empty trees and an empty log |
| DequeTreeBook.BalancedTreeDequeLimitOrderBook.BestBid | limit_order_book/deque_lob/balanced_tree.py:152-164 | 0 for an empty bid tree, else its largest key; below every ask key |
| DequeTreeBook.BalancedTreeDequeLimitOrderBook.BestAsk | limit_order_book/deque_lob/balanced_tree.py:166-178 | max_price for an empty ask tree, else its smallest key; above every bid key |
| DequeTreeBook.BalancedTreeDequeLimitOrderBook.Spread | limit_order_book/base/limit_order_book.py:64-67 | at least 1, and no key of either tree lies strictly inside it |
| DequeTreeBook.BalancedTreeDequeLimitOrderBook.GetPriceLevel | limit_order_book/deque_lob/balanced_tree.py:56-70 | choosing the tree by the best bid finds the level of every key of either tree |
| DequeTreeBook.BalancedTreeDequeLimitOrderBook.GetNextLevel | limit_order_book/deque_lob/balanced_tree.py:72-91 | the nearest key of either tree above the price, or max_price |
| DequeTreeBook.BalancedTreeDequeLimitOrderBook.GetPrevLevel | limit_order_book/deque_lob/balanced_tree.py:93-112 | the nearest key of either tree below the price, or 0 |
| DequeTreeBook.BalancedTreeDequeLimitOrderBook.UpdateBestAskPrice | limit_order_book/deque_lob/balanced_tree.py:114-131 | the reference level leaves the ask tree exactly when it is empty; nothing else changes |
| DequeTreeBook.BalancedTreeDequeLimitOrderBook.UpdateBestBidPrice | limit_order_book/deque_lob/balanced_tree.py:133-150 | the same for the bid tree |
| DequeTreeBook.BalancedTreeDequeLimitOrderBook.MatchAsks | limit_order_book/deque_lob/base_deque_limit_order_book.py:82-120 | the outcome is `MatchLevelSpec` of the ask level's old queue; that level gets the queue, `orders` the map; both trees stay valid, quantity is conserved and the best prices stay |
| DequeTreeBook.BalancedTreeDequeLimitOrderBook.MatchBids | limit_order_book/deque_lob/base_deque_limit_order_book.py:143-181 | the mirror of `MatchAsks` on a bid level |
| DequeTreeBook.BalancedTreeDequeLimitOrderBook.MatchBestAsk | limit_order_book/deque_lob/base_deque_limit_order_book.py:80-124 | one round of the buy loop is one step of the reference sweep over the ask tree: the old sweep is this round's trades followed by the sweep from the new tree, where the level leaves unless the buy was completed there; bids are unchanged |
| DequeTreeBook.BalancedTreeDequeLimitOrderBook.MatchBestBid | limit_order_book/deque_lob/base_deque_limit_order_book.py:141-185 | the mirror image on the bids |
| DequeTreeBook.BalancedTreeDequeLimitOrderBook.SweepAsks | limit_order_book/deque_lob/base_deque_limit_order_book.py:77-124 | the buy half of `add` is the reference sweep of the ask tree (levels, orders, trades, remainder); only the lowest ask levels, all within its limit, are gone, the others unchanged but for the completing level; quantity is conserved |
| DequeTreeBook.BalancedTreeDequeLimitOrderBook.SweepBids | limit_order_book/deque_lob/base_deque_limit_order_book.py:138-185 | the mirror image for a sell |
| DequeTreeBook.BalancedTreeDequeLimitOrderBook.RestBuy | limit_order_book/deque_lob/base_deque_limit_order_book.py:126-131 | the remainder is inserted or appended in the bid tree and registered; the best bid becomes max(old best bid, price) |
| DequeTreeBook.BalancedTreeDequeLimitOrderBook.RestSell | limit_order_book/deque_lob/base_deque_limit_order_book.py:187-192 | the mirror image; the best ask becomes min(old best ask, price) |
| DequeTreeBook.BalancedTreeDequeLimitOrderBook.Add | limit_order_book/deque_lob/base_deque_limit_order_book.py:65-195 | the book stays valid with every bid key below every ask key; trades and the swept side are the reference sweep's; the remainder is inserted or appended last at its price on the swept book; quantity is conserved |
| DequeTreeBook.BalancedTreeDequeLimitOrderBook.AddBuy | limit_order_book/deque_lob/base_deque_limit_order_book.py:75-134 | trades, ask tree and orders are the reference sweep's; an old ask key survives exactly when it is at or above the new best ask, and the removed ones were within the limit; unless filled the buy rests last at its price, below the best ask, and the best bid becomes max(old best bid, price) |
| DequeTreeBook.BalancedTreeDequeLimitOrderBook.AddSell | limit_order_book/deque_lob/base_deque_limit_order_book.py:136-195 | the mirror image for a sell |
| DequeTreeBook.BalancedTreeDequeLimitOrderBook.Cancel | limit_order_book/deque_lob/base_deque_limit_order_book.py:197-213 | an unknown id, a missing level and an order no longer queued are distinct errors that change nothing; every queued order can be cancelled; the emptied level stays |
| DequeTreeBook.BalancedTreeDequeLimitOrderBook.AddOrderToQueue | limit_order_book/deque_lob/balanced_tree.py:31-54 | registers the order and inserts or appends it in its own side's tree only |
| HashBook.QueuesHoldAfterMatch | limit_order_book/hash_deque.py:48-90 | matching the level `price_queues.get` yields (stored, or empty and not stored) keeps every level valid, changes only quantities and conserves quantity; at a crossing level the trades are within the limit |
| HashBook.QueuesHoldAfterMatchStored | limit_order_book/hash_deque.py:52-90 | the same for a stored level, which stays in the dictionary with its new queue |
| HashBook.QueuesHoldRegistered | limit_order_book/hash_deque.py:48-52 | every level of a valid dictionary queues registered orders only |
| HashBook.SweepUpHashHolds | limit_order_book/hash_deque.py:46-94 | the reference sweep of a buy over a valid dictionary up to its price changes only quantities, trades with the buyer within its limit, and conserves quantity; a completing trade logs what was left |
| HashBook.SweepDownHashHolds | limit_order_book/hash_deque.py:109-159 | the mirror of `SweepUpHashHolds` for a sell |
| HashBook.QueuesHoldAfterRest | limit_order_book/hash_deque.py:28-33 | resting via `setdefault` on the correct side of the cursors keeps every level valid |
| HashBook.QueuesHoldAfterCancel | limit_order_book/hash_deque.py:182-188 | cancel keeps every level valid |
| HashBook.QueuesHoldAfterCursorMove | limit_order_book/hash_deque.py:92-102 | moving a cursor over levels that are empty or missing keeps every level valid |
| HashBook.HashDequeLimitOrderBook.constructor | limit_order_book/hash_deque.py:21-26 | bid_max 0, ask_min max_price + 1, no orders and no levels |
| HashBook.HashDequeLimitOrderBook.BestBid | limit_order_book/hash_deque.py:190-199 | below the best ask and at or above every resting buy |
| HashBook.HashDequeLimitOrderBook.BestAsk | limit_order_book/hash_deque.py:201-210 | above the best bid and at or below every resting sell |
| HashBook.HashDequeLimitOrderBook.MatchAt | limit_order_book/hash_deque.py:48-90 | the outcome is `MatchLevelSpec` of the queue `price_queues.get` yields (empty when missing); only a stored level is updated, with that queue; the trades are logged; the book stays valid and quantity is conserved |
| HashBook.HashDequeLimitOrderBook.MatchAskMin | limit_order_book/hash_deque.py:48-94 | one round of the buy loop is one step of the reference sweep: the old sweep is this round's trades followed by the sweep from the new book; a missing level matches as empty and is not created; ask_min rises by one unless filled |
| HashBook.HashDequeLimitOrderBook.MatchBidMax | limit_order_book/hash_deque.py:112-159 | the mirror image of `MatchAskMin`; bid_max falls by one unless filled |
| HashBook.HashDequeLimitOrderBook.MatchAsks | limit_order_book/hash_deque.py:46-94 | the buy loop computes exactly the reference sweep from ask_min up to the buy's price; unless filled ask_min ends at max(old ask_min, price + 1) |
| HashBook.HashDequeLimitOrderBook.MatchBids | limit_order_book/hash_deque.py:109-159 | the mirror of `MatchAsks`; unless filled bid_max ends at min(old bid_max, price - 1) |
| HashBook.HashDequeLimitOrderBook.SweepAsks | limit_order_book/hash_deque.py:46-94 | the buy half of `add` is the reference sweep, hence FIFO level by level from ask_min up; a buy matches only while its price >= ask_min; the levels passed are empty, quantity is conserved, no level is created or deleted |
| HashBook.HashDequeLimitOrderBook.SweepBids | limit_order_book/hash_deque.py:109-159 | the mirror image for a sell |
| HashBook.HashDequeLimitOrderBook.Add | limit_order_book/hash_deque.py:35-170 | the book stays valid and uncrossed; trades and levels are the reference sweep's; the remainder rests last in its level, creating it on demand, and the cursor is raised or lowered to its price |
| HashBook.HashDequeLimitOrderBook.AddBuy | limit_order_book/hash_deque.py:44-105 | trades, levels and orders are the reference sweep's; when filled ask_min is where it completed; otherwise the remainder is inserted or appended at its price on the swept dictionary, bid_max becomes max(bid_max, price) and ask_min max(ask_min, price + 1) |
| HashBook.HashDequeLimitOrderBook.AddSell | limit_order_book/hash_deque.py:107-170 | the mirror image for a sell: ask_min becomes min(ask_min, price) and bid_max min(bid_max, price - 1) |
| HashBook.HashDequeLimitOrderBook.Cancel | limit_order_book/hash_deque.py:172-188 | success iff the id is known and queued; the emptied level stays and the cursors do not move; failures change nothing |
| HashBook.HashDequeLimitOrderBook.AddOrderToQueue | limit_order_book/hash_deque.py:28-33 | registers the order and inserts or appends its level |
| LegacyArrayBook.ArrayDequeLimitOrderBook.constructor | limit_order_book/array_deque.py:46-51 | max_price empty deques, so prices 0..max_price-1; bid_max 0, ask_min max_price + 1 |
| LegacyArrayBook.ArrayDequeLimitOrderBook.BestBid | limit_order_book/array_deque.py:233-242 | below the best ask and at or above every resting buy |
| LegacyArrayBook.ArrayDequeLimitOrderBook.BestAsk | limit_order_book/array_deque.py:244-253 | above the best bid and at or below every resting sell |
| LegacyArrayBook.ArrayDequeLimitOrderBook.MatchAt | limit_order_book/array_deque.py:84-124 | the outcome is `MatchLevelSpec` of the deque's old queue under the given trade rules; the deque gets that queue, `orders` that map; the book stays valid, quantity is conserved, and with incoming-price rules every trade is at the incoming price; a sell's completing trade logs the quantity sold, the corrected rule, where as written it logs the bid's leftover (second row of Findings) |
| LegacyArrayBook.ArrayDequeLimitOrderBook.MatchAskMin | limit_order_book/array_deque.py:84-128 | one round of the buy loop is one step of the reference sweep; every trade is at the incoming price; ask_min rises by one unless filled; only that deque changes |
| LegacyArrayBook.ArrayDequeLimitOrderBook.MatchBidMax | limit_order_book/array_deque.py:151-196 | one step of the reference sweep of a sell, with the corrected final-fill quantity; bid_max falls by one unless filled |
| LegacyArrayBook.ArrayDequeLimitOrderBook.MatchAsks | limit_order_book/array_deque.py:82-128 | the buy loop computes exactly the reference sweep from ask_min up to the buy's price; unless filled ask_min ends at max(old ask_min, price + 1) |
| LegacyArrayBook.ArrayDequeLimitOrderBook.MatchBids | limit_order_book/array_deque.py:149-196 | the mirror of `MatchAsks`; unless filled bid_max ends at min(old bid_max, price - 1); a sell's completing trade logs the quantity sold, the corrected rule, where as written it logs the bid's leftover (second row of Findings) |
| LegacyArrayBook.ArrayDequeLimitOrderBook.SweepAsks | limit_order_book/array_deque.py:82-128 | the buy half of `add` is the reference sweep, hence FIFO deque by deque from ask_min up, all at the buy's price; the deques passed are empty; quantity is conserved |
| LegacyArrayBook.ArrayDequeLimitOrderBook.SweepBids | limit_order_book/array_deque.py:149-196 | the mirror image for a sell, at the resting prices; a sell's completing trade logs the quantity sold, the corrected rule, where as written it logs the bid's leftover (second row of Findings) |
| LegacyArrayBook.ArrayDequeLimitOrderBook.RestBuy | limit_order_book/array_deque.py:130-145 | the remainder is queued and registered; bid_max becomes max(bid_max, price) |
| LegacyArrayBook.ArrayDequeLimitOrderBook.RestSell | limit_order_book/array_deque.py:198-213 | the remainder is queued and registered; ask_min becomes min(ask_min, price) |
| LegacyArrayBook.ArrayDequeLimitOrderBook.Add | limit_order_book/array_deque.py:57-213 | None exactly when fully filled; otherwise a new order with the freshly drawn id and only the unmatched quantity, already queued last and registered; the book stays valid; a sell's completing trade logs the quantity sold, the corrected rule, where as written it logs the bid's leftover (second row of Findings) |
| LegacyArrayBook.ArrayDequeLimitOrderBook.AddBuy | limit_order_book/array_deque.py:80-145 | trades, deques and orders are the reference sweep's; None exactly when filled; otherwise the new order with the unmatched quantity rests last on the swept deques and bid_max becomes max(bid_max, price) |
| LegacyArrayBook.ArrayDequeLimitOrderBook.AddSell | limit_order_book/array_deque.py:147-213 | the mirror image for a sell at the resting prices, with the corrected final fill logging exactly the quantity sold; ask_min becomes min(ask_min, price); a sell's completing trade logs the quantity sold, the corrected rule, where as written it logs the bid's leftover (second row of Findings) |
| LegacyArrayBook.ArrayDequeLimitOrderBook.Cancel | limit_order_book/array_deque.py:215-231 | success iff the id is known and queued; it then leaves its level and `orders`; failures change nothing |
| LegacyArrayBook.ArrayDequeLimitOrderBook.AddOrderToQueue | limit_order_book/array_deque.py:53-55 | registers the order and appends it at its price; nothing else changes |
| LegacyTreeBook.BalancedTreeDequeLimitOrderBook.constructor | limit_order_book/balanced_tree.py:22-26 | empty orders and trees, an empty log |
| LegacyTreeBook.BalancedTreeDequeLimitOrderBook.BestBid | limit_order_book/balanced_tree.py:195-207 | 0 for an empty bid tree, else its largest key, which is below every ask key |
| LegacyTreeBook.BalancedTreeDequeLimitOrderBook.BestAsk | limit_order_book/balanced_tree.py:209-221 | max_price + 1 for an empty ask tree, else its smallest key, which is above every bid key |
| LegacyTreeBook.BalancedTreeDequeLimitOrderBook.MatchBestAsk | limit_order_book/balanced_tree.py:60-104 | the outcome is `MatchLevelSpec` of the best ask level's queue, and one step of the reference sweep: the ask tree becomes `AfterRound` of the old one, so an exhausted key is removed; bids are unchanged; when the level was exhausted and asks remain the best ask strictly rises |
| LegacyTreeBook.BalancedTreeDequeLimitOrderBook.MatchBestBid | limit_order_book/balanced_tree.py:121-165 | the mirror image on the bids |
| LegacyTreeBook.BalancedTreeDequeLimitOrderBook.SweepAsks | limit_order_book/balanced_tree.py:54-104 | the buy half of `add` is the reference sweep of the ask tree; it matches only while asks exist and its price >= best ask; exactly the lowest ask keys within its limit were removed; quantity is conserved |
| LegacyTreeBook.BalancedTreeDequeLimitOrderBook.SweepBids | limit_order_book/balanced_tree.py:115-165 | the mirror image for a sell |
| LegacyTreeBook.BalancedTreeDequeLimitOrderBook.RestBuy | limit_order_book/balanced_tree.py:106-108 | the remainder is inserted or appended in the bid tree and registered; bids stay below asks |
| LegacyTreeBook.BalancedTreeDequeLimitOrderBook.RestSell | limit_order_book/balanced_tree.py:167-169 | the same on the ask tree |
| LegacyTreeBook.BalancedTreeDequeLimitOrderBook.Add | limit_order_book/balanced_tree.py:43-172 | after every add each bid key is below each ask key; trades are within the limit and conserve quantity; the remainder is last in its level |
| LegacyTreeBook.BalancedTreeDequeLimitOrderBook.AddBuy | limit_order_book/balanced_tree.py:52-111 | trades, ask tree and orders are the reference sweep's; only the lowest ask keys within its limit are gone, and every other ask level is unchanged; unless filled it rests last at its price, below every ask key |
| LegacyTreeBook.BalancedTreeDequeLimitOrderBook.AddSell | limit_order_book/balanced_tree.py:113-172 | the mirror image for a sell |
| LegacyTreeBook.BalancedTreeDequeLimitOrderBook.Cancel | limit_order_book/balanced_tree.py:174-193 | looks in the tree of the order's direction; unknown id, missing level and an order no longer queued are distinct errors; the emptied level stays |
| LegacyTreeBook.BalancedTreeDequeLimitOrderBook.AddOrderToQueue | limit_order_book/balanced_tree.py:28-41 | registers the order and inserts or appends it in its own side's tree only |

## Left out

- Rendering and data frames are not modelled:
  - `__rich__`, `__repr__`, `get_top_bids_as_dataframe` and `get_top_asks_as_dataframe`, because they produce terminal and pandas output;
  - `get_latest_matches` builds a DataFrame, which is replaced by the list it is built from (`BaseBook.LatestMatches`);
  - `limit_order_book/rich.py`, `limit_order_book/base/rich.py` and `limit_order_book/datasets/base.py` (parquet input) are not part of this model.
- `limit_order_book/limit_order_book.py` is not part of this model. `array_deque.py` imports its `BaseLimitOrderBook` from there; the model uses `BaseBook` in its place.
- Random ids:
  - UUID generation becomes a parameter: the fresh value in `Orders.NewLimitOrder`, and the `uuid` argument of `LegacyArrayBook.ArrayDequeLimitOrderBook.Add`;
  - the random id of every `MatchedOrder` the books log is dropped, so the log holds `Trade` values.
- AVL balancing in `bintrees.FastAVLTree` is not modelled; each tree is an ordered `map<int, PriceDeque>`.
- The caller's `LimitOrder` object is mutated by `add` in place (`limit_order.quantity -= …`). The model returns the final quantity as the `quantity` result, and stores the resting order with that quantity.
- DequeArrayBook.ArrayDequeLimitOrderBook.Add: requires `1 <= price < max_price` and an unused id.
  - Prices 0 and max_price are the cursors' empty sentinels, and a price outside the array raises IndexError in Python.
  - An id already in `orders` would be overwritten in the dictionary while its old copy stayed queued.
- DequeTreeBook.BalancedTreeDequeLimitOrderBook.Add: requires `1 <= price < max_price` and an unused id. A price at or beyond max_price would collide with the empty-ask sentinel, and a price of 0 with the empty-bid one.
- DequeTreeBook.BalancedTreeDequeLimitOrderBook.GetNextLevel: requires that Python's tree calls succeed (no `succ_item` of the largest key, and no lookup of a missing key). The same holds for `GetPrevLevel`, `UpdateBestAskPrice` and `UpdateBestBidPrice`.
- HashBook.HashDequeLimitOrderBook.Add: requires an unused id.
- LegacyTreeBook.BalancedTreeDequeLimitOrderBook.Add: requires an unused id.
- LegacyArrayBook.ArrayDequeLimitOrderBook.Add: requires `0 <= price < max_price` and a fresh UUID.
  - A negative price would silently index from the end of the Python list, and a larger one raises IndexError.
  - A repeated UUID has probability about 2^-122.
- LegacyArrayBook.ArrayDequeLimitOrderBook.MatchBidMax: logs the filled quantity on a sell's completing fill. That is the corrected behaviour from the second row of Findings; the as-written quantity is exhibited by `Matching.LegacySellFinalFillMisreports`.
- LegacyArrayBook.ArrayDequeLimitOrderBook.MatchAt: requires `rules.finalQuantity == FilledQuantity`, so the as-written sell rules (`Matching.LegacySellRulesAsWritten`, which log the bid's leftover after the decrement at `array_deque.py:177`) are not run through the book. Its conservation clauses are false under those rules (second row of Findings); the as-written level outcome is stated by `Matching.MatchLevelSpec` with those rules and exhibited by `Matching.LegacySellFinalFillMisreports`.
- LegacyArrayBook.ArrayDequeLimitOrderBook.MatchBids: the completing sell trade logs the quantity sold, where `array_deque.py:182-189` logs the bid's leftover (second row of Findings).
- LegacyArrayBook.ArrayDequeLimitOrderBook.SweepBids: its trades and its conservation clause are those of the corrected sell rules; as written, the completing trade logs the bid's leftover and the logged total need not equal the quantity sold (second row of Findings).
- LegacyArrayBook.ArrayDequeLimitOrderBook.AddSell: logs the corrected final fill; as written, the completing trade carries the bid's leftover quantity (second row of Findings).
- LegacyArrayBook.ArrayDequeLimitOrderBook.Add: for a sell, its trades and its conservation clause are those of the corrected sell rules, not the leftover logged by `array_deque.py:182-189` (second row of Findings).
- DequeArrayBook.ArrayDequeLimitOrderBook.Add: moves the best ask upward through `UpdateBestAskPrice`. That is the corrected behaviour from the first row of Findings. The as-written downward update is kept as `UpdateBestAskPriceAsWritten`, and `AskAsWrittenCrossesBook` shows where it leads.
- DequeArrayBook.ArrayDequeLimitOrderBook.UpdateBestAskPrice: corrected; as written the best ask falls to the nearest non-empty level below an empty start (`array_deque.py:115-120`, first row of Findings). The as-written search is `UpdateBestAskPriceAsWritten`.
- DequeArrayBook.ArrayDequeLimitOrderBook.MatchBestAsk: corrected; as written the best ask falls after every exhausted level (`base_deque_limit_order_book.py:124`), onto resting buys or below index 0, where this round moves it up to the next non-empty level (first row of Findings).
- DequeArrayBook.ArrayDequeLimitOrderBook.MatchAsks: corrected; as written the buy loop follows the falling best ask after each exhausted level, so it is not the upward sweep this loop is proved equal to (first row of Findings).
- DequeArrayBook.ArrayDequeLimitOrderBook.SweepAsks: corrected; its trades, levels and best ask are those of the upward sweep, while as written the buy descends after the first exhausted level (first row of Findings).
- DequeArrayBook.ArrayDequeLimitOrderBook.RestSell: corrected; as written, a sell resting at or above an empty best-ask level moves the best ask below it (`base_deque_limit_order_book.py:192`, first row of Findings).
- DequeArrayBook.ArrayDequeLimitOrderBook.AddBuy: corrected; its trades and best ask are those of the upward sweep, while as written the buy falls onto lower levels after exhausting one (first row of Findings).
- DequeArrayBook.ArrayDequeLimitOrderBook.AddSell: corrected; the best ask becomes `AskCorrected` from the price, while as written it can fall to a lower level (first row of Findings).
- Order ids are strings (`type Id = string`). `base/order.py` also accepts integer ids, and Python keeps `1` and `"1"` as distinct dictionary keys; a model of mixed ids would need a sum type for the key, which would change nothing in the books' logic.
- Integers are unbounded in Python, as they are in Dafny. Zero or negative quantities are not excluded by the source and are not excluded by the model.

## Findings

| source | as written | input that shows it | evidently intended | confidence | as-written member | corrected member |
|---|---|---|---|---|---|---|
| limit_order_book/deque_lob/array_deque.py:120 | when the reference ask level is empty, `_update_best_ask_price` moves the best ask to the nearest non-empty level BELOW it (`_get_prev_level`); this runs after every exhausted ask level of a buy (`base_deque_limit_order_book.py:124`), not only when a sell rests (`:192`), so a buy that exhausts the best ask goes on matching against lower levels, including resting buys | levels 0..3, one resting buy at 1, bid_max 1, ask_min 2 with level 2 emptied: ask_min becomes 1, the level of the resting buy, so the best ask is not above the best bid | move to the nearest non-empty level above (or max_price), as the tree version's best ask does | not executed | DequeArrayBook.AskAsWrittenCrossesBook | DequeArrayBook.AskCorrectedKeepsLevelsValid |
| limit_order_book/array_deque.py:175-189 | on a sell's completing fill, the logged quantity is the resting bid's quantity after it was reduced, not the amount traded | one bid of 10 at 5; a sell of 3 at 5 logs a trade of 7 and leaves the bid with 7 | log the remaining sell quantity (3), so that logged trades add up to the quantity sold | not executed | Matching.LegacySellFinalFillMisreports | LegacyArrayBook.ArrayDequeLimitOrderBook.Add |
