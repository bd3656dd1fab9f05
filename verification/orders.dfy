/** The order records of `limit_order_book/base/order.py`: a direction, a
    limit order and a matched order, each with an identifier that defaults to
    a fresh one when none is supplied, equality by identifier only, and the
    `as_dict` view. */
module Orders {
  import opened Wrappers

  /** Identifiers are modelled as strings (the hex form of a UUID, or a
      caller-supplied value). */
  type Id = string

  type TraderId = int

  /** The side of an order. */
  datatype Direction = Buy | Sell

  /** A limit order. `quantity` is the one field the book changes in place. */
  datatype LimitOrder = LimitOrder(
    traderId: TraderId,
    price: int,
    quantity: int,
    direction: Direction,
    id: Id)

  /** A matched order: a trade between a buying and a selling trader. */
  datatype MatchedOrder = MatchedOrder(
    buyTraderId: TraderId,
    sellTraderId: TraderId,
    price: int,
    quantity: int,
    id: Id)

  /** The data of a matched order without its identifier; this is what the
      book's match log keeps (see README). */
  datatype Trade = Trade(
    buyTraderId: TraderId,
    sellTraderId: TraderId,
    price: int,
    quantity: int)

  /** A value in an `as_dict` mapping. */
  datatype Value = Text(text: string) | Number(number: int)

  /** An `as_dict` mapping, as its (key, value) pairs in insertion order. */
  type Dict = seq<(string, Value)>

  function Keys(d: Dict): seq<string>
  {
    seq(|d|, i requires 0 <= i < |d| => d[i].0)
  }

  /** `__post_init__`: a supplied identifier is kept, a missing one is
      replaced by `generated` (the model's stand-in for `uuid.uuid4().hex`). */
  function ResolveId(id: Option<Id>, generated: Id): Id
  {
    match id
    case Some(given) => given
    case None => generated
  }

  function NewLimitOrder(
    traderId: TraderId, price: int, quantity: int, direction: Direction,
    id: Option<Id>, generated: Id): LimitOrder
  {
    LimitOrder(traderId, price, quantity, direction, ResolveId(id, generated))
  }

  function NewMatchedOrder(
    buyTraderId: TraderId, sellTraderId: TraderId, price: int, quantity: int,
    id: Option<Id>, generated: Id): MatchedOrder
  {
    MatchedOrder(buyTraderId, sellTraderId, price, quantity, ResolveId(id, generated))
  }

  /** A supplied identifier does not depend on the generated value that would
      have replaced it, and two orders built without an identifier from
      distinct fresh values are distinct. */
  lemma IdDefaulting(
    traderId: TraderId, price: int, quantity: int, direction: Direction,
    id: Option<Id>, generated1: Id, generated2: Id)
    ensures id.Some? ==>
      NewLimitOrder(traderId, price, quantity, direction, id, generated1).id == id.value
      && NewLimitOrder(traderId, price, quantity, direction, id, generated1)
         == NewLimitOrder(traderId, price, quantity, direction, id, generated2)
    ensures id.None? && generated1 != generated2 ==>
      !SameOrder(NewLimitOrder(traderId, price, quantity, direction, id, generated1),
                 NewLimitOrder(traderId, price, quantity, direction, id, generated2))
  {
  }

  /** The same for matched orders. */
  lemma MatchIdDefaulting(
    buyTraderId: TraderId, sellTraderId: TraderId, price: int, quantity: int,
    id: Option<Id>, generated1: Id, generated2: Id)
    ensures id.Some? ==>
      NewMatchedOrder(buyTraderId, sellTraderId, price, quantity, id, generated1).id == id.value
    ensures id.None? && generated1 != generated2 ==>
      !SameMatch(NewMatchedOrder(buyTraderId, sellTraderId, price, quantity, id, generated1),
                 NewMatchedOrder(buyTraderId, sellTraderId, price, quantity, id, generated2))
  {
  }

  /** `LimitOrder.__eq__`: two orders are equal when their identifiers are. */
  predicate SameOrder(a: LimitOrder, b: LimitOrder)
  {
    a.id == b.id
  }

  /** `MatchedOrder.__eq__`. */
  predicate SameMatch(a: MatchedOrder, b: MatchedOrder)
  {
    a.id == b.id
  }

  /** Equality by identifier ignores every other field, in particular the
      quantity that fills change, and it is an equivalence. */
  lemma SameOrderIgnoresFields(a: LimitOrder, b: LimitOrder, c: LimitOrder, quantity: int)
    ensures SameOrder(a, a.(quantity := quantity))
    ensures SameOrder(a, b) <==> a.id == b.id
    ensures SameOrder(a, b) && SameOrder(b, c) ==> SameOrder(a, c)
    ensures a.id == b.id && a.quantity != b.quantity ==> SameOrder(a, b) && a != b
  {
  }

  /** The same for matched orders. */
  lemma SameMatchIgnoresFields(a: MatchedOrder, b: MatchedOrder)
    ensures SameMatch(a, b) <==> a.id == b.id
    ensures a.id == b.id && a.price != b.price ==> SameMatch(a, b) && a != b
  {
  }

  /** `LimitOrder.as_dict`. */
  function LimitOrderAsDict(o: LimitOrder): Dict
  {
    [("id", Text(o.id)), ("trader_id", Number(o.traderId)),
     ("quantity", Number(o.quantity)), ("price", Number(o.price))]
  }

  /** `MatchedOrder.as_dict`. */
  function MatchedOrderAsDict(m: MatchedOrder): Dict
  {
    [("Id", Text(m.id)), ("BuyTraderId", Number(m.buyTraderId)),
     ("SellTraderId", Number(m.sellTraderId)), ("Quantity", Number(m.quantity)),
     ("Price", Number(m.price))]
  }

  /** The view has exactly the keys id, trader_id, quantity and price, and it
      determines exactly those fields: two orders have the same view if and
      only if they agree on them (the direction is not part of it). */
  lemma LimitOrderAsDictMirrorsFields(a: LimitOrder, b: LimitOrder)
    ensures Keys(LimitOrderAsDict(a)) == ["id", "trader_id", "quantity", "price"]
    ensures LimitOrderAsDict(a) == LimitOrderAsDict(b) <==>
      a.id == b.id && a.traderId == b.traderId && a.quantity == b.quantity && a.price == b.price
  {
  }

  /** The matched-order view has exactly the keys Id, BuyTraderId,
      SellTraderId, Quantity and Price, and it determines the whole record. */
  lemma MatchedOrderAsDictMirrorsFields(a: MatchedOrder, b: MatchedOrder)
    ensures Keys(MatchedOrderAsDict(a)) == ["Id", "BuyTraderId", "SellTraderId", "Quantity", "Price"]
    ensures MatchedOrderAsDict(a) == MatchedOrderAsDict(b) <==> a == b
  {
  }
}
