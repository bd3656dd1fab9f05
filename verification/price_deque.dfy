/** `PriceDeque` of `limit_order_book/base/price_deque.py`: the FIFO queue of
    resting orders at one price, with its `as_dict` summary. The queue holds
    order identifiers; the order records themselves live once, in the book's
    `orders` map, so that a fill that lowers a resting order's quantity is seen
    both through the queue and through the map, as with the shared Python
    objects. */
module PriceDeques {
  import opened Orders

  /** Every identifier queued in `ids` has its record in `orders`. */
  predicate Registered(ids: seq<Id>, orders: map<Id, LimitOrder>)
  {
    forall i | 0 <= i < |ids| :: ids[i] in orders
  }

  /** The summed quantity of the queued orders, front to back. */
  function Quantity(ids: seq<Id>, orders: map<Id, LimitOrder>): int
    requires Registered(ids, orders)
  {
    if ids == [] then 0 else orders[ids[0]].quantity + Quantity(ids[1..], orders)
  }

  /** The position of the first queued identifier equal to `x`. */
  function IndexOf(ids: seq<Id>, x: Id): (i: nat)
    requires x in ids
    ensures i < |ids| && ids[i] == x && x !in ids[..i]
  {
    if ids[0] == x then 0 else 1 + IndexOf(ids[1..], x)
  }

  /** The dictionary `as_dict` returns: "Price", "Quantity", "NumOrders". */
  datatype LevelSummary = LevelSummary(price: int, quantity: int, numOrders: nat)

  datatype PriceDeque = PriceDeque(price: int, ids: seq<Id>)
  {
    /** `append`: at the tail. */
    function Append(id: Id): PriceDeque
    {
      this.(ids := ids + [id])
    }

    /** `popleft`: the front leaves. */
    function PopLeft(): PriceDeque
      requires ids != []
    {
      this.(ids := ids[1..])
    }

    /** `remove`: the first order equal (by identifier) to `id` leaves. */
    function Remove(id: Id): PriceDeque
      requires id in ids
    {
      var i := IndexOf(ids, id);
      this.(ids := ids[..i] + ids[i + 1..])
    }

    function AsDict(orders: map<Id, LimitOrder>): LevelSummary
      requires Registered(ids, orders)
    {
      LevelSummary(price, Quantity(ids, orders), |ids|)
    }
  }

  lemma {:induction false} QuantityConcat(a: seq<Id>, b: seq<Id>, orders: map<Id, LimitOrder>)
    requires Registered(a, orders) && Registered(b, orders)
    ensures Registered(a + b, orders)
    ensures Quantity(a + b, orders) == Quantity(a, orders) + Quantity(b, orders)
  {
    if a != [] {
      assert (a + b)[1..] == a[1..] + b;
      QuantityConcat(a[1..], b, orders);
    } else {
      assert a + b == b;
    }
  }

  /** A new level reports its own price, its orders' summed quantity and
      their number; the orders it is built from stay in the given order. */
  lemma NewLevelSummary(price: int, ids: seq<Id>, orders: map<Id, LimitOrder>)
    requires Registered(ids, orders)
    ensures PriceDeque(price, ids).ids == ids
    ensures PriceDeque(price, ids).AsDict(orders).price == price
    ensures PriceDeque(price, ids).AsDict(orders).numOrders == |ids|
    ensures ids == [] ==> PriceDeque(price, ids).AsDict(orders).quantity == 0
  {
  }

  /** Appending puts the order at the tail, keeps the price, and raises the
      reported quantity by the order's quantity and the count by one. */
  lemma AsDictAfterAppend(level: PriceDeque, id: Id, orders: map<Id, LimitOrder>)
    requires Registered(level.ids, orders) && id in orders
    ensures Registered(level.Append(id).ids, orders)
    ensures level.Append(id).ids[|level.ids|] == id
    ensures level.Append(id).ids[..|level.ids|] == level.ids
    ensures level.Append(id).AsDict(orders) ==
      LevelSummary(level.price, level.AsDict(orders).quantity + orders[id].quantity,
                   level.AsDict(orders).numOrders + 1)
  {
    assert Registered([id], orders);
    QuantityConcat(level.ids, [id], orders);
    assert Quantity([id], orders) == orders[id].quantity;
  }

  /** Popping takes the front order: the rest keep their order, and the
      reported quantity drops by the front order's quantity. */
  lemma AsDictAfterPopLeft(level: PriceDeque, orders: map<Id, LimitOrder>)
    requires Registered(level.ids, orders) && level.ids != []
    ensures Registered(level.PopLeft().ids, orders)
    ensures [level.ids[0]] + level.PopLeft().ids == level.ids
    ensures level.PopLeft().AsDict(orders) ==
      LevelSummary(level.price, level.AsDict(orders).quantity - orders[level.ids[0]].quantity,
                   level.AsDict(orders).numOrders - 1)
  {
  }

  /** Removing deletes the first order equal to `id` and no other: the
      orders before it and after it keep their relative order. */
  lemma RemoveDeletesFirstOccurrence(level: PriceDeque, id: Id)
    requires id in level.ids
    ensures var i := IndexOf(level.ids, id);
      && id !in level.ids[..i]
      && level.Remove(id).ids[..i] == level.ids[..i]
      && level.Remove(id).ids[i..] == level.ids[i + 1..]
    ensures multiset(level.Remove(id).ids) + multiset{id} == multiset(level.ids)
  {
    var front, back := RemoveParts(level, id);
  }

  /** Removing keeps the price and lowers the reported quantity by the
      removed order's quantity and the count by one. */
  lemma AsDictAfterRemove(level: PriceDeque, id: Id, orders: map<Id, LimitOrder>)
    requires Registered(level.ids, orders) && id in level.ids
    ensures Registered(level.Remove(id).ids, orders)
    ensures level.Remove(id).AsDict(orders) ==
      LevelSummary(level.price, level.AsDict(orders).quantity - orders[id].quantity,
                   level.AsDict(orders).numOrders - 1)
  {
    var front, back := RemoveParts(level, id);
    RegisteredSplit(front, id, back, orders);
    QuantitySplit(front, id, back, orders);
  }

  /** The queue around the first occurrence of `id`, before and after it
      leaves. */
  lemma RemoveParts(level: PriceDeque, id: Id) returns (front: seq<Id>, back: seq<Id>)
    requires id in level.ids
    ensures var i := IndexOf(level.ids, id);
      && front == level.ids[..i] && back == level.ids[i + 1..]
    ensures level.ids == front + ([id] + back)
    ensures level.Remove(id).ids == front + back
  {
    var i := IndexOf(level.ids, id);
    front, back := level.ids[..i], level.ids[i + 1..];
    assert level.ids == front + ([id] + back);
  }

  /** The parts of a registered queue on either side of one of its orders
      are registered. */
  lemma RegisteredSplit(front: seq<Id>, id: Id, back: seq<Id>, orders: map<Id, LimitOrder>)
    requires Registered(front + ([id] + back), orders)
    ensures Registered(front, orders) && Registered(back, orders) && id in orders
  {
    var ids := front + ([id] + back);
    assert ids[|front|] == id;
    forall k | 0 <= k < |front| ensures front[k] in orders {
      assert front[k] == ids[k];
    }
    forall k | 0 <= k < |back| ensures back[k] in orders {
      assert back[k] == ids[|front| + 1 + k];
    }
  }

  lemma QuantitySplit(front: seq<Id>, id: Id, back: seq<Id>, orders: map<Id, LimitOrder>)
    requires Registered(front, orders) && Registered(back, orders) && id in orders
    ensures Registered(front + back, orders) && Registered(front + ([id] + back), orders)
    ensures Quantity(front + ([id] + back), orders) == Quantity(front + back, orders) + orders[id].quantity
  {
    assert Registered([id], orders);
    QuantityConcat([id], back, orders);
    QuantityConcat(front, [id] + back, orders);
    QuantityConcat(front, back, orders);
  }
}
