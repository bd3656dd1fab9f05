/** The older order records of `limit_order_book/order.py`, used by the
    stand-alone array book. Each record carries a UUID `_id` drawn for it, and
    its `id` is the 32-digit lower-case hex form of that UUID. The record
    fields and the direction are those of module Orders. */
module LegacyOrders {
  import opened Orders

  function Pow16(n: nat): (r: nat)
    ensures r >= 1
  {
    if n == 0 then 1 else 16 * Pow16(n - 1)
  }

  /** The number of distinct UUIDs (2^128). */
  const UuidCount: nat := Pow16(32)

  predicate IsUuid(u: nat)
  {
    u < UuidCount
  }

  /** A lower-case hexadecimal digit. */
  function HexDigit(d: nat): char
    requires d < 16
  {
    if d < 10 then ('0' as int + d) as char else ('a' as int + d - 10) as char
  }

  /** The `n` low hexadecimal digits of `u`, most significant first. */
  function Hex(u: nat, n: nat): (s: string)
    ensures |s| == n
  {
    if n == 0 then [] else Hex(u / 16, n - 1) + [HexDigit(u % 16)]
  }

  /** `UUID.hex`. */
  function UuidHex(u: nat): string
    requires IsUuid(u)
  {
    Hex(u, 32)
  }

  lemma DivBound(u: nat, n: nat)
    requires n > 0 && u < Pow16(n)
    ensures u / 16 < Pow16(n - 1)
  {
    assert u == 16 * (u / 16) + u % 16;
  }

  /** Distinct numbers below 16^n have distinct n-digit hex forms. */
  lemma {:induction false} HexInjective(u: nat, v: nat, n: nat)
    requires u < Pow16(n) && v < Pow16(n)
    requires Hex(u, n) == Hex(v, n)
    ensures u == v
  {
    if n > 0 {
      assert Hex(u, n)[n - 1] == HexDigit(u % 16);
      assert Hex(v, n)[n - 1] == HexDigit(v % 16);
      assert u % 16 == v % 16;
      assert Hex(u / 16, n - 1) == Hex(u, n)[..n - 1];
      assert Hex(v / 16, n - 1) == Hex(v, n)[..n - 1];
      DivBound(u, n);
      DivBound(v, n);
      HexInjective(u / 16, v / 16, n - 1);
      assert u == 16 * (u / 16) + u % 16;
      assert v == 16 * (v / 16) + v % 16;
    }
  }

  /** Every identifier is 32 hex digits, and distinct UUIDs give distinct
      identifiers, so comparing `id`s compares the UUIDs. */
  lemma UuidHexIsFaithful(u: nat, v: nat)
    requires IsUuid(u) && IsUuid(v)
    ensures |UuidHex(u)| == 32
    ensures forall i | 0 <= i < 32 :: UuidHex(u)[i] in "0123456789abcdef"
    ensures UuidHex(u) == UuidHex(v) <==> u == v
  {
    HexDigitsOnly(u, 32);
    if UuidHex(u) == UuidHex(v) {
      HexInjective(u, v, 32);
    }
  }

  lemma {:induction false} HexDigitsOnly(u: nat, n: nat)
    ensures forall i | 0 <= i < n :: Hex(u, n)[i] in "0123456789abcdef"
  {
    if n > 0 {
      HexDigitsOnly(u / 16, n - 1);
      var d := u % 16;
      assert HexDigit(d) in "0123456789abcdef" by {
        assert "0123456789abcdef"[d] == HexDigit(d);
      }
    }
  }

  /** A `LimitOrder` built with UUID `u`: its `id` is `u`'s hex form. */
  function NewLimitOrder(
    traderId: TraderId, price: int, quantity: int, direction: Direction, u: nat): LimitOrder
    requires IsUuid(u)
  {
    LimitOrder(traderId, price, quantity, direction, UuidHex(u))
  }

  /** A `MatchedOrder` built with UUID `u`. */
  function NewMatchedOrder(
    buyTraderId: TraderId, sellTraderId: TraderId, price: int, quantity: int, u: nat): MatchedOrder
    requires IsUuid(u)
  {
    MatchedOrder(buyTraderId, sellTraderId, price, quantity, UuidHex(u))
  }

  /** `__eq__` compares `id`s, which is the same as comparing the UUIDs drawn
      for the two orders, whatever their other fields: this is what lets
      `deque.remove` in `cancel` find the order the book holds. */
  lemma EqualityIsUuidEquality(a: LimitOrder, b: LimitOrder, u: nat, v: nat)
    requires IsUuid(u) && IsUuid(v)
    ensures
      (SameOrder(NewLimitOrder(a.traderId, a.price, a.quantity, a.direction, u),
                 NewLimitOrder(b.traderId, b.price, b.quantity, b.direction, v)))
      <==> u == v
  {
    UuidHexIsFaithful(u, v);
  }

  /** The same for matched orders. */
  lemma MatchEqualityIsUuidEquality(a: MatchedOrder, b: MatchedOrder, u: nat, v: nat)
    requires IsUuid(u) && IsUuid(v)
    ensures
      (SameMatch(NewMatchedOrder(a.buyTraderId, a.sellTraderId, a.price, a.quantity, u),
                 NewMatchedOrder(b.buyTraderId, b.sellTraderId, b.price, b.quantity, v)))
      <==> u == v
  {
    UuidHexIsFaithful(u, v);
  }

  /** The older `MatchedOrder.as_dict`, whose keys are lower-case; the
      older `LimitOrder.as_dict` has the same keys as `Orders.LimitOrderAsDict`. */
  function MatchedOrderAsDict(m: MatchedOrder): Dict
  {
    [("id", Text(m.id)), ("buy_trader_id", Number(m.buyTraderId)),
     ("sell_trader_id", Number(m.sellTraderId)), ("quantity", Number(m.quantity)),
     ("price", Number(m.price))]
  }

  /** The older view has exactly the keys id, buy_trader_id, sell_trader_id,
      quantity and price, and it determines the whole record. */
  lemma MatchedOrderAsDictMirrorsFields(a: MatchedOrder, b: MatchedOrder)
    ensures Keys(MatchedOrderAsDict(a)) == ["id", "buy_trader_id", "sell_trader_id", "quantity", "price"]
    ensures MatchedOrderAsDict(a) == MatchedOrderAsDict(b) <==> a == b
  {
  }
}
