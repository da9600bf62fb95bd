/** Per-claim scans behind the order markers drawn over the field.

    For each claim with a known location, the highest buy threshold and the
    lowest sell threshold among that claim's own orders are found by a linear
    scan. A claim whose highest buy threshold is 0 (no buy order, or none with
    a positive price) gets no markers at all, not even a sell marker.
 */
module Claims {
  import opened Binning
  import opened Bounds

  /** The orders placed at one claim, in their original order. */
  function OrdersOf(orders: seq<Order>, claim: ClaimId): (r: seq<Order>)
    ensures |r| <= |orders|
    ensures forall o :: o in r <==> o in orders && o.claim == claim
  {
    if orders == [] then []
    else
      var rest := OrdersOf(orders[1..], claim);
      assert forall o :: o in orders <==> o == orders[0] || o in orders[1..];
      if orders[0].claim == claim then [orders[0]] + rest else rest
  }

  /** The filter keeps every copy of each of the claim's orders and nothing
      else: counted with multiplicity, it is the claim's part of the input. */
  lemma {:induction false} OrdersOfCounts(orders: seq<Order>, claim: ClaimId, o: Order)
    ensures multiset(OrdersOf(orders, claim))[o] == if o.claim == claim then multiset(orders)[o] else 0
  {
    if orders != [] {
      OrdersOfCounts(orders[1..], claim, o);
      assert orders == [orders[0]] + orders[1..];
    }
  }

  /** m is the larger of 0 and every buy threshold of the claim. */
  ghost predicate IsMaxBuy(m: int, orders: seq<Order>, claim: ClaimId)
  {
    && m >= 0
    && (forall o :: o in orders && o.claim == claim ==> o.price <= m)
    && (m == 0 || exists o :: o in orders && o.claim == claim && o.price == m)
  }

  /** m is the smaller of +infinity and every sell threshold of the claim. */
  ghost predicate IsMinSell(m: Ceiling, orders: seq<Order>, claim: ClaimId)
  {
    && (forall o :: o in orders && o.claim == claim ==> NoHigher(m, Finite(o.price as real)))
    && (m == Inf || exists o :: o in orders && o.claim == claim && m == Finite(o.price as real))
  }

  method ClaimMaxBuy(buyOrders: seq<Order>, claim: ClaimId) returns (m: int)
    ensures IsMaxBuy(m, buyOrders, claim)
  {
    var buys := OrdersOf(buyOrders, claim);
    m := 0;
    for k := 0 to |buys|
      invariant m >= 0
      invariant forall o :: o in buys[..k] ==> o.price <= m
      invariant m == 0 || exists o :: o in buys[..k] && o.price == m
    {
      if buys[k].price > m {
        m := buys[k].price;
      }
    }
    assert buys[..|buys|] == buys;
  }

  method ClaimMinSell(sellOrders: seq<Order>, claim: ClaimId) returns (m: Ceiling)
    ensures IsMinSell(m, sellOrders, claim)
  {
    var sells := OrdersOf(sellOrders, claim);
    m := Inf;
    for k := 0 to |sells|
      invariant forall o :: o in sells[..k] ==> NoHigher(m, Finite(o.price as real))
      invariant m == Inf || exists o :: o in sells[..k] && m == Finite(o.price as real)
    {
      if m.Inf? || (sells[k].price as real) < m.v {
        m := Finite(sells[k].price as real);
      }
    }
    assert sells[..|sells|] == sells;
  }

  /** The two markers drawn at a claim: its best buy and its best sell. */
  datatype Marker = Marker(buy: int, sell: Ceiling)

  method ClaimMarkers(buyOrders: seq<Order>, sellOrders: seq<Order>, claim: ClaimId) returns (r: Option<Marker>)
    ensures r.None? <==> forall o :: o in buyOrders && o.claim == claim ==> o.price <= 0
    ensures r.Some? ==> r.value.buy > 0 && IsMaxBuy(r.value.buy, buyOrders, claim)
    ensures r.Some? ==> IsMinSell(r.value.sell, sellOrders, claim)
  {
    var b := ClaimMaxBuy(buyOrders, claim);
    if b == 0 {
      return None;
    }
    var s := ClaimMinSell(sellOrders, claim);
    r := Some(Marker(b, s));
  }

  /** If every order of the claim resolved to the same in-map location, the
      claim's buy marker is at most the accumulated buy bound of that cell,
      as it stands before reconciliation. */
  lemma MarkerBelowCellBound(orders: seq<Order>, claim: ClaimId, loc: Location, res: nat, m: int)
    requires IsMaxBuy(m, orders, claim)
    requires CellOf(loc, res).Some?
    requires forall o :: o in orders && o.claim == claim ==> o.at == Some(loc)
    ensures var c := CellOf(loc, res).value; m as real <= BuyBound(0.0, orders, res, c.i, c.j)
  {
    var c := CellOf(loc, res).value;
    if m != 0 {
      var o :| o in orders && o.claim == claim && o.price == m;
      assert InCell(o, res, c.i, c.j);
    }
  }

  /** A failed lookup is not remembered, so a claim whose first order could not
      be located still enters the marker scan once a later order resolves it:
      the skipped order's price then shows in the marker but not in the grid. */
  lemma SkippedOrderStillMarked()
    ensures var orders := [Order("A", 100, None), Order("A", 50, Some(Location(0, 0)))];
      IsMaxBuy(100, orders, "A") && BuyBound(0.0, orders, 10, 0, 0) == 50.0
  {
    var orders := [Order("A", 100, None), Order("A", 50, Some(Location(0, 0)))];
    assert orders[0] in orders;
    assert orders[..1] == [orders[0]];
    assert CellOf(Location(0, 0), 10) == Some(Cell(0, 0));
  }
}
