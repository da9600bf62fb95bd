/** Per-cell price bounds.

    Every cell keeps a buy bound (the highest buy threshold seen there, 0 when
    there is none) and a sell bound (the lowest sell threshold, +infinity when
    there is none). The functions here are the specification of one cell; the
    grids in module Solver hold one value of each per cell.
 */
module Bounds {
  import opened Binning

  type ClaimId = string

  /** One market order, with the outcome of resolving its claim's location:
      None when the location query failed and the order is skipped. */
  datatype Order = Order(claim: ClaimId, price: int, at: Option<Location>)

  /** A sell bound: a finite price or the +infinity of an empty cell. */
  datatype Ceiling = Finite(v: real) | Inf

  /** x <= c, with +infinity above every real. */
  predicate AtMost(x: real, c: Ceiling)
  {
    c.Inf? || x <= c.v
  }

  /** a <= b on ceilings. */
  predicate NoHigher(a: Ceiling, b: Ceiling)
  {
    b.Inf? || (a.Finite? && a.v <= b.v)
  }

  /** The order is counted in cell (i, j) of a res x res grid. */
  predicate InCell(o: Order, res: nat, i: nat, j: nat)
  {
    o.at.Some? && CellOf(o.at.value, res) == Some(Cell(i, j))
  }

  // ---------------------------------------------------------------------
  // Buy bound: running maximum

  /** Effect of one buy order on the bound of cell (i, j). */
  function BuyStep(prev: real, o: Order, res: nat, i: nat, j: nat): (r: real)
    ensures r >= prev
    ensures r != prev ==> InCell(o, res, i, j) && r == o.price as real
    ensures InCell(o, res, i, j) ==> r >= o.price as real
  {
    if InCell(o, res, i, j) && prev < o.price as real then o.price as real else prev
  }

  /** Buy bound of cell (i, j) after the orders, in order, starting from init. */
  function BuyBound(init: real, orders: seq<Order>, res: nat, i: nat, j: nat): (r: real)
    ensures r >= init
    ensures forall o :: o in orders && InCell(o, res, i, j) ==> o.price as real <= r
    ensures r == init || exists o :: o in orders && InCell(o, res, i, j) && r == o.price as real
  {
    if orders == [] then init
    else
      var n := |orders| - 1;
      assert forall o :: o in orders ==> o in orders[..n] || o == orders[n];
      BuyStep(BuyBound(init, orders[..n], res, i, j), orders[n], res, i, j)
  }

  /** The buy bound does not depend on the order the orders are read in. */
  lemma BuyBoundPermutation(init: real, a: seq<Order>, b: seq<Order>, res: nat, i: nat, j: nat)
    requires multiset(a) == multiset(b)
    ensures BuyBound(init, a, res, i, j) == BuyBound(init, b, res, i, j)
  {
    var ra, rb := BuyBound(init, a, res, i, j), BuyBound(init, b, res, i, j);
    assert forall o :: o in a <==> o in b by {
      forall o ensures o in a <==> o in b {
        assert o in a <==> o in multiset(a);
        assert o in b <==> o in multiset(b);
      }
    }
  }

  /** An order changes the buy bound of its own cell only, never lowers it,
      and an order whose location is unknown changes nothing. */
  lemma BuyBoundAppend(init: real, orders: seq<Order>, o: Order, res: nat, i: nat, j: nat)
    ensures BuyBound(init, orders + [o], res, i, j) >= BuyBound(init, orders, res, i, j)
    ensures !InCell(o, res, i, j) ==> BuyBound(init, orders + [o], res, i, j) == BuyBound(init, orders, res, i, j)
    ensures o.at.None? ==> BuyBound(init, orders + [o], res, i, j) == BuyBound(init, orders, res, i, j)
  {
    assert (orders + [o])[..|orders|] == orders;
  }

  // ---------------------------------------------------------------------
  // Sell bound: running minimum

  /** Effect of one sell order on the bound of cell (i, j). */
  function SellStep(prev: Ceiling, o: Order, res: nat, i: nat, j: nat): (r: Ceiling)
    ensures NoHigher(r, prev)
    ensures r != prev ==> InCell(o, res, i, j) && r == Finite(o.price as real)
    ensures InCell(o, res, i, j) ==> NoHigher(r, Finite(o.price as real))
  {
    if InCell(o, res, i, j) && (prev.Inf? || prev.v > o.price as real)
    then Finite(o.price as real)
    else prev
  }

  /** Sell bound of cell (i, j) after the orders, in order, starting from init. */
  function SellBound(init: Ceiling, orders: seq<Order>, res: nat, i: nat, j: nat): (r: Ceiling)
    ensures NoHigher(r, init)
    ensures forall o :: o in orders && InCell(o, res, i, j) ==> NoHigher(r, Finite(o.price as real))
    ensures r == init || exists o :: o in orders && InCell(o, res, i, j) && r == Finite(o.price as real)
  {
    if orders == [] then init
    else
      var n := |orders| - 1;
      assert forall o :: o in orders ==> o in orders[..n] || o == orders[n];
      SellStep(SellBound(init, orders[..n], res, i, j), orders[n], res, i, j)
  }

  /** The sell bound does not depend on the order the orders are read in. */
  lemma SellBoundPermutation(init: Ceiling, a: seq<Order>, b: seq<Order>, res: nat, i: nat, j: nat)
    requires multiset(a) == multiset(b)
    ensures SellBound(init, a, res, i, j) == SellBound(init, b, res, i, j)
  {
    var ra, rb := SellBound(init, a, res, i, j), SellBound(init, b, res, i, j);
    assert forall o :: o in a <==> o in b by {
      forall o ensures o in a <==> o in b {
        assert o in a <==> o in multiset(a);
        assert o in b <==> o in multiset(b);
      }
    }
  }

  /** An order changes the sell bound of its own cell only, never raises it,
      and an order whose location is unknown changes nothing. */
  lemma SellBoundAppend(init: Ceiling, orders: seq<Order>, o: Order, res: nat, i: nat, j: nat)
    ensures NoHigher(SellBound(init, orders + [o], res, i, j), SellBound(init, orders, res, i, j))
    ensures !InCell(o, res, i, j) ==> SellBound(init, orders + [o], res, i, j) == SellBound(init, orders, res, i, j)
    ensures o.at.None? ==> SellBound(init, orders + [o], res, i, j) == SellBound(init, orders, res, i, j)
  {
    assert (orders + [o])[..|orders|] == orders;
  }

  // ---------------------------------------------------------------------
  // Reconciliation and clamping of one cell

  /** The window [buy, sell] a cell's price must stay in. */
  datatype Window = Window(buy: real, sell: Ceiling)

  predicate Feasible(w: Window)
  {
    AtMost(w.buy, w.sell)
  }

  /** A crossed window (buy above sell) collapses to its midpoint. */
  function Reconcile(w: Window): (r: Window)
    ensures Feasible(r)
    ensures Feasible(w) ==> r == w
    ensures !Feasible(w) ==> r.sell == Finite(r.buy) && w.sell.Finite? && w.sell.v < r.buy < w.buy
  {
    if w.sell.Finite? && w.buy > w.sell.v then
      var median := (w.buy + w.sell.v) / 2.0;
      Window(median, Finite(median))
    else w
  }

  /** Reconciling twice is reconciling once. */
  lemma ReconcileIdempotent(w: Window)
    ensures Reconcile(Reconcile(w)) == Reconcile(w)
  {
  }

  /** A crossed window becomes the single point halfway between its bounds. */
  lemma ReconcileMidpoint(w: Window)
    requires !Feasible(w)
    ensures Reconcile(w).buy == Reconcile(w).sell.v == (w.buy + w.sell.v) / 2.0
  {
  }

  /** np.minimum(np.maximum(p, buy), sell). */
  function Clamp(p: real, w: Window): (r: real)
    ensures AtMost(r, w.sell)
    ensures Feasible(w) ==> w.buy <= r
    ensures w.buy <= p && AtMost(p, w.sell) ==> r == p
  {
    var up := if p < w.buy then w.buy else p;
    if w.sell.Finite? && up > w.sell.v then w.sell.v else up
  }

  /** In a feasible window the clamp is the nearest admissible price. */
  lemma ClampNearest(p: real, w: Window, q: real)
    requires Feasible(w) && w.buy <= q && AtMost(q, w.sell)
    ensures Dist(Clamp(p, w), p) <= Dist(q, p)
  {
  }

  function Dist(a: real, b: real): real
  {
    if a >= b then a - b else b - a
  }

  /** Clamping an already clamped price changes nothing. */
  lemma ClampIdempotent(p: real, w: Window)
    ensures Clamp(Clamp(p, w), w) == Clamp(p, w)
  {
  }
}
