/** The grids of the price-field computation and the in-place steps that fill,
    reconcile, seed and clamp them.

    maxBuy and minSell are the res x res bound grids; prices is the field the
    relaxation works on. The discrete Laplacian smoothing that the relaxation
    applies between clamps is not modelled: ClampToWindow accepts whatever
    values the smoothing left in prices.
 */
module Solver {
  import opened Binning
  import opened Bounds

  class PriceGrids {
    const res: nat
    const maxBuy: array2<real>
    const minSell: array2<Ceiling>
    const prices: array2<real>

    ghost predicate Valid()
    {
      && maxBuy.Length0 == res && maxBuy.Length1 == res
      && minSell.Length0 == res && minSell.Length1 == res
      && prices.Length0 == res && prices.Length1 == res
      && prices != maxBuy
    }

    /** The admissible window of cell (i, j). */
    function WindowAt(i: nat, j: nat): Window
      requires Valid() && i < res && j < res
      reads maxBuy, minSell
    {
      Window(maxBuy[i, j], minSell[i, j])
    }

    /** No cell has a buy bound above its sell bound. */
    ghost predicate Reconciled()
      requires Valid()
      reads maxBuy, minSell
    {
      forall i: nat, j: nat :: i < res && j < res ==> AtMost(maxBuy[i, j], minSell[i, j])
    }

    /** Every price lies inside its cell's window. */
    ghost predicate InWindow()
      requires Valid()
      reads maxBuy, minSell, prices
    {
      forall i: nat, j: nat :: i < res && j < res ==>
        maxBuy[i, j] <= prices[i, j] && AtMost(prices[i, j], minSell[i, j])
    }

    /** Fresh grids: buy bounds 0 and sell bounds +infinity everywhere. */
    constructor (res: nat)
      ensures Valid() && this.res == res
      ensures fresh(maxBuy) && fresh(minSell) && fresh(prices)
      ensures forall i: nat, j: nat :: i < res && j < res ==> maxBuy[i, j] == 0.0 && minSell[i, j] == Inf
    {
      this.res := res;
      maxBuy := new real[res, res]((i, j) => 0.0);
      minSell := new Ceiling[res, res]((i, j) => Inf);
      prices := new real[res, res]((i, j) => 0.0);
    }

    /** One buy order: raise its cell's bound to its threshold if that is higher. */
    method AddBuy(o: Order)
      requires Valid()
      modifies maxBuy
      ensures forall i: nat, j: nat :: i < res && j < res ==> maxBuy[i, j] == BuyStep(old(maxBuy[i, j]), o, res, i, j)
    {
      if o.at.Some? {
        var c := CellOf(o.at.value, res);
        if c.Some? {
          var i, j := c.value.i, c.value.j;
          if maxBuy[i, j] < o.price as real {
            maxBuy[i, j] := o.price as real;
          }
        }
      }
    }

    /** All buy orders, in the order given. */
    method AccumulateBuys(orders: seq<Order>)
      requires Valid()
      modifies maxBuy
      ensures forall i: nat, j: nat :: i < res && j < res ==> maxBuy[i, j] == BuyBound(old(maxBuy[i, j]), orders, res, i, j)
    {
      for k := 0 to |orders|
        invariant forall i: nat, j: nat :: i < res && j < res ==> maxBuy[i, j] == BuyBound(old(maxBuy[i, j]), orders[..k], res, i, j)
      {
        AddBuy(orders[k]);
        assert orders[..k + 1][..k] == orders[..k];
      }
      assert orders[..|orders|] == orders;
    }

    /** One sell order: lower its cell's bound to its threshold if that is lower. */
    method AddSell(o: Order)
      requires Valid()
      modifies minSell
      ensures forall i: nat, j: nat :: i < res && j < res ==> minSell[i, j] == SellStep(old(minSell[i, j]), o, res, i, j)
    {
      if o.at.Some? {
        var c := CellOf(o.at.value, res);
        if c.Some? {
          var i, j := c.value.i, c.value.j;
          var s := minSell[i, j];
          if s.Inf? || s.v > o.price as real {
            minSell[i, j] := Finite(o.price as real);
          }
        }
      }
    }

    /** All sell orders, in the order given. */
    method AccumulateSells(orders: seq<Order>)
      requires Valid()
      modifies minSell
      ensures forall i: nat, j: nat :: i < res && j < res ==> minSell[i, j] == SellBound(old(minSell[i, j]), orders, res, i, j)
    {
      for k := 0 to |orders|
        invariant forall i: nat, j: nat :: i < res && j < res ==> minSell[i, j] == SellBound(old(minSell[i, j]), orders[..k], res, i, j)
      {
        AddSell(orders[k]);
        assert orders[..k + 1][..k] == orders[..k];
      }
      assert orders[..|orders|] == orders;
    }

    /** Collapse every crossed cell to the midpoint of its bounds. */
    method ReconcileBounds()
      requires Valid()
      modifies maxBuy, minSell
      ensures forall i: nat, j: nat :: i < res && j < res ==> WindowAt(i, j) == Reconcile(old(WindowAt(i, j)))
      ensures Reconciled()
    {
      for i := 0 to res
        invariant forall p: nat, q: nat :: p < res && q < res ==>
          WindowAt(p, q) == if p < i then Reconcile(old(WindowAt(p, q))) else old(WindowAt(p, q))
      {
        for j := 0 to res
          invariant forall p: nat, q: nat :: p < res && q < res ==>
            WindowAt(p, q) == if p < i || (p == i && q < j) then Reconcile(old(WindowAt(p, q))) else old(WindowAt(p, q))
        {
          var s := minSell[i, j];
          if s.Finite? && maxBuy[i, j] > s.v {
            var median := (maxBuy[i, j] + s.v) / 2.0;
            maxBuy[i, j] := median;
            minSell[i, j] := Finite(median);
          }
        }
      }
      forall i: nat, j: nat | i < res && j < res
        ensures AtMost(maxBuy[i, j], minSell[i, j])
      {
        assert WindowAt(i, j) == Reconcile(old(WindowAt(i, j)));
      }
    }

    /** The relaxation starts from a copy of the buy bounds. */
    method Seed()
      requires Valid()
      modifies prices
      ensures forall i: nat, j: nat :: i < res && j < res ==> prices[i, j] == maxBuy[i, j]
      ensures Reconciled() ==> InWindow()
    {
      forall i: nat, j: nat | i < res && j < res {
        prices[i, j] := maxBuy[i, j];
      }
    }

    /** After a smoothing step has left arbitrary values in prices, pull every
        cell back into its window: first up to the buy bound, then down to the
        sell bound. */
    method ClampToWindow()
      requires Valid()
      modifies prices
      ensures forall i: nat, j: nat :: i < res && j < res ==> prices[i, j] == Clamp(old(prices[i, j]), WindowAt(i, j))
      ensures Reconciled() ==> InWindow()
    {
      forall i: nat, j: nat | i < res && j < res {
        prices[i, j] := Clamp(prices[i, j], WindowAt(i, j));
      }
    }
  }

  /** The grid-building part of the computation, up to the seeded field. */
  method BuildField(res: nat, buyOrders: seq<Order>, sellOrders: seq<Order>) returns (g: PriceGrids)
    ensures g.Valid() && g.res == res
    ensures forall i: nat, j: nat :: i < res && j < res ==>
      g.WindowAt(i, j) == Reconcile(Window(BuyBound(0.0, buyOrders, res, i, j), SellBound(Inf, sellOrders, res, i, j)))
    ensures forall i: nat, j: nat :: i < res && j < res ==> g.prices[i, j] == g.maxBuy[i, j]
    ensures g.Reconciled() && g.InWindow()
  {
    g := new PriceGrids(res);
    g.AccumulateBuys(buyOrders);
    g.AccumulateSells(sellOrders);
    g.ReconcileBounds();
    g.Seed();
  }
}
