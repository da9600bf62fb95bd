/** Spatial binning: a claim's map coordinate becomes a grid cell.

    The map is a square of MapSize x MapSize "small hex" units. A coordinate is
    scaled by res / MapSize and truncated toward zero, as Python's int() does
    with the quotient of X * res and MapSize.
 */
module Binning {

  datatype Option<T> = None | Some(value: T)

  /** Side of the map, in small hex units: 2560 * 3 * 3. */
  const MapSize: int := 2560 * 3 * 3

  /** Where a claim sits on the map. */
  datatype Location = Location(x: int, z: int)

  /** A grid cell: row i comes from the X coordinate, column j from Z. */
  datatype Cell = Cell(i: nat, j: nat)

  /** Floor division of a non-negative numerator brackets it between two
      consecutive multiples of the divisor. */
  lemma DivBounds(n: int, b: int)
    requires n >= 0 && b > 0
    ensures 0 <= n / b && (n / b) * b <= n < (n / b + 1) * b
  {
    var q := n / b;
    assert n == q * b + n % b;
    assert (q + 1) * b == q * b + b;
  }

  /** Truncating division, the semantics of int(a / b) for b > 0. */
  function Trunc(a: int, b: int): (q: int)
    requires b > 0
    ensures a >= 0 ==> 0 <= q && q * b <= a < (q + 1) * b
    ensures a < 0 ==> q <= 0 && (q - 1) * b < a <= q * b
  {
    if a >= 0 then
      DivBounds(a, b);
      a / b
    else
      var p := (-a) / b;
      DivBounds(-a, b);
      assert (-p) * b == -(p * b) && (-p - 1) * b == -((p + 1) * b);
      -p
  }

  /** Grid index of one coordinate: int(coord * res / MapSize). */
  function BinIndex(coord: int, res: nat): int
  {
    Trunc(coord * res, MapSize)
  }

  predicate InRegion(loc: Location)
  {
    0 <= loc.x < MapSize && 0 <= loc.z < MapSize
  }

  /** Every coordinate inside the map falls in a row/column of the grid. */
  lemma BinInRange(coord: int, res: nat)
    requires 0 <= coord < MapSize && res >= 1
    ensures 0 <= BinIndex(coord, res) < res
  {
    assert 0 <= coord * res;
    assert coord * res < MapSize * res;
  }

  /** Binning preserves the order of coordinates, inside the map or not. */
  lemma BinMonotone(c1: int, c2: int, res: nat)
    requires c1 <= c2
    ensures BinIndex(c1, res) <= BinIndex(c2, res)
  {
    assert c2 * res - c1 * res == (c2 - c1) * res >= 0;
  }

  /** The cell an order is counted in. A location outside the map, or a grid
      with no cells, yields None and the order is dropped. */
  function CellOf(loc: Location, res: nat): (c: Option<Cell>)
    ensures c.Some? <==> res >= 1 && InRegion(loc)
    ensures c.Some? ==> c.value.i < res && c.value.j < res
    ensures c.Some? ==> c.value.i == BinIndex(loc.x, res) && c.value.j == BinIndex(loc.z, res)
  {
    if res >= 1 && InRegion(loc) then
      BinInRange(loc.x, res);
      BinInRange(loc.z, res);
      Some(Cell(BinIndex(loc.x, res), BinIndex(loc.z, res)))
    else
      None
  }

  /** Python's reading of a[k] on an axis of length n: a negative k counts from
      the end, and anything outside [-n, n) raises IndexError (None here). */
  function PyIndex(k: int, n: nat): (r: Option<nat>)
    ensures r.Some? <==> -(n as int) <= k < n
    ensures r.Some? ==> r.value < n && (r.value == k || r.value == k + n)
  {
    if 0 <= k < n then Some(k)
    else if -(n as int) <= k < 0 then Some(k + n)
    else None
  }

  /** The cell the original indexing max_buy[x_ind][z_ind] touches, with no
      region check; None is the IndexError that aborts the program. */
  function SourceCell(loc: Location, res: nat): (c: Option<Cell>)
    ensures c.Some? ==> c.value.i < res && c.value.j < res
  {
    match (PyIndex(BinIndex(loc.x, res), res), PyIndex(BinIndex(loc.z, res), res))
    case (Some(i), Some(j)) => Some(Cell(i, j))
    case _ => None
  }

  /** Inside the map the explicit policy and the original indexing agree. */
  lemma CellOfAgreesInRegion(loc: Location, res: nat)
    requires InRegion(loc) && res >= 1
    ensures SourceCell(loc, res) == CellOf(loc, res)
  {
    BinInRange(loc.x, res);
    BinInRange(loc.z, res);
  }

  /** A claim a tenth of the map west of the edge lands, in the original, in
      the easternmost row of the grid; the explicit policy drops it. */
  lemma WestOfMapWrapsEast()
    ensures SourceCell(Location(-2304, 0), 10) == Some(Cell(9, 0))
    ensures CellOf(Location(-2304, 0), 10) == None
  {
    assert BinIndex(-2304, 10) == -1;
    assert BinIndex(0, 10) == 0;
  }
}
