# Price-field bounds of the BitCraft product gradient

This project models the discrete, constraint-building core of the BitCraft
product-gradient tool. The tool takes the buy and sell orders of one market
item and turns them into a price field over the game map. This model covers:

- **Binning** (`binning.dfy`, module `Binning`). Each claim's map coordinate
  becomes a grid cell through `int(X * res / x_max)`. The map is
  `x_max = z_max = 2560 * 3 * 3` small-hex units wide and high.
- **Bound accumulation** (`bounds.dfy`, module `Bounds`, and `solver.dfy`,
  class `Solver.PriceGrids`). Two `res x res` grids are kept. `maxBuy`
  starts at 0 and keeps the highest buy threshold seen in each cell.
  `minSell` starts at +infinity and keeps the lowest sell threshold. An
  order whose claim location could not be resolved is skipped.
- **Reconciliation**. In every cell where the buy bound exceeds the sell
  bound, both bounds become their midpoint.
- **Seed and clamp**. The price field starts as a copy of `maxBuy`. After
  each smoothing step, every cell is clamped into `[maxBuy, minSell]`.
- **Per-claim marker scans** (`claims.dfy`, module `Claims`). For each
  claim, a scan finds its highest buy threshold and its lowest sell
  threshold. A claim whose highest buy threshold is 0 gets no markers.

The per-cell meaning is given by functions on values. `BuyBound` and
`SellBound` are the running maximum and minimum over a sequence of orders.
`Reconcile` and `Clamp` act on one cell's window. The grids are `array2`
fields of a class, and its methods update those arrays in place, as the
numpy arrays are updated in the original. Each method's postcondition ties
every cell of the new grid to the value-level function. The lemmas state
what those functions promise: extremum, order independence, feasibility,
idempotence, and that the clamp is the nearest admissible price.

Modelling choices:

- A coordinate is an integer. `int()` truncates toward zero, and `Trunc`
  writes that out for negative numerators. Dafny's `/` rounds toward
  negative infinity.
- Prices are integers, as `int(priceThreshold)` makes them. Bounds are
  exact `real`s, because the midpoint introduces halves.
- +infinity is the constructor `Inf` of `Ceiling`, not a float sentinel.
- The outcome of resolving an order's claim is carried on the order as
  `at: Option<Location>`. This outcome comes from the location cache, a
  successful remote query, or a failed one. `None` means the query failed.
- Out-of-region orders are dropped. This covers any coordinate outside
  `[0, MapSize)` and any grid with `res = 0`. The original instead indexes
  the numpy array with whatever `int()` produced (see Findings).

## Model

| member | source | states |
|---|---|---|
| `Binning.Trunc` | app/main.py:74-75 | int() of a quotient: for a non-negative numerator q is the floor and q*b <= a < (q+1)*b; for a negative one, (q-1)*b < a <= q*b, so truncation goes toward zero |
| `Binning.BinInRange` | app/main.py:42-43 | a coordinate in [0, x_max) with res >= 1 bins to an index in [0, res) |
| `Binning.BinMonotone` | app/main.py:74-75 | binning is monotone in the coordinate, negative coordinates included |
| `Binning.CellOf` | app/main.py:94-95 | an order gets a cell iff res >= 1 and its location is inside the map; the cell is in range and is the pair of binned X and Z indices |
| `Binning.PyIndex` | app/main.py:76 | numpy indexing of one axis: defined iff -n <= k < n, and then it is k or k+n (negative indices wrap) |
| `Binning.SourceCell` | app/main.py:76-77 | the cell the original indexing touches is always inside the grid when it exists (otherwise IndexError) |
| `Binning.CellOfAgreesInRegion` | app/main.py:74-77 | inside the map, the drop policy and the original indexing pick the same cell |
| `Binning.WestOfMapWrapsEast` | app/main.py:74-77 | X = -2304 with res = 10: the original writes row 9 (the far edge); the drop policy ignores it |
| `Bounds.BuyStep` | app/main.py:76-77 | one buy order never lowers a cell's bound, changes only its own cell and only to its price, and leaves the bound at least its price |
| `Bounds.BuyBound` | app/main.py:61-77 | after the buy loop a cell's bound is at least its start value and every buy price binned there, and equals the start value or one of those prices: it is their maximum |
| `Bounds.BuyBoundPermutation` | app/main.py:61-64 | any permutation of the buy orders gives the same bound in every cell |
| `Bounds.BuyBoundAppend` | app/main.py:68-72 | appending an order never lowers a bound, leaves other cells unchanged, and an order with a failed lookup changes nothing |
| `Bounds.SellStep` | app/main.py:96-97 | one sell order never raises a cell's bound, changes only its own cell and only to its price, and leaves the bound at most its price |
| `Bounds.SellBound` | app/main.py:81-97 | after the sell loop a cell's bound is at most its start value and every sell price binned there, and equals the start value or one of those prices: it is their minimum |
| `Bounds.SellBoundPermutation` | app/main.py:81-84 | any permutation of the sell orders gives the same bound in every cell |
| `Bounds.SellBoundAppend` | app/main.py:88-92 | appending an order never raises a bound, leaves other cells unchanged, and an order with a failed lookup changes nothing |
| `Bounds.Reconcile` | app/main.py:107-110 | the reconciled window is feasible; a feasible window is untouched; a crossed window collapses to a single point strictly between the old sell and buy bounds |
| `Bounds.ReconcileIdempotent` | app/main.py:105-110 | reconciling a second time changes nothing |
| `Bounds.ReconcileMidpoint` | app/main.py:108-110 | a crossed cell ends with both bounds equal to (old buy + old sell) / 2 |
| `Bounds.Clamp` | app/main.py:131-132 | the clamped price never exceeds the sell bound, is at least the buy bound when the window is feasible, and is unchanged if already inside the window |
| `Bounds.ClampNearest` | app/main.py:130-132 | in a feasible window, the clamped price is at least as close to the smoothed price as any admissible price |
| `Bounds.ClampIdempotent` | app/main.py:131-132 | clamping twice is clamping once, for every window |
| `Solver.PriceGrids.constructor` | app/main.py:46-47 | every buy bound starts at 0 and every sell bound at +infinity |
| `Solver.PriceGrids.AddBuy` | app/main.py:65-77 | the buy grid after one order is BuyStep of the old grid, cell by cell |
| `Solver.PriceGrids.AccumulateBuys` | app/main.py:61-77 | every cell of the buy grid becomes BuyBound of its old value over all buy orders |
| `Solver.PriceGrids.AddSell` | app/main.py:85-97 | the sell grid after one order is SellStep of the old grid, cell by cell |
| `Solver.PriceGrids.AccumulateSells` | app/main.py:81-97 | every cell of the sell grid becomes SellBound of its old value over all sell orders |
| `Solver.PriceGrids.ReconcileBounds` | app/main.py:105-110 | every cell's window becomes Reconcile of its old window, so afterwards buy <= sell in every cell |
| `Solver.PriceGrids.Seed` | app/main.py:112 | the field is a copy of the buy grid and, once reconciled, lies inside every window |
| `Solver.PriceGrids.ClampToWindow` | app/main.py:128-132 | whatever the smoothing produced, each cell becomes its clamp, and the whole field lies inside the windows once the bounds are reconciled |
| `Solver.BuildField` | app/main.py:46-112 | from fresh grids: each window equals Reconcile(max of 0 and the cell's buy prices, min of +infinity and its sell prices), and the seeded field lies inside every window |
| `Claims.OrdersOf` | app/main.py:185 | the filtered list holds exactly the orders of the claim, and is no longer than the input |
| `Claims.OrdersOfCounts` | app/main.py:185 | counted with multiplicity, the filtered list holds every copy of each of the claim's orders and nothing else |
| `Claims.ClaimMaxBuy` | app/main.py:186-189 | the scan returns the maximum of 0 and the claim's buy thresholds |
| `Claims.ClaimMinSell` | app/main.py:206-210 | the scan returns the minimum of +infinity and the claim's sell thresholds |
| `Claims.ClaimMarkers` | app/main.py:186-210 | no markers iff no buy order of the claim has a positive price; otherwise the buy marker is the positive maximum and the sell marker is the minimum |
| `Claims.MarkerBelowCellBound` | app/main.py:186-189 | if every order of the claim resolved to the same in-map location, the buy marker is at most the accumulated buy bound of that cell before reconciliation |
| `Claims.SkippedOrderStillMarked` | app/main.py:66-72 | a failed lookup is not cached: an order skipped by the grid (price 100) still sets the claim's marker once a later order (price 50) resolves the claim, so the marker exceeds the cell's bound |

## Left out

- The HTTP client, every `_make_request` call and the `time.sleep` pauses (network I/O). A claim lookup is reduced to its outcome, `Order.at`.
- Reading `config.ini`, and loading and saving `saved_claim_locations.csv` (file I/O). The cache only decides whether a query is made, and `Order.at` already records the result.
- Logging, including the progress and convergence percentages.
- The `scipy.ndimage.laplace` smoothing step. It is floating-point numerics in a foreign library, so `ClampToWindow` clamps whatever the smoothing left in the field.
- The `while err > 1e-32` loop and its squared-difference error. The loop has no iteration cap and no termination argument, and each iteration's clamp is modelled by `ClampToWindow`.
- The field summary `np.min` / `np.max` (lines 182-183) and all plotting: map image, imshow, contours, scatter, savefig. These are presentation only.
- Floating point in general: bounds and prices are exact reals, so float64 rounding of the midpoint and of the clamp is not modelled. Coordinates are integers; `int(X*res/x_max)` computed in float64 equals the exact truncation for map-sized integers, because the quotient is never within rounding distance of an integer it does not equal.
- Solver.PriceGrids.Seed: the field array is allocated once by the constructor, and `Seed` copies into it. The original allocates a fresh copy, and since nothing else refers to either array the values are the same.

## Findings

| source | as written | input that shows it | evidently intended | confidence | as-written member | corrected member |
|---|---|---|---|---|---|---|
| app/main.py:74-77 | the binned index is used directly as a numpy index: a negative index wraps to the opposite edge, an index >= res raises IndexError | claim at X = -2304, Z = 0 with res = 10: int(-1.0) = -1, so the order updates row 9, the far edge of the map | only claims inside the hard-coded map limits contribute, each to its own cell | medium, not executed | `Binning.WestOfMapWrapsEast` | `Binning.CellOf` |
