/** The grid model: cell types, surfaces and their entry costs (Cell.java, Config.java). */
module Cells {

  /** Whether a cell can be walked through. */
  datatype CellType = Wall | Passage

  /** The terrain of a passage cell; walls carry Normal. */
  datatype Surface = Normal | Swamp | Sand | Coin | GoodFloor

  /** A cell of the grid: its own position, its type and its surface. */
  datatype Cell = Cell(row: int, col: int, cellType: CellType, surface: Surface)

  // Entry costs of the surfaces.
  const SwampCost: int := 5
  const SandCost: int := 3
  const CoinCost: int := 0
  const GoodTrackCost: int := 2
  const NormalCost: int := 1

  // Probabilities of the surfaces, as exact reals.
  const SwampProbability: real := 0.02
  const SandProbability: real := 0.03
  const CoinProbability: real := 0.02
  const GoodTrackProbability: real := 0.02

  /** The cost of entering a cell of the given surface; Normal is the default branch. */
  function SurfaceCost(surface: Surface): (cost: int)
    ensures cost >= 0
    ensures surface == Normal ==> cost == 1
    ensures surface == Swamp ==> cost == 5
    ensures surface == Sand ==> cost == 3
    ensures surface == Coin ==> cost == 0
    ensures surface == GoodFloor ==> cost == 2
  {
    match surface
    case Swamp => SwampCost
    case Sand => SandCost
    case Coin => CoinCost
    case GoodFloor => GoodTrackCost
    case _ => NormalCost
  }

  /**
   * The surface drawn for one uniform sample `chance`: the first cumulative
   * threshold the sample falls under, in the order Swamp, Sand, Coin,
   * GoodFloor, and Normal otherwise.
   */
  function RandomSurface(chance: real): Surface {
    if chance < SwampProbability then Swamp
    else if chance < SwampProbability + SandProbability then Sand
    else if chance < SwampProbability + SandProbability + CoinProbability then Coin
    else if chance < SwampProbability + SandProbability + CoinProbability + GoodTrackProbability then GoodFloor
    else Normal
  }

  /** The bands of the unit interval that select each surface: 2%, 3%, 2% and 2%, the rest Normal. */
  lemma RandomSurfaceBands(chance: real)
    ensures RandomSurface(chance) == Swamp <==> chance < 0.02
    ensures RandomSurface(chance) == Sand <==> 0.02 <= chance < 0.05
    ensures RandomSurface(chance) == Coin <==> 0.05 <= chance < 0.07
    ensures RandomSurface(chance) == GoodFloor <==> 0.07 <= chance < 0.09
    ensures RandomSurface(chance) == Normal <==> 0.09 <= chance
  {
  }

  /** The three-argument constructor: a cell whose surface defaults to Normal. */
  function MakeCell(row: int, col: int, cellType: CellType): (c: Cell)
    ensures c.row == row && c.col == col && c.cellType == cellType
    ensures c.surface == Normal
  {
    Cell(row, col, cellType, Normal)
  }
}
