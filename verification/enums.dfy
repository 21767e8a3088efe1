/**
 * The cell states shared by `src/grid/grid-slice.ts` and the A* helpers.
 * Their enum file is not part of this model; the members below are the
 * ones those files use.
 */
module Enums {
  datatype CellState = Empty | Start | End | Obstacle | Path | Visited
}
