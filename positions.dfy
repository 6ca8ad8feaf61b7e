/**
 The two hashable coordinate structs of the viewer. Both range over all
 integers, negative ones included; equality and hashing are by value.
 */
module Positions {

  /** A cell of the displayed grid (the viewer's `displayedCells` key). */
  datatype GridPosition = GridPosition(column: int, row: int)

  /** A tile of the image grid (the data source's and the store's key). */
  datatype TilePosition = TilePosition(column: int, row: int)

  const GridPositionZero := GridPosition(0, 0)
  const TilePositionZero := TilePosition(0, 0)

}
