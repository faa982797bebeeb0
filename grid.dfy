/** The fixed-size hexagonal grid (lib.hex.hex_grid): its rows, their offsets, and containment. */
module Grid {
  import opened Hexes

  const BOARD_SIZE: int := 5
  /** A size-N hexagon has 2N-1 rows. */
  const ROWS: int := 2 * BOARD_SIZE - 1

  /** `offset(r)`: the axial q of the first stored column of row r (size-1 on the first row). */
  function Offset(r: int): int
  {
    if r < BOARD_SIZE - 1 then BOARD_SIZE - 1 - r else 0
  }

  /** How many cells row r holds: the middle row is the longest, rows shrink towards the ends. */
  function RowLen(r: int): int
  {
    if r < BOARD_SIZE - 1 then BOARD_SIZE + r else ROWS - (r - (BOARD_SIZE - 1))
  }

  const Centre: Hex := Hex(BOARD_SIZE - 1, BOARD_SIZE - 1)

  /**
   * `cell in grid`: the cell lies in the hexagon of the grid, bounded by its rows, its
   * columns and its two slanted edges.
   */
  predicate InBounds(c: Hex)
  {
    0 <= c.q < ROWS && 0 <= c.r < ROWS && BOARD_SIZE - 1 <= c.q + c.r < ROWS + BOARD_SIZE - 1
  }

  /** The hexagon is the set of cells within BOARD_SIZE-1 steps of the centre. */
  lemma InBoundsByDistance(c: Hex)
    ensures InBounds(c) <==> DoubleDistance(c, Centre) <= 2 * (BOARD_SIZE - 1)
  {
  }

  /** The hexagon and the row/offset storage describe the same set of cells. */
  lemma InBoundsByRow(c: Hex)
    ensures InBounds(c) <==> 0 <= c.r < ROWS && Offset(c.r) <= c.q < Offset(c.r) + RowLen(c.r)
  {
  }

  /** Every stored (row, column) position names an in-bounds cell. */
  lemma StoredCellInBounds(r: int, col: int)
    requires 0 <= r < ROWS && 0 <= col < RowLen(r)
    ensures InBounds(Hex(col + Offset(r), r))
  {
    InBoundsByRow(Hex(col + Offset(r), r));
  }

  /** A straight walk that starts and ends inside the hexagon is shorter than a row count. */
  lemma LineLeavesGrid(c: Hex, d: Direction, k: int)
    requires InBounds(c) && InBounds(Step(c, d, k)) && k >= 0
    ensures k < ROWS
  {
  }
}
