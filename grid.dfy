/**
  The configuration of the cross grid and the value held in each of its cells.
  A cell is a plain value: the table owns 49 independent cells, so updating one
  cell can never change another.
*/
module Grid {
  /** Dimensions of the table and the side of one square cell, in pixels. */
  const ROWS: nat := 7
  const COLS: nat := 7
  const CELL_SIZE: nat := 70

  /** The range of the arm length (half the length of each bar of a cross). */
  const ARM_MIN: real := 3.0
  const ARM_MAX: real := 30.0

  /** The range of the pen width produced by the distribution sliders. */
  const PEN_MIN: real := 1.0
  const PEN_MAX: real := 15.0

  /** The floor a right click applies: 0, an invisible cross, below PEN_MIN. */
  const PEN_FLOOR: real := 0.0

  /** The value every cell starts with before the sliders are first applied. */
  const INITIAL_ARM: real := 15.0
  const INITIAL_PEN: real := 2.0

  datatype Cell = Cell(armLength: real, penWidth: real)

  const INITIAL_CELL: Cell := Cell(INITIAL_ARM, INITIAL_PEN)

  /** The whole table, row by row: `t[r][c]` is the cell at row r, column c. */
  type Table = seq<seq<Cell>>

  predicate IsTable(t: Table)
  {
    |t| == ROWS && forall r :: 0 <= r < |t| ==> |t[r]| == COLS
  }

  predicate InGrid(r: int, c: int)
  {
    0 <= r < ROWS && 0 <= c < COLS
  }

  /** The range every handler keeps: width in [0, PEN_MAX], arm length in [ARM_MIN, ARM_MAX]. */
  predicate CellInRange(cell: Cell)
  {
    PEN_FLOOR <= cell.penWidth <= PEN_MAX && ARM_MIN <= cell.armLength <= ARM_MAX
  }
}
