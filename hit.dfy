/** Mapping a pixel position on the canvas to the cell under it. */
module Hit {
  import opened Grid

  /** A row and column pair; either may lie outside the table. */
  datatype CellRef = CellRef(row: int, col: int)

  /** The cell whose square contains the point: floor division of each coordinate by the cell size. */
  function GetCell(x: real, y: real): (p: CellRef)
    ensures (p.row * CELL_SIZE) as real <= y < ((p.row + 1) * CELL_SIZE) as real
    ensures (p.col * CELL_SIZE) as real <= x < ((p.col + 1) * CELL_SIZE) as real
  {
    CellRef((y / CELL_SIZE as real).Floor, (x / CELL_SIZE as real).Floor)
  }

  /** The bounds filter every handler applies before touching the table. */
  predicate OnGrid(p: CellRef)
  {
    InGrid(p.row, p.col)
  }

  /** A point is accepted exactly when it lies in the 490 by 490 pixel area the seven rows and columns cover. */
  lemma OnGridIff(x: real, y: real)
    ensures OnGrid(GetCell(x, y)) <==>
              0.0 <= x < (COLS * CELL_SIZE) as real && 0.0 <= y < (ROWS * CELL_SIZE) as real
  {
    var p := GetCell(x, y);
    if 0.0 <= y {
      assert p.row >= 0;
    }
  }

  /** GetCell returns the one cell whose square contains the point. */
  lemma GetCellUnique(x: real, y: real, r: int, c: int)
    requires (r * CELL_SIZE) as real <= y < ((r + 1) * CELL_SIZE) as real
    requires (c * CELL_SIZE) as real <= x < ((c + 1) * CELL_SIZE) as real
    ensures GetCell(x, y) == CellRef(r, c)
  {
  }

  /** A click at (40, 40) lands in the top-left cell. */
  lemma GetCellExample()
    ensures GetCell(40.0, 40.0) == CellRef(0, 0) && OnGrid(GetCell(40.0, 40.0))
  {
    GetCellUnique(40.0, 40.0, 0, 0);
  }
}
