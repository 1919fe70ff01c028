/**
  The page's grid of crosses: a 7 by 7 table of cells updated in place by the
  mouse handlers and the distribution sliders, each of which redraws the canvas
  after a change. A handler whose pointer falls outside the table does nothing.
*/
module Canvas {
  import opened Grid
  import opened Wrappers
  import Hit
  import Adjust
  import Render
  import Distribution

  class CrossGrid {
    var cells: array2<Cell>

    ghost predicate Valid()
      reads this
    {
      cells.Length0 == ROWS && cells.Length1 == COLS
    }

    /** The table as a value: row r, column c holds cells[r, c]. */
    function Snapshot(): (t: Table)
      reads this, cells
      requires Valid()
      ensures IsTable(t)
      ensures forall r, c :: 0 <= r < ROWS && 0 <= c < COLS ==> t[r][c] == cells[r, c]
    {
      seq(ROWS, r requires 0 <= r < ROWS reads this, cells =>
        seq(COLS, c requires 0 <= c < COLS reads this, cells =>
          if r < cells.Length0 && c < cells.Length1 then cells[r, c] else INITIAL_CELL))
    }

    /** Every cell has width in [0, PEN_MAX] and arm length in [ARM_MIN, ARM_MAX]. */
    ghost predicate InRange()
      reads this, cells
      requires Valid()
    {
      forall r, c :: 0 <= r < ROWS && 0 <= c < COLS ==> CellInRange(cells[r, c])
    }

    /** Every cell starts as its own copy of (armLength 15, penWidth 2). */
    constructor ()
      ensures Valid() && fresh(cells)
      ensures forall r, c :: 0 <= r < ROWS && 0 <= c < COLS ==> cells[r, c] == INITIAL_CELL
      ensures InRange()
    {
      cells := new Cell[ROWS, COLS]((r, c) => INITIAL_CELL);
    }

    /** Clear the canvas and stroke a cross for every visible cell, row by row. */
    method DrawGrid() returns (frame: seq<Render.Cross>)
      requires Valid()
      ensures frame == Render.DisplayList(Snapshot())
    {
      ghost var t := Snapshot();
      frame := [];
      var r := 0;
      while r < ROWS
        invariant 0 <= r <= ROWS
        invariant frame == Render.DrawnRows(t, r)
      {
        var c := 0;
        while c < COLS
          invariant 0 <= c <= COLS
          invariant frame == Render.DrawnRows(t, r) + Render.DrawnInRow(t, r, c)
        {
          var cell := cells[r, c];
          if !(cell.penWidth <= 0.0) {
            frame := frame + [Render.CrossAt(r, c, cell)];
          }
          c := c + 1;
        }
        r := r + 1;
      }
    }

    /** Left click: widen the cross under the pointer by one, up to PEN_MAX, then redraw. */
    method Click(x: real, y: real) returns (frame: Option<seq<Render.Cross>>)
      requires Valid()
      modifies cells
      ensures var p := Hit.GetCell(x, y);
        if Hit.OnGrid(p) then
          && cells[p.row, p.col] == old(cells[p.row, p.col]).(penWidth := Adjust.ClickedPen(old(cells[p.row, p.col].penWidth)))
          && (forall r, c :: 0 <= r < ROWS && 0 <= c < COLS && (r, c) != (p.row, p.col) ==> cells[r, c] == old(cells[r, c]))
          && frame == Some(Render.DisplayList(Snapshot()))
        else
          && (forall r, c :: 0 <= r < ROWS && 0 <= c < COLS ==> cells[r, c] == old(cells[r, c]))
          && frame == None
      ensures old(InRange()) ==> InRange()
    {
      var p := Hit.GetCell(x, y);
      if 0 <= p.row < ROWS && 0 <= p.col < COLS {
        cells[p.row, p.col] := cells[p.row, p.col].(penWidth := Adjust.Min(cells[p.row, p.col].penWidth + 1.0, PEN_MAX));
        var f := DrawGrid();
        frame := Some(f);
      } else {
        frame := None;
      }
    }

    /** Right click: narrow the cross under the pointer by one, down to 0, then redraw. */
    method ContextMenu(x: real, y: real) returns (frame: Option<seq<Render.Cross>>)
      requires Valid()
      modifies cells
      ensures var p := Hit.GetCell(x, y);
        if Hit.OnGrid(p) then
          && cells[p.row, p.col] == old(cells[p.row, p.col]).(penWidth := Adjust.RightClickedPen(old(cells[p.row, p.col].penWidth)))
          && (forall r, c :: 0 <= r < ROWS && 0 <= c < COLS && (r, c) != (p.row, p.col) ==> cells[r, c] == old(cells[r, c]))
          && frame == Some(Render.DisplayList(Snapshot()))
        else
          && (forall r, c :: 0 <= r < ROWS && 0 <= c < COLS ==> cells[r, c] == old(cells[r, c]))
          && frame == None
      ensures old(InRange()) ==> InRange()
    {
      var p := Hit.GetCell(x, y);
      if 0 <= p.row < ROWS && 0 <= p.col < COLS {
        cells[p.row, p.col] := cells[p.row, p.col].(penWidth := Adjust.Max(cells[p.row, p.col].penWidth - 1.0, 0.0));
        var f := DrawGrid();
        frame := Some(f);
      } else {
        frame := None;
      }
    }

    /** Wheel: lengthen (delta below 0) or shorten the arms under the pointer, clamp, then redraw. */
    method Wheel(x: real, y: real, deltaY: real) returns (frame: Option<seq<Render.Cross>>)
      requires Valid()
      modifies cells
      ensures var p := Hit.GetCell(x, y);
        if Hit.OnGrid(p) then
          && cells[p.row, p.col] == old(cells[p.row, p.col]).(armLength := Adjust.ScrolledArm(old(cells[p.row, p.col].armLength), deltaY))
          && (forall r, c :: 0 <= r < ROWS && 0 <= c < COLS && (r, c) != (p.row, p.col) ==> cells[r, c] == old(cells[r, c]))
          && frame == Some(Render.DisplayList(Snapshot()))
        else
          && (forall r, c :: 0 <= r < ROWS && 0 <= c < COLS ==> cells[r, c] == old(cells[r, c]))
          && frame == None
      ensures old(InRange()) ==> InRange()
    {
      var p := Hit.GetCell(x, y);
      if 0 <= p.row < ROWS && 0 <= p.col < COLS {
        var cell := cells[p.row, p.col];
        cell := cell.(armLength := cell.armLength + (if deltaY < 0.0 then 1.0 else -1.0));
        cell := cell.(armLength := Adjust.Max(ARM_MIN, Adjust.Min(ARM_MAX, cell.armLength)));
        cells[p.row, p.col] := cell;
        var f := DrawGrid();
        frame := Some(f);
      } else {
        frame := None;
      }
    }

    /** Recompute every cell from the four sliders, row by row, then redraw. */
    method ApplyAllDistributions(s: Distribution.Sliders) returns (frame: seq<Render.Cross>)
      requires Valid()
      modifies cells
      ensures forall r, c :: 0 <= r < ROWS && 0 <= c < COLS ==> cells[r, c] == Distribution.DistributedCell(s, r, c)
      ensures Distribution.SlidersInRange(s) ==>
                forall r, c :: 0 <= r < ROWS && 0 <= c < COLS ==>
                  PEN_MIN <= cells[r, c].penWidth <= PEN_MAX && ARM_MIN <= cells[r, c].armLength <= ARM_MAX
      ensures Distribution.SlidersInRange(s) ==> InRange()
      ensures frame == Render.DisplayList(Snapshot())
    {
      var rowLengthFactor := Distribution.RowFactor(s.rowLength);
      var rowWidthFactor := Distribution.RowFactor(s.rowWidth);
      var colLengthFactor := Distribution.ColFactor(s.colLength);
      var colWidthFactor := Distribution.ColFactor(s.colWidth);
      var r := 0;
      while r < ROWS
        invariant 0 <= r <= ROWS
        invariant forall i, j :: 0 <= i < r && 0 <= j < COLS ==> cells[i, j] == Distribution.DistributedCell(s, i, j)
      {
        var rowLInterp := Distribution.RowInterp(rowLengthFactor, r);
        var rowWInterp := Distribution.RowInterp(rowWidthFactor, r);
        var c := 0;
        while c < COLS
          invariant 0 <= c <= COLS
          invariant forall i, j :: 0 <= i < r && 0 <= j < COLS ==> cells[i, j] == Distribution.DistributedCell(s, i, j)
          invariant forall j :: 0 <= j < c ==> cells[r, j] == Distribution.DistributedCell(s, r, j)
        {
          var colLInterp := Distribution.ColInterp(colLengthFactor, c);
          var colWInterp := Distribution.ColInterp(colWidthFactor, c);
          var armMix := rowLInterp * colLInterp;
          var penMix := rowWInterp * colWInterp;
          assert armMix == Distribution.Mix(s.rowLength, s.colLength, r, c);
          assert penMix == Distribution.Mix(s.rowWidth, s.colWidth, r, c);
          cells[r, c] := Cell(ARM_MIN + armMix * (ARM_MAX - ARM_MIN), PEN_MIN + penMix * (PEN_MAX - PEN_MIN));
          assert cells[r, c] == Distribution.DistributedCell(s, r, c);
          c := c + 1;
        }
        r := r + 1;
      }
      if Distribution.SlidersInRange(s) {
        forall i, j | 0 <= i < ROWS && 0 <= j < COLS
          ensures PEN_MIN <= cells[i, j].penWidth <= PEN_MAX && ARM_MIN <= cells[i, j].armLength <= ARM_MAX
          ensures CellInRange(cells[i, j])
        {
          Distribution.DistributedCellInRange(s, i, j);
        }
      }
      frame := DrawGrid();
    }
  }

  /** The page as loaded: a fresh table, then the sliders applied once. */
  method Load(s: Distribution.Sliders) returns (g: CrossGrid, frame: seq<Render.Cross>)
    ensures fresh(g) && fresh(g.cells) && g.Valid()
    ensures forall r, c :: 0 <= r < ROWS && 0 <= c < COLS ==> g.cells[r, c] == Distribution.DistributedCell(s, r, c)
    ensures Distribution.SlidersInRange(s) ==> g.InRange()
    ensures frame == Render.DisplayList(g.Snapshot())
  {
    g := new CrossGrid();
    frame := g.ApplyAllDistributions(s);
  }

  /** Redrawing twice without a change in between paints the same crosses. */
  method RedrawIsIdempotent(g: CrossGrid) returns (first: seq<Render.Cross>, second: seq<Render.Cross>)
    requires g.Valid()
    ensures first == second
  {
    first := g.DrawGrid();
    second := g.DrawGrid();
  }

  /**
    The table is first seen after the sliders have been applied at load. With all four at 50,
    a left click at (40, 40) widens the top-left cross from (9.75, 4.5) to (9.75, 5.5) and redraws.
  */
  method ClickAfterLoad() returns (before: Cell, after: Cell, redrawn: bool)
    ensures before == Cell(9.75, 4.5) && after == Cell(9.75, 5.5) && redrawn
  {
    var g, _ := Load(Distribution.Sliders(50, 50, 50, 50));
    Distribution.NeutralSlidersAreUniform(0, 0);
    before := g.cells[0, 0];
    Hit.GetCellExample();
    var frame := g.Click(40.0, 40.0);
    after := g.cells[0, 0];
    redrawn := frame.Some?;
  }
}
