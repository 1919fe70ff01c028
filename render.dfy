/**
  Redrawing the canvas, as the list of crosses handed to the 2D context after it
  has been cleared. Each cell with a positive pen width contributes one cross,
  in row-major order; cells with width 0 or less are skipped.
*/
module Render {
  import opened Grid
  import Hit

  datatype Point = Point(x: real, y: real)
  datatype Segment = Segment(from: Point, to: Point)
  /** One stroked path: the line width it is stroked with, its horizontal bar and its vertical bar. */
  datatype Cross = Cross(lineWidth: real, horizontal: Segment, vertical: Segment)

  /** The pixel centre of the cell at row r, column c. */
  function Center(r: int, c: int): Point
  {
    Point((c * CELL_SIZE) as real + CELL_SIZE as real / 2.0, (r * CELL_SIZE) as real + CELL_SIZE as real / 2.0)
  }

  /** Only a positive pen width is drawn. */
  predicate Visible(cell: Cell)
  {
    !(cell.penWidth <= 0.0)
  }

  /** The cross drawn for a cell: two bars of half-length armLength through the cell's centre. */
  function CrossAt(r: int, c: int, cell: Cell): Cross
  {
    var o := Center(r, c);
    Cross(cell.penWidth,
          Segment(Point(o.x - cell.armLength, o.y), Point(o.x + cell.armLength, o.y)),
          Segment(Point(o.x, o.y - cell.armLength), Point(o.x, o.y + cell.armLength)))
  }

  /** Both bars are centred on the cell, perpendicular, each 2 * armLength long, stroked at penWidth. */
  lemma CrossGeometry(r: int, c: int, cell: Cell)
    ensures var k, o := CrossAt(r, c, cell), Center(r, c);
      && k.lineWidth == cell.penWidth
      && k.horizontal.from.y == k.horizontal.to.y == o.y
      && (k.horizontal.from.x + k.horizontal.to.x) / 2.0 == o.x
      && k.horizontal.to.x - k.horizontal.from.x == 2.0 * cell.armLength
      && k.vertical.from.x == k.vertical.to.x == o.x
      && (k.vertical.from.y + k.vertical.to.y) / 2.0 == o.y
      && k.vertical.to.y - k.vertical.from.y == 2.0 * cell.armLength
  {
  }

  /** A pointer event at the centre of a drawn cross addresses that very cell. */
  lemma CenterHitsCell(r: int, c: int)
    requires InGrid(r, c)
    ensures Hit.GetCell(Center(r, c).x, Center(r, c).y) == Hit.CellRef(r, c)
    ensures Center(r, c) == Point((c * 70 + 35) as real, (r * 70 + 35) as real)
  {
    Hit.GetCellUnique(Center(r, c).x, Center(r, c).y, r, c);
  }

  /** Row-major order: an earlier row, or the same row further left. */
  predicate Before(p: (nat, nat), q: (nat, nat))
  {
    p.0 < q.0 || (p.0 == q.0 && p.1 < q.1)
  }

  /** What a visit draws: the cell's cross when it is visible, nothing otherwise. */
  function Drawn(r: int, c: int, cell: Cell): seq<Cross>
  {
    if Visible(cell) then [CrossAt(r, c, cell)] else []
  }

  /** What the inner loop draws for columns 0 to c - 1 of row r. */
  function DrawnInRow(t: Table, r: nat, c: nat): seq<Cross>
    requires IsTable(t) && r < ROWS && c <= COLS
  {
    if c == 0 then [] else DrawnInRow(t, r, c - 1) + Drawn(r, c - 1, t[r][c - 1])
  }

  /** What the outer loop draws for rows 0 to r - 1. */
  function DrawnRows(t: Table, r: nat): seq<Cross>
    requires IsTable(t) && r <= ROWS
  {
    if r == 0 then [] else DrawnRows(t, r - 1) + DrawnInRow(t, r - 1, COLS)
  }

  /** The full redraw of a table. */
  function DisplayList(t: Table): seq<Cross>
    requires IsTable(t)
  {
    DrawnRows(t, ROWS)
  }

  /** The positions of the visible cells among columns 0 to c - 1 of row r, left to right. */
  function VisibleInRow(t: Table, r: nat, c: nat): (v: seq<(nat, nat)>)
    requires IsTable(t) && r < ROWS && c <= COLS
    ensures forall p :: p in v <==> p.0 == r && p.1 < c && Visible(t[r][p.1])
    ensures forall a, b :: 0 <= a < b < |v| ==> v[a].0 == r && Before(v[a], v[b])
    ensures forall j :: 0 <= j < |v| ==> v[j].0 == r && v[j].1 < c
  {
    if c == 0 then []
    else VisibleInRow(t, r, c - 1) + (if Visible(t[r][c - 1]) then [(r, c - 1)] else [])
  }

  /** The positions of the visible cells in rows 0 to r - 1, in row-major order. */
  function VisibleRows(t: Table, r: nat): (v: seq<(nat, nat)>)
    requires IsTable(t) && r <= ROWS
    ensures forall p :: p in v <==> p.0 < r && p.1 < COLS && Visible(t[p.0][p.1])
    ensures forall a, b :: 0 <= a < b < |v| ==> Before(v[a], v[b])
    ensures forall j :: 0 <= j < |v| ==> v[j].0 < r && v[j].1 < COLS
  {
    if r == 0 then []
    else VisibleRows(t, r - 1) + VisibleInRow(t, r - 1, COLS)
  }

  /** Every visible cell of the table, each once, in row-major order. */
  function VisibleCells(t: Table): seq<(nat, nat)>
    requires IsTable(t)
  {
    VisibleRows(t, ROWS)
  }

  /** d is the list of crosses of the cells at positions v, in the same order. */
  predicate CrossesOf(t: Table, v: seq<(nat, nat)>, d: seq<Cross>)
    requires IsTable(t)
  {
    |d| == |v| && forall j :: 0 <= j < |v| ==> InGrid(v[j].0, v[j].1) && d[j] == CrossAt(v[j].0, v[j].1, t[v[j].0][v[j].1])
  }

  lemma CrossesOfAppend(t: Table, v0: seq<(nat, nat)>, d0: seq<Cross>, v1: seq<(nat, nat)>, d1: seq<Cross>)
    requires IsTable(t) && CrossesOf(t, v0, d0) && CrossesOf(t, v1, d1)
    ensures CrossesOf(t, v0 + v1, d0 + d1)
  {
    forall j | 0 <= j < |v0 + v1|
      ensures InGrid((v0 + v1)[j].0, (v0 + v1)[j].1)
      ensures (d0 + d1)[j] == CrossAt((v0 + v1)[j].0, (v0 + v1)[j].1, t[(v0 + v1)[j].0][(v0 + v1)[j].1])
    {
      if j >= |v0| {
        assert (d0 + d1)[j] == d1[j - |v0|] && (v0 + v1)[j] == v1[j - |v0|];
      }
    }
  }

  /** The crosses one row draws are those of its visible cells, left to right. */
  lemma {:induction false} DrawnInRowIsVisibleInRow(t: Table, r: nat, c: nat)
    requires IsTable(t) && r < ROWS && c <= COLS
    ensures CrossesOf(t, VisibleInRow(t, r, c), DrawnInRow(t, r, c))
  {
    if c > 0 {
      DrawnInRowIsVisibleInRow(t, r, c - 1);
      var cell := t[r][c - 1];
      if Visible(cell) {
        CrossesOfAppend(t, VisibleInRow(t, r, c - 1), DrawnInRow(t, r, c - 1), [(r, c - 1)], [CrossAt(r, c - 1, cell)]);
      } else {
        assert VisibleInRow(t, r, c) == VisibleInRow(t, r, c - 1);
        assert DrawnInRow(t, r, c) == DrawnInRow(t, r, c - 1);
      }
    }
  }

  /** The crosses the first r rows draw are those of their visible cells, in row-major order. */
  lemma {:induction false} DrawnRowsIsVisibleRows(t: Table, r: nat)
    requires IsTable(t) && r <= ROWS
    ensures CrossesOf(t, VisibleRows(t, r), DrawnRows(t, r))
  {
    if r > 0 {
      DrawnRowsIsVisibleRows(t, r - 1);
      DrawnInRowIsVisibleInRow(t, r - 1, COLS);
      CrossesOfAppend(t, VisibleRows(t, r - 1), DrawnRows(t, r - 1), VisibleInRow(t, r - 1, COLS), DrawnInRow(t, r - 1, COLS));
    }
  }

  /**
    A redraw draws exactly the visible cells, each once, in row-major order: the j-th
    cross is the cross of the j-th visible cell.
  */
  lemma DisplayListIsVisibleCells(t: Table)
    requires IsTable(t)
    ensures var v := VisibleCells(t);
      && |DisplayList(t)| == |v|
      && (forall j :: 0 <= j < |v| ==> DisplayList(t)[j] == CrossAt(v[j].0, v[j].1, t[v[j].0][v[j].1]))
      && (forall r, c :: InGrid(r, c) ==> ((r, c) in v <==> Visible(t[r][c])))
      && (forall a, b :: 0 <= a < b < |v| ==> Before(v[a], v[b]))
  {
    DrawnRowsIsVisibleRows(t, ROWS);
  }

  /** A cell whose width has dropped to 0 is absent from the redraw. */
  lemma InvisibleCellNotDrawn(t: Table, r: nat, c: nat)
    requires IsTable(t) && InGrid(r, c) && t[r][c].penWidth <= 0.0
    ensures CrossAt(r, c, t[r][c]) !in DisplayList(t)
  {
    DisplayListIsVisibleCells(t);
    var v := VisibleCells(t);
    forall j | 0 <= j < |v|
      ensures DisplayList(t)[j] != CrossAt(r, c, t[r][c])
    {
      assert v[j] in v;
      assert v[j] != (r, c);
      assert Center(v[j].0, v[j].1) != Center(r, c);
    }
  }
}
