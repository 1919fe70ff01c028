/**
  The four distribution sliders. Each slider value in [0, 100] becomes a weight in
  [0, 1]; per cell, a row blend and a column blend are multiplied into a mix in
  [0, 1], and the mix places the value between the minimum and the maximum of its
  range. Exact real arithmetic stands in for the floating point of the canvas script.
*/
module Distribution {
  import opened Grid

  /** The four slider values, as parsed integers. */
  datatype Sliders = Sliders(rowLength: int, rowWidth: int, colLength: int, colWidth: int)

  predicate SliderInRange(v: int)
  {
    0 <= v <= 100
  }

  predicate SlidersInRange(s: Sliders)
  {
    SliderInRange(s.rowLength) && SliderInRange(s.rowWidth) && SliderInRange(s.colLength) && SliderInRange(s.colWidth)
  }

  /** A row slider weighs the top row by its complement. */
  function RowFactor(v: int): real
  {
    (100 - v) as real / 100.0
  }

  /** A column slider weighs the right-most column by its value. */
  function ColFactor(v: int): real
  {
    v as real / 100.0
  }

  /** Row blend: weight f at row 0, moving linearly to 1 - f at the last row. */
  function RowInterp(f: real, r: int): real
  {
    var t := r as real / (ROWS - 1) as real;
    f * (1.0 - t) + (1.0 - f) * t
  }

  /** Column blend: weight 1 - g at column 0, moving linearly to g at the last column. */
  function ColInterp(g: real, c: int): real
  {
    var t := c as real / (COLS - 1) as real;
    g * t + (1.0 - g) * (1.0 - t)
  }

  /** The value a mix of t places between lo and hi. */
  function Lerp(lo: real, hi: real, t: real): real
  {
    lo + t * (hi - lo)
  }

  /** The mix in [0, 1] a row slider and a column slider give row r, column c: the product of the two blends. */
  function Mix(rowSlider: int, colSlider: int, r: int, c: int): real
  {
    RowInterp(RowFactor(rowSlider), r) * ColInterp(ColFactor(colSlider), c)
  }

  /** The cell the sliders give to row r, column c. */
  function DistributedCell(s: Sliders, r: int, c: int): Cell
  {
    Cell(Lerp(ARM_MIN, ARM_MAX, Mix(s.rowLength, s.colLength, r, c)), Lerp(PEN_MIN, PEN_MAX, Mix(s.rowWidth, s.colWidth, r, c)))
  }

  /** Sliders in range give weights in [0, 1]. */
  lemma FactorsInUnit(v: int)
    requires SliderInRange(v)
    ensures 0.0 <= RowFactor(v) <= 1.0 && 0.0 <= ColFactor(v) <= 1.0
  {
  }

  lemma MulNonNegative(x: real, y: real)
    requires 0.0 <= x && 0.0 <= y
    ensures 0.0 <= x * y
  {
  }

  /** A blend of f and 1 - f with weights in [0, 1] is itself in [0, 1]. */
  lemma BlendInUnit(f: real, t: real)
    requires 0.0 <= f <= 1.0 && 0.0 <= t <= 1.0
    ensures 0.0 <= f * (1.0 - t) + (1.0 - f) * t <= 1.0
  {
    MulNonNegative(f, 1.0 - t);
    MulNonNegative(1.0 - f, 1.0 - t);
    MulNonNegative(1.0 - f, t);
    MulNonNegative(f, t);
    assert f * (1.0 - t) + (1.0 - f) * (1.0 - t) == 1.0 - t;
    assert (1.0 - f) * t + f * t == t;
  }

  /** Both blends stay in [0, 1] on the table. */
  lemma InterpsInUnit(f: real, r: int, c: int)
    requires 0.0 <= f <= 1.0 && InGrid(r, c)
    ensures 0.0 <= RowInterp(f, r) <= 1.0 && 0.0 <= ColInterp(f, c) <= 1.0
  {
    BlendInUnit(f, r as real / (ROWS - 1) as real);
    BlendInUnit(1.0 - f, c as real / (COLS - 1) as real);
  }

  /** The product of two weights in [0, 1] is in [0, 1]. */
  lemma ProductInUnit(a: real, b: real)
    requires 0.0 <= a <= 1.0 && 0.0 <= b <= 1.0
    ensures 0.0 <= a * b <= 1.0
  {
    MulNonNegative(a, b);
    MulNonNegative(a, 1.0 - b);
    MulNonNegative(1.0 - a, b);
    assert a * b + a * (1.0 - b) == a;
  }

  /** A mix in [0, 1] places the value between lo and hi. */
  lemma LerpInRange(lo: real, hi: real, t: real)
    requires lo <= hi && 0.0 <= t <= 1.0
    ensures lo <= Lerp(lo, hi, t) <= hi
  {
    MulNonNegative(t, hi - lo);
    MulNonNegative(1.0 - t, hi - lo);
    assert t * (hi - lo) + (1.0 - t) * (hi - lo) == hi - lo;
  }

  lemma MixInUnit(rowSlider: int, colSlider: int, r: int, c: int)
    requires SliderInRange(rowSlider) && SliderInRange(colSlider) && InGrid(r, c)
    ensures 0.0 <= Mix(rowSlider, colSlider, r, c) <= 1.0
  {
    FactorsInUnit(rowSlider);
    FactorsInUnit(colSlider);
    InterpsInUnit(RowFactor(rowSlider), r, c);
    InterpsInUnit(ColFactor(colSlider), r, c);
    ProductInUnit(RowInterp(RowFactor(rowSlider), r), ColInterp(ColFactor(colSlider), c));
  }

  /** Sliders in range put every cell's arm length in [ARM_MIN, ARM_MAX] and width in [PEN_MIN, PEN_MAX]. */
  lemma DistributedCellInRange(s: Sliders, r: int, c: int)
    requires SlidersInRange(s) && InGrid(r, c)
    ensures ARM_MIN <= DistributedCell(s, r, c).armLength <= ARM_MAX
    ensures PEN_MIN <= DistributedCell(s, r, c).penWidth <= PEN_MAX
  {
    MixInUnit(s.rowLength, s.colLength, r, c);
    MixInUnit(s.rowWidth, s.colWidth, r, c);
    LerpInRange(ARM_MIN, ARM_MAX, Mix(s.rowLength, s.colLength, r, c));
    LerpInRange(PEN_MIN, PEN_MAX, Mix(s.rowWidth, s.colWidth, r, c));
  }

  /** The sliders set the blend at the edges of the table. */
  lemma InterpEndpoints(f: real)
    ensures RowInterp(f, 0) == f && RowInterp(f, ROWS - 1) == 1.0 - f
    ensures ColInterp(f, 0) == 1.0 - f && ColInterp(f, COLS - 1) == f
  {
  }

  /**
    All four sliders at 50 give every cell the same values: each blend is 1/2, the mix 1/4,
    so the arm length is 3 + 27/4 and the width 1 + 14/4 (a quarter of each range, not its middle).
  */
  lemma NeutralSlidersAreUniform(r: int, c: int)
    ensures DistributedCell(Sliders(50, 50, 50, 50), r, c) == Cell(9.75, 4.5)
    ensures DistributedCell(Sliders(50, 50, 50, 50), r, c) != Cell((ARM_MIN + ARM_MAX) / 2.0, (PEN_MIN + PEN_MAX) / 2.0)
  {
    assert RowInterp(0.5, r) == 0.5;
    assert ColInterp(0.5, c) == 0.5;
  }

  /** The bounds are reached: both maxima at the top-right corner, both minima at the top-left one. */
  lemma RangeBoundsAttained()
    ensures DistributedCell(Sliders(0, 0, 100, 100), 0, COLS - 1) == Cell(ARM_MAX, PEN_MAX)
    ensures DistributedCell(Sliders(100, 100, 100, 100), 0, 0) == Cell(ARM_MIN, PEN_MIN)
  {
  }
}
