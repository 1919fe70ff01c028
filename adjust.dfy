/**
  The clamped update each mouse handler applies to the one cell under the pointer:
  a left click widens the pen, a right click narrows it, the wheel lengthens or
  shortens the arms.
*/
module Adjust {
  import opened Grid

  /** The two-argument Math.min and Math.max of the handlers. */
  function Min(a: real, b: real): real { if a <= b then a else b }
  function Max(a: real, b: real): real { if a >= b then a else b }

  /** Left click: one pixel wider, capped at PEN_MAX. */
  function ClickedPen(p: real): (q: real)
    ensures q <= PEN_MAX
    ensures p + 1.0 <= PEN_MAX ==> q == p + 1.0
    ensures p + 1.0 > PEN_MAX ==> q == PEN_MAX
  {
    Min(p + 1.0, PEN_MAX)
  }

  /** Right click: one pixel narrower, floored at 0 (not at PEN_MIN), so the cross can vanish. */
  function RightClickedPen(p: real): (q: real)
    ensures q >= PEN_FLOOR
    ensures p - 1.0 >= PEN_FLOOR ==> q == p - 1.0
    ensures p - 1.0 < PEN_FLOOR ==> q == PEN_FLOOR
  {
    Max(p - 1.0, 0.0)
  }

  /** The wheel's step: scrolling up (negative delta) adds one; any other delta, zero included, takes one. */
  function ArmStep(deltaY: real): real
  {
    if deltaY < 0.0 then 1.0 else -1.0
  }

  /** Wheel: step the arm length, then clamp it into [ARM_MIN, ARM_MAX]. */
  function ScrolledArm(a: real, deltaY: real): (q: real)
    ensures ARM_MIN <= q <= ARM_MAX
    ensures ARM_MIN <= a + ArmStep(deltaY) <= ARM_MAX ==> q == a + ArmStep(deltaY)
    ensures a + ArmStep(deltaY) < ARM_MIN ==> q == ARM_MIN
    ensures a + ArmStep(deltaY) > ARM_MAX ==> q == ARM_MAX
  {
    Max(ARM_MIN, Min(ARM_MAX, a + ArmStep(deltaY)))
  }

  /** The three handlers keep a cell in range; each one changes a single field. */
  lemma AdjustKeepsCellInRange(cell: Cell, deltaY: real)
    requires CellInRange(cell)
    ensures CellInRange(cell.(penWidth := ClickedPen(cell.penWidth)))
    ensures CellInRange(cell.(penWidth := RightClickedPen(cell.penWidth)))
    ensures CellInRange(cell.(armLength := ScrolledArm(cell.armLength, deltaY)))
  {
  }

  /**
    The wheel rule on an in-range arm length: a negative delta lengthens by one up to ARM_MAX;
    any other delta, zero included, shortens by one down to ARM_MIN.
  */
  lemma WheelRule(a: real, deltaY: real)
    requires ARM_MIN <= a <= ARM_MAX
    ensures deltaY < 0.0 ==> ScrolledArm(a, deltaY) == Min(a + 1.0, ARM_MAX)
    ensures deltaY >= 0.0 ==> ScrolledArm(a, deltaY) == Max(ARM_MIN, a - 1.0)
    ensures ScrolledArm(a, 0.0) == Max(ARM_MIN, a - 1.0)
  {
  }

  /** Scrolling up from 15 gives 16, scrolling down gives 14. */
  lemma ScrollExample()
    ensures ScrolledArm(15.0, -5.0) == 16.0 && ScrolledArm(15.0, 5.0) == 14.0
  {
  }

  /** The width after n left clicks. */
  function ClickedTimes(p: real, n: nat): real
  {
    if n == 0 then p else ClickedPen(ClickedTimes(p, n - 1))
  }

  /** The width after n right clicks. */
  function RightClickedTimes(p: real, n: nat): real
  {
    if n == 0 then p else RightClickedPen(RightClickedTimes(p, n - 1))
  }

  /** The arm length after one wheel event per delta, in order. */
  function ScrolledMany(a: real, deltas: seq<real>): real
  {
    if deltas == [] then a else ScrolledArm(ScrolledMany(a, deltas[..|deltas| - 1]), deltas[|deltas| - 1])
  }

  /** n left clicks add n and never pass PEN_MAX. */
  lemma {:induction false} ClickedTimesIsCapped(p: real, n: nat)
    requires p <= PEN_MAX
    ensures ClickedTimes(p, n) == Min(p + n as real, PEN_MAX)
  {
    if n > 0 {
      ClickedTimesIsCapped(p, n - 1);
    }
  }

  /** n right clicks take n and never pass below 0. */
  lemma {:induction false} RightClickedTimesIsFloored(p: real, n: nat)
    requires p >= PEN_FLOOR
    ensures RightClickedTimes(p, n) == Max(p - n as real, PEN_FLOOR)
  {
    if n > 0 {
      RightClickedTimesIsFloored(p, n - 1);
    }
  }

  /** Any run of wheel events leaves an in-range arm length in range. */
  lemma ScrolledManyInRange(a: real, deltas: seq<real>)
    requires ARM_MIN <= a <= ARM_MAX
    ensures ARM_MIN <= ScrolledMany(a, deltas) <= ARM_MAX
  {
  }

  /** Scrolling up k times adds k, capped at ARM_MAX. */
  lemma {:induction false} ScrolledUpIsCapped(a: real, deltas: seq<real>)
    requires ARM_MIN <= a <= ARM_MAX
    requires forall i :: 0 <= i < |deltas| ==> deltas[i] < 0.0
    ensures ScrolledMany(a, deltas) == Min(a + |deltas| as real, ARM_MAX)
  {
    if deltas != [] {
      ScrolledUpIsCapped(a, deltas[..|deltas| - 1]);
    }
  }

  /** Scrolling down (or with a zero delta) k times takes k, floored at ARM_MIN. */
  lemma {:induction false} ScrolledDownIsFloored(a: real, deltas: seq<real>)
    requires ARM_MIN <= a <= ARM_MAX
    requires forall i :: 0 <= i < |deltas| ==> deltas[i] >= 0.0
    ensures ScrolledMany(a, deltas) == Max(a - |deltas| as real, ARM_MIN)
  {
    if deltas != [] {
      ScrolledDownIsFloored(a, deltas[..|deltas| - 1]);
    }
  }
}
