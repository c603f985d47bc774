/**
 * The calibration tool's own LED addressing for two 8 x 8 panels with
 * horizontal serpentine wiring: panel 0 (columns 0-7) starts at the top-left,
 * panel 1 (columns 8-15) starts at the bottom-right. Test patterns are laid
 * out through this mapping into a 128-LED buffer that starts all black.
 */
module Calibrate {
  import opened Wrappers
  import opened LedMatrix

  /** Columns (and rows) of one panel. */
  const PanelWidth: int := 8
  /** LEDs in one panel; panel 1's indices start here. */
  const PanelLeds: int := 64

  /**
   * LED index of matrix cell (x, y). Python's `%` and Dafny's agree here,
   * because the divisor is positive.
   */
  function LedIndex(x: int, y: int): (i: int)
    ensures InGrid(x, y) ==> 0 <= i < LedCount
    ensures InGrid(x, y) ==> (i < PanelLeds <==> x < PanelWidth)
  {
    if x < 8 then
      // panel 0: top-left start, serpentine
      if y % 2 == 0 then y * 8 + x else y * 8 + (7 - x)
    else
      // panel 1: bottom-right start, serpentine
      var px := x - 8;
      var pyFromBottom := 7 - y;
      var localIndex := if pyFromBottom % 2 == 0 then pyFromBottom * 8 + (7 - px) else pyFromBottom * 8 + px;
      64 + localIndex
  }

  /** The matrix cell that LED i lights: the inverse of LedIndex. */
  function LedPoint(i: int): (p: Point)
    requires 0 <= i < LedCount
    ensures InGrid(p.x, p.y) && LedIndex(p.x, p.y) == i
  {
    if i < PanelLeds then
      var row, col := i / PanelWidth, i % PanelWidth;
      Point(if row % 2 == 0 then col else 7 - col, row)
    else
      var rowFromBottom, col := (i - PanelLeds) / PanelWidth, (i - PanelLeds) % PanelWidth;
      Point(PanelWidth + (if rowFromBottom % 2 == 0 then 7 - col else col), 7 - rowFromBottom)
  }

  lemma LedPointOfIndex(x: int, y: int)
    requires InGrid(x, y)
    ensures LedPoint(LedIndex(x, y)) == Point(x, y)
  {
    var i := LedIndex(x, y);
    if x < PanelWidth {
      assert i / PanelWidth == y;
    } else {
      assert (i - PanelLeds) / PanelWidth == 7 - y;
    }
  }

  /**
   * Every LED is addressed exactly once: distinct cells get distinct LEDs,
   * and (by LedPoint) every LED in [0, LedCount) is some cell's.
   */
  lemma LedIndexInjective(x1: int, y1: int, x2: int, y2: int)
    requires InGrid(x1, y1) && InGrid(x2, y2)
    requires LedIndex(x1, y1) == LedIndex(x2, y2)
    ensures x1 == x2 && y1 == y2
  {
    LedPointOfIndex(x1, y1);
    LedPointOfIndex(x2, y2);
  }

  /** Cells one step apart horizontally or vertically. */
  predicate Adjacent(p: Point, q: Point) {
    (p.y == q.y && (p.x - q.x == 1 || q.x - p.x == 1)) ||
    (p.x == q.x && (p.y - q.y == 1 || q.y - p.y == 1))
  }

  /** Panel 0's strand starts at the top-left cell and panel 1's at the bottom-right cell. */
  lemma StrandStarts()
    ensures LedPoint(0) == Point(0, 0)
    ensures LedPoint(PanelLeds) == Point(Width - 1, Height - 1)
  {
  }

  /**
   * The wiring is a horizontal serpentine: within each panel, consecutive LEDs
   * light neighbouring cells.
   */
  lemma SerpentineWiring(i: int)
    requires 0 <= i < LedCount - 1 && i != PanelLeds - 1
    ensures Adjacent(LedPoint(i), LedPoint(i + 1))
  {
    var j := if i < PanelLeds then i else i - PanelLeds;
    var row, col := j / PanelWidth, j % PanelWidth;
    if col < 7 {
      assert (j + 1) / PanelWidth == row && (j + 1) % PanelWidth == col + 1;
    } else {
      assert (j + 1) / PanelWidth == row + 1 && (j + 1) % PanelWidth == 0;
    }
  }

  /** The buffer clear_matrix sends: LedCount LEDs, all off. */
  function ClearMatrix(): (leds: seq<Rgb>)
    ensures |leds| == LedCount
    ensures forall i :: 0 <= i < |leds| ==> leds[i] == Black
  {
    seq(LedCount, _ => Black)
  }

  /** A test pattern: the colour for a cell, or None for a falsy result. */
  type Pattern = (int, int) -> Option<Rgb>

  /** What a pattern puts on one cell's LED: its colour, or black when it gives none. */
  function Painted(pattern: Pattern, p: Point): Rgb {
    match pattern(p.x, p.y)
    case Some(c) => c
    case None => Black
  }

  /**
   * The buffer show_xy_pattern sends: every cell the pattern colours is shown
   * on that cell's LED, and every other LED stays black.
   */
  function PatternFrame(pattern: Pattern): (leds: seq<Rgb>)
    ensures |leds| == LedCount
    ensures forall x, y :: InGrid(x, y) && pattern(x, y).Some? ==> leds[LedIndex(x, y)] == pattern(x, y).value
    ensures forall x, y :: InGrid(x, y) && pattern(x, y).None? ==> leds[LedIndex(x, y)] == Black
  {
    var leds := seq(LedCount, i requires 0 <= i < LedCount => Painted(pattern, LedPoint(i)));
    assert forall x, y :: InGrid(x, y) ==> leds[LedIndex(x, y)] == Painted(pattern, Point(x, y)) by {
      forall x, y | InGrid(x, y) ensures leds[LedIndex(x, y)] == Painted(pattern, Point(x, y)) {
        LedPointOfIndex(x, y);
      }
    }
    leds
  }

  /** A pattern that colours nothing leaves the matrix exactly as clear_matrix does. */
  lemma BlankPatternClears(pattern: Pattern)
    requires forall x, y :: pattern(x, y) == None
    ensures PatternFrame(pattern) == ClearMatrix()
  {
    var leds := PatternFrame(pattern);
    forall i | 0 <= i < LedCount ensures leds[i] == Black {
      var p := LedPoint(i);
      assert pattern(p.x, p.y) == None;
    }
  }

  /** Lays a pattern out on a fresh all-black buffer, visiting cells row by row. */
  method ShowXyPattern(pattern: Pattern) returns (leds: seq<Rgb>)
    ensures leds == PatternFrame(pattern)
  {
    var buffer := new Rgb[LedCount](_ => Black);
    var y := 0;
    while y < Height
      invariant 0 <= y <= Height
      invariant forall i :: 0 <= i < LedCount ==>
        buffer[i] == if VisitedBefore(LedPoint(i), 0, y) then Painted(pattern, LedPoint(i)) else Black
    {
      var x := 0;
      while x < Width
        invariant 0 <= x <= Width
        invariant forall i :: 0 <= i < LedCount ==>
          buffer[i] == if VisitedBefore(LedPoint(i), x, y) then Painted(pattern, LedPoint(i)) else Black
      {
        LedPointOfIndex(x, y);
        var color := pattern(x, y);
        if color.Some? {
          var idx := LedIndex(x, y);
          buffer[idx] := color.value;
        }
        x := x + 1;
      }
      y := y + 1;
    }
    leds := buffer[..];
    assert forall i :: 0 <= i < LedCount ==> leds[i] == PatternFrame(pattern)[i];
  }
}
