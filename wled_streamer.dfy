/**
 * The game's LED streamer. The device firmware's own 2D configuration handles
 * the panel layout, so the streamer addresses LEDs in plain row-major order
 * and only has to lay the downscaled frame out in that order.
 */
module WledStream {
  import opened Wrappers
  import opened LedMatrix

  /** LED index of matrix cell (x, y) under the firmware's 2D layout. */
  function RowMajorIndex(x: int, y: int): (i: int)
    ensures InGrid(x, y) ==> 0 <= i < LedCount
  {
    y * Width + x
  }

  /** The cell that LED i shows: the inverse of RowMajorIndex. */
  function RowMajorPoint(i: int): (p: Point)
    requires 0 <= i < LedCount
    ensures InGrid(p.x, p.y) && RowMajorIndex(p.x, p.y) == i
  {
    Point(i % Width, i / Width)
  }

  lemma RowMajorPointOfIndex(x: int, y: int)
    requires InGrid(x, y)
    ensures RowMajorPoint(RowMajorIndex(x, y)) == Point(x, y)
  {
    var i := RowMajorIndex(x, y);
    assert i / Width == y && i % Width == x;
  }

  /**
   * No two matrix cells share an LED; with RowMajorPoint this makes the
   * mapping a bijection from the 16 x 8 grid onto [0, LedCount).
   */
  lemma RowMajorInjective(x1: int, y1: int, x2: int, y2: int)
    requires InGrid(x1, y1) && InGrid(x2, y2)
    requires RowMajorIndex(x1, y1) == RowMajorIndex(x2, y2)
    ensures x1 == x2 && y1 == y2
  {
    RowMajorPointOfIndex(x1, y1);
    RowMajorPointOfIndex(x2, y2);
  }

  /**
   * A downscaled frame, indexed frame[y][x], has every pixel the streamer reads;
   * otherwise reading it raises and the send is abandoned.
   */
  predicate CoversMatrix(frame: seq<seq<Rgb>>) {
    |frame| >= Height && forall y :: 0 <= y < Height ==> |frame[y]| >= Width
  }

  /**
   * Lays frame out in LED order and posts it. `sent` is the LED list that is
   * posted (None when reading the frame failed before anything was posted);
   * `accepted` stands for the device answering with status 200, which this
   * model does not compute. The result reports whether both happened.
   */
  method SendFrameToWled(frame: seq<seq<Rgb>>, accepted: bool) returns (ok: bool, sent: Option<seq<Rgb>>)
    ensures sent.Some? <==> CoversMatrix(frame)
    ensures sent.Some? ==>
      CoversMatrix(frame) && |sent.value| == LedCount &&
      forall x, y :: InGrid(x, y) ==> sent.value[RowMajorIndex(x, y)] == frame[y][x]
    ensures ok <==> sent.Some? && accepted
  {
    var orderedLeds := new Option<Rgb>[LedCount](_ => None);
    var y := 0;
    while y < Height
      invariant 0 <= y <= Height
      invariant y <= |frame| && forall y' :: 0 <= y' < y ==> |frame[y']| >= Width
      invariant forall i :: 0 <= i < LedCount ==> (orderedLeds[i].Some? <==> i < y * Width)
      invariant forall x', y' :: InGrid(x', y') && y' < y ==>
        orderedLeds[RowMajorIndex(x', y')] == Some(frame[y'][x'])
    {
      var x := 0;
      while x < Width
        invariant 0 <= x <= Width
        invariant x > 0 ==> y < |frame| && x <= |frame[y]|
        invariant forall i :: 0 <= i < LedCount ==> (orderedLeds[i].Some? <==> i < y * Width + x)
        invariant forall x', y' :: InGrid(x', y') && VisitedBefore(Point(x', y'), x, y) ==>
          orderedLeds[RowMajorIndex(x', y')] == Some(frame[y'][x'])
      {
        if y >= |frame| || x >= |frame[y]| {
          // frame_data[y, x] raises; the exception is swallowed and nothing is posted
          return false, None;
        }
        var pixel := frame[y][x];
        var idx := RowMajorIndex(x, y);
        orderedLeds[idx] := Some(Rgb(pixel.r, pixel.g, pixel.b));
        x := x + 1;
      }
      y := y + 1;
    }
    assert forall i :: 0 <= i < LedCount ==> orderedLeds[i].Some?;
    var leds := seq(LedCount, i requires 0 <= i < LedCount && orderedLeds[i].Some? reads orderedLeds => orderedLeds[i].value);
    sent := Some(leds);
    ok := accepted;
  }
}
