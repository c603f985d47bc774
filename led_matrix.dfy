/**
 * The 16 x 8 LED matrix shared by the game streamer and the calibration tool:
 * its dimensions, colours and grid coordinates.
 */
module LedMatrix {

  /** Matrix columns (MATRIX_WIDTH). */
  const Width: int := 16
  /** Matrix rows (MATRIX_HEIGHT). */
  const Height: int := 8
  /** Number of addressable LEDs: 128. */
  const LedCount: int := Width * Height

  /** One 8-bit colour channel. */
  type Byte = b: int | 0 <= b < 256

  /** A colour as the device protocol sends it: an [r, g, b] triple of bytes. */
  datatype Rgb = Rgb(r: Byte, g: Byte, b: Byte)

  /** An LED that is off. */
  const Black: Rgb := Rgb(0, 0, 0)

  /** A (column, row) coordinate on the matrix; row 0 is the top. */
  datatype Point = Point(x: int, y: int)

  predicate InGrid(x: int, y: int) {
    0 <= x < Width && 0 <= y < Height
  }

  /** Row-major visiting order of the nested `for y: for x:` loops: p comes before (x, y). */
  predicate VisitedBefore(p: Point, x: int, y: int) {
    p.y < y || (p.y == y && p.x < x)
  }
}
