/** The one piece of XNA geometry the hat grid uses: integer rectangles. */
module Geometry {

  /** `Microsoft.Xna.Framework.Rectangle`: top-left corner plus size. */
  datatype Rect = Rect(x: int, y: int, width: int, height: int) {

    /** XNA's `Rectangle.Contains(int, int)`: the left and top edges are inside,
        the right and bottom edges are not. */
    predicate Contains(px: int, py: int) {
      x <= px < x + width && y <= py < y + height
    }
  }

  /** `Rectangle.Empty`. */
  const Empty: Rect := Rect(0, 0, 0, 0)
}
