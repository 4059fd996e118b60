/** Screen rectangles with inclusive corners. */
module Geometry {

  datatype Rect = Rect(x1: int, y1: int, x2: int, y2: int) {
    predicate Contains(x: int, y: int) {
      x1 <= x <= x2 && y1 <= y <= y2
    }
  }
}
