/** The raylib value types the core uses, over integers: every coordinate the core builds is
    a whole number held in an `f32`. */
module Geometry {

  datatype Vector2 = Vector2(x: int, y: int) {
    function Plus(o: Vector2): Vector2 { Vector2(x + o.x, y + o.y) }
    function Minus(o: Vector2): Vector2 { Vector2(x - o.x, y - o.y) }
    /** `Vector2::length_sqr`. */
    function LengthSqr(): nat { x * x + y * y }
  }

  function Zero(): Vector2 { Vector2(0, 0) }

  datatype Rectangle = Rectangle(x: int, y: int, width: int, height: int)

  /** raylib's `CheckCollisionRecs`: the two half-open boxes share interior area. */
  predicate CheckCollisionRecs(a: Rectangle, b: Rectangle) {
    a.x < b.x + b.width && a.x + a.width > b.x &&
    a.y < b.y + b.height && a.y + a.height > b.y
  }
}
