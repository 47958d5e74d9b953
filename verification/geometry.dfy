/** The `embedded_graphics` values the graphics code reads: points, sizes,
    rectangles and colours, as plain records. */
module Geometry {
  import opened MachineInts

  datatype Point = Point(x: i32, y: i32)

  datatype Size = Size(width: u32, height: u32)

  datatype Rectangle = Rectangle(topLeft: Point, size: Size)

  /** An `RgbColor`'s `r()`, `g()` and `b()`, as bytes. */
  datatype Rgb = Rgb(r: u8, g: u8, b: u8)

  const I32_MIN: int := -0x8000_0000

  /** `Point::abs`. `i32::abs` overflows on `i32::MIN`, so that value is
      excluded. */
  function Abs(p: Point): (q: Point)
    requires p.x != I32_MIN && p.y != I32_MIN
    ensures q.x >= 0 && q.y >= 0
    ensures q.x == p.x || q.x == -p.x
    ensures q.y == p.y || q.y == -p.y
  {
    Point(if p.x < 0 then -p.x else p.x, if p.y < 0 then -p.y else p.y)
  }
}
