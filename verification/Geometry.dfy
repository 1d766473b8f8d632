/** Rectangles of the compositor: unsigned 32-bit corners, sums taken modulo 2^32. */
module Geometry {

  type uint32 = n: int | 0 <= n < 0x1_0000_0000

  datatype Rect = Rect(x: uint32, y: uint32, width: uint32, height: uint32)

  function Add32(a: uint32, b: uint32): uint32 {
    if a + b < 0x1_0000_0000 then a + b else a + b - 0x1_0000_0000
  }

  function Right(r: Rect): uint32 { Add32(r.x, r.width) }

  function Bottom(r: Rect): uint32 { Add32(r.y, r.height) }

  /** The pixels a rectangle stands for. */
  predicate Contains(r: Rect, x: int, y: int) {
    r.x <= x < Right(r) && r.y <= y < Bottom(r)
  }

  /** No corner sum wraps around. */
  predicate Fits(r: Rect) {
    r.x + r.width < 0x1_0000_0000 && r.y + r.height < 0x1_0000_0000
  }

  const Nothing := Rect(0, 0, 0, 0)

  predicate Empty(r: Rect) {
    r.width == 0 || r.height == 0
  }

  function Min(a: uint32, b: uint32): uint32 { if a < b then a else b }

  function Max(a: uint32, b: uint32): uint32 { if a > b then a else b }

  function IntersectRect(a: Rect, b: Rect): (r: Rect)
    ensures Fits(r) && Right(r) <= Right(b) && Bottom(r) <= Bottom(b)
    ensures forall x, y :: Contains(r, x, y) <==> Contains(a, x, y) && Contains(b, x, y)
    ensures Empty(r) ==> r == Nothing
  {
    var x1, y1 := Max(a.x, b.x), Max(a.y, b.y);
    var x2, y2 := Min(Right(a), Right(b)), Min(Bottom(a), Bottom(b));
    if x2 <= x1 || y2 <= y1 then Nothing else Rect(x1, y1, x2 - x1, y2 - y1)
  }

  /** A 32-bit word read as a signed number. */
  function ToInt32(n: uint32): int {
    if n < 0x8000_0000 then n else n - 0x1_0000_0000
  }

  /** The hit test of the program, which compares signed coordinates. */
  predicate PointInRect(x: int, y: int, r: Rect) {
    ToInt32(r.x) <= x < ToInt32(Right(r)) && ToInt32(r.y) <= y < ToInt32(Bottom(r))
  }
}
