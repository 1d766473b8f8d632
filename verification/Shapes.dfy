/**
 What the compositor draws, as data: filled rectangles and one-pixel lines, later ones on top.
 Everything the desktop shows (text included, as 2x2 boxes) is a sequence of these.
 */
module Shapes {
  import opened Geometry
  import opened Line

  type Color = uint32

  datatype Shape = Box(rect: Rect, color: Color) | Segment(line: Line, color: Color)

  /** Pixel (x, y) is one of the first n points of the line. */
  ghost predicate OnLine(l: Line, n: nat, x: int, y: int) {
    exists k: nat :: k < n && Point(l, k) == (x, y)
  }

  ghost predicate Covers(s: Shape, x: int, y: int) {
    match s
    case Box(rect, _) => Contains(rect, x, y)
    case Segment(l, _) => OnLine(l, Steps(l) + 1, x, y)
  }

  predicate Renderable(shapes: seq<Shape>) {
    forall i | 0 <= i < |shapes| :: shapes[i].Segment? ==> Drawable(shapes[i].line)
  }

  /** The colour of pixel (x, y) after painting the shapes over a pixel of colour `under`. */
  ghost function Overlay(shapes: seq<Shape>, x: int, y: int, under: Color): Color {
    if shapes == [] then under
    else
      var last := |shapes| - 1;
      if Covers(shapes[last], x, y) then shapes[last].color else Overlay(shapes[..last], x, y, under)
  }

  /** If some shape covers the pixel, what was underneath does not matter. */
  lemma {:induction false} OverlayHides(shapes: seq<Shape>, k: nat, x: int, y: int, under: Color, under': Color)
    requires k < |shapes| && Covers(shapes[k], x, y)
    ensures Overlay(shapes, x, y, under) == Overlay(shapes, x, y, under')
  {
    hide Covers;
    if !Covers(shapes[|shapes| - 1], x, y) {
      OverlayHides(shapes[..|shapes| - 1], k, x, y, under, under');
    }
  }

  /** A pixel no shape covers keeps its colour. */
  lemma {:induction false} OverlayMisses(shapes: seq<Shape>, x: int, y: int, under: Color)
    requires forall k | 0 <= k < |shapes| :: !Covers(shapes[k], x, y)
    ensures Overlay(shapes, x, y, under) == under
  {
    hide Covers;
    if shapes != [] {
      OverlayMisses(shapes[..|shapes| - 1], x, y, under);
    }
  }

  lemma OverlayPush(shapes: seq<Shape>, s: Shape, x: int, y: int, under: Color)
    ensures Overlay(shapes + [s], x, y, under) == if Covers(s, x, y) then s.color else Overlay(shapes, x, y, under)
  {
    assert (shapes + [s])[..|shapes|] == shapes;
  }

  lemma {:induction false} OverlayAppend(a: seq<Shape>, b: seq<Shape>, x: int, y: int, under: Color)
    ensures Overlay(a + b, x, y, under) == Overlay(b, x, y, Overlay(a, x, y, under))
  {
    if b == [] {
      assert a + b == a;
    } else {
      var last := |b| - 1;
      assert a + b == (a + b[..last]) + [b[last]];
      OverlayPush(a + b[..last], b[last], x, y, under);
      OverlayAppend(a, b[..last], x, y, under);
    }
  }

  // ---- the cursor ----

  datatype CursorKind = Arrow | Hand | Move | Resize

  const CURSOR: Color := 0xFFFF_FFFF
  const SHADOW: Color := 0xFF10_1820
  const BACKUP_SIZE := 20

  function At(x: nat, y: nat, dx: nat, dy: nat, width: nat, height: nat, color: Color): Shape
    requires x < 0x8000_0000 && y < 0x8000_0000 && dx < 100 && dy < 100 && width < 100 && height < 100
  {
    Box(Rect(x + dx, y + dy, width, height), color)
  }

  /** The shapes of the cursor whose hot spot is pixel (x, y). */
  function CursorShapes(kind: CursorKind, x: nat, y: nat): seq<Shape>
    requires x < 0x8000_0000 && y < 0x8000_0000
  {
    match kind
    case Hand => [
      At(x, y, 3, 2, 4, 14, SHADOW), At(x, y, 1, 6, 12, 8, SHADOW),
      At(x, y, 2, 1, 4, 14, CURSOR), At(x, y, 0, 5, 12, 8, CURSOR)]
    case Move => [
      Segment(Line(x, y + 8, x + 16, y + 8), CURSOR), Segment(Line(x + 8, y, x + 8, y + 16), CURSOR),
      At(x, y, 7, 7, 3, 3, CURSOR)]
    case _ => [
      At(x, y, 2, 2, 2, 16, SHADOW), At(x, y, 4, 10, 2, 6, SHADOW), At(x, y, 0, 0, 2, 16, CURSOR),
      At(x, y, 2, 2, 2, 12, CURSOR), At(x, y, 4, 4, 2, 8, CURSOR), At(x, y, 6, 6, 2, 4, CURSOR)]
  }

  /** Pixel (px, py) is in the square the cursor backup saves at (x, y). */
  predicate InBackup(x: int, y: int, px: int, py: int) {
    x <= px < x + BACKUP_SIZE && y <= py < y + BACKUP_SIZE
  }

  /** No cursor draws outside its backup square. */
  lemma CursorInsideBackup(kind: CursorKind, x: nat, y: nat, k: nat, px: int, py: int)
    requires x < 0x7FFF_0000 && y < 0x7FFF_0000 && k < |CursorShapes(kind, x, y)|
    requires Covers(CursorShapes(kind, x, y)[k], px, py)
    ensures InBackup(x, y, px, py)
  {
    match CursorShapes(kind, x, y)[k]
    case Box(_, _) =>
    case Segment(l, _) =>
      var step: nat :| step < Steps(l) + 1 && Point(l, step) == (px, py);
      InsideBoundingBox(l, step);
  }

  /** The tip of each cursor is seen, whatever is underneath; no pixel shows anything but cursor, shadow or what is underneath. */
  lemma CursorIsSeen(kind: CursorKind, x: nat, y: nat, px: int, py: int, under: Color)
    requires x < 0x7FFF_0000 && y < 0x7FFF_0000
    ensures var tip := if kind == Hand then (x + 2, y + 1) else if kind == Move then (x + 8, y + 8) else (x, y);
            Overlay(CursorShapes(kind, x, y), tip.0, tip.1, under) == CURSOR
    ensures Overlay(CursorShapes(kind, x, y), px, py, under) in {CURSOR, SHADOW, under}
  {
    var shapes := CursorShapes(kind, x, y);
    var tip := if kind == Hand then (x + 2, y + 1) else if kind == Move then (x + 8, y + 8) else (x, y);
    assert Covers(shapes[2], tip.0, tip.1) && forall k | 2 <= k < |shapes| :: shapes[k].color == CURSOR;
    assert forall k | 0 <= k < |shapes| :: shapes[k].color in {CURSOR, SHADOW};
    hide CursorShapes, Covers;
    ColorSeen(shapes, 2, tip.0, tip.1, under);
    OverlayColor(shapes, px, py, under);
  }

  lemma {:induction false} ColorSeen(shapes: seq<Shape>, k: nat, x: int, y: int, under: Color)
    requires k < |shapes| && Covers(shapes[k], x, y) && forall j | k <= j < |shapes| :: shapes[j].color == shapes[k].color
    ensures Overlay(shapes, x, y, under) == shapes[k].color
  {
    hide Covers;
    if !Covers(shapes[|shapes| - 1], x, y) { ColorSeen(shapes[..|shapes| - 1], k, x, y, under); }
  }

  /** A pixel shows what is underneath, or the colour of one of the shapes. */
  lemma {:induction false} OverlayColor(shapes: seq<Shape>, x: int, y: int, under: Color)
    ensures Overlay(shapes, x, y, under) == under || exists k :: 0 <= k < |shapes| && Covers(shapes[k], x, y) && Overlay(shapes, x, y, under) == shapes[k].color
  {
    hide Covers;
    if shapes != [] && !Covers(shapes[|shapes| - 1], x, y) { OverlayColor(shapes[..|shapes| - 1], x, y, under); }
  }
}
