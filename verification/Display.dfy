/**
 The pixel side of the compositor: framebuffer, back buffer, clip and cursor backup.

 The invariant the screen keeps is `Shows(scene)`: with the cursor lifted off, the framebuffer is
 the scene. Full composition establishes it, a partial redraw and every cursor move keep it.
 */
module Display {
  import opened Geometry
  import opened Line
  import opened Shapes

  const BACK_BUFFER_SIZE := 2048

  class Display {
    const width: nat
    const height: nat
    const framebuffer: array2<Color>  // rows of pixels_per_scanline pixels
    const backBuffer: array2<Color>
    const backBufferReady: bool
    var toBackBuffer: bool
    var clipEnabled: bool
    var clip: Rect
    var fullRedraw: bool
    var mouseX: int
    var mouseY: int
    var cursor: CursorKind
    var backupValid: bool
    var backupX: int
    var backupY: int
    const backup: array2<Color>

    ghost predicate Valid()
      reads this
    {
      && 320 <= width < 0x7FFF_0000 && 200 <= height < 0x7FFF_0000
      && framebuffer.Length0 >= height && framebuffer.Length1 >= width
      && backBuffer.Length0 == backBuffer.Length1 == BACK_BUFFER_SIZE
      && backup.Length0 == backup.Length1 == BACKUP_SIZE
      && framebuffer != backBuffer && framebuffer != backup && backBuffer != backup
      && backBufferReady == (width <= BACK_BUFFER_SIZE && height <= BACK_BUFFER_SIZE)
      && (toBackBuffer ==> backBufferReady)
      && Fits(clip) && Right(clip) <= width && Bottom(clip) <= height
    }

    /** Graphics start-up on a framebuffer that passed the boot-time checks. */
    constructor (screen: array2<Color>, width: nat, height: nat)
      requires 320 <= width < 0x7FFF_0000 && 200 <= height < 0x7FFF_0000
      requires screen.Length0 >= height && screen.Length1 >= width
      ensures Valid() && framebuffer == screen && this.width == width && this.height == height
      ensures !toBackBuffer && !backupValid && OnScreen(mouseX, mouseY)
      ensures fresh(backBuffer) && fresh(backup)
    {
      this.width, this.height := width, height;
      framebuffer := screen;
      backBuffer := new Color[BACK_BUFFER_SIZE, BACK_BUFFER_SIZE];
      backBufferReady := width <= BACK_BUFFER_SIZE && height <= BACK_BUFFER_SIZE;
      toBackBuffer, clipEnabled, clip, fullRedraw := false, false, Nothing, true;
      mouseX, mouseY, cursor := width / 2, height / 2, Arrow;
      backupValid, backupX, backupY := false, 0, 0;
      backup := new Color[BACKUP_SIZE, BACKUP_SIZE];
    }

    function Target(): array2<Color>
      reads this
    {
      if toBackBuffer then backBuffer else framebuffer
    }

    function Screen(): Rect
      requires width < 0x7FFF_0000 && height < 0x7FFF_0000
    {
      Rect(0, 0, width, height)
    }

    predicate OnScreen(x: int, y: int) {
      0 <= x < width && 0 <= y < height
    }

    predicate Between(from: int, a: int, to: int) {
      from <= a <= to || to <= a <= from
    }

    /** Pixels that drawing may change at the moment. */
    predicate Open(x: int, y: int)
      reads this
    {
      OnScreen(x, y) && (clipEnabled ==> Contains(clip, x, y))
    }

    method DrawPixel(x: nat, y: nat, color: Color)
      requires Valid()
      modifies Target()
      ensures forall py, px | 0 <= py < Target().Length0 && 0 <= px < Target().Length1 ::
                Target()[py, px] == if px == x && py == y && Open(x, y) then color else old(Target()[py, px])
    {
      if x >= width || y >= height {
        return;
      }
      if clipEnabled && !PointInRect(x, y, clip) {
        return;
      }
      var target := Target();
      target[y, x] := color;
    }

    method FillRect(rect: Rect, color: Color)
      requires Valid()
      modifies Target()
      ensures forall py, px | 0 <= py < Target().Length0 && 0 <= px < Target().Length1 ::
                Target()[py, px] == if Contains(rect, px, py) && Open(px, py) then color else old(Target()[py, px])
    {
      var maxX, maxY := Right(rect), Bottom(rect);
      var y: nat := rect.y;
      while y < maxY && y < height
        invariant rect.y <= y && (y <= maxY || y == rect.y)
        invariant forall py, px | 0 <= py < Target().Length0 && 0 <= px < Target().Length1 ::
            Target()[py, px] == if Contains(rect, px, py) && py < y && Open(px, py) then color else old(Target()[py, px])
        decreases height - y
      {
        var x: nat := rect.x;
        while x < maxX && x < width
          invariant rect.x <= x && (x <= maxX || x == rect.x)
          invariant forall py, px | 0 <= py < Target().Length0 && 0 <= px < Target().Length1 ::
              Target()[py, px] == if Contains(rect, px, py) && (py < y || (py == y && px < x)) && Open(px, py) then color else old(Target()[py, px])
          decreases width - x
        {
          DrawPixel(x, y, color);
          x := x + 1;
        }
        y := y + 1;
      }
    }

    method DrawLine(l: Line, color: Color)
      requires Valid() && Drawable(l)
      modifies Target()
      ensures forall py, px | 0 <= py < Target().Length0 && 0 <= px < Target().Length1 ::
                Target()[py, px] == if OnLine(l, Steps(l) + 1, px, py) && Open(px, py) then color else old(Target()[py, px])
    {
      hide Across, Down, Error, Point, Steps;
      var dx := if l.x1 > l.x0 then l.x1 - l.x0 else l.x0 - l.x1;
      var sx := if l.x0 < l.x1 then 1 else -1;
      var dy := if l.y1 > l.y0 then l.y0 - l.y1 else l.y1 - l.y0;
      var sy := if l.y0 < l.y1 then 1 else -1;
      var err := dx + dy;
      var x, y := l.x0, l.y0;
      ghost var k: nat := 0;
      LineStart(l);
      while true
        invariant k <= Steps(l) && Point(l, k) == (x, y) && err == Error(l, k)
        invariant forall py, px | 0 <= py < Target().Length0 && 0 <= px < Target().Length1 ::
            Target()[py, px] == if OnLine(l, k, px, py) && Open(px, py) then color else old(Target()[py, px])
        decreases Steps(l) - k
      {
        if x >= 0 && y >= 0 {
          DrawPixel(x, y, color);
        }
        OnLineNext(l, k);
        Endpoints(l, k);
        if x == l.x1 && y == l.y1 {
          break;
        }
        LineAdvance(l, k);
        var e2 := 2 * err;
        assert Int32(e2);
        if e2 >= dy {
          err := err + dy;
          x := x + sx;
        }
        assert Int32(err);
        if e2 <= dx {
          err := err + dx;
          y := y + sy;
        }
        assert Int32(err);
        k := k + 1;
      }
    }

    /** Painting a list of shapes: each open pixel gets the topmost shape's colour, no other pixel changes. */
    method DrawShapes(shapes: seq<Shape>)
      requires Valid() && Renderable(shapes)
      modifies Target()
      ensures forall py, px | 0 <= py < Target().Length0 && 0 <= px < Target().Length1 ::
                Target()[py, px] == if Open(px, py) then Overlay(shapes, px, py, old(Target()[py, px])) else old(Target()[py, px])
    {
      for i := 0 to |shapes|
        invariant forall py, px | 0 <= py < Target().Length0 && 0 <= px < Target().Length1 ::
            Target()[py, px] == if Open(px, py) then Overlay(shapes[..i], px, py, old(Target()[py, px])) else old(Target()[py, px])
      {
        match shapes[i] {
          case Box(rect, color) => FillRect(rect, color);
          case Segment(l, color) => DrawLine(l, color);
        }
        assert shapes[..i + 1][..i] == shapes[..i];
      }
      assert shapes[..|shapes|] == shapes;
    }

    method BeginDrawToFramebuffer()
      requires Valid()
      modifies `toBackBuffer, `clipEnabled
      ensures Valid() && !toBackBuffer && !clipEnabled
    {
      toBackBuffer := false;
      clipEnabled := false;
    }

    method BeginDrawToBackBuffer(rect: Rect)
      requires Valid() && backBufferReady
      modifies `toBackBuffer, `clipEnabled, `clip
      ensures Valid() && toBackBuffer
      ensures forall x, y :: Open(x, y) <==> OnScreen(x, y) && Contains(rect, x, y)
    {
      toBackBuffer := true;
      clip := IntersectRect(rect, Screen());
      clipEnabled := true;
    }

    method CopyBackBufferToFramebuffer(dirty: Rect)
      requires Valid()
      modifies framebuffer
      ensures forall y, x | 0 <= y < framebuffer.Length0 && 0 <= x < framebuffer.Length1 ::
                framebuffer[y, x] == if backBufferReady && OnScreen(x, y) && Contains(dirty, x, y) then backBuffer[y, x] else old(framebuffer[y, x])
    {
      var clipped := IntersectRect(dirty, Screen());
      if !backBufferReady || Empty(clipped) {
        return;
      }
      var y: nat := clipped.y;
      while y < Bottom(clipped)
        invariant clipped.y <= y <= Bottom(clipped)
        invariant forall py, px | 0 <= py < framebuffer.Length0 && 0 <= px < framebuffer.Length1 ::
            framebuffer[py, px] == if Contains(clipped, px, py) && py < y then backBuffer[py, px] else old(framebuffer[py, px])
      {
        var x: nat := clipped.x;
        while x < Right(clipped)
          invariant clipped.x <= x <= Right(clipped)
          invariant forall py, px | 0 <= py < framebuffer.Length0 && 0 <= px < framebuffer.Length1 ::
              framebuffer[py, px] == if Contains(clipped, px, py) && (py < y || (py == y && px < x)) then backBuffer[py, px] else old(framebuffer[py, px])
        {
          framebuffer[y, x] := backBuffer[y, x];
          x := x + 1;
        }
        y := y + 1;
      }
    }

    // ---- the cursor ----

    /** The framebuffer with the cursor lifted off. */
    function Underneath(x: int, y: int): Color
      requires Valid() && OnScreen(x, y)
      reads this, framebuffer, backup
    {
      if backupValid && InBackup(backupX, backupY, x, y) then backup[y - backupY, x - backupX] else framebuffer[y, x]
    }

    function ReadRawPixel(x: nat, y: nat): Color
      requires Valid()
      reads this, framebuffer
    {
      if x >= width || y >= height then 0 else framebuffer[y, x]
    }

    method SaveCursorBackground()
      requires Valid()
      modifies `backupX, `backupY, `backupValid, backup
      ensures Valid() && backupValid && backupX == mouseX && backupY == mouseY
      ensures forall y, x | 0 <= y < BACKUP_SIZE && 0 <= x < BACKUP_SIZE ::
                backup[y, x] == if OnScreen(mouseX + x, mouseY + y) then framebuffer[mouseY + y, mouseX + x] else 0
    {
      backupX, backupY, backupValid := mouseX, mouseY, true;
      for py := 0 to BACKUP_SIZE
        invariant backupX == mouseX && backupY == mouseY && backupValid
        invariant forall y, x | 0 <= y < py && 0 <= x < BACKUP_SIZE ::
            backup[y, x] == if OnScreen(mouseX + x, mouseY + y) then framebuffer[mouseY + y, mouseX + x] else 0
      {
        for px := 0 to BACKUP_SIZE
          invariant backupX == mouseX && backupY == mouseY && backupValid
          invariant forall y, x | 0 <= y < BACKUP_SIZE && 0 <= x < BACKUP_SIZE && (y < py || (y == py && x < px)) ::
              backup[y, x] == if OnScreen(mouseX + x, mouseY + y) then framebuffer[mouseY + y, mouseX + x] else 0
        {
          var sx, sy := backupX + px, backupY + py;
          backup[py, px] := if sx >= 0 && sy >= 0 then ReadRawPixel(sx, sy) else 0;
        }
      }
    }

    method RestoreCursorBackground()
      requires Valid()
      modifies framebuffer, `backupValid
      ensures Valid() && !backupValid
      ensures forall y, x | 0 <= y < framebuffer.Length0 && 0 <= x < framebuffer.Length1 ::
                framebuffer[y, x] == if OnScreen(x, y) then old(Underneath(x, y)) else old(framebuffer[y, x])
    {
      if !backupValid {
        return;
      }
      for py := 0 to BACKUP_SIZE
        invariant Restored(py, 0)
      {
        for px := 0 to BACKUP_SIZE
          invariant Restored(py, px)
        {
          var sx, sy := backupX + px, backupY + py;
          if sx >= 0 && sy >= 0 && sx < width && sy < height {
            framebuffer[sy, sx] := backup[py, px];
          }
        }
      }
      backupValid := false;
    }

    /** The first `rows` rows of the backup, and `columns` pixels of the next, are back in place. */
    twostate predicate Restored(rows: int, columns: int)
      reads this, framebuffer, backup
    {
      forall y, x | 0 <= y < framebuffer.Length0 && 0 <= x < framebuffer.Length1 ::
        framebuffer[y, x] ==
          if && OnScreen(x, y) && InBackup(backupX, backupY, x, y) && y - backupY < backup.Length0 && x - backupX < backup.Length1
             && (y - backupY < rows || (y - backupY == rows && x - backupX < columns))
          then backup[y - backupY, x - backupX] else old(framebuffer[y, x])
    }

    method DrawCursor()
      requires Valid() && OnScreen(mouseX, mouseY)
      modifies Target()
      ensures forall y, x | 0 <= y < Target().Length0 && 0 <= x < Target().Length1 ::
                Target()[y, x] == if Open(x, y) then Overlay(CursorShapes(cursor, mouseX, mouseY), x, y, old(Target()[y, x])) else old(Target()[y, x])
      ensures forall y, x | 0 <= y < Target().Length0 && 0 <= x < Target().Length1 && !InBackup(mouseX, mouseY, x, y) ::
                Target()[y, x] == old(Target()[y, x])
    {
      var shapes := CursorShapes(cursor, mouseX, mouseY);
      hide CursorShapes;
      DrawShapes(shapes);
      ghost var (x0, y0) := (mouseX, mouseY);
      forall y, x | 0 <= y < Target().Length0 && 0 <= x < Target().Length1 && !InBackup(mouseX, mouseY, x, y)
        ensures Target()[y, x] == old(Target()[y, x])
      {
        forall k | 0 <= k < |shapes| ensures !Covers(shapes[k], x, y) {
          if Covers(shapes[k], x, y) { CursorInsideBackup(cursor, x0, y0, k, x, y); }
        }
        OverlayMisses(shapes, x, y, old(Target()[y, x]));
      }
    }

    /** Painting the cursor is undone by lifting it: no pixel underneath is lost. */
    method PaintCursor()
      requires Valid() && !toBackBuffer && OnScreen(mouseX, mouseY)
      modifies framebuffer, backup, `backupX, `backupY, `backupValid
      ensures Valid() && backupValid && backupX == mouseX && backupY == mouseY
      ensures forall y, x | 0 <= y < BACKUP_SIZE && 0 <= x < BACKUP_SIZE ::
                backup[y, x] == if OnScreen(mouseX + x, mouseY + y) then old(framebuffer[mouseY + y, mouseX + x]) else 0
      ensures forall x, y | OnScreen(x, y) ::
                framebuffer[y, x] == if Open(x, y) then Overlay(CursorShapes(cursor, mouseX, mouseY), x, y, old(framebuffer[y, x])) else old(framebuffer[y, x])
      ensures forall x, y | OnScreen(x, y) :: Underneath(x, y) == old(framebuffer[y, x])
    {
      SaveCursorBackground();
      DrawCursor();
    }

    /** The position becomes the on-screen one nearest to it, in each coordinate. */
    method ClampMouseToScreen()
      requires Valid()
      modifies `mouseX, `mouseY
      ensures Valid() && OnScreen(mouseX, mouseY)
      ensures forall x, y | OnScreen(x, y) :: Between(old(mouseX), mouseX, x) && Between(old(mouseY), mouseY, y)
    {
      if mouseX < 0 {
        mouseX := 0;
      } else if mouseX >= width {
        mouseX := width - 1;
      }
      if mouseY < 0 {
        mouseY := 0;
      } else if mouseY >= height {
        mouseY := height - 1;
      }
    }

    // ---- composition ----

    /** The first shape of every scene is the wallpaper, which fills the screen. */
    ghost predicate Scene(shapes: seq<Shape>) {
      && Renderable(shapes)
      && shapes != [] && forall x, y | OnScreen(x, y) :: Covers(shapes[0], x, y)
    }

    ghost predicate SameOutside(dirty: Rect, before: seq<Shape>, after: seq<Shape>) {
      forall x, y | OnScreen(x, y) && !Contains(dirty, x, y) :: Overlay(before, x, y, 0) == Overlay(after, x, y, 0)
    }

    /** With the cursor lifted off, the framebuffer is the scene. */
    ghost predicate Shows(scene: seq<Shape>)
      requires Valid()
      reads this, framebuffer, backup
    {
      forall x, y | OnScreen(x, y) :: Underneath(x, y) == Overlay(scene, x, y, 0)
    }

    /** The framebuffer is the scene with the cursor painted over it at the mouse position. */
    ghost predicate ShowsCursorOn(scene: seq<Shape>)
      requires Valid() && OnScreen(mouseX, mouseY)
      reads this, framebuffer
    {
      forall x, y | OnScreen(x, y) :: framebuffer[y, x] == Overlay(scene + CursorShapes(cursor, mouseX, mouseY), x, y, 0)
    }

    /** A framebuffer that is the cursor painted over the scene shows both. */
    lemma CursorOnScene(scene: seq<Shape>)
      requires Valid() && OnScreen(mouseX, mouseY)
      ensures (forall x, y | OnScreen(x, y) :: framebuffer[y, x] == Overlay(CursorShapes(cursor, mouseX, mouseY), x, y, Overlay(scene, x, y, 0)))
              ==> ShowsCursorOn(scene)
    {
      hide Overlay, CursorShapes;
      forall x, y | OnScreen(x, y)
        ensures Overlay(scene + CursorShapes(cursor, mouseX, mouseY), x, y, 0) == Overlay(CursorShapes(cursor, mouseX, mouseY), x, y, Overlay(scene, x, y, 0))
      {
        OverlayAppend(scene, CursorShapes(cursor, mouseX, mouseY), x, y, 0);
      }
    }

    ghost predicate BackBufferHolds(scene: seq<Shape>)
      requires Valid()
      reads this, backBuffer
    {
      backBufferReady ==> forall x, y | OnScreen(x, y) :: backBuffer[y, x] == Overlay(scene, x, y, 0)
    }

    /** Full composition. */
    method ComposeDesktop(scene: seq<Shape>)
      requires Valid() && Scene(scene) && OnScreen(mouseX, mouseY)
      modifies this`toBackBuffer, this`clipEnabled, this`clip, this`backupX, this`backupY, this`backupValid
      modifies framebuffer, backBuffer, backup
      ensures Valid() && !toBackBuffer && !clipEnabled && Shows(scene) && ShowsCursorOn(scene) && BackBufferHolds(scene)
    {
      hide CursorShapes, Overlay, Covers, Renderable;
      backupValid := false;
      if backBufferReady {
        BeginDrawToBackBuffer(Screen());
      } else {
        BeginDrawToFramebuffer();
      }
      label drawing:
      DrawShapes(scene);
      forall x, y | OnScreen(x, y)
        ensures Open(x, y) && Target()[y, x] == Overlay(scene, x, y, 0)
      {
        OverlayHides(scene, 0, x, y, old@drawing(Target()[y, x]), 0);
      }
      label drawn:
      BeginDrawToFramebuffer();
      if backBufferReady {
        CopyBackBufferToFramebuffer(Screen());
      }
      PaintCursor();
      CursorOnScene(scene);
    }

    /**
     Partial redraw: if the scene changed only inside `dirty`, and the old cursor has been lifted
     off or lies inside it, the outcome is that of full composition.
     */
    method RedrawDirtyRegion(dirty: Rect, ghost before: seq<Shape>, scene: seq<Shape>)
      requires Valid() && Scene(scene) && OnScreen(mouseX, mouseY)
      requires Shows(before) && BackBufferHolds(before) && SameOutside(dirty, before, scene)
      requires backupValid ==> forall x, y | OnScreen(x, y) && InBackup(backupX, backupY, x, y) :: Contains(dirty, x, y)
      modifies this`toBackBuffer, this`clipEnabled, this`clip, this`backupX, this`backupY, this`backupValid
      modifies framebuffer, backBuffer, backup
      ensures Valid() && !toBackBuffer && !clipEnabled && Shows(scene) && ShowsCursorOn(scene) && BackBufferHolds(scene)
    {
      hide CursorShapes, Overlay, Covers, Renderable;
      if !backBufferReady || fullRedraw {
        ComposeDesktop(scene);
        return;
      }
      var clipped := IntersectRect(dirty, Screen());
      if Empty(clipped) {
        ComposeDesktop(scene);
        return;
      }
      BeginDrawToBackBuffer(clipped);
      label drawing:
      DrawShapes(scene);
      forall x, y | OnScreen(x, y)
        ensures backBuffer[y, x] == Overlay(scene, x, y, 0)
      {
        if Contains(dirty, x, y) {
          assert Open(x, y);
          OverlayHides(scene, 0, x, y, old(backBuffer[y, x]), 0);
        } else {
          assert backBuffer[y, x] == old(backBuffer[y, x]) == Overlay(before, x, y, 0);
        }
      }
      BeginDrawToFramebuffer();
      CopyBackBufferToFramebuffer(clipped);
      PaintCursor();
      CursorOnScene(scene);
    }

    /** Moving only the cursor keeps the scene on screen. */
    method MoveCursorOnly(x: int, y: int, hovered: CursorKind, ghost scene: seq<Shape>)
      requires Valid() && !toBackBuffer && Shows(scene)
      modifies this`mouseX, this`mouseY, this`cursor, this`backupX, this`backupY, this`backupValid
      modifies framebuffer, backup
      ensures Valid() && Shows(scene) && backupValid && OnScreen(mouseX, mouseY) && cursor == hovered
      ensures !clipEnabled ==> ShowsCursorOn(scene)
      ensures forall toX, toY | OnScreen(toX, toY) :: Between(x, mouseX, toX) && Between(y, mouseY, toY)
    {
      RestoreCursorBackground();
      mouseX := x;
      mouseY := y;
      ClampMouseToScreen();
      cursor := hovered;
      PaintCursor();
      CursorOnScene(scene);
    }
  }

  lemma LineStart(l: Line)
    ensures Point(l, 0) == (l.x0, l.y0) && Error(l, 0) == Width(l) - Height(l)
    ensures forall x, y :: !OnLine(l, 0, x, y)
  {
    Endpoints(l, 0);
    RoundedOfZero(Minor(l), Steps(l));
  }

  lemma RoundedOfZero(rise: nat, run: nat)
    ensures Rounded(0 * rise, run) == 0
  {
    assert 0 * rise == 0;
  }

  lemma OnLineNext(l: Line, k: nat)
    ensures forall x, y :: OnLine(l, k + 1, x, y) <==> OnLine(l, k, x, y) || Point(l, k) == (x, y)
  {
    hide Point;
    forall x, y ensures OnLine(l, k + 1, x, y) <==> OnLine(l, k, x, y) || Point(l, k) == (x, y) {
      if OnLine(l, k + 1, x, y) {
        var j: nat :| j < k + 1 && Point(l, j) == (x, y);
      }
    }
  }

  /** `ErrorStep` in terms of the drawer's own variables. */
  lemma LineAdvance(l: Line, k: nat)
    requires k < Steps(l) && Drawable(l)
    ensures var e2 := 2 * Error(l, k);
            var stepX, stepY := e2 >= -(Height(l) as int), e2 <= Width(l);
            && Int32(e2)
            && Point(l, k + 1) == (Point(l, k).0 + (if stepX then Direction(l.x0, l.x1) else 0),
                                   Point(l, k).1 + (if stepY then Direction(l.y0, l.y1) else 0))
            && Error(l, k + 1) == Error(l, k) + (if stepX then -(Height(l) as int) else 0) + (if stepY then Width(l) else 0)
            && Int32(Error(l, k)) && Int32(Error(l, k) - Height(l)) && Int32(Error(l, k + 1))
  {
    hide Across, Down, Error;
    ErrorStep(l, k);
  }
}
