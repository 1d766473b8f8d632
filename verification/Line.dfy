/**
 The integer line drawer of the compositor, stated in closed form.

 `Point(line, k)` is the pixel the drawer must plot at its k-th step: it advances by one along the
 longer axis, and the other coordinate is the ideal one rounded to the nearest pixel (halves away
 from the start).
 */
module Line {
  import opened Arithmetic

  datatype Line = Line(x0: int, y0: int, x1: int, y1: int)

  function Distance(a: int, b: int): nat {
    if b > a then b - a else a - b
  }

  function Direction(a: int, b: int): int {
    if a < b then 1 else -1
  }

  function Width(l: Line): nat { Distance(l.x0, l.x1) }

  function Height(l: Line): nat { Distance(l.y0, l.y1) }

  function Steps(l: Line): nat {
    if Width(l) >= Height(l) then Width(l) else Height(l)
  }

  /** n / d rounded to the nearest integer, halves upwards. */
  function Rounded(n: nat, d: nat): nat {
    if d == 0 then 0 else (2 * n + d) / (2 * d)
  }

  /** How far the drawer has moved along x after k steps. */
  function Across(l: Line, k: nat): nat {
    if Width(l) >= Height(l) then k else Rounded(k * Width(l), Height(l))
  }

  /** How far the drawer has moved along y after k steps. */
  function Down(l: Line, k: nat): nat {
    if Width(l) >= Height(l) then Rounded(k * Height(l), Width(l)) else k
  }

  function Point(l: Line, k: nat): (int, int) {
    (l.x0 + Direction(l.x0, l.x1) * Across(l, k), l.y0 + Direction(l.y0, l.y1) * Down(l, k))
  }

  /** The error term the drawer carries after k steps. */
  ghost function Error(l: Line, k: nat): int {
    (Down(l, k) + 1) * Width(l) - (Across(l, k) + 1) * Height(l)
  }

  /** Signed 32-bit arithmetic does not overflow on coordinates and differences of this size. */
  predicate Int32(n: int) {
    -0x8000_0000 <= n < 0x8000_0000
  }

  predicate Drawable(l: Line) {
    Int32(l.x0) && Int32(l.y0) && Int32(l.x1) && Int32(l.y1) && Int32(3 * Steps(l))
  }

  lemma RoundedBounds(n: nat, d: nat)
    requires d > 0
    ensures 2 * (Rounded(n, d) * d) <= 2 * n + d < 2 * (Rounded(n, d) * d) + 2 * d
  {
    var q := Rounded(n, d);
    assert (2 * n + d) == (2 * d) * q + (2 * n + d) % (2 * d);
    assert (2 * d) * q == 2 * (q * d);
  }

  lemma RoundedUnique(n: nat, d: nat, q: nat)
    requires d > 0
    requires 2 * (q * d) <= 2 * n + d < 2 * (q * d) + 2 * d
    ensures Rounded(n, d) == q
  {
    hide Rounded;
    RoundedBounds(n, d);
    var r := Rounded(n, d);
    if r < q {
      ProductGap(r, q, d);
    } else if q < r {
      ProductGap(q, r, d);
    }
  }

  /**
   One step along the longer axis: the other coordinate advances exactly when the error term
   passes the drawer's test, and the error term stays within three lengths of the longer axis.
   */
  lemma RoundedStep(k: nat, rise: nat, run: nat)
    requires 0 < run && rise <= run
    ensures var q := Rounded(k * rise, run);
            var error := (q + 1) * run - (k + 1) * rise;
            && Rounded((k + 1) * rise, run) == (if 2 * error <= run then q + 1 else q)
            && run - 2 * rise < 2 * error <= 3 * run - 2 * rise
  {
    hide Rounded;
    var n := k * rise;
    var q := Rounded(n, run);
    RoundedBounds(n, run);
    assert (k + 1) * rise == n + rise;
    assert (q + 1) * run == q * run + run;
    RoundedUnique(n + rise, run, if 2 * ((q + 1) * run - (n + rise)) <= run then q + 1 else q);
  }

  /** The first and the last point are the endpoints, and no earlier point is the last one. */
  lemma Endpoints(l: Line, k: nat)
    requires k <= Steps(l)
    ensures Point(l, 0) == (l.x0, l.y0)
    ensures Point(l, k) == (l.x1, l.y1) <==> k == Steps(l)
  {
    var rise, run := Minor(l), Steps(l);
    if run > 0 {
      assert 0 * rise == 0;
      RoundedUnique(0, run, 0);
      assert run * rise == rise * run;
      RoundedUnique(run * rise, run, rise);
    }
  }

  /** The extent along the shorter axis. */
  function Minor(l: Line): nat {
    if Width(l) >= Height(l) then Height(l) else Width(l)
  }

  /**
   One iteration of the drawer. Its two tests on the error term advance x and y exactly to the next
   point and the error term to the next error, and no intermediate value leaves 32 bits.
   */
  lemma ErrorStep(l: Line, k: nat)
    requires k < Steps(l) && Drawable(l)
    ensures var e2 := 2 * Error(l, k);
            var stepX, stepY := e2 >= -(Height(l) as int), e2 <= Width(l);
            && Int32(e2)
            && Across(l, k + 1) == Across(l, k) + (if stepX then 1 else 0)
            && Down(l, k + 1) == Down(l, k) + (if stepY then 1 else 0)
            && Error(l, k + 1) == Error(l, k) + (if stepX then -(Height(l) as int) else 0) + (if stepY then Width(l) else 0)
            && Int32(Error(l, k) - Height(l)) && Int32(Error(l, k + 1))
  {
    hide Rounded;
    RoundedStep(k, Minor(l), Steps(l));
    Distribute(Down(l, k) + 1, Down(l, k + 1) + 1, Width(l));
    Distribute(Across(l, k) + 1, Across(l, k + 1) + 1, Height(l));
  }

  lemma Distribute(a: nat, b: nat, d: nat)
    requires b == a || b == a + 1
    ensures b * d == if b == a then a * d else a * d + d
  {
  }

  /** Every plotted point is within half a pixel of the ideal line, measured across the longer axis. */
  lemma WithinHalfPixel(l: Line, k: nat)
    requires k <= Steps(l)
    ensures var offset := Across(l, k) * Height(l) - Down(l, k) * Width(l);
            -(Steps(l) as int) <= 2 * offset <= Steps(l)
  {
    hide Rounded;
    if Steps(l) > 0 {
      RoundedBounds(k * Minor(l), Steps(l));
    }
  }

  lemma RoundedAtMost(k: nat, rise: nat, run: nat)
    requires 0 < run && k <= run
    ensures Rounded(k * rise, run) <= rise
  {
    hide Rounded;
    RoundedBounds(k * rise, run);
    var r := Rounded(k * rise, run);
    if r > rise {
      ProductGap(rise, r, run);
      if k < run { ProductGap(k, run, rise); }
    }
  }

  predicate Between(a: int, v: int, b: int) {
    a <= v <= b || b <= v <= a
  }

  /** Every plotted point lies in the bounding box of the endpoints. */
  lemma InsideBoundingBox(l: Line, k: nat)
    requires k <= Steps(l)
    ensures Between(l.x0, Point(l, k).0, l.x1) && Between(l.y0, Point(l, k).1, l.y1)
  {
    if Steps(l) > 0 {
      RoundedAtMost(k, Minor(l), Steps(l));
    }
    hide Rounded;
    assert Across(l, k) <= Width(l) && Down(l, k) <= Height(l);
  }

  /** Consecutive points touch: the line has no gaps and never stands still. */
  lemma Connected(l: Line, k: nat)
    requires k < Steps(l) && Drawable(l)
    ensures var p, q := Point(l, k), Point(l, k + 1);
            p != q && Distance(p.0, q.0) <= 1 && Distance(p.1, q.1) <= 1
  {
    hide Rounded;
    ErrorStep(l, k);
  }
}
