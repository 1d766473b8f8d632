/**
 What each window call does to the windows themselves: which appear, which disappear, and that the
 others are the old ones, in their old order but for one that is raised.
 */
module WindowEffects {
  import opened Geometry
  import opened Windows

  // ---- the same windows in another order ----

  /** Where window j of n is when window r has been raised, or none if r is -1. */
  function Place(r: int, n: nat, j: nat): nat
    requires r < n && j < n
  {
    if r < 0 || j < r then j else if j == r then n - 1 else j - 1
  }

  /** The windows are the same but for their focus, and in the same order but for window r, now on top. */
  predicate Rearranged(ws: seq<Window>, ws': seq<Window>, r: int) {
    && |ws'| == |ws| && -1 <= r < |ws|
    && forall j: nat | j < |ws| :: ws'[Place(r, |ws|, j)].(focused := false) == ws[j].(focused := false)
  }

  /** No two windows get one place. */
  lemma PlacesDiffer(r: int, n: nat, j: nat, k: nat)
    requires -1 <= r < n && j < n && k < n && j != k
    ensures Place(r, n, j) != Place(r, n, k) && Place(r, n, j) < n
  {
  }

  /** Counted with their focus off, the windows are those there were. */
  lemma RearrangedPermutes(ws: seq<Window>, ws': seq<Window>, r: int)
    requires Rearranged(ws, ws', r)
    ensures multiset(Unfocused(ws')) == multiset(Unfocused(ws))
  {
    var bare, bare' := Unfocused(ws), Unfocused(ws');
    if r < 0 {
      forall j | 0 <= j < |ws| ensures bare'[j] == bare[j] { assert Place(r, |ws|, j) == j; }
      assert bare' == bare;
    } else {
      forall j | 0 <= j < |ws| ensures bare'[j] == Raised(bare, r)[j] {
        RaisedAt(bare, r, j);
        assert Place(r, |ws|, if j < r then j else if j < |ws| - 1 then j + 1 else r) == j;
      }
      assert |Raised(bare, r)| == |bare'| by { RaisedAt(bare, r, 0); }
      assert bare' == Raised(bare, r);
      RaisedPermutes(bare, r);
    }
  }

  lemma FocusPlaces(d: Desktop, i: nat, j: nat)
    requires i < |d.windows| && Shown(d.windows[i], d.current) && j < |d.windows|
    ensures var d', k := Focus(d, i), Place(i, |d.windows|, j);
            |d'.windows| == |d.windows| && k < |d'.windows| && d'.windows[k].(focused := false) == d.windows[j].(focused := false)
  {
    RaisedAt(Unfocused(d.windows), i, Place(i, |d.windows|, j));
    hide Raised, Unfocused, Shown;
  }

  lemma FocusRearranges(d: Desktop, i: nat)
    requires i < |d.windows| && Shown(d.windows[i], d.current)
    ensures var d', n := Focus(d, i), |d.windows|;
            && Rearranged(d.windows, d'.windows, i) && d'.active == n - 1 && d'.current == d.current && d'.mouseDown == d.mouseDown
            && d'.drag == if i == n - 1 then d.drag else n - 1
  {
    FocusPlaces(d, i, i);
    forall j: nat | j < |d.windows|
      ensures var d', k := Focus(d, i), Place(i, |d.windows|, j); k < |d'.windows| && d'.windows[k].(focused := false) == d.windows[j].(focused := false)
    {
      FocusPlaces(d, i, j);
    }
    hide Place, Raised;
  }

  /** Settling the focus raises the topmost shown window, if there is one, and no window else moves. */
  lemma FocusTopRearranges(d: Desktop)
    ensures var d', r := FocusTop(d), TopShown(d.windows, d.current);
            && Rearranged(d.windows, d'.windows, r) && d'.active == (if r < 0 then -1 else |d.windows| - 1)
            && d'.current == d.current && d'.mouseDown == d.mouseDown
            && d'.drag == (if 0 <= r < |d.windows| - 1 then |d.windows| - 1 else d.drag)
  {
    hide Focus;
    var r := TopShown(d.windows, d.current);
    if r >= 0 { FocusRearranges(d, r); }
  }

  // ---- calls that take a window away ----

  /** The window is in no search for windows: nothing finds it by point or as the topmost one, on any desktop. */
  lemma HiddenIsNotFound(ws: seq<Window>, i: nat, desktop: nat, x: int, y: int, titleOnly: bool)
    requires i < |ws| && (!ws[i].visible || ws[i].minimized)
    ensures TopAt(ws, desktop, x, y, titleOnly) != i && TopShown(ws, desktop) != i
  {
  }

  /** Windows that differ in their focus only. */
  predicate SameBut(ws: seq<Window>, ws': seq<Window>) {
    |ws'| == |ws| && forall j | 0 <= j < |ws| :: ws'[j].(focused := false) == ws[j].(focused := false)
  }

  lemma RearrangedFrom(ws: seq<Window>, ws1: seq<Window>, ws': seq<Window>, r: int)
    requires SameBut(ws, ws1) && Rearranged(ws1, ws', r)
    ensures Rearranged(ws, ws', r)
  {
  }

  lemma NotRearranged(ws: seq<Window>, ws': seq<Window>)
    requires SameBut(ws, ws')
    ensures Rearranged(ws, ws', -1)
  {
  }

  /** Window i hidden, the focus elsewhere. */
  lemma HiddenInPlace(ws: seq<Window>, ws': seq<Window>, i: nat, r: int)
    requires Rearranged(ws, ws', r) && i < |ws| && r != i && !(ws[i].visible && !ws[i].minimized)
    ensures |ws'| == |ws|
    ensures var k := Place(r, |ws|, i); k < |ws'| && !(ws'[k].visible && !ws'[k].minimized) && (r >= 0 ==> k != |ws| - 1)
  {
    if r >= 0 { PlacesDiffer(r, |ws|, i, r); }
  }

  /** The window list with window i hidden, or put away into the taskbar. */
  function Without(ws: seq<Window>, i: nat, closed: bool): seq<Window>
    requires i < |ws|
  {
    ws[i := if closed then ws[i].(visible := false) else ws[i].(minimized := true)]
  }

  /** The desktop before the focus is settled. */
  lemma WithoutFirst(d: Desktop, i: nat, closed: bool) returns (d1: Desktop)
    requires FocusInvariant(d) && i < |d.windows|
    ensures (if closed then Close(d, i) else Minimize(d, i)) == if d.active == i then FocusTop(d1) else d1
    ensures SameBut(Without(d.windows, i, closed), d1.windows) && |d1.windows| == |d.windows| && d1.current == d.current && d1.active == d.active
    ensures d1.mouseDown == (if closed && d.mouseDown == i then -1 else d.mouseDown) && d1.drag == (if !closed || d.drag == i then -1 else d.drag)
    ensures TopShown(d1.windows, d.current) == TopShown(Without(d.windows, i, closed), d.current) != i
  {
    hide FocusTop, TopShown;
    d1 := if closed then
            d.(windows := d.windows[i := d.windows[i].(visible := false, focused := false)],
               drag := if d.drag == i then -1 else d.drag, mouseDown := if d.mouseDown == i then -1 else d.mouseDown)
          else d.(windows := d.windows[i := d.windows[i].(minimized := true)], drag := -1);
    SameShown(Without(d.windows, i, closed), d1.windows, d.current);
  }

  /** What is left when window i is taken away, with window r raised in its stead, or none. */
  ghost predicate TakenAway(d: Desktop, d': Desktop, i: nat, closed: bool, r: int)
    requires i < |d.windows|
  {
    var n, without := |d.windows|, Without(d.windows, i, closed);
    && Rearranged(without, d'.windows, r) && r != i
    && r == (if d.active == i then TopShown(without, d.current) else -1)
    && (var k := Place(r, n, i); k < n && !Shown(d'.windows[k], d'.windows[k].desktop) && d'.active != k)
    && d'.active == (if d.active != i then d.active else if r < 0 then -1 else n - 1)
    && d'.current == d.current
    && d'.mouseDown == (if closed && d.mouseDown == i then -1 else d.mouseDown)
    && d'.drag == if 0 <= r < n - 1 then n - 1 else if !closed || d.drag == i then -1 else d.drag
  }

  /**
   Closing hides the window, and minimising puts it away, on every desktop and from every search; the
   other windows are as they were, one of them raised and focused if the active one was taken away
   and any is left to show.
   */
  lemma TakesAway(d: Desktop, i: nat, closed: bool) returns (r: int)
    requires FocusInvariant(d) && i < |d.windows|
    ensures TakenAway(d, if closed then Close(d, i) else Minimize(d, i), i, closed, r)
  {
    hide FocusTop, FocusInvariant, Place, Rearranged, SameBut, TopShown, Close, Minimize;
    var d1 := WithoutFirst(d, i, closed);
    var without := Without(d.windows, i, closed);
    assert -1 <= d.active < |d.windows| by { ActiveIsIndex(d); }
    if d.active == i {
      r := TopShown(without, d.current);
      FocusTopRearranges(d1);
      RearrangedFrom(without, d1.windows, FocusTop(d1).windows, r);
    } else {
      r := -1;
      NotRearranged(without, d1.windows);
    }
    HiddenInPlace(without, if d.active == i then FocusTop(d1).windows else d1.windows, i, r);
    PlaceOfOthers(r, |d.windows|, i);
  }

  lemma ActiveIsIndex(d: Desktop)
    requires FocusInvariant(d)
    ensures -1 <= d.active < |d.windows|
  {
  }

  lemma PlaceOfOthers(r: int, n: nat, i: nat)
    requires -1 <= r < n && i < n
    ensures r < 0 ==> Place(r, n, i) == i
  {
  }

  lemma {:induction false} SameShown(ws: seq<Window>, ws': seq<Window>, desktop: nat)
    requires |ws'| == |ws| && forall j | 0 <= j < |ws| :: Shown(ws'[j], desktop) <==> Shown(ws[j], desktop)
    ensures TopShown(ws', desktop) == TopShown(ws, desktop)
  {
    var a, b := TopShown(ws, desktop), TopShown(ws', desktop);
    if a >= 0 { assert Shown(ws'[a], desktop); }
    if b >= 0 { assert Shown(ws[b], desktop); }
  }

  // ---- calls that bring a window up ----

  /** Switching shows the desktop asked for: its topmost window is raised and active, or no window is. */
  lemma SwitchShows(d: Desktop, desktop: nat)
    requires desktop < DESKTOPS
    ensures var d', r, n := Switch(d, desktop), TopShown(d.windows, desktop), |d.windows|;
            && d'.current == desktop && Rearranged(d.windows, d'.windows, r) && d'.mouseDown == d.mouseDown
            && d'.active == (if r < 0 then -1 else n - 1) && d'.drag == (if 0 <= r < n - 1 then n - 1 else -1)
  {
    hide FocusTop;
    FocusTopRearranges(d.(current := desktop, drag := -1));
  }

  /** A new window goes on top of the list, on its desktop, without the focus; there it is the topmost one shown. */
  lemma AddAppends(d: Desktop, titled: bool, bounds: Rect, app: nat, desktop: nat, process: nat, thread: nat)
    ensures var d', n := Add(d, titled, bounds, app, desktop, process, thread), |d.windows|;
            if titled && bounds.width != 0 && bounds.height != 0 && desktop < DESKTOPS && n < MAX_WINDOWS then
              && |d'.windows| == n + 1 && d'.windows[..n] == d.windows && d' == d.(windows := d'.windows)
              && d'.windows[n].bounds == bounds && d'.windows[n].app == app && d'.windows[n].process == process && d'.windows[n].thread == thread
              && !d'.windows[n].focused && (forall any :: Shown(d'.windows[n], any) <==> any == desktop) && TopShown(d'.windows, desktop) == n
            else d' == d
  {
  }

  /** A window is brought back from the taskbar, if it was not closed; if its desktop is shown it is active and on top. */
  lemma TaskbarRestores(d: Desktop, i: nat)
    requires i < |d.windows|
    ensures var d', n, restored := RestoreFromTaskbar(d, i), |d.windows|, d.windows[i].(minimized := false);
            if !d.windows[i].visible then d' == d
            else if d.windows[i].desktop == d.current then Rearranged(d.windows[i := restored], d'.windows, i) && d'.active == n - 1 && d'.current == d.current
            else d' == d.(windows := d.windows[i := restored])
  {
    hide Focus;
    var d1 := d.(windows := d.windows[i := d.windows[i].(minimized := false)]);
    if d.windows[i].visible {
      if d.windows[i].desktop == d.current { FocusRearranges(d1, i); } else { FocusRefuses(d1, i); }
    }
  }

  lemma FocusRefuses(d: Desktop, i: nat)
    requires i >= |d.windows| || !Shown(d.windows[i], d.current)
    ensures Focus(d, i) == d
  {
  }

  lemma FocusPermutes(d: Desktop, i: nat)
    ensures multiset(Unfocused(Focus(d, i).windows)) == multiset(Unfocused(d.windows))
  {
    hide Focus, Unfocused;
    if i < |d.windows| && Shown(d.windows[i], d.current) {
      FocusRearranges(d, i);
      RearrangedPermutes(d.windows, Focus(d, i).windows, i);
    } else {
      FocusRefuses(d, i);
    }
  }

  lemma SwitchPermutes(d: Desktop, desktop: nat)
    ensures multiset(Unfocused(Switch(d, desktop).windows)) == multiset(Unfocused(d.windows))
  {
    hide FocusTop, Unfocused;
    if desktop < DESKTOPS {
      SwitchShows(d, desktop);
      RearrangedPermutes(d.windows, Switch(d, desktop).windows, TopShown(d.windows, desktop));
    }
  }

  /** Bringing a running app up changes its one window, and no other: counted without focus, the windows are those there were. */
  lemma RestoreOrFocusPermutes(d: Desktop, app: nat, desktop: nat)
    ensures var d', e := RestoreOrFocus(d, app, desktop), FindByApp(d.windows, app, desktop);
            if e < 0 then d' == d
            else multiset(Unfocused(d'.windows)) == multiset(Unfocused(d.windows[e := d.windows[e].(visible := true, minimized := false, maximized := false)]))
  {
    hide Focus, Switch, FindByApp, Unfocused;
    var e := FindByApp(d.windows, app, desktop);
    if e >= 0 {
      var d1 := d.(windows := d.windows[e := d.windows[e].(visible := true, minimized := false, maximized := false)]);
      SwitchPermutes(d1, desktop);
      FocusPermutes(if d1.current != desktop then Switch(d1, desktop) else d1, e);
    }
  }

  /** A press makes the topmost window under the point active and raises it; a press on no window leaves the windows alone. */
  lemma PressActivates(d: Desktop, x: int, y: int)
    ensures var d', front, n := MouseDown(d, x, y), TopAt(d.windows, d.current, x, y, false), |d.windows|;
            && d'.current == d.current && d'.mouseDown == front
            && if front < 0 then d'.windows == d.windows && d'.active == d.active
               else Rearranged(d.windows, d'.windows, front) && d'.active == n - 1
  {
    hide Focus, TopAt, Disarmed;
    var front := TopAt(d.windows, d.current, x, y, false);
    if front >= 0 {
      FocusRearranges(d.(mouseDown := front, drag := TopAt(d.windows, d.current, x, y, true)), front);
    }
  }

  predicate IsOf(w: Window, app: nat, desktop: nat) {
    w.app == app && w.desktop == desktop
  }

  /** The app's window is found again after the windows have been rearranged. */
  lemma FoundAgain(ws: seq<Window>, ws': seq<Window>, h: nat, app: nat, desktop: nat)
    requires multiset(Unfocused(ws')) == multiset(Unfocused(ws)) && h < |ws| && IsOf(ws[h], app, desktop)
    ensures var e := FindByApp(ws', app, desktop);
            && 0 <= e < |ws'|
            && ((forall j | 0 <= j < |ws| && j != h :: !IsOf(ws[j], app, desktop)) ==> ws'[e].(focused := false) == ws[h].(focused := false))
  {
    hide FindByApp;
    var bare, bare', e := Unfocused(ws), Unfocused(ws'), FindByApp(ws', app, desktop);
    assert bare[h] in multiset(bare');
    var k :| 0 <= k < |bare'| && bare'[k] == bare[h];
    assert ws'[k].app == app && ws'[k].desktop == desktop;
    assert bare'[e] in multiset(bare);
    var j :| 0 <= j < |bare| && bare[j] == bare'[e];
    assert IsOf(ws[j], app, desktop);
  }

  /** The window list once the app's window is made, or made new. */
  function Launched(ws: seq<Window>, bounds: Rect, app: nat, desktop: nat, process: nat, thread: nat): (r: seq<Window>)
  {
    var h := FindByApp(ws, app, desktop);
    if h < 0 then ws + [Window(bounds, app, desktop, true, false, false, false, process, thread)]
    else ws[h := ws[h].(bounds := bounds, visible := true, minimized := false, maximized := false, process := process, thread := thread)]
  }

  lemma LaunchUnfolds(d: Desktop, bounds: Rect, app: nat, desktop: nat, process: nat, thread: nat) returns (d1: Desktop, d2: Desktop)
    requires FocusInvariant(d) && desktop < DESKTOPS && (FindByApp(d.windows, app, desktop) >= 0 || Registrable(d, true, bounds, desktop))
    ensures FocusInvariant(d1) && d1.windows == Launched(d.windows, bounds, app, desktop, process, thread)
    ensures d2 == if d1.current != desktop then Switch(d1, desktop) else d1
    ensures Launch(d, bounds, app, desktop, false, true, true, process, thread) == RestoreOrFocus(d2, app, desktop)
  {
    hide RestoreOrFocus, Switch, FindByApp;
    d1 := d.(windows := Launched(d.windows, bounds, app, desktop, process, thread));
    d2 := if d1.current != desktop then Switch(d1, desktop) else d1;
  }

  /**
   Starting an app that then runs: its window ends up active on the desktop asked for. The first
   start adds a window; a later one reuses the app's window with its new place and thread. If the app
   has one window there, no other window changes.
   */
  lemma LaunchShows(d: Desktop, bounds: Rect, app: nat, desktop: nat, process: nat, thread: nat)
    requires FocusInvariant(d) && desktop < DESKTOPS && (FindByApp(d.windows, app, desktop) >= 0 || Registrable(d, true, bounds, desktop))
    ensures var d' := Launch(d, bounds, app, desktop, false, true, true, process, thread);
            var h, launched := FindByApp(d.windows, app, desktop), Launched(d.windows, bounds, app, desktop, process, thread);
            && 0 <= d'.active < |d'.windows| && d'.current == desktop && IsOf(d'.windows[d'.active], app, desktop)
            && ((forall j | 0 <= j < |d.windows| && j != h :: !IsOf(d.windows[j], app, desktop)) ==>
                  && multiset(Unfocused(d'.windows)) == multiset(Unfocused(launched))
                  && d'.windows[d'.active].(focused := false) == launched[if h < 0 then |d.windows| else h].(focused := false))
  {
    hide RestoreOrFocus, Switch, FindByApp, Unfocused, Launch, FocusInvariant;
    var h := FindByApp(d.windows, app, desktop);
    var d1, d2 := LaunchUnfolds(d, bounds, app, desktop, process, thread);
    var at: nat := if h < 0 then |d.windows| else h;
    SwitchPermutes(d1, desktop);
    SwitchKeepsInvariant(d1, desktop);
    FoundAgain(d1.windows, d2.windows, at, app, desktop);
    RestoreKeepsInvariant(d2, app, desktop);
    RestoreOrFocusPermutes(d2, app, desktop);
    ActiveIsIndex(RestoreOrFocus(d2, app, desktop));
    if forall j | 0 <= j < |d.windows| && j != h :: !IsOf(d.windows[j], app, desktop) {
      var e := FindByApp(d2.windows, app, desktop);
      var w := d2.windows[e];
      assert w.(visible := true, minimized := false, maximized := false) == w;
      assert d2.windows[e := w] == d2.windows;
    }
  }

  /** Whatever a press arms, it never drags a maximised window, nor from one of the three buttons. */
  lemma PressSparesButtons(d: Desktop, x: int, y: int)
    requires -1 <= d.drag < |d.windows|
    ensures var d' := MouseDown(d, x, y);
            && -1 <= d'.drag < |d'.windows|
            && (d'.drag >= 0 ==>
                  var w := d'.windows[d'.drag];
                  !w.maximized && forall slot: nat | slot < 3 :: !PointInRect(x, y, ButtonRect(w, slot)))
  {
    hide Focus, ButtonRect, TopAt;
    var front := TopAt(d.windows, d.current, x, y, false);
    var d1 := d.(mouseDown := front, drag := TopAt(d.windows, d.current, x, y, true));
    if front >= 0 { FocusRearranges(d1, front); }
  }

  /** A press and its release leave nothing pending: at most a window has been raised and made active. */
  lemma ClickOnlyRaises(d: Desktop, x: int, y: int)
    ensures var d', front := Run(d, [MouseDownEvent(x, y), MouseUpEvent]), TopAt(d.windows, d.current, x, y, false);
            && d'.drag == -1 && d'.mouseDown == -1 && d'.current == d.current
            && if front < 0 then d'.windows == d.windows && d'.active == d.active
               else Rearranged(d.windows, d'.windows, front) && d'.active == |d.windows| - 1
  {
    PressActivates(d, x, y);
    hide TopAt, Rearranged, MouseDown;
    assert [] + [MouseDownEvent(x, y)] == [MouseDownEvent(x, y)] && [MouseDownEvent(x, y)] + [MouseUpEvent] == [MouseDownEvent(x, y), MouseUpEvent];
    RunOneMore(d, [], MouseDownEvent(x, y));
    RunOneMore(d, [MouseDownEvent(x, y)], MouseUpEvent);
  }

  /** Moving, resizing or maximising a window changes its place and nothing else of any window. */
  lemma ReshapeKeepsOthers(d: Desktop, i: nat, bounds: Rect, maximized: bool)
    requires i < |d.windows|
    ensures var d' := Step(d, ReshapeEvent(i, bounds, maximized));
            && d'.(windows := []) == d.(windows := []) && |d'.windows| == |d.windows|
            && d'.windows[i].bounds == bounds && d'.windows[i].maximized == maximized
            && (forall any :: Shown(d'.windows[i], any) <==> Shown(d.windows[i], any))
            && forall j | 0 <= j < |d.windows| && j != i :: d'.windows[j] == d.windows[j]
  {
  }
}
