/**
 The window list of the desktop. Its order is the z-order, so raising a window shifts the indices
 of the windows above it; focus, active index and pending indices all refer to positions in it.
 */
module Windows {
  import opened Geometry

  const MAX_WINDOWS := 12
  const DESKTOPS := 4

  datatype Window = Window(
    bounds: Rect, app: nat, desktop: nat, visible: bool, minimized: bool, maximized: bool, focused: bool,
    process: nat, thread: nat)

  datatype Desktop = Desktop(windows: seq<Window>, active: int, drag: int, mouseDown: int, current: nat)

  predicate Shown(w: Window, desktop: nat) {
    w.visible && !w.minimized && w.desktop == desktop
  }

  /** The topmost window shown on a desktop, or -1. */
  function TopShown(ws: seq<Window>, desktop: nat): (r: int)
    ensures -1 <= r < |ws|
    ensures r >= 0 ==> Shown(ws[r], desktop)
    ensures forall j | r < j < |ws| :: !Shown(ws[j], desktop)
  {
    if ws == [] then -1
    else if Shown(ws[|ws| - 1], desktop) then |ws| - 1
    else TopShown(ws[..|ws| - 1], desktop)
  }

  /** Window i moved to the top of the list. */
  function Raised(ws: seq<Window>, i: nat): seq<Window>
    requires i < |ws|
  {
    ws[..i] + ws[i + 1..] + [ws[i]]
  }

  function Unfocused(ws: seq<Window>): (r: seq<Window>)
    ensures |r| == |ws|
    ensures forall i | 0 <= i < |ws| :: r[i] == ws[i].(focused := false)
  {
    seq(|ws|, i requires 0 <= i < |ws| => ws[i].(focused := false))
  }

  /** The lowest window of an app on a desktop, or -1. */
  function FindByApp(ws: seq<Window>, app: nat, desktop: nat, from: nat := 0): (r: int)
    requires from <= |ws|
    ensures r == -1 || from <= r < |ws|
    ensures r >= 0 ==> ws[r].app == app && ws[r].desktop == desktop
    ensures forall j | from <= j < (if r < 0 then |ws| else r) :: ws[j].app != app || ws[j].desktop != desktop
    decreases |ws| - from
  {
    if from == |ws| then -1
    else if ws[from].app == app && ws[from].desktop == desktop then from
    else FindByApp(ws, app, desktop, from + 1)
  }

  // ---- the operations ----

  function Focus(d: Desktop, i: nat): Desktop {
    if i >= |d.windows| || !Shown(d.windows[i], d.current) then d
    else
      var ws := Raised(Unfocused(d.windows), i);
      var top := |ws| - 1;
      d.(windows := ws[top := ws[top].(focused := true)], active := top, drag := if i == top then d.drag else top)
  }

  function FocusTop(d: Desktop): Desktop {
    var top := TopShown(d.windows, d.current);
    if top >= 0 then Focus(d, top) else d.(windows := Unfocused(d.windows), active := -1)
  }

  function Switch(d: Desktop, desktop: nat): Desktop {
    if desktop >= DESKTOPS then d else FocusTop(d.(current := desktop, drag := -1))
  }

  function Minimize(d: Desktop, i: nat): Desktop {
    if i >= |d.windows| then d
    else
      var d' := d.(windows := d.windows[i := d.windows[i].(minimized := true)], drag := -1);
      if d.active == i then FocusTop(d') else d'
  }

  function RestoreFromTaskbar(d: Desktop, i: nat): Desktop {
    if i >= |d.windows| || !d.windows[i].visible then d
    else Focus(d.(windows := d.windows[i := d.windows[i].(minimized := false)]), i)
  }

  function Close(d: Desktop, i: nat): Desktop {
    if i >= |d.windows| then d
    else
      var d' := d.(windows := d.windows[i := d.windows[i].(visible := false, focused := false)],
                   drag := if d.drag == i then -1 else d.drag,
                   mouseDown := if d.mouseDown == i then -1 else d.mouseDown);
      if d.active == i then FocusTop(d') else d'
  }

  /** A window has a title and an area, and there is room for it. */
  predicate Registrable(d: Desktop, titled: bool, bounds: Rect, desktop: nat) {
    titled && !Empty(bounds) && desktop < DESKTOPS && |d.windows| < MAX_WINDOWS
  }

  function Add(d: Desktop, titled: bool, bounds: Rect, app: nat, desktop: nat, process: nat, thread: nat): Desktop {
    if !Registrable(d, titled, bounds, desktop) then d
    else d.(windows := d.windows + [Window(bounds, app, desktop, true, false, false, false, process, thread)])
  }

  /** Bring the app's window up, wherever it is: unhide it, switch desktop, focus its old index. */
  function RestoreOrFocus(d: Desktop, app: nat, desktop: nat): Desktop {
    var existing := FindByApp(d.windows, app, desktop);
    if existing < 0 then d
    else
      var w := d.windows[existing].(visible := true, minimized := false, maximized := false);
      var d1 := d.(windows := d.windows[existing := w]);
      var d2 := if d1.current != desktop then Switch(d1, desktop) else d1;
      Focus(d2, existing)
  }

  /** Starting an app; `launched` and `looping` are the outcomes of the process layer. */
  function Launch(d: Desktop, bounds: Rect, app: nat, desktop: nat, running: bool, launched: bool, looping: bool, process: nat, thread: nat): Desktop {
    if running then RestoreOrFocus(d, app, desktop)
    else if !launched then d
    else
      var hidden := FindByApp(d.windows, app, desktop);
      if hidden < 0 && !Registrable(d, true, bounds, desktop) then d
      else
        var d1 := if hidden < 0 then Add(d, true, bounds, app, desktop, process, thread)
                  else d.(windows := d.windows[hidden := d.windows[hidden].(
                            bounds := bounds, visible := true, minimized := false, maximized := false, process := process, thread := thread)]);
        if !looping then d1
        else
          var d2 := if d1.current != desktop then Switch(d1, desktop) else d1;
          RestoreOrFocus(d2, app, desktop)
  }

  // ---- the pointer ----

  const TITLE_BAR_HEIGHT := 30
  const BUTTON_SIZE := 16

  predicate OnTitleBar(w: Window, x: int, y: int) {
    PointInRect(x, y, Rect(w.bounds.x, w.bounds.y, w.bounds.width, TITLE_BAR_HEIGHT))
  }

  function Sub32(a: uint32, b: uint32): uint32 {
    if a >= b then a - b else a - b + 0x1_0000_0000
  }

  /** The close, maximise and minimise buttons, from the right edge inwards (slots 0 to 2). */
  function ButtonRect(w: Window, slot: nat): Rect
    requires slot < 3
  {
    Rect(Sub32(Right(w.bounds), 25 + slot * 23), Add32(w.bounds.y, (TITLE_BAR_HEIGHT - BUTTON_SIZE) / 2), BUTTON_SIZE, BUTTON_SIZE)
  }

  predicate OnButton(w: Window, x: int, y: int) {
    PointInRect(x, y, ButtonRect(w, 0)) || PointInRect(x, y, ButtonRect(w, 1)) || PointInRect(x, y, ButtonRect(w, 2))
  }

  predicate Hit(w: Window, desktop: nat, x: int, y: int, titleOnly: bool) {
    Shown(w, desktop) && if titleOnly then OnTitleBar(w, x, y) else PointInRect(x, y, w.bounds)
  }

  /** The topmost shown window whose bounds (or title bar) contain the point, or -1. */
  function TopAt(ws: seq<Window>, desktop: nat, x: int, y: int, titleOnly: bool): (r: int)
    ensures -1 <= r < |ws|
    ensures r >= 0 ==> Hit(ws[r], desktop, x, y, titleOnly)
    ensures forall j | r < j < |ws| :: !Hit(ws[j], desktop, x, y, titleOnly)
  {
    if ws == [] then -1
    else if Hit(ws[|ws| - 1], desktop, x, y, titleOnly) then |ws| - 1
    else TopAt(ws[..|ws| - 1], desktop, x, y, titleOnly)
  }

  /** A drag of this window is called off at the point: a button is under it or the window is maximised. */
  predicate Disarmed(w: Window, x: int, y: int) {
    OnButton(w, x, y) || w.maximized
  }

  function MouseDown(d: Desktop, x: int, y: int): Desktop {
    var front := TopAt(d.windows, d.current, x, y, false);
    var d1 := d.(mouseDown := front, drag := TopAt(d.windows, d.current, x, y, true));
    var d2 := if front < 0 then d1
              else
                var f := Focus(d1, front);
                if f.drag == front then f.(drag := |f.windows| - 1) else f;
    if 0 <= d2.drag < |d2.windows| && Disarmed(d2.windows[d2.drag], x, y) then d2.(drag := -1) else d2
  }

  datatype Event =
    | FocusEvent(index: nat)
    | SwitchEvent(desktop: nat)
    | MinimizeEvent(index: nat)
    | TaskbarEvent(index: nat)
    | CloseEvent(index: nat)
    | AddEvent(titled: bool, bounds: Rect, app: nat, desktop: nat, process: nat, thread: nat)
    | RestoreEvent(app: nat, desktop: nat)
    | LaunchEvent(bounds: Rect, app: nat, desktop: nat, running: bool, launched: bool, looping: bool, process: nat, thread: nat)
    | ReshapeEvent(index: nat, bounds: Rect, maximized: bool)
    | MouseDownEvent(x: int, y: int)
    | MouseUpEvent

  function Step(d: Desktop, e: Event): Desktop {
    match e
    case FocusEvent(i) => Focus(d, i)
    case SwitchEvent(desktop) => Switch(d, desktop)
    case MinimizeEvent(i) => Minimize(d, i)
    case TaskbarEvent(i) => RestoreFromTaskbar(d, i)
    case CloseEvent(i) => Close(d, i)
    case AddEvent(titled, bounds, app, desktop, process, thread) => Add(d, titled, bounds, app, desktop, process, thread)
    case RestoreEvent(app, desktop) => RestoreOrFocus(d, app, desktop)
    case LaunchEvent(bounds, app, desktop, running, launched, looping, process, thread) =>
      Launch(d, bounds, app, desktop, running, launched, looping, process, thread)
    case ReshapeEvent(i, bounds, m) =>
      if i < |d.windows| then d.(windows := d.windows[i := d.windows[i].(bounds := bounds, maximized := m)]) else d
    case MouseDownEvent(x, y) => MouseDown(d, x, y)
    case MouseUpEvent => d.(drag := -1, mouseDown := -1)
  }

  function Run(d: Desktop, events: seq<Event>): Desktop {
    if events == [] then d else Step(Run(d, events[..|events| - 1]), events[|events| - 1])
  }

  const InitialDesktop := Desktop([], -1, -1, -1, 0)

  // ---- the focus invariant ----

  /**
   At most one window has the focus; it is the one at the active index, and it is visible, not
   minimised and on the desktop being shown.
   */
  ghost predicate FocusInvariant(d: Desktop) {
    && Bounded(d)
    && -1 <= d.active < |d.windows|
    && (forall i | 0 <= i < |d.windows| :: d.windows[i].focused <==> i == d.active)
    && (d.active >= 0 ==> Shown(d.windows[d.active], d.current))
  }

  ghost predicate Bounded(d: Desktop) {
    && |d.windows| <= MAX_WINDOWS && d.current < DESKTOPS
    && forall i | 0 <= i < |d.windows| :: d.windows[i].desktop < DESKTOPS
  }

  lemma RaisedAt(ws: seq<Window>, i: nat, j: nat)
    requires i < |ws| && j < |ws|
    ensures |Raised(ws, i)| == |ws|
    ensures Raised(ws, i)[j] == if j < i then ws[j] else if j < |ws| - 1 then ws[j + 1] else ws[i]
  {
  }

  /** Raising a window permutes the list and keeps the others in their relative order. */
  lemma RaisedPermutes(ws: seq<Window>, i: nat)
    requires i < |ws|
    ensures multiset(Raised(ws, i)) == multiset(ws)
    ensures Raised(ws, i)[..|ws| - 1] == ws[..i] + ws[i + 1..] && Raised(ws, i)[|ws| - 1] == ws[i]
  {
    assert ws == ws[..i] + [ws[i]] + ws[i + 1..];
  }

  /** Focusing needs only the size and desktop bounds: it clears whatever focus was there before. */
  lemma FocusEstablishes(d: Desktop, i: nat)
    requires Bounded(d)
    requires i < |d.windows| && Shown(d.windows[i], d.current)
    ensures FocusInvariant(Focus(d, i))
    ensures var d' := Focus(d, i);
            d'.active == |d.windows| - 1 == |d'.windows| - 1 && d'.windows[d'.active] == d.windows[i].(focused := true)
    ensures var d' := Focus(d, i);
            && (forall j | 0 <= j < i :: d'.windows[j] == d.windows[j].(focused := false))
            && (forall j | i <= j < |d.windows| - 1 :: d'.windows[j] == d.windows[j + 1].(focused := false))
  {
    var ws := Unfocused(d.windows);
    forall j | 0 <= j < |ws| ensures Raised(ws, i)[j] == if j < i then ws[j] else if j < |ws| - 1 then ws[j + 1] else ws[i] {
      RaisedAt(ws, i, j);
    }
    RaisedAt(ws, i, 0);
  }

  lemma FocusKeepsBounds(d: Desktop, i: nat)
    requires d.drag < |d.windows|
    ensures |Focus(d, i).windows| == |d.windows| && Focus(d, i).drag < |d.windows|
  {
  }

  lemma FocusTopEstablishes(d: Desktop)
    requires Bounded(d)
    ensures FocusInvariant(FocusTop(d))
  {
    hide Focus;
    var top := TopShown(d.windows, d.current);
    if top >= 0 { FocusEstablishes(d, top); }
  }

  lemma RestoreKeepsInvariant(d: Desktop, app: nat, desktop: nat)
    requires FocusInvariant(d)
    ensures FocusInvariant(RestoreOrFocus(d, app, desktop))
    ensures |RestoreOrFocus(d, app, desktop).windows| == |d.windows|
    ensures var d', existing := RestoreOrFocus(d, app, desktop), FindByApp(d.windows, app, desktop);
            existing >= 0 ==>
              && d'.active >= 0 && d'.current == desktop
              && d'.windows[d'.active] == d.windows[existing].(visible := true, minimized := false, maximized := false, focused := true)
  {
    hide Focus;
    var existing := FindByApp(d.windows, app, desktop);
    if existing >= 0 {
      var w := d.windows[existing].(visible := true, minimized := false, maximized := false);
      var d1 := d.(windows := d.windows[existing := w]);
      if d1.current != desktop {
        var switched := d1.(current := desktop, drag := -1);
        var top := TopShown(switched.windows, desktop);
        assert Shown(switched.windows[existing], desktop);
        assert top >= existing;
        FocusEstablishes(switched, top);
        var d2 := Focus(switched, top);
        if top == existing {
          FocusRejectsShifted(switched, existing);
        } else {
          FocusEstablishes(d2, existing);
        }
      } else {
        FocusEstablishes(d1, existing);
      }
    }
  }

  /**
   The index `existing` may have gone stale: if its window was raised, the slot now holds a window
   from above the topmost shown one, which focusing must refuse, or the very same window.
   */
  lemma FocusRejectsShifted(d: Desktop, top: nat)
    requires Bounded(d) && top < |d.windows|
    requires top == TopShown(d.windows, d.current)
    ensures var d' := Focus(d, top);
            var again := Focus(d', top);
            FocusInvariant(again) && again.active == d'.active && again.windows == d'.windows
  {
    FocusEstablishes(d, top);
    var d' := Focus(d, top);
    if top < |d.windows| - 1 {
      assert d'.windows[top] == d.windows[top + 1].(focused := false);
    } else {
      FocusEstablishes(d', top);
      assert Focus(d', top).windows == d'.windows;
    }
  }

  lemma StepKeepsInvariant(d: Desktop, e: Event)
    requires FocusInvariant(d)
    ensures FocusInvariant(Step(d, e))
  {
    hide Focus, FocusTop, RestoreOrFocus;
    match e
    case FocusEvent(i) => FocusKeepsInvariant(d, i);
    case SwitchEvent(desktop) => SwitchKeepsInvariant(d, desktop);
    case MinimizeEvent(i) =>
      if i < |d.windows| && d.active == i {
        FocusTopEstablishes(d.(windows := d.windows[i := d.windows[i].(minimized := true)], drag := -1));
      }
    case TaskbarEvent(i) =>
      if i < |d.windows| { FocusKeepsInvariant(d.(windows := d.windows[i := d.windows[i].(minimized := false)]), i); }
    case CloseEvent(i) =>
      if i < |d.windows| && d.active == i {
        var d' := d.(windows := d.windows[i := d.windows[i].(visible := false, focused := false)],
                     drag := if d.drag == i then -1 else d.drag,
                     mouseDown := if d.mouseDown == i then -1 else d.mouseDown);
        FocusTopEstablishes(d');
      }
    case AddEvent(titled, bounds, app, desktop, process, thread) =>
    case RestoreEvent(app, desktop) => RestoreKeepsInvariant(d, app, desktop);
    case LaunchEvent(bounds, app, desktop, running, launched, looping, process, thread) =>
      LaunchKeepsInvariant(d, bounds, app, desktop, running, launched, looping, process, thread);
    case ReshapeEvent(i, bounds, m) =>
    case MouseDownEvent(x, y) => MouseDownKeepsInvariant(d, x, y);
    case MouseUpEvent =>
  }

  lemma FocusKeepsInvariant(d: Desktop, i: nat)
    requires FocusInvariant(d)
    ensures FocusInvariant(Focus(d, i))
  {
    if i < |d.windows| && Shown(d.windows[i], d.current) {
      hide Focus;
      FocusEstablishes(d, i);
    }
  }

  lemma SwitchKeepsInvariant(d: Desktop, desktop: nat)
    requires FocusInvariant(d)
    ensures FocusInvariant(Switch(d, desktop))
  {
    hide FocusTop;
    if desktop < DESKTOPS { FocusTopEstablishes(d.(current := desktop, drag := -1)); }
  }

  lemma LaunchKeepsInvariant(d: Desktop, bounds: Rect, app: nat, desktop: nat, running: bool, launched: bool, looping: bool, process: nat, thread: nat)
    requires FocusInvariant(d)
    ensures FocusInvariant(Launch(d, bounds, app, desktop, running, launched, looping, process, thread))
  {
    hide RestoreOrFocus, Switch;
    if running {
      RestoreKeepsInvariant(d, app, desktop);
    } else if launched && !(FindByApp(d.windows, app, desktop) < 0 && !Registrable(d, true, bounds, desktop)) {
      var hidden := FindByApp(d.windows, app, desktop);
      var d1 := if hidden < 0 then Add(d, true, bounds, app, desktop, process, thread)
                else d.(windows := d.windows[hidden := d.windows[hidden].(
                          bounds := bounds, visible := true, minimized := false, maximized := false, process := process, thread := thread)]);
      assert FocusInvariant(d1);
      SwitchKeepsInvariant(d1, desktop);
      RestoreKeepsInvariant(if d1.current != desktop then Switch(d1, desktop) else d1, app, desktop);
    }
  }

  /** Over every run of events, starting from the empty desktop. */
  lemma {:induction false} FocusInvariantHolds(events: seq<Event>)
    ensures FocusInvariant(Run(InitialDesktop, events))
  {
    hide Step;
    if events != [] {
      var last := |events| - 1;
      FocusInvariantHolds(events[..last]);
      StepKeepsInvariant(Run(InitialDesktop, events[..last]), events[last]);
    }
  }

  lemma MouseDownKeepsInvariant(d: Desktop, x: int, y: int)
    requires FocusInvariant(d)
    ensures FocusInvariant(MouseDown(d, x, y))
  {
    hide Focus, TopAt, Disarmed;
    var front := TopAt(d.windows, d.current, x, y, false);
    if front >= 0 {
      FocusKeepsInvariant(d.(mouseDown := front, drag := TopAt(d.windows, d.current, x, y, true)), front);
    }
  }

  /**
   What a press should arm: a drag of the window pressed, now the topmost one, when the press is on
   its title bar, not on a button, and the window is not maximised.
   */
  function IntendedDrag(d: Desktop, x: int, y: int): int {
    var body := TopAt(d.windows, d.current, x, y, false);
    if body >= 0 && OnTitleBar(d.windows[body], x, y) && !Disarmed(d.windows[body], x, y) then |d.windows| - 1 else -1
  }

  ghost predicate TitleBarsInside(ws: seq<Window>) {
    forall i | 0 <= i < |ws| ::
      var b := ws[i].bounds;
      b.height >= TITLE_BAR_HEIGHT && b.x + b.width < 0x8000_0000 && b.y + b.height < 0x8000_0000
  }

  /**
   The press arms what it should exactly when: the topmost window and the topmost title bar under
   the point agree; or the raised window calls the drag off; or, when nothing had to be raised,
   no other title bar lies underneath or its window calls the drag off. Otherwise raising a window
   by its body arms a drag of it, or a covered title bar arms a drag of the window below.
   */
  lemma MouseDownArmsIntendedDrag(d: Desktop, x: int, y: int)
    requires TitleBarsInside(d.windows)
    ensures var body, title := TopAt(d.windows, d.current, x, y, false), TopAt(d.windows, d.current, x, y, true);
            MouseDown(d, x, y).drag == IntendedDrag(d, x, y) <==>
              || title == body
              || (0 <= body < |d.windows| - 1 && Disarmed(d.windows[body], x, y))
              || (body == |d.windows| - 1 && (title < 0 || Disarmed(d.windows[title], x, y)))
  {
    var body, title := TopAt(d.windows, d.current, x, y, false), TopAt(d.windows, d.current, x, y, true);
    TitleHitIsBodyHit(d, x, y);
    hide TopAt, OnButton;
    if body >= 0 {
      PressRaises(d.(mouseDown := body, drag := title), body);
    }
  }

  lemma TitleHitIsBodyHit(d: Desktop, x: int, y: int)
    requires TitleBarsInside(d.windows)
    ensures TopAt(d.windows, d.current, x, y, true) <= TopAt(d.windows, d.current, x, y, false)
    ensures var body, title := TopAt(d.windows, d.current, x, y, false), TopAt(d.windows, d.current, x, y, true);
            body >= 0 ==> (title == body <==> OnTitleBar(d.windows[body], x, y))
  {
    var title := TopAt(d.windows, d.current, x, y, true);
    if title >= 0 {
      assert Hit(d.windows[title], d.current, x, y, false);
    }
  }

  lemma PressRaises(d: Desktop, i: nat)
    requires i < |d.windows| && Shown(d.windows[i], d.current) && d.drag <= i
    ensures var f := Focus(d, i);
            && |f.windows| == |d.windows|
            && f.drag == (if i == |d.windows| - 1 then d.drag else |d.windows| - 1)
            && f.windows[|d.windows| - 1] == d.windows[i].(focused := true)
            && (i == |d.windows| - 1 ==> forall j | 0 <= j < i :: f.windows[j] == d.windows[j].(focused := false))
  {
    var ws := Unfocused(d.windows);
    forall j | 0 <= j < |ws| ensures Raised(ws, i)[j] == if j < i then ws[j] else if j < |ws| - 1 then ws[j + 1] else ws[i] {
      RaisedAt(ws, i, j);
    }
    RaisedAt(ws, i, 0);
  }

  // ---- presses that go wrong, from the empty desktop ----

  lemma RunOneMore(d: Desktop, events: seq<Event>, e: Event)
    ensures Run(d, events + [e]) == Step(Run(d, events), e)
  {
    hide Step;
    assert (events + [e])[..|events + [e]| - 1] == events;
  }

  /** Two windows added one after the other. */
  lemma TwoWindows(a: Rect, b: Rect)
    requires !Empty(a) && !Empty(b)
    ensures Run(InitialDesktop, [AddEvent(true, a, 0, 0, 0, 0), AddEvent(true, b, 1, 0, 0, 0)])
         == Desktop([Window(a, 0, 0, true, false, false, false, 0, 0), Window(b, 1, 0, true, false, false, false, 0, 0)], -1, -1, -1, 0)
  {
    var first, second := AddEvent(true, a, 0, 0, 0, 0), AddEvent(true, b, 1, 0, 0, 0);
    assert [] + [first] == [first] && [first] + [second] == [first, second];
    RunOneMore(InitialDesktop, [], first);
    RunOneMore(InitialDesktop, [first], second);
  }

  const SideBySide: seq<Event> := [AddEvent(true, Rect(0, 40, 500, 300), 0, 0, 0, 0), AddEvent(true, Rect(600, 40, 500, 300), 1, 0, 0, 0)]

  const Stacked: seq<Event> := [AddEvent(true, Rect(0, 100, 500, 300), 0, 0, 0, 0), AddEvent(true, Rect(0, 40, 500, 300), 1, 0, 0, 0)]

  /** The failing case exists: pressing the body of a window that is not on top starts a drag of it. */
  lemma BodyPressStartsDrag()
    ensures var d := Run(InitialDesktop, SideBySide);
            var d' := MouseDown(d, 100, 200);
            IntendedDrag(d, 100, 200) == -1 && |d'.windows| == 2 && d'.drag == 1 && d'.windows[1].app == 0
  {
    var a, b := Rect(0, 40, 500, 300), Rect(600, 40, 500, 300);
    TwoWindows(a, b);
    var below, above := Window(a, 0, 0, true, false, false, false, 0, 0), Window(b, 1, 0, true, false, false, false, 0, 0);
    var d := Desktop([below, above], -1, -1, -1, 0);
    assert !Hit(above, 0, 100, 200, false) && !Hit(above, 0, 100, 200, true);
    assert Hit(below, 0, 100, 200, false) && !Hit(below, 0, 100, 200, true);
    assert TopAt(d.windows, 0, 100, 200, false) == 0 && TopAt(d.windows, 0, 100, 200, true) == -1;
    assert !Disarmed(below, 100, 200);
    hide TopAt, Hit, Disarmed, Run;
    PressRaises(d.(mouseDown := 0, drag := -1), 0);
  }

  /** And pressing the topmost window where it covers another's title bar starts a drag of the covered window. */
  lemma CoveredPressStartsDrag()
    ensures var d := Run(InitialDesktop, Stacked);
            var d' := MouseDown(d, 100, 110);
            && IntendedDrag(d, 100, 110) == -1 && TopAt(d.windows, d.current, 100, 110, false) == 1
            && |d'.windows| == 2 && d'.drag == 0 && d'.windows[0].app == 0
  {
    var a, b := Rect(0, 100, 500, 300), Rect(0, 40, 500, 300);
    TwoWindows(a, b);
    var below, above := Window(a, 0, 0, true, false, false, false, 0, 0), Window(b, 1, 0, true, false, false, false, 0, 0);
    var d := Desktop([below, above], -1, -1, -1, 0);
    assert Hit(above, 0, 100, 110, false) && !Hit(above, 0, 100, 110, true) && Hit(below, 0, 100, 110, true);
    assert TopAt(d.windows, 0, 100, 110, false) == 1 && TopAt(d.windows, 0, 100, 110, true) == 0;
    assert !Disarmed(below, 100, 110) && !OnTitleBar(above, 100, 110);
    hide TopAt, Hit, Disarmed, OnButton, Run, OnTitleBar;
    PressRaises(d.(mouseDown := 1, drag := 0), 1);
  }

  /** On a window wide enough the three buttons lie in the title bar, from the right, a gap between any two. */
  lemma ButtonsApart(w: Window, slot: nat, other: nat, x: int, y: int)
    requires w.bounds.width >= 71 && w.bounds.x + w.bounds.width < 0x8000_0000 && w.bounds.y + TITLE_BAR_HEIGHT < 0x8000_0000
    requires slot < 3 && other < 3 && PointInRect(x, y, ButtonRect(w, slot))
    ensures OnTitleBar(w, x, y)
    ensures slot < other ==> ButtonRect(w, other).x + BUTTON_SIZE < ButtonRect(w, slot).x && !PointInRect(x, y, ButtonRect(w, other))
    ensures Right(w.bounds) - (ButtonRect(w, 0).x + BUTTON_SIZE) == 9
  {
  }
}
