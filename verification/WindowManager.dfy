/** The window list as the program keeps it: a fixed array, a count and indices, updated in place. */
module WindowManager {
  import opened Geometry
  import opened Windows

  class WindowManager {
    const windows: array<Window>
    var count: nat
    var active: int
    var drag: int
    var mouseDown: int
    var current: nat

    ghost predicate Valid()
      reads this, windows
    {
      windows.Length == MAX_WINDOWS && count <= MAX_WINDOWS && FocusInvariant(State())
    }

    /** The abstract window list. */
    function State(): Desktop
      requires count <= windows.Length
      reads this, windows
    {
      Desktop(windows[..count], active, drag, mouseDown, current)
    }

    constructor ()
      ensures Valid() && State() == InitialDesktop && fresh(windows)
    {
      windows := new Window[MAX_WINDOWS](_ => Window(Nothing, 0, 0, false, false, false, false, 0, 0));
      count, active, drag, mouseDown, current := 0, -1, -1, -1, 0;
    }

    method BringWindowToFront(index: nat) returns (front: int)
      requires count <= windows.Length
      modifies windows, `drag
      ensures front == if index < count then count - 1 else -1
      ensures windows[..count] == if index < count then Raised(old(windows[..count]), index) else old(windows[..count])
      ensures drag == if index + 1 < count then count - 1 else old(drag)
    {
      if index >= count || index + 1 == count {
        return if index < count then index else -1;
      }
      ghost var before := windows[..count];
      var selected := windows[index];
      var i := index;
      while i + 1 < count
        invariant index <= i < count
        invariant forall j | 0 <= j < index || i <= j < count :: windows[j] == before[j]
        invariant forall j | index < j <= i :: windows[j - 1] == before[j]
      {
        windows[i] := windows[i + 1];
        i := i + 1;
      }
      windows[count - 1] := selected;
      drag := count - 1;
      forall j | 0 <= j < count ensures windows[j] == Raised(before, index)[j] {
        RaisedAt(before, index, j);
        if index <= j < count - 1 { assert windows[j + 1 - 1] == before[j + 1]; }
      }
      front := drag;
    }

    method ClearWindowFocus()
      requires count <= windows.Length
      modifies windows, `active
      ensures windows[..count] == Unfocused(old(windows[..count])) && active == -1
    {
      for i := 0 to count
        invariant forall j | 0 <= j < count ::
            windows[j] == if j < i then old(windows[j]).(focused := false) else old(windows[j])
      {
        windows[i] := windows[i].(focused := false);
      }
      active := -1;
    }

    method FocusWindow(index: nat) returns (focused: bool)
      requires count <= windows.Length
      modifies windows, `active, `drag
      ensures State() == Focus(old(State()), index)
      ensures focused == (index < count && Shown(old(windows[..])[index], current))
    {
      if index >= count || !windows[index].visible || windows[index].minimized || windows[index].desktop != current {
        return false;
      }
      ghost var d := State();
      ClearWindowFocus();
      var front := BringWindowToFront(index);
      active := front;
      windows[front] := windows[front].(focused := true);
      assert windows[..count] == Raised(Unfocused(d.windows), index)[front := Raised(Unfocused(d.windows), index)[front].(focused := true)];
      focused := true;
    }

    method FindTopVisibleWindow() returns (top: int)
      requires count <= windows.Length
      ensures top == TopShown(windows[..count], current)
    {
      var i := count - 1;
      assert windows[..count][..i + 1] == windows[..count];
      while i >= 0
        invariant -1 <= i < count
        invariant TopShown(windows[..count], current) == TopShown(windows[..i + 1], current)
      {
        assert windows[..i + 1][..i] == windows[..i];
        if windows[i].visible && !windows[i].minimized && windows[i].desktop == current {
          return i;
        }
        i := i - 1;
      }
      top := -1;
    }

    method FocusTopVisibleWindow()
      requires count <= windows.Length
      modifies windows, `active, `drag
      ensures State() == FocusTop(old(State()))
    {
      var top := FindTopVisibleWindow();
      if top >= 0 {
        var _ := FocusWindow(top);
      } else {
        ClearWindowFocus();
      }
    }

    method SwitchVirtualDesktop(desktop: nat) returns (switched: bool)
      requires Valid()
      modifies this, windows
      ensures Valid() && State() == Switch(old(State()), desktop) && switched == (desktop < DESKTOPS)
    {
      SwitchKeepsInvariant(State(), desktop);
      if desktop >= DESKTOPS {
        return false;
      }
      current := desktop;
      drag := -1;
      FocusTopVisibleWindow();
      switched := true;
    }

    method MinimizeWindow(index: nat)
      requires Valid()
      modifies this, windows
      ensures Valid() && State() == Minimize(old(State()), index)
    {
      StepKeepsInvariant(State(), MinimizeEvent(index));
      if index >= count {
        return;
      }
      windows[index] := windows[index].(minimized := true);
      drag := -1;
      assert windows[..count] == old(windows[..count])[index := old(windows[index]).(minimized := true)];
      if active == index {
        FocusTopVisibleWindow();
      }
    }

    method RestoreWindowFromTaskbar(index: nat)
      requires Valid()
      modifies this, windows
      ensures Valid() && State() == RestoreFromTaskbar(old(State()), index)
    {
      StepKeepsInvariant(State(), TaskbarEvent(index));
      if index >= count || !windows[index].visible {
        return;
      }
      windows[index] := windows[index].(minimized := false);
      assert windows[..count] == old(windows[..count])[index := old(windows[index]).(minimized := false)];
      var _ := FocusWindow(index);
    }

    method CloseWindow(index: nat)
      requires Valid()
      modifies this, windows
      ensures Valid() && State() == Close(old(State()), index)
    {
      hide FocusTop;
      StepKeepsInvariant(State(), CloseEvent(index));
      if index >= count {
        return;
      }
      windows[index] := windows[index].(visible := false, focused := false);
      if drag == index {
        drag := -1;
      }
      if mouseDown == index {
        mouseDown := -1;
      }
      assert windows[..count] == old(windows[..count])[index := old(windows[index]).(visible := false, focused := false)];
      if active == index {
        FocusTopVisibleWindow();
      }
    }

    method AddWindow(titled: bool, bounds: Rect, app: nat, desktop: nat, process: nat, thread: nat) returns (added: bool)
      requires Valid()
      modifies this, windows
      ensures Valid() && State() == Add(old(State()), titled, bounds, app, desktop, process, thread)
      ensures added == (titled && !Empty(bounds) && desktop < DESKTOPS && old(count) < MAX_WINDOWS)
    {
      if !titled || bounds.width == 0 || bounds.height == 0 || desktop >= DESKTOPS || count >= MAX_WINDOWS {
        return false;
      }
      windows[count] := Window(bounds, app, desktop, true, false, false, false, process, thread);
      count := count + 1;
      assert windows[..count] == old(windows[..count]) + [windows[count - 1]];
      added := true;
    }

    method FindWindowByApp(app: nat, desktop: nat) returns (found: int)
      requires count <= windows.Length
      ensures found == FindByApp(windows[..count], app, desktop)
    {
      for i := 0 to count
        invariant FindByApp(windows[..count], app, desktop) == FindByApp(windows[..count], app, desktop, i)
      {
        if windows[i].app == app && windows[i].desktop == desktop {
          return i;
        }
      }
      found := -1;
    }

    /**
     Restoring a running app ends with that app's window active and on top, although the desktop
     switch in between may have moved another window into the slot the search returned.
     */
    method RestoreOrFocusRunningApp(app: nat, desktop: nat) returns (restored: bool)
      requires Valid()
      modifies this, windows
      ensures Valid() && State() == RestoreOrFocus(old(State()), app, desktop)
      ensures restored <==> exists i :: 0 <= i < old(count) && old(windows[..count])[i].app == app && old(windows[..count])[i].desktop == desktop
      ensures restored ==> active >= 0 && windows[active].app == app && windows[active].desktop == desktop == current
    {
      hide Focus, FocusTop, Switch, FindByApp;
      RestoreKeepsInvariant(State(), app, desktop);
      var existing := FindWindowByApp(app, desktop);
      if existing < 0 {
        return false;
      }
      windows[existing] := windows[existing].(visible := true, minimized := false, maximized := false);
      assert windows[..count] == old(windows[..count])[existing := old(windows[existing]).(visible := true, minimized := false, maximized := false)];
      if current != desktop {
        assert FocusInvariant(State());
        var _ := SwitchVirtualDesktop(desktop);
      }
      var _ := FocusWindow(existing);
      restored := true;
    }

    method FindTopWindowAt(x: int, y: int, titleOnly: bool) returns (top: int)
      requires count <= windows.Length
      ensures top == TopAt(windows[..count], current, x, y, titleOnly)
    {
      var i := count - 1;
      assert windows[..count][..i + 1] == windows[..count];
      while i >= 0
        invariant -1 <= i < count
        invariant TopAt(windows[..count], current, x, y, titleOnly) == TopAt(windows[..i + 1], current, x, y, titleOnly)
      {
        assert windows[..i + 1][..i] == windows[..i];
        if Hit(windows[i], current, x, y, titleOnly) {
          return i;
        }
        i := i - 1;
      }
      top := -1;
    }

    method PressMouse(x: int, y: int)
      requires Valid()
      modifies this, windows
      ensures Valid() && State() == MouseDown(old(State()), x, y)
    {
      hide Focus, TopAt, Disarmed, FocusInvariant;
      MouseDownKeepsInvariant(State(), x, y);
      mouseDown := FindTopWindowAt(x, y, false);
      drag := FindTopWindowAt(x, y, true);
      var front := mouseDown;
      if front >= 0 {
        FocusKeepsBounds(State(), front);
        var _ := FocusWindow(front);
        if drag == front {
          drag := count - 1;
        }
      }
      if drag >= 0 {
        if Disarmed(windows[drag], x, y) {
          drag := -1;
        }
      }
    }
  }
}
