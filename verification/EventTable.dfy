/** The event objects as the program keeps them: one fixed table, updated in place. */
module EventTable {
  import opened Events

  class EventTable {
    const objects: array<Object>
    var nextFd: int
    var tick: nat

    predicate Valid()
      reads this
    {
      objects.Length == MAX_OBJECTS
    }

    function State(): (t: Table)
      requires Valid()
      reads this, objects
      ensures Shaped(t)
    {
      Table(objects[..], nextFd, tick)
    }

    constructor ()
      ensures Valid() && State() == Boot() && fresh(objects)
    {
      objects := new Object[MAX_OBJECTS](_ => NoObject);
      nextFd, tick := 32, 0;
      new;
      assert objects[..] == Boot().objects;
    }

    method FindEventObject(fd: int) returns (found: nat)
      requires Valid()
      ensures found == Find(objects[..], fd)
    {
      found := 0;
      while found < MAX_OBJECTS
        invariant found <= MAX_OBJECTS && Find(objects[..], fd) == Find(objects[..], fd, found)
      {
        if objects[found].kind != Empty && objects[found].fd == fd {
          return;
        }
        found := found + 1;
      }
    }

    /** Clear a free slot, give it the next descriptor and a kind. */
    method AllocateEventObject(kind: Kind) returns (slot: nat)
      requires Valid()
      modifies objects, `nextFd
      ensures State() == Allocate(old(State()), NoObject.(kind := kind))
      ensures slot == FindFree(old(objects[..]))
    {
      slot := 0;
      while slot < MAX_OBJECTS
        invariant slot <= MAX_OBJECTS && FindFree(objects[..]) == FindFree(objects[..], slot)
        invariant State() == old(State())
      {
        if objects[slot].kind == Empty {
          objects[slot] := NoObject.(fd := nextFd, kind := kind);
          nextFd := nextFd + 1;
          assert objects[..] == old(objects[..])[slot := objects[slot]];
          return;
        }
        slot := slot + 1;
      }
    }

    /** Test one object; an expired timer records its count on the way. */
    method EventReady(i: nat) returns (ready: bool)
      requires Valid() && i < MAX_OBJECTS
      modifies objects
      ensures objects[..] == old(objects[..])[i := Tested(old(objects[i]), tick)]
      ensures ready == IsReady(old(objects[i]), tick)
    {
      if objects[i].kind == Event {
        return objects[i].value != 0;
      }
      if objects[i].kind == Timer && objects[i].deadline != 0 && tick >= objects[i].deadline {
        var elapsed := tick - objects[i].deadline;
        objects[i] := objects[i].(value := 1 + if objects[i].interval != 0 then elapsed / objects[i].interval else 0);
        return true;
      }
      ready := false;
    }

    method KernelEpollCreate() returns (fd: int)
      requires Valid()
      modifies objects, `nextFd
      ensures State() == Step(old(State()), EpollCreateCall)
      ensures fd == if nextFd == old(nextFd) then -1 else old(nextFd)
    {
      var slot := AllocateEventObject(Epoll);
      fd := if slot < MAX_OBJECTS then objects[slot].fd else -1;
    }

    method KernelEpollAdd(epoll: int, fd: int) returns (added: bool)
      requires Valid()
      modifies objects
      ensures State() == Step(old(State()), EpollAddCall(epoll, fd))
      ensures added <==> State() != old(State())
    {
      var e := FindEventObject(epoll);
      var i := FindEventObject(fd);
      if e == MAX_OBJECTS || objects[e].kind != Epoll || i == MAX_OBJECTS || |objects[e].watches| >= MAX_WATCHES {
        return false;
      }
      objects[e] := objects[e].(watches := objects[e].watches + [fd]);
      assert objects[..] == old(objects[..])[e := objects[e]];
      assert |objects[e].watches| != |old(objects[..])[e].watches|;
      added := true;
    }

    /** Report ready watched descriptors in watch order, at most `capacity` of them. */
    method KernelEpollWait(epoll: int, capacity: nat) returns (ready: seq<int>)
      requires Valid()
      modifies objects
      ensures State() == Step(old(State()), EpollWaitCall(epoll, capacity))
      ensures var t, e := old(State()), Find(old(State()).objects, epoll);
              ready == if e == MAX_OBJECTS || t.objects[e].kind != Epoll then []
                       else FirstOf(ReadyAmong(t.objects, t.objects[e].watches, t.tick), capacity)
    {
      hide Find;
      EpollWaitReports(State(), epoll, capacity);
      ready := [];
      var e := FindEventObject(epoll);
      if e == MAX_OBJECTS || objects[e].kind != Epoll {
        return;
      }
      ghost var os := objects[..];
      var watches := objects[e].watches;
      var i := 0;
      while i < |watches| && |ready| < capacity
        invariant 0 <= i <= |watches| && |ready| <= capacity
        invariant Poll(objects[..], ready) == PollWatches(os, watches, tick, capacity, i)
      {
        var w := FindEventObject(watches[i]);
        if w < MAX_OBJECTS {
          var isReady := EventReady(w);
          if isReady {
            ready := ready + [objects[w].fd];
          }
        }
        i := i + 1;
      }
      PollStopsWhenFull(os, watches, tick, capacity, i, |watches|);
    }

    method KernelEventFd(initial: nat) returns (fd: int)
      requires Valid()
      modifies objects, `nextFd
      ensures State() == Step(old(State()), EventFdCall(initial))
      ensures fd == if nextFd == old(nextFd) then -1 else old(nextFd)
    {
      var slot := AllocateEventObject(Event);
      if slot < MAX_OBJECTS {
        objects[slot] := objects[slot].(value := initial);
        assert objects[..] == old(objects[..])[slot := objects[slot]];
      }
      fd := if slot < MAX_OBJECTS then objects[slot].fd else -1;
    }

    method KernelEventFdWrite(fd: int, value: nat) returns (accepted: bool)
      requires Valid() && value <= UINT64_MAX
      modifies objects
      ensures State() == Step(old(State()), EventWriteCall(fd, value))
      ensures accepted == WriteAccepted(old(State()), fd, value)
    {
      var i := FindEventObject(fd);
      if i == MAX_OBJECTS || objects[i].kind != Event || value == UINT64_MAX || UINT64_MAX - objects[i].value < value {
        return false;
      }
      objects[i] := objects[i].(value := objects[i].value + value);
      assert objects[..] == old(objects[..])[i := objects[i]];
      accepted := true;
    }

    /** A failing read delivers 0. */
    method KernelEventFdRead(fd: int) returns (value: nat)
      requires Valid()
      modifies objects
      ensures State() == Step(old(State()), EventReadCall(fd))
      ensures value == ReadValue(old(State()), EventReadCall(fd))
    {
      var i := FindEventObject(fd);
      if i == MAX_OBJECTS || objects[i].kind != Event || objects[i].value == 0 {
        return 0;
      }
      value := objects[i].value;
      objects[i] := objects[i].(value := 0);
      assert objects[..] == old(objects[..])[i := objects[i]];
    }

    method KernelTimerFd(initial: nat, interval: nat) returns (fd: int)
      requires Valid()
      modifies objects, `nextFd
      ensures State() == Step(old(State()), TimerFdCall(initial, interval))
      ensures fd == if nextFd == old(nextFd) then -1 else old(nextFd)
    {
      if initial == 0 {
        return -1;
      }
      var slot := AllocateEventObject(Timer);
      if slot == MAX_OBJECTS {
        return -1;
      }
      objects[slot] := objects[slot].(deadline := tick + initial, interval := interval);
      assert objects[..] == old(objects[..])[slot := objects[slot]];
      fd := objects[slot].fd;
    }

    /** A failing read delivers 0. */
    method KernelTimerFdRead(fd: int) returns (expirations: nat)
      requires Valid()
      modifies objects
      ensures State() == Step(old(State()), TimerReadCall(fd))
      ensures expirations == ReadValue(old(State()), TimerReadCall(fd))
    {
      var i := FindEventObject(fd);
      if i == MAX_OBJECTS || objects[i].kind != Timer {
        return 0;
      }
      var ready := EventReady(i);
      if !ready {
        assert objects[..] == old(objects[..]);
        return 0;
      }
      expirations := objects[i].value;
      var o := objects[i].(value := 0);
      objects[i] := if o.interval != 0 then o.(deadline := o.deadline + expirations * o.interval) else o.(deadline := 0);
      assert objects[..] == old(objects[..])[i := Consumed(Tested(old(objects[i]), tick))];
    }
  }

  lemma {:induction false} PollStopsWhenFull(os: seq<Object>, watches: seq<int>, tick: nat, capacity: nat, from: nat, to: nat)
    requires from <= to <= |watches|
    requires from < to ==> |PollWatches(os, watches, tick, capacity, from).ready| == capacity
    ensures PollWatches(os, watches, tick, capacity, to) == PollWatches(os, watches, tick, capacity, from)
    decreases |watches| - from
  {
    if from < to {
      PollStopsWhenFull(os, watches, tick, capacity, from + 1, to);
    }
  }
}
