/** Event objects from their creation on: what each descriptor has delivered, and what it still owes. */
module EventLifetimes {
  import opened Arithmetic
  import opened Events

  // ---- creation ----

  /** A new object gets the next descriptor, in a slot that was free; no other object changes. */
  lemma AllocatesFresh(t: Table, o: Object) returns (i: nat)
    requires Shaped(t) && DistinctFds(t) && o.kind != Empty && exists j :: 0 <= j < MAX_OBJECTS && t.objects[j].kind == Empty
    ensures i < MAX_OBJECTS && t.objects[i].kind == Empty
    ensures Allocate(t, o) == t.(objects := t.objects[i := o.(fd := t.nextFd)], nextFd := t.nextFd + 1)
    ensures DistinctFds(Allocate(t, o)) && forall j | 0 <= j < MAX_OBJECTS && t.objects[j].kind != Empty :: t.objects[j].fd < t.nextFd
  {
    hide FindFree;
    i := FindFree(t.objects);
  }

  /** With no slot free, or a timer of no delay, nothing is created. */
  lemma RefusesExactly(t: Table, c: Call)
    requires Shaped(t) && (c.EpollCreateCall? || c.EventFdCall? || c.TimerFdCall?)
    ensures Step(t, c) == t <==> (c.TimerFdCall? && c.initial == 0) || forall j | 0 <= j < MAX_OBJECTS :: t.objects[j].kind != Empty
  {
    var i := FindFree(t.objects);
    hide FindFree;
    if i < MAX_OBJECTS && Step(t, c) == t { assert Step(t, c).nextFd != t.nextFd || (c.TimerFdCall? && c.initial == 0); }
  }

  // ---- timers ----

  /** How many expirations are due by a tick: the first one at `first`, and one every interval after it. */
  function Due(first: nat, interval: nat, tick: nat): nat {
    if tick < first then 0 else if interval == 0 then 1 else 1 + (tick - first) / interval
  }

  /** Between reads nothing is due that a read would not deliver. */
  lemma DueStays(first: nat, n: nat, sum: nat, tick: nat, tick': nat)
    requires n > 0 && tick <= tick' < first + sum * n && Due(first, n, tick) == sum
    ensures Due(first, n, tick') == sum
  {
    if sum == 0 {
      assert sum * n == 0;
    } else {
      var q, x := sum - 1, (sum - 1) * n;
      assert sum * n == x + n;
      assert (tick - first) / n == q && x <= tick - first by { QuotientBelow(tick - first, n); }
      QuotientIs(tick' - first, n, q, tick' - first - x);
    }
  }

  lemma QuotientBelow(x: nat, n: nat)
    requires n > 0
    ensures (x / n) * n <= x
  {
  }

  /** What the periodic timer in slot i still owes: with what it has delivered it makes what is due. */
  predicate Owes(t: Table, i: nat, first: nat, delivered: nat)
    requires Shaped(t) && i < MAX_OBJECTS
  {
    delivered + ReadValue(t, TimerReadCall(t.objects[i].fd)) == Due(first, t.objects[i].interval, t.tick)
  }

  lemma OwesAfter(t: Table, i: nat, first: nat, delivered: nat, c: Call)
    requires Shaped(t) && DistinctFds(t) && i < MAX_OBJECTS && t.objects[i].kind == Timer && t.objects[i].interval != 0 && first > 0
    requires t.objects[i].deadline == first + delivered * t.objects[i].interval && Owes(t, i, first, delivered)
    ensures var v := if c == TimerReadCall(t.objects[i].fd) then ReadValue(t, c) else 0;
            Owes(Step(t, c), i, first, delivered + v)
  {
    hide Step, ReadValue, Due;
    var o, t' := t.objects[i], Step(t, c);
    StepOnObject(t, c, i);
    StepKeepsFds(t, c);
    var v := if c == TimerReadCall(o.fd) then ReadValue(t, c) else 0;
    var n := o.interval;
    assert (delivered + v) * n == delivered * n + v * n;
    ReadSucceedsWhenExpired(t', i);
    if t'.tick >= t'.objects[i].deadline {
      DeadlinePositive(first, delivered + v, n);
      ReadCatchesUp(t', i, first, delivered + v);
      DueIs(first, n, t'.tick, delivered + v);
    } else if v != 0 {
      ReadSucceedsWhenExpired(t, i);
    } else {
      NothingRead(t, i, c);
      DueStays(first, n, delivered, t.tick, t'.tick);
    }
  }

  lemma DeadlinePositive(first: nat, k: nat, n: nat)
    requires first > 0
    ensures first + k * n > 0
  {
  }

  lemma DueIs(first: nat, n: nat, tick: nat, sum: nat)
    requires n > 0 && tick >= first + sum * n
    ensures Due(first, n, tick) == 1 + (tick - first) / n
  {
    assert sum * n >= 0;
  }

  lemma NothingRead(t: Table, i: nat, c: Call)
    requires Shaped(t) && DistinctFds(t) && i < MAX_OBJECTS && t.objects[i].kind == Timer && t.tick < t.objects[i].deadline
    ensures ReadValue(t, TimerReadCall(t.objects[i].fd)) == 0
  {
    hide Find;
    FindFinds(t, i);
  }

  lemma {:induction false} PeriodicOwes(t: Table, i: nat, calls: seq<Call>)
    requires Shaped(t) && DistinctFds(t) && i < MAX_OBJECTS && t.objects[i].kind == Timer
    requires t.objects[i].interval != 0 && t.objects[i].deadline > t.tick
    ensures Owes(Run(t, calls), i, t.objects[i].deadline, Delivered(t, calls, TimerReadCall(t.objects[i].fd)))
  {
    hide Step, ReadValue, Owes;
    DeadlineCountsExpirations(t, i, calls);
    if calls == [] {
      NothingDueYet(t, i);
    } else {
      var before, c := calls[..|calls| - 1], calls[|calls| - 1];
      DeadlineCountsExpirations(t, i, before);
      PeriodicOwes(t, i, before);
      OwesAfter(Run(t, before), i, t.objects[i].deadline, Delivered(t, before, TimerReadCall(t.objects[i].fd)), c);
    }
  }

  lemma NothingDueYet(t: Table, i: nat)
    requires Shaped(t) && DistinctFds(t) && i < MAX_OBJECTS && t.objects[i].kind == Timer && t.objects[i].deadline > t.tick
    ensures ReadValue(t, TimerReadCall(t.objects[i].fd)) == 0 && Owes(t, i, t.objects[i].deadline, 0)
  {
    NothingRead(t, i, TickCall);
  }

  lemma {:induction false} OneShotOwes(t: Table, i: nat, calls: seq<Call>)
    requires Shaped(t) && DistinctFds(t) && i < MAX_OBJECTS && t.objects[i].kind == Timer
    requires t.objects[i].interval == 0 && t.objects[i].deadline > t.tick
    ensures Owes(Run(t, calls), i, t.objects[i].deadline, Delivered(t, calls, TimerReadCall(t.objects[i].fd)))
  {
    hide Step, ReadValue;
    var first, read := t.objects[i].deadline, TimerReadCall(t.objects[i].fd);
    OneShotDeliversOnce(t, i, calls);
    OneShotDeliversOnce(t, i, calls + [read]);
    DeliveredByOneMore(t, calls, read);
    ReadSucceedsWhenExpired(Run(t, calls), i);
    if calls != [] {
      var before, c := calls[..|calls| - 1], calls[|calls| - 1];
      OneShotOwes(t, i, before);
      OneShotDeliversOnce(t, i, before);
      StepOnObject(Run(t, before), c, i);
      ReadSucceedsWhenExpired(Run(t, before), i);
      OneShotDeliversOnce(t, i, before + [read]);
      DeliveredByOneMore(t, before, read);
    }
  }

  /**
   From its creation on, what a timer has delivered and what a read would deliver now together are
   the expirations due by now, the first of them `initial` ticks after the creation.
   */
  lemma TimerDeliversWhatIsDue(t: Table, initial: nat, interval: nat, calls: seq<Call>)
    requires Shaped(t) && DistinctFds(t) && initial > 0 && exists j :: 0 <= j < MAX_OBJECTS && t.objects[j].kind == Empty
    ensures var t1, read := Step(t, TimerFdCall(initial, interval)), TimerReadCall(t.nextFd);
            var t' := Run(t1, calls);
            Delivered(t1, calls, read) + ReadValue(t', read) == Due(t.tick + initial, interval, t'.tick)
  {
    var o := NoObject.(kind := Timer, deadline := t.tick + initial, interval := interval);
    var i := AllocatesFresh(t, o);
    var t1 := Step(t, TimerFdCall(initial, interval));
    assert t1 == Allocate(t, o) && t1.objects[i] == o.(fd := t.nextFd);
    hide Step, Run, ReadValue, Delivered, Due, DistinctFds;
    SameFd(t1, i, calls);
    if interval == 0 { OneShotOwes(t1, i, calls); } else { PeriodicOwes(t1, i, calls); }
  }

  lemma {:induction false} SameFd(t: Table, i: nat, calls: seq<Call>)
    requires Shaped(t) && DistinctFds(t) && i < MAX_OBJECTS && t.objects[i].kind != Empty
    ensures var o, o' := t.objects[i], Run(t, calls).objects[i];
            DistinctFds(Run(t, calls)) && o'.fd == o.fd && o'.kind == o.kind && o'.interval == o.interval
  {
    hide Step, DistinctFds;
    if calls != [] {
      SameFd(t, i, calls[..|calls| - 1]);
      StepOnObject(Run(t, calls[..|calls| - 1]), calls[|calls| - 1], i);
    }
  }

  // ---- counters ----

  /** From its creation on, an event counter's initial value and all it was written are what was read and what is left. */
  lemma CounterConservesFromCreation(t: Table, initial: nat, calls: seq<Call>)
    requires Shaped(t) && DistinctFds(t) && exists j :: 0 <= j < MAX_OBJECTS && t.objects[j].kind == Empty
    ensures var t1, fd := Step(t, EventFdCall(initial)), t.nextFd;
            initial + Written(t1, calls, fd) == Delivered(t1, calls, EventReadCall(fd)) + ReadValue(Run(t1, calls), EventReadCall(fd))
  {
    var i := AllocatesFresh(t, NoObject.(kind := Event, value := initial));
    var t1 := Step(t, EventFdCall(initial));
    hide Step, Run, Delivered, Written, Find;
    EventCounterConserves(t1, i, calls);
    SameFd(t1, i, calls);
    FindFinds(Run(t1, calls), i);
  }

  // ---- epoll sets ----

  /** An add is accepted if the set and the descriptor exist and fewer than eight are watched. */
  predicate AddAccepted(t: Table, epoll: int, fd: int)
    requires Shaped(t)
  {
    && (exists e :: 0 <= e < MAX_OBJECTS && t.objects[e].kind == Epoll && t.objects[e].fd == epoll && |t.objects[e].watches| < MAX_WATCHES)
    && (exists j :: 0 <= j < MAX_OBJECTS && t.objects[j].kind != Empty && t.objects[j].fd == fd)
  }

  /** The descriptors added to an epoll set over a run, in order. */
  function Added(t: Table, calls: seq<Call>, epoll: int): seq<int>
    requires Shaped(t)
  {
    if calls == [] then []
    else
      var before, c := calls[..|calls| - 1], calls[|calls| - 1];
      Added(t, before, epoll) + if c.EpollAddCall? && c.epoll == epoll && AddAccepted(Run(t, before), epoll, c.fd) then [c.fd] else []
  }

  lemma StepOnWatches(t: Table, c: Call, i: nat)
    requires Shaped(t) && DistinctFds(t) && i < MAX_OBJECTS && t.objects[i].kind == Epoll
    ensures Step(t, c).objects[i].watches ==
              t.objects[i].watches + if c.EpollAddCall? && c.epoll == t.objects[i].fd && AddAccepted(t, c.epoll, c.fd) then [c.fd] else []
  {
    hide Find, FindFree, EpollWait, ReadValue, WriteAccepted;
    FindFinds(t, i);
    match c
    case EpollWaitCall(epoll, capacity) => EpollWaitOnlyRecords(t, epoll, capacity);
    case EpollAddCall(epoll, fd) =>
      var j := Find(t.objects, fd);
      if j < MAX_OBJECTS { assert t.objects[j].fd == fd; }
      if epoll != t.objects[i].fd { assert Find(t.objects, epoll) != i; }
    case _ =>
  }

  /** From its creation on, an epoll set watches exactly what was added to it, in order. */
  lemma {:induction false} EpollRemembers(t: Table, i: nat, calls: seq<Call>)
    requires Shaped(t) && DistinctFds(t) && i < MAX_OBJECTS && t.objects[i].kind == Epoll
    ensures Run(t, calls).objects[i].watches == t.objects[i].watches + Added(t, calls, t.objects[i].fd)
  {
    hide Step, DistinctFds, AddAccepted;
    if calls != [] {
      EpollRemembers(t, i, calls[..|calls| - 1]);
      SameFd(t, i, calls[..|calls| - 1]);
      StepOnWatches(Run(t, calls[..|calls| - 1]), calls[|calls| - 1], i);
    }
  }

  lemma EpollRemembersFromCreation(t: Table, calls: seq<Call>)
    requires Shaped(t) && DistinctFds(t) && exists j :: 0 <= j < MAX_OBJECTS && t.objects[j].kind == Empty
    ensures var t1 := Step(t, EpollCreateCall);
            var t' := Run(t1, calls);
            var e := Find(t'.objects, t.nextFd);
            e < MAX_OBJECTS && t'.objects[e].kind == Epoll && t'.objects[e].watches == Added(t1, calls, t.nextFd)
  {
    var i := AllocatesFresh(t, NoObject.(kind := Epoll));
    var t1 := Step(t, EpollCreateCall);
    hide Step, Run, Added, Find;
    EpollRemembers(t1, i, calls);
    SameFd(t1, i, calls);
    FindFinds(Run(t1, calls), i);
  }

  // ---- what a counter accepts ----

  /** A write is accepted exactly if it is not the reserved value and the sum fits in 64 bits. */
  lemma WriteFitsExactly(t: Table, i: nat, value: nat)
    requires Shaped(t) && DistinctFds(t) && i < MAX_OBJECTS && t.objects[i].kind == Event
    ensures var t' := Step(t, EventWriteCall(t.objects[i].fd, value));
            t'.objects[i].value == t.objects[i].value + (if value != UINT64_MAX && t.objects[i].value + value <= UINT64_MAX then value else 0)
  {
    hide Find;
    FindFinds(t, i);
  }

  /** So a counter that starts in 64 bits stays there over every run. */
  lemma {:induction false} CounterFits(t: Table, i: nat, calls: seq<Call>)
    requires Shaped(t) && DistinctFds(t) && i < MAX_OBJECTS && t.objects[i].kind == Event && t.objects[i].value <= UINT64_MAX
    ensures Run(t, calls).objects[i].value <= UINT64_MAX
  {
    hide Step;
    if calls != [] {
      var before, c := calls[..|calls| - 1], calls[|calls| - 1];
      CounterFits(t, i, before);
      SameFd(t, i, before);
      StepOnObject(Run(t, before), c, i);
      FindFinds(Run(t, before), i);
    }
  }

  // ---- readiness ----

  /** A poll calls an object ready exactly if a read of it would deliver something now. */
  lemma ReadyMeansReadable(t: Table, i: nat)
    requires Shaped(t) && DistinctFds(t) && i < MAX_OBJECTS && t.objects[i].kind != Empty
    ensures var fd := t.objects[i].fd;
            ReadyFd(t.objects, fd, t.tick) <==> ReadValue(t, EventReadCall(fd)) != 0 || ReadValue(t, TimerReadCall(fd)) != 0
  {
    hide Find;
    FindFinds(t, i);
  }
}
