/** Event objects: event counters, interval timers, and epoll sets watching them. */
module Events {
  import opened Arithmetic

  const MAX_OBJECTS := 16
  const MAX_WATCHES := 8
  const UINT64_MAX := 0xFFFF_FFFF_FFFF_FFFF

  datatype Kind = Empty | Epoll | Event | Timer

  datatype Object = Object(fd: int, kind: Kind, value: nat, deadline: nat, interval: nat, watches: seq<int>)

  datatype Table = Table(objects: seq<Object>, nextFd: int, tick: nat)

  const NoObject := Object(0, Empty, 0, 0, 0, [])

  function Boot(): Table {
    Table(seq(MAX_OBJECTS, _ => NoObject), 32, 0)
  }

  predicate Shaped(t: Table) {
    |t.objects| == MAX_OBJECTS
  }

  function Find(os: seq<Object>, fd: int, from: nat := 0): (r: nat)
    requires from <= |os|
    ensures from <= r <= |os|
    ensures r < |os| ==> os[r].kind != Empty && os[r].fd == fd
    ensures forall j | from <= j < r :: os[j].kind == Empty || os[j].fd != fd
    decreases |os| - from
  {
    if from == |os| || (os[from].kind != Empty && os[from].fd == fd) then from else Find(os, fd, from + 1)
  }

  function FindFree(os: seq<Object>, from: nat := 0): (r: nat)
    requires from <= |os|
    ensures from <= r <= |os|
    ensures r < |os| ==> os[r].kind == Empty
    ensures forall j | from <= j < r :: os[j].kind != Empty
    decreases |os| - from
  {
    if from == |os| || os[from].kind == Empty then from else FindFree(os, from + 1)
  }

  // ---- readiness ----

  predicate Expired(o: Object, tick: nat) {
    o.kind == Timer && o.deadline != 0 && tick >= o.deadline
  }

  predicate IsReady(o: Object, tick: nat) {
    (o.kind == Event && o.value != 0) || Expired(o, tick)
  }

  /** Testing an expired timer records how often it has expired since its deadline. */
  function Tested(o: Object, tick: nat): Object {
    if Expired(o, tick) then o.(value := 1 + if o.interval != 0 then (tick - o.deadline) / o.interval else 0) else o
  }

  function Consumed(o: Object): Object {
    o.(value := 0, deadline := if o.interval != 0 then o.deadline + o.value * o.interval else 0)
  }

  // ---- calls ----

  datatype Call =
    | TickCall
    | EpollCreateCall
    | EpollAddCall(epoll: int, fd: int)
    | EpollWaitCall(epoll: int, capacity: nat)
    | EventFdCall(initial: nat)
    | EventWriteCall(fd: int, value: nat)
    | EventReadCall(fd: int)
    | TimerFdCall(initial: nat, interval: nat)
    | TimerReadCall(fd: int)

  function Allocate(t: Table, o: Object): (r: Table)
    requires Shaped(t)
    ensures Shaped(r)
  {
    var i := FindFree(t.objects);
    if i == MAX_OBJECTS then t else t.(objects := t.objects[i := o.(fd := t.nextFd)], nextFd := t.nextFd + 1)
  }

  function EpollAdd(t: Table, epoll: int, fd: int): (r: Table)
    requires Shaped(t)
    ensures Shaped(r)
  {
    var e := Find(t.objects, epoll);
    if e == MAX_OBJECTS || t.objects[e].kind != Epoll || Find(t.objects, fd) == MAX_OBJECTS || |t.objects[e].watches| >= MAX_WATCHES then t
    else t.(objects := t.objects[e := t.objects[e].(watches := t.objects[e].watches + [fd])])
  }

  datatype Poll = Poll(objects: seq<Object>, ready: seq<int>)

  /** Test the first n watched descriptors in order, stopping at `capacity` ready ones. */
  function PollWatches(os: seq<Object>, watches: seq<int>, tick: nat, capacity: nat, n: nat): (r: Poll)
    requires n <= |watches|
    ensures |r.objects| == |os| && |r.ready| <= capacity
  {
    if n == 0 then Poll(os, [])
    else
      var p := PollWatches(os, watches, tick, capacity, n - 1);
      var i := Find(p.objects, watches[n - 1]);
      if |p.ready| == capacity || i == |os| then p
      else Poll(p.objects[i := Tested(p.objects[i], tick)], if IsReady(p.objects[i], tick) then p.ready + [watches[n - 1]] else p.ready)
  }

  function EpollWait(t: Table, epoll: int, capacity: nat): (r: Poll)
    requires Shaped(t)
    ensures |r.objects| == MAX_OBJECTS
  {
    var e := Find(t.objects, epoll);
    if e == MAX_OBJECTS || t.objects[e].kind != Epoll then Poll(t.objects, [])
    else PollWatches(t.objects, t.objects[e].watches, t.tick, capacity, |t.objects[e].watches|)
  }

  predicate WriteAccepted(t: Table, fd: int, value: nat)
    requires Shaped(t)
  {
    var i := Find(t.objects, fd);
    i < MAX_OBJECTS && t.objects[i].kind == Event && value != UINT64_MAX && t.objects[i].value + value <= UINT64_MAX
  }

  /** What a read of the descriptor delivers: the event count, the expirations, or 0 if it fails. */
  function ReadValue(t: Table, c: Call): nat
    requires Shaped(t)
  {
    match c
    case EventReadCall(fd) =>
      var i := Find(t.objects, fd);
      if i < MAX_OBJECTS && t.objects[i].kind == Event then t.objects[i].value else 0
    case TimerReadCall(fd) =>
      var i := Find(t.objects, fd);
      if i < MAX_OBJECTS && Expired(t.objects[i], t.tick) then Tested(t.objects[i], t.tick).value else 0
    case _ => 0
  }

  function Step(t: Table, c: Call): (r: Table)
    requires Shaped(t)
    ensures Shaped(r)
  {
    match c
    case TickCall => t.(tick := t.tick + 1)
    case EpollCreateCall => Allocate(t, NoObject.(kind := Epoll))
    case EpollAddCall(epoll, fd) => EpollAdd(t, epoll, fd)
    case EpollWaitCall(epoll, capacity) => t.(objects := EpollWait(t, epoll, capacity).objects)
    case EventFdCall(initial) => Allocate(t, NoObject.(kind := Event, value := initial))
    case EventWriteCall(fd, value) =>
      var i := Find(t.objects, fd);
      if WriteAccepted(t, fd, value) then t.(objects := t.objects[i := t.objects[i].(value := t.objects[i].value + value)]) else t
    case EventReadCall(fd) =>
      var i := Find(t.objects, fd);
      if ReadValue(t, c) != 0 then t.(objects := t.objects[i := t.objects[i].(value := 0)]) else t
    case TimerFdCall(initial, interval) =>
      if initial == 0 then t else Allocate(t, NoObject.(kind := Timer, deadline := t.tick + initial, interval := interval))
    case TimerReadCall(fd) =>
      var i := Find(t.objects, fd);
      if ReadValue(t, c) != 0 then t.(objects := t.objects[i := Consumed(Tested(t.objects[i], t.tick))]) else t
  }

  function Run(t: Table, calls: seq<Call>): (r: Table)
    requires Shaped(t)
    ensures Shaped(r)
  {
    if calls == [] then t else Step(Run(t, calls[..|calls| - 1]), calls[|calls| - 1])
  }

  /** Everything the reads `read` of the run delivered. */
  function Delivered(t: Table, calls: seq<Call>, read: Call): nat
    requires Shaped(t)
  {
    if calls == [] then 0
    else
      var before := calls[..|calls| - 1];
      Delivered(t, before, read) + if calls[|calls| - 1] == read then ReadValue(Run(t, before), read) else 0
  }

  /** Everything the accepted writes of the run added to event counter `fd`. */
  function Written(t: Table, calls: seq<Call>, fd: int): nat
    requires Shaped(t)
  {
    if calls == [] then 0
    else
      var before, last := calls[..|calls| - 1], calls[|calls| - 1];
      Written(t, before, fd) +
        if last.EventWriteCall? && last.fd == fd && WriteAccepted(Run(t, before), fd, last.value) then last.value else 0
  }

  // ---- what every call keeps ----

  /** Descriptors are never shared and never reused. */
  ghost predicate DistinctFds(t: Table) {
    && (forall i | 0 <= i < |t.objects| :: t.objects[i].kind != Empty ==> t.objects[i].fd < t.nextFd)
    && (forall i, j | 0 <= i < j < |t.objects| :: t.objects[i].kind != Empty && t.objects[j].kind != Empty ==> t.objects[i].fd != t.objects[j].fd)
  }

  lemma FindFinds(t: Table, i: nat)
    requires DistinctFds(t) && i < |t.objects| && t.objects[i].kind != Empty
    ensures Find(t.objects, t.objects[i].fd) == i
  {
  }

  /** Two objects that differ at most in a timer's recorded count. */
  predicate SameButCount(o: Object, o': Object) {
    o' == o || (o.kind == Timer && o' == o.(value := o'.value))
  }

  lemma {:induction false} PollOnlyRecords(os: seq<Object>, watches: seq<int>, tick: nat, capacity: nat, n: nat)
    requires n <= |watches|
    ensures forall i | 0 <= i < |os| :: SameButCount(os[i], PollWatches(os, watches, tick, capacity, n).objects[i])
  {
    hide Find;
    if n > 0 { PollOnlyRecords(os, watches, tick, capacity, n - 1); }
  }

  // ---- what a poll reports ----

  /** The descriptor names an object, and that object is ready. */
  predicate ReadyFd(os: seq<Object>, fd: int, tick: nat) {
    var i := Find(os, fd);
    i < |os| && IsReady(os[i], tick)
  }

  /** The ready descriptors of a list, in its order. */
  function ReadyAmong(os: seq<Object>, fds: seq<int>, tick: nat): seq<int> {
    if fds == [] then []
    else
      var n := |fds| - 1;
      ReadyAmong(os, fds[..n], tick) + if ReadyFd(os, fds[n], tick) then [fds[n]] else []
  }

  function FirstOf(fds: seq<int>, n: nat): seq<int> {
    if n < |fds| then fds[..n] else fds
  }

  lemma {:induction false} FindSame(os: seq<Object>, os': seq<Object>, fd: int, from: nat)
    requires |os'| == |os| && from <= |os| && forall i | 0 <= i < |os| :: SameButCount(os[i], os'[i])
    ensures Find(os', fd, from) == Find(os, fd, from)
    decreases |os| - from
  {
    if from < |os| { FindSame(os, os', fd, from + 1); }
  }

  /** Recording expirations makes no descriptor ready or unready. */
  lemma ReadySame(os: seq<Object>, os': seq<Object>, fd: int, tick: nat)
    requires |os'| == |os| && forall i | 0 <= i < |os| :: SameButCount(os[i], os'[i])
    ensures ReadyFd(os', fd, tick) <==> ReadyFd(os, fd, tick)
  {
    hide Find;
    FindSame(os, os', fd, 0);
    var i := Find(os, fd);
    if i < |os| { assert SameButCount(os[i], os'[i]); }
  }

  /** A poll reports exactly the first `capacity` watched descriptors, in watch order, whose object exists and is ready. */
  lemma {:induction false} PollReportsFirstReady(os: seq<Object>, watches: seq<int>, tick: nat, capacity: nat, n: nat)
    requires n <= |watches|
    ensures PollWatches(os, watches, tick, capacity, n).ready == FirstOf(ReadyAmong(os, watches[..n], tick), capacity)
  {
    hide Find, SameButCount;
    if n > 0 {
      PollReportsFirstReady(os, watches, tick, capacity, n - 1);
      PollOnlyRecords(os, watches, tick, capacity, n - 1);
      ReadySame(os, PollWatches(os, watches, tick, capacity, n - 1).objects, watches[n - 1], tick);
      assert watches[..n][..n - 1] == watches[..n - 1];
    }
  }

  /** The same for the call: nothing is reported for anything but an epoll descriptor. */
  lemma EpollWaitReports(t: Table, epoll: int, capacity: nat)
    requires Shaped(t)
    ensures var e := Find(t.objects, epoll);
            EpollWait(t, epoll, capacity).ready ==
              if e == MAX_OBJECTS || t.objects[e].kind != Epoll then [] else FirstOf(ReadyAmong(t.objects, t.objects[e].watches, t.tick), capacity)
  {
    hide Find;
    var e := Find(t.objects, epoll);
    if e < MAX_OBJECTS {
      var watches := t.objects[e].watches;
      PollReportsFirstReady(t.objects, watches, t.tick, capacity, |watches|);
      assert watches[..|watches|] == watches;
    }
  }

  lemma EpollWaitOnlyRecords(t: Table, epoll: int, capacity: nat)
    requires Shaped(t)
    ensures forall i | 0 <= i < MAX_OBJECTS :: SameButCount(t.objects[i], EpollWait(t, epoll, capacity).objects[i])
  {
    hide Find, SameButCount;
    var e := Find(t.objects, epoll);
    if e < MAX_OBJECTS { PollOnlyRecords(t.objects, t.objects[e].watches, t.tick, capacity, |t.objects[e].watches|); }
    SameIsSameButCount();
  }

  lemma SameIsSameButCount()
    ensures forall o :: SameButCount(o, o)
  {
  }

  lemma StepKeepsFds(t: Table, c: Call)
    requires Shaped(t) && DistinctFds(t)
    ensures DistinctFds(Step(t, c)) && Step(t, c).tick == t.tick + (if c.TickCall? then 1 else 0)
  {
    hide Find, ReadValue, WriteAccepted;
    match c
    case EpollWaitCall(epoll, capacity) => EpollWaitOnlyRecords(t, epoll, capacity);
    case _ =>
  }

  function DeadlineAfter(t: Table, c: Call, o: Object): nat
    requires Shaped(t)
  {
    if c == TimerReadCall(o.fd) && ReadValue(t, c) != 0 then
      if o.interval != 0 then o.deadline + ReadValue(t, c) * o.interval else 0
    else o.deadline
  }

  function CountAfter(t: Table, c: Call, o: Object): nat
    requires Shaped(t)
  {
    if c == EventReadCall(o.fd) then 0
    else if c.EventWriteCall? && c.fd == o.fd && WriteAccepted(t, o.fd, c.value) then o.value + c.value
    else o.value
  }

  /** Every reachable table has distinct descriptors, so what follows holds in every run from boot. */
  lemma {:induction false} FdsStayDistinct(calls: seq<Call>)
    ensures DistinctFds(Run(Boot(), calls))
  {
    hide Step;
    if calls != [] {
      FdsStayDistinct(calls[..|calls| - 1]);
      StepKeepsFds(Run(Boot(), calls[..|calls| - 1]), calls[|calls| - 1]);
    }
  }

  /** How one call may change the object in slot i, which the call's descriptor may or may not name. */
  lemma StepOnObject(t: Table, c: Call, i: nat)
    requires Shaped(t) && DistinctFds(t) && i < MAX_OBJECTS && t.objects[i].kind != Empty
    ensures DistinctFds(Step(t, c)) && Step(t, c).tick >= t.tick
    ensures var o, o' := t.objects[i], Step(t, c).objects[i];
            && o'.fd == o.fd && o'.kind == o.kind && o'.interval == o.interval
            && (o.kind == Timer ==> o'.deadline == DeadlineAfter(t, c, o))
            && (o.kind == Event ==> o'.value == CountAfter(t, c, o))
  {
    hide Find, DistinctFds, EpollWait;
    StepKeepsFds(t, c);
    FindFinds(t, i);
    match c
    case EpollWaitCall(epoll, capacity) => EpollWaitOnlyRecords(t, epoll, capacity);
    case _ =>
  }

  /** A read of an expired timer delivers 1 + (ticks since the deadline) / interval, and moves the deadline past now. */
  lemma ReadCatchesUp(t: Table, i: nat, first: nat, sum: nat)
    requires Shaped(t) && DistinctFds(t) && i < MAX_OBJECTS && t.objects[i].kind == Timer && t.objects[i].interval != 0
    requires first > 0 && t.objects[i].deadline == first + sum * t.objects[i].interval && t.tick >= t.objects[i].deadline
    ensures var v, n := ReadValue(t, TimerReadCall(t.objects[i].fd)), t.objects[i].interval;
            sum + v == 1 + (t.tick - first) / n && first + (sum + v) * n > t.tick
  {
    hide Find;
    FindFinds(t, i);
    var n := t.objects[i].interval;
    DivideAfter(t.tick - first, sum, n);
    var q := (t.tick - first) / n;
    assert (1 + q) * n == n + q * n;
  }

  lemma DivideAfter(x: nat, k: nat, n: nat)
    requires n > 0 && k * n <= x
    ensures x / n == k + (x - k * n) / n
  {
    var y := x - k * n;
    assert y == n * (y / n) + y % n;
    assert n * (y / n) == (y / n) * n && (k + y / n) * n == k * n + (y / n) * n;
    QuotientIs(x, n, k + y / n, y % n);
  }

  /**
   A periodic timer does not drift. After any run the deadline is the first deadline plus one
   interval for each expiration delivered, and the kind and interval are as they were.
   */
  lemma {:induction false} DeadlineCountsExpirations(t: Table, i: nat, calls: seq<Call>)
    requires Shaped(t) && DistinctFds(t) && i < MAX_OBJECTS && t.objects[i].kind == Timer
    requires t.objects[i].interval != 0 && t.objects[i].deadline > 0
    ensures var o, t' := t.objects[i], Run(t, calls);
            && DistinctFds(t') && t'.objects[i].kind == Timer
            && t'.objects[i].fd == o.fd && t'.objects[i].interval == o.interval
            && t'.objects[i].deadline == o.deadline + Delivered(t, calls, TimerReadCall(o.fd)) * o.interval
  {
    hide Step, ReadValue;
    if calls == [] {
      assert Delivered(t, calls, TimerReadCall(t.objects[i].fd)) * t.objects[i].interval == 0;
    } else {
      var before, last := calls[..|calls| - 1], calls[|calls| - 1];
      DeadlineCountsExpirations(t, i, before);
      StepOnObject(Run(t, before), last, i);
      var n, s, v := t.objects[i].interval, Delivered(t, before, TimerReadCall(t.objects[i].fd)), ReadValue(Run(t, before), last);
      assert (s + v) * n == s * n + v * n;
    }
  }

  /**
   Whenever a read succeeds at tick x, the expirations delivered so far are exactly those due by x,
   1 + (x - first deadline) / interval, and the next deadline lies after x.
   */
  lemma PeriodicTimerDoesNotDrift(t: Table, i: nat, calls: seq<Call>)
    requires Shaped(t) && DistinctFds(t) && i < MAX_OBJECTS && t.objects[i].kind == Timer
    requires t.objects[i].interval != 0 && t.objects[i].deadline > 0
    ensures var o, t' := t.objects[i], Run(t, calls);
            var read := TimerReadCall(o.fd);
            var all := calls + [read];
            ReadValue(t', read) != 0 ==>
              && t'.tick >= o.deadline
              && Delivered(t, all, read) == 1 + (t'.tick - o.deadline) / o.interval
              && Run(t, all).objects[i].deadline == o.deadline + Delivered(t, all, read) * o.interval
              && Run(t, all).objects[i].deadline > t'.tick
  {
    hide Step, Delivered, ReadValue;
    var o, t' := t.objects[i], Run(t, calls);
    var read := TimerReadCall(o.fd);
    DeadlineCountsExpirations(t, i, calls);
    DeadlineCountsExpirations(t, i, calls + [read]);
    DeliveredByOneMore(t, calls, read);
    if ReadValue(t', read) != 0 {
      ReadSucceedsWhenExpired(t', i);
      ReadCatchesUp(t', i, o.deadline, Delivered(t, calls, read));
      assert Delivered(t, calls, read) * o.interval >= 0;
    }
  }

  lemma ReadSucceedsWhenExpired(t: Table, i: nat)
    requires Shaped(t) && DistinctFds(t) && i < MAX_OBJECTS && t.objects[i].kind == Timer
    ensures ReadValue(t, TimerReadCall(t.objects[i].fd)) != 0 <==> Expired(t.objects[i], t.tick)
  {
    FindFinds(t, i);
  }

  lemma DeliveredByOneMore(t: Table, calls: seq<Call>, read: Call)
    requires Shaped(t)
    ensures Delivered(t, calls + [read], read) == Delivered(t, calls, read) + ReadValue(Run(t, calls), read)
  {
    hide Run, ReadValue;
    assert (calls + [read])[..|calls|] == calls;
  }

  /** A one-shot timer delivers one expiration in all: none while armed, one from then on. */
  lemma {:induction false} OneShotDeliversOnce(t: Table, i: nat, calls: seq<Call>)
    requires Shaped(t) && DistinctFds(t) && i < MAX_OBJECTS && t.objects[i].kind == Timer
    requires t.objects[i].interval == 0 && t.objects[i].deadline > 0
    ensures var o, t' := t.objects[i], Run(t, calls);
            && DistinctFds(t') && t'.objects[i].fd == o.fd && t'.objects[i].kind == Timer && t'.objects[i].interval == 0
            && Delivered(t, calls, TimerReadCall(o.fd)) == (if t'.objects[i].deadline == 0 then 1 else 0)
            && (t'.objects[i].deadline == o.deadline || t'.objects[i].deadline == 0)
  {
    hide Step;
    if calls != [] {
      var before, last := calls[..|calls| - 1], calls[|calls| - 1];
      OneShotDeliversOnce(t, i, before);
      FindFinds(Run(t, before), i);
      StepOnObject(Run(t, before), last, i);
    }
  }

  /** An event counter conserves what is written: initial value plus writes equals reads plus what is left. */
  lemma {:induction false} EventCounterConserves(t: Table, i: nat, calls: seq<Call>)
    requires Shaped(t) && DistinctFds(t) && i < MAX_OBJECTS && t.objects[i].kind == Event
    ensures var o, t' := t.objects[i], Run(t, calls);
            && DistinctFds(t') && t'.objects[i].fd == o.fd && t'.objects[i].kind == Event
            && o.value + Written(t, calls, o.fd) == Delivered(t, calls, EventReadCall(o.fd)) + t'.objects[i].value
  {
    hide Step;
    if calls != [] {
      var before, last := calls[..|calls| - 1], calls[|calls| - 1];
      EventCounterConserves(t, i, before);
      FindFinds(Run(t, before), i);
      StepOnObject(Run(t, before), last, i);
    }
  }
}
