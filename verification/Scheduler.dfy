/**
 The scheduler as the program keeps it: fixed tables updated in place by loops. Each kernel call is
 proved to make the transition its specification function describes.
 */
module Scheduler {
  import opened Threads

  class Scheduler {
    const threads: array<Thread>
    const processes: array<Process>
    const mutexes: array<Mutex>
    const futexes: array<Futex>
    var current: nat
    var nextProcess: nat
    var nextThread: nat
    var nextMutex: nat
    var tick: nat
    var delivered: nat
    var halted: bool

    predicate Valid()
      reads this
    {
      && threads.Length == MAX_THREADS && processes.Length == MAX_PROCESSES
      && mutexes.Length == MAX_MUTEXES && futexes.Length == MAX_FUTEXES
      && current < MAX_THREADS
    }

    /** The abstract state. */
    function State(): (k: Kernel)
      requires Valid()
      reads this, threads, processes, mutexes, futexes
      ensures Shaped(k)
    {
      Kernel(threads[..], processes[..], mutexes[..], futexes[..],
             current, nextProcess, nextThread, nextMutex, tick, delivered, halted)
    }

    constructor ()
      ensures Valid() && State() == Boot()
      ensures fresh(threads) && fresh(processes) && fresh(mutexes) && fresh(futexes)
    {
      threads := new Thread[MAX_THREADS](_ => NoThread);
      processes := new Process[MAX_PROCESSES](_ => Process(0, false));
      mutexes := new Mutex[MAX_MUTEXES](_ => Mutex(0, false, false, 0));
      futexes := new Futex[MAX_FUTEXES](_ => Futex(0, [], false));
      current, nextProcess, nextThread, nextMutex, tick, delivered, halted := 0, 2, 2, 1, 0, 0, false;
      new;
      processes[0] := Process(KERNEL_PROCESS, true);
      threads[0] := NoThread.(id := 1, process := KERNEL_PROCESS, state := Running, priority := DEFAULT_PRIORITY);
      assert threads[..] == Boot().threads;
      assert processes[..] == Boot().processes;
      assert mutexes[..] == Boot().mutexes;
      assert futexes[..] == Boot().futexes;
    }

    // ---- searches ----

    method FindThreadIndex(id: nat) returns (found: nat)
      requires Valid()
      ensures found == FindThread(threads[..], id)
    {
      found := 0;
      while found < MAX_THREADS
        invariant found <= MAX_THREADS && FindThread(threads[..], id) == FindThread(threads[..], id, found)
      {
        if threads[found].state != Empty && threads[found].id == id {
          return;
        }
        found := found + 1;
      }
    }

    method FindThreadSlotIndex() returns (found: nat)
      requires Valid()
      ensures found == FindThreadSlot(threads[..])
    {
      found := 0;
      while found < MAX_THREADS
        invariant found <= MAX_THREADS && FindThreadSlot(threads[..]) == FindThreadSlot(threads[..], found)
      {
        if threads[found].state == Empty {
          return;
        }
        found := found + 1;
      }
    }

    method FindProcessIndex(id: nat) returns (found: nat)
      requires Valid()
      ensures found == FindProcess(processes[..], id)
    {
      found := 0;
      while found < MAX_PROCESSES
        invariant found <= MAX_PROCESSES && FindProcess(processes[..], id) == FindProcess(processes[..], id, found)
      {
        if processes[found].active && processes[found].id == id {
          return;
        }
        found := found + 1;
      }
    }

    method FindMutexIndex(id: nat) returns (found: nat)
      requires Valid()
      ensures found == FindMutex(mutexes[..], id)
    {
      found := 0;
      while found < MAX_MUTEXES
        invariant found <= MAX_MUTEXES && FindMutex(mutexes[..], id) == FindMutex(mutexes[..], id, found)
      {
        if mutexes[found].active && mutexes[found].id == id {
          return;
        }
        found := found + 1;
      }
    }

    // ---- dispatching ----

    method WakeSleepers()
      requires Valid()
      modifies threads
      ensures threads[..] == Woken(old(threads[..]), tick)
    {
      for i := 0 to MAX_THREADS
        invariant forall j | 0 <= j < MAX_THREADS ::
            threads[j] == if j < i && Due(old(threads[j]), tick) then old(threads[j]).(state := Ready, wakeTick := 0) else old(threads[j])
      {
        if threads[i].state == Sleeping && threads[i].wakeTick <= tick {
          threads[i] := threads[i].(state := Ready, wakeTick := 0);
        }
      }
    }

    method FindNextRunnable() returns (selected: int)
      requires Valid()
      modifies threads
      ensures threads[..] == Woken(old(threads[..]), tick)
      ensures selected == Select(threads[..], current, MAX_THREADS)
    {
      WakeSleepers();
      selected := -1;
      for offset := 1 to MAX_THREADS + 1
        invariant selected == Select(threads[..], current, offset - 1)
      {
        var candidate := (current + offset) % MAX_THREADS;
        assert candidate == Slot(current, offset);
        if threads[candidate].state == Ready {
          if selected < 0 || threads[candidate].priority > threads[selected].priority {
            selected := candidate;
          }
        }
      }
    }

    method DeliverSignals(i: nat)
      requires Valid() && i < MAX_THREADS
      modifies threads, `delivered
      ensures State() == DeliverTo(old(State()), i)
    {
      if threads[i].pending == {} {
        assert threads[..] == threads[..][i := threads[i]];
        return;
      }
      threads[i] := threads[i].(handled := threads[i].handled + threads[i].pending, pending := {});
      delivered := delivered + 1;
      assert threads[..] == old(threads[..])[i := threads[i]];
    }

    /** Overwrite one thread. */
    method SetThread(i: nat, t: Thread)
      requires Valid() && i < MAX_THREADS
      modifies threads
      ensures State() == old(State()).(threads := old(State()).threads[i := t])
    {
      threads[i] := t;
    }

    method PickNext() returns (next: int)
      requires Valid()
      modifies threads, `tick, `delivered
      ensures Valid() && State() == BeforeSelection(old(State())) && next == Select(State().threads, current, MAX_THREADS)
    {
      hide Select, Slot;
      tick := tick + 1;
      DeliverSignals(current);
      next := FindNextRunnable();
    }

    method SwitchTo(next: nat)
      requires Valid() && next < MAX_THREADS && next != current
      modifies threads, `current, `delivered
      ensures Valid() && State() == Dispatch(old(State()), next)
    {
      hide Deliver;
      if threads[current].state == Running {
        SetThread(current, threads[current].(state := Ready));
      }
      SetThread(next, threads[next].(state := Running, runCount := threads[next].runCount + 1));
      current := next;
      DeliverSignals(next);
    }

    method SchedulerYield()
      requires Valid()
      modifies this, threads
      ensures Valid() && State() == Yield(old(State()))
    {
      hide Select, Slot, BeforeSelection, Dispatch, DeliverTo;
      var next := PickNext();
      if next < 0 || next == current {
        if threads[current].state == Sleeping {
          SetThread(current, threads[current].(state := Ready, wakeTick := 0));
        }
        return;
      }
      SwitchTo(next);
    }

    method SchedulerTimerTick()
      requires Valid()
      modifies this, threads
      ensures Valid() && State() == Tick(old(State()))
    {
      tick := tick + 1;
      WakeSleepers();
    }

    // ---- processes and threads ----

    method KernelCreateProcess() returns (id: nat)
      requires Valid()
      modifies this, processes
      ensures Valid() && State() == CreateProcess(old(State()))
      ensures id == if FindProcessSlot(old(processes[..])) < MAX_PROCESSES then old(nextProcess) else 0
    {
      var p := 0;
      while p < MAX_PROCESSES
        invariant p <= MAX_PROCESSES && FindProcessSlot(processes[..]) == FindProcessSlot(processes[..], p)
        invariant processes[..] == old(processes[..]) && State() == old(State())
      {
        if !processes[p].active {
          processes[p] := Process(nextProcess, true);
          nextProcess := nextProcess + 1;
          assert processes[..] == old(processes[..])[p := processes[p]];
          return processes[p].id;
        }
        p := p + 1;
      }
      id := 0;
    }

    method KernelCreateThread(process: nat, possible: bool) returns (id: nat)
      requires Valid()
      modifies this, threads
      ensures Valid() && State() == CreateThread(old(State()), process, possible)
      ensures id == if nextThread == old(nextThread) then 0 else old(nextThread)
    {
      var p := FindProcessIndex(process);
      var i := FindThreadSlotIndex();
      if p == MAX_PROCESSES || !possible || i == MAX_THREADS {
        return 0;
      }
      id := nextThread;
      nextThread := nextThread + 1;
      threads[i] := Thread(id, process, Ready, 0, 0, {}, {}, DEFAULT_PRIORITY, 0);
      assert threads[..] == old(threads[..])[i := threads[i]];
    }

    method KernelTerminateProcess(process: nat) returns (done: bool)
      requires Valid()
      modifies threads, processes
      ensures Valid() && State() == TerminateProcess(old(State()), process)
      ensures done == (process != KERNEL_PROCESS && FindProcess(old(processes[..]), process) < MAX_PROCESSES)
    {
      var p := FindProcessIndex(process);
      if p == MAX_PROCESSES || process == KERNEL_PROCESS {
        return false;
      }
      processes[p] := processes[p].(active := false);
      for i := 0 to MAX_THREADS
        invariant forall j | 0 <= j < MAX_THREADS ::
            threads[j] == if j < i && old(threads[j]).state != Empty && old(threads[j]).process == process
                          then old(threads[j]).(state := Empty, process := 0) else old(threads[j])
        invariant processes[..] == old(processes[..])[p := old(processes[p]).(active := false)]
      {
        if threads[i].state != Empty && threads[i].process == process {
          threads[i] := threads[i].(state := Empty, process := 0);
        }
      }
      assert threads[..] == Purged(old(threads[..]), process);
      done := true;
    }

    /** One round of the join loop on the thread in slot i. */
    method PollJoin(i: nat)
      requires Valid()
      modifies this, threads
      ensures Valid() && State() == JoinPoll(old(State()), i)
    {
      if i >= MAX_THREADS || i == current {
        return;
      }
      if threads[i].state == Finished {
        threads[i] := threads[i].(state := Empty);
        assert threads[..] == old(threads[..])[i := threads[i]];
      } else {
        SchedulerYield();
      }
    }

    method ThreadExit()
      requires Valid()
      modifies this, threads
      ensures Valid() && State() == Exit(old(State()))
    {
      hide Yield;
      var me := current;
      SetThread(me, threads[me].(state := Finished));
      SchedulerYield();
      halted := current == me;
    }

    method KernelSetThreadPriority(id: nat, priority: nat) returns (done: bool)
      requires Valid()
      modifies threads
      ensures Valid() && State() == SetPriority(old(State()), id, priority)
      ensures done == (priority <= MAX_PRIORITY && FindThread(old(threads[..]), id) < MAX_THREADS)
    {
      var i := FindThreadIndex(id);
      if i == MAX_THREADS || priority > MAX_PRIORITY {
        return false;
      }
      threads[i] := threads[i].(priority := priority);
      assert threads[..] == old(threads[..])[i := threads[i]];
      done := true;
    }

    method KernelThreadSleep(ticks: nat)
      requires Valid()
      modifies this, threads
      ensures Valid() && State() == Sleep(old(State()), ticks)
    {
      hide Yield;
      if ticks == 0 {
        return;
      }
      SetThread(current, threads[current].(wakeTick := tick + ticks, state := Sleeping));
      SchedulerYield();
    }

    method KernelSendSignal(id: nat, signal: nat) returns (sent: bool)
      requires Valid()
      modifies threads
      ensures Valid() && State() == Signal(old(State()), id, signal)
      ensures sent == (signal < 32 && FindThread(old(threads[..]), id) < MAX_THREADS)
    {
      if signal >= 32 {
        return false;
      }
      var i := FindThreadIndex(id);
      if i == MAX_THREADS {
        return false;
      }
      threads[i] := threads[i].(pending := threads[i].pending + {signal});
      if threads[i].state == Sleeping || threads[i].state == Blocked {
        threads[i] := threads[i].(state := Ready, wakeTick := 0, waitingMutex := 0);
      }
      assert threads[..] == old(threads[..])[i := threads[i]];
      sent := true;
    }

    // ---- mutexes ----

    method KernelMutexCreate() returns (id: nat)
      requires Valid()
      modifies this, mutexes
      ensures Valid() && State() == CreateMutex(old(State()))
      ensures id == if nextMutex == old(nextMutex) then 0 else old(nextMutex)
    {
      var m := 0;
      while m < MAX_MUTEXES
        invariant m <= MAX_MUTEXES && FindMutexSlot(mutexes[..]) == FindMutexSlot(mutexes[..], m)
        invariant mutexes[..] == old(mutexes[..]) && State() == old(State())
      {
        if !mutexes[m].active {
          mutexes[m] := Mutex(nextMutex, true, false, 0);
          nextMutex := nextMutex + 1;
          assert mutexes[..] == old(mutexes[..])[m := mutexes[m]];
          return mutexes[m].id;
        }
        m := m + 1;
      }
      id := 0;
    }

    /** Up to the context switch. */
    method KernelMutexLock(id: nat)
      requires Valid()
      modifies this, threads, mutexes
      ensures Valid() && State() == Lock(old(State()), id)
    {
      hide Yield, FindMutex;
      ghost var k := State();
      var m := FindMutexIndex(id);
      if m == MAX_MUTEXES {
        return;
      }
      if !mutexes[m].locked {
        mutexes[m] := mutexes[m].(locked := true, owner := threads[current].id);
        assert mutexes[..] == k.mutexes[m := mutexes[m]];
        return;
      }
      if mutexes[m].owner == threads[current].id {
        return;
      }
      SetThread(current, threads[current].(state := Blocked, waitingMutex := id));
      SchedulerYield();
    }

    /** From where the thread runs again: what its pending lock call returns. */
    method ResumeMutexLock(id: nat) returns (owned: bool)
      requires Valid()
      ensures owned == LockReturns(State(), id)
    {
      var m := FindMutexIndex(id);
      owned := m < MAX_MUTEXES && mutexes[m].owner == threads[current].id;
    }

    method FindNextOwner(id: nat) returns (next: int)
      requires Valid()
      ensures next == NextOwner(threads[..], id, MAX_THREADS)
    {
      next := -1;
      for i := 0 to MAX_THREADS
        invariant next == NextOwner(threads[..], id, i)
      {
        if threads[i].state == Blocked && threads[i].waitingMutex == id {
          if next < 0 || threads[i].priority > threads[next].priority {
            next := i;
          }
        }
      }
    }

    method KernelMutexUnlock(id: nat) returns (done: bool)
      requires Valid()
      modifies threads, mutexes
      ensures Valid() && State() == Unlock(old(State()), id)
      ensures done == old(LockReturns(State(), id))
    {
      hide FindMutex, NextOwner, WaitsFor;
      var m := FindMutexIndex(id);
      if m == MAX_MUTEXES || mutexes[m].owner != threads[current].id {
        return false;
      }
      var next := FindNextOwner(id);
      if next >= 0 {
        SetThread(next, threads[next].(state := Ready, waitingMutex := 0));
        mutexes[m] := mutexes[m].(owner := threads[next].id);
      } else {
        mutexes[m] := mutexes[m].(locked := false, owner := 0);
      }
      assert mutexes[..] == old(mutexes[..])[m := mutexes[m]];
      done := true;
    }

    // ---- futexes ----

    method FindQueueToJoin(address: nat) returns (q: int)
      requires Valid()
      ensures q == QueueToJoin(futexes[..], address, MAX_FUTEXES)
    {
      q := -1;
      for i := 0 to MAX_FUTEXES
        invariant q == QueueToJoin(futexes[..], address, i)
      {
        if futexes[i].active && futexes[i].address == address {
          q := i;
        }
        if q < 0 && !futexes[i].active {
          q := i;
        }
      }
    }

    method KernelFutexWait(address: nat, matches: bool) returns (joined: bool)
      requires Valid()
      modifies this, threads, futexes
      ensures Valid() && State() == FutexWait(old(State()), address, matches)
      ensures joined == Joins(old(State()), address, matches)
    {
      hide Yield, QueueToJoin;
      if address == 0 || !matches {
        return false;
      }
      var q := FindQueueToJoin(address);
      if q < 0 || |futexes[q].waiters| >= MAX_THREADS {
        return false;
      }
      ghost var before := futexes[..];
      if !futexes[q].active {
        futexes[q] := Futex(address, [], true);
      }
      futexes[q] := futexes[q].(waiters := futexes[q].waiters + [threads[current].id]);
      assert futexes[..] == before[q := futexes[q]];
      SetThread(current, threads[current].(state := Blocked));
      SchedulerYield();
      joined := true;
    }

    method FindQueueIndex(address: nat) returns (q: nat)
      requires Valid()
      ensures q == FindQueue(futexes[..], address)
    {
      q := 0;
      while q < MAX_FUTEXES && (!futexes[q].active || futexes[q].address != address)
        invariant q <= MAX_FUTEXES && FindQueue(futexes[..], address) == FindQueue(futexes[..], address, q)
      {
        q := q + 1;
      }
    }

    /** Drop the first waiter by moving the others down one place. */
    method PopWaiter(waiters: seq<nat>) returns (rest: seq<nat>)
      requires waiters != []
      ensures rest == waiters[1..]
    {
      rest := waiters;
      for j := 1 to |waiters|
        invariant rest == waiters[1..j] + waiters[j - 1..]
      {
        rest := rest[j - 1 := rest[j]];
      }
      rest := rest[..|rest| - 1];
    }

    method ReadyWaiter(id: nat) returns (readied: bool)
      requires Valid()
      modifies threads
      ensures readied == StillBlocked(old(threads[..]), id)
      ensures threads[..] == if readied then Readied(old(threads[..]), id) else old(threads[..])
    {
      hide FindThread;
      var i := FindThreadIndex(id);
      if i < MAX_THREADS && threads[i].state == Blocked {
        SetThread(i, threads[i].(state := Ready));
        readied := true;
      } else {
        readied := false;
      }
    }

    /** Pop waiters of queue q until `count` of them have been readied or none is left. */
    method WakeQueue(q: nat, count: nat) returns (woken: nat)
      requires Valid() && q < MAX_FUTEXES
      modifies threads, futexes
      ensures var r := old(WakeWaiters(threads[..], futexes[q].waiters, count));
              && woken == r.woken
              && threads[..] == r.threads
              && futexes[..] == old(futexes[..])[q := old(futexes[q]).(waiters := r.rest)]
    {
      hide FindThread, StillBlocked, Readied;
      ghost var all := WakeWaiters(threads[..], futexes[q].waiters, count);
      woken := 0;
      while woken < count && futexes[q].waiters != []
        invariant woken <= count
        invariant futexes[..] == old(futexes[..])[q := old(futexes[q]).(waiters := futexes[q].waiters)]
        invariant var r := WakeWaiters(threads[..], futexes[q].waiters, count - woken);
                  all == WakeResult(r.threads, r.rest, woken + r.woken)
        decreases |futexes[q].waiters|
      {
        var id := futexes[q].waiters[0];
        var rest := PopWaiter(futexes[q].waiters);
        futexes[q] := futexes[q].(waiters := rest);
        var readied := ReadyWaiter(id);
        if readied {
          woken := woken + 1;
        }
      }
    }

    method KernelFutexWake(address: nat, count: nat) returns (woken: nat)
      requires Valid()
      modifies threads, futexes
      ensures State() == FutexWake(old(State()), address, count)
      ensures var k, q := old(State()), FindQueue(old(State()).futexes, address);
              woken == if address != 0 && q < MAX_FUTEXES then WakeWaiters(k.threads, k.futexes[q].waiters, count).woken else 0
    {
      hide WakeWaiters, FindQueue;
      if address == 0 || count == 0 {
        WakingNobody(threads[..], if FindQueue(futexes[..], address) < MAX_FUTEXES then futexes[FindQueue(futexes[..], address)].waiters else []);
        return 0;
      }
      var q := FindQueueIndex(address);
      if q == MAX_FUTEXES {
        return 0;
      }
      woken := WakeQueue(q, count);
      if futexes[q].waiters == [] {
        futexes[q] := futexes[q].(active := false);
      }
      assert futexes[..] == old(futexes[..])[q := futexes[q]];
    }
  }

  lemma WakingNobody(ts: seq<Thread>, waiters: seq<nat>)
    ensures WakeWaiters(ts, waiters, 0).woken == 0
  {
  }
}
