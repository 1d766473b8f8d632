/** What every run of kernel calls keeps, whatever calls are mixed. */
module SchedulerSafety {
  import opened Threads
  import opened Dispatching

  // ---- the invariant ----

  /** Thread ids are never shared between slots nor reused, and every live thread has one. */
  ghost predicate Ids(k: Kernel)
    requires Shaped(k)
  {
    && (forall i | 0 <= i < MAX_THREADS :: k.threads[i].id < k.nextThread)
    && (forall i, j | 0 <= i < j < MAX_THREADS :: k.threads[i].id == 0 || k.threads[i].id != k.threads[j].id)
    && (forall i | 0 <= i < MAX_THREADS :: k.threads[i].state != Empty ==> k.threads[i].id != 0)
    && Current(k).id != 0
  }

  /** At most one thread is Running, and it is the current one. */
  ghost predicate OneRunning(k: Kernel)
    requires Shaped(k)
  {
    forall i | 0 <= i < MAX_THREADS :: k.threads[i].state == Running ==> i == k.current
  }

  ghost predicate MutexTable(ms: seq<Mutex>, next: nat) {
    && next > 0
    && (forall i | 0 <= i < |ms| :: ms[i].active ==> 0 < ms[i].id < next && (!ms[i].locked ==> ms[i].owner == 0))
    && (forall i, j | 0 <= i < |ms| && 0 <= j < |ms| :: ms[i].active && ms[j].active && ms[i].id == ms[j].id ==> i == j)
  }

  /** At most one active queue exists per address. */
  ghost predicate OneQueuePerAddress(qs: seq<Futex>) {
    forall i, j | 0 <= i < |qs| && 0 <= j < |qs| :: qs[i].active && qs[j].active && qs[i].address == qs[j].address ==> i == j
  }

  ghost predicate Queued(qs: seq<Futex>, id: nat) {
    exists q :: 0 <= q < |qs| && qs[q].active && id in qs[q].waiters
  }

  /** Something is going to wake every blocked thread: a mutex it waits for or a queue it is in. */
  ghost predicate NoOrphan(ts: seq<Thread>, qs: seq<Futex>) {
    forall i | 0 <= i < |ts| :: ts[i].state == Blocked ==> ts[i].waitingMutex != 0 || Queued(qs, ts[i].id)
  }

  ghost predicate Invariant(k: Kernel) {
    && Shaped(k) && Ids(k) && OneRunning(k)
    && MutexTable(k.mutexes, k.nextMutex)
    && OneQueuePerAddress(k.futexes) && NoOrphan(k.threads, k.futexes)
    && (Current(k).state == Finished ==> k.halted)
  }

  // ---- thread-table updates that disturb nothing ----

  /** t may become t' in passing: it is not newly blocked, nor finished, nor brought back after finishing. */
  ghost predicate Calm(t: Thread, t': Thread) {
    && t'.id == t.id
    && (t'.state == Blocked ==> t.state == Blocked && t'.waitingMutex == t.waitingMutex)
    && (t'.state == Finished ==> t.state == Finished)
    && (t.state == Finished ==> t'.state == Finished || t'.state == Empty)
    && t'.process == t.process
  }

  ghost predicate CalmTable(ts: seq<Thread>, ts': seq<Thread>) {
    |ts'| == |ts| && forall i | 0 <= i < |ts| :: Calm(ts[i], ts'[i])
  }

  /** Everything but the thread table, the clock, the signal count and the halt flag is as before. */
  ghost predicate SameTables(k: Kernel, k': Kernel) {
    && k'.processes == k.processes && k'.mutexes == k.mutexes && k'.futexes == k.futexes
    && k'.nextProcess == k.nextProcess && k'.nextThread == k.nextThread && k'.nextMutex == k.nextMutex
  }

  lemma CalmKeepsInvariant(k: Kernel, k': Kernel)
    requires Invariant(k) && Shaped(k') && SameTables(k, k') && CalmTable(k.threads, k'.threads)
    requires OneRunning(k') && Current(k').id != 0 && (Current(k').state == Finished ==> k'.halted)
    requires forall i | 0 <= i < MAX_THREADS :: k'.threads[i].state != Empty ==> k'.threads[i].id != 0
    ensures Invariant(k')
  {
  }

  lemma SelectionIsCalm(k: Kernel)
    requires Shaped(k)
    ensures SameTables(k, BeforeSelection(k)) && BeforeSelection(k).current == k.current && BeforeSelection(k).halted == k.halted
    ensures CalmTable(k.threads, BeforeSelection(k).threads)
    ensures forall i | 0 <= i < MAX_THREADS ::
              var t, t' := k.threads[i], BeforeSelection(k).threads[i];
              && (t'.state == Empty <==> t.state == Empty) && (t'.state == Running <==> t.state == Running)
              && (t.state == Blocked ==> t'.state == Blocked)
  {
  }

  /** A yield touches no other table; blocked threads stay blocked, and live threads stay live. */
  lemma YieldIsCalm(k: Kernel)
    requires Shaped(k)
    ensures SameTables(k, Yield(k)) && CalmTable(k.threads, Yield(k).threads)
    ensures forall i | 0 <= i < MAX_THREADS :: Yield(k).threads[i].state == Empty <==> k.threads[i].state == Empty
    ensures forall i | 0 <= i < MAX_THREADS && k.threads[i].state == Blocked ::
              Yield(k).threads[i].state == Blocked && Yield(k).threads[i].waitingMutex == k.threads[i].waitingMutex
    ensures Yield(k).current != k.current ==> Current(Yield(k)).state == Running
    ensures OneRunning(k) ==> OneRunning(Yield(k))
    ensures Yield(k).halted == k.halted
  {
    hide Select, Slot, BeforeSelection;
    SelectionIsCalm(k);
    SelectCoversTable(BeforeSelection(k).threads, k.current);
  }

  /** What a call that gives up the processor may have done to the threads by the time it does. */
  ghost predicate Switched(k: Kernel, k': Kernel)
    requires Shaped(k) && Shaped(k')
  {
    && k'.processes == k.processes && k'.mutexes == k.mutexes
    && k'.nextThread == k.nextThread && k'.nextProcess == k.nextProcess && k'.halted == k.halted
    && k'.threads[k.current].id == Current(k).id
    && k'.threads[k.current].process == Current(k).process
    && (forall i | 0 <= i < MAX_THREADS && i != k.current ::
          Calm(k.threads[i], k'.threads[i]) && (k'.threads[i].state == Empty <==> k.threads[i].state == Empty))
    && (k'.current == k.current ==> Current(k).state == Empty || Current(k').state != Empty)
    && (k'.current != k.current ==> Current(k').state == Running)
  }

  lemma BlockSwitches(k: Kernel, t: Thread)
    requires Shaped(k) && t.id == Current(k).id && t.process == Current(k).process && t.state != Empty
    ensures var k' := Yield(WithCurrent(k, t)); Switched(k, k') && k'.futexes == k.futexes
  {
    hide Yield;
    YieldIsCalm(WithCurrent(k, t));
  }

  lemma YieldSwitches(k: Kernel)
    requires Shaped(k)
    ensures Switched(k, Yield(k)) && Yield(k).futexes == k.futexes
  {
    hide Yield;
    YieldIsCalm(k);
  }

  lemma FutexWaitSwitches(k: Kernel, address: nat, matches: bool)
    requires Shaped(k)
    ensures FutexWait(k, address, matches) == k || Switched(k, FutexWait(k, address, matches))
  {
    hide Yield, QueueToJoin;
    var q := QueueToJoin(k.futexes, address, MAX_FUTEXES);
    if FutexWait(k, address, matches) != k {
      var queue := if k.futexes[q].active then k.futexes[q] else Futex(address, [], true);
      BlockSwitches(k.(futexes := k.futexes[q := queue.(waiters := queue.waiters + [Current(k).id])]), Current(k).(state := Blocked));
    }
  }

  /** Calls that may end in a context switch. */
  predicate Switches(c: Call) {
    c.YieldCall? || c.JoinCall? || c.ExitCall? || c.SleepCall? || c.LockCall? || c.FutexWaitCall?
  }

  lemma SwitchingStep(k: Kernel, c: Call)
    requires Shaped(k) && Switches(c)
    ensures var k' := Step(k, c);
            || (Switched(k, k'.(halted := k.halted)) && (k'.halted != k.halted ==> k'.current == k.current))
            || (k'.threads == k.threads && k'.current == k.current && k'.nextThread == k.nextThread && k'.halted == k.halted && k'.processes == k.processes)
            || (c.JoinCall? && c.slot < MAX_THREADS && c.slot != k.current && k.threads[c.slot].state == Finished
                && k' == k.(threads := k.threads[c.slot := k.threads[c.slot].(state := Empty)]))
  {
    hide Yield, FutexWait, FindMutex, Calm;
    match c
    case YieldCall => YieldSwitches(k);
    case JoinCall(slot) => YieldSwitches(k);
    case ExitCall => BlockSwitches(k, Current(k).(state := Finished));
    case SleepCall(ticks) => BlockSwitches(k, Current(k).(wakeTick := k.tick + ticks, state := Sleeping));
    case LockCall(id) => BlockSwitches(k, Current(k).(state := Blocked, waitingMutex := id));
    case FutexWaitCall(address, matches) => FutexWaitSwitches(k, address, matches);
  }

  /** The calls that give up the processor do so as a yield of some state with the same other threads. */
  lemma SwitchingIsYield(k: Kernel, c: Call) returns (w: Kernel)
    requires Shaped(k) && Switches(c) && !k.halted
    ensures Shaped(w) && w.current == k.current && w.tick == k.tick && forall j | 0 <= j < MAX_THREADS && j != k.current :: w.threads[j] == k.threads[j]
    ensures Current(w).(state := Empty, wakeTick := 0, waitingMutex := 0) == Current(k).(state := Empty, wakeTick := 0, waitingMutex := 0)
    ensures var k' := Step(k, c);
            || (k'.threads == Yield(w).threads && k'.tick == Yield(w).tick && k'.current == Yield(w).current)
            || (k'.threads == k.threads && k'.tick == k.tick && k'.current == k.current)
            || (c.JoinCall? && c.slot < MAX_THREADS && c.slot != k.current && k.threads[c.slot].state == Finished
                && k'.tick == k.tick && k'.current == k.current && k'.threads == k.threads[c.slot := k.threads[c.slot].(state := Empty)])
  {
    hide Yield, FindMutex, QueueToJoin;
    w := k;
    match c
    case YieldCall =>
    case JoinCall(slot) =>
    case ExitCall => w := WithCurrent(k, Current(k).(state := Finished));
    case SleepCall(ticks) => w := WithCurrent(k, Current(k).(wakeTick := k.tick + ticks, state := Sleeping));
    case LockCall(id) => w := WithCurrent(k, Current(k).(state := Blocked, waitingMutex := id));
    case FutexWaitCall(address, matches) =>
      if Joins(k, address, matches) {
        var q := QueueToJoin(k.futexes, address, MAX_FUTEXES);
        var queue := if k.futexes[q].active then k.futexes[q] else Futex(address, [], true);
        w := WithCurrent(k.(futexes := k.futexes[q := queue.(waiters := queue.waiters + [Current(k).id])]), Current(k).(state := Blocked));
      }
  }

  lemma YieldKeepsInvariant(k: Kernel)
    requires Invariant(k.(halted := true)) && Shaped(k)
    ensures Invariant(Yield(k).(halted := true))
    ensures Current(k).state != Finished || Yield(k).current != k.current ==> Invariant(Yield(k))
  {
    hide Yield;
    YieldIsCalm(k);
    var k' := Yield(k);
    assert Current(k').id == k.threads[k'.current].id;
    CalmKeepsInvariant(k.(halted := true), k'.(halted := true));
  }

  /** Block, put to sleep or finish the current thread, with the bookkeeping in place, and yield. */
  lemma BlockingKeepsInvariant(k: Kernel, t: Thread)
    requires Invariant(k) && !k.halted && t.id == Current(k).id
    requires t.state == Sleeping || t.state == Finished || (t.state == Blocked && (t.waitingMutex != 0 || Queued(k.futexes, t.id)))
    ensures var k' := Yield(WithCurrent(k, t));
            Invariant(if t.state == Finished then k'.(halted := k'.current == k.current) else k')
  {
    hide Yield;
    var w := WithCurrent(k, t);
    assert Current(w) == t;
    assert Ids(w) && NoOrphan(w.threads, w.futexes);
    YieldKeepsInvariant(w);
    if t.state == Finished {
      var k' := Yield(w);
      YieldIsCalm(w);
      assert k'.(halted := k'.current == k.current) == if k'.current == k.current then k'.(halted := true) else k';
    }
  }

  lemma FreeSlotInQueues(qs: seq<Futex>, address: nat, n: nat)
    requires n <= |qs|
    ensures var q := QueueToJoin(qs, address, n);
            && (q >= 0 ==> !qs[q].active || qs[q].address == address)
            && (q < 0 || !qs[q].active ==> forall j | 0 <= j < n :: qs[j].active ==> qs[j].address != address)
  {
  }

  lemma FutexWaitKeepsInvariant(k: Kernel, address: nat, matches: bool)
    requires Invariant(k) && !k.halted
    ensures Invariant(FutexWait(k, address, matches))
  {
    hide Yield, QueueToJoin;
    var q := QueueToJoin(k.futexes, address, MAX_FUTEXES);
    FreeSlotInQueues(k.futexes, address, MAX_FUTEXES);
    if address != 0 && matches && q >= 0 && |k.futexes[q].waiters| < MAX_THREADS {
      var queue := if k.futexes[q].active then k.futexes[q] else Futex(address, [], true);
      var joined := queue.(waiters := queue.waiters + [Current(k).id]);
      var k1 := k.(futexes := k.futexes[q := joined]);
      QueuedAfterJoin(k.futexes, q, joined);
      assert k1.futexes[q] == joined && Current(k).id in joined.waiters;
      assert Invariant(k1);
      BlockingKeepsInvariant(k1, Current(k).(state := Blocked));
    }
  }

  lemma QueuedAfterJoin(qs: seq<Futex>, q: nat, joined: Futex)
    requires q < |qs| && joined.active
    requires qs[q].active ==> forall id | id in qs[q].waiters :: id in joined.waiters
    ensures forall id :: Queued(qs, id) ==> Queued(qs[q := joined], id)
  {
    forall id | Queued(qs, id) ensures Queued(qs[q := joined], id) {
      var p :| 0 <= p < |qs| && qs[p].active && id in qs[p].waiters;
      assert qs[q := joined][p].active && id in qs[q := joined][p].waiters;
    }
  }

  lemma HaltedStays(k: Kernel, c: Call)
    requires Shaped(k) && k.halted
    ensures Step(k, c) == k
  {
  }

  lemma NewIdsDiffer(k: Kernel, i: nat)
    requires Invariant(k) && i < MAX_THREADS
    ensures k.threads[i].id < k.nextThread
  {
  }

  // ---- waking ----

  /** Ids of live threads name their slots. */
  ghost predicate DistinctIds(ts: seq<Thread>) {
    && (forall i, j | 0 <= i < j < |ts| :: ts[i].id == 0 || ts[i].id != ts[j].id)
    && (forall i | 0 <= i < |ts| :: ts[i].state != Empty ==> ts[i].id != 0)
  }

  lemma FindThreadFinds(ts: seq<Thread>, i: nat)
    requires DistinctIds(ts) && i < |ts| && ts[i].state != Empty
    ensures FindThread(ts, ts[i].id) == i
  {
  }

  /** Waking changes nothing but the state of threads that were blocked: they become ready. */
  ghost predicate OnlyReadies(ts: seq<Thread>, ts': seq<Thread>) {
    |ts'| == |ts| && forall i | 0 <= i < |ts| ::
      ts'[i] == ts[i] || (ts[i].state == Blocked && ts'[i] == ts[i].(state := Ready))
  }

  lemma {:induction false} WakeOnlyReadies(ts: seq<Thread>, waiters: seq<nat>, count: nat)
    ensures OnlyReadies(ts, WakeWaiters(ts, waiters, count).threads)
    decreases |waiters|
  {
    if count > 0 && waiters != [] {
      if StillBlocked(ts, waiters[0]) {
        WakeOnlyReadies(Readied(ts, waiters[0]), waiters[1..], count - 1);
      } else {
        WakeOnlyReadies(ts, waiters[1..], count);
      }
    }
  }

  /** A thread whose id left the queue is not blocked any more. */
  lemma {:induction false} PoppedAreNotBlocked(ts: seq<Thread>, waiters: seq<nat>, count: nat, i: nat)
    requires DistinctIds(ts) && i < |ts| && ts[i].id in waiters
    ensures var r := WakeWaiters(ts, waiters, count); r.threads[i].state == Blocked ==> ts[i].id in r.rest
    decreases |waiters|
  {
    hide FindThread, StillBlocked;
    if count > 0 {
      var head := waiters[0];
      var ts1 := if StillBlocked(ts, head) then Readied(ts, head) else ts;
      var count1 := if StillBlocked(ts, head) then count - 1 else count;
      ReadiedIsCalm(ts, head);
      WakeOnlyReadies(ts1, waiters[1..], count1);
      if ts[i].id in waiters[1..] {
        PoppedAreNotBlocked(ts1, waiters[1..], count1, i);
      } else {
        assert head == ts[i].id;
        HeadIsReadied(ts, i);
      }
    }
  }

  lemma ReadiedIsCalm(ts: seq<Thread>, id: nat)
    requires DistinctIds(ts)
    ensures OnlyReadies(ts, Readied(ts, id)) && DistinctIds(Readied(ts, id))
  {
  }

  lemma HeadIsReadied(ts: seq<Thread>, i: nat)
    requires DistinctIds(ts) && i < |ts|
    ensures if StillBlocked(ts, ts[i].id) then Readied(ts, ts[i].id)[i].state != Blocked else ts[i].state != Blocked
  {
    if ts[i].state != Empty { FindThreadFinds(ts, i); }
  }

  lemma FutexWakeKeepsInvariant(k: Kernel, address: nat, count: nat)
    requires Invariant(k) && !k.halted
    ensures Invariant(FutexWake(k, address, count))
  {
    hide FindQueue, WakeWaiters;
    var q := FindQueue(k.futexes, address);
    if address != 0 && count != 0 && q < MAX_FUTEXES {
      var waiters := k.futexes[q].waiters;
      var r := WakeWaiters(k.threads, waiters, count);
      WakeOnlyReadies(k.threads, waiters, count);
      var k' := FutexWake(k, address, count);
      forall i | 0 <= i < MAX_THREADS && k'.threads[i].state == Blocked && k'.threads[i].waitingMutex == 0
        ensures Queued(k'.futexes, k'.threads[i].id)
      {
        assert k'.threads[i] == k.threads[i];
        var id := k.threads[i].id;
        var p :| 0 <= p < MAX_FUTEXES && k.futexes[p].active && id in k.futexes[p].waiters;
        if p == q {
          PoppedAreNotBlocked(k.threads, waiters, count, i);
        }
        assert k'.futexes[p].active && id in k'.futexes[p].waiters;
      }
    }
  }

  // ---- every call, every run ----

  lemma CalmCallKeepsInvariant(k: Kernel, k': Kernel)
    requires Invariant(k) && !k.halted && !k'.halted && SameTables(k, k') && k'.current == k.current
    requires CalmTable(k.threads, k'.threads)
    requires forall i | 0 <= i < MAX_THREADS ::
      (k'.threads[i].state == Running ==> k.threads[i].state == Running) && (k'.threads[i].state != Empty ==> k.threads[i].state != Empty)
    ensures Invariant(k')
  {
    CalmKeepsInvariant(k, k');
  }

  lemma CreateProcessKeepsInvariant(k: Kernel)
    requires Invariant(k) && !k.halted
    ensures Invariant(CreateProcess(k))
  {
    hide FindProcessSlot, Queued;
  }

  lemma CreateThreadKeepsInvariant(k: Kernel, process: nat, possible: bool)
    requires Invariant(k) && !k.halted
    ensures Invariant(CreateThread(k, process, possible))
  {
    hide FindProcess, FindThreadSlot, Queued;
  }

  lemma CreateMutexKeepsInvariant(k: Kernel)
    requires Invariant(k) && !k.halted
    ensures Invariant(CreateMutex(k))
  {
    hide FindMutexSlot, Queued;
  }

  lemma UnlockKeepsInvariant(k: Kernel, id: nat)
    requires Invariant(k) && !k.halted
    ensures Invariant(Unlock(k, id))
  {
    hide FindMutex, NextOwner;
  }

  lemma LockKeepsInvariant(k: Kernel, id: nat)
    requires Invariant(k) && !k.halted
    ensures Invariant(Lock(k, id))
  {
    hide FindMutex, Yield;
    var m := FindMutex(k.mutexes, id);
    if m < MAX_MUTEXES && k.mutexes[m].locked && k.mutexes[m].owner != Current(k).id {
      BlockingKeepsInvariant(k, Current(k).(state := Blocked, waitingMutex := id));
    }
  }

  lemma TickKeepsInvariant(k: Kernel)
    requires Invariant(k) && !k.halted
    ensures Invariant(Tick(k))
  {
    hide Queued;
    CalmCallKeepsInvariant(k, Tick(k));
  }

  lemma YieldCallKeepsInvariant(k: Kernel)
    requires Invariant(k) && !k.halted
    ensures Invariant(Yield(k))
  {
    hide Yield, Queued;
    YieldKeepsInvariant(k);
  }

  lemma JoinKeepsInvariant(k: Kernel, slot: nat)
    requires Invariant(k) && !k.halted
    ensures Invariant(JoinPoll(k, slot))
  {
    hide Queued, Yield;
    if slot < MAX_THREADS && slot != k.current {
      if k.threads[slot].state == Finished { CalmCallKeepsInvariant(k, JoinPoll(k, slot)); } else { YieldKeepsInvariant(k); }
    }
  }

  lemma SignalKeepsInvariant(k: Kernel, id: nat, signal: nat)
    requires Invariant(k) && !k.halted
    ensures Invariant(Signal(k, id, signal))
  {
    hide Queued, FindThread;
    CalmCallKeepsInvariant(k, Signal(k, id, signal));
  }

  lemma SetPriorityKeepsInvariant(k: Kernel, id: nat, priority: nat)
    requires Invariant(k) && !k.halted
    ensures Invariant(SetPriority(k, id, priority))
  {
    hide Queued, FindThread;
    CalmCallKeepsInvariant(k, SetPriority(k, id, priority));
  }

  lemma SleepKeepsInvariant(k: Kernel, ticks: nat)
    requires Invariant(k) && !k.halted
    ensures Invariant(Sleep(k, ticks))
  {
    hide Yield, Queued;
    if ticks > 0 { BlockingKeepsInvariant(k, Current(k).(wakeTick := k.tick + ticks, state := Sleeping)); }
  }

  lemma StepKeepsInvariant(k: Kernel, c: Call)
    requires Invariant(k)
    ensures Invariant(Step(k, c))
  {
    hide Yield, Tick, FutexWait, FutexWake, Lock, Unlock, CreateThread, CreateProcess, CreateMutex, TerminateProcess, JoinPoll;
    hide SetPriority, Signal, Sleep, Ids, OneRunning, MutexTable, OneQueuePerAddress, NoOrphan;
    if !k.halted {
      match c
      case TickCall => TickKeepsInvariant(k);
      case YieldCall => YieldCallKeepsInvariant(k);
      case CreateProcessCall => CreateProcessKeepsInvariant(k);
      case CreateThreadCall(process, possible) => CreateThreadKeepsInvariant(k, process, possible);
      case TerminateCall(process) => TerminateKeepsInvariant(k, process);
      case JoinCall(slot) => JoinKeepsInvariant(k, slot);
      case ExitCall => BlockingKeepsInvariant(k, Current(k).(state := Finished));
      case PriorityCall(id, priority) => SetPriorityKeepsInvariant(k, id, priority);
      case SleepCall(ticks) => SleepKeepsInvariant(k, ticks);
      case SignalCall(id, signal) => SignalKeepsInvariant(k, id, signal);
      case CreateMutexCall => CreateMutexKeepsInvariant(k);
      case LockCall(id) => LockKeepsInvariant(k, id);
      case UnlockCall(id) => UnlockKeepsInvariant(k, id);
      case FutexWaitCall(address, matches) => FutexWaitKeepsInvariant(k, address, matches);
      case FutexWakeCall(address, count) => FutexWakeKeepsInvariant(k, address, count);
    }
  }

  lemma TerminateKeepsInvariant(k: Kernel, process: nat)
    requires Invariant(k) && !k.halted
    ensures Invariant(TerminateProcess(k, process))
  {
    hide FindProcess;
    var k' := TerminateProcess(k, process);
    assert Current(k').id == Current(k).id;
  }

  lemma BootInvariant()
    ensures Invariant(Boot())
  {
  }

  /** The scheduler invariant holds after every run from boot, with all calls mixed in any order. */
  lemma {:induction false} InvariantHolds(calls: seq<Call>)
    ensures Shaped(Boot()) && Invariant(Run(Boot(), calls))
  {
    hide Step, Boot, Invariant;
    BootInvariant();
    BootShaped();
    if calls != [] {
      var last := |calls| - 1;
      InvariantHolds(calls[..last]);
      StepKeepsInvariant(Run(Boot(), calls[..last]), calls[last]);
    }
  }

  lemma BootShaped()
    ensures Shaped(Boot())
  {
  }
}
