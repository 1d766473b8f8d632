/** How long a sleep lasts. */
module Sleeping {
  import opened Threads
  import opened Dispatching
  import opened SchedulerSafety
  import opened MutexSafety
  import opened Lifecycles
  import opened LockOutcomes

  /** No call of the run is a signal to thread x. */
  predicate Unsignalled(calls: seq<Call>, x: nat) {
    forall c | c in calls :: !(c.SignalCall? && c.id == x)
  }

  /** Asleep until the due tick, and ready from then on. */
  predicate SleepsUntil(t: Thread, tick: nat, due: nat) {
    if tick < due then t.state == Sleeping && t.wakeTick == due else t.state == Ready
  }

  /** A yield wakes another thread when its tick has come, and not before. */
  lemma YieldOnSleeper(k: Kernel, i: nat, due: nat)
    requires Shaped(k) && i < MAX_THREADS && i != k.current && SleepsUntil(k.threads[i], k.tick, due)
    ensures var k' := Yield(k);
            k'.tick == k.tick + 1 && if k'.current == i then k'.tick >= due && k'.threads[i].state == Running else SleepsUntil(k'.threads[i], k'.tick, due)
  {
    hide Select, Slot;
    SelectCoversTable(BeforeSelection(k).threads, k.current);
  }

  /** Where the sleep has come to, as long as the thread keeps its slot. */
  predicate Asleep(k: Kernel, i: nat, due: nat)
    requires Shaped(k) && i < MAX_THREADS
  {
    k.threads[i].state == Empty ||
      if k.current == i then k.tick >= due && k.threads[i].state == Running else SleepsUntil(k.threads[i], k.tick, due)
  }

  lemma OtherCallOnSleeper(k: Kernel, c: Call, i: nat, due: nat)
    requires Invariant(k) && i < MAX_THREADS && i != k.current && k.threads[i].id != 0 && Asleep(k, i, due) && !Switches(c)
    requires !(c.SignalCall? && c.id == k.threads[i].id)
    ensures Step(k, c).threads[i].id == k.threads[i].id ==> Asleep(Step(k, c), i, due)
  {
    hide FindThread, FindMutex, FindProcess, FindProcessSlot, FindThreadSlot, FindMutexSlot, FutexWake;
    hide Ids, OneRunning, NoOrphan, MutexTable, OneQueuePerAddress;
    match c
    case FutexWakeCall(address, count) =>
      FutexWakeEffect(k, address, count);
      FutexWakeKeepsClock(k, address, count);
    case CreateThreadCall(process, possible) => NewIdsDiffer(k, i);
    case _ =>
  }

  lemma FutexWakeKeepsClock(k: Kernel, address: nat, count: nat)
    requires Shaped(k)
    ensures FutexWake(k, address, count).tick == k.tick
  {
  }

  lemma CallOnSleeper(k: Kernel, c: Call, i: nat, due: nat)
    requires Invariant(k) && i < MAX_THREADS && i != k.current && k.threads[i].id != 0 && Asleep(k, i, due)
    requires !(c.SignalCall? && c.id == k.threads[i].id)
    ensures Step(k, c).threads[i].id == k.threads[i].id ==> Asleep(Step(k, c), i, due)
  {
    if Switches(c) && !k.halted {
      hide Step, Invariant, Yield;
      var w := SwitchingIsYield(k, c);
      if k.threads[i].state != Empty {
        YieldOnSleeper(w, i, due);
      } else {
        YieldIsCalm(w);
      }
    } else if !k.halted {
      OtherCallOnSleeper(k, c, i, due);
    }
  }

  lemma {:induction false} SleeperOverRun(k: Kernel, i: nat, due: nat, calls: seq<Call>)
    requires Invariant(k) && i < MAX_THREADS && 0 < k.threads[i].id < k.nextThread && Asleep(k, i, due)
    requires WaitsThrough(k, i, calls) && Unsignalled(calls, k.threads[i].id)
    ensures var k' := Run(k, calls);
            && Invariant(k') && k.threads[i].id < k'.nextThread
            && (k'.threads[i].id == k.threads[i].id ==> Asleep(k', i, due))
  {
    hide Step, Asleep, Ids, OneRunning, NoOrphan, MutexTable, OneQueuePerAddress;
    if calls != [] {
      var before, c, x := calls[..|calls| - 1], calls[|calls| - 1], k.threads[i].id;
      var b := Run(k, before);
      assert c in calls && forall d | d in before :: d in calls;
      SleeperOverRun(k, i, due, before);
      StepKeepsInvariant(b, c);
      StepEffect(b, c);
      assert SlotStep(b, Step(b, c), i);
      if b.threads[i].id == x { CallOnSleeper(b, c, i, due); }
    }
  }

  /**
   A thread that sleeps, and switches away, sleeps for exactly the ticks asked for. Over every run of
   the other threads' calls without a signal to it, as long as its slot is its own: it is asleep
   while fewer ticks have passed, and ready, or just dispatched, from then on.
   */
  lemma SleepLasts(k: Kernel, ticks: nat, calls: seq<Call>)
    requires Invariant(k) && !k.halted && ticks > 0 && Sleep(k, ticks).current != k.current
    requires WaitsThrough(Sleep(k, ticks), k.current, calls) && Unsignalled(calls, Current(k).id)
    ensures var k', i := Run(Sleep(k, ticks), calls), k.current;
            k'.threads[i].id == Current(k).id && k'.threads[i].state != Empty ==>
              && (k'.tick < k.tick + ticks <==> k'.threads[i].state == Sleeping)
              && (k'.tick >= k.tick + ticks <==> k'.threads[i].state == (if k'.current == i then Running else Ready))
  {
    hide Yield, Ids, OneRunning, NoOrphan, MutexTable, OneQueuePerAddress, WaitsThrough, Run;
    var i, k1 := k.current, Sleep(k, ticks);
    assert k1 == Step(k, SleepCall(ticks));
    StepKeepsInvariant(k, SleepCall(ticks));
    CurrentHasId(k);
    GoesToSleep(k, ticks);
    SleeperOverRun(k1, i, k.tick + ticks, calls);
  }

  /** In the yield of the sleep itself the thread may already be due, if it sleeps for one tick. */
  lemma GoesToSleep(k: Kernel, ticks: nat)
    requires Shaped(k) && ticks > 0
    ensures var k' := Sleep(k, ticks);
            && k'.tick == k.tick + 1 && k'.threads[k.current].id == Current(k).id && k'.nextThread == k.nextThread
            && (k'.current != k.current ==> SleepsUntil(k'.threads[k.current], k'.tick, k.tick + ticks))
  {
    hide Select, Slot;
    var w := WithCurrent(k, Current(k).(wakeTick := k.tick + ticks, state := Sleeping));
    SelectCoversTable(BeforeSelection(w).threads, w.current);
  }

  /**
   A sleep of more than one tick with no other thread to run returns at once: only one tick has
   passed, and the thread is ready.
   */
  lemma SleepReturnsAtOnce(k: Kernel, ticks: nat)
    requires Shaped(k) && ticks > 1
    ensures var k' := Sleep(k, ticks);
            k'.current == k.current <==> forall j | 0 <= j < MAX_THREADS && j != k.current :: k.threads[j].state != Ready && !Due(k.threads[j], k.tick + 1)
    ensures var k' := Sleep(k, ticks); k'.current == k.current ==> k'.tick == k.tick + 1 && Current(k').state == Ready
  {
    hide Select, Slot;
    var w := WithCurrent(k, Current(k).(wakeTick := k.tick + ticks, state := Sleeping));
    YieldReturnsToCaller(w);
    var ts := BeforeSelection(w).threads;
    assert ts[k.current].state == Sleeping && BeforeSelection(w).current == k.current;
    assert forall j | 0 <= j < MAX_THREADS && j != k.current :: ts[j].state == Ready <==> k.threads[j].state == Ready || Due(k.threads[j], k.tick + 1);
    SelectCoversTable(ts, w.current);
  }
}
