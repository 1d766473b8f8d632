/** What a lock call that has to wait returns, once its thread runs again. */
module LockOutcomes {
  import opened Threads
  import opened SchedulerSafety
  import opened MutexSafety
  import opened Futexes
  import opened Lifecycles

  /** The current thread's lock call has to wait: another thread holds the mutex. */
  predicate HasToWait(k: Kernel, id: nat)
    requires Shaped(k)
  {
    var m := FindMutex(k.mutexes, id);
    !k.halted && m < MAX_MUTEXES && k.mutexes[m].locked && k.mutexes[m].owner != Current(k).id
  }

  /** The thread in slot i does not run before the end of the run. */
  predicate WaitsThrough(k: Kernel, i: nat, calls: seq<Call>)
    requires Shaped(k)
  {
    calls == [] || (WaitsThrough(k, i, calls[..|calls| - 1]) && Run(k, calls[..|calls| - 1]).current != i)
  }

  /** The call readies the waiter in slot i without any mutex: a signal to it, or a futex wake that reaches it in a queue it was left in. */
  predicate Interrupts(k: Kernel, c: Call, i: nat)
    requires Shaped(k) && i < MAX_THREADS
  {
    var x := k.threads[i].id;
    match c
    case SignalCall(id, signal) => !k.halted && id == x && signal < 32
    case FutexWakeCall(address, count) => !k.halted && WakeReaches(k, address, count, x)
    case _ => false
  }

  predicate WakeReaches(k: Kernel, address: nat, count: nat, x: nat)
    requires Shaped(k)
  {
    var q := FindQueue(k.futexes, address);
    && address != 0 && q < MAX_FUTEXES
    && var all := BlockedWaiters(k.threads, k.futexes[q].waiters, {}); x in all[..Least(count, |all|)]
  }

  /** No call interrupts the thread in slot i while it waits for the mutex. */
  predicate Uninterrupted(k: Kernel, i: nat, id: nat, calls: seq<Call>)
    requires Shaped(k) && i < MAX_THREADS
  {
    calls == [] ||
      (var before, c := calls[..|calls| - 1], calls[|calls| - 1];
       var b := Run(k, before);
       Uninterrupted(k, i, id, before) && (WaitsFor(b.threads[i], id) ==> !Interrupts(b, c, i)))
  }

  // ---- left alone, the mutex arrives ----

  /** While its thread lives, the wait is either still on, or over with the mutex handed to the thread. */
  predicate Pending(k: Kernel, i: nat, m: nat, id: nat)
    requires Shaped(k) && i < MAX_THREADS && m < MAX_MUTEXES
  {
    && k.mutexes[m].active && k.mutexes[m].id == id
    && (k.threads[i].state != Empty ==> k.mutexes[m].locked && Served(k, i, m, id))
  }

  predicate Served(k: Kernel, i: nat, m: nat, id: nat)
    requires Shaped(k) && i < MAX_THREADS && m < MAX_MUTEXES
  {
    if k.mutexes[m].owner == k.threads[i].id then k.threads[i].state != Blocked else WaitsFor(k.threads[i], id)
  }

  lemma SwitchKeepsWaiter(k: Kernel, c: Call, i: nat)
    requires Shaped(k) && Switches(c) && i < MAX_THREADS && i != k.current && k.threads[i].state == Blocked
    ensures Step(k, c).threads[i].state == Blocked && Step(k, c).threads[i].waitingMutex == k.threads[i].waitingMutex
  {
    hide Yield, Step;
    if k.halted { HaltedStays(k, c); } else {
      var w := SwitchingIsYield(k, c);
      YieldIsCalm(w);
    }
  }

  /** A futex wake readies a blocked thread exactly if it reaches it. */
  lemma WakeReadies(k: Kernel, address: nat, count: nat, i: nat)
    requires Invariant(k) && i < MAX_THREADS && k.threads[i].state == Blocked
    ensures var t' := FutexWake(k, address, count).threads[i];
            t' == if WakeReaches(k, address, count, k.threads[i].id) then k.threads[i].(state := Ready) else k.threads[i]
  {
    hide FindQueue, BlockedWaiters, FutexWake, OneRunning, MutexTable, OneQueuePerAddress, NoOrphan;
    FutexWakeEffect(k, address, count);
    if address != 0 && count != 0 && FindQueue(k.futexes, address) < MAX_FUTEXES {
      FutexWakeExact(k, address, count);
      FutexWakeKeepsIds(k, address, count);
      FindThreadFinds(k.threads, i);
      FindThreadFinds(FutexWake(k, address, count).threads, i);
    } else {
      NoWake(k, address, count);
    }
  }

  lemma NoWake(k: Kernel, address: nat, count: nat)
    requires Shaped(k) && (address == 0 || count == 0 || FindQueue(k.futexes, address) == MAX_FUTEXES)
    ensures FutexWake(k, address, count) == k
  {
  }

  lemma FutexWakeKeepsIds(k: Kernel, address: nat, count: nat)
    requires Invariant(k)
    ensures DistinctIds(k.threads) && DistinctIds(FutexWake(k, address, count).threads)
  {
    hide FutexWake;
    FutexWakeEffect(k, address, count);
  }

  lemma UnlockHandsOver(k: Kernel, id: nat, i: nat, m: nat)
    requires Invariant(k) && i < MAX_THREADS && m < MAX_MUTEXES && k.mutexes[m].active && WaitsFor(k.threads[i], k.mutexes[m].id)
    requires k.mutexes[m].owner != k.threads[i].id
    ensures var k' := Unlock(k, id);
            k'.threads[i].id == k.threads[i].id && Served(k', i, m, k.mutexes[m].id)
  {
    hide FindMutex, NextOwner;
  }

  lemma CallKeepsWaiter(k: Kernel, c: Call, i: nat, m: nat)
    requires Invariant(k) && i < MAX_THREADS && i != k.current && m < MAX_MUTEXES
    requires k.mutexes[m].active && k.mutexes[m].locked && k.mutexes[m].owner != k.threads[i].id && WaitsFor(k.threads[i], k.mutexes[m].id)
    requires !Interrupts(k, c, i)
    requires Step(k, c).threads[i].id == k.threads[i].id
    ensures Step(k, c).threads[i].state == Empty || Served(Step(k, c), i, m, k.mutexes[m].id)
  {
    TablesKept(k, c);
    hide Ids, OneRunning, MutexTable, OneQueuePerAddress, NoOrphan;
    if Switches(c) {
      SwitchKeepsOwner(k, c, m);
      hide Step;
      SwitchKeepsWaiter(k, c, i);
    } else if !k.halted {
      hide Switches, FindThread, FindMutex, FindProcess, FindProcessSlot, FindThreadSlot, FindMutexSlot, FutexWake, Unlock;
      match c
      case UnlockCall(id) => UnlockHandsOver(k, id, i, m);
      case FutexWakeCall(address, count) => WakeReadies(k, address, count, i);
      case _ =>
    }
  }

  lemma SwitchKeepsOwner(k: Kernel, c: Call, m: nat)
    requires Invariant(k) && Switches(c) && m < MAX_MUTEXES && k.mutexes[m].active && k.mutexes[m].locked
    ensures Step(k, c).mutexes[m] == k.mutexes[m]
  {
    hide Step;
    OwnershipChangesOnlyByUnlock(k, c, m);
  }

  lemma PendingStaysPending(k: Kernel, c: Call, i: nat, x: nat, m: nat, id: nat)
    requires Invariant(k) && i < MAX_THREADS && m < MAX_MUTEXES && i != k.current && k.threads[i].id == x
    requires Pending(k, i, m, id) && (WaitsFor(k.threads[i], id) ==> !Interrupts(k, c, i))
    ensures Step(k, c).threads[i].id == x ==> Pending(Step(k, c), i, m, id)
  {
    hide Step, OneRunning, MutexTable, OneQueuePerAddress, NoOrphan, Interrupts;
    StepEffect(k, c);
    var k' := Step(k, c);
    assert SlotStep(k, k', i);
    MutexesStay(k, c, m);
    if k'.threads[i].id == x && k'.threads[i].state != Empty {
      assert k.threads[i].state != Empty && Current(k).id != x;
      OwnershipChangesOnlyByUnlock(k, c, m);
      if k.mutexes[m].owner != x {
        CallKeepsWaiter(k, c, i, m);
      } else {
        NotBlockedByOthers(k, c, i);
      }
    }
  }

  lemma NotBlockedByOthers(k: Kernel, c: Call, i: nat)
    requires Invariant(k) && i < MAX_THREADS && i != k.current && k.threads[i].state != Blocked
    ensures Step(k, c).threads[i].state != Blocked
  {
    hide Ids, OneRunning, MutexTable, OneQueuePerAddress, NoOrphan;
    if Switches(c) {
      hide Step;
      SwitchingStep(k, c);
    } else {
      hide Switches, FindThread, FindMutex, FindProcess, FindProcessSlot, FindThreadSlot, FindMutexSlot, FutexWake;
      match c
      case FutexWakeCall(address, count) => FutexWakeEffect(k, address, count);
      case _ =>
    }
  }

  // ---- interrupted, it never does ----

  /** The thread does not own the mutex and is not waiting for anything. */
  predicate Refused(k: Kernel, i: nat, m: nat, id: nat)
    requires Shaped(k) && i < MAX_THREADS && m < MAX_MUTEXES
  {
    && k.mutexes[m].active && k.mutexes[m].id == id
    && k.mutexes[m].owner != k.threads[i].id && k.threads[i].state != Blocked
  }

  lemma MutexesStay(k: Kernel, c: Call, m: nat)
    requires Shaped(k) && m < MAX_MUTEXES && k.mutexes[m].active
    ensures Step(k, c).mutexes[m].active && Step(k, c).mutexes[m].id == k.mutexes[m].id
  {
    TablesKept(k, c);
    if !k.halted {
      hide Yield, FindThread, FindMutex, FindMutexSlot, NextOwner, FutexWait, FutexWake;
      match c
      case LockCall(id) => YieldIsCalm(WithCurrent(k, Current(k).(state := Blocked, waitingMutex := id)));
      case _ =>
    }
  }

  lemma NewOwners(k: Kernel, c: Call, m: nat, x: nat)
    requires Invariant(k) && m < MAX_MUTEXES && k.mutexes[m].active && k.mutexes[m].owner != x && x != 0 && Current(k).id != x
    requires forall j | 0 <= j < MAX_THREADS && k.threads[j].id == x :: k.threads[j].state != Blocked
    ensures Step(k, c).mutexes[m].owner != x
  {
    hide Yield, FindMutex, FindMutexSlot, NextOwner, Ids, OneRunning, OneQueuePerAddress, NoOrphan;
    TablesKept(k, c);
    if !k.halted {
      match c
      case LockCall(id) => YieldIsCalm(WithCurrent(k, Current(k).(state := Blocked, waitingMutex := id)));
      case _ =>
    }
  }

  lemma RefusedStaysRefused(k: Kernel, c: Call, i: nat, m: nat, id: nat)
    requires Invariant(k) && i < MAX_THREADS && m < MAX_MUTEXES && i != k.current && k.threads[i].id != 0 && Refused(k, i, m, id)
    ensures Step(k, c).threads[i].id == k.threads[i].id ==> Refused(Step(k, c), i, m, id)
  {
    MutexesStay(k, c, m);
    assert Current(k).id != k.threads[i].id;
    NewOwners(k, c, m, k.threads[i].id);
    NotBlockedByOthers(k, c, i);
  }

  lemma InterruptionRefuses(k: Kernel, c: Call, i: nat, m: nat, id: nat)
    requires Invariant(k) && i < MAX_THREADS && m < MAX_MUTEXES && Pending(k, i, m, id)
    requires WaitsFor(k.threads[i], id) && Interrupts(k, c, i)
    ensures Refused(Step(k, c), i, m, id)
  {
    TablesKept(k, c);
    MutexesStay(k, c, m);
    assert DistinctIds(k.threads);
    hide Ids, OneRunning, MutexTable, OneQueuePerAddress, NoOrphan, FutexWake, WakeReaches, FindThread;
    FindThreadFinds(k.threads, i);
    match c
    case FutexWakeCall(address, count) => WakeReadies(k, address, count, i);
    case _ =>
  }

  // ---- the call ----

  /** How far the wait has come, as long as the thread keeps its slot. */
  predicate Outcome(k: Kernel, i: nat, x: nat, m: nat, id: nat, uninterrupted: bool)
    requires Shaped(k) && i < MAX_THREADS && m < MAX_MUTEXES
  {
    k.threads[i].id == x ==> if uninterrupted then Pending(k, i, m, id) else Refused(k, i, m, id)
  }

  lemma {:induction false} WaitComesOut(k: Kernel, i: nat, m: nat, id: nat, calls: seq<Call>)
    requires Invariant(k) && i < MAX_THREADS && m < MAX_MUTEXES && 0 < k.threads[i].id < k.nextThread
    requires Pending(k, i, m, id) && WaitsThrough(k, i, calls)
    ensures var k' := Run(k, calls);
            && Invariant(k') && k.threads[i].id < k'.nextThread
            && Outcome(k', i, k.threads[i].id, m, id, Uninterrupted(k, i, id, calls))
            && (calls != [] && k'.current == i ==> Current(k').state == Running)
  {
    hide Step, Pending, Refused, Interrupts, WaitsFor, Ids, OneRunning, MutexTable, OneQueuePerAddress, NoOrphan;
    if calls != [] {
      var before, c, x := calls[..|calls| - 1], calls[|calls| - 1], k.threads[i].id;
      var b := Run(k, before);
      WaitComesOut(k, i, m, id, before);
      StepKeepsInvariant(b, c);
      StepEffect(b, c);
      assert SlotStep(b, Step(b, c), i);
      if b.threads[i].id == x {
        if !Uninterrupted(k, i, id, before) {
          RefusedStaysRefused(b, c, i, m, id);
        } else if WaitsFor(b.threads[i], id) && Interrupts(b, c, i) {
          InterruptionRefuses(b, c, i, m, id);
        } else {
          PendingStaysPending(b, c, i, x, m, id);
        }
      }
    }
  }

  lemma FoundAgain(ms: seq<Mutex>, next: nat, m: nat, id: nat)
    requires MutexTable(ms, next) && m < |ms|
    ensures ms[m].active && ms[m].id == id ==> FindMutex(ms, id) == m
  {
    if ms[m].active && ms[m].id == id { FindMutexFinds(ms, next, m); }
  }

  lemma CurrentHasId(k: Kernel)
    requires Invariant(k)
    ensures 0 < Current(k).id < k.nextThread && MutexTable(k.mutexes, k.nextMutex)
  {
  }

  /**
   A lock call that has to wait returns when its thread runs again. It returns true, and the thread
   owns the mutex, exactly if there was another thread to switch to and nothing interrupted the wait.
   */
  lemma WaitingLockReturns(k: Kernel, id: nat, calls: seq<Call>)
    requires Invariant(k) && HasToWait(k, id) && WaitsThrough(Lock(k, id), k.current, calls)
    ensures var k1, k' := Lock(k, id), Run(Lock(k, id), calls);
            k'.current == k.current && Current(k').id == Current(k).id ==>
              (LockReturns(k', id) <==> calls != [] && Uninterrupted(k1, k.current, id, calls))
  {
    hide Yield, FindMutex, Ids, OneRunning, OneQueuePerAddress, NoOrphan, WaitsThrough, Uninterrupted, MutexTable, Run;
    var i, x, m := k.current, Current(k).id, FindMutex(k.mutexes, id);
    YieldIsCalm(WithCurrent(k, Current(k).(state := Blocked, waitingMutex := id)));
    var k1 := Lock(k, id);
    assert k1 == Step(k, LockCall(id));
    StepKeepsInvariant(k, LockCall(id));
    CurrentHasId(k);
    WaitComesOut(k1, i, m, id, calls);
    var k' := Run(k1, calls);
    CurrentHasId(k');
    FoundAgain(k'.mutexes, k'.nextMutex, m, id);
    if calls == [] { RunNothing(k1); }
  }

  lemma RunNothing(k: Kernel)
    requires Shaped(k)
    ensures Run(k, []) == k
  {
  }
}
